/** `topological_sort`: a post-order depth-first search over the dependency
    graph with a visited set, seeded by the graph's keys in insertion order.
    A name is marked visited, its unvisited dependencies are visited in list
    order, and then the name is appended to the output.  A name that is not
    a key, or whose entry is `None`, is appended without expansion.

    The search is a pair of mutually recursive functions over a `State`.  It
    terminates because every call to `Visit` adds a new name to the visited
    set, and all names come from the finite set of keys and listed
    dependencies (`Universe`). */
module TopologicalOrder {
  import opened Wrappers
  import opened Dicts
  import opened DependencyGraph

  /** The visited set and the output list built so far. */
  datatype State = State(visited: set<string>, out: seq<string>)

  /** What the search expands for `n`: the dependency list of a key that
      maps to a list, and nothing for a `None` entry or a name that is not
      a key (`graph.get(node) is not None`). */
  function Neighbors(g: Graph, n: string): seq<string>
  {
    var e := Get(g, n);
    if e.Some? && e.value.Some? then e.value.value else []
  }

  /** Every name the graph mentions: its keys and all their listed dependencies. */
  function Universe(g: Graph): set<string>
  {
    if |g| == 0 then {}
    else {g[0].0} + (if g[0].1.Some? then Elems(g[0].1.value) else {}) + Universe(g[1..])
  }

  function Elems(s: seq<string>): set<string>
  {
    set x | x in s
  }

  predicate NoDuplicates(s: seq<string>)
  {
    forall i, j :: 0 <= i < j < |s| ==> s[i] != s[j]
  }

  /** The search's standing invariant: visited names are names of the graph,
      the output repeats nothing and holds only visited names. */
  predicate Valid(g: Graph, st: State)
  {
    && st.visited <= Universe(g)
    && NoDuplicates(st.out)
    && Elems(st.out) <= st.visited
  }

  /** `r` extends `st`: more visited, and the old output is a prefix of the
      new one whose added names were all unvisited in `st`. */
  predicate Extends(st: State, r: State)
  {
    && st.visited <= r.visited
    && |st.out| <= |r.out|
    && r.out[..|st.out|] == st.out
    && (forall k :: |st.out| <= k < |r.out| ==> r.out[k] !in st.visited)
    && r.visited == st.visited + Elems(r.out[|st.out|..])
  }

  /** `dfs(node)`: mark `n`, visit its unvisited dependencies, append `n`. */
  function Visit(g: Graph, n: string, st: State): (r: State)
    requires Valid(g, st)
    requires n in Universe(g) && n !in st.visited
    ensures Valid(g, r) && Extends(st, r)
    ensures |r.out| > |st.out| && r.out[|r.out| - 1] == n
    ensures n in r.visited
    decreases |Universe(g) - st.visited|, 0
  {
    NeighborsInUniverse(g, n);
    var st1 := State(st.visited + {n}, st.out);
    assert |Universe(g) - st1.visited| < |Universe(g) - st.visited| by {
      assert Universe(g) - st1.visited == (Universe(g) - st.visited) - {n};
    }
    var st2 := VisitAll(g, Neighbors(g, n), st1);
    Finish(g, n, st, st2);
    State(st2.visited, st2.out + [n])
  }

  /** Appending `n` once its dependencies are done keeps the invariant. */
  lemma Finish(g: Graph, n: string, st: State, st2: State)
    requires Valid(g, st)
    requires n in Universe(g) && n !in st.visited
    requires Valid(g, st2) && Extends(State(st.visited + {n}, st.out), st2)
    ensures Valid(g, State(st2.visited, st2.out + [n]))
    ensures Extends(st, State(st2.visited, st2.out + [n]))
  {
    FinishFresh(n, st, st2);
    FinishValid(g, n, st, st2);
    FinishExtends(n, st, st2);
  }

  /** `n` was marked before the dependencies were visited, so they never output it. */
  lemma FinishFresh(n: string, st: State, st2: State)
    requires Elems(st.out) <= st.visited && n !in st.visited
    requires Extends(State(st.visited + {n}, st.out), st2)
    ensures n !in st2.out
  {
    forall k | 0 <= k < |st2.out|
      ensures st2.out[k] != n
    {
      if k < |st.out| {
        assert st2.out[k] == st.out[k];
        assert st.out[k] in Elems(st.out);
      }
    }
  }

  lemma FinishValid(g: Graph, n: string, st: State, st2: State)
    requires n !in st.visited && n !in st2.out
    requires Valid(g, st2) && Extends(State(st.visited + {n}, st.out), st2)
    ensures Valid(g, State(st2.visited, st2.out + [n]))
  {
    var out := st2.out + [n];
    assert Elems(out) == Elems(st2.out) + {n};
    forall i, j | 0 <= i < j < |out|
      ensures out[i] != out[j]
    {
      if j == |st2.out| {
        assert out[i] == st2.out[i];
      }
    }
  }

  lemma FinishExtends(n: string, st: State, st2: State)
    requires n !in st.visited
    requires Extends(State(st.visited + {n}, st.out), st2)
    ensures Extends(st, State(st2.visited, st2.out + [n]))
  {
    var r := State(st2.visited, st2.out + [n]);
    var m := |st.out|;
    assert r.out[..m] == st.out by {
      assert r.out[..m] == st2.out[..m];
    }
    forall k | m <= k < |r.out|
      ensures r.out[k] !in st.visited
    {
      if k < |st2.out| {
        assert r.out[k] == st2.out[k];
      }
    }
    var added := st2.out[m..];
    assert r.out[m..] == added + [n];
    assert Elems(added + [n]) == Elems(added) + {n};
    assert st2.visited == st.visited + {n} + Elems(added);
  }

  /** The loop `for neighbor in deps: if neighbor not in visited: dfs(neighbor)`;
      the top-level seed loop is the same walk over the graph's keys. */
  function VisitAll(g: Graph, ns: seq<string>, st: State): (r: State)
    requires Valid(g, st)
    requires forall x :: x in ns ==> x in Universe(g)
    ensures Valid(g, r) && Extends(st, r)
    ensures forall x :: x in ns ==> x in r.visited
    decreases |Universe(g) - st.visited|, 1, |ns|
  {
    if |ns| == 0 then st
    else
      var st1 := if ns[0] in st.visited then st else Visit(g, ns[0], st);
      FewerUnvisited(Universe(g), st.visited, st1.visited);
      var r := VisitAll(g, ns[1..], st1);
      VisitAllStep(ns, st, st1, r);
      r
  }

  /** Marking more names leaves fewer of `u` unmarked: the search's measure. */
  lemma FewerUnvisited(u: set<string>, before: set<string>, after: set<string>)
    requires before <= after
    ensures |u - after| <= |u - before|
  {
    var kept, dropped := u - after, (u - before) - (u - after);
    assert u - before == kept + dropped;
    assert kept * dropped == {};
  }

  /** The loop body's bookkeeping: the first name is visited by `st1`, the
      rest by `r`, and the extensions compose. */
  lemma VisitAllStep(ns: seq<string>, st: State, st1: State, r: State)
    requires |ns| > 0
    requires Extends(st, st1) && Extends(st1, r)
    requires ns[0] in st1.visited
    requires forall x :: x in ns[1..] ==> x in r.visited
    ensures Extends(st, r)
    ensures forall x :: x in ns ==> x in r.visited
  {
    ExtendsTrans(st, st1, r);
    assert forall x :: x in ns ==> x == ns[0] || x in ns[1..];
  }

  /** `Extends` composes. */
  lemma ExtendsTrans(a: State, b: State, c: State)
    requires Extends(a, b) && Extends(b, c)
    ensures Extends(a, c)
  {
    assert c.out[..|b.out|][..|a.out|] == c.out[..|a.out|];
    assert c.out[|a.out|..] == b.out[|a.out|..] + c.out[|b.out|..];
    assert Elems(c.out[|a.out|..]) == Elems(b.out[|a.out|..]) + Elems(c.out[|b.out|..]);
    forall k | |b.out| <= k < |c.out|
      ensures c.out[k] !in a.visited
    {
    }
    forall k | |a.out| <= k < |b.out|
      ensures c.out[k] !in a.visited
    {
      assert c.out[k] == c.out[..|b.out|][k] == b.out[k];
    }
  }

  /** The dependencies of any name are names of the graph. */
  lemma {:induction false} NeighborsInUniverse(g: Graph, n: string)
    ensures forall x :: x in Neighbors(g, n) ==> x in Universe(g)
  {
    if |g| > 0 && g[0].0 != n {
      NeighborsInUniverse(g[1..], n);
    }
  }

  /** `topological_sort`: one search seeded by every key in insertion order. */
  function TopologicalSort(g: Graph): (r: seq<string>)
    ensures NoDuplicates(r)
    ensures forall k :: k in Keys(g) ==> k in r
    ensures forall x :: x in r ==> x in Universe(g)
  {
    KeysInUniverse(g);
    var st := VisitAll(g, Keys(g), State({}, []));
    assert st.out[0..] == st.out;
    st.out
  }

  lemma {:induction false} KeysInUniverse(g: Graph)
    ensures forall k :: k in Keys(g) ==> k in Universe(g)
  {
    if |g| > 0 {
      KeysInUniverse(g[1..]);
      assert Keys(g) == [g[0].0] + Keys(g[1..]);
    }
  }

  /** A visited name whose dependencies are still being explored: marked
      but not yet appended. */
  function Gray(st: State): set<string>
  {
    st.visited - Elems(st.out)
  }

  /** An extension appends only names it also marked, so the in-progress
      names are the same before and after. */
  lemma GrayKept(st: State, r: State)
    requires Elems(st.out) <= st.visited
    requires Extends(st, r)
    ensures Gray(r) == Gray(st)
  {
    var added := r.out[|st.out|..];
    assert r.out == st.out + added;
    assert Elems(r.out) == Elems(st.out) + Elems(added);
    forall x | x in Elems(added)
      ensures x !in st.visited
    {
      var k :| 0 <= k < |added| && added[k] == x;
      assert r.out[|st.out| + k] == x;
    }
  }

  /** `rank` witnesses that the graph has no cycle: every listed dependency
      ranks strictly below the name that lists it. */
  ghost predicate Ranked(g: Graph, rank: string -> nat)
  {
    forall n, j :: 0 <= j < |Neighbors(g, n)| ==> rank(Neighbors(g, n)[j]) < rank(n)
  }

  /** Every name in `s` comes after all of its dependencies. */
  predicate DependenciesFirst(g: Graph, s: seq<string>)
  {
    forall i, j :: 0 <= i < |s| && 0 <= j < |Neighbors(g, s[i])| ==> Neighbors(g, s[i])[j] in s[..i]
  }

  /** On an acyclic graph, `Visit` appends every name after its
      dependencies, provided every in-progress name ranks above `n`. */
  lemma {:induction false} VisitOrdered(g: Graph, rank: string -> nat, n: string, st: State)
    requires Valid(g, st) && n in Universe(g) && n !in st.visited
    requires Ranked(g, rank) && DependenciesFirst(g, st.out)
    requires forall y :: y in Gray(st) ==> rank(n) < rank(y)
    ensures DependenciesFirst(g, Visit(g, n, st).out)
    decreases |Universe(g) - st.visited|, 0
  {
    NeighborsInUniverse(g, n);
    var st1 := State(st.visited + {n}, st.out);
    assert |Universe(g) - st1.visited| < |Universe(g) - st.visited| by {
      assert Universe(g) - st1.visited == (Universe(g) - st.visited) - {n};
    }
    var ns := Neighbors(g, n);
    forall x, y | x in ns && y in Gray(st1)
      ensures rank(x) < rank(y)
    {
      var j :| 0 <= j < |ns| && ns[j] == x;
      assert rank(ns[j]) < rank(n);
    }
    VisitAllOrdered(g, rank, ns, st1);
    var st2 := VisitAll(g, ns, st1);
    AppendOrdered(g, st2.out, n);
  }

  /** A name whose dependencies are all present may be appended. */
  lemma AppendOrdered(g: Graph, s: seq<string>, n: string)
    requires DependenciesFirst(g, s)
    requires forall x :: x in Neighbors(g, n) ==> x in s
    ensures DependenciesFirst(g, s + [n])
  {
    var t := s + [n];
    forall i, j | 0 <= i < |t| && 0 <= j < |Neighbors(g, t[i])|
      ensures Neighbors(g, t[i])[j] in t[..i]
    {
      if i == |s| {
        assert t[..i] == s;
      } else {
        assert t[i] == s[i];
        assert t[..i] == s[..i];
      }
    }
  }

  /** The same for a list of names each ranking below every in-progress
      name; in addition every listed name ends up in the output. */
  lemma {:induction false} VisitAllOrdered(g: Graph, rank: string -> nat, ns: seq<string>, st: State)
    requires Valid(g, st) && forall x :: x in ns ==> x in Universe(g)
    requires Ranked(g, rank) && DependenciesFirst(g, st.out)
    requires forall x, y :: x in ns && y in Gray(st) ==> rank(x) < rank(y)
    ensures DependenciesFirst(g, VisitAll(g, ns, st).out)
    ensures forall x :: x in ns ==> x in VisitAll(g, ns, st).out
    decreases |Universe(g) - st.visited|, 1, |ns|
  {
    if |ns| > 0 {
      var x := ns[0];
      var st1 := if x in st.visited then st else Visit(g, x, st);
      if x !in st.visited {
        VisitOrdered(g, rank, x, st);
      }
      OrderedHead(rank, ns, st, st1);
      FewerUnvisited(Universe(g), st.visited, st1.visited);
      VisitAllOrdered(g, rank, ns[1..], st1);
      var r := VisitAll(g, ns[1..], st1);
      OrderedTail(ns, st1, r);
    }
  }

  /** After the first listed name is handled -- either it was already
      visited, or `Visit` appended it last -- it is in the output, and the
      rest of the list still ranks below every in-progress name. */
  lemma OrderedHead(rank: string -> nat, ns: seq<string>, st: State, st1: State)
    requires Elems(st.out) <= st.visited && |ns| > 0
    requires forall x, y :: x in ns && y in Gray(st) ==> rank(x) < rank(y)
    requires || (ns[0] in st.visited && st1 == st)
             || (Extends(st, st1) && |st1.out| > 0 && st1.out[|st1.out| - 1] == ns[0])
    ensures ns[0] in st1.out
    ensures forall x, y :: x in ns[1..] && y in Gray(st1) ==> rank(x) < rank(y)
  {
    var x := ns[0];
    if ns[0] in st.visited && st1 == st {
      assert x in ns && !(rank(x) < rank(x));
      assert x !in Gray(st);
      assert x in Elems(st.out);
    } else {
      GrayKept(st, st1);
    }
    forall a, b | a in ns[1..] && b in Gray(st1)
      ensures rank(a) < rank(b)
    {
      assert a in ns;
    }
  }

  /** The first name output before the rest are visited stays output. */
  lemma OrderedTail(ns: seq<string>, st1: State, r: State)
    requires |ns| > 0 && ns[0] in st1.out && Extends(st1, r)
    requires forall x :: x in ns[1..] ==> x in r.out
    ensures forall x :: x in ns ==> x in r.out
  {
    ExtendsKeeps(st1, r, ns[0]);
    assert forall y :: y in ns ==> y == ns[0] || y in ns[1..];
  }

  /** An extension keeps what was already output. */
  lemma ExtendsKeeps(st: State, r: State, x: string)
    requires Extends(st, r)
    requires x in st.out
    ensures x in r.out
  {
    var k :| 0 <= k < |st.out| && st.out[k] == x;
    assert r.out[..|st.out|][k] == r.out[k];
  }

  /** On an acyclic graph the order places every name after all of its
      dependencies, so a class is generated after the classes it uses. */
  lemma TopologicalSortOrdered(g: Graph, rank: string -> nat)
    requires Ranked(g, rank)
    ensures DependenciesFirst(g, TopologicalSort(g))
  {
    KeysInUniverse(g);
    assert DependenciesFirst(g, []);
    VisitAllOrdered(g, rank, Keys(g), State({}, []));
  }

  /** Every output name has had all of its dependencies marked. */
  predicate Closed(g: Graph, st: State)
  {
    forall i, j :: 0 <= i < |st.out| && 0 <= j < |Neighbors(g, st.out[i])| ==> Neighbors(g, st.out[i])[j] in st.visited
  }

  lemma {:induction false} VisitClosed(g: Graph, n: string, st: State)
    requires Valid(g, st) && n in Universe(g) && n !in st.visited
    requires Closed(g, st)
    ensures Closed(g, Visit(g, n, st))
    decreases |Universe(g) - st.visited|, 0
  {
    NeighborsInUniverse(g, n);
    var st1 := State(st.visited + {n}, st.out);
    assert |Universe(g) - st1.visited| < |Universe(g) - st.visited| by {
      assert Universe(g) - st1.visited == (Universe(g) - st.visited) - {n};
    }
    VisitAllClosed(g, Neighbors(g, n), st1);
    var st2 := VisitAll(g, Neighbors(g, n), st1);
    AppendClosed(g, st2, n);
  }

  lemma AppendClosed(g: Graph, st: State, n: string)
    requires Closed(g, st)
    requires forall x :: x in Neighbors(g, n) ==> x in st.visited
    ensures Closed(g, State(st.visited, st.out + [n]))
  {
    var t := st.out + [n];
    forall i, j | 0 <= i < |t| && 0 <= j < |Neighbors(g, t[i])|
      ensures Neighbors(g, t[i])[j] in st.visited
    {
      if i < |st.out| {
        assert t[i] == st.out[i];
      }
    }
  }

  lemma {:induction false} VisitAllClosed(g: Graph, ns: seq<string>, st: State)
    requires Valid(g, st) && forall x :: x in ns ==> x in Universe(g)
    requires Closed(g, st)
    ensures Closed(g, VisitAll(g, ns, st))
    decreases |Universe(g) - st.visited|, 1, |ns|
  {
    if |ns| > 0 {
      var st1 := if ns[0] in st.visited then st else Visit(g, ns[0], st);
      if ns[0] !in st.visited {
        VisitClosed(g, ns[0], st);
      }
      FewerUnvisited(Universe(g), st.visited, st1.visited);
      VisitAllClosed(g, ns[1..], st1);
    }
  }

  /** A name of the graph is a key or is listed under some entry. */
  lemma {:induction false} UniverseEntry(g: Graph, x: string) returns (i: nat)
    requires x in Universe(g)
    ensures i < |g|
    ensures x == g[i].0 || (g[i].1.Some? && x in g[i].1.value)
  {
    if x == g[0].0 || (g[0].1.Some? && x in Elems(g[0].1.value)) {
      i := 0;
    } else {
      var k := UniverseEntry(g[1..], x);
      i := k + 1;
    }
  }

  /** With unique keys the order holds every key and every listed
      dependency, each exactly once, and nothing else. */
  lemma TopologicalSortComplete(g: Graph)
    requires UniqueKeys(g)
    ensures forall x :: x in TopologicalSort(g) <==> x in Universe(g)
  {
    KeysInUniverse(g);
    var st0 := State({}, []);
    assert Closed(g, st0);
    VisitAllClosed(g, Keys(g), st0);
    var st := VisitAll(g, Keys(g), st0);
    var r := TopologicalSort(g);
    assert r == st.out;
    assert st.out[0..] == st.out;
    assert st.visited == Elems(st.out);
    forall x | x in Universe(g)
      ensures x in r
    {
      var i := UniverseEntry(g, x);
      var k := g[i].0;
      assert Keys(g)[i] == k;
      assert k in r;
      if x != k {
        GetAtIndex(g, i);
        var ns := Neighbors(g, k);
        var j :| 0 <= j < |ns| && ns[j] == x;
        var p :| 0 <= p < |r| && r[p] == k;
        assert Neighbors(g, st.out[p])[j] in st.visited;
      }
    }
  }

  /** A name that is not a key, or whose entry is `None`, is appended
      without looking at any dependency. */
  lemma LeafAppended(g: Graph, n: string, st: State)
    requires Valid(g, st) && n in Universe(g) && n !in st.visited
    requires Get(g, n).None? || Get(g, n) == Some(None)
    ensures Visit(g, n, st) == State(st.visited + {n}, st.out + [n])
  {
  }

  /** The two-name cycle A -> B -> A. */
  const Cycle: Graph := [("A", Some(["B"])), ("B", Some(["A"]))]

  lemma CycleFacts()
    ensures Keys(Cycle) == ["A", "B"]
    ensures Neighbors(Cycle, "A") == ["B"] && Neighbors(Cycle, "B") == ["A"]
    ensures Universe(Cycle) == {"A", "B"}
  {
    assert Cycle[1..] == [("B", Some(["A"]))];
    assert Elems(["A"]) == {"A"} && Elems(["B"]) == {"B"};
    assert Universe(Cycle[1..][1..]) == {};
  }

  /** One step of `dfs`: expand the dependencies with `n` marked, then append `n`. */
  lemma VisitUnfold(g: Graph, n: string, st: State)
    requires Valid(g, st) && n in Universe(g) && n !in st.visited
    ensures Valid(g, State(st.visited + {n}, st.out))
    ensures forall x :: x in Neighbors(g, n) ==> x in Universe(g)
    ensures var st2 := VisitAll(g, Neighbors(g, n), State(st.visited + {n}, st.out));
      Visit(g, n, st) == State(st2.visited, st2.out + [n])
  {
    NeighborsInUniverse(g, n);
  }

  /** The neighbour loop over a single name. */
  lemma VisitAllOne(g: Graph, x: string, st: State)
    requires Valid(g, st) && x in Universe(g)
    ensures VisitAll(g, [x], st) == if x in st.visited then st else Visit(g, x, st)
  {
    assert [x][1..] == [];
  }

  /** A graph whose only names are `a` and `b`, each depending on the other. */
  predicate TwoCycle(g: Graph, a: string, b: string)
  {
    && a != b
    && Keys(g) == [a, b]
    && Neighbors(g, a) == [b] && Neighbors(g, b) == [a]
    && Universe(g) == {a, b}
  }

  /** `dfs(b)` with `a` already marked finds `a` visited and appends `b`. */
  lemma TwoCycleInner(g: Graph, a: string, b: string)
    requires TwoCycle(g, a, b)
    ensures Visit(g, b, State({a}, [])) == State({a, b}, [b])
  {
    var sa := State({a}, []);
    assert Valid(g, sa);
    VisitUnfold(g, b, sa);
    assert sa.visited + {b} == {a, b};
    VisitAllOne(g, a, State({a, b}, []));
  }

  /** `dfs(a)` from scratch descends into `b` first, so `b` is output before `a`. */
  lemma TwoCycleOuter(g: Graph, a: string, b: string)
    requires TwoCycle(g, a, b)
    ensures Visit(g, a, State({}, [])) == State({a, b}, [b, a])
  {
    var s0 := State({}, []);
    var sa := State({a}, []);
    assert Valid(g, s0) && Valid(g, sa);
    VisitUnfold(g, a, s0);
    assert s0.visited + {a} == sa.visited;
    VisitAllOne(g, b, sa);
    TwoCycleInner(g, a, b);
    assert [b] + [a] == [b, a];
  }

  /** The whole sort of a two-name cycle outputs `b` and then `a`. */
  lemma TwoCycleSort(g: Graph, a: string, b: string)
    requires TwoCycle(g, a, b)
    ensures TopologicalSort(g) == [b, a]
  {
    var s0 := State({}, []);
    var s2 := State({a, b}, [b, a]);
    assert Valid(g, s0) && Valid(g, s2);
    TwoCycleOuter(g, a, b);
    assert VisitAll(g, [a, b], s0) == VisitAll(g, [b], s2) by {
      assert [a, b][1..] == [b];
    }
    VisitAllOne(g, b, s2);
  }

  /** On a cycle the search still ends, but a name can precede one of its
      dependencies: from A -> B -> A the order is B, A, and B's dependency A
      comes after it. */
  lemma CycleExample()
    ensures TopologicalSort(Cycle) == ["B", "A"]
    ensures !DependenciesFirst(Cycle, TopologicalSort(Cycle))
  {
    CycleFacts();
    TwoCycleSort(Cycle, "A", "B");
    var r := TopologicalSort(Cycle);
    assert Neighbors(Cycle, r[0])[0] !in r[..0];
  }
}
