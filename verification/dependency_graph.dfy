/** `build_graph`: the map from each shape name to the names it directly
    depends on.  A member that refers to a list depends on the list's element
    shape, one that refers to a map on its key and then its value shape, and
    any other member on the shape it names.  Members whose shape is not in
    the table are skipped without error, so a structure none of whose members
    resolve gets no entry at all, while a shape without a "members" key maps
    to `None`. */
module DependencyGraph {
  import opened Wrappers
  import opened Dicts
  import opened ShapeModel

  /** Shape name to `None` (a leaf) or its dependency names, in insertion order. */
  type Graph = Dict<Option<seq<string>>>

  /** A list without "member", or a map without "key" or "value": reading
      the missing field raises. */
  predicate Malformed(t: Shape) {
    || (t.kind == "list" && t.member.None?)
    || (t.kind == "map" && (t.key.None? || t.value.None?))
  }

  /** What one member whose shape is `ref` contributes to its owner's list. */
  function MemberDeps(shapes: Dict<Shape>, ref: string): (r: Result<seq<string>, CodegenError>)
    ensures r.Err? <==> Get(shapes, ref).Some? && Malformed(Get(shapes, ref).value)
    ensures r.Ok? && Get(shapes, ref).None? ==> r.value == []
    ensures r.Ok? && Get(shapes, ref).Some? ==> 1 <= |r.value| <= 2
    ensures Get(shapes, ref).Some? ==> var t := Get(shapes, ref).value;
      (t.kind == "list" && t.member.Some? ==> r == Ok([t.member.value]))
    ensures Get(shapes, ref).Some? ==> var t := Get(shapes, ref).value;
      (t.kind == "map" && t.key.Some? && t.value.Some? ==> r == Ok([t.key.value, t.value.value]))
    ensures Get(shapes, ref).Some? ==> var t := Get(shapes, ref).value;
      (t.kind != "list" && t.kind != "map" ==> r == Ok([ref]))
  {
    match Get(shapes, ref)
    case None => Ok([])
    case Some(target) =>
      if target.kind == "list" then
        if target.member.Some? then Ok([target.member.value]) else Err(KeyError("member"))
      else if target.kind == "map" then
        if target.key.None? then Err(KeyError("key"))
        else if target.value.None? then Err(KeyError("value"))
        else Ok([target.key.value, target.value.value])
      else Ok([ref])
  }

  /** The dependency list of a structure with `members`: each member's
      contribution in declaration order, stopping at the first member whose
      shape is malformed. */
  function MembersDeps(shapes: Dict<Shape>, members: Dict<Member>): Result<seq<string>, CodegenError>
  {
    if |members| == 0 then Ok([])
    else
      match MembersDeps(shapes, members[..|members| - 1])
      case Err(e) => Err(e)
      case Ok(prefix) =>
        match MemberDeps(shapes, members[|members| - 1].1.shape)
        case Err(e) => Err(e)
        case Ok(d) => Ok(prefix + d)
  }

  /** The graph entries one shape produces: one entry, or none for a
      structure whose members contribute nothing. */
  function EntryOf(shapes: Dict<Shape>, entry: (string, Shape)): Result<Graph, CodegenError>
  {
    if entry.1.members.None? then Ok([(entry.0, None)])
    else
      match MembersDeps(shapes, entry.1.members.value)
      case Err(e) => Err(e)
      case Ok(deps) => if deps == [] then Ok([]) else Ok([(entry.0, Some(deps))])
  }

  /** The graph built from `entries` (a prefix of the shapes table) in order. */
  function GraphOf(shapes: Dict<Shape>, entries: Dict<Shape>): Result<Graph, CodegenError>
  {
    if |entries| == 0 then Ok([])
    else
      match GraphOf(shapes, entries[..|entries| - 1])
      case Err(e) => Err(e)
      case Ok(g) =>
        match EntryOf(shapes, entries[|entries| - 1])
        case Err(e) => Err(e)
        case Ok(es) => Ok(g + es)
  }

  /** `build_graph`, loop for loop: the outer loop walks the shapes, the
      inner one a structure's members; for a member whose shape is known it
      reads `graph.get(node, [])`, appends the unwrapped names and stores the
      list back under `node`. */
  method BuildGraph(shapes: Dict<Shape>) returns (r: Result<Graph, CodegenError>)
    requires UniqueKeys(shapes)
    ensures r == GraphOf(shapes, shapes)
  {
    var graph: Graph := [];
    var i := 0;
    while i < |shapes|
      invariant 0 <= i <= |shapes|
      invariant GraphOf(shapes, shapes[..i]) == Ok(graph)
    {
      var (node, attributes) := shapes[i];
      UniquePrefix(shapes, i);
      FreshNode(shapes, i);
      GraphGet(shapes, shapes[..i], graph, node);
      GraphOfStep(shapes, shapes, i);
      if attributes.members.Some? {
        var walked := AddMemberDeps(shapes, node, attributes.members.value, graph);
        if walked.Err? {
          GraphOfErrExtends(shapes, shapes, i + 1);
          assert shapes[..|shapes|] == shapes;
          return walked;
        }
        graph := walked.value;
      } else {
        graph := Put(graph, node, None);
      }
      i := i + 1;
    }
    assert shapes[..i] == shapes;
    return Ok(graph);
  }

  /** The member loop of `build_graph` for one structure `node`, which is not yet
      in `graph`.  Its entry is created by the first member that contributes,
      and grows with every later one. */
  method AddMemberDeps(shapes: Dict<Shape>, node: string, members: Dict<Member>, graph: Graph) returns (r: Result<Graph, CodegenError>)
    requires Get(graph, node) == None
    ensures MembersDeps(shapes, members).Err? ==> r == Err(MembersDeps(shapes, members).error)
    ensures MembersDeps(shapes, members).Ok? ==> r == Ok(Stored(graph, node, MembersDeps(shapes, members).value))
  {
    var current := graph;
    var j := 0;
    while j < |members|
      invariant 0 <= j <= |members|
      invariant MembersDeps(shapes, members[..j]).Ok?
      invariant Stored(graph, node, MembersDeps(shapes, members[..j]).value) == current
    {
      var d := MembersDeps(shapes, members[..j]).value;
      MembersDepsStep(shapes, members, j);
      var step := AddMember(shapes, node, members[j].1.shape, graph, d, current);
      if step.Err? {
        MembersDepsErrExtends(shapes, members, j + 1);
        return step;
      }
      current := step.value;
      j := j + 1;
    }
    assert members[..j] == members;
    return Ok(current);
  }

  /** One pass of the member loop: a member whose shape is unknown changes
      nothing; otherwise its contribution is appended to the entry of
      `node`, which holds the contributions `d` of the earlier members. */
  method AddMember(shapes: Dict<Shape>, node: string, ref: string, graph: Graph, d: seq<string>, current: Graph) returns (r: Result<Graph, CodegenError>)
    requires Get(graph, node) == None
    requires current == Stored(graph, node, d)
    ensures MemberDeps(shapes, ref).Err? ==> r == Err(MemberDeps(shapes, ref).error)
    ensures MemberDeps(shapes, ref).Ok? ==> r == Ok(Stored(graph, node, d + MemberDeps(shapes, ref).value))
  {
    if Get(shapes, ref).None? {
      assert d + [] == d;
      return Ok(current);
    }
    var stored := Get(current, node);
    var nodeDeps := if stored.Some? && stored.value.Some? then stored.value.value else [];
    StoredGet(graph, node, d);
    var appended := AppendMemberDeps(shapes, ref, nodeDeps);
    if appended.Err? {
      return Err(appended.error);
    }
    StoredPut(graph, node, d, appended.value);
    assert appended.value != [];
    return Ok(Put(current, node, Some(appended.value)));
  }

  /** The body of `build_graph`'s member loop for a member whose shape is
      known: unwrap a list to its element, a map to its key and value, and
      keep any other name. */
  method AppendMemberDeps(shapes: Dict<Shape>, ref: string, nodeDeps: seq<string>) returns (r: Result<seq<string>, CodegenError>)
    requires Get(shapes, ref).Some?
    ensures r.Err? <==> MemberDeps(shapes, ref).Err?
    ensures r.Err? ==> r.error == MemberDeps(shapes, ref).error
    ensures r.Ok? ==> r.value == nodeDeps + MemberDeps(shapes, ref).value
  {
    var memberShape := Get(shapes, ref).value;
    var deps := nodeDeps;
    if memberShape.kind == "list" {
      if memberShape.member.None? {
        return Err(KeyError("member"));
      }
      deps := deps + [memberShape.member.value];
    } else if memberShape.kind == "map" {
      if memberShape.key.None? {
        return Err(KeyError("key"));
      }
      deps := deps + [memberShape.key.value];
      if memberShape.value.None? {
        return Err(KeyError("value"));
      }
      deps := deps + [memberShape.value.value];
    } else {
      deps := deps + [ref];
    }
    return Ok(deps);
  }

  /** The graph while a structure's members are walked: its entry appears
      with the first member that contributes something. */
  function Stored(base: Graph, node: string, d: seq<string>): Graph
  {
    base + (if d == [] then [] else [(node, Some(d))])
  }

  lemma StoredGet(base: Graph, node: string, d: seq<string>)
    requires Get(base, node) == None
    ensures Get(Stored(base, node, d), node) == if d == [] then None else Some(Some(d))
  {
    GetAppend(base, if d == [] then [] else [(node, Some(d))], node);
  }

  lemma StoredPut(base: Graph, node: string, d: seq<string>, d': seq<string>)
    requires Get(base, node) == None
    ensures Put(Stored(base, node, d), node, Some(d')) == base + [(node, Some(d'))]
  {
    if d != [] {
      PutLast(base, node, Some(d), Some(d'));
    } else {
      assert Stored(base, node, d) == base;
    }
  }

  /** One step of the outer walk. */
  lemma GraphOfStep(shapes: Dict<Shape>, entries: Dict<Shape>, i: nat)
    requires i < |entries|
    ensures GraphOf(shapes, entries[..i + 1]) ==
      (match GraphOf(shapes, entries[..i])
       case Err(e) => Err(e)
       case Ok(g) => (match EntryOf(shapes, entries[i]) case Err(e) => Err(e) case Ok(es) => Ok(g + es)))
  {
    assert entries[..i + 1][..i] == entries[..i];
  }

  /** One step of the inner walk. */
  lemma MembersDepsStep(shapes: Dict<Shape>, members: Dict<Member>, j: nat)
    requires j < |members|
    ensures MembersDeps(shapes, members[..j + 1]) ==
      (match MembersDeps(shapes, members[..j])
       case Err(e) => Err(e)
       case Ok(p) => (match MemberDeps(shapes, members[j].1.shape) case Err(e) => Err(e) case Ok(d) => Ok(p + d)))
  {
    assert members[..j + 1][..j] == members[..j];
  }

  /** The key of entry `i` does not occur before it. */
  lemma FreshNode(shapes: Dict<Shape>, i: nat)
    requires UniqueKeys(shapes)
    requires i < |shapes|
    ensures Get(shapes[..i], shapes[i].0) == None
  {
  }

  lemma {:induction false} MembersDepsErrExtends(shapes: Dict<Shape>, members: Dict<Member>, n: nat)
    requires n <= |members|
    requires MembersDeps(shapes, members[..n]).Err?
    ensures MembersDeps(shapes, members) == MembersDeps(shapes, members[..n])
    decreases |members|
  {
    if n < |members| {
      var pre := members[..|members| - 1];
      assert pre[..n] == members[..n];
      MembersDepsErrExtends(shapes, pre, n);
    } else {
      assert members[..n] == members;
    }
  }

  lemma {:induction false} GraphOfErrExtends(shapes: Dict<Shape>, entries: Dict<Shape>, n: nat)
    requires n <= |entries|
    requires GraphOf(shapes, entries[..n]).Err?
    ensures GraphOf(shapes, entries) == GraphOf(shapes, entries[..n])
    decreases |entries|
  {
    if n < |entries| {
      var pre := entries[..|entries| - 1];
      assert pre[..n] == entries[..n];
      GraphOfErrExtends(shapes, pre, n);
    } else {
      assert entries[..n] == entries;
    }
  }

  // ---------------------------------------------------------------------
  // What the graph says about each name

  /** The graph's view of one shape: `Some(None)` for a shape without
      "members", `Some(Some(deps))` for a structure whose members contribute
      something, and no entry (`None`) for a structure whose members
      contribute nothing. */
  function Expected(shapes: Dict<Shape>, s: Shape): Option<Option<seq<string>>>
  {
    if s.members.None? then Some(None)
    else
      match MembersDeps(shapes, s.members.value)
      case Err(_) => None
      case Ok(d) => if d == [] then None else Some(Some(d))
  }

  /** Every lookup in the built graph agrees with `Expected` on the shape of
      that name, and names that are not shapes have no entry. */
  lemma {:induction false} GraphGet(shapes: Dict<Shape>, entries: Dict<Shape>, g: Graph, n: string)
    requires UniqueKeys(entries)
    requires GraphOf(shapes, entries) == Ok(g)
    ensures Get(g, n) == ExpectedIn(shapes, entries, n)
    decreases |entries|
  {
    if |entries| > 0 {
      var pre := entries[..|entries| - 1];
      var last := entries[|entries| - 1];
      var g' := GraphOf(shapes, pre).value;
      var es := EntryOf(shapes, last).value;
      assert g == g' + es;
      UniquePrefix(entries, |entries| - 1);
      GraphGet(shapes, pre, g', n);
      assert entries == pre + [last];
      FreshNode(entries, |entries| - 1);
      GraphGetStep(shapes, pre, last, g', es, n);
    }
  }

  /** One more shape: its entries are found after the earlier ones, and its
      name was not among the earlier shapes. */
  lemma GraphGetStep(shapes: Dict<Shape>, pre: Dict<Shape>, last: (string, Shape), g': Graph, es: Graph, n: string)
    requires Get(pre, last.0) == None
    requires Get(g', n) == ExpectedIn(shapes, pre, n)
    requires EntryOf(shapes, last) == Ok(es)
    ensures Get(g' + es, n) == ExpectedIn(shapes, pre + [last], n)
  {
    GetAppend(g', es, n);
    GetAppend(pre, [last], n);
    EntryOfGet(shapes, last, n);
    if n != last.0 {
      assert Get([last], n) == None;
    }
  }

  /** `Expected` for the shape `entries` has under `n`, `None` when there is none. */
  function ExpectedIn(shapes: Dict<Shape>, entries: Dict<Shape>, n: string): Option<Option<seq<string>>>
  {
    match Get(entries, n)
    case None => None
    case Some(s) => Expected(shapes, s)
  }

  lemma EntryOfGet(shapes: Dict<Shape>, e: (string, Shape), n: string)
    requires EntryOf(shapes, e).Ok?
    ensures Get(EntryOf(shapes, e).value, n) == if n == e.0 then Expected(shapes, e.1) else None
  {
  }

  /** The keys of the built graph are unique. */
  lemma {:induction false} GraphUnique(shapes: Dict<Shape>, entries: Dict<Shape>, g: Graph)
    requires UniqueKeys(entries)
    requires GraphOf(shapes, entries) == Ok(g)
    ensures UniqueKeys(g)
    decreases |entries|
  {
    if |entries| > 0 {
      var pre := entries[..|entries| - 1];
      var last := entries[|entries| - 1];
      var g' := GraphOf(shapes, pre).value;
      var es := EntryOf(shapes, last).value;
      UniquePrefix(entries, |entries| - 1);
      GraphUnique(shapes, pre, g');
      if es != [] {
        FreshNode(entries, |entries| - 1);
        GraphGet(shapes, pre, g', last.0);
        AppendFreshKey(g', last.0, es[0].1);
      }
    }
  }

  /** A shape that gets a key: one without "members", or a structure whose
      members contribute at least one name. */
  predicate GetsKey(shapes: Dict<Shape>, t: Shape) {
    t.members.None? || MembersDeps(shapes, t.members.value) != Ok([])
  }

  /** The names of `entries` that get a key, in the order of `entries`. */
  function KeptKeys(shapes: Dict<Shape>, entries: Dict<Shape>): seq<string>
  {
    if |entries| == 0 then []
    else
      var last := entries[|entries| - 1];
      KeptKeys(shapes, entries[..|entries| - 1]) + (if GetsKey(shapes, last.1) then [last.0] else [])
  }

  /** The graph's keys keep the order of the shapes table: they are its names
      that get a key, and no others. */
  lemma {:induction false} GraphKeys(shapes: Dict<Shape>, entries: Dict<Shape>, g: Graph)
    requires GraphOf(shapes, entries) == Ok(g)
    ensures Keys(g) == KeptKeys(shapes, entries)
    decreases |entries|
  {
    if |entries| > 0 {
      var n := |entries| - 1;
      var g' := GraphOf(shapes, entries[..n]).value;
      var es := EntryOf(shapes, entries[n]).value;
      assert g == g' + es;
      GraphKeys(shapes, entries[..n], g');
      KeysConcat(g', es);
      EntryKeys(shapes, entries[n], es);
    }
  }

  /** One shape's entries carry its name exactly when it gets a key. */
  lemma EntryKeys(shapes: Dict<Shape>, e: (string, Shape), es: Graph)
    requires EntryOf(shapes, e) == Ok(es)
    ensures Keys(es) == if GetsKey(shapes, e.1) then [e.0] else []
  {
    if es != [] {
      assert Keys(es)[0] == e.0;
    }
  }

  /** The properties of `build_graph` for a well-formed result, stated per
      shape name: a shape without "members" maps to `None`; a structure maps
      to the (non-empty) list its members contribute in declaration order;
      a structure whose members contribute nothing, and a name that is not a
      shape, has no key; and no key is repeated. */
  lemma BuildGraphSpec(shapes: Dict<Shape>, g: Graph, n: string)
    requires UniqueKeys(shapes)
    requires GraphOf(shapes, shapes) == Ok(g)
    ensures UniqueKeys(g)
    ensures Keys(g) == KeptKeys(shapes, shapes)
    ensures Get(shapes, n).None? ==> n !in Keys(g)
    ensures Get(shapes, n).Some? && Get(shapes, n).value.members.None? ==> Get(g, n) == Some(None)
    ensures Get(shapes, n).Some? && Get(shapes, n).value.members.Some? ==>
      var ds := MembersDeps(shapes, Get(shapes, n).value.members.value);
      ds.Ok? && (n in Keys(g) <==> ds.value != []) && (ds.value != [] ==> Get(g, n) == Some(Some(ds.value)))
  {
    GraphUnique(shapes, shapes, g);
    GraphKeys(shapes, shapes, g);
    GraphGet(shapes, shapes, g, n);
    if Get(shapes, n).Some? && Get(shapes, n).value.members.Some? {
      var i := GetIndex(shapes, n);
      GraphOfOkEntry(shapes, shapes, i);
    }
  }

  /** When the build succeeds, so does every entry's member walk. */
  lemma {:induction false} GraphOfOkEntry(shapes: Dict<Shape>, entries: Dict<Shape>, i: nat)
    requires GraphOf(shapes, entries).Ok?
    requires i < |entries|
    ensures EntryOf(shapes, entries[i]).Ok?
    decreases |entries|
  {
    if i < |entries| - 1 {
      var pre := entries[..|entries| - 1];
      GraphOfOkEntry(shapes, pre, i);
    }
  }

  /** Member contributions concatenate in declaration order, duplicates and all. */
  lemma {:induction false} MembersDepsConcat(shapes: Dict<Shape>, a: Dict<Member>, b: Dict<Member>)
    requires MembersDeps(shapes, a).Ok? && MembersDeps(shapes, b).Ok?
    ensures MembersDeps(shapes, a + b) == Ok(MembersDeps(shapes, a).value + MembersDeps(shapes, b).value)
    decreases |b|
  {
    if |b| == 0 {
      assert a + b == a;
      assert MembersDeps(shapes, a).value + [] == MembersDeps(shapes, a).value;
    } else {
      var b' := b[..|b| - 1];
      var ab := a + b;
      assert ab[..|ab| - 1] == a + b';
      assert ab[|ab| - 1] == b[|b| - 1];
      var last := MemberDeps(shapes, b[|b| - 1].1.shape);
      assert MembersDeps(shapes, b').Ok? && last.Ok?;
      MembersDepsConcat(shapes, a, b');
      var x := MembersDeps(shapes, a).value;
      var y := MembersDeps(shapes, b').value;
      assert MembersDeps(shapes, ab) == Ok((x + y) + last.value);
      assert MembersDeps(shapes, b) == Ok(y + last.value);
      assert (x + y) + last.value == x + (y + last.value);
    }
  }

  /** The build fails exactly when some structure has a member whose shape is
      a malformed list or map, given that the members before it are fine. */
  lemma {:induction false} GraphOfErrIff(shapes: Dict<Shape>, entries: Dict<Shape>)
    ensures GraphOf(shapes, entries).Err? <==>
      exists i :: 0 <= i < |entries| && entries[i].1.members.Some? && MembersDeps(shapes, entries[i].1.members.value).Err?
    decreases |entries|
  {
    if |entries| > 0 {
      var pre := entries[..|entries| - 1];
      GraphOfErrIff(shapes, pre);
      var k := |entries| - 1;
      if GraphOf(shapes, pre).Err? {
        var i :| 0 <= i < |pre| && pre[i].1.members.Some? && MembersDeps(shapes, pre[i].1.members.value).Err?;
        assert entries[i] == pre[i];
      } else {
        forall i | 0 <= i < k
          ensures !(entries[i].1.members.Some? && MembersDeps(shapes, entries[i].1.members.value).Err?)
        {
          assert entries[i] == pre[i];
        }
      }
    }
  }

  /** A members walk fails exactly when some member's shape is malformed. */
  lemma {:induction false} MembersDepsErrIff(shapes: Dict<Shape>, members: Dict<Member>)
    ensures MembersDeps(shapes, members).Err? <==>
      exists j :: 0 <= j < |members| && MemberDeps(shapes, members[j].1.shape).Err?
    decreases |members|
  {
    if |members| > 0 {
      var pre := members[..|members| - 1];
      MembersDepsErrIff(shapes, pre);
      if MembersDeps(shapes, pre).Err? {
        var j :| 0 <= j < |pre| && MemberDeps(shapes, pre[j].1.shape).Err?;
        assert members[j] == pre[j];
      } else {
        forall j | 0 <= j < |members| - 1
          ensures MemberDeps(shapes, members[j].1.shape).Ok?
        {
          assert members[j] == pre[j];
        }
      }
    }
  }

  // ---------------------------------------------------------------------
  // The CreateExperimentRequest example of the build_graph documentation

  /** Shaped like CreateExperimentRequest: two members (ExperimentName and
      DisplayName) share the scalar shape `name`, one (Description) uses the
      scalar `desc`, and one (Tags) refers to the list `tags` of `tag`.  The
      dependency list keeps the repeated name, in member order, and the list
      member contributes its element shape, not the list itself. */
  lemma {:induction false} ExperimentRequestDeps(shapes: Dict<Shape>, name: string, desc: string, tags: string, tag: string, m1: string, m2: string, m3: string, m4: string)
    requires Get(shapes, name).Some? && Get(shapes, name).value.kind == "string"
    requires Get(shapes, desc).Some? && Get(shapes, desc).value.kind == "string"
    requires Get(shapes, tags) == Some(Shape("list", None, Some(tag), None, None, None))
    ensures MembersDeps(shapes, [(m1, Member(name, None)), (m2, Member(name, None)),
                                 (m3, Member(desc, None)), (m4, Member(tags, None))]) ==
      Ok([name, name, desc, tag])
  {
    var x1, x2, x3, x4 := (m1, Member(name, None)), (m2, Member(name, None)), (m3, Member(desc, None)), (m4, Member(tags, None));
    assert MemberDeps(shapes, name) == Ok([name]);
    assert MemberDeps(shapes, desc) == Ok([desc]);
    assert MemberDeps(shapes, tags) == Ok([tag]);
    MembersDepsSnoc(shapes, [], x1, [], [name]);
    assert [] + [x1] == [x1] && [] + [name] == [name];
    MembersDepsSnoc(shapes, [x1], x2, [name], [name]);
    assert [x1] + [x2] == [x1, x2] && [name] + [name] == [name, name];
    MembersDepsSnoc(shapes, [x1, x2], x3, [name, name], [desc]);
    assert [x1, x2] + [x3] == [x1, x2, x3] && [name, name] + [desc] == [name, name, desc];
    MembersDepsSnoc(shapes, [x1, x2, x3], x4, [name, name, desc], [tag]);
    assert [x1, x2, x3] + [x4] == [x1, x2, x3, x4] && [name, name, desc] + [tag] == [name, name, desc, tag];
  }

  /** One more member whose dependencies are known extends the list by them. */
  lemma MembersDepsSnoc(shapes: Dict<Shape>, pre: Dict<Member>, x: (string, Member), p: seq<string>, d: seq<string>)
    requires MembersDeps(shapes, pre) == Ok(p)
    requires MemberDeps(shapes, x.1.shape) == Ok(d)
    ensures MembersDeps(shapes, pre + [x]) == Ok(p + d)
  {
    assert (pre + [x])[..|pre|] == pre;
  }
}
