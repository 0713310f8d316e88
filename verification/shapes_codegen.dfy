/** The shape-class generator's decisions: which shapes become classes, in
    which order, and the docstring each class gets.  Writing the file, the
    class template and the member declarations are not modelled. */
module ShapesCodegen {
  import opened Wrappers
  import opened Dicts
  import opened Strings
  import opened Util
  import opened ShapeModel
  import opened DependencyGraph
  import opened TopologicalOrder

  // ---------------------------------------------------------------------
  // _filter_input_output_shapes

  /** `op` takes `s` as its input shape or returns it as its output shape. */
  predicate IsIoOf(op: Operation, s: string) {
    op.input == Some(s) || op.output == Some(s)
  }

  /** Some operation names `s` as its input or output. */
  predicate UsedAsIo(ops: Dict<Operation>, s: string) {
    exists i :: 0 <= i < |ops| && IsIoOf(ops[i].1, s)
  }

  /** The list the filter collects: per operation in order, the input shape
      (when present) and then the output shape (when present). */
  function IoShapes(ops: Dict<Operation>): (r: seq<string>)
    ensures forall s :: s in r <==> UsedAsIo(ops, s)
  {
    if |ops| == 0 then []
    else
      var op := ops[0].1;
      var here := (if op.input.Some? then [op.input.value] else []) + (if op.output.Some? then [op.output.value] else []);
      var rest := IoShapes(ops[1..]);
      assert forall s :: UsedAsIo(ops, s) <==> IsIoOf(op, s) || UsedAsIo(ops[1..], s) by {
        forall s | UsedAsIo(ops, s) && !IsIoOf(op, s)
          ensures UsedAsIo(ops[1..], s)
        {
          var i :| 0 <= i < |ops| && IsIoOf(ops[i].1, s);
          assert ops[1..][i - 1] == ops[i];
        }
        forall s | UsedAsIo(ops[1..], s)
          ensures UsedAsIo(ops, s)
        {
          var i :| 0 <= i < |ops[1..]| && IsIoOf(ops[1..][i].1, s);
          assert ops[i + 1] == ops[1..][i];
        }
      }
      here + rest
  }

  /** `_filter_input_output_shapes`: a shape gets a class unless some
      operation uses it as its input or its output. */
  function FilterInputOutputShapes(ops: Dict<Operation>, shape: string): (r: bool)
    ensures r <==> !UsedAsIo(ops, shape)
  {
    shape !in IoShapes(ops)
  }

  // ---------------------------------------------------------------------
  // _generate_doc_string_for_shape

  /** The docstring line for one member: the snake-cased member name, then
      its documentation after a colon when it has one. */
  function MemberDocLine(name: string, m: Member): string
  {
    " \t" + ConvertToSnakeCase(name) + (if m.documentation.Some? then ": \t " + m.documentation.value else "")
  }

  function MemberDocLines(ms: Dict<Member>): (r: seq<string>)
    ensures |r| == |ms|
    ensures forall i :: 0 <= i < |ms| ==> r[i] == MemberDocLine(ms[i].0, ms[i].1)
  {
    seq(|ms|, i requires 0 <= i < |ms| => MemberDocLine(ms[i].0, ms[i].1))
  }

  /** The members a docstring lists: none when the shape has no "members". */
  function DocMembers(t: Shape): Dict<Member>
  {
    if t.members.Some? then t.members.value else []
  }

  /** The docstring read line by line: the name, the shape's documentation
      when present, a blank line, the "Attributes" heading, a dashed rule,
      and one line per member in declaration order. */
  function DocLines(name: string, t: Shape): seq<string>
  {
    DocHeaderLines(name, t) + MemberDocLines(DocMembers(t))
  }

  function DocHeaderLines(name: string, t: Shape): (r: seq<string>)
    ensures |r| >= 1
  {
    [" " + name]
      + (if t.documentation.Some? then [" \t  " + t.documentation.value] else [])
      + ["", " \t Attributes", "\t----------------------"]
  }

  /** The text accumulated before the member loop. */
  function DocHeader(name: string, t: Shape): string
  {
    var s := " " + name;
    var s := if t.documentation.Some? then s + "\n \t  " + t.documentation.value else s;
    var s := s + "\n\n \t Attributes";
    s + "\n\t----------------------"
  }

  /** The member loop: each member adds a line break and its line. */
  function AppendMemberDocs(acc: string, ms: Dict<Member>): string
  {
    if |ms| == 0 then acc
    else AppendMemberDocs(acc, ms[..|ms| - 1]) + "\n" + MemberDocLine(ms[|ms| - 1].0, ms[|ms| - 1].1)
  }

  /** `_generate_doc_string_for_shape`; looking up a shape name that is not
      in the table raises `KeyError`. */
  function ShapeDocstring(shapes: Dict<Shape>, name: string): (r: Result<string, CodegenError>)
    ensures r.Err? <==> name !in Keys(shapes)
    ensures r.Err? ==> r.error == KeyError(name)
  {
    match Get(shapes, name)
    case None => Err(KeyError(name))
    case Some(t) => Ok(AppendMemberDocs(DocHeader(name, t), DocMembers(t)))
  }

  lemma DocHeaderJoin(name: string, t: Shape)
    ensures DocHeader(name, t) == Join(DocHeaderLines(name, t), "\n")
  {
    var l1 := [" " + name] + (if t.documentation.Some? then [" \t  " + t.documentation.value] else []);
    var s1 := if t.documentation.Some? then " " + name + "\n \t  " + t.documentation.value else " " + name;
    TitleJoin(name, t);
    JoinAppend3(l1, "", " \t Attributes", "\t----------------------", "\n");
    AttributesTail(s1);
    assert l1 + ["", " \t Attributes", "\t----------------------"] == DocHeaderLines(name, t);
  }

  /** The name line and the optional documentation line. */
  lemma TitleJoin(name: string, t: Shape)
    ensures Join([" " + name] + (if t.documentation.Some? then [" \t  " + t.documentation.value] else []), "\n")
      == if t.documentation.Some? then " " + name + "\n \t  " + t.documentation.value else " " + name
  {
    if t.documentation.Some? {
      JoinAppend([" " + name], " \t  " + t.documentation.value, "\n");
      ConcatAssoc4(" " + name, "\n", " \t  ", t.documentation.value);
    } else {
      assert [" " + name] + [] == [" " + name];
    }
  }

  /** Joining three more parts appends each behind a separator. */
  lemma JoinAppend3(l: seq<string>, a: string, b: string, c: string, sep: string)
    requires |l| >= 1
    ensures Join(l + [a, b, c], sep) == Join(l, sep) + sep + a + sep + b + sep + c
  {
    JoinAppend(l, a, sep);
    JoinAppend(l + [a], b, sep);
    JoinAppend(l + [a] + [b], c, sep);
    assert l + [a] + [b] + [c] == l + [a, b, c];
  }

  /** The two fixed header lines, glued as the source writes them. */
  lemma AttributesTail(s1: string)
    ensures s1 + "\n" + "" + "\n" + " \t Attributes" + "\n" + "\t----------------------"
      == s1 + "\n\n \t Attributes" + "\n\t----------------------"
  {
    var a := " \t Attributes";
    var b := "\t----------------------";
    assert "\n\n \t Attributes" == "\n" + "\n" + a;
    assert "\n\t----------------------" == "\n" + b;
  }

  lemma {:induction false} AppendMemberDocsJoin(head: seq<string>, ms: Dict<Member>)
    requires |head| >= 1
    ensures AppendMemberDocs(Join(head, "\n"), ms) == Join(head + MemberDocLines(ms), "\n")
  {
    if |ms| == 0 {
      assert MemberDocLines(ms) == [];
      assert head + MemberDocLines(ms) == head;
    } else {
      var n := |ms| - 1;
      AppendMemberDocsJoin(head, ms[..n]);
      assert MemberDocLines(ms) == MemberDocLines(ms[..n]) + [MemberDocLine(ms[n].0, ms[n].1)];
      assert head + MemberDocLines(ms) == head + MemberDocLines(ms[..n]) + [MemberDocLine(ms[n].0, ms[n].1)];
      JoinAppend(head + MemberDocLines(ms[..n]), MemberDocLine(ms[n].0, ms[n].1), "\n");
    }
  }

  /** The docstring is its lines joined by line breaks. */
  lemma DocstringJoin(shapes: Dict<Shape>, name: string)
    requires name in Keys(shapes)
    ensures ShapeDocstring(shapes, name) == Ok(Join(DocLines(name, Get(shapes, name).value), "\n"))
  {
    var t := Get(shapes, name).value;
    DocHeaderJoin(name, t);
    AppendMemberDocsJoin(DocHeaderLines(name, t), DocMembers(t));
  }

  /** No text that goes into the docstring holds a line break. */
  predicate SingleLineTexts(name: string, t: Shape)
  {
    && '\n' !in name
    && (t.documentation.Some? ==> '\n' !in t.documentation.value)
    && forall i :: 0 <= i < |DocMembers(t)| ==>
         '\n' !in DocMembers(t)[i].0
         && (DocMembers(t)[i].1.documentation.Some? ==> '\n' !in DocMembers(t)[i].1.documentation.value)
  }

  /** When no name or documentation text holds a line break, splitting the
      docstring at line breaks gives back exactly `DocLines`. */
  lemma DocstringLines(shapes: Dict<Shape>, name: string)
    requires name in Keys(shapes)
    requires SingleLineTexts(name, Get(shapes, name).value)
    ensures Split(ShapeDocstring(shapes, name).value, '\n') == DocLines(name, Get(shapes, name).value)
  {
    var t := Get(shapes, name).value;
    DocstringJoin(shapes, name);
    DocLinesSingle(name, t);
    assert "\n" == ['\n'];
    SplitJoin(DocLines(name, t), '\n');
  }

  lemma DocLinesSingle(name: string, t: Shape)
    requires SingleLineTexts(name, t)
    ensures forall i :: 0 <= i < |DocLines(name, t)| ==> '\n' !in DocLines(name, t)[i]
  {
    var head := DocHeaderLines(name, t);
    var ms := DocMembers(t);
    var members := MemberDocLines(ms);
    forall i | 0 <= i < |head|
      ensures '\n' !in head[i]
    {
    }
    forall k | 0 <= k < |ms|
      ensures '\n' !in members[k]
    {
      SnakeCaseAbsent(ms[k].0, '\n');
    }
  }

  // ---------------------------------------------------------------------
  // The selection loop of generate_shapes

  /** A name the loop looks up: it passes the filter. */
  predicate Candidate(ops: Dict<Operation>, s: string) {
    FilterInputOutputShapes(ops, s)
  }

  /** A name the loop emits a class for: a candidate whose shape is a structure. */
  predicate Selected(shapes: Dict<Shape>, ops: Dict<Operation>, s: string) {
    Candidate(ops, s) && Get(shapes, s).Some? && Get(shapes, s).value.kind == "structure"
  }

  /** A candidate that is not in the shapes table: looking it up raises `KeyError`. */
  predicate Missing(shapes: Dict<Shape>, ops: Dict<Operation>, s: string) {
    Candidate(ops, s) && Get(shapes, s).None?
  }

  /** The loop over the topological order: skip names the filter rejects,
      look each remaining name up, and keep the structures in order. */
  function SelectShapes(shapes: Dict<Shape>, ops: Dict<Operation>, order: seq<string>): (r: Result<seq<string>, CodegenError>)
    ensures r.Ok? ==> forall s :: s in r.value ==> s in order && Selected(shapes, ops, s)
  {
    if |order| == 0 then Ok([])
    else
      match SelectShapes(shapes, ops, order[..|order| - 1])
      case Err(e) => Err(e)
      case Ok(prev) =>
        var s := order[|order| - 1];
        if !FilterInputOutputShapes(ops, s) then Ok(prev)
        else
          match Get(shapes, s)
          case None => Err(KeyError(s))
          case Some(t) => if t.kind == "structure" then Ok(prev + [s]) else Ok(prev)
  }

  /** The loop fails exactly when some candidate is missing from the table,
      and then with the first such name. */
  lemma SelectShapesErr(shapes: Dict<Shape>, ops: Dict<Operation>, order: seq<string>)
    ensures SelectShapes(shapes, ops, order).Err? <==> exists i :: 0 <= i < |order| && Missing(shapes, ops, order[i])
    ensures SelectShapes(shapes, ops, order).Err? ==>
      exists i :: 0 <= i < |order| && Missing(shapes, ops, order[i])
        && SelectShapes(shapes, ops, order).error == KeyError(order[i])
        && forall k :: 0 <= k < i ==> !Missing(shapes, ops, order[k])
  {
    SelectShapesFirstMissing(shapes, ops, order);
    SelectShapesNoneMissing(shapes, ops, order);
  }

  /** A failure names the first missing candidate. */
  lemma {:induction false} SelectShapesFirstMissing(shapes: Dict<Shape>, ops: Dict<Operation>, order: seq<string>)
    ensures SelectShapes(shapes, ops, order).Err? ==>
      exists i :: 0 <= i < |order| && Missing(shapes, ops, order[i])
        && SelectShapes(shapes, ops, order).error == KeyError(order[i])
        && forall k :: 0 <= k < i ==> !Missing(shapes, ops, order[k])
  {
    if |order| > 0 {
      var n := |order| - 1;
      var pre := order[..n];
      SelectShapesFirstMissing(shapes, ops, pre);
      if SelectShapes(shapes, ops, pre).Err? {
        var i :| 0 <= i < n && Missing(shapes, ops, pre[i]) && SelectShapes(shapes, ops, pre).error == KeyError(pre[i])
          && forall k :: 0 <= k < i ==> !Missing(shapes, ops, pre[k]);
        assert order[i] == pre[i];
        forall k | 0 <= k < i
          ensures !Missing(shapes, ops, order[k])
        {
          assert order[k] == pre[k];
        }
      } else if SelectShapes(shapes, ops, order).Err? {
        SelectShapesNoneMissing(shapes, ops, pre);
        forall k | 0 <= k < n
          ensures !Missing(shapes, ops, order[k])
        {
          assert order[k] == pre[k];
        }
      }
    }
  }

  /** A success means no candidate was missing. */
  lemma {:induction false} SelectShapesNoneMissing(shapes: Dict<Shape>, ops: Dict<Operation>, order: seq<string>)
    ensures SelectShapes(shapes, ops, order).Ok? <==> forall i :: 0 <= i < |order| ==> !Missing(shapes, ops, order[i])
  {
    if |order| > 0 {
      var n := |order| - 1;
      var pre := order[..n];
      SelectShapesNoneMissing(shapes, ops, pre);
      if SelectShapes(shapes, ops, pre).Err? {
        var i :| 0 <= i < n && Missing(shapes, ops, pre[i]);
        assert order[i] == pre[i];
      } else {
        forall i | 0 <= i < n
          ensures !Missing(shapes, ops, order[i])
        {
          assert order[i] == pre[i];
        }
      }
    }
  }

  /** On success the loop keeps exactly the structures among the candidates. */
  lemma {:induction false} SelectShapesExact(shapes: Dict<Shape>, ops: Dict<Operation>, order: seq<string>)
    requires SelectShapes(shapes, ops, order).Ok?
    ensures forall s :: s in SelectShapes(shapes, ops, order).value <==> s in order && Selected(shapes, ops, s)
  {
    if |order| > 0 {
      var n := |order| - 1;
      SelectShapesExact(shapes, ops, order[..n]);
      assert order == order[..n] + [order[n]];
    }
  }

  /** Every emitted name keeps the relative order the topological order
      gives it, so a duplicate-free order gives a duplicate-free list. */
  lemma {:induction false} SelectShapesNoDuplicates(shapes: Dict<Shape>, ops: Dict<Operation>, order: seq<string>)
    requires NoDuplicates(order)
    requires SelectShapes(shapes, ops, order).Ok?
    ensures NoDuplicates(SelectShapes(shapes, ops, order).value)
  {
    if |order| > 0 {
      var n := |order| - 1;
      var pre := order[..n];
      SelectShapesNoDuplicates(shapes, ops, pre);
      var prev := SelectShapes(shapes, ops, pre).value;
      assert order[n] !in pre;
      assert order[n] !in prev;
    }
  }

  /** Among the names of `r`, each comes after those of its dependencies
      that are in `r` at all. */
  predicate DependenciesFirstAmong(g: Graph, r: seq<string>)
  {
    forall i, j :: 0 <= i < |r| && 0 <= j < |Neighbors(g, r[i])| && Neighbors(g, r[i])[j] in r ==>
      Neighbors(g, r[i])[j] in r[..i]
  }

  /** Selection keeps "dependencies first": if the order lists every name
      after its dependencies, an emitted class comes after every emitted
      class it depends on. */
  lemma {:induction false} SelectShapesOrdered(g: Graph, shapes: Dict<Shape>, ops: Dict<Operation>, order: seq<string>)
    requires NoDuplicates(order) && DependenciesFirst(g, order)
    requires SelectShapes(shapes, ops, order).Ok?
    ensures DependenciesFirstAmong(g, SelectShapes(shapes, ops, order).value)
  {
    if |order| > 0 {
      var n := |order| - 1;
      var pre := order[..n];
      var x := order[n];
      assert order == pre + [x];
      DependenciesFirstPrefix(g, pre, x);
      SelectShapesOrdered(g, shapes, ops, pre);
      SelectShapesExact(shapes, ops, pre);
      var prev := SelectShapes(shapes, ops, pre).value;
      if SelectShapes(shapes, ops, order).value != prev {
        AppendDependenciesFirstAmong(g, pre, x, prev);
      }
    }
  }

  lemma DependenciesFirstPrefix(g: Graph, pre: seq<string>, x: string)
    requires DependenciesFirst(g, pre + [x])
    ensures DependenciesFirst(g, pre)
  {
    var o := pre + [x];
    forall i, j | 0 <= i < |pre| && 0 <= j < |Neighbors(g, pre[i])|
      ensures Neighbors(g, pre[i])[j] in pre[..i]
    {
      assert pre[i] == o[i] && pre[..i] == o[..i];
    }
  }

  /** Appending the next name of the order to a selection drawn from the
      names before it keeps the selection ordered. */
  lemma AppendDependenciesFirstAmong(g: Graph, pre: seq<string>, x: string, prev: seq<string>)
    requires x !in pre
    requires DependenciesFirst(g, pre + [x])
    requires forall s :: s in prev ==> s in pre
    requires DependenciesFirstAmong(g, prev)
    ensures DependenciesFirstAmong(g, prev + [x])
  {
    var o := pre + [x];
    var r := prev + [x];
    forall i, j | 0 <= i < |r| && 0 <= j < |Neighbors(g, r[i])| && Neighbors(g, r[i])[j] in r
      ensures Neighbors(g, r[i])[j] in r[..i]
    {
      var d := Neighbors(g, r[i])[j];
      if i == |prev| {
        assert o[|pre|] == r[i];
        assert o[..|pre|] == pre;
        assert d in pre;
        assert r[..i] == prev;
      } else {
        assert r[i] == prev[i] && r[..i] == prev[..i];
        assert prev[i] in pre;
        var p :| 0 <= p < |pre| && pre[p] == prev[i];
        assert o[p] == pre[p] && o[..p] == pre[..p];
        assert d in pre[..p];
        assert d in prev;
      }
    }
  }

  // ---------------------------------------------------------------------
  // The whole decision of generate_shapes

  /** Which shape classes `generate_shapes` writes, in file order: build the
      graph, sort it, select.  A name gets a class exactly when it is a key
      of the graph or listed by one, passes the filter and is a structure. */
  function GenerateShapeOrder(shapes: Dict<Shape>, ops: Dict<Operation>): (r: Result<seq<string>, CodegenError>)
    ensures r.Ok? ==> forall s :: s in r.value ==> Selected(shapes, ops, s)
    ensures r.Ok? && UniqueKeys(shapes) ==>
      && GraphOf(shapes, shapes).Ok?
      && forall s :: s in r.value <==> s in Universe(GraphOf(shapes, shapes).value) && Selected(shapes, ops, s)
  {
    match GraphOf(shapes, shapes)
    case Err(e) => Err(e)
    case Ok(g) =>
      SelectFromGraph(shapes, ops, g);
      SelectShapes(shapes, ops, TopologicalSort(g))
  }

  /** Selecting from the sorted graph keeps exactly the eligible structures
      among the graph's names. */
  lemma SelectFromGraph(shapes: Dict<Shape>, ops: Dict<Operation>, g: Graph)
    requires GraphOf(shapes, shapes) == Ok(g)
    ensures UniqueKeys(shapes) && SelectShapes(shapes, ops, TopologicalSort(g)).Ok? ==>
      forall s :: s in SelectShapes(shapes, ops, TopologicalSort(g)).value <==> s in Universe(g) && Selected(shapes, ops, s)
  {
    if UniqueKeys(shapes) && SelectShapes(shapes, ops, TopologicalSort(g)).Ok? {
      GraphUnique(shapes, shapes, g);
      TopologicalSortComplete(g);
      SelectShapesExact(shapes, ops, TopologicalSort(g));
    }
  }

  /** On a model whose dependency graph has no cycle, every generated class
      comes after every generated class it depends on, and no class is
      written twice. */
  lemma GeneratedClassesOrdered(shapes: Dict<Shape>, ops: Dict<Operation>, g: Graph, rank: string -> nat)
    requires GraphOf(shapes, shapes) == Ok(g)
    requires Ranked(g, rank)
    requires GenerateShapeOrder(shapes, ops).Ok?
    ensures var r := GenerateShapeOrder(shapes, ops).value;
      && NoDuplicates(r)
      && DependenciesFirstAmong(g, r)
  {
    TopologicalSortOrdered(g, rank);
    SelectShapesNoDuplicates(shapes, ops, TopologicalSort(g));
    SelectShapesOrdered(g, shapes, ops, TopologicalSort(g));
  }

  /** Every structure that is a key of the graph and passes the filter gets
      a class. */
  lemma GeneratedClassesComplete(shapes: Dict<Shape>, ops: Dict<Operation>, g: Graph, n: string)
    requires UniqueKeys(shapes)
    requires GraphOf(shapes, shapes) == Ok(g)
    requires GenerateShapeOrder(shapes, ops).Ok?
    requires n in Keys(g) && Selected(shapes, ops, n)
    ensures n in GenerateShapeOrder(shapes, ops).value
  {
    SelectShapesExact(shapes, ops, TopologicalSort(g));
  }

  /** A structure whose members contribute no dependency has no key in the
      graph; if no entry lists it either, it never reaches the order and
      gets no class. */
  lemma UnreferencedEmptyStructureSkipped(shapes: Dict<Shape>, ops: Dict<Operation>, g: Graph, n: string)
    requires UniqueKeys(shapes)
    requires GraphOf(shapes, shapes) == Ok(g)
    requires Get(shapes, n).Some? && Get(shapes, n).value.members.Some?
    requires MembersDeps(shapes, Get(shapes, n).value.members.value) == Ok([])
    requires forall k :: n !in Neighbors(g, k)
    ensures GenerateShapeOrder(shapes, ops).Ok? ==> n !in GenerateShapeOrder(shapes, ops).value
  {
    BuildGraphSpec(shapes, g, n);
    UniverseReferenced(g, n);
  }

  /** With unique keys, every name of the graph is a key or is listed by one. */
  lemma UniverseReferenced(g: Graph, x: string)
    requires UniqueKeys(g)
    ensures x in Universe(g) ==> x in Keys(g) || exists k :: x in Neighbors(g, k)
  {
    if x in Universe(g) && x !in Keys(g) {
      var i := UniverseEntry(g, x);
      GetAtIndex(g, i);
      assert x in Neighbors(g, g[i].0);
    }
  }
}
