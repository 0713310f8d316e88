/** The resource-class generator's pure helpers: the service check made on
    construction, method selection, rendering of an operation's input
    arguments, attribute-type cleanup, the JSON-schema type map, and the
    terminal-state filter and status key path of the wait methods.  The
    method templates, the resource plan and the extractors are not
    modelled; the constants they use are parameters. */
module ResourcesCodegen {
  import opened Wrappers
  import opened Dicts
  import opened Strings
  import opened Util
  import opened ShapeModel

  // ---------------------------------------------------------------------
  // The service check of the constructor

  /** The constructor accepts only the SageMaker service over the JSON
      protocol; the service id is checked first. */
  function CheckService(md: Metadata): (r: Result<Metadata, CodegenError>)
    ensures r.Ok? <==> md.serviceId == "SageMaker" && md.protocol == "json"
    ensures r.Ok? ==> r.value == md
    ensures md.serviceId != "SageMaker" ==> r == Err(UnsupportedServiceId(md.serviceId))
    ensures md.serviceId == "SageMaker" && md.protocol != "json" ==> r == Err(UnsupportedProtocol(md.protocol))
  {
    if md.serviceId != "SageMaker" then Err(UnsupportedServiceId(md.serviceId))
    else if md.protocol != "json" then Err(UnsupportedProtocol(md.protocol))
    else Ok(md)
  }

  // ---------------------------------------------------------------------
  // _is_get_in_class_methods and _evaluate_method

  /** `'get' in class_methods`, as the linear scan Python performs. */
  method IsGetInClassMethods(classMethods: seq<string>) returns (r: bool)
    ensures r <==> "get" in classMethods
  {
    var i := 0;
    while i < |classMethods|
      invariant 0 <= i <= |classMethods|
      invariant "get" !in classMethods[..i]
    {
      if classMethods[i] == "get" {
        return true;
      }
      i := i + 1;
    }
    assert classMethods[..i] == classMethods;
    return false;
  }

  /** `_evaluate_method`: the text `generate` renders for a method of the
      resource's list, and the empty string (after a logged warning) for
      any other method.  `generate(m, resource)` stands for calling the
      generator method named after `m`. */
  function EvaluateMethod(resourceName: string, methodName: string, methods: seq<string>,
                          generate: (string, string) -> string): (r: string)
    ensures methodName !in methods ==> r == ""
    ensures methodName in methods ==> r == generate(methodName, resourceName)
  {
    if methodName in methods then generate(methodName, resourceName) else ""
  }

  // ---------------------------------------------------------------------
  // _generate_operation_input_args

  /** One argument entry: the quoted member name, then the snake-cased name,
      read from `self.` in an object method. */
  function ArgEntry(member: string, isClassMethod: bool): string
  {
    "'" + member + "': " + (if isClassMethod then "" else "self.") + ConvertToSnakeCase(member)
  }

  function ArgEntries(members: seq<string>, isClassMethod: bool): (r: seq<string>)
    ensures |r| == |members|
    ensures forall i :: 0 <= i < |members| ==> r[i] == ArgEntry(members[i], isClassMethod)
  {
    seq(|members|, i requires 0 <= i < |members| => ArgEntry(members[i], isClassMethod))
  }

  /** `_generate_operation_input_args`: the operation's input shape must
      exist and have "members"; each missing key raises `KeyError`. */
  function OperationInputArgs(shapes: Dict<Shape>, op: Operation, isClassMethod: bool): (r: Result<string, CodegenError>)
    ensures op.input.None? ==> r == Err(KeyError("input"))
    ensures op.input.Some? && op.input.value !in Keys(shapes) ==> r == Err(KeyError(op.input.value))
    ensures r.Ok? <==> op.input.Some? && op.input.value in Keys(shapes) && Get(shapes, op.input.value).value.members.Some?
  {
    if op.input.None? then Err(KeyError("input"))
    else
      match Get(shapes, op.input.value)
      case None => Err(KeyError(op.input.value))
      case Some(t) =>
        if t.members.None? then Err(KeyError("members"))
        else Ok(AddIndent(Join(ArgEntries(Keys(t.members.value), isClassMethod), ",\n") + ",", 8))
  }

  /** Every entry followed by a comma. */
  function WithCommas(parts: seq<string>): (r: seq<string>)
    ensures |r| == |parts|
    ensures forall i :: 0 <= i < |parts| ==> r[i] == parts[i] + ","
  {
    seq(|parts|, i requires 0 <= i < |parts| => parts[i] + ",")
  }

  /** Joining by ",\n" and adding a final "," puts a comma after every part. */
  lemma {:induction false} JoinCommas(parts: seq<string>)
    requires |parts| >= 1
    ensures Join(parts, ",\n") + "," == Join(WithCommas(parts), "\n")
  {
    if |parts| == 1 {
      assert WithCommas(parts) == [parts[0] + ","];
    } else {
      JoinCommas(parts[1..]);
      assert WithCommas(parts)[1..] == WithCommas(parts[1..]);
      var rest := Join(parts[1..], ",\n");
      assert Join(parts, ",\n") + "," == parts[0] + "," + "\n" + (rest + ",");
    }
  }

  /** The rendered text of `_generate_operation_input_args` for the member
      names `names`. */
  function ArgsText(names: seq<string>, isClassMethod: bool): string
  {
    AddIndent(Join(ArgEntries(names, isClassMethod), ",\n") + ",", 8)
  }

  /** Read line by line, the rendered arguments are one line per input
      member in declaration order: eight spaces, the entry, a comma. */
  lemma OperationInputArgsLines(shapes: Dict<Shape>, op: Operation, isClassMethod: bool)
    requires OperationInputArgs(shapes, op, isClassMethod).Ok?
    requires var ms := Get(shapes, op.input.value).value.members.value;
      |ms| > 0 && forall i :: 0 <= i < |ms| ==> '\n' !in ms[i].0
    ensures var ms := Get(shapes, op.input.value).value.members.value;
      var lines := Split(OperationInputArgs(shapes, op, isClassMethod).value, '\n');
      && |lines| == |ms|
      && forall i :: 0 <= i < |ms| ==> lines[i] == Spaces(8) + ArgEntry(ms[i].0, isClassMethod) + ","
  {
    var ms := Get(shapes, op.input.value).value.members.value;
    assert OperationInputArgs(shapes, op, isClassMethod).value == ArgsText(Keys(ms), isClassMethod);
    ArgsTextLines(Keys(ms), isClassMethod);
  }

  lemma ArgsTextLines(names: seq<string>, isClassMethod: bool)
    requires |names| > 0 && forall i :: 0 <= i < |names| ==> '\n' !in names[i]
    ensures var lines := Split(ArgsText(names, isClassMethod), '\n');
      && |lines| == |names|
      && forall i :: 0 <= i < |names| ==> lines[i] == Spaces(8) + ArgEntry(names[i], isClassMethod) + ","
  {
    var entries := ArgEntries(names, isClassMethod);
    var lines := WithCommas(entries);
    JoinCommas(entries);
    forall i | 0 <= i < |lines|
      ensures '\n' !in lines[i] && |lines[i]| > 0 && lines[i][|lines[i]| - 1] == ','
    {
      EntryLine(names[i], isClassMethod);
    }
    IndentCommaLines(lines, 8);
    var out := Split(ArgsText(names, isClassMethod), '\n');
    assert out == PrefixLines(lines, Spaces(8));
    forall i | 0 <= i < |names|
      ensures out[i] == Spaces(8) + ArgEntry(names[i], isClassMethod) + ","
    {
      assert out[i] == Spaces(8) + lines[i];
    }
  }

  /** One argument line holds no line break and ends in its comma. */
  lemma EntryLine(name: string, isClassMethod: bool)
    requires '\n' !in name
    ensures var line := ArgEntry(name, isClassMethod) + ",";
      '\n' !in line && |line| > 0 && line[|line| - 1] == ','
  {
    SnakeCaseAbsent(name, '\n');
    var self: string := if isClassMethod then "" else "self.";
    assert '\n' !in "'" && '\n' !in "': " && '\n' !in self && '\n' !in ",";
  }

  /** Indenting lines that each end in a comma indents every one of them,
      the last included. */
  lemma IndentCommaLines(lines: seq<string>, k: int)
    requires |lines| > 0
    requires forall i :: 0 <= i < |lines| ==> '\n' !in lines[i] && |lines[i]| > 0 && lines[i][|lines[i]| - 1] == ','
    ensures Split(AddIndent(Join(lines, "\n"), k), '\n') == PrefixLines(lines, Spaces(k))
  {
    var p := PrefixLines(lines, Spaces(k));
    assert "\n" == ['\n'];
    SplitJoin(lines, '\n');
    forall i | 0 <= i < |p|
      ensures '\n' !in p[i]
    {
      assert p[i] == Spaces(k) + lines[i];
    }
    SplitJoin(p, '\n');
    RStripLines(Join(p, "\n"));
    var n := |p| - 1;
    assert p[n][|p[n]| - 1] == ',';
    RStripKeeps(p[n], ' ');
    ButLastAndLast(p);
  }

  /** Text that does not end in `c` is left alone by stripping `c`. */
  lemma RStripKeeps(s: string, c: char)
    requires |s| > 0 && s[|s| - 1] != c
    ensures RStrip(s, c) == s
  {
  }

  /** An input shape with no members renders as a lone indented comma. */
  lemma OperationInputArgsEmpty(shapes: Dict<Shape>, op: Operation, isClassMethod: bool)
    requires OperationInputArgs(shapes, op, isClassMethod).Ok?
    requires Get(shapes, op.input.value).value.members == Some([])
    ensures OperationInputArgs(shapes, op, isClassMethod) == Ok("        ,")
  {
    assert OperationInputArgs(shapes, op, isClassMethod).value == ArgsText([], isClassMethod);
    ArgsTextEmpty(isClassMethod);
  }

  lemma ArgsTextEmpty(isClassMethod: bool)
    ensures ArgsText([], isClassMethod) == "        ,"
  {
    assert ArgEntries([], isClassMethod) == [];
    assert Join([], ",\n") + "," == ",";
    var sp := Spaces(8);
    assert sp == "        ";
    SplitFree(",", '\n');
    assert PrefixLines([","], sp) == [sp + ","];
    assert Join([sp + ","], "\n") == sp + ",";
    RStripKeeps(sp + ",", ' ');
  }

  // ---------------------------------------------------------------------
  // _cleanup_class_attributes_types

  /** `s[:-1]`: everything but the last character; empty stays empty. */
  function DropLast(s: string): (r: string)
    ensures |s| > 0 ==> r + [s[|s| - 1]] == s
    ensures |s| == 0 ==> r == ""
  {
    if |s| == 0 then "" else s[..|s| - 1]
  }

  /** One attribute's type: the text before the first `=`, stripped; a value
      starting with "Optional" has every "Optional[" removed and then its
      last character dropped. */
  function CleanupType(value: string): string
  {
    var v := Strip(Split(value, '=')[0]);
    if StartsWith(v, "Optional") then DropLast(ReplaceAll(v, "Optional[", "")) else v
  }

  /** `_cleanup_class_attributes_types`: a new dictionary with the same
      keys in the same order, each value cleaned. */
  method CleanupClassAttributesTypes(attrs: Dict<string>) returns (r: Dict<string>)
    requires UniqueKeys(attrs)
    ensures Keys(r) == Keys(attrs)
    ensures forall i :: 0 <= i < |attrs| ==> r[i].1 == CleanupType(attrs[i].1)
  {
    r := [];
    var i := 0;
    while i < |attrs|
      invariant 0 <= i <= |attrs|
      invariant |r| == i
      invariant forall k :: 0 <= k < i ==> r[k].0 == attrs[k].0 && r[k].1 == CleanupType(attrs[k].1)
    {
      var (key, value) := attrs[i];
      var newVal := CleanupType(value);
      assert key !in Keys(r) by {
        forall k | 0 <= k < i
          ensures Keys(r)[k] != key
        {
          assert attrs[k].0 != attrs[i].0;
        }
      }
      r := Put(r, key, newVal);
      i := i + 1;
    }
  }

  /** Text that holds no `=` and no surrounding whitespace. */
  predicate PlainType(t: string)
  {
    && |t| > 0
    && '=' !in t
    && !IsWhitespace(t[0]) && !IsWhitespace(t[|t| - 1])
  }

  /** `Optional[T] = default` cleans to `T`, for a type `T` that holds no
      "Optional[" of its own. */
  lemma CleanupOptional(t: string, default: string)
    requires PlainType(t) && !Contains(t, "Optional[")
    ensures CleanupType("Optional[" + t + "] = " + default) == t
  {
    var w := "Optional[" + t + "]";
    OptionalBeforeEquals(t, default);
    OptionalWrapped(t);
    StripAround(w, " ");
    assert DropLast(t + "]") == t;
  }

  /** The text before the `=` of `Optional[T] = default`. */
  lemma OptionalBeforeEquals(t: string, default: string)
    requires '=' !in t
    ensures Split("Optional[" + t + "] = " + default, '=')[0] == "Optional[" + t + "]" + " "
  {
    var w := "Optional[" + t + "]";
    assert '=' !in w by {
      assert w == "Optional[" + (t + "]");
    }
    BracketEqualsRegroup("Optional[", t, default);
    BeforeEquals(w, default);
  }

  /** `p + t + "] = " + d` read as the bracketed type, then " = ", then `d`. */
  lemma BracketEqualsRegroup(p: string, t: string, d: string)
    ensures p + t + "] = " + d == (p + t + "]") + " = " + d
  {
    assert "] = " == "]" + " = ";
  }

  /** `Optional[T]` starts with "Optional", has no surrounding whitespace, and
      loses exactly its "Optional[" to the replacement. */
  lemma OptionalWrapped(t: string)
    requires !Contains(t, "Optional[")
    ensures var w := "Optional[" + t + "]";
      && !IsWhitespace(w[0]) && !IsWhitespace(w[|w| - 1])
      && StartsWith(w, "Optional")
      && ReplaceAll(w, "Optional[", "") == t + "]"
  {
    var w := "Optional[" + t + "]";
    assert w == "Optional[" + (t + "]");
    assert w[..8] == "Optional";
    ReplacePrefix("Optional[", t + "]", "");
    NoOptionalBracket(t);
    ReplaceAbsent(t + "]", "Optional[", "");
  }

  /** The text before the first `=` of `w = d`, for `w` without `=`. */
  lemma BeforeEquals(w: string, d: string)
    requires '=' !in w
    ensures Split(w + " = " + d, '=')[0] == w + " "
  {
    assert w + " = " + d == (w + " ") + ['='] + (" " + d);
    SplitPrefix(w + " ", " " + d, '=');
  }

  /** A required type `T = default`, or a bare `T`, cleans to `T` when `T`
      does not start with "Optional". */
  lemma CleanupRequired(t: string, default: string)
    requires PlainType(t) && !StartsWith(t, "Optional")
    ensures CleanupType(t) == t
    ensures CleanupType(t + " = " + default) == t
  {
    SplitFree(t, '=');
    StripAround(t, "");
    assert t + "" == t;
    BeforeEquals(t, default);
    StripAround(t, " ");
  }

  /** Stripping `t + pad`, where `pad` is spaces, gives `t`. */
  lemma StripAround(t: string, pad: string)
    requires |t| > 0 && !IsWhitespace(t[0]) && !IsWhitespace(t[|t| - 1])
    requires forall i :: 0 <= i < |pad| ==> pad[i] == ' '
    ensures Strip(t + pad) == t
  {
    var s := t + pad;
    assert LStripWhitespace(s) == s;
    var r := RStripWhitespace(s);
    assert r == s[..|t|] == t;
  }

  /** Replacing a leading occurrence removes it. */
  lemma ReplacePrefix(p: string, rest: string, q: string)
    requires |p| > 0
    ensures ReplaceAll(p + rest, p, q) == q + ReplaceAll(rest, p, q)
  {
    assert (p + rest)[..|p|] == p;
    assert (p + rest)[|p|..] == rest;
  }

  /** Adding `]` cannot create an occurrence of "Optional[". */
  lemma NoOptionalBracket(t: string)
    requires !Contains(t, "Optional[")
    ensures !Contains(t + "]", "Optional[")
  {
    var p := "Optional[";
    if Contains(t + "]", p) {
      var i := ContainsWitness(t + "]", p);
      if i + |p| <= |t| {
        assert t[i..i + |p|] == (t + "]")[i..i + |p|];
        OccursContains(t, p, i);
      } else {
        LastOfOccurrence(t + "]", p, i);
      }
    }
  }

  /** The last character of an occurrence is the pattern's last character. */
  lemma LastOfOccurrence(s: string, p: string, i: int)
    requires |p| > 0 && OccursAt(s, p, i)
    ensures s[i + |p| - 1] == p[|p| - 1]
  {
    assert s[i..i + |p|][|p| - 1] == s[i + |p| - 1];
  }

  /** Text without `[` never contains "Optional[". */
  lemma NoBracketNoOptional(s: string)
    requires '[' !in s
    ensures !Contains(s, "Optional[")
  {
    if Contains(s, "Optional[") {
      var i := ContainsWitness(s, "Optional[");
      LastOfOccurrence(s, "Optional[", i);
    }
  }

  /** A type name that merely starts with "Optional", with no `[` in it,
      still loses its last character: "OptionalName" becomes "OptionalNam". */
  lemma CleanupOptionalPrefixedName(v: string)
    requires PlainType(v) && StartsWith(v, "Optional") && '[' !in v
    ensures CleanupType(v) + [v[|v| - 1]] == v
  {
    SplitFree(v, '=');
    StripAround(v, "");
    assert v + "" == v;
    NoBracketNoOptional(v);
    ReplaceAbsent(v, "Optional[", "");
  }

  // ---------------------------------------------------------------------
  // _get_json_schema_type_from_python_type

  /** A type whose text starts with "List" is an `array`; any other type is
      looked up in the basic-type table, `None` when it is not there. */
  function JsonSchemaType(pythonType: string, basicTypes: Dict<string>): (r: Option<string>)
    ensures StartsWith(pythonType, "List") ==> r == Some("array")
    ensures !StartsWith(pythonType, "List") ==> (r.Some? <==> pythonType in Keys(basicTypes))
    ensures !StartsWith(pythonType, "List") && r.Some? ==> (pythonType, r.value) in basicTypes
  {
    if StartsWith(pythonType, "List") then Some("array")
    else
      GetFound(basicTypes, pythonType);
      Get(basicTypes, pythonType)
  }

  // ---------------------------------------------------------------------
  // The terminal-state filter of generate_wait_method

  /** `any(t.lower() in state.lower() for t in terminal)`. */
  function AnyTerminal(state: string, terminal: seq<string>): (r: bool)
    ensures r <==> exists k :: 0 <= k < |terminal| && Contains(LowerString(state), LowerString(terminal[k]))
  {
    if |terminal| == 0 then false
    else
      var rest := AnyTerminal(state, terminal[1..]);
      assert rest <==> exists k :: 1 <= k < |terminal| && Contains(LowerString(state), LowerString(terminal[k])) by {
        if rest {
          var k :| 0 <= k < |terminal[1..]| && Contains(LowerString(state), LowerString(terminal[1..][k]));
          assert terminal[k + 1] == terminal[1..][k];
        }
        forall k | 1 <= k < |terminal| && Contains(LowerString(state), LowerString(terminal[k]))
          ensures rest
        {
          assert terminal[1..][k - 1] == terminal[k];
        }
      }
      Contains(LowerString(state), LowerString(terminal[0])) || rest
  }

  /** The states `keep` accepts, in their original order. */
  function FilterStates(states: seq<string>, keep: string -> bool): seq<string>
  {
    if |states| == 0 then []
    else
      var n := |states| - 1;
      FilterStates(states[..n], keep) + (if keep(states[n]) then [states[n]] else [])
  }

  lemma {:induction false} FilterStatesMembers(states: seq<string>, keep: string -> bool)
    ensures |FilterStates(states, keep)| <= |states|
    ensures forall s :: s in FilterStates(states, keep) <==> s in states && keep(s)
  {
    if |states| > 0 {
      var n := |states| - 1;
      FilterStatesMembers(states[..n], keep);
      assert states == states[..n] + [states[n]];
    }
  }

  lemma {:induction false} FilterStatesConcat(a: seq<string>, b: seq<string>, keep: string -> bool)
    ensures FilterStates(a + b, keep) == FilterStates(a, keep) + FilterStates(b, keep)
  {
    if |b| == 0 {
      assert a + b == a;
    } else {
      var n := |b| - 1;
      FilterStatesConcat(a, b[..n], keep);
      assert (a + b)[..|a + b| - 1] == a + b[..n];
      assert (a + b)[|a + b| - 1] == b[n];
    }
  }

  /** The states of a resource that contain some terminal state, ignoring
      case, kept in the order the resource lists them. */
  function TerminalResourceStates(states: seq<string>, terminal: seq<string>): (r: seq<string>)
    ensures |r| <= |states|
    ensures forall s :: s in r <==> s in states && AnyTerminal(s, terminal)
  {
    FilterStatesMembers(states, s => AnyTerminal(s, terminal));
    FilterStates(states, s => AnyTerminal(s, terminal))
  }

  /** The filter distributes over concatenation, so kept states appear in
      their original relative order. */
  lemma TerminalStatesConcat(a: seq<string>, b: seq<string>, terminal: seq<string>)
    ensures TerminalResourceStates(a + b, terminal) ==
            TerminalResourceStates(a, terminal) + TerminalResourceStates(b, terminal)
  {
    FilterStatesConcat(a, b, s => AnyTerminal(s, terminal));
  }

  /** Matching ignores case on both sides. */
  lemma TerminalCaseInsensitive(state: string, state': string, terminal: seq<string>)
    requires LowerString(state) == LowerString(state')
    ensures AnyTerminal(state, terminal) == AnyTerminal(state', terminal)
  {
  }

  // ---------------------------------------------------------------------
  // The status key path of generate_wait_method and generate_wait_for_status_method

  /** `"." + snake_case(name)` for each member of the status chain, in chain order. */
  function StatusKeyPath(chain: seq<string>): string
  {
    if |chain| == 0 then ""
    else StatusKeyPath(chain[..|chain| - 1]) + "." + ConvertToSnakeCase(chain[|chain| - 1])
  }

  function SnakeNames(chain: seq<string>): (r: seq<string>)
    ensures |r| == |chain|
    ensures forall i :: 0 <= i < |chain| ==> r[i] == ConvertToSnakeCase(chain[i])
  {
    seq(|chain|, i requires 0 <= i < |chain| => ConvertToSnakeCase(chain[i]))
  }

  /** The path is an empty first segment followed by the snake-cased names,
      joined by dots. */
  lemma {:induction false} StatusKeyPathJoin(chain: seq<string>)
    ensures StatusKeyPath(chain) == Join([""] + SnakeNames(chain), ".")
  {
    if |chain| > 0 {
      var n := |chain| - 1;
      StatusKeyPathJoin(chain[..n]);
      SnakeNamesLast(chain);
      JoinAppend([""] + SnakeNames(chain[..n]), ConvertToSnakeCase(chain[n]), ".");
    }
  }

  lemma SnakeNamesLast(chain: seq<string>)
    requires |chain| > 0
    ensures [""] + SnakeNames(chain) ==
      [""] + SnakeNames(chain[..|chain| - 1]) + [ConvertToSnakeCase(chain[|chain| - 1])]
  {
    var n := |chain| - 1;
    assert SnakeNames(chain) == SnakeNames(chain[..n]) + [ConvertToSnakeCase(chain[n])];
  }

  /** When no member name holds a dot, splitting the path at dots gives an
      empty first piece and then the snake-cased names in chain order. */
  lemma StatusKeyPathSegments(chain: seq<string>)
    requires forall i :: 0 <= i < |chain| ==> '.' !in chain[i]
    ensures Split(StatusKeyPath(chain), '.') == [""] + SnakeNames(chain)
  {
    StatusKeyPathJoin(chain);
    var parts := [""] + SnakeNames(chain);
    forall i | 0 <= i < |parts|
      ensures '.' !in parts[i]
    {
      if i > 0 {
        SnakeCaseAbsent(chain[i - 1], '.');
      }
    }
    assert "." == ['.'];
    SplitJoin(parts, '.');
  }
}
