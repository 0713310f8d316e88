/** The string helpers of the generator's utility module: indenting a block,
    turning PascalCase names into snake_case, and stripping the HTML tags
    the service model puts into documentation text. */
module Util {
  import opened Strings

  // ---------------------------------------------------------------------
  // add_indent

  /** `' ' * n`: Python yields the empty string for `n <= 0`. */
  function Spaces(n: int): (r: string)
    ensures |r| == (if n <= 0 then 0 else n)
    ensures forall i :: 0 <= i < |r| ==> r[i] == ' '
  {
    if n <= 0 then "" else [' '] + Spaces(n - 1)
  }

  /** Every line with `indent` in front of it. */
  function PrefixLines(lines: seq<string>, indent: string): (r: seq<string>)
    ensures |r| == |lines|
    ensures forall i :: 0 <= i < |lines| ==> r[i] == indent + lines[i]
  {
    if |lines| == 0 then [] else [indent + lines[0]] + PrefixLines(lines[1..], indent)
  }

  /** Indents every line of `text` by `numSpaces` spaces, then trims trailing
      spaces from the end of the whole text (not from each line). */
  function AddIndent(text: string, numSpaces: int): (r: string)
    ensures Count(r, '\n') == Count(text, '\n')
    ensures |r| == 0 || r[|r| - 1] != ' '
  {
    var indented := PrefixLines(Split(text, '\n'), Spaces(numSpaces));
    var joined := Join(indented, "\n");
    AddIndentCount(text, numSpaces);
    RStripCount(joined, ' ', '\n');
    RStrip(joined, ' ')
  }

  lemma AddIndentCount(text: string, numSpaces: int)
    ensures Count(Join(PrefixLines(Split(text, '\n'), Spaces(numSpaces)), "\n"), '\n') == Count(text, '\n')
  {
    var lines := Split(text, '\n');
    var indented := PrefixLines(lines, Spaces(numSpaces));
    forall i | 0 <= i < |indented|
      ensures '\n' !in indented[i]
    {
      assert '\n' !in lines[i];
    }
    JoinCount(indented, '\n');
  }

  /** Joining separator-free pieces adds one separator between each pair. */
  lemma {:induction false} JoinCount(parts: seq<string>, sep: char)
    requires |parts| >= 1
    requires forall i :: 0 <= i < |parts| ==> sep !in parts[i]
    ensures Count(Join(parts, [sep]), sep) == |parts| - 1
  {
    CountAbsent(parts[0], sep);
    if |parts| > 1 {
      JoinCount(parts[1..], sep);
      CountConcat(parts[0], [sep] + Join(parts[1..], [sep]), sep);
      CountConcat([sep], Join(parts[1..], [sep]), sep);
      assert parts[0] + [sep] + Join(parts[1..], [sep]) == parts[0] + ([sep] + Join(parts[1..], [sep]));
    }
  }

  /** Trimming a character other than `c` leaves the number of `c`s alone. */
  lemma {:induction false} RStripCount(s: string, t: char, c: char)
    requires t != c
    ensures Count(RStrip(s, t), c) == Count(s, c)
    decreases |s|
  {
    if |s| > 0 && s[|s| - 1] == t {
      RStripCount(s[..|s| - 1], t, c);
      CountConcat(s[..|s| - 1], [t], c);
      assert s == s[..|s| - 1] + [t];
    }
  }

  /** `add_indent("", n) == ""` for every `n`: the lone empty line becomes
      the indent, which the final trim removes again. */
  lemma AddIndentEmpty(numSpaces: int)
    ensures AddIndent("", numSpaces) == ""
  {
    var sp := Spaces(numSpaces);
    assert Split("", '\n') == [""];
    assert PrefixLines([""], sp) == [sp + ""];
    assert sp + "" == sp;
    RStripSpaces(sp);
  }

  lemma {:induction false} RStripSpaces(s: string)
    requires forall i :: 0 <= i < |s| ==> s[i] == ' '
    ensures RStrip(s, ' ') == ""
    decreases |s|
  {
    if |s| > 0 {
      RStripSpaces(s[..|s| - 1]);
    }
  }

  /** The line structure of `add_indent`: the same number of lines; every line
      but the last is the original line behind exactly `numSpaces` spaces, so
      trailing spaces on inner lines survive; the last line is the indented
      last line with its trailing spaces trimmed. */
  lemma AddIndentLines(text: string, numSpaces: int)
    ensures var lines := Split(text, '\n');
      var out := Split(AddIndent(text, numSpaces), '\n');
      && |out| == |lines|
      && (forall i :: 0 <= i < |lines| - 1 ==> out[i] == Spaces(numSpaces) + lines[i])
      && out[|out| - 1] == RStrip(Spaces(numSpaces) + lines[|lines| - 1], ' ')
  {
    var lines := Split(text, '\n');
    var indented := PrefixLines(lines, Spaces(numSpaces));
    forall i | 0 <= i < |indented|
      ensures '\n' !in indented[i]
    {
      assert '\n' !in lines[i];
    }
    SplitJoin(indented, '\n');
    RStripLines(Join(indented, "\n"));
  }

  /** Trimming trailing spaces of a text only touches its last line. */
  lemma {:induction false} RStripLines(s: string)
    ensures var p := Split(s, '\n');
      Split(RStrip(s, ' '), '\n') == p[..|p| - 1] + [RStrip(p[|p| - 1], ' ')]
    decreases |s|
  {
    if |s| == 0 {
    } else if s[|s| - 1] != ' ' {
      RStripLinesNoSpace(s);
    } else {
      var s' := s[..|s| - 1];
      assert s == s' + " ";
      RStripLines(s');
      RStripLinesSpace(s');
    }
  }

  /** A text not ending in a space is its own trim, and so is its last line. */
  lemma RStripLinesNoSpace(s: string)
    requires |s| > 0 && s[|s| - 1] != ' '
    ensures var p := Split(s, '\n');
      Split(RStrip(s, ' '), '\n') == p[..|p| - 1] + [RStrip(p[|p| - 1], ' ')]
  {
    var p := Split(s, '\n');
    assert RStrip(s, ' ') == s;
    SplitLastSuffix(s, '\n');
    var last := p[|p| - 1];
    assert RStrip(last, ' ') == last by {
      if |last| > 0 {
        assert last[|last| - 1] == s[|s| - 1];
      }
    }
    ButLastAndLast(p);
  }

  /** A non-empty list is its front followed by its last element. */
  lemma ButLastAndLast(p: seq<string>)
    requires |p| > 0
    ensures p == p[..|p| - 1] + [p[|p| - 1]]
  {
  }

  /** One more trailing space: trimming removes it from the text and from
      its last line alike. */
  lemma RStripLinesSpace(s': string)
    requires var p' := Split(s', '\n');
      Split(RStrip(s', ' '), '\n') == p'[..|p'| - 1] + [RStrip(p'[|p'| - 1], ' ')]
    ensures var p := Split(s' + " ", '\n');
      Split(RStrip(s' + " ", ' '), '\n') == p[..|p| - 1] + [RStrip(p[|p| - 1], ' ')]
  {
    var s := s' + " ";
    assert s[..|s| - 1] == s';
    SplitLast(s', " ", '\n');
    var p := Split(s, '\n');
    var p' := Split(s', '\n');
    assert p[|p| - 1] == p'[|p'| - 1] + " ";
    assert RStrip(p[|p| - 1], ' ') == RStrip(p'[|p'| - 1], ' ') by {
      assert (p'[|p'| - 1] + " ")[..|p'[|p'| - 1] + " "| - 1] == p'[|p'| - 1];
    }
  }

  // ---------------------------------------------------------------------
  // convert_to_snake_case

  /** Number of upper-case letters in `s`. */
  function CountUpper(s: string): nat
  {
    if |s| == 0 then 0 else (if IsUpper(s[0]) then 1 else 0) + CountUpper(s[1..])
  }

  /** The characters after the first: `_` goes in front of each upper-case
      letter, and every letter is lower-cased. */
  function SnakeTail(s: string): (r: string)
    ensures |r| == |s| + CountUpper(s)
    ensures forall i :: 0 <= i < |r| ==> !IsUpper(r[i])
  {
    if |s| == 0 then ""
    else (if IsUpper(s[0]) then ['_', Lower(s[0])] else [Lower(s[0])]) + SnakeTail(s[1..])
  }

  /** `re.sub(r'(?<!^)(?=[A-Z])', '_', s).lower()`: an underscore before each
      upper-case letter that is not at index 0, then lower-casing. */
  function ConvertToSnakeCase(s: string): (r: string)
    ensures |s| == 0 ==> r == ""
    ensures |s| > 0 ==> |r| == |s| + CountUpper(s[1..]) && r[0] == Lower(s[0])
    ensures forall i :: 0 <= i < |r| ==> !IsUpper(r[i])
  {
    if |s| == 0 then "" else [Lower(s[0])] + SnakeTail(s[1..])
  }

  /** Where every input character lands: character `i >= 1` of the input is
      found, lower-cased, at `i` plus the number of upper-case letters in
      `s[1..i+1]`, and an upper-case one has `_` right before it. */
  lemma SnakeCasePositions(s: string, i: int)
    requires 1 <= i < |s|
    ensures var k := i + CountUpper(s[1..i + 1]);
      k < |ConvertToSnakeCase(s)|
      && ConvertToSnakeCase(s)[k] == Lower(s[i])
      && (IsUpper(s[i]) ==> ConvertToSnakeCase(s)[k - 1] == '_')
  {
    SnakeTailPositions(s[1..], i - 1);
    assert s[1..][..i - 1 + 1] == s[1..i + 1];
  }

  lemma {:induction false} SnakeTailPositions(s: string, i: int)
    requires 0 <= i < |s|
    ensures var k := i + CountUpper(s[..i + 1]);
      k < |SnakeTail(s)|
      && SnakeTail(s)[k] == Lower(s[i])
      && (IsUpper(s[i]) ==> k >= 1 && SnakeTail(s)[k - 1] == '_')
  {
    var h := if IsUpper(s[0]) then ['_', Lower(s[0])] else [Lower(s[0])];
    assert SnakeTail(s) == h + SnakeTail(s[1..]);
    var x := s[..i + 1];
    assert x[1..] == s[1..][..i];
    assert CountUpper(x) == (if IsUpper(s[0]) then 1 else 0) + CountUpper(s[1..][..i]);
    if i > 0 {
      SnakeTailPositions(s[1..], i - 1);
      assert s[1..][..i - 1 + 1] == s[1..][..i];
    } else {
      assert s[1..][..0] == "";
    }
  }

  /** A string without upper-case letters is its own snake_case form. */
  lemma {:induction false} SnakeTailNoUpper(s: string)
    requires forall i :: 0 <= i < |s| ==> !IsUpper(s[i])
    ensures SnakeTail(s) == s
  {
    if |s| > 0 {
      SnakeTailNoUpper(s[1..]);
      assert s == [s[0]] + s[1..];
    }
  }

  /** Snake-casing introduces no character other than `_` and lower-case
      letters, so any other character absent from the input stays absent
      (a line break, a dot). */
  lemma {:induction false} SnakeCaseAbsent(s: string, c: char)
    requires c !in s && c != '_' && !('a' <= c <= 'z')
    ensures c !in ConvertToSnakeCase(s)
  {
    if |s| > 0 {
      SnakeTailAbsent(s[1..], c);
    }
  }

  lemma {:induction false} SnakeTailAbsent(s: string, c: char)
    requires c !in s && c != '_' && !('a' <= c <= 'z')
    ensures c !in SnakeTail(s)
  {
    if |s| > 0 {
      assert s[0] != c;
      SnakeTailAbsent(s[1..], c);
    }
  }

  /** Converting twice is converting once. */
  lemma SnakeCaseIdempotent(s: string)
    ensures ConvertToSnakeCase(ConvertToSnakeCase(s)) == ConvertToSnakeCase(s)
  {
    var r := ConvertToSnakeCase(s);
    if |r| > 0 {
      SnakeTailNoUpper(r[1..]);
      assert r == [r[0]] + r[1..];
    }
  }

  /** `s` with every `c` deleted. */
  function Without(s: string, c: char): (r: string)
    ensures |r| <= |s|
  {
    if |s| == 0 then "" else (if s[0] == c then "" else [s[0]]) + Without(s[1..], c)
  }

  /** The only characters the conversion adds are underscores: deleting all
      underscores from the result gives the lower-cased input with its own
      underscores deleted. */
  lemma SnakeCaseOnlyAddsUnderscores(s: string)
    ensures Without(ConvertToSnakeCase(s), '_') == Without(LowerString(s), '_')
  {
    if |s| > 0 {
      SnakeTailOnlyAddsUnderscores(s[1..]);
      WithoutConcat([Lower(s[0])], SnakeTail(s[1..]), '_');
      WithoutConcat([Lower(s[0])], LowerString(s[1..]), '_');
      assert LowerString(s) == [Lower(s[0])] + LowerString(s[1..]);
    }
  }

  lemma {:induction false} SnakeTailOnlyAddsUnderscores(s: string)
    ensures Without(SnakeTail(s), '_') == Without(LowerString(s), '_')
  {
    if |s| > 0 {
      SnakeTailOnlyAddsUnderscores(s[1..]);
      var h := if IsUpper(s[0]) then ['_', Lower(s[0])] else [Lower(s[0])];
      WithoutConcat(h, SnakeTail(s[1..]), '_');
      WithoutConcat([Lower(s[0])], LowerString(s[1..]), '_');
      assert LowerString(s) == [Lower(s[0])] + LowerString(s[1..]);
      if IsUpper(s[0]) {
        assert h == ['_'] + [Lower(s[0])];
        WithoutConcat(['_'], [Lower(s[0])], '_');
        assert Without(['_'], '_') == "";
      }
    }
  }

  lemma {:induction false} WithoutConcat(a: string, b: string, c: char)
    ensures Without(a + b, c) == Without(a, c) + Without(b, c)
  {
    if |a| == 0 {
      assert a + b == b;
    } else {
      assert (a + b)[1..] == a[1..] + b;
      WithoutConcat(a[1..], b, c);
    }
  }

  // ---------------------------------------------------------------------
  // clean_documentaion

  /** `re.sub(r'<\/?p>', '', s)`: a left-to-right scan deleting `<p>` and
      `</p>`.  Both tags begin with `<`, so any other character is copied. */
  function DropParagraphTags(s: string): (r: string)
    ensures |r| <= |s|
    ensures '<' !in s ==> r == s
    decreases |s|
  {
    if |s| == 0 then ""
    else if s[0] != '<' then
      PlainTail(s);
      [s[0]] + DropParagraphTags(s[1..])
    else if StartsWith(s, "<p>") then DropParagraphTags(s[3..])
    else if StartsWith(s, "</p>") then DropParagraphTags(s[4..])
    else [s[0]] + DropParagraphTags(s[1..])
  }

  /** `re.sub(r'<\/?code>', "'", s)`: a left-to-right scan turning `<code>`
      and `</code>` into a single quote. */
  function QuoteCodeTags(s: string): (r: string)
    ensures |r| <= |s|
    ensures '<' !in s ==> r == s
    decreases |s|
  {
    if |s| == 0 then ""
    else if s[0] != '<' then
      PlainTail(s);
      [s[0]] + QuoteCodeTags(s[1..])
    else if StartsWith(s, "<code>") then "'" + QuoteCodeTags(s[6..])
    else if StartsWith(s, "</code>") then "'" + QuoteCodeTags(s[7..])
    else [s[0]] + QuoteCodeTags(s[1..])
  }

  lemma PlainTail(s: string)
    requires |s| > 0
    ensures s == [s[0]] + s[1..]
    ensures '<' !in s ==> '<' !in s[1..]
  {
    assert forall k :: 0 <= k < |s[1..]| ==> s[1..][k] == s[k + 1];
  }

  /** `clean_documentaion`: paragraph tags are removed first, then code tags
      are quoted; text without `<` is untouched and nothing ever grows. */
  function CleanDocumentation(s: string): (r: string)
    ensures |r| <= |s|
    ensures '<' !in s ==> r == s
  {
    QuoteCodeTags(DropParagraphTags(s))
  }

  /** Scanning passes over a prefix without `<` unchanged. */
  lemma {:induction false} DropParagraphTagsPlain(a: string, b: string)
    requires '<' !in a
    ensures DropParagraphTags(a + b) == a + DropParagraphTags(b)
  {
    if |a| > 0 {
      assert (a + b)[1..] == a[1..] + b;
      PlainTail(a);
      DropParagraphTagsPlain(a[1..], b);
    } else {
      assert a + b == b;
    }
  }

  lemma {:induction false} QuoteCodeTagsPlain(a: string, b: string)
    requires '<' !in a
    ensures QuoteCodeTags(a + b) == a + QuoteCodeTags(b)
  {
    if |a| > 0 {
      assert (a + b)[1..] == a[1..] + b;
      PlainTail(a);
      QuoteCodeTagsPlain(a[1..], b);
    } else {
      assert a + b == b;
    }
  }

  /** One of the four tags that `clean_documentaion` rewrites occurs in `s`. */
  predicate HasDocTag(s: string) {
    Contains(s, "<p>") || Contains(s, "</p>") || Contains(s, "<code>") || Contains(s, "</code>")
  }

  /** A text that starts with a tag starts with `<`. */
  lemma StartsWithOpen(s: string, tag: string)
    requires |tag| > 0 && tag[0] == '<'
    ensures StartsWith(s, tag) ==> s[0] == '<'
  {
    if StartsWith(s, tag) {
      assert s[0] == s[..|tag|][0];
    }
  }

  /** Without paragraph tags the paragraph pass changes nothing. */
  lemma {:induction false} DropParagraphTagsNone(s: string)
    requires !Contains(s, "<p>") && !Contains(s, "</p>")
    ensures DropParagraphTags(s) == s
    decreases |s|
  {
    if |s| > 0 {
      DropParagraphTagsNone(s[1..]);
      PlainTail(s);
    }
  }

  /** A paragraph tag anywhere makes the paragraph pass shorten the text. */
  lemma {:induction false} DropParagraphTagsShortens(s: string, tag: string)
    requires tag == "<p>" || tag == "</p>"
    requires Contains(s, tag)
    ensures |DropParagraphTags(s)| < |s|
    decreases |s|
  {
    StartsWithOpen(s, tag);
    if s[0] != '<' || !(StartsWith(s, "<p>") || StartsWith(s, "</p>")) {
      DropParagraphTagsShortens(s[1..], tag);
    }
  }

  /** Without code tags the code pass changes nothing. */
  lemma {:induction false} QuoteCodeTagsNone(s: string)
    requires !Contains(s, "<code>") && !Contains(s, "</code>")
    ensures QuoteCodeTags(s) == s
    decreases |s|
  {
    if |s| > 0 {
      QuoteCodeTagsNone(s[1..]);
      PlainTail(s);
    }
  }

  /** A code tag anywhere makes the code pass shorten the text. */
  lemma {:induction false} QuoteCodeTagsShortens(s: string, tag: string)
    requires tag == "<code>" || tag == "</code>"
    requires Contains(s, tag)
    ensures |QuoteCodeTags(s)| < |s|
    decreases |s|
  {
    StartsWithOpen(s, tag);
    if s[0] != '<' || !(StartsWith(s, "<code>") || StartsWith(s, "</code>")) {
      QuoteCodeTagsShortens(s[1..], tag);
    }
  }

  /** `clean_documentaion` leaves a text unchanged exactly when none of
      `<p>`, `</p>`, `<code>`, `</code>` occurs in it. */
  lemma CleanDocumentationUnchanged(s: string)
    ensures CleanDocumentation(s) == s <==> !HasDocTag(s)
  {
    if Contains(s, "<p>") {
      DropParagraphTagsShortens(s, "<p>");
    } else if Contains(s, "</p>") {
      DropParagraphTagsShortens(s, "</p>");
    } else {
      DropParagraphTagsNone(s);
      if Contains(s, "<code>") {
        QuoteCodeTagsShortens(s, "<code>");
      } else if Contains(s, "</code>") {
        QuoteCodeTagsShortens(s, "</code>");
      } else {
        QuoteCodeTagsNone(s);
      }
    }
  }

  /** The first paragraph tag after plain text is deleted, wherever it is,
      and the scan resumes right after it. */
  lemma DropParagraphTagAfter(a: string, tag: string, b: string)
    requires '<' !in a
    requires tag == "<p>" || tag == "</p>"
    ensures DropParagraphTags(a + tag + b) == a + DropParagraphTags(b)
  {
    DropParagraphTagFront(tag, b);
    DropParagraphTagsPlain(a, tag + b);
    ConcatAssoc3(a, tag, b);
  }

  /** A paragraph tag in front is deleted. */
  lemma DropParagraphTagFront(tag: string, u: string)
    requires tag == "<p>" || tag == "</p>"
    ensures DropParagraphTags(tag + u) == DropParagraphTags(u)
  {
    ConcatParts(tag, u);
    if tag == "</p>" {
      assert (tag + u)[..3][1] == '/';
    }
  }

  /** The first code tag after plain text becomes a single quote, wherever
      it is, and the scan resumes right after it. */
  lemma QuoteCodeTagAfter(a: string, tag: string, b: string)
    requires '<' !in a
    requires tag == "<code>" || tag == "</code>"
    ensures QuoteCodeTags(a + tag + b) == a + "'" + QuoteCodeTags(b)
  {
    QuoteCodeTagFront(tag, b);
    QuoteCodeTagsPlain(a, tag + b);
    ConcatAssoc3(a, tag, b);
    ConcatAssoc3(a, "'", QuoteCodeTags(b));
  }

  /** A code tag in front becomes a quote. */
  lemma QuoteCodeTagFront(tag: string, u: string)
    requires tag == "<code>" || tag == "</code>"
    ensures QuoteCodeTags(tag + u) == "'" + QuoteCodeTags(u)
  {
    if tag == "<code>" {
      QuoteOpenTag(u);
    } else {
      QuoteCloseTagFront(u);
    }
  }

  /** A closing code tag in front becomes a quote. */
  lemma QuoteCloseTagFront(u: string)
    ensures QuoteCodeTags("</code>" + u) == "'" + QuoteCodeTags(u)
  {
    var s := "</code>" + u;
    ConcatParts("</code>", u);
    assert s[..6][1] == '/';
  }

  /** A paragraph of plain text loses its tags. */
  lemma CleanParagraph(t: string)
    requires '<' !in t
    ensures CleanDocumentation("<p>" + t + "</p>") == t
  {
    var s := "<p>" + t + "</p>";
    assert s[..3] == "<p>";
    assert s[3..] == t + "</p>";
    DropParagraphTagsPlain(t, "</p>");
    assert DropParagraphTags("</p>") == "" by {
      assert "</p>"[..3][1] != "<p>"[1];
      assert "</p>"[..4] == "</p>";
      assert "</p>"[4..] == "";
    }
    assert t + "" == t;
  }

  /** The paragraph pass leaves a code span of plain text alone. */
  lemma DropKeepsCodeSpan(t: string)
    requires '<' !in t
    ensures DropParagraphTags("<code>" + t + "</code>") == "<code>" + t + "</code>"
  {
    var close := "</code>";
    DropKeepsCloseCode();
    ConcatNotIn("code>", t, '<');
    DropParagraphTagsPlain("code>" + t, close);
    DropOpenCode(t, close);
    ConcatAssoc4("<", "code>", t, close);
    OpenCodeSplit();
  }

  /** The opening code tag is its `<` followed by the rest. */
  lemma OpenCodeSplit()
    ensures "<" + "code>" == "<code>"
  {
  }

  /** The paragraph pass copies the `<` of an opening code tag. */
  lemma DropOpenCode(t: string, c: string)
    ensures DropParagraphTags("<code>" + t + c) == "<" + DropParagraphTags("code>" + t + c)
  {
    var u := t + c;
    ConcatHeadChars("<code>", u);
    DropCopiesOther("<code>" + u);
    ConcatTail("<code>", u);
    assert "<code>"[1..] == "code>";
    ConcatAssoc3("<code>", t, c);
    ConcatAssoc3("code>", t, c);
  }

  lemma DropKeepsCloseCode()
    ensures DropParagraphTags("</code>") == "</code>"
  {
    var close := "</code>";
    DropCopiesOther(close);
    assert close[1..] == "/code>";
    assert '<' !in close[1..];
  }

  /** A `<` that opens neither paragraph tag is copied. */
  lemma DropCopiesOther(s: string)
    requires |s| >= 4 && s[0] == '<' && s[1] != 'p' && s[2] != 'p'
    ensures DropParagraphTags(s) == [s[0]] + DropParagraphTags(s[1..])
  {
    assert s[..3][1] != "<p>"[1];
    assert s[..4][2] != "</p>"[2];
  }

  /** A code span of plain text is quoted. */
  lemma CleanCodeSpan(t: string)
    requires '<' !in t
    ensures CleanDocumentation("<code>" + t + "</code>") == "'" + t + "'"
  {
    var close := "</code>";
    DropKeepsCodeSpan(t);
    assert "<code>" + t + close == "<code>" + (t + close);
    QuoteOpenTag(t + close);
    QuoteCodeTagsPlain(t, close);
    QuoteCloseTag();
  }

  /** An opening code tag becomes a quote. */
  lemma QuoteOpenTag(u: string)
    ensures QuoteCodeTags("<code>" + u) == "'" + QuoteCodeTags(u)
  {
    ConcatParts("<code>", u);
  }

  /** A closing code tag on its own becomes a quote. */
  lemma QuoteCloseTag()
    ensures QuoteCodeTags("</code>") == "'"
  {
    var close := "</code>";
    assert close[..6][1] != "<code>"[1];
    assert close[..7] == close;
    assert close[7..] == "";
  }
}
