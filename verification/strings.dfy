/** The handful of Python `str` operations the generator relies on, over
    ASCII: `split` on one character, `join`, `lower`, `strip`/`rstrip`,
    `startswith`, `in` and `replace`. */
module Strings {

  /** `str.count(c)` for a single character. */
  function Count(s: string, c: char): nat
  {
    if |s| == 0 then 0 else (if s[0] == c then 1 else 0) + Count(s[1..], c)
  }

  lemma {:induction false} CountConcat(a: string, b: string, c: char)
    ensures Count(a + b, c) == Count(a, c) + Count(b, c)
  {
    if |a| == 0 {
      assert a + b == b;
    } else {
      assert (a + b)[1..] == a[1..] + b;
      CountConcat(a[1..], b, c);
    }
  }

  lemma {:induction false} CountAbsent(s: string, c: char)
    requires c !in s
    ensures Count(s, c) == 0
  {
    if |s| > 0 {
      assert forall k :: 0 <= k < |s[1..]| ==> s[1..][k] == s[k + 1];
      CountAbsent(s[1..], c);
    }
  }

  /** `s.split(sep)` with a one-character separator: the pieces between
      separators, always at least one (`"".split(",") == [""]`). */
  function Split(s: string, sep: char): (parts: seq<string>)
    ensures |parts| == Count(s, sep) + 1
    ensures forall i :: 0 <= i < |parts| ==> sep !in parts[i]
  {
    if |s| == 0 then [""]
    else if s[0] == sep then [""] + Split(s[1..], sep)
    else
      var rest := Split(s[1..], sep);
      [[s[0]] + rest[0]] + rest[1..]
  }

  /** `sep.join(parts)`. */
  function Join(parts: seq<string>, sep: string): string
  {
    if |parts| == 0 then ""
    else if |parts| == 1 then parts[0]
    else parts[0] + sep + Join(parts[1..], sep)
  }

  /** Joining one more part appends the separator and that part. */
  lemma {:induction false} JoinAppend(parts: seq<string>, p: string, sep: string)
    requires |parts| >= 1
    ensures Join(parts + [p], sep) == Join(parts, sep) + sep + p
  {
    if |parts| == 1 {
      assert parts + [p] == [parts[0], p];
      assert [parts[0], p][1..] == [p];
    } else {
      assert (parts + [p])[1..] == parts[1..] + [p];
      JoinAppend(parts[1..], p, sep);
    }
  }

  lemma {:induction false} JoinSplit(s: string, sep: char)
    ensures Join(Split(s, sep), [sep]) == s
  {
    if |s| == 0 {
    } else if s[0] == sep {
      JoinSplit(s[1..], sep);
      var rest := Split(s[1..], sep);
      assert Split(s, sep) == [""] + rest;
      assert |rest| >= 1;
      assert ([""] + rest)[1..] == rest;
      assert s == [s[0]] + s[1..];
    } else {
      JoinSplit(s[1..], sep);
      var rest := Split(s[1..], sep);
      var parts := [[s[0]] + rest[0]] + rest[1..];
      if |rest| == 1 {
        assert s == [s[0]] + s[1..];
      } else {
        assert Join(rest, [sep]) == rest[0] + [sep] + Join(rest[1..], [sep]);
        assert parts[1..] == rest[1..];
        assert s == [s[0]] + s[1..];
      }
    }
  }

  /** Splitting the join of separator-free pieces gives the pieces back. */
  lemma {:induction false} SplitJoin(parts: seq<string>, sep: char)
    requires |parts| >= 1
    requires forall i :: 0 <= i < |parts| ==> sep !in parts[i]
    ensures Split(Join(parts, [sep]), sep) == parts
  {
    if |parts| == 1 {
      SplitFree(parts[0], sep);
    } else {
      SplitJoin(parts[1..], sep);
      SplitPrefix(parts[0], Join(parts[1..], [sep]), sep);
      assert [""] + Split(Join(parts[1..], [sep]), sep) == [""] + parts[1..];
      assert parts == [parts[0]] + parts[1..];
      assert Join(parts, [sep]) == parts[0] + ([sep] + Join(parts[1..], [sep]));
    }
  }

  /** A separator-free string is one piece. */
  lemma {:induction false} SplitFree(s: string, sep: char)
    requires sep !in s
    ensures Split(s, sep) == [s]
  {
    if |s| > 0 {
      assert sep !in s[1..] by {
        assert forall k :: 0 <= k < |s[1..]| ==> s[1..][k] == s[k + 1];
      }
      SplitFree(s[1..], sep);
      assert s == [s[0]] + s[1..];
    }
  }

  /** A separator-free prefix glues onto the first piece of what follows. */
  lemma {:induction false} SplitPrefix(a: string, b: string, sep: char)
    requires sep !in a
    ensures Split(a + [sep] + b, sep) == [a] + Split(b, sep)
  {
    if |a| == 0 {
      assert a + [sep] + b == [sep] + b;
      assert ([sep] + b)[1..] == b;
    } else {
      assert (a + [sep] + b)[1..] == a[1..] + [sep] + b;
      assert sep !in a[1..] by {
        assert forall k :: 0 <= k < |a[1..]| ==> a[1..][k] == a[k + 1];
      }
      SplitPrefix(a[1..], b, sep);
      assert a == [a[0]] + a[1..];
    }
  }

  /** The last piece is a suffix of the text. */
  lemma {:induction false} SplitLastSuffix(s: string, sep: char)
    ensures var p := Split(s, sep); |p[|p| - 1]| <= |s| && p[|p| - 1] == s[|s| - |p[|p| - 1]|..]
  {
    if |s| == 0 {
    } else if s[0] == sep {
      SplitLastSuffix(s[1..], sep);
      var rest := Split(s[1..], sep);
      assert Split(s, sep)[|Split(s, sep)| - 1] == rest[|rest| - 1];
    } else {
      SplitLastSuffix(s[1..], sep);
      var rest := Split(s[1..], sep);
      if |rest| == 1 {
        JoinSplit(s[1..], sep);
        assert s == [s[0]] + s[1..];
      } else {
        assert Split(s, sep)[|Split(s, sep)| - 1] == rest[|rest| - 1];
      }
    }
  }

  /** Splitting text that ends in a separator-free tail: the tail is the last piece. */
  lemma {:induction false} SplitLast(a: string, t: string, sep: char)
    requires sep !in t
    ensures var p := Split(a + t, sep);
      p[..|p| - 1] == Split(a, sep)[..|Split(a, sep)| - 1]
      && p[|p| - 1] == Split(a, sep)[|Split(a, sep)| - 1] + t
  {
    if |a| == 0 {
      SplitFree(t, sep);
      assert a + t == t;
    } else {
      assert (a + t)[0] == a[0] && (a + t)[1..] == a[1..] + t;
      SplitLast(a[1..], t, sep);
      var q := Split(a[1..] + t, sep);
      var pa := Split(a[1..], sep);
      if a[0] == sep {
        assert Split(a + t, sep) == [""] + q && Split(a, sep) == [""] + pa;
        ExtendLast([], q, pa, t);
      } else {
        assert Split(a + t, sep) == [[a[0]] + q[0]] + q[1..] && Split(a, sep) == [[a[0]] + pa[0]] + pa[1..];
        GlueLast([a[0]], q, pa, t);
      }
    }
  }

  /** Putting the same pieces in front of two piece lists that differ only
      in their last piece's tail `t` keeps that relation. */
  lemma ExtendLast(pre: seq<string>, q: seq<string>, pa: seq<string>, t: string)
    requires |q| >= 1 && |pa| >= 1
    requires q[..|q| - 1] == pa[..|pa| - 1] && q[|q| - 1] == pa[|pa| - 1] + t
    ensures var p := pre + [""] + q; var pb := pre + [""] + pa;
      p[..|p| - 1] == pb[..|pb| - 1] && p[|p| - 1] == pb[|pb| - 1] + t
  {
    var p := pre + [""] + q;
    var pb := pre + [""] + pa;
    assert p[..|p| - 1] == pre + [""] + q[..|q| - 1];
    assert pb[..|pb| - 1] == pre + [""] + pa[..|pa| - 1];
  }

  /** Gluing `x` onto the first piece of two such lists keeps the relation. */
  lemma GlueLast(x: string, q: seq<string>, pa: seq<string>, t: string)
    requires |q| >= 1 && |pa| >= 1
    requires q[..|q| - 1] == pa[..|pa| - 1] && q[|q| - 1] == pa[|pa| - 1] + t
    ensures var p := [x + q[0]] + q[1..]; var pb := [x + pa[0]] + pa[1..];
      p[..|p| - 1] == pb[..|pb| - 1] && p[|p| - 1] == pb[|pb| - 1] + t
  {
    assert |q| == |pa|;
    var p := [x + q[0]] + q[1..];
    var pb := [x + pa[0]] + pa[1..];
    if |q| == 1 {
      assert x + q[0] == x + pa[0] + t;
    } else {
      assert q[0] == q[..|q| - 1][0] == pa[..|pa| - 1][0] == pa[0];
      assert q[1..|q| - 1] == q[..|q| - 1][1..] == pa[..|pa| - 1][1..] == pa[1..|pa| - 1];
      assert p[..|p| - 1] == [x + q[0]] + q[1..|q| - 1];
      assert pb[..|pb| - 1] == [x + pa[0]] + pa[1..|pa| - 1];
    }
  }

  // ---------------------------------------------------------------------
  // Characters (ASCII only: Python's `[A-Z]` and `str.lower` on ASCII text)

  predicate IsUpper(c: char) { 'A' <= c <= 'Z' }

  function Lower(c: char): (r: char)
    ensures !IsUpper(r)
    ensures IsUpper(c) ==> r as int == c as int + 32
    ensures !IsUpper(c) ==> r == c
  {
    if IsUpper(c) then (c as int + 32) as char else c
  }

  /** `s.lower()`. */
  function LowerString(s: string): (r: string)
    ensures |r| == |s|
    ensures forall i :: 0 <= i < |s| ==> r[i] == Lower(s[i])
  {
    if |s| == 0 then "" else [Lower(s[0])] + LowerString(s[1..])
  }

  /** `str.isspace()` restricted to ASCII: space, `\t \n \v \f \r` and the four
      separator controls `\x1c`..`\x1f` that Python also strips. */
  predicate IsWhitespace(c: char) {
    c == ' ' || 9 <= c as int <= 13 || 28 <= c as int <= 31
  }

  /** `s.rstrip(c)`: drops every trailing `c`. */
  function RStrip(s: string, c: char): (r: string)
    ensures |r| <= |s| && r == s[..|r|]
    ensures |r| == 0 || r[|r| - 1] != c
    ensures forall i :: |r| <= i < |s| ==> s[i] == c
  {
    if |s| == 0 || s[|s| - 1] != c then s else RStrip(s[..|s| - 1], c)
  }

  /** Leading whitespace removed, as `s.lstrip()`. */
  function LStripWhitespace(s: string): (r: string)
    ensures |r| <= |s| && r == s[|s| - |r|..]
    ensures |r| == 0 || !IsWhitespace(r[0])
    ensures forall i :: 0 <= i < |s| - |r| ==> IsWhitespace(s[i])
  {
    if |s| == 0 || !IsWhitespace(s[0]) then s else LStripWhitespace(s[1..])
  }

  /** Trailing whitespace removed, as `s.rstrip()`. */
  function RStripWhitespace(s: string): (r: string)
    ensures |r| <= |s| && r == s[..|r|]
    ensures |r| == 0 || !IsWhitespace(r[|r| - 1])
    ensures forall i :: |r| <= i < |s| ==> IsWhitespace(s[i])
  {
    if |s| == 0 || !IsWhitespace(s[|s| - 1]) then s else RStripWhitespace(s[..|s| - 1])
  }

  /** `s.strip()`. */
  function Strip(s: string): string
  {
    RStripWhitespace(LStripWhitespace(s))
  }

  /** `s.startswith(p)`. */
  predicate StartsWith(s: string, p: string) {
    |p| <= |s| && s[..|p|] == p
  }

  /** `p in s`, decided by scanning every start position. */
  predicate Contains(s: string, p: string)
    decreases |s|
  {
    StartsWith(s, p) || (|s| > 0 && Contains(s[1..], p))
  }

  /** `p` occurs in `s` starting at index `i`. */
  predicate OccursAt(s: string, p: string, i: int) {
    0 <= i <= |s| - |p| && s[i..i + |p|] == p
  }

  /** `Contains` agrees with "some slice of `s` equals `p`". */
  lemma ContainsIff(s: string, p: string)
    ensures Contains(s, p) <==> exists i :: OccursAt(s, p, i)
  {
    if Contains(s, p) {
      var i := ContainsWitness(s, p);
    }
    forall i | OccursAt(s, p, i)
      ensures Contains(s, p)
    {
      OccursContains(s, p, i);
    }
  }

  /** A scan that succeeds names the position it found. */
  lemma {:induction false} ContainsWitness(s: string, p: string) returns (i: int)
    requires Contains(s, p)
    ensures OccursAt(s, p, i)
    decreases |s|
  {
    if StartsWith(s, p) {
      i := 0;
    } else {
      var j := ContainsWitness(s[1..], p);
      assert s[1..][j..j + |p|] == s[j + 1..j + 1 + |p|];
      i := j + 1;
    }
  }

  /** An occurrence at any position is found by the scan. */
  lemma {:induction false} OccursContains(s: string, p: string, i: int)
    requires OccursAt(s, p, i)
    ensures Contains(s, p)
    decreases i
  {
    if i > 0 {
      assert s[1..][i - 1..i - 1 + |p|] == s[i..i + |p|];
      OccursContains(s[1..], p, i - 1);
    } else {
      assert s[..|p|] == s[0..0 + |p|];
    }
  }

  /** `s.replace(p, q)`: every occurrence of `p`, scanning left to right
      without overlap, becomes `q`. */
  function ReplaceAll(s: string, p: string, q: string): string
    requires |p| > 0
    decreases |s|
  {
    if |s| == 0 then ""
    else if StartsWith(s, p) then q + ReplaceAll(s[|p|..], p, q)
    else [s[0]] + ReplaceAll(s[1..], p, q)
  }

  /** Text that does not contain the pattern is left as it is. */
  lemma {:induction false} ReplaceAbsent(s: string, p: string, q: string)
    requires |p| > 0
    requires !Contains(s, p)
    ensures ReplaceAll(s, p, q) == s
    decreases |s|
  {
    if |s| > 0 {
      ReplaceAbsent(s[1..], p, q);
      assert s == [s[0]] + s[1..];
    }
  }

  // ---------------------------------------------------------------------
  // Concatenation

  /** A concatenation splits back into its parts. */
  lemma ConcatParts(a: string, b: string)
    ensures (a + b)[..|a|] == a && (a + b)[|a|..] == b
  {
  }

  /** The first three characters of a concatenation come from its first part. */
  lemma ConcatHeadChars(a: string, b: string)
    requires |a| >= 3
    ensures (a + b)[0] == a[0] && (a + b)[1] == a[1] && (a + b)[2] == a[2]
    ensures |a + b| >= |a|
  {
  }

  /** Dropping the first character of a concatenation drops it from the first part. */
  lemma ConcatTail(a: string, b: string)
    requires |a| > 0
    ensures (a + b)[1..] == a[1..] + b
  {
  }

  /** A character in neither part is not in their concatenation. */
  lemma ConcatNotIn(a: string, b: string, c: char)
    requires c !in a && c !in b
    ensures c !in a + b
  {
  }

  /** Three strings concatenate the same whichever pair is joined first. */
  lemma ConcatAssoc3(a: string, b: string, c: string)
    ensures a + (b + c) == a + b + c
  {
  }

  /** The groupings of four concatenated strings that the proofs need. */
  lemma ConcatAssoc4(a: string, b: string, c: string, d: string)
    ensures a + (b + c + d) == a + b + c + d
    ensures a + b + c + d == a + (b + c) + d
    ensures (a + b) + (c + d) == a + (b + c + d)
  {
  }
}
