/** The .NET string operations the linter relies on: whitespace tests, prefix,
    suffix and substring tests, `Split(char)`, `Trim()` and `string.Join`. */
module Text {
  import opened Wrappers

  /** `char.IsWhiteSpace`: the space, line and paragraph separator categories,
      the control characters U+0009 to U+000D, and U+0085. */
  predicate IsWhiteSpace(c: char) {
    || ('\U{9}' <= c <= '\U{D}')
    || c == ' '
    || c == '\U{85}'
    || c == '\U{A0}'
    || c == '\U{1680}'
    || ('\U{2000}' <= c <= '\U{200A}')
    || c == '\U{2028}'
    || c == '\U{2029}'
    || c == '\U{202F}'
    || c == '\U{205F}'
    || c == '\U{3000}'
  }

  /** Empty, or made of white space only. */
  predicate IsBlank(s: string) {
    forall i :: 0 <= i < |s| ==> IsWhiteSpace(s[i])
  }

  /** `string.IsNullOrWhiteSpace`. */
  predicate IsNullOrWhiteSpace(s: Option<string>) {
    s.None? || IsBlank(s.value)
  }

  /** Ordinal `StartsWith`. */
  predicate StartsWith(s: string, prefix: string) {
    |prefix| <= |s| && s[..|prefix|] == prefix
  }

  /** Ordinal `EndsWith`. */
  predicate EndsWith(s: string, suffix: string) {
    |suffix| <= |s| && s[|s| - |suffix|..] == suffix
  }

  /** `part` occurs in `s` starting at offset `i`. */
  predicate OccursAt(s: string, part: string, i: int) {
    0 <= i <= |s| - |part| && s[i..i + |part|] == part
  }

  /** Ordinal `Contains`: `part` occurs in `s` at some offset. */
  predicate Contains(s: string, part: string) {
    exists i :: 0 <= i <= |s| - |part| && OccursAt(s, part, i)
  }

  /** The number of occurrences of `c` in `s`. */
  function Occurrences(s: string, c: char): (n: nat)
    ensures n <= |s|
    ensures n == 0 <==> c !in s
  {
    if |s| == 0 then 0
    else
      assert c in s <==> s[0] == c || c in s[1..] by {
        assert s == [s[0]] + s[1..];
      }
      (if s[0] == c then 1 else 0) + Occurrences(s[1..], c)
  }

  /** `s.Split(sep)`: the pieces between the separators, empty pieces included. */
  function Split(s: string, sep: char): (pieces: seq<string>)
    ensures |pieces| == Occurrences(s, sep) + 1
    ensures forall i :: 0 <= i < |pieces| ==> sep !in pieces[i]
  {
    if |s| == 0 then
      [""]
    else
      var rest := Split(s[1..], sep);
      if s[0] == sep then [""] + rest
      else
        assert sep !in [s[0]] + rest[0];
        [[s[0]] + rest[0]] + rest[1..]
  }

  /** `string.Join(sep, pieces)`. */
  function Join(pieces: seq<string>, sep: string): string {
    if |pieces| == 0 then ""
    else if |pieces| == 1 then pieces[0]
    else pieces[0] + sep + Join(pieces[1..], sep)
  }

  /** Joining the pieces of a split with the same separator gives back the string. */
  lemma {:induction false} JoinSplit(s: string, sep: char)
    ensures Join(Split(s, sep), [sep]) == s
  {
    if |s| > 0 {
      var t := s[1..];
      var rest := Split(t, sep);
      JoinSplit(t, sep);
      var pieces := Split(s, sep);
      assert s == [s[0]] + t;
      if s[0] == sep {
        assert pieces == [""] + rest;
        assert pieces[1..] == rest;
        assert Join(pieces, [sep]) == "" + [sep] + Join(rest, [sep]);
      } else if |rest| == 1 {
        assert pieces == [[s[0]] + rest[0]];
        assert Join(rest, [sep]) == rest[0];
      } else {
        var tail := Join(rest[1..], [sep]);
        assert pieces[0] == [s[0]] + rest[0];
        assert pieces[1..] == rest[1..];
        assert Join(rest, [sep]) == rest[0] + [sep] + tail;
        assert Join(pieces, [sep]) == ([s[0]] + rest[0]) + [sep] + tail;
        ConcatAssoc([s[0]], rest[0], [sep], tail);
      }
    }
  }

  /** A string without the separator is a single piece. */
  lemma {:induction false} SplitWithoutSeparator(a: string, sep: char)
    requires sep !in a
    ensures Split(a, sep) == [a]
  {
    if |a| > 0 {
      assert sep !in a[1..];
      SplitWithoutSeparator(a[1..], sep);
      assert a == [a[0]] + a[1..];
    }
  }

  /** A separator-free head followed by the separator is split off as the first piece. */
  lemma {:induction false} SplitAfterHead(a: string, b: string, sep: char)
    requires sep !in a
    ensures Split(a + [sep] + b, sep) == [a] + Split(b, sep)
  {
    var s := a + [sep] + b;
    if |a| == 0 {
      assert s == [sep] + b;
      assert s[1..] == b;
    } else {
      assert sep !in a[1..];
      assert s[1..] == a[1..] + [sep] + b;
      SplitAfterHead(a[1..], b, sep);
      var rest := Split(s[1..], sep);
      assert rest[0] == a[1..] && rest[1..] == Split(b, sep);
      assert [s[0]] + a[1..] == a;
    }
  }

  /** Splitting a join of separator-free pieces gives back the pieces. */
  lemma {:induction false} SplitJoin(cs: seq<string>, sep: char)
    requires |cs| > 0 && forall c :: c in cs ==> sep !in c
    ensures Split(Join(cs, [sep]), sep) == cs
  {
    if |cs| == 1 {
      SplitWithoutSeparator(cs[0], sep);
    } else {
      assert cs[0] in cs;
      assert forall c :: c in cs[1..] ==> c in cs;
      SplitJoin(cs[1..], sep);
      SplitAfterHead(cs[0], Join(cs[1..], [sep]), sep);
      assert cs == [cs[0]] + cs[1..];
    }
  }

  /** Grouping of `a + b + c + d` as `a + (b + c + d)`. */
  lemma ConcatAssoc(a: string, b: string, c: string, d: string)
    ensures (a + b) + c + d == a + (b + c + d)
  {
  }

  /** The last piece of a split is the end of the string after its last
      separator, and it is the whole string exactly when there is one piece. */
  predicate LastPieceFacts(s: string, sep: char) {
    var pieces := Split(s, sep);
    var w := pieces[|pieces| - 1];
    && EndsWith(s, w)
    && (|w| < |s| ==> s[|s| - |w| - 1] == sep)
    && (|pieces| > 1 ==> |w| < |s|)
  }

  lemma {:induction false} LastPieceIsSuffix(s: string, sep: char)
    ensures LastPieceFacts(s, sep)
  {
    if |s| > 0 {
      LastPieceIsSuffix(s[1..], sep);
      if s[0] != sep && |Split(s[1..], sep)| == 1 {
        LastPieceWhole(s, sep);
      } else {
        LastPieceOfRest(s, sep);
      }
    }
  }

  /** Without a separator after the first character, which is not one either,
      the only piece is the whole string. */
  lemma LastPieceWhole(s: string, sep: char)
    requires |s| > 0 && s[0] != sep && |Split(s[1..], sep)| == 1
    requires LastPieceFacts(s[1..], sep)
    ensures LastPieceFacts(s, sep)
  {
    var t := s[1..];
    var rest := Split(t, sep);
    assert sep !in t;
    assert |rest[0]| == |t|;
    assert rest[0] == t;
    assert Split(s, sep) == [[s[0]] + t];
    assert s == [s[0]] + t;
    assert s[|s| - |s|..] == s;
  }

  /** Otherwise the last piece is the last piece of the rest of the string. */
  lemma LastPieceOfRest(s: string, sep: char)
    requires |s| > 0 && (s[0] == sep || |Split(s[1..], sep)| > 1)
    requires LastPieceFacts(s[1..], sep)
    ensures LastPieceFacts(s, sep)
  {
    var t := s[1..];
    var rest := Split(t, sep);
    var pieces := Split(s, sep);
    var w := rest[|rest| - 1];
    assert pieces[|pieces| - 1] == w;
    assert t[|t| - |w|..] == w;
    assert s[|s| - |w|..] == t[|t| - |w|..];
    if |w| < |t| {
      assert s[|s| - |w| - 1] == t[|t| - |w| - 1];
    } else {
      assert s[|s| - |w| - 1] == s[0];
    }
  }

  /** `s.Split(' ').LastOrDefault()`: the text after the last space. The split
      never yields an empty array, so the default (null) is never taken. */
  function LastWord(s: string): (w: string)
    ensures EndsWith(s, w)
    ensures ' ' !in w
    ensures |w| < |s| ==> s[|s| - |w| - 1] == ' '
  {
    var pieces := Split(s, ' ');
    LastPieceIsSuffix(s, ' ');
    pieces[|pieces| - 1]
  }

  /** Whatever precedes the last space, the last word is what follows it. */
  lemma LastWordAfterSpace(front: string, word: string)
    requires ' ' !in word
    ensures LastWord(front + " " + word) == word
  {
    var s := front + " " + word;
    var w := LastWord(s);
    assert s[|front|] == ' ';
    assert s[|s| - |word|..] == word;
    forall i | |s| - |w| <= i < |s| ensures s[i] != ' ' {
      assert s[i] == w[i - (|s| - |w|)];
    }
    forall i | |s| - |word| <= i < |s| ensures s[i] != ' ' {
      assert s[i] == word[i - (|s| - |word|)];
    }
  }

  /** `TrimStart()`: drops the leading white space. */
  function TrimStart(s: string): (r: string)
    ensures |r| <= |s| && r == s[|s| - |r|..]
    ensures IsBlank(s[..|s| - |r|])
    ensures r != [] ==> !IsWhiteSpace(r[0])
  {
    if |s| > 0 && IsWhiteSpace(s[0]) then
      var r := TrimStart(s[1..]);
      assert s[..|s| - |r|] == [s[0]] + s[1..][..|s[1..]| - |r|];
      r
    else
      s
  }

  /** `TrimEnd()`: drops the trailing white space. */
  function TrimEnd(s: string): (r: string)
    ensures |r| <= |s| && r == s[..|r|]
    ensures IsBlank(s[|r|..])
    ensures r != [] ==> !IsWhiteSpace(r[|r| - 1])
  {
    if |s| > 0 && IsWhiteSpace(s[|s| - 1]) then
      var r := TrimEnd(s[..|s| - 1]);
      assert s[|r|..] == s[..|s| - 1][|r|..] + [s[|s| - 1]];
      r
    else
      s
  }

  /** `Trim()`: drops white space at both ends; the result is empty exactly when the
      string was blank, and otherwise starts and ends with a non-white-space character. */
  function Trim(s: string): (r: string)
    ensures r == [] <==> IsBlank(s)
    ensures r != [] ==> !IsWhiteSpace(r[0]) && !IsWhiteSpace(r[|r| - 1])
    ensures |r| <= |s|
    ensures forall c :: c in r ==> c in s
  {
    var t := TrimStart(s);
    var r := TrimEnd(t);
    TrimmedEnds(s, t, r);
    r
  }

  /** The facts `Trim()` promises, from those of its two halves. */
  lemma TrimmedEnds(s: string, t: string, r: string)
    requires |t| <= |s| && t == s[|s| - |t|..] && IsBlank(s[..|s| - |t|])
    requires t != [] ==> !IsWhiteSpace(t[0])
    requires |r| <= |t| && r == t[..|r|] && IsBlank(t[|r|..])
    requires r != [] ==> !IsWhiteSpace(r[|r| - 1])
    ensures r == [] <==> IsBlank(s)
    ensures r != [] ==> !IsWhiteSpace(r[0]) && !IsWhiteSpace(r[|r| - 1])
    ensures |r| <= |s|
    ensures forall c :: c in r ==> c in s
  {
    var i := |s| - |t|;
    if r == [] {
      assert s == s[..i] + t;
      assert IsBlank(t) by { assert t[|r|..] == t; }
    } else {
      assert r[0] == t[0] == s[i];
      assert !IsBlank(s) by { assert !IsWhiteSpace(s[i]); }
    }
    forall c | c in r ensures c in s {
      var k :| 0 <= k < |r| && r[k] == c;
      assert t[k] == c;
      assert s[i + k] == c;
    }
  }

  /** `r` sits in `s` at offset `i` with only blank text before and after it. */
  predicate BlankFramed(s: string, r: string, i: int) {
    && 0 <= i <= |s| - |r|
    && r == s[i..i + |r|]
    && IsBlank(s[..i])
    && IsBlank(s[i + |r|..])
  }

  /** `Trim()` removes exactly the white space at the two ends: its result is a
      window of the string with blank text, and nothing else, on either side. */
  lemma TrimIsWindow(s: string)
    ensures exists i :: BlankFramed(s, Trim(s), i)
  {
    var t := TrimStart(s);
    TrimWindow(s, t, TrimEnd(t));
    assert BlankFramed(s, Trim(s), |s| - |t|);
  }

  /** What `Trim()` keeps is a window of the string, with blank text on either
      side: a blank-led suffix `t` of `s`, and a blank-trailed prefix `r` of `t`. */
  lemma TrimWindow(s: string, t: string, r: string)
    requires |t| <= |s| && t == s[|s| - |t|..] && IsBlank(s[..|s| - |t|])
    requires |r| <= |t| && r == t[..|r|] && IsBlank(t[|r|..])
    ensures BlankFramed(s, r, |s| - |t|)
  {
    var i := |s| - |t|;
    assert s[i + |r|..] == t[|r|..];
  }

  /** Trimming twice trims no further than trimming once. */
  lemma TrimIdempotent(s: string)
    ensures Trim(Trim(s)) == Trim(s)
  {
    var r := Trim(s);
    assert TrimStart(r) == r;
    assert TrimEnd(r) == r;
  }
}
