/** The handful of Python `str` operations the scripts rely on, with their
    Python meaning: `isspace`, `strip`, `lstrip(c)`, slicing, `split(c)`,
    `c.join` and single-character `replace`. */
module PyText {

  /** Python's `str.isspace` for one character: the ASCII whitespace and
      separator controls plus the Unicode space separators. */
  predicate IsSpace(c: char) {
    || c == ' '
    || ('\t' <= c <= '\r')
    || ('\U{1C}' <= c <= '\U{1F}')
    || c == '\U{85}' || c == '\U{A0}' || c == '\U{1680}'
    || ('\U{2000}' <= c <= '\U{200A}')
    || c == '\U{2028}' || c == '\U{2029}' || c == '\U{202F}'
    || c == '\U{205F}' || c == '\U{3000}'
  }

  /** The characters `int()` skips around a numeral. CPython maps every
      non-ASCII whitespace character to a space before parsing, but of the
      ASCII controls it skips only `\t` to `\r`: the separators U+001C to
      U+001F, which `str.isspace` accepts, make `int()` raise. */
  predicate IsIntSpace(c: char) {
    IsSpace(c) && !('\U{1C}' <= c <= '\U{1F}')
  }

  /** Neither end is a character `space` accepts. */
  predicate IsStrippedBy(s: string, space: char -> bool) {
    s == [] || (!space(s[0]) && !space(s[|s| - 1]))
  }

  /** No whitespace at either end. */
  predicate IsStripped(s: string) {
    IsStrippedBy(s, IsSpace)
  }

  /** Every character is one that `space` accepts. */
  predicate AllBy(s: string, space: char -> bool) {
    forall i :: 0 <= i < |s| ==> space(s[i])
  }

  /** Every character is whitespace. */
  predicate AllSpace(s: string) {
    AllBy(s, IsSpace)
  }

  /** `r` is what is left of `s` once a run of characters `space` accepts
      is cut from each end: a contiguous part of `s` with nothing but such
      characters before and after it. */
  predicate IsMiddleBy(s: string, r: string, space: char -> bool) {
    exists i :: 0 <= i <= |s| - |r| && r == s[i..i + |r|] && AllBy(s[..i], space) && AllBy(s[i + |r|..], space)
  }

  /** An `AllBy` slice speaks for every position it covers. */
  lemma AllByAt(s: string, lo: nat, hi: nat, space: char -> bool)
    requires lo <= hi <= |s| && AllBy(s[lo..hi], space)
    ensures forall k :: lo <= k < hi ==> space(s[k])
  {
    forall k | lo <= k < hi
      ensures space(s[k])
    {
      assert s[lo..hi][k - lo] == s[k];
    }
  }

  /** Drops the prefix of characters `space` accepts, and nothing else. */
  function StripLeftBy(s: string, space: char -> bool): (r: string)
    ensures |r| <= |s| && r == s[|s| - |r|..]
    ensures AllBy(s[..|s| - |r|], space)
    ensures r == [] || !space(r[0])
  {
    if |s| > 0 && space(s[0]) then
      var r := StripLeftBy(s[1..], space);
      assert s[..|s| - |r|] == [s[0]] + s[1..][..|s| - 1 - |r|];
      r
    else s
  }

  /** Drops the suffix of characters `space` accepts, and nothing else. */
  function StripRightBy(s: string, space: char -> bool): (r: string)
    ensures |r| <= |s| && r == s[..|r|]
    ensures AllBy(s[|r|..], space)
    ensures r == [] || !space(r[|r| - 1])
  {
    if |s| > 0 && space(s[|s| - 1]) then
      var r := StripRightBy(s[..|s| - 1], space);
      assert s[|r|..] == s[..|s| - 1][|r|..] + [s[|s| - 1]];
      r
    else s
  }

  /** Strips both ends: the result is the middle of `s` that is left once
      the accepted characters are removed from either end. */
  function StripBy(s: string, space: char -> bool): (r: string)
    ensures |r| <= |s|
    ensures IsStrippedBy(r, space)
    ensures IsMiddleBy(s, r, space)
  {
    var l := StripLeftBy(s, space);
    var r := StripRightBy(l, space);
    StripByMiddle(s, space, |s| - |l|, l, r);
    r
  }

  lemma StripByMiddle(s: string, space: char -> bool, i: nat, l: string, r: string)
    requires i <= |s| && l == s[i..] && AllBy(s[..i], space)
    requires |r| <= |l| && r == l[..|r|] && AllBy(l[|r|..], space)
    ensures IsMiddleBy(s, r, space)
  {
    assert l[|r|..] == s[i + |r|..];
    assert r == s[i..i + |r|] && AllBy(s[..i], space) && AllBy(s[i + |r|..], space);
  }

  /** `s.strip()`: the contiguous middle of `s` between its whitespace ends. */
  function Strip(s: string): (r: string)
    ensures IsStripped(r)
    ensures IsMiddleBy(s, r, IsSpace)
    ensures forall c :: c in r ==> c in s
    ensures r == [] <==> AllSpace(s)
    ensures IsStripped(s) ==> r == s
  {
    var r := StripBy(s, IsSpace);
    StripMiddle(s, r);
    r
  }

  /** A middle of `s` with no whitespace at either end has the properties of `s.strip()`. */
  lemma StripMiddle(s: string, r: string)
    requires IsStrippedBy(r, IsSpace) && IsMiddleBy(s, r, IsSpace)
    ensures IsStripped(r)
    ensures IsMiddleBy(s, r, IsSpace)
    ensures forall c :: c in r ==> c in s
    ensures r == [] <==> AllSpace(s)
    ensures IsStripped(s) ==> r == s
  {
    var i :| 0 <= i <= |s| - |r| && r == s[i..i + |r|] && AllSpace(s[..i]) && AllSpace(s[i + |r|..]);
    MiddleChars(s, r, i);
    MiddleEmpty(s, r, i);
    MiddleOfStripped(s, r, i);
  }

  lemma MiddleChars(s: string, r: string, i: nat)
    requires i + |r| <= |s| && r == s[i..i + |r|]
    ensures forall c :: c in r ==> c in s
  {
    forall c | c in r
      ensures c in s
    {
      var k :| 0 <= k < |r| && r[k] == c;
      assert s[i + k] == c;
    }
  }

  lemma MiddleEmpty(s: string, r: string, i: nat)
    requires i + |r| <= |s| && r == s[i..i + |r|] && AllSpace(s[..i]) && AllSpace(s[i + |r|..])
    requires r == [] || !IsSpace(r[0])
    ensures r == [] <==> AllSpace(s)
  {
    if r == [] {
      assert s == s[..i] + s[i + |r|..];
    } else {
      assert s[i] == r[0];
    }
  }

  lemma MiddleOfStripped(s: string, r: string, i: nat)
    requires i + |r| <= |s| && r == s[i..i + |r|] && AllSpace(s[..i]) && AllSpace(s[i + |r|..])
    requires r == [] || !IsSpace(r[0])
    ensures IsStripped(s) ==> r == s
  {
    if IsStripped(s) && s != [] {
      AllByAt(s, 0, i, IsSpace);
      assert s[i + |r|..] == s[i + |r|..|s|];
      AllByAt(s, i + |r|, |s|, IsSpace);
      assert s == s[i..i + |r|];
    }
  }

  /** `s.lstrip(c)` for a single character `c`: drops every leading `c`. */
  function DropLeading(s: string, c: char): (r: string)
    ensures |r| <= |s| && r == s[|s| - |r|..]
    ensures forall i :: 0 <= i < |s| - |r| ==> s[i] == c
    ensures r == [] || r[0] != c
  {
    if |s| > 0 && s[0] == c then DropLeading(s[1..], c) else s
  }

  /** Python's `s[i:j]` for non-negative bounds: both ends are clamped to
      the length, and an inverted range is empty. */
  function Slice(s: string, i: nat, j: nat): (r: string)
    ensures i <= j ==> |r| <= j - i
    ensures j <= |s| && i <= j ==> r == s[i..j]
    ensures |s| <= i ==> r == []
    ensures i < |s| < j ==> r == s[i..]
    ensures j < i ==> r == []
  {
    var lo := if i < |s| then i else |s|;
    var hi := if j < |s| then j else |s|;
    if lo <= hi then s[lo..hi] else []
  }

  /** `s.replace(from, to)` for single characters. */
  function ReplaceChar(s: string, from: char, to: char): (r: string)
    ensures |r| == |s|
    ensures forall i :: 0 <= i < |s| ==> r[i] == (if s[i] == from then to else s[i])
    ensures from != to ==> from !in r
  {
    if |s| == 0 then [] else [if s[0] == from then to else s[0]] + ReplaceChar(s[1..], from, to)
  }

  /** `s.split(sep)` for a single-character separator: always at least one
      piece, and no piece contains the separator. */
  function Split(s: string, sep: char): (pieces: seq<string>)
    ensures |pieces| >= 1
    ensures forall i :: 0 <= i < |pieces| ==> sep !in pieces[i]
    ensures forall i, c :: 0 <= i < |pieces| && c in pieces[i] ==> c in s
  {
    if |s| == 0 then [[]]
    else
      var rest := Split(s[1..], sep);
      assert forall c :: c in s[1..] ==> c in s;
      if s[0] == sep then [[]] + rest
      else [[s[0]] + rest[0]] + rest[1..]
  }

  /** `sep.join(parts)`. */
  function Join(parts: seq<string>, sep: char): string
  {
    if |parts| == 0 then []
    else if |parts| == 1 then parts[0]
    else parts[0] + [sep] + Join(parts[1..], sep)
  }

  lemma ReplaceCharConcat(a: string, b: string, from: char, to: char)
    ensures ReplaceChar(a + b, from, to) == ReplaceChar(a, from, to) + ReplaceChar(b, from, to)
  {
    var l := ReplaceChar(a + b, from, to);
    var r := ReplaceChar(a, from, to) + ReplaceChar(b, from, to);
    assert |l| == |r|;
    forall i | 0 <= i < |l|
      ensures l[i] == r[i]
    {
      if i < |a| {
        assert (a + b)[i] == a[i];
      } else {
        assert (a + b)[i] == b[i - |a|];
      }
    }
  }

  /** Splitting distributes over a separator placed between two strings. */
  lemma {:induction false} SplitConcat(a: string, b: string, sep: char)
    ensures Split(a + [sep] + b, sep) == Split(a, sep) + Split(b, sep)
    decreases |a|
  {
    var s := a + [sep] + b;
    if |a| == 0 {
      assert s == [sep] + b;
      assert s[1..] == b;
    } else {
      assert s[0] == a[0];
      assert s[1..] == a[1..] + [sep] + b;
      SplitConcat(a[1..], b, sep);
    }
  }

  /** A string without the separator is a single piece. */
  lemma {:induction false} SplitWithoutSeparator(w: string, sep: char)
    requires sep !in w
    ensures Split(w, sep) == [w]
    decreases |w|
  {
    if |w| > 0 {
      assert sep !in w[1..];
      SplitWithoutSeparator(w[1..], sep);
      assert [w[0]] + w[1..] == w;
    }
  }

  /** `sep.join(s.split(sep)) == s`. */
  lemma {:induction false} JoinSplit(s: string, sep: char)
    ensures Join(Split(s, sep), sep) == s
    decreases |s|
  {
    if |s| > 0 {
      var rest := Split(s[1..], sep);
      JoinSplit(s[1..], sep);
      if s[0] == sep {
        assert ([[]] + rest)[1..] == rest;
        assert Join([[]] + rest, sep) == [] + [sep] + Join(rest, sep);
      } else if |rest| == 1 {
        assert Join([[s[0]] + rest[0]] + rest[1..], sep) == [s[0]] + rest[0];
      } else {
        var p := [[s[0]] + rest[0]] + rest[1..];
        assert p[1..] == rest[1..];
        assert Join(p, sep) == [s[0]] + rest[0] + [sep] + Join(rest[1..], sep);
        assert Join(rest, sep) == rest[0] + [sep] + Join(rest[1..], sep);
      }
    }
  }

  /** `sep.join(parts).split(sep) == parts` when no part holds the separator. */
  lemma {:induction false} SplitJoin(parts: seq<string>, sep: char)
    requires |parts| >= 1
    requires forall i :: 0 <= i < |parts| ==> sep !in parts[i]
    ensures Split(Join(parts, sep), sep) == parts
    decreases |parts|
  {
    SplitWithoutSeparator(parts[0], sep);
    if |parts| > 1 {
      SplitJoin(parts[1..], sep);
      SplitConcat(parts[0], Join(parts[1..], sep), sep);
      assert [parts[0]] + parts[1..] == parts;
    }
  }

  lemma StripOne(c: char, space: char -> bool)
    ensures StripBy([c], space) == (if space(c) then [] else [c])
  {
    if space(c) {
      assert [c][1..] == [];
      assert StripLeftBy([c], space) == [];
      assert StripRightBy([], space) == [];
    } else {
      assert StripLeftBy([c], space) == [c];
      assert StripRightBy([c], space) == [c];
    }
  }

  lemma StripTwo(a: char, b: char, space: char -> bool)
    ensures StripBy([a, b], space) == (if space(a) && space(b) then []
                                       else if space(a) then [b]
                                       else if space(b) then [a]
                                       else [a, b])
  {
    var s := [a, b];
    if space(a) {
      assert s[1..] == [b];
      assert StripLeftBy(s, space) == StripLeftBy([b], space);
      if space(b) {
        assert [b][1..] == [];
      }
    } else {
      assert StripLeftBy(s, space) == s;
      if space(b) {
        assert s[..1] == [a];
        assert StripRightBy(s, space) == StripRightBy([a], space);
      }
    }
  }
}
