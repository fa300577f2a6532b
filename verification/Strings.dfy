/** Text helpers shared by the models; letter case is folded for ASCII only. */
module Strings {

  predicate IsDigit(c: char) { '0' <= c <= '9' }

  predicate AllDigits(s: string) { forall i :: 0 <= i < |s| ==> IsDigit(s[i]) }

  predicate IsSpace(c: char) {
    '\t' <= c <= '\r' || c == ' ' || c == '\U{0085}' || c == '\U{00A0}' || c == '\U{1680}' ||
    '\U{2000}' <= c <= '\U{200A}' || c == '\U{2028}' || c == '\U{2029}' || c == '\U{202F}' ||
    c == '\U{205F}' || c == '\U{3000}'
  }

  predicate AllSpaces(s: string) { forall i :: 0 <= i < |s| ==> IsSpace(s[i]) }

  function LowerChar(c: char): char {
    if 'A' <= c <= 'Z' then (c as int + 32) as char else c
  }

  /** strings.ToLower. */
  function Lower(s: string): string {
    seq(|s|, i requires 0 <= i < |s| => LowerChar(s[i]))
  }

  function UpperChar(c: char): char {
    if 'a' <= c <= 'z' then (c as int - 32) as char else c
  }

  /** strings.ToUpper. */
  function Upper(s: string): (r: string)
    ensures |r| == |s|
  {
    seq(|s|, i requires 0 <= i < |s| => UpperChar(s[i]))
  }

  /** The first position from `i` on that holds no space. */
  function SpacesEnd(s: string, i: nat): (n: nat)
    requires i <= |s|
    ensures i <= n <= |s| && (n < |s| ==> !IsSpace(s[n]))
    ensures forall k :: i <= k < n ==> IsSpace(s[k])
    decreases |s| - i
  {
    if i < |s| && IsSpace(s[i]) then SpacesEnd(s, i + 1) else i
  }

  /** The last position up to `j` that has no space before it. */
  function SpacesStart(s: string, j: nat): (n: nat)
    requires j <= |s|
    ensures n <= j && (n > 0 ==> !IsSpace(s[n - 1]))
    ensures forall k :: n <= k < j ==> IsSpace(s[k])
  {
    if j > 0 && IsSpace(s[j - 1]) then SpacesStart(s, j - 1) else j
  }

  function TrimLeft(s: string): string { s[SpacesEnd(s, 0)..] }

  function TrimRight(s: string): string { s[..SpacesStart(s, |s|)] }

  /** strings.TrimSpace. */
  function TrimSpace(s: string): string { TrimRight(TrimLeft(s)) }

  /** The length in UTF-8. */
  function ByteLength(s: string): nat {
    if s == "" then 0 else ByteLength(s[..|s| - 1]) + CharBytes(s[|s| - 1])
  }

  function CharBytes(c: char): (n: nat)
    ensures 1 <= n <= 4
  {
    if c < '\U{0080}' then 1 else if c < '\U{0800}' then 2 else if c < '\U{10000}' then 3 else 4
  }

  /** strings.IndexAny from position `from`, with the length for "not found". */
  function IndexFrom(s: string, chars: set<char>, from: nat): (i: nat)
    requires from <= |s|
    ensures from <= i <= |s| && (i < |s| ==> s[i] in chars)
    ensures forall j :: from <= j < i ==> s[j] !in chars
    decreases |s| - from
  {
    if from == |s| || s[from] in chars then from else IndexFrom(s, chars, from + 1)
  }

  function IndexAny(s: string, chars: set<char>): (i: nat)
    ensures i <= |s| && (i < |s| ==> s[i] in chars)
    ensures forall j :: 0 <= j < i ==> s[j] !in chars
  {
    IndexFrom(s, chars, 0)
  }

  lemma TrimSpaceStrips(before: string, core: string, after: string)
    requires AllSpaces(before) && AllSpaces(after)
    requires core != "" && !IsSpace(core[0]) && !IsSpace(core[|core| - 1])
    ensures TrimSpace(before + core + after) == core
  {
    hide IsSpace, TrimLeft, TrimRight;
    assert before + core + after == before + (core + after);
    TrimLeftStrips(before, core + after);
    TrimRightStrips(core, after);
  }

  lemma TrimLeftStrips(before: string, rest: string)
    requires AllSpaces(before) && rest != "" && !IsSpace(rest[0])
    ensures TrimLeft(before + rest) == rest
  {
    hide IsSpace;
    var s := before + rest;
    assert forall i :: 0 <= i < |before| ==> s[i] == before[i];
    assert s[|before|] == rest[0];
    assert SpacesEnd(s, 0) == |before|;
  }

  lemma TrimRightStrips(core: string, after: string)
    requires AllSpaces(after) && core != "" && !IsSpace(core[|core| - 1])
    ensures TrimRight(core + after) == core
  {
    hide IsSpace;
    var s := core + after;
    assert forall i :: |core| <= i < |s| ==> s[i] == after[i - |core|];
    assert s[|core| - 1] == core[|core| - 1];
    assert SpacesStart(s, |s|) == |core|;
  }

  /** Go's < on strings. */
  predicate TextLess(a: string, b: string) {
    if b == "" then false
    else if a == "" then true
    else a[0] < b[0] || (a[0] == b[0] && TextLess(a[1..], b[1..]))
  }

  lemma {:induction false} TextOrder(a: string, b: string, c: string)
    ensures !TextLess(a, a) && (TextLess(a, b) && TextLess(b, c) ==> TextLess(a, c))
    ensures TextLess(a, b) || a == b || TextLess(b, a)
    ensures !(TextLess(a, b) && TextLess(b, a))
  {
    if a != "" {
      TextOrder(a[1..], if b == "" then "" else b[1..], if c == "" then "" else c[1..]);
      assert a == [a[0]] + a[1..];
      assert b != "" ==> b == [b[0]] + b[1..];
    }
  }

  /** `a` ends first, or has the smaller character where the two first differ. */
  ghost predicate Earlier(a: string, b: string) {
    exists k: nat :: k <= |a| && k < |b| && a[..k] == b[..k] && (k == |a| || a[k] < b[k])
  }

  lemma {:induction false} TextLessExact(a: string, b: string)
    ensures TextLess(a, b) <==> Earlier(a, b)
  {
    if b == "" {
    } else if a == "" {
      assert a[..0] == b[..0];
    } else {
      TextLessExact(a[1..], b[1..]);
      if a[0] < b[0] {
        assert a[..0] == b[..0];
      }
      if a[0] == b[0] && Earlier(a[1..], b[1..]) {
        var k: nat :| k <= |a[1..]| && k < |b[1..]| && a[1..][..k] == b[1..][..k] && (k == |a[1..]| || a[1..][k] < b[1..][k]);
        assert a[..k + 1] == [a[0]] + a[1..][..k] && b[..k + 1] == [b[0]] + b[1..][..k];
      }
      if Earlier(a, b) {
        EarlierRest(a, b);
      }
    }
  }

  lemma EarlierRest(a: string, b: string)
    requires a != "" && b != "" && Earlier(a, b)
    ensures a[0] < b[0] || (a[0] == b[0] && Earlier(a[1..], b[1..]))
  {
    var k: nat :| k <= |a| && k < |b| && a[..k] == b[..k] && (k == |a| || a[k] < b[k]);
    if k > 0 {
      assert a[..k][0] == a[0] && b[..k][0] == b[0];
      assert a[1..][..k - 1] == a[..k][1..] && b[1..][..k - 1] == b[..k][1..];
    }
  }

  // -- strings.Split and strings.Join at a separator.

  /** strings.Split: the empty text has one empty segment. */
  function Split(s: string, sep: char): (segments: seq<string>)
    ensures segments != [] && forall i :: 0 <= i < |segments| ==> sep !in segments[i]
  {
    if s == "" then [""]
    else if s[0] == sep then [""] + Split(s[1..], sep)
    else
      var rest := Split(s[1..], sep);
      [[s[0]] + rest[0]] + rest[1..]
  }

  /** strings.Join. */
  function Join(segments: seq<string>, sep: char): string {
    if segments == [] then "" else if |segments| == 1 then segments[0] else segments[0] + [sep] + Join(segments[1..], sep)
  }

  lemma {:induction false} SplitSegment(a: string, rest: string, sep: char)
    requires sep !in a
    ensures Split(a + [sep] + rest, sep) == [a] + Split(rest, sep)
  {
    var s := a + [sep] + rest;
    if a == "" {
      assert s == [sep] + rest && s[1..] == rest;
    } else {
      assert s[0] == a[0] && s[1..] == a[1..] + [sep] + rest;
      SplitSegment(a[1..], rest, sep);
      assert [a[0]] + a[1..] == a;
    }
  }

  lemma {:induction false} SplitOne(a: string, sep: char)
    requires sep !in a
    ensures Split(a, sep) == [a]
  {
    if a != "" {
      SplitOne(a[1..], sep);
      assert [a[0]] + a[1..] == a;
    }
  }

  lemma {:induction false} SplitJoin(segments: seq<string>, sep: char)
    requires segments != [] && forall i :: 0 <= i < |segments| ==> sep !in segments[i]
    ensures Split(Join(segments, sep), sep) == segments
  {
    if |segments| == 1 {
      SplitOne(segments[0], sep);
    } else {
      SplitJoin(segments[1..], sep);
      SplitSegment(segments[0], Join(segments[1..], sep), sep);
    }
  }

  /** The last segment is empty only when the text is empty or ends in a separator. */
  lemma {:induction false} SplitLast(s: string, sep: char)
    requires s != "" && s[|s| - 1] != sep
    ensures Split(s, sep)[|Split(s, sep)| - 1] != ""
  {
    if |s| > 1 {
      SplitLast(s[1..], sep);
    }
  }
}
