/**
 Release precedence in the update check (internal/cli/updatecheck.go), against section 11 of Semantic Versioning 2.0.0.
 */
module SemVer {
  import D = Decimals
  import opened Integers
  import opened Strings
  import opened Wrappers

  // ---------------------------------------------------------------- as coded

  datatype Version = Version(major: int, minor: int, patch: int, prerelease: string)

  /** The text before the first `c`, and the text after it if there is one. */
  function Cut(s: string, c: char): (string, Option<string>) {
    var i := IndexAny(s, {c});
    if i == |s| then (s, None) else (s[..i], Some(s[i + 1..]))
  }

  /** parseSemanticVersion. */
  function Parse(v: string): Option<Version> {
    hide TrimSpace, IndexAny, Atoi;
    var trimmed := TrimSpace(v);
    var bare := if trimmed != "" && trimmed[0] == 'v' then trimmed[1..] else trimmed;
    if bare == "" then None
    else
      var (core, pre) := Cut(Cut(bare, '+').0, '-');
      var parts := Split(core, '.');
      if |parts| != 3 || Atoi(parts[0]).None? || Atoi(parts[1]).None? || Atoi(parts[2]).None? then None
      else Some(Version(Atoi(parts[0]).value, Atoi(parts[1]).value, Atoi(parts[2]).value,
                        if pre.Some? then pre.value else ""))
  }

  function Sign(less: bool, greater: bool): int { if less then -1 else if greater then 1 else 0 }

  /** One turn of comparePrereleaseIdentifiers: what Atoi accepts is a number, and numbers come first. */
  function CompareIds(a: string, b: string): int {
    var x, y := Atoi(a), Atoi(b);
    if x.Some? && y.Some? then Sign(x.value < y.value, x.value > y.value)
    else if x.Some? then -1
    else if y.Some? then 1
    else Sign(TextLess(a, b), TextLess(b, a))
  }

  /** comparePrereleaseIdentifiers, after splitting. */
  function CompareLists(a: seq<string>, b: seq<string>): int {
    if a == [] || b == [] then Sign(|a| < |b|, |a| > |b|)
    else if CompareIds(a[0], b[0]) != 0 then CompareIds(a[0], b[0])
    else CompareLists(a[1..], b[1..])
  }

  function ComparePrereleases(a: string, b: string): int {
    if a == b then 0 else if a == "" then 1 else if b == "" then -1 else CompareLists(Split(a, '.'), Split(b, '.'))
  }

  function CompareVersions(a: Version, b: Version): int {
    if a.major != b.major then Sign(a.major < b.major, true)
    else if a.minor != b.minor then Sign(a.minor < b.minor, true)
    else if a.patch != b.patch then Sign(a.patch < b.patch, true)
    else ComparePrereleases(a.prerelease, b.prerelease)
  }

  /** compareSemanticVersions. */
  function Compare(a: string, b: string): Option<int> {
    if Parse(a).None? || Parse(b).None? then None else Some(CompareVersions(Parse(a).value, Parse(b).value))
  }

  method ComparePrereleaseIdentifiers(a: string, b: string) returns (c: int)
    ensures c == CompareLists(Split(a, '.'), Split(b, '.'))
  {
    hide CompareIds, Split;
    var as_, bs := Split(a, '.'), Split(b, '.');
    var limit := if |bs| < |as_| then |bs| else |as_|;
    for i := 0 to limit
      invariant CompareLists(as_, bs) == CompareLists(as_[i..], bs[i..])
    {
      assert as_[i..][1..] == as_[i + 1..] && bs[i..][1..] == bs[i + 1..];
      var d := CompareIds(as_[i], bs[i]);
      if d != 0 {
        return d;
      }
    }
    return Sign(|as_| < |bs|, |as_| > |bs|);
  }

  // ---------------------------------------------------------------- a total preorder

  lemma IdsPreorder(a: string, b: string, c: string)
    ensures CompareIds(a, a) == 0 && CompareIds(a, b) == -CompareIds(b, a)
    ensures CompareIds(a, b) <= 0 && CompareIds(b, c) <= 0 ==>
      CompareIds(a, c) <= 0 && (CompareIds(a, c) == 0 ==> CompareIds(a, b) == 0 && CompareIds(b, c) == 0)
  {
    hide Atoi, TextLess;
    TextOrder(a, b, c);
    TextOrder(b, c, a);
    TextOrder(c, a, b);
  }

  lemma {:induction false} ListsPreorder(a: seq<string>, b: seq<string>, c: seq<string>)
    ensures CompareLists(a, a) == 0 && CompareLists(a, b) == -CompareLists(b, a)
    ensures CompareLists(a, b) <= 0 && CompareLists(b, c) <= 0 ==>
      CompareLists(a, c) <= 0 && (CompareLists(a, c) == 0 ==> CompareLists(a, b) == 0 && CompareLists(b, c) == 0)
    decreases |a| + |b| + |c|
  {
    hide CompareIds;
    if a != [] {
      IdsPreorder(a[0], a[0], a[0]);
      ListsPreorder(a[1..], if b == [] then [] else b[1..], if c == [] then [] else c[1..]);
      if b != [] {
        IdsPreorder(a[0], b[0], if c == [] then a[0] else c[0]);
        IdsPreorder(b[0], if c == [] then b[0] else c[0], a[0]);
      }
    }
  }

  lemma PrereleasesPreorder(a: string, b: string, c: string)
    ensures ComparePrereleases(a, a) == 0 && ComparePrereleases(a, b) == -ComparePrereleases(b, a)
    ensures ComparePrereleases(a, b) <= 0 && ComparePrereleases(b, c) <= 0 ==>
      ComparePrereleases(a, c) <= 0 &&
      (ComparePrereleases(a, c) == 0 ==> ComparePrereleases(a, b) == 0 && ComparePrereleases(b, c) == 0)
  {
    hide CompareLists, Split;
    ListsPreorder(Split(a, '.'), Split(b, '.'), Split(c, '.'));
    ListsPreorder(Split(b, '.'), Split(a, '.'), Split(c, '.'));
  }

  /** Comparing versions is a total preorder, with opposite signs for opposite arguments. */
  lemma VersionsPreorder(a: Version, b: Version, c: Version)
    ensures CompareVersions(a, a) == 0 && CompareVersions(a, b) == -CompareVersions(b, a)
    ensures CompareVersions(a, b) <= 0 && CompareVersions(b, c) <= 0 ==>
      CompareVersions(a, c) <= 0 &&
      (CompareVersions(a, c) == 0 ==> CompareVersions(a, b) == 0 && CompareVersions(b, c) == 0)
  {
    hide ComparePrereleases;
    PrereleasesPreorder(a.prerelease, b.prerelease, c.prerelease);
  }

  // ---------------------------------------------------------------- section 11.4

  predicate IdChar(c: char) { '0' <= c <= '9' || 'A' <= c <= 'Z' || 'a' <= c <= 'z' || c == '-' }

  /** A prerelease identifier of section 9: no leading zeros on numeric ones. */
  predicate WellFormed(id: string) {
    id != "" && (forall i :: 0 <= i < |id| ==> IdChar(id[i])) && (AllDigits(id) && |id| > 1 ==> id[0] != '0')
  }

  /** Section 11.4: digits only is numeric; numeric identifiers are lower; the rest compare in ASCII order. */
  function SpecCompare(a: string, b: string): int {
    if AllDigits(a) && AllDigits(b) then Sign(Val(a) < Val(b), Val(a) > Val(b))
    else if AllDigits(a) then -1
    else if AllDigits(b) then 1
    else Sign(TextLess(a, b), TextLess(b, a))
  }

  /** A numeric identifier fits the 64-bit int it is read into. */
  predicate Fits(id: string) { AllDigits(id) ==> FitsInt64(Val(id)) }

  /** A hyphen and digits: an alphanumeric identifier that Atoi takes for a negative number. */
  predicate LooksNegative(id: string) {
    id != "" && id[0] == '-' && Atoi(id).Some?
  }

  lemma NumericReads(id: string)
    requires WellFormed(id) && Fits(id)
    ensures AllDigits(id) ==> Atoi(id) == Some(Val(id)) && !LooksNegative(id)
    ensures !AllDigits(id) ==> (Atoi(id).Some? <==> LooksNegative(id))
    ensures LooksNegative(id) ==> Atoi(id).value <= 0
  {
    hide Val;
    if AllDigits(id) {
      assert IsDigit(id[0]);
    }
  }

  /** On identifiers that do not look like negative numbers the code follows the specification. */
  lemma IdsFollowSpec(a: string, b: string)
    requires WellFormed(a) && WellFormed(b) && Fits(a) && Fits(b) && !LooksNegative(a) && !LooksNegative(b)
    ensures CompareIds(a, b) == SpecCompare(a, b)
  {
    hide Atoi, Val, TextLess, LooksNegative;
    NumericReads(a);
    NumericReads(b);
  }

  /** And only on those: an identifier that looks negative is below "0" or equal to it, where it should be above. */
  lemma NegativeLookExact(a: string)
    requires WellFormed(a) && Fits(a)
    ensures !LooksNegative(a) <==>
      forall b :: WellFormed(b) && Fits(b) && !LooksNegative(b) ==> CompareIds(a, b) == SpecCompare(a, b)
  {
    hide Atoi, Val, TextLess, LooksNegative, WellFormed, Fits, CompareIds, SpecCompare;
    if LooksNegative(a) {
      NegativeMisread(a);
    } else {
      forall b | WellFormed(b) && Fits(b) && !LooksNegative(b) ensures CompareIds(a, b) == SpecCompare(a, b) {
        IdsFollowSpec(a, b);
      }
    }
  }

  lemma NegativeMisread(a: string)
    requires WellFormed(a) && Fits(a) && LooksNegative(a)
    ensures WellFormed("0") && Fits("0") && !LooksNegative("0") && CompareIds(a, "0") != SpecCompare(a, "0")
  {
    hide Val;
    ZeroIs();
    NumericReads(a);
    NumericReads("0");
  }

  lemma ZeroIs()
    ensures Val("0") == 0 && AllDigits("0")
  {
    assert "0"[..0] == "";
  }

  function SpecLists(a: seq<string>, b: seq<string>): int {
    if a == [] || b == [] then Sign(|a| < |b|, |a| > |b|)
    else if SpecCompare(a[0], b[0]) != 0 then SpecCompare(a[0], b[0])
    else SpecLists(a[1..], b[1..])
  }

  predicate Plain(ids: seq<string>) {
    forall i :: 0 <= i < |ids| ==> WellFormed(ids[i]) && Fits(ids[i]) && !LooksNegative(ids[i])
  }

  /** Whole prerelease tags compare as section 11.4 says. */
  lemma {:induction false} ListsFollowSpec(a: seq<string>, b: seq<string>)
    requires Plain(a) && Plain(b)
    ensures CompareLists(a, b) == SpecLists(a, b)
  {
    hide CompareIds, SpecCompare, WellFormed, Fits, LooksNegative;
    if a != [] && b != [] {
      IdsFollowSpec(a[0], b[0]);
      ListsFollowSpec(a[1..], b[1..]);
    }
  }

  lemma PlainNoDots(ids: seq<string>)
    requires Plain(ids)
    ensures forall i :: 0 <= i < |ids| ==> '.' !in ids[i]
    ensures ids != [] ==> Join(ids, '.') != ""
  {
    hide Fits, LooksNegative;
  }

  /** The tags of two releases compare as the specification compares their identifiers. */
  lemma TagsFollowSpec(a: seq<string>, b: seq<string>)
    requires a != [] && b != [] && Plain(a) && Plain(b)
    ensures ComparePrereleases(Join(a, '.'), Join(b, '.')) == SpecLists(a, b)
  {
    hide CompareLists, SpecLists, Split, Join, Plain;
    PlainNoDots(a);
    PlainNoDots(b);
    SplitJoin(a, '.');
    SplitJoin(b, '.');
    ListsFollowSpec(a, b);
    ListsPreorder(a, b, a);
  }

  // ---------------------------------------------------------------- section 11

  /** Numeric identifiers are lower than the others; numbers compare by value, the others in ASCII order. */
  ghost predicate LowerId(a: string, b: string) {
    if AllDigits(a) then AllDigits(b) ==> Val(a) < Val(b) else !AllDigits(b) && Earlier(a, b)
  }

  /** A prerelease is lower than the release; of two, the first difference decides, or the shorter is lower. */
  ghost predicate LowerTag(p: seq<string>, q: seq<string>) {
    p != [] && (q == [] || LowerIds(p, q))
  }

  ghost predicate LowerIds(p: seq<string>, q: seq<string>) {
    exists k: nat :: k <= |p| && k < |q| && p[..k] == q[..k] && (k == |p| || LowerId(p[k], q[k]))
  }

  /** A version as section 2 and section 9 have it. */
  datatype Semantic = Semantic(major: nat, minor: nat, patch: nat, pre: seq<string>)

  ghost predicate Lower(a: Semantic, b: Semantic) {
    if a.major != b.major then a.major < b.major
    else if a.minor != b.minor then a.minor < b.minor
    else if a.patch != b.patch then a.patch < b.patch
    else LowerTag(a.pre, b.pre)
  }

  lemma ValUnique(a: string, b: string)
    requires WellFormed(a) && WellFormed(b) && AllDigits(a) && AllDigits(b)
    ensures Val(a) == Val(b) <==> a == b
  {
    hide Val;
    ZeroIs();
    if a[0] != '0' {
      D.DigitsOfVal(a);
    } else {
      assert a == "0";
    }
    if b[0] != '0' {
      D.DigitsOfVal(b);
    } else {
      assert b == "0";
    }
  }

  lemma IdsExact(a: string, b: string)
    requires WellFormed(a) && WellFormed(b)
    ensures SpecCompare(a, b) < 0 <==> LowerId(a, b)
    ensures SpecCompare(a, b) == 0 <==> a == b
  {
    hide Val, TextLess, Earlier, WellFormed;
    TextLessExact(a, b);
    TextOrder(a, b, a);
    if AllDigits(a) && AllDigits(b) {
      ValUnique(a, b);
    }
  }

  lemma LowerIdsStep(p: seq<string>, q: seq<string>)
    requires p != [] && q != []
    ensures LowerIds(p, q) <==> LowerId(p[0], q[0]) || (p[0] == q[0] && LowerIds(p[1..], q[1..]))
  {
    hide LowerId;
    if LowerId(p[0], q[0]) {
      assert p[..0] == q[..0];
    }
    if p[0] == q[0] && LowerIds(p[1..], q[1..]) {
      var k: nat :| k <= |p[1..]| && k < |q[1..]| && p[1..][..k] == q[1..][..k] &&
                    (k == |p[1..]| || LowerId(p[1..][k], q[1..][k]));
      assert p[..k + 1] == [p[0]] + p[1..][..k] && q[..k + 1] == [q[0]] + q[1..][..k];
    }
    if LowerIds(p, q) {
      LowerIdsRest(p, q);
    }
  }

  lemma LowerIdsRest(p: seq<string>, q: seq<string>)
    requires p != [] && q != [] && LowerIds(p, q)
    ensures LowerId(p[0], q[0]) || (p[0] == q[0] && LowerIds(p[1..], q[1..]))
  {
    hide LowerId;
    var k: nat :| k <= |p| && k < |q| && p[..k] == q[..k] && (k == |p| || LowerId(p[k], q[k]));
    if k > 0 {
      assert p[..k][0] == p[0] && q[..k][0] == q[0];
      assert p[1..][..k - 1] == p[..k][1..] && q[1..][..k - 1] == q[..k][1..];
    }
  }

  lemma {:induction false} ListsExact(p: seq<string>, q: seq<string>)
    requires Plain(p) && Plain(q)
    ensures SpecLists(p, q) < 0 <==> LowerIds(p, q)
    ensures SpecLists(p, q) == 0 <==> p == q
  {
    hide SpecCompare, LowerId, WellFormed, Fits, LooksNegative;
    if p == [] || q == [] {
      if p == [] && q != [] {
        assert p[..0] == q[..0];
      }
    } else {
      IdsExact(p[0], q[0]);
      IdsExact(q[0], p[0]);
      LowerIdsStep(p, q);
      ListsExact(p[1..], q[1..]);
      assert p == [p[0]] + p[1..] && q == [q[0]] + q[1..];
      hide LowerIds;
      NotItself(p[0]);
    }
  }

  lemma NotItself(id: string)
    requires WellFormed(id)
    ensures !LowerId(id, id)
  {
    hide Val, SpecCompare, Earlier;
    IdsExact(id, id);
  }

  lemma TagsExact(p: seq<string>, q: seq<string>)
    requires Plain(p) && Plain(q)
    ensures ComparePrereleases(Join(p, '.'), Join(q, '.')) < 0 <==> LowerTag(p, q)
    ensures ComparePrereleases(Join(p, '.'), Join(q, '.')) == 0 <==> p == q
  {
    hide CompareLists, SpecLists, Split, Join, Plain, LowerIds;
    PlainNoDots(p);
    PlainNoDots(q);
    assert Join([], '.') == "" by { NothingJoined(); }
    if p != [] && q != [] {
      TagsFollowSpec(p, q);
      ListsExact(p, q);
    }
  }

  lemma NothingJoined()
    ensures Join([], '.') == ""
  {
  }

  // -- Versions as text.

  function NumberText(n: nat): (s: string)
    ensures s != "" && AllDigits(s) && Val(s) == n
  {
    if n == 0 then ZeroIs(); "0" else D.Digits(n)
  }

  function CoreText(v: Semantic): string { Join([NumberText(v.major), NumberText(v.minor), NumberText(v.patch)], '.') }

  /** major.minor.patch, the prerelease after a hyphen, the build after a plus sign. */
  function Written(v: Semantic, build: Option<string>): string {
    CoreText(v) + (if v.pre == [] then "" else "-" + Join(v.pre, '.')) + (if build.None? then "" else "+" + build.value)
  }

  predicate Readable(v: Semantic, build: Option<string>) {
    FitsInt64(v.major) && FitsInt64(v.minor) && FitsInt64(v.patch) && Plain(v.pre) &&
    (build.Some? ==> forall i :: 0 <= i < |build.value| ==> IdChar(build.value[i]) || build.value[i] == '.')
  }

  /** Characters a version may be written with, the hyphen and the plus sign aside. */
  predicate CoreChar(c: char) { IsDigit(c) || c == '.' }

  predicate TagChar(c: char) { IdChar(c) || c == '.' }

  lemma {:induction false} JoinedChars(ids: seq<string>, ok: char -> bool)
    requires ok('.') && forall i :: 0 <= i < |ids| ==> forall j :: 0 <= j < |ids[i]| ==> ok(ids[i][j])
    ensures forall j :: 0 <= j < |Join(ids, '.')| ==> ok(Join(ids, '.')[j])
  {
    if |ids| > 1 {
      JoinedChars(ids[1..], ok);
    }
  }

  lemma CutAt(a: string, c: char, rest: string)
    requires c !in a
    ensures Cut(a, c) == (a, None) && Cut(a + [c] + rest, c) == (a, Some(rest))
  {
    hide IndexAny;
    var s := a + [c] + rest;
    assert s[|a|] == c && forall j :: 0 <= j < |a| ==> s[j] == a[j];
    assert IndexAny(s, {c}) == |a| && s[..|a|] == a && s[|a| + 1..] == rest;
    assert forall j :: 0 <= j < |a| ==> a[j] != c;
    assert IndexAny(a, {c}) == |a|;
  }

  lemma AtoiDigits(n: nat)
    requires FitsInt64(n)
    ensures Atoi(NumberText(n)) == Some(n)
  {
    hide Val, NumberText;
    var s := NumberText(n);
    assert IsDigit(s[0]);
    assert SignOf(s) == "" && s[0..] == s;
  }

  lemma CoreChars(v: Semantic)
    ensures CoreText(v) != "" && IsDigit(CoreText(v)[0]) && forall j :: 0 <= j < |CoreText(v)| ==> CoreChar(CoreText(v)[j])
    ensures Split(CoreText(v), '.') == [NumberText(v.major), NumberText(v.minor), NumberText(v.patch)]
  {
    hide NumberText, Split;
    var ids := [NumberText(v.major), NumberText(v.minor), NumberText(v.patch)];
    JoinedChars(ids, c => CoreChar(c));
    SplitJoin(ids, '.');
    assert CoreText(v)[0] == ids[0][0];
  }

  lemma TagChars(pre: seq<string>)
    requires Plain(pre)
    ensures forall j :: 0 <= j < |Join(pre, '.')| ==> TagChar(Join(pre, '.')[j])
  {
    hide Fits, LooksNegative;
    JoinedChars(pre, c => TagChar(c));
  }

  /** Of the text without a build the hyphen parts core and prerelease. */
  lemma CutTag(v: Semantic)
    requires Plain(v.pre)
    ensures var bare := Written(v, None);
      Cut(bare, '-') == (CoreText(v), if v.pre == [] then None else Some(Join(v.pre, '.'))) && '+' !in bare
  {
    hide Cut, Join, Plain, CoreText;
    CoreChars(v);
    TagChars(v.pre);
    CoreIs(v);
    CutAt(CoreText(v), '-', Join(v.pre, '.'));
    assert CoreText(v) + "" + "" == CoreText(v);
    assert CoreText(v) + ("-" + Join(v.pre, '.')) + "" == CoreText(v) + ['-'] + Join(v.pre, '.');
  }

  lemma CoreIs(v: Semantic)
    ensures Written(v, None) == CoreText(v) + (if v.pre == [] then "" else "-" + Join(v.pre, '.')) + ""
    ensures forall build :: Written(v, Some(build)) == Written(v, None) + ['+'] + build
  {
    hide Join, NumberText;
    forall build ensures Written(v, Some(build)) == Written(v, None) + ['+'] + build {
      assert Written(v, None) + ['+'] + build == Written(v, None) + ("+" + build);
    }
  }

  lemma BareIs(v: Semantic, build: Option<string>)
    requires Readable(v, build)
    ensures var s := Written(v, build);
      s != "" && IsDigit(s[0]) && !IsSpace(s[|s| - 1]) && Cut(s, '+').0 == Written(v, None)
  {
    hide Cut, Join, Plain, CoreText, Written;
    CoreChars(v);
    TagChars(v.pre);
    CoreIs(v);
    CutTag(v);
    var bare := Written(v, None);
    assert bare[0] == CoreText(v)[0];
    CutAt(bare, '+', if build.Some? then build.value else "");
    var s := Written(v, build);
    assert build.None? ==> s == bare;
    assert s[0] == bare[0];
    LastChar(v, build);
  }

  lemma LastChar(v: Semantic, build: Option<string>)
    requires Readable(v, build)
    ensures var s := Written(v, build); s != "" ==> !IsSpace(s[|s| - 1])
  {
    hide Join, Plain, CoreText, Written, IsSpace;
    CoreChars(v);
    TagChars(v.pre);
    CoreIs(v);
    var s, bare := Written(v, build), Written(v, None);
    var tail := if v.pre == [] then "" else "-" + Join(v.pre, '.');
    var c := s[|s| - 1];
    assert bare == CoreText(v) + tail;
    if build.Some? && build.value != "" {
      assert c == build.value[|build.value| - 1];
    } else if build.None? {
      assert s == bare;
      assert c == if tail == "" then CoreText(v)[|CoreText(v)| - 1] else tail[|tail| - 1];
      if tail != "" && Join(v.pre, '.') != "" {
        assert c == Join(v.pre, '.')[|Join(v.pre, '.')| - 1];
      }
    }
    assert CoreChar(c) || TagChar(c) || c == '+';
    NoSpaces(c);
  }

  lemma NoSpaces(c: char)
    requires CoreChar(c) || TagChar(c) || c == '+'
    ensures !IsSpace(c)
  {
  }

  /** What is written is read back, with or without a leading v. */
  lemma WrittenParses(v: Semantic, build: Option<string>, prefixed: bool)
    requires Readable(v, build)
    ensures Parse((if prefixed then "v" else "") + Written(v, build)) ==
            Some(Version(v.major, v.minor, v.patch, Join(v.pre, '.')))
  {
    hide Written, Cut, Split, Join, Plain, CoreText, Atoi, TrimSpace, NumberText, IsSpace;
    var bare := Written(v, build);
    var text := (if prefixed then "v" else "") + bare;
    BareIs(v, build);
    CutTag(v);
    CoreChars(v);
    AtoiDigits(v.major);
    AtoiDigits(v.minor);
    AtoiDigits(v.patch);
    NothingJoined();
    NoSpaces('v');
    assert IsDigit(bare[0]) && CoreChar(bare[0]);
    NoSpaces(bare[0]);
    assert "" + text + "" == text && text[|text| - 1] == bare[|bare| - 1];
    assert prefixed ==> text[0] == 'v' && text[1..] == bare;
    assert !prefixed ==> text == bare;
    TrimSpaceStrips("", text, "");
  }

  /** Whole versions compare as section 11 says, build metadata aside. */
  lemma VersionsFollowSpec(a: Semantic, b: Semantic, x: Option<string>, y: Option<string>, va: bool, vb: bool)
    requires Readable(a, x) && Readable(b, y)
    ensures var c := Compare((if va then "v" else "") + Written(a, x), (if vb then "v" else "") + Written(b, y));
      c.Some? && (c.value < 0 <==> Lower(a, b)) && (c.value == 0 <==> a == b)
  {
    hide Parse, Written, Join, Plain, ComparePrereleases, LowerTag;
    WrittenParses(a, x, va);
    WrittenParses(b, y, vb);
    TagsExact(a.pre, b.pre);
  }

  // ---------------------------------------------------------------- the newest release

  datatype Release = Release(tag: string, draft: bool)

  /** Not a draft, and its tag is a version. */
  predicate Comparable(r: Release) { !r.draft && TrimSpace(r.tag) != "" && Parse(r.tag).Some? }

  predicate Stable(r: Release) { Comparable(r) && Parse(r.tag).value.prerelease == "" }

  function CompareReleases(a: Release, b: Release): int
    requires Comparable(a) && Comparable(b)
  {
    CompareVersions(Parse(a.tag).value, Parse(b.tag).value)
  }

  lemma ReleasesPreorder(a: Release, b: Release, c: Release)
    requires Comparable(a) && Comparable(b) && Comparable(c)
    ensures CompareReleases(a, a) == 0 && CompareReleases(a, b) == -CompareReleases(b, a)
    ensures CompareReleases(a, b) <= 0 && CompareReleases(b, c) <= 0 ==> CompareReleases(a, c) <= 0
    ensures CompareReleases(a, b) <= 0 && CompareReleases(b, c) < 0 ==> CompareReleases(a, c) < 0
  {
    hide Parse, CompareVersions;
    VersionsPreorder(Parse(a.tag).value, Parse(b.tag).value, Parse(c.tag).value);
    VersionsPreorder(Parse(b.tag).value, Parse(c.tag).value, Parse(a.tag).value);
  }

  /** Position `k` holds the first of the newest releases of a kind (any, or stable ones only). */
  predicate Newest(rs: seq<Release>, k: nat, stable: bool) {
    k < |rs| && Kind(rs[k], stable) &&
    forall j :: 0 <= j < |rs| && Kind(rs[j], stable) ==>
      CompareReleases(rs[j], rs[k]) <= 0 && (j < k ==> CompareReleases(rs[j], rs[k]) < 0)
  }

  predicate Kind(r: Release, stable: bool) { Comparable(r) && (stable ==> Stable(r)) }

  /** One more release at the end of the list: it is the newest only if it exceeds the one so far. */
  lemma NewestStep(rs: seq<Release>, k: nat, stable: bool, r: Release)
    requires Newest(rs, k, stable)
    ensures Newest(rs + [r], if Kind(r, stable) && CompareReleases(rs[k], r) < 0 then |rs| else k, stable)
  {
    hide Comparable, Stable, CompareReleases;
    var all := rs + [r];
    assert Comparable(rs[k]);
    if Kind(r, stable) {
      ReleasesPreorder(rs[k], r, r);
      ReleasesPreorder(r, r, r);
      forall j | 0 <= j < |rs| && Kind(rs[j], stable)
        ensures CompareReleases(rs[k], r) < 0 ==> CompareReleases(all[j], r) < 0
      {
        ReleasesPreorder(rs[j], rs[k], r);
      }
    }
  }

  lemma NewestFirst(rs: seq<Release>, stable: bool, r: Release)
    requires Kind(r, stable) && forall j :: 0 <= j < |rs| ==> !Kind(rs[j], stable)
    ensures Newest(rs + [r], |rs|, stable)
  {
    hide Comparable, Stable, CompareReleases;
    assert Comparable(r);
    ReleasesPreorder(r, r, r);
  }

  predicate BestSoFar(rs: seq<Release>, best: Option<nat>, stable: bool) {
    if best.Some? then Newest(rs, best.value, stable) else forall j :: 0 <= j < |rs| ==> !Kind(rs[j], stable)
  }

  /** Keep the best of a kind, as the loop does for each of the two. */
  method Better(rs: seq<Release>, i: nat, best: Option<nat>, stable: bool) returns (next: Option<nat>)
    requires i < |rs| && BestSoFar(rs[..i], best, stable)
    ensures BestSoFar(rs[..i + 1], next, stable)
  {
    hide Comparable, Stable, CompareReleases, Newest;
    assert rs[..i + 1] == rs[..i] + [rs[i]];
    next := best;
    if best.Some? {
      NewestStep(rs[..i], best.value, stable, rs[i]);
      NewestIn(rs[..i], best.value, stable);
      if Kind(rs[i], stable) && CompareReleases(rs[best.value], rs[i]) < 0 {
        next := Some(i);
      }
    } else if Kind(rs[i], stable) {
      NewestFirst(rs[..i], stable, rs[i]);
      next := Some(i);
    }
  }

  lemma NewestIn(rs: seq<Release>, k: nat, stable: bool)
    requires Newest(rs, k, stable)
    ensures k < |rs| && Kind(rs[k], stable) && Comparable(rs[k])
  {
  }

  /** newestComparableRelease: the position of the release returned, None when nothing is comparable. */
  method NewestComparableRelease(rs: seq<Release>) returns (best: Option<nat>)
    ensures best.None? <==> forall j :: 0 <= j < |rs| ==> !Comparable(rs[j])
    ensures best.Some? ==> best.value < |rs| && Comparable(rs[best.value])
    ensures best.Some? ==>
      forall j :: 0 <= j < |rs| && Comparable(rs[j]) ==> CompareReleases(rs[j], rs[best.value]) <= 0
    ensures best.Some? && !Stable(rs[best.value]) ==>
      forall j :: 0 <= j < |rs| && Stable(rs[j]) ==> CompareReleases(rs[j], rs[best.value]) < 0
  {
    hide Comparable, Stable, CompareReleases, Newest, BestSoFar;
    var any: Option<nat>, stable: Option<nat> := None, None;
    NoneYet(false);
    NoneYet(true);
    assert rs[..0] == [];
    for i := 0 to |rs|
      invariant BestSoFar(rs[..i], any, false) && BestSoFar(rs[..i], stable, true)
    {
      any := Better(rs, i, any, false);
      stable := Better(rs, i, stable, true);
    }
    assert rs[..|rs|] == rs;
    best := any;
    BestFacts(rs, any, stable);
    if any.Some? && stable.Some? {
      if CompareReleases(rs[stable.value], rs[any.value]) >= 0 {
        best := stable;
      }
    }
  }

  lemma NoneYet(stable: bool)
    ensures BestSoFar([], None, stable)
  {
  }

  /** What the two bests say about each other. */
  lemma BestFacts(rs: seq<Release>, any: Option<nat>, stable: Option<nat>)
    requires BestSoFar(rs, any, false) && BestSoFar(rs, stable, true)
    ensures any.None? <==> forall j :: 0 <= j < |rs| ==> !Comparable(rs[j])
    ensures any.Some? ==> any.value < |rs| && Comparable(rs[any.value])
    ensures any.Some? ==>
      forall j :: 0 <= j < |rs| && Comparable(rs[j]) ==> CompareReleases(rs[j], rs[any.value]) <= 0
    ensures stable.Some? ==> any.Some? && stable.value < |rs| && Comparable(rs[stable.value]) && Stable(rs[stable.value])
    ensures stable.Some? && CompareReleases(rs[stable.value], rs[any.value]) >= 0 ==>
      forall j :: 0 <= j < |rs| && Comparable(rs[j]) ==> CompareReleases(rs[j], rs[stable.value]) <= 0
    ensures stable.Some? && CompareReleases(rs[stable.value], rs[any.value]) < 0 ==>
      forall j :: 0 <= j < |rs| && Stable(rs[j]) ==> Comparable(rs[j]) && CompareReleases(rs[j], rs[any.value]) < 0
    ensures stable.None? ==> forall j :: 0 <= j < |rs| ==> !Stable(rs[j])
  {
    hide Parse, CompareReleases;
    assert forall j :: 0 <= j < |rs| ==> (Kind(rs[j], false) <==> Comparable(rs[j])) && (Kind(rs[j], true) <==> Stable(rs[j]));
    if stable.Some? {
      forall j | 0 <= j < |rs| && Comparable(rs[j])
        ensures CompareReleases(rs[stable.value], rs[any.value]) >= 0 ==> CompareReleases(rs[j], rs[stable.value]) <= 0
      {
        ReleasesPreorder(rs[stable.value], rs[any.value], rs[j]);
        ReleasesPreorder(rs[j], rs[any.value], rs[stable.value]);
      }
      forall j | 0 <= j < |rs| && Stable(rs[j])
        ensures CompareReleases(rs[stable.value], rs[any.value]) < 0 ==> CompareReleases(rs[j], rs[any.value]) < 0
      {
        ReleasesPreorder(rs[j], rs[stable.value], rs[any.value]);
      }
    }
  }
}
