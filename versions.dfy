/** The driver-version test: `_parse_version`, Python's tuple ordering and the
    verdict against `COMPATIBLE_DRIVER_VERSION`. */
module Versions {
  import opened Wrappers
  import opened PyText

  /** The newest driver version known to keep temperature reads working. */
  const CompatibleDriverVersion: seq<int> := [3, 1, 38, 0]

  /** `_driver_incompatible`: Python's `None` / `False` / `True`. */
  datatype DriverStatus = Unknown | Compatible | Incompatible

  /** `int(x)` for every part. */
  function ParseEach(parts: seq<string>): (r: seq<Option<int>>)
    ensures |r| == |parts| && forall k :: 0 <= k < |parts| ==> r[k] == ParseInt(parts[k])
  {
    seq(|parts|, k requires 0 <= k < |parts| => ParseInt(parts[k]))
  }

  /** The values when every part parsed, `None` as soon as one of them raised. */
  function AllParsed(xs: seq<Option<int>>): (r: Option<seq<int>>)
    ensures r.Some? <==> forall k :: 0 <= k < |xs| ==> xs[k].Some?
    ensures r.Some? ==> |r.value| == |xs| && forall k :: 0 <= k < |xs| ==> xs[k] == Some(r.value[k])
  {
    if xs == [] then Some([])
    else
      var tail := AllParsed(xs[1..]);
      assert forall k :: 1 <= k < |xs| ==> xs[k] == xs[1..][k - 1];
      if xs[0].None? || tail.None? then None
      else Some([xs[0].value] + tail.value)
  }

  /** `_parse_version`: the stripped text split on dots, each part through `int()`;
      `(0,)` when any part does not parse. */
  function ParseVersion(text: string): (v: seq<int>)
    ensures |v| >= 1
  {
    var parsed := AllParsed(ParseEach(Split(Strip(text), '.')));
    if parsed.Some? then parsed.value else [0]
  }

  /** Parsing every part succeeds with the parts' values when each of them
      parses, and fails as soon as one of them does not. */
  lemma ParseAllParts(parts: seq<string>)
    ensures (forall k :: 0 <= k < |parts| ==> ParseInt(parts[k]).Some?) ==>
      var r := AllParsed(ParseEach(parts));
      && r.Some? && |r.value| == |parts|
      && forall k :: 0 <= k < |parts| ==> ParseInt(parts[k]) == Some(r.value[k])
    ensures (exists k :: 0 <= k < |parts| && ParseInt(parts[k]).None?) ==>
      AllParsed(ParseEach(parts)).None?
  {
    var each := ParseEach(parts);
    assert forall k :: 0 <= k < |parts| ==> each[k] == ParseInt(parts[k]);
  }

  /** The parsed version is the parts' values when all of them parse, and `(0,)`
      as soon as one of them does not. */
  lemma ParseVersionParts(text: string)
    ensures var parts := Split(Strip(text), '.');
      && ((forall k :: 0 <= k < |parts| ==> ParseInt(parts[k]).Some?) ==>
            |ParseVersion(text)| == |parts|
            && forall k :: 0 <= k < |parts| ==> ParseInt(parts[k]) == Some(ParseVersion(text)[k]))
      && ((exists k :: 0 <= k < |parts| && ParseInt(parts[k]).None?) ==> ParseVersion(text) == [0])
  {
    var parts := Split(Strip(text), '.');
    ParseAllParts(parts);
  }

  function IntStrs(v: seq<int>): (r: seq<string>)
    ensures |r| == |v| && forall k :: 0 <= k < |v| ==> r[k] == IntStr(v[k])
  {
    if v == [] then [] else [IntStr(v[0])] + IntStrs(v[1..])
  }

  /** `".".join(str(x) for x in v)`, the form in which the source prints a version. */
  function RenderVersion(v: seq<int>): (text: string)
    requires |v| >= 1
  {
    Join(IntStrs(v), '.')
  }

  lemma ParsePartsOfStrs(v: seq<int>)
    ensures AllParsed(ParseEach(IntStrs(v))) == Some(v)
  {
    var strs := IntStrs(v);
    var each := ParseEach(strs);
    forall k | 0 <= k < |v|
      ensures each[k] == Some(v[k])
    {
      assert each[k] == ParseInt(IntStr(v[k]));
      ParseIntStr(v[k]);
    }
    var r := AllParsed(each);
    assert r.Some?;
    assert r.value == v;
  }

  lemma IntStrEnds(i: int)
    ensures var s := IntStr(i); (IsDigit(s[0]) || s[0] == '-') && IsDigit(s[|s| - 1])
  {
    if i < 0 {
      var digits := NatStr(-i);
      assert IntStr(i)[|IntStr(i)| - 1] == digits[|digits| - 1];
    }
  }

  lemma NotSpace(c: char)
    requires IsDigit(c) || c == '-'
    ensures !IsSpace(c)
  {
  }

  /** A rendered version starts with a sign or a digit and ends with a digit. */
  lemma RenderVersionTrimmed(v: seq<int>)
    requires |v| >= 1
    ensures var text := RenderVersion(v); text != [] && !IsSpace(text[0]) && !IsSpace(text[|text| - 1])
  {
    var parts := IntStrs(v);
    var first, last := parts[0], parts[|parts| - 1];
    IntStrEnds(v[0]);
    IntStrEnds(v[|v| - 1]);
    NotSpace(first[0]);
    NotSpace(last[|last| - 1]);
    JoinTrimmed(parts, '.');
  }

  /** Parsing a rendered version gives the version back. */
  lemma ParseRenderVersion(v: seq<int>)
    requires |v| >= 1
    ensures ParseVersion(RenderVersion(v)) == v
  {
    RenderVersionTrimmed(v);
    StripNoop(RenderVersion(v));
    SplitJoin(IntStrs(v), '.');
    ParsePartsOfStrs(v);
  }

  /** Python's `a < b` on tuples of ints: lexicographic, a proper prefix first. */
  predicate TupleLess(a: seq<int>, b: seq<int>) {
    if a == [] then b != []
    else if b == [] then false
    else a[0] < b[0] || (a[0] == b[0] && TupleLess(a[1..], b[1..]))
  }

  /** The ordering described by its first difference: `a < b` exactly when, after
      a common prefix of length `k`, either `a` ends and `b` does not, or both go on
      and `a[k] < b[k]`. */
  ghost predicate FirstDifferenceLess(a: seq<int>, b: seq<int>) {
    exists k :: 0 <= k <= |a| && k <= |b| && a[..k] == b[..k]
      && ((k == |a| && k < |b|) || (k < |a| && k < |b| && a[k] < b[k]))
  }

  lemma {:induction false} TupleLessFirstDifference(a: seq<int>, b: seq<int>)
    ensures TupleLess(a, b) <==> FirstDifferenceLess(a, b)
  {
    if a == [] || b == [] {
      if a == [] && b != [] { assert a[..0] == b[..0]; }
    } else {
      TupleLessFirstDifference(a[1..], b[1..]);
      if TupleLess(a, b) {
        if a[0] < b[0] {
          assert a[..0] == b[..0];
        } else {
          var k :| 0 <= k <= |a[1..]| && k <= |b[1..]| && a[1..][..k] == b[1..][..k]
            && ((k == |a[1..]| && k < |b[1..]|) || (k < |a[1..]| && k < |b[1..]| && a[1..][k] < b[1..][k]));
          assert a[..k + 1] == [a[0]] + a[1..][..k];
          assert b[..k + 1] == [b[0]] + b[1..][..k];
        }
      }
      if FirstDifferenceLess(a, b) {
        var k :| 0 <= k <= |a| && k <= |b| && a[..k] == b[..k]
          && ((k == |a| && k < |b|) || (k < |a| && k < |b| && a[k] < b[k]));
        if k > 0 {
          assert a[0] == a[..k][0] == b[..k][0] == b[0];
          assert a[1..][..k - 1] == a[..k][1..];
          assert b[1..][..k - 1] == b[..k][1..];
          assert FirstDifferenceLess(a[1..], b[1..]);
        }
      }
    }
  }

  lemma {:induction false} TupleLessIrreflexive(a: seq<int>)
    ensures !TupleLess(a, a)
  {
    if a != [] { TupleLessIrreflexive(a[1..]); }
  }

  lemma {:induction false} TupleLessTransitive(a: seq<int>, b: seq<int>, c: seq<int>)
    requires TupleLess(a, b) && TupleLess(b, c)
    ensures TupleLess(a, c)
  {
    if a != [] && b != [] && c != [] && a[0] == b[0] == c[0] {
      TupleLessTransitive(a[1..], b[1..], c[1..]);
    }
  }

  lemma {:induction false} TupleLessTotal(a: seq<int>, b: seq<int>)
    ensures a == b || TupleLess(a, b) || TupleLess(b, a)
  {
    if a != [] && b != [] && a[0] == b[0] {
      TupleLessTotal(a[1..], b[1..]);
      if a[1..] == b[1..] { assert a == [a[0]] + a[1..]; assert b == [b[0]] + b[1..]; }
    }
  }

  /** A proper prefix is smaller: `(3, 1, 38) < (3, 1, 38, 0)`. */
  lemma {:induction false} PrefixIsLess(a: seq<int>, b: seq<int>)
    requires |a| < |b| && a == b[..|a|]
    ensures TupleLess(a, b)
  {
    if a != [] {
      assert a[1..] == b[1..][..|a| - 1];
      PrefixIsLess(a[1..], b[1..]);
    }
  }

  /** The outcome of one unthrottled driver probe (`_check_driver_if_needed`):
      no version means unknown; a version ordered after the compatible one means
      incompatible; anything else, unparseable text included, compatible. */
  function DriverVerdict(version: Option<string>): (status: DriverStatus)
    ensures status == Unknown <==> version.None?
    ensures status == Incompatible <==> version.Some? && TupleLess(CompatibleDriverVersion, ParseVersion(version.value))
  {
    match version
    case None => Unknown
    case Some(text) =>
      if TupleLess(CompatibleDriverVersion, ParseVersion(text)) then Incompatible else Compatible
  }

  /** Text that does not parse becomes `(0,)`, which is never past the compatible
      version: such a driver is taken to be compatible. */
  lemma UnparseableIsCompatible(text: string)
    requires exists k :: 0 <= k < |Split(Strip(text), '.')| && ParseInt(Split(Strip(text), '.')[k]).None?
    ensures DriverVerdict(Some(text)) == Compatible
  {
    ParseVersionParts(text);
  }

  /** The compatible version itself, printed and probed back, is compatible. */
  lemma CompatibleVersionIsCompatible()
    ensures DriverVerdict(Some(RenderVersion(CompatibleDriverVersion))) == Compatible
  {
    ParseRenderVersion(CompatibleDriverVersion);
    TupleLessIrreflexive(CompatibleDriverVersion);
  }

  /** One patch level later is incompatible. */
  lemma NewerPatchIsIncompatible()
    ensures DriverVerdict(Some(RenderVersion([3, 1, 39, 0]))) == Incompatible
  {
    var newer := [3, 1, 39, 0];
    ParseRenderVersion(newer);
    assert TupleLess([38, 0], [39, 0]);
    assert TupleLess([1, 38, 0], [1, 39, 0]);
    assert TupleLess(CompatibleDriverVersion, newer);
  }

  /** One more component after the compatible version is incompatible. */
  lemma LongerVersionIsIncompatible()
    ensures DriverVerdict(Some(RenderVersion([3, 1, 38, 0, 1]))) == Incompatible
  {
    var longer := [3, 1, 38, 0, 1];
    ParseRenderVersion(longer);
    assert TupleLess([0], [0, 1]);
    assert TupleLess([38, 0], [38, 0, 1]);
    assert TupleLess([1, 38, 0], [1, 38, 0, 1]);
    assert TupleLess(CompatibleDriverVersion, longer);
  }

  /** A shorter version that is a prefix of the compatible one is compatible. */
  lemma PrefixVersionIsCompatible()
    ensures DriverVerdict(Some(RenderVersion([3, 1, 38]))) == Compatible
  {
    var shorter := [3, 1, 38];
    ParseRenderVersion(shorter);
    assert !TupleLess([0], []);
    assert !TupleLess([38, 0], [38]);
    assert !TupleLess([1, 38, 0], [1, 38]);
    assert !TupleLess(CompatibleDriverVersion, shorter);
  }
}
