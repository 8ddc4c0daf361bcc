/**
  Release versions as `packaging.version.Version` sees them for plain
  dotted numbers: the release segments, their order (trailing zeros do not
  count, so 1.0 == 1), the `major`/`minor`/`micro` accessors, parsing and
  `str()`.
 */
module Versions {
  import opened Text

  /** The release segments of a version: at least one. */
  type Version = v: seq<nat> | |v| > 0 witness [0]

  /** Segment `i`, or 0 past the end. */
  function At(v: seq<nat>, i: nat): nat {
    if i < |v| then v[i] else 0
  }

  function Major(v: Version): nat {
    v[0]
  }

  function Minor(v: Version): nat {
    At(v, 1)
  }

  function Micro(v: Version): nat {
    At(v, 2)
  }

  function Head(v: seq<nat>): nat {
    if v == [] then 0 else v[0]
  }

  function Tail(v: seq<nat>): seq<nat> {
    if v == [] then [] else v[1..]
  }

  /** -1, 0 or 1 as `a` is below, equal to or above `b`, the shorter one padded with zeros. */
  function Cmp(a: seq<nat>, b: seq<nat>): (c: int)
    ensures -1 <= c <= 1
    decreases |a| + |b|
  {
    if a == [] && b == [] then 0
    else if Head(a) < Head(b) then -1
    else if Head(b) < Head(a) then 1
    else Cmp(Tail(a), Tail(b))
  }

  lemma {:induction false} CmpAntisymmetric(a: seq<nat>, b: seq<nat>)
    ensures Cmp(a, b) == -Cmp(b, a)
    decreases |a| + |b|
  {
    if !(a == [] && b == []) && Head(a) == Head(b) {
      CmpAntisymmetric(Tail(a), Tail(b));
    }
  }

  lemma {:induction false} CmpTransitive(a: seq<nat>, b: seq<nat>, c: seq<nat>)
    requires Cmp(a, b) <= 0 && Cmp(b, c) <= 0
    ensures Cmp(a, c) <= 0
    ensures Cmp(a, b) < 0 || Cmp(b, c) < 0 ==> Cmp(a, c) < 0
    decreases |a| + |b| + |c|
  {
    if a == [] && b == [] {
    } else if b == [] && c == [] {
    } else if a == [] && c == [] {
      CmpAntisymmetric(b, []);
    } else if Head(a) == Head(b) && Head(b) == Head(c) {
      CmpTransitive(Tail(a), Tail(b), Tail(c));
    }
  }

  lemma {:induction false} CmpReflexive(a: seq<nat>)
    ensures Cmp(a, a) == 0
    decreases |a|
  {
    if a != [] {
      CmpReflexive(Tail(a));
    }
  }

  /** Versions that compare equal agree on every segment, padding included. */
  lemma {:induction false} CmpZeroSegments(a: seq<nat>, b: seq<nat>, i: nat)
    requires Cmp(a, b) == 0
    ensures At(a, i) == At(b, i)
    decreases i
  {
    if a == [] && b == [] {
    } else if i > 0 {
      CmpZeroSegments(Tail(a), Tail(b), i - 1);
      assert At(a, i) == At(Tail(a), i - 1);
      assert At(b, i) == At(Tail(b), i - 1);
    }
  }

  /** Equal versions have the same major, minor and micro. */
  lemma CmpZeroSameTriple(a: Version, b: Version)
    requires Cmp(a, b) == 0
    ensures Major(a) == Major(b) && Minor(a) == Minor(b) && Micro(a) == Micro(b)
  {
    CmpZeroSegments(a, b, 0);
    CmpZeroSegments(a, b, 1);
    CmpZeroSegments(a, b, 2);
  }

  /** Trailing zeros do not count, so "128" and "128.0" are the same version. */
  lemma TrailingZeroIgnored()
    ensures Cmp([128], [128, 0]) == 0
    ensures Cmp([128, 0, 1], [128, 1]) == -1
  {
    assert Tail([128]) == [] && Tail([128, 0]) == [0] && Tail([0]) == [];
    assert Tail([128, 0, 1]) == [0, 1] && Tail([128, 1]) == [1] && Tail([0, 1]) == [1] && Tail([1]) == [];
  }

  /** `Version(s)` for a string of dot-separated ASCII digit runs; anything else is not a version here. */
  function ParseVersion(s: string): (r: Option<Version>)
    ensures r.Some? ==> |r.value| == |Split(s, '.')|
  {
    var parts := Split(s, '.');
    if forall i :: 0 <= i < |parts| ==> parts[i] != [] && AllDigits(parts[i]) then
      var v: Version := seq(|parts|, i requires 0 <= i < |parts| && AllDigits(parts[i]) => DigitsValue(parts[i]));
      Some(v)
    else None
  }

  predicate DigitsAndDots(s: string) {
    forall i :: 0 <= i < |s| ==> IsDigit(s[i]) || s[i] == '.'
  }

  /** `str(version)`: the segments in decimal, joined by dots. */
  function Format(v: Version): (s: string)
    ensures DigitsAndDots(s)
  {
    var parts := seq(|v|, i requires 0 <= i < |v| => NatToString(v[i]));
    FormatChars(parts);
    Join(parts, '.')
  }

  lemma {:induction false} FormatChars(parts: seq<string>)
    requires |parts| > 0 && forall i :: 0 <= i < |parts| ==> AllDigits(parts[i])
    ensures DigitsAndDots(Join(parts, '.'))
  {
    if |parts| > 1 {
      var rest := parts[1..];
      assert forall i :: 0 <= i < |rest| ==> rest[i] == parts[i + 1];
      FormatChars(rest);
      var s := Join(parts, '.');
      var t := Join(rest, '.');
      assert s == parts[0] + ['.'] + t;
      forall i | 0 <= i < |s| ensures IsDigit(s[i]) || s[i] == '.' {
        if i < |parts[0]| {
          assert s[i] == parts[0][i];
        } else if i > |parts[0]| {
          assert s[i] == t[i - |parts[0]| - 1];
        }
      }
    }
  }

  /** Parsing the rendering of a version gives it back. */
  lemma ParseFormat(v: Version)
    ensures ParseVersion(Format(v)) == Some(v)
  {
    var parts := seq(|v|, i requires 0 <= i < |v| => NatToString(v[i]));
    assert forall i :: 0 <= i < |parts| ==> '.' !in parts[i];
    SplitJoin(parts, '.');
    assert Format(v) == Join(parts, '.');
    assert Split(Format(v), '.') == parts;
    assert forall i :: 0 <= i < |parts| ==> parts[i] != [] && AllDigits(parts[i]);
    forall i | 0 <= i < |v| ensures DigitsValue(parts[i]) == v[i] {
      DigitsValueOfNatToString(v[i]);
    }
    assert ParseVersion(Format(v)).Some?;
    var w := ParseVersion(Format(v)).value;
    assert |w| == |v|;
    assert forall i :: 0 <= i < |v| ==> w[i] == DigitsValue(parts[i]);
    assert w == v;
  }

  /** Different versions render differently. */
  lemma FormatInjective(v: Version, w: Version)
    requires Format(v) == Format(w)
    ensures v == w
  {
    ParseFormat(v);
    ParseFormat(w);
  }

  /** The key `max` uses in `get_latest_versions`. */
  function Triple(v: Version): (nat, nat, nat) {
    (Major(v), Minor(v), Micro(v))
  }

  /** Python's `<` on two integer triples. */
  predicate TripleLess(a: (nat, nat, nat), b: (nat, nat, nat)) {
    a.0 < b.0 || (a.0 == b.0 && (a.1 < b.1 || (a.1 == b.1 && a.2 < b.2)))
  }
}
