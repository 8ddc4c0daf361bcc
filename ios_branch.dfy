/**
  The script that picks the newest Firefox-iOS release branch
  (`release/vX.Y...`) for a Firefox major version.
 */
module IosBranch {
  import opened Text
  import opened PyJson
  import opened Versions

  const BranchPrefix := "release/v"

  /**
    `parse_version`: a name not starting with `release/v` is not a release
    branch; otherwise every occurrence of `release/v` is removed and what is
    left is parsed, None when it is not a version.
   */
  function ParseBranch(name: string): Option<Version> {
    if !IsPrefix(BranchPrefix, name) then None
    else ParseVersion(RemoveAll(name, BranchPrefix))
  }

  /** The branch of every version is recognised as that version. */
  lemma BranchRoundTrip(v: Version)
    ensures ParseBranch(BranchPrefix + Format(v)) == Some(v)
  {
    var name := BranchPrefix + Format(v);
    assert name[..|BranchPrefix|] == BranchPrefix;
    assert name[|BranchPrefix|..] == Format(v);
    assert 'r' !in Format(v) by {
      forall i | 0 <= i < |Format(v)| ensures Format(v)[i] != 'r' {
        assert IsDigit(Format(v)[i]) || Format(v)[i] == '.';
      }
    }
    RemoveAllAbsent(Format(v), BranchPrefix);
    ParseFormat(v);
  }

  /**
    A name that does not start with `release/v` is ignored, whatever
    follows; "main", and a name that only ends in a release branch, are two
    instances.
   */
  lemma NonReleaseIgnored(name: string, rest: string)
    ensures !IsPrefix(BranchPrefix, name) ==> ParseBranch(name) == None
    ensures ParseBranch("main") == None
    ensures ParseBranch("x" + BranchPrefix + rest) == None
  {
    assert ("x" + BranchPrefix + rest)[0] == 'x';
  }

  /** The branch `name` is a release branch of `major`. */
  predicate MatchesMajor(name: string, major: int) {
    ParseBranch(name).Some? && Major(ParseBranch(name).value) == major
  }

  function VersionOf(name: string): Version
    requires ParseBranch(name).Some?
  {
    ParseBranch(name).value
  }

  /**
    `branches[k]` is what `find_latest_branch` returns: it matches `major`,
    no matching branch has a higher version, and every matching branch
    before it has a lower one (the sort is stable even when reversed, so
    the first of several equal versions comes out first).
   */
  predicate LatestAt(branches: seq<string>, major: int, k: nat) {
    k < |branches| && MatchesMajor(branches[k], major) &&
    forall j :: 0 <= j < |branches| && MatchesMajor(branches[j], major) ==>
      Cmp(VersionOf(branches[j]), VersionOf(branches[k])) <= 0 &&
      (j < k ==> Cmp(VersionOf(branches[j]), VersionOf(branches[k])) < 0)
  }

  /**
    `find_latest_branch`. The first loop collects the matching branches with
    their versions; taking element 0 of the reverse-sorted list is modelled
    by a scan for the first greatest version.
   */
  method FindLatestBranch(major: int, branches: seq<string>) returns (r: Outcome<string>)
    ensures r.Raise? <==> forall i :: 0 <= i < |branches| ==> !MatchesMajor(branches[i], major)
    ensures r.Raise? ==> r.error == ValueError
    ensures r.Ok? ==> exists k: nat :: LatestAt(branches, major, k) && branches[k] == r.value
  {
    var matching, pos := MatchingBranches(major, branches);
    if matching == [] {
      return Raise(ValueError);
    }
    var best := FirstGreatest(matching);
    LatestAtPosition(major, branches, matching, pos, best);
    r := Ok(matching[best].0);
  }

  /** The first greatest of the matching branches sits at a position where `LatestAt` holds. */
  lemma LatestAtPosition(major: int, branches: seq<string>, matching: seq<(string, Version)>, pos: seq<nat>, best: nat)
    requires |pos| == |matching| && best < |matching|
    requires forall t :: 0 <= t < |pos| ==>
      pos[t] < |branches| && MatchesMajor(branches[pos[t]], major) &&
      matching[t] == (branches[pos[t]], VersionOf(branches[pos[t]]))
    requires forall t1, t2 :: 0 <= t1 < t2 < |pos| ==> pos[t1] < pos[t2]
    requires forall j :: 0 <= j < |branches| && MatchesMajor(branches[j], major) ==>
      exists t :: 0 <= t < |pos| && pos[t] == j
    requires forall t :: 0 <= t < |matching| ==> Cmp(matching[t].1, matching[best].1) <= 0
    requires forall t :: 0 <= t < best ==> Cmp(matching[t].1, matching[best].1) < 0
    ensures LatestAt(branches, major, pos[best]) && branches[pos[best]] == matching[best].0
  {
    var k := pos[best];
    forall j | 0 <= j < |branches| && MatchesMajor(branches[j], major)
      ensures Cmp(VersionOf(branches[j]), VersionOf(branches[k])) <= 0
      ensures j < k ==> Cmp(VersionOf(branches[j]), VersionOf(branches[k])) < 0
    {
      var t :| 0 <= t < |pos| && pos[t] == j;
    }
  }

  /**
    The first loop of `find_latest_branch`: the branches of `major` paired
    with their versions, in input order; `pos` gives each one's index.
   */
  method MatchingBranches(major: int, branches: seq<string>) returns (matching: seq<(string, Version)>, ghost pos: seq<nat>)
    ensures |pos| == |matching|
    ensures forall t :: 0 <= t < |pos| ==>
      pos[t] < |branches| && MatchesMajor(branches[pos[t]], major) &&
      matching[t] == (branches[pos[t]], VersionOf(branches[pos[t]]))
    ensures forall t1, t2 :: 0 <= t1 < t2 < |pos| ==> pos[t1] < pos[t2]
    ensures forall j :: 0 <= j < |branches| && MatchesMajor(branches[j], major) ==>
      exists t :: 0 <= t < |pos| && pos[t] == j
    ensures forall t :: 0 <= t < |matching| ==>
      MatchesMajor(matching[t].0, major) && matching[t].1 == VersionOf(matching[t].0)
    ensures (matching == []) <==> forall j :: 0 <= j < |branches| ==> !MatchesMajor(branches[j], major)
  {
    matching := [];
    pos := [];
    var i := 0;
    while i < |branches|
      invariant 0 <= i <= |branches|
      invariant |pos| == |matching|
      invariant forall t :: 0 <= t < |pos| ==>
        pos[t] < i && MatchesMajor(branches[pos[t]], major) &&
        matching[t] == (branches[pos[t]], VersionOf(branches[pos[t]]))
      invariant forall t1, t2 :: 0 <= t1 < t2 < |pos| ==> pos[t1] < pos[t2]
      invariant forall j :: 0 <= j < i && MatchesMajor(branches[j], major) ==> exists t :: 0 <= t < |pos| && pos[t] == j
    {
      var parsed := ParseBranch(branches[i]);
      if parsed.Some? && Major(parsed.value) == major {
        ghost var oldPos := pos;
        matching := matching + [(branches[i], parsed.value)];
        pos := pos + [i];
        forall j | 0 <= j < i + 1 && MatchesMajor(branches[j], major)
          ensures exists t :: 0 <= t < |pos| && pos[t] == j
        {
          if j == i {
            assert pos[|pos| - 1] == j;
          } else {
            var t :| 0 <= t < |oldPos| && oldPos[t] == j;
            assert pos[t] == j;
          }
        }
      }
      i := i + 1;
    }
    if matching != [] {
      assert MatchesMajor(branches[pos[0]], major);
    }
  }

  /** Index of the first entry with the greatest version: what a stable descending sort puts first. */
  method FirstGreatest(matching: seq<(string, Version)>) returns (best: nat)
    requires |matching| > 0
    ensures best < |matching|
    ensures forall t :: 0 <= t < |matching| ==> Cmp(matching[t].1, matching[best].1) <= 0
    ensures forall t :: 0 <= t < best ==> Cmp(matching[t].1, matching[best].1) < 0
  {
    best := 0;
    var j := 1;
    CmpReflexive(matching[0].1);
    while j < |matching|
      invariant 0 <= best < j <= |matching|
      invariant forall t :: 0 <= t < j ==> Cmp(matching[t].1, matching[best].1) <= 0
      invariant forall t :: 0 <= t < best ==> Cmp(matching[t].1, matching[best].1) < 0
    {
      if Cmp(matching[j].1, matching[best].1) > 0 {
        CmpAntisymmetric(matching[j].1, matching[best].1);
        CmpReflexive(matching[j].1);
        forall t | 0 <= t < j ensures Cmp(matching[t].1, matching[j].1) < 0 {
          CmpTransitive(matching[t].1, matching[best].1, matching[j].1);
        }
        best := j;
      }
      j := j + 1;
    }
  }

  // ---------------------------------------------------------------------
  // The major-version argument of `main`
  // ---------------------------------------------------------------------

  /**
    The ASCII characters `int()` strips around its argument: space, tab,
    line feed, vertical tab, form feed and carriage return. The separators
    0x1c-0x1f that `str.split()` also treats as whitespace are not among them.
   */
  predicate IntSpace(c: char) {
    c == ' ' || 9 <= c as int <= 13
  }

  /** `s` without leading whitespace. */
  function StripStart(s: string): (r: string)
    ensures |r| <= |s| && r == s[|s| - |r|..]
    ensures r == [] || !IntSpace(r[0])
    ensures forall i :: 0 <= i < |s| - |r| ==> IntSpace(s[i])
  {
    if s != [] && IntSpace(s[0]) then StripStart(s[1..]) else s
  }

  /** `s` without trailing whitespace. */
  function StripEnd(s: string): (r: string)
    ensures |r| <= |s| && r == s[..|r|]
    ensures r == [] || !IntSpace(r[|r| - 1])
    ensures forall i :: |r| <= i < |s| ==> IntSpace(s[i])
  {
    if s != [] && IntSpace(s[|s| - 1]) then StripEnd(s[..|s| - 1]) else s
  }

  /** Digits with single underscores between them, as `int()` accepts them in base 10. */
  predicate DigitGroups(b: string) {
    b != [] && IsDigit(b[0]) && IsDigit(b[|b| - 1]) &&
    (forall i :: 0 <= i < |b| ==> IsDigit(b[i]) || b[i] == '_') &&
    (forall i :: 0 <= i < |b| - 1 ==> b[i] == '_' ==> b[i + 1] != '_')
  }

  lemma {:induction false} UnderscoresRemoved(b: string)
    requires forall i :: 0 <= i < |b| ==> IsDigit(b[i]) || b[i] == '_'
    ensures AllDigits(RemoveAll(b, "_"))
    decreases |b|
  {
    if |b| >= 1 {
      assert forall i :: 0 <= i < |b[1..]| ==> b[1..][i] == b[i + 1];
      UnderscoresRemoved(b[1..]);
      assert b[|"_"|..] == b[1..];
    }
  }

  /** `int(s)` for ASCII text: surrounding whitespace, an optional sign, then digit groups. */
  function IntOf(s: string): Option<int> {
    IntOfStripped(StripEnd(StripStart(s)))
  }

  /** `int` on text with the surrounding whitespace already removed. */
  function IntOfStripped(t: string): Option<int> {
    if t == [] then None
    else
      var negative := t[0] == '-';
      var body := if t[0] == '-' || t[0] == '+' then t[1..] else t;
      if !DigitGroups(body) then None
      else
        UnderscoresRemoved(body);
        var n: int := DigitsValue(RemoveAll(body, "_"));
        Some(if negative then -n else n)
  }

  /** `int(args.version.split('.')[0])`: None where `int` raises ValueError. */
  function MajorArgument(arg: string): Option<int> {
    IntOf(Split(arg, '.')[0])
  }

  /** Text that starts and ends with a non-space is its own stripped form. */
  lemma StrippedAlready(s: string)
    requires s != [] && !IntSpace(s[0]) && !IntSpace(s[|s| - 1])
    ensures StripEnd(StripStart(s)) == s
  {
    assert StripStart(s) == s;
  }

  lemma NoUnderscore(d: string)
    requires AllDigits(d)
    ensures '_' !in d
  {
    forall i | 0 <= i < |d| ensures d[i] != '_' {
      assert IsDigit(d[i]);
    }
  }

  /** A non-empty digit run is its decimal value. */
  lemma IntOfDigits(d: string)
    requires d != [] && AllDigits(d)
    ensures IntOf(d) == Some(DigitsValue(d))
  {
    assert IsDigit(d[0]) && IsDigit(d[|d| - 1]);
    StrippedAlready(d);
    assert DigitGroups(d);
    NoUnderscore(d);
    RemoveAllAbsent(d, "_");
  }

  /** `int(str(n)) == n`. */
  lemma IntOfNatToString(n: nat)
    ensures IntOf(NatToString(n)) == Some(n)
  {
    IntOfDigits(NatToString(n));
    DigitsValueOfNatToString(n);
  }

  /** The text before the first dot of a rendered version is its first segment. */
  lemma FirstPieceOfFormat(v: Version)
    ensures Split(Format(v), '.')[0] == NatToString(v[0])
  {
    var parts := seq(|v|, i requires 0 <= i < |v| => NatToString(v[i]));
    assert forall i :: 0 <= i < |parts| ==> '.' !in parts[i];
    SplitJoin(parts, '.');
    assert Format(v) == Join(parts, '.');
  }

  /** The major read from a rendered version is its major. */
  lemma MajorArgumentOfVersion(v: Version)
    ensures MajorArgument(Format(v)) == Some(Major(v))
  {
    FirstPieceOfFormat(v);
    IntOfNatToString(v[0]);
  }

  /** Leading whitespace ends at the first non-space, so that is where `StripStart` cuts. */
  lemma StripStartAt(s: string, k: nat)
    requires k < |s| && !IntSpace(s[k]) && forall i :: 0 <= i < k ==> IntSpace(s[i])
    ensures StripStart(s) == s[k..]
  {
    var r := StripStart(s);
    var cut := |s| - |r|;
    assert r != [] ==> r[0] == s[cut];
  }

  /** Trailing whitespace starts after the last non-space, so that is where `StripEnd` cuts. */
  lemma StripEndAt(s: string, k: nat)
    requires 0 < k <= |s| && !IntSpace(s[k - 1]) && forall i :: k <= i < |s| ==> IntSpace(s[i])
    ensures StripEnd(s) == s[..k]
  {
    var r := StripEnd(s);
    assert r != [] ==> r[|r| - 1] == s[|r| - 1];
  }

  /** One space on each side of text that has none at its ends is stripped. */
  lemma PaddingStripped(p: string)
    requires p != [] && !IntSpace(p[0]) && !IntSpace(p[|p| - 1])
    ensures StripEnd(StripStart(" " + p + " ")) == p
  {
    var s := " " + p + " ";
    assert s[1] == p[0] && s[0] == ' ';
    StripStartAt(s, 1);
    var t := s[1..];
    assert t == p + " ";
    assert t[|p| - 1] == p[|p| - 1] && t[|p|] == ' ';
    StripEndAt(t, |p|);
    assert t[..|p|] == p;
  }

  /** Surrounding whitespace is ignored: `int(" 128 ") == 128`. */
  lemma IntOfPadded(n: nat)
    ensures IntOf(" " + NatToString(n) + " ") == Some(n)
  {
    var p := NatToString(n);
    assert IsDigit(p[0]) && IsDigit(p[|p| - 1]);
    PaddingStripped(p);
    IntOfNatToString(n);
    StrippedAlready(p);
  }

  lemma SignedStripped(n: nat)
    ensures IntOfStripped("-" + NatToString(n)) == Some(-(n as int))
  {
    var p := NatToString(n);
    assert ("-" + p)[1..] == p;
    assert IsDigit(p[0]) && IsDigit(p[|p| - 1]);
    assert DigitGroups(p);
    NoUnderscore(p);
    RemoveAllAbsent(p, "_");
    DigitsValueOfNatToString(n);
  }

  /** A leading minus sign negates: `int("-3") == -3`, and a negative major matches no branch. */
  lemma IntOfSigned(n: nat)
    ensures IntOf("-" + NatToString(n)) == Some(-(n as int))
  {
    var p := NatToString(n);
    var s := "-" + p;
    assert IsDigit(p[|p| - 1]) && s[|s| - 1] == p[|p| - 1];
    StrippedAlready(s);
    SignedStripped(n);
  }

  /** Removing a single `_` from between two underscore-free strings joins them. */
  lemma {:induction false} RemoveUnderscore(x: string, y: string)
    requires '_' !in x && '_' !in y
    ensures RemoveAll(x + "_" + y, "_") == x + y
    decreases |x|
  {
    var s := x + "_" + y;
    if x == [] {
      assert s[..1] == "_" && s[1..] == y;
      RemoveAllAbsent(y, "_");
    } else {
      assert s[..1] == [x[0]] && s[1..] == x[1..] + "_" + y;
      assert x[0] in x;
      assert forall c :: c in x[1..] ==> c in x;
      RemoveUnderscore(x[1..], y);
      assert x + y == [x[0]] + (x[1..] + y);
    }
  }

  lemma UnderscoreStripped(x: string, y: string)
    requires x != [] && y != [] && AllDigits(x) && AllDigits(y)
    ensures IntOfStripped(x + "_" + y) == Some(DigitsValue(x + y))
  {
    var s := x + "_" + y;
    assert s[0] == x[0] && s[|s| - 1] == y[|y| - 1];
    assert IsDigit(x[0]) && IsDigit(y[|y| - 1]);
    forall i | 0 <= i < |s| ensures IsDigit(s[i]) || s[i] == '_' {
      if i < |x| {
        assert s[i] == x[i];
      } else if i > |x| {
        assert s[i] == y[i - |x| - 1];
      }
    }
    forall i | 0 <= i < |s| - 1 ensures s[i] == '_' ==> s[i + 1] != '_' {
      if i < |x| {
        assert s[i] == x[i];
        assert IsDigit(x[i]);
      } else {
        assert s[i + 1] == y[i - |x|];
        assert IsDigit(y[i - |x|]);
      }
    }
    assert DigitGroups(s);
    NoUnderscore(x);
    NoUnderscore(y);
    RemoveUnderscore(x, y);
  }

  /** An underscore between digit runs is accepted and ignored: `int("1_2") == 12`. */
  lemma IntOfUnderscore(x: string, y: string)
    requires x != [] && y != [] && AllDigits(x) && AllDigits(y)
    ensures IntOf(x + "_" + y) == Some(DigitsValue(x + y))
  {
    var s := x + "_" + y;
    assert s[0] == x[0] && s[|s| - 1] == y[|y| - 1];
    assert IsDigit(x[0]) && IsDigit(y[|y| - 1]);
    StrippedAlready(s);
    UnderscoreStripped(x, y);
  }

  lemma LetterLedStripped(d: string)
    requires AllDigits(d)
    ensures IntOfStripped("v" + d) == None
  {
    assert ("v" + d)[0] == 'v';
  }

  /** A leading `v` is not part of an integer. */
  lemma IntOfRejects(d: string)
    requires d != [] && AllDigits(d)
    ensures IntOf("v" + d) == None
  {
    var s := "v" + d;
    assert s[|s| - 1] == d[|d| - 1] && IsDigit(d[|d| - 1]);
    StrippedAlready(s);
    LetterLedStripped(d);
  }

  /** A separator character 0x1c-0x1f next to digits makes `int()` raise, although `split()` would drop it. */
  lemma IntOfRejectsSeparator(c: char, d: string)
    requires 28 <= c as int <= 31 && d != [] && AllDigits(d)
    ensures IntOf([c] + d) == None
    ensures IntOf(d + [c]) == None
  {
    var s := [c] + d;
    assert s[|s| - 1] == d[|d| - 1] && IsDigit(d[|d| - 1]);
    StrippedAlready(s);
    assert s[0] == c;
    var t := d + [c];
    assert t[0] == d[0] && IsDigit(d[0]) && t[|t| - 1] == c;
    StrippedAlready(t);
  }

  /** `int("\x1c5")` raises. */
  lemma IntOfSeparatorExample()
    ensures IntOf([28 as char] + "5") == None
  {
    IntOfRejectsSeparator(28 as char, "5");
  }

  /** An empty argument is not an integer. */
  lemma IntOfEmpty()
    ensures IntOf("") == None
  {
  }

  /** How `main` ends once the branch list is known: the branch it prints, or exit status 1. */
  datatype ScriptEnd = Printed(branch: string) | Exit(status: int)

  /**
    `main` with the command-line argument and the branch list given: an
    argument whose major part is not an integer, or a major with no release
    branch, ends with status 1.
   */
  method Run(arg: string, branches: seq<string>) returns (end: ScriptEnd)
    ensures MajorArgument(arg).None? ==> end == Exit(1)
    ensures MajorArgument(arg).Some? ==>
      var major := MajorArgument(arg).value;
      (end == Exit(1) <==> forall i :: 0 <= i < |branches| ==> !MatchesMajor(branches[i], major)) &&
      (end.Printed? ==> exists k: nat :: LatestAt(branches, major, k) && branches[k] == end.branch)
    ensures end.Printed? || end == Exit(1)
  {
    var major := MajorArgument(arg);
    if major.None? {
      return Exit(1);
    }
    var latest := FindLatestBranch(major.value, branches);
    match latest {
      case Ok(branch) => end := Printed(branch);
      case Raise(_) => end := Exit(1);
    }
  }
}
