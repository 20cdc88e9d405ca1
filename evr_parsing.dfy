/**
 * What the two EVR regular expressions make of the strings the EVR type prints:
 * the round trip `fromstring(str(e))`, where it breaks (a multi-digit major
 * without an epoch), the nightly release and the rejected pre-release stages.
 *
 * The matcher lemmas are stated on an abstract string `s` whose layout is given
 * by position; EvrLayout supplies those positions for the printed forms.
 */
module EvrParsing {
  import opened Wrappers
  import opened Decimal
  import opened Evr
  import Layout
  import EvrLayout

  // ---------------------------------------------------------------------------
  // Version expression, on an abstract string
  // ---------------------------------------------------------------------------

  /** The core expression at `p` over three digit runs of known extent and value separated by dots. */
  lemma CoreAtRuns(s: string, p: nat, q: nat, r: nat, end: nat, x: nat, y: nat, z: nat)
    requires p < q - 1 && q < r - 1 && r < end <= |s|
    requires DigitsLen(s, p) == q - 1 - p && s[q - 1] == '.'
    requires DigitsLen(s, q) == r - 1 - q && s[r - 1] == '.'
    requires DigitsLen(s, r) == end - r
    requires RunValue(s, p, q - 1) == x && RunValue(s, q, r - 1) == y && RunValue(s, r, end) == z
    ensures MatchCore(s, p) == Some((x, y, Some(z)))
  {
  }

  /** `major.minor.patch` printed at position `p` of `s` and running to its end. */
  lemma CoreMatchAt(s: string, p: nat, q: nat, r: nat, x: nat, y: nat, z: nat)
    requires Layout.Dotted3At(s, p, q, r, NatToString(x), NatToString(y), NatToString(z))
    ensures MatchCore(s, p) == Some((x, y, Some(z)))
  {
    NatRunAt(s, p, q - 1, x);
    NatRunAt(s, q, r - 1, y);
    NatRunAt(s, r, |s|, z);
    CoreAtRuns(s, p, q, r, |s|, x, y, z);
  }

  /** A leading digit run of `k` characters worth `ep`, a colon, then a core that matches. */
  lemma EpochAtRuns(s: string, k: nat, ep: nat, x: nat, y: nat, z: nat)
    requires 0 < k < |s| && DigitsLen(s, 0) == k && s[k] == ':'
    requires RunValue(s, 0, k) == ep && MatchCore(s, k + 1) == Some((x, y, Some(z)))
    ensures MatchVersion(s) == Some(VersionGroups(Some(ep), x, y, Some(z)))
  {
  }

  /** `E:x.y.z`: the whole leading run is the epoch and the colon is consumed. */
  lemma EpochVersionAt(s: string, k: nat, q: nat, r: nat, ep: nat, x: nat, y: nat, z: nat)
    requires k == |NatToString(ep)| && k < |s| && s[0..k] == NatToString(ep) && s[k] == ':'
    requires Layout.Dotted3At(s, k + 1, q, r, NatToString(x), NatToString(y), NatToString(z))
    ensures ParseVersion(s) == Some(VersionParts(ep, x, y, z))
  {
    assert DigitsLen(s, 0) == k && RunValue(s, 0, k) == ep by {
      NatRunAt(s, 0, k, ep);
    }
    assert MatchCore(s, k + 1) == Some((x, y, Some(z))) by {
      CoreMatchAt(s, k + 1, q, r, x, y, z);
    }
    EpochAtRuns(s, k, ep, x, y, z);
  }

  /** `x.y.z` with a one-digit `x`: the epoch group finds no colon and no core after it, so it is left out. */
  lemma PlainVersionAt(s: string, q: nat, r: nat, x: nat, y: nat, z: nat)
    requires x < 10
    requires Layout.Dotted3At(s, 0, q, r, NatToString(x), NatToString(y), NatToString(z))
    ensures ParseVersion(s) == Some(VersionParts(0, x, y, z))
  {
    NatRunAt(s, 0, 1, x);
    assert DigitsLen(s, 1) == 0;
    CoreMatchAt(s, 0, q, r, x, y, z);
  }

  /**
   * `x.y.z` with `x >= 10`: the epoch group first takes the whole run of `x`,
   * finds neither a colon nor a core after it, and backtracks by one digit; the
   * core then starts at `x`'s last digit.
   */
  lemma SplitVersionAt(s: string, q: nat, r: nat, x: nat, y: nat, z: nat)
    requires x >= 10
    requires Layout.Dotted3At(s, 0, q, r, NatToString(x), NatToString(y), NatToString(z))
    ensures ParseVersion(s) == Some(VersionParts(x / 10, x % 10, y, z))
  {
    var head, last := NatToString(x / 10), NatToString(x % 10);
    assert NatToString(x) == head + last;
    Layout.SplitFirst(s, q, r, head, last, NatToString(y), NatToString(z));
    NatRunAt(s, 0, q - 1, x);
    assert DigitsLen(s, q - 1) == 0;
    assert MatchEpoch(s, q - 1) == MatchEpoch(s, |head|);
    NatValueAt(s, 0, |head|, x / 10);
    CoreMatchAt(s, |head|, q, r, x % 10, y, z);
  }

  // ---------------------------------------------------------------------------
  // Version expression, on the printed version
  // ---------------------------------------------------------------------------

  /**
   * The printed version parses back to the same four integers when an epoch is
   * printed or the major has a single digit.
   */
  lemma VersionParsesBack(e: Evr)
    requires e.epoch > 0 || e.vMajor < 10
    ensures ParseVersion(VersionString(e)) == Some(VersionParts(e.epoch, e.vMajor, e.vMinor, e.vPatch))
  {
    if e.epoch > 0 {
      EpochVersionParsesBack(e);
    } else {
      var M, m := NatToString(e.vMajor), NatToString(e.vMinor);
      EvrLayout.VersionWithoutEpoch(e);
      PlainVersionAt(VersionString(e), |M| + 1, |M| + |m| + 2, e.vMajor, e.vMinor, e.vPatch);
    }
  }

  lemma EpochVersionParsesBack(e: Evr)
    requires e.epoch > 0
    ensures ParseVersion(VersionString(e)) == Some(VersionParts(e.epoch, e.vMajor, e.vMinor, e.vPatch))
  {
    var M, m := NatToString(e.vMajor), NatToString(e.vMinor);
    var p := |NatToString(e.epoch)| + 1;
    EvrLayout.VersionWithEpoch(e);
    EpochVersionAt(VersionString(e), p - 1, p + |M| + 1, p + |M| + |m| + 2, e.epoch, e.vMajor, e.vMinor, e.vPatch);
  }

  /**
   * Without an epoch, a major of two or more digits is split: the optional epoch
   * group is tried first and keeps all but the last digit, so the major's leading
   * digits become the epoch and its last digit the major.
   */
  lemma VersionSplitsLongMajor(e: Evr)
    requires e.epoch == 0 && e.vMajor >= 10
    ensures ParseVersion(VersionString(e))
         == Some(VersionParts(e.vMajor / 10, e.vMajor % 10, e.vMinor, e.vPatch))
  {
    var M, m := NatToString(e.vMajor), NatToString(e.vMinor);
    EvrLayout.VersionWithoutEpoch(e);
    SplitVersionAt(VersionString(e), |M| + 1, |M| + |m| + 2, e.vMajor, e.vMinor, e.vPatch);
  }

  /** The smallest instance of the split: `"12.3"` is epoch 1, major 2, minor 3, patch 0. */
  lemma TwelvePointThree()
    ensures ParseVersion("12.3") == Some(VersionParts(1, 2, 3, 0))
  {
    var s := "12.3";
    DigitsLenOf(s, 0, 2);
    assert DigitsLen(s, 2) == 0;
    DigitsLenOf(s, 1, 1);
    DigitsLenOf(s, 3, 1);
    assert MatchCore(s, 2) == None;
    assert MatchCore(s, 1) == Some((2, 3, None));
  }

  // ---------------------------------------------------------------------------
  // Release expression, on an abstract string
  // ---------------------------------------------------------------------------

  /** A stage the release expression captures exactly: two or more characters on one line, not ending in a dot. */
  predicate StageShape(st: string) {
    |st| >= 2 && st[|st| - 1] != '.' && '\n' !in st
  }

  /** `.+[^.]` captures a whole single-line tail of two or more characters that does not end in a dot. */
  lemma StageAt(s: string, r: nat, st: string)
    requires r <= |s| && s[r..|s|] == st && StageShape(st)
    ensures MatchStage(s, r) == Some(st)
  {
    assert forall k :: r <= k < |s| ==> s[k] == st[k - r];
    assert LineEnd(s, r) == |s|;
    assert StageEnd(s, r, |s|) == StageEnd(s, r, |s| - 1) == Some(|s|);
  }

  /** `.+[^.]` at `r` captures something whenever some character after `r`, within reach, is not a dot. */
  lemma {:induction false} StageEndFinds(s: string, r: nat, j: nat, k: nat)
    requires r <= j <= |s|
    requires r < k <= j && k < |s| && s[k] != '.'
    ensures StageEnd(s, r, j).Some?
    decreases j
  {
    if !(j < |s| && s[j] != '.') {
      StageEndFinds(s, r, j - 1, k);
    }
  }

  /** The release expression finds nothing at the end of the input: no minor, no stage. */
  lemma NothingAtEnd(s: string)
    ensures DigitsLen(s, |s|) == 0 && MatchStage(s, |s|) == None
  {
  }

  /** The release expression over two digit runs of known extent and value, dot-separated, and the stage group at `r`. */
  lemma ReleaseAtRuns(s: string, q: nat, r: nat, x: nat, y: nat, st: Option<string>)
    requires 1 < q && q < r - 1 && r <= |s|
    requires DigitsLen(s, 0) == q - 1 && s[q - 1] == '.'
    requires DigitsLen(s, q) == r - 1 - q && s[r - 1] == '.'
    requires RunValue(s, 0, q - 1) == x && RunValue(s, q, r - 1) == y && MatchStage(s, r) == st
    ensures MatchRelease(s) == Some(ReleaseGroups(x, Some(y), st))
  {
  }

  /** `x.y.stage`. */
  lemma ReleaseStageAt(s: string, q: nat, r: nat, x: nat, y: nat, st: string)
    requires StageShape(st)
    requires Layout.Dotted3At(s, 0, q, r, NatToString(x), NatToString(y), st)
    ensures MatchRelease(s) == Some(ReleaseGroups(x, Some(y), Some(st)))
  {
    NatRunAt(s, 0, q - 1, x);
    NatRunAt(s, q, r - 1, y);
    StageAt(s, r, st);
    ReleaseAtRuns(s, q, r, x, y, Some(st));
  }

  /** `x.y`. */
  lemma ReleaseMinorAt(s: string, q: nat, x: nat, y: nat)
    requires Layout.Dotted2At(s, q, NatToString(x), NatToString(y))
    ensures MatchRelease(s) == Some(ReleaseGroups(x, Some(y), None))
  {
    NatRunAt(s, 0, q - 1, x);
    NatRunAt(s, q, |s|, y);
    NothingAtEnd(s);
  }

  /** `x` alone. */
  lemma ReleaseMajorAt(s: string, x: nat)
    requires s == NatToString(x)
    ensures MatchRelease(s) == Some(ReleaseGroups(x, None, None))
  {
    assert s[0..|s|] == s;
    NatRunAt(s, 0, |s|, x);
    NothingAtEnd(s);
  }

  // ---------------------------------------------------------------------------
  // Release expression, on the printed release
  // ---------------------------------------------------------------------------

  /** What the release expression makes of the printed release. */
  lemma ReleaseMatchesBack(e: Evr)
    requires HasStage(e.rStage) ==> StageShape(e.rStage.value)
    ensures MatchRelease(ReleaseString(e)) == Some(ReleaseGroups(
      e.rMajor,
      if HasStage(e.rStage) || e.rMinor != 0 then Some(e.rMinor) else None,
      if HasStage(e.rStage) then e.rStage else None))
  {
    var A, B := NatToString(e.rMajor), NatToString(e.rMinor);
    if HasStage(e.rStage) {
      EvrLayout.ReleaseWithStage(e);
      ReleaseStageAt(ReleaseString(e), |A| + 1, |A| + |B| + 2, e.rMajor, e.rMinor, e.rStage.value);
    } else if e.rMinor != 0 {
      EvrLayout.ReleaseWithMinor(e);
      ReleaseMinorAt(ReleaseString(e), |A| + 1, e.rMajor, e.rMinor);
    } else {
      ReleaseMajorAt(ReleaseString(e), e.rMajor);
    }
  }

  /**
   * The stage guard compares an int with the string `'0'`, so it never holds
   * back an alpha, beta or rc stage: `0.1.alpha`, the form the comments of
   * `parse_release` describe, matches with major 0 and is still rejected.
   */
  lemma PreReleaseAlwaysRejected(stage: string, major: nat, minor: nat)
    requires stage in PythonStageMap
    ensures var e := Evr(0, 0, 0, 0, major, minor, Some(stage));
      MatchRelease(ReleaseString(e)) == Some(ReleaseGroups(major, Some(minor), Some(stage))) &&
      ParseRelease(ReleaseString(e)) == Failure(StageNeedsZeroMajor)
  {
    var e := Evr(0, 0, 0, 0, major, minor, Some(stage));
    ReleaseMatchesBack(e);
    EvrLayout.ReleaseNotNightly(e);
  }

  /** `EVR.lowest()` builds release `'0'`, a stage-less release with major 0, and so always fails. */
  lemma LowestAlwaysFails()
    ensures Lowest() == Failure(GaNeedsPositiveMajor)
  {
    var v := "0.0";
    DigitsLenOf(v, 0, 1);
    assert DigitsLen(v, 1) == 0;
    DigitsLenOf(v, 2, 1);
    assert MatchCore(v, 1) == None;
    assert ParseVersion(v).Some?;
    DigitsLenOf("0", 0, 1);
    NothingAtEnd("0");
  }

  // ---------------------------------------------------------------------------
  // Round trip
  // ---------------------------------------------------------------------------

  /** A stage that survives printing and re-parsing by `parse_release`. */
  predicate StageReparses(st: string) {
    StageShape(st) && st !in PythonStageMap
  }

  /** The releases whose printed form parses back to the same three fields. */
  predicate ReleaseReparses(e: Evr) {
    match e.rStage
    case None => e.rMajor >= 1
    case Some(st) => StageReparses(st)
  }

  /** The EVRs whose printed parts give back the same fields, as `copy()` needs. */
  predicate Reparses(e: Evr) {
    (e.epoch > 0 || e.vMajor < 10) && ReleaseReparses(e)
  }

  /** The EVRs whose `str()` gives back the same fields: `fromstring` also needs a stage without `-`. */
  predicate StringReparses(e: Evr) {
    Reparses(e) && (HasStage(e.rStage) ==> '-' !in e.rStage.value)
  }

  lemma ReleaseParsesBack(e: Evr)
    requires ReleaseReparses(e)
    ensures ParseRelease(ReleaseString(e)) == Success(ReleaseParts(e.rMajor, e.rMinor, e.rStage))
  {
    ReleaseMatchesBack(e);
    EvrLayout.ReleaseNotNightly(e);
  }

  /** `copy()` reproduces every field of an EVR that re-parses. */
  lemma CopyIsIdentity(e: Evr)
    requires Reparses(e)
    ensures Copy(e) == Success(e)
  {
    VersionParsesBack(e);
    ReleaseParsesBack(e);
  }

  /**
   * Without an epoch, `copy()` of an EVR whose major has two or more digits
   * moves that major's leading digits into the epoch.
   */
  lemma CopyResplitsLongMajor(e: Evr)
    requires e.epoch == 0 && e.vMajor >= 10 && ReleaseReparses(e)
    ensures Copy(e) == Success(e.(epoch := e.vMajor / 10, vMajor := e.vMajor % 10))
  {
    VersionSplitsLongMajor(e);
    ReleaseParsesBack(e);
  }

  /** Every prefix of `s` ending after position `i` has its last `-` at `i` when none follows `i`. */
  lemma {:induction false} LastDashOfPrefix(s: string, i: nat, j: nat)
    requires i < j <= |s| && s[i] == '-'
    requires forall k :: i < k < |s| ==> s[k] != '-'
    ensures LastDash(s[..j]) == Some(i)
    decreases j
  {
    var t := s[..j];
    if j > i + 1 {
      assert t[..|t| - 1] == s[..j - 1];
      LastDashOfPrefix(s, i, j - 1);
    }
  }

  /** The last `-` of `s` is the one at `i` when none follows it. */
  lemma LastDashAt(s: string, i: nat)
    requires i < |s| && s[i] == '-' && '-' !in s[i + 1..|s|]
    ensures LastDash(s) == Some(i)
  {
    assert forall k :: i < k < |s| ==> s[k] == s[i + 1..|s|][k - i - 1];
    LastDashOfPrefix(s, i, |s|);
    assert s[..|s|] == s;
  }

  /** Neither printed part holds a `-` unless the stage does, so `rsplit('-', 1)` cuts `str(e)` exactly between them. */
  lemma SplitsAtSeparator(e: Evr)
    requires HasStage(e.rStage) ==> '-' !in e.rStage.value
    ensures LastDash(ToString(e)) == Some(|VersionString(e)|)
  {
    EvrLayout.Dashed(e);
    EvrLayout.NoDashInVersion(e);
    EvrLayout.NoDashInRelease(e);
    LastDashAt(ToString(e), |VersionString(e)|);
  }

  /** `fromstring(str(e))` is `copy()` of `e` whenever the stage holds no `-`. */
  lemma FromStringIsCopy(e: Evr)
    requires HasStage(e.rStage) ==> '-' !in e.rStage.value
    ensures FromString(ToString(e)) == Copy(e)
  {
    SplitsAtSeparator(e);
    EvrLayout.Dashed(e);
    var s, v := ToString(e), VersionString(e);
    assert s[..|v|] == s[0..|v|];
  }

  /** `fromstring(str(e))` gives back `e` for every EVR that re-parses. */
  lemma FromStringRoundTrip(e: Evr)
    requires StringReparses(e)
    ensures FromString(ToString(e)) == Success(e)
  {
    FromStringIsCopy(e);
    CopyIsIdentity(e);
  }

  /**
   * With epoch 0 and a major of 10 or more, `fromstring(str(e))` yields a
   * DIFFERENT EVR: `0:10.2.0-1` prints as `10.2.0-1` and comes back as `1:0.2.0-1`.
   */
  lemma RoundTripResplitsMajor()
    ensures FromString(ToString(Evr(0, 10, 2, 0, 1, 0, None))) == Success(Evr(1, 0, 2, 0, 1, 0, None))
  {
    var e := Evr(0, 10, 2, 0, 1, 0, None);
    FromStringIsCopy(e);
    CopyResplitsLongMajor(e);
  }

  // ---------------------------------------------------------------------------
  // Nightly releases
  // ---------------------------------------------------------------------------

  /** `0.0.n…`: release major 0, minor 0 and a stage of two or more characters starting with `n`. */
  lemma NightlyShapeAt(s: string, g: nat)
    requires |s| >= 5 && s[0] == '0' && s[1] == '.' && s[2] == '0' && s[3] == '.' && s[4] == 'n'
    requires 4 < g < |s| && s[g] != '.'
    ensures var m := MatchRelease(s);
      m.Some? && m.value.major == 0 && m.value.minor == Some(0) && m.value.stage.Some? &&
      |m.value.stage.value| >= 2 && m.value.stage.value[0] == 'n'
  {
    DigitsLenOf(s, 0, 1);
    DigitsLenOf(s, 2, 1);
    var e := LineEnd(s, 4);
    if e < |s| {
      assert StageEnd(s, 4, e) == Some(e + 1);
    } else {
      StageEndFinds(s, 4, e, g);
    }
  }

  /** `0.0.<st>` with a stage the release expression captures whole. */
  lemma NightlyExactAt(s: string, st: string)
    requires |s| >= 4 && s[0] == '0' && s[1] == '.' && s[2] == '0' && s[3] == '.'
    requires s[4..|s|] == st && StageShape(st)
    ensures MatchRelease(s) == Some(ReleaseGroups(0, Some(0), Some(st)))
  {
    DigitsLenOf(s, 0, 1);
    DigitsLenOf(s, 2, 1);
    StageAt(s, 4, st);
  }

  /** `EVR(version, 'nightly', commit)` succeeds with whatever stage the release expression captures from the nightly release. */
  lemma NightlyConstruct(version: string, commit: string, buildTime: string, st: string)
    requires ParseVersion(version).Some?
    requires MatchRelease(NightlyReleaseString(buildTime, commit)) == Some(ReleaseGroups(0, Some(0), Some(st)))
    requires |st| >= 2 && st[0] == 'n'
    ensures var v := ParseVersion(version).value;
      Construct(version, "nightly", Some(commit), buildTime)
        == Success(Evr(v.epoch, v.major, v.minor, v.patch, 0, 0, Some(st)))
  {
    var s := NightlyReleaseString(buildTime, commit);
    assert s != "nightly" by { assert s[0] != "nightly"[0]; }
    assert st !in PythonStageMap by { assert st[0] != "alpha"[0] && st[0] != "beta"[0] && st[0] != "rc"[0]; }
    assert ParseRelease(s) == Success(ReleaseParts(0, 0, Some(st)));
  }

  /**
   * With a commit hash, `release='nightly'` becomes `0.0.n<time>git<hash[0:7]>`:
   * release major and minor 0, a stage starting with `n`, so the EVR is a
   * nightly and not a tagged release.
   */
  lemma NightlyRelease(version: string, commit: string, buildTime: string)
    requires ParseVersion(version).Some?
    ensures var r := Construct(version, "nightly", Some(commit), buildTime);
      r.Success? && r.value.rMajor == 0 && r.value.rMinor == 0 &&
      r.value.rStage.Some? && |r.value.rStage.value| >= 2 && r.value.rStage.value[0] == 'n' &&
      IsNightly(r.value) && !IsTagged(r.value)
  {
    var s := NightlyReleaseString(buildTime, commit);
    Layout.NightlyLayout(buildTime, commit[..if |commit| < 7 then |commit| else 7]);
    NightlyShapeAt(s, 5 + |buildTime|);
    NightlyConstruct(version, commit, buildTime, MatchRelease(s).value.stage.value);
  }

  /** When the clock reading and the hash are on one line and the hash prefix does not end in a dot, the stage is the whole tail. */
  lemma NightlyStageExact(version: string, commit: string, buildTime: string)
    requires ParseVersion(version).Some?
    requires var c7 := commit[..if |commit| < 7 then |commit| else 7];
      '\n' !in buildTime && '\n' !in c7 && (c7 == [] || c7[|c7| - 1] != '.')
    ensures var c7 := commit[..if |commit| < 7 then |commit| else 7];
      var r := Construct(version, "nightly", Some(commit), buildTime);
      r.Success? && r.value.rStage == Some("n" + buildTime + "git" + c7)
  {
    var c7 := commit[..if |commit| < 7 then |commit| else 7];
    var st := "n" + buildTime + "git" + c7;
    Layout.NightlyLayout(buildTime, c7);
    NightlyExactAt(NightlyReleaseString(buildTime, commit), st);
    NightlyConstruct(version, commit, buildTime, st);
  }
}
