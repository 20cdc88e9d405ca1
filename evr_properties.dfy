/**
 * What the EVR type promises, and where it does not do what its comments say:
 * the ordering, equality, the Python (PEP 440) form, the stage machine and
 * `increment`.
 */
module EvrProperties {
  import opened Wrappers
  import opened Decimal
  import opened Evr
  import opened EvrParsing

  // ---------------------------------------------------------------------------
  // Parsing and validation
  // ---------------------------------------------------------------------------

  /**
   * A missing patch becomes 0, and only a prefix is matched: `1.2` followed by
   * anything that does not continue a number parses as `0:1.2.0`.
   */
  lemma MissingPatchAndTail(t: string)
    requires t == [] || (!IsDigit(t[0]) && t[0] != '.')
    ensures ParseVersion("1.2" + t) == Some(VersionParts(0, 1, 2, 0))
  {
    var s := "1.2" + t;
    assert s[0] == '1' && s[1] == '.' && s[2] == '2';
    assert |s| == 3 || (!IsDigit(s[3]) && s[3] != '.');
    VersionOneTwo(s);
  }

  /** The positional half of the lemma above. */
  lemma VersionOneTwo(s: string)
    requires |s| >= 3 && s[0] == '1' && s[1] == '.' && s[2] == '2'
    requires |s| == 3 || (!IsDigit(s[3]) && s[3] != '.')
    ensures ParseVersion(s) == Some(VersionParts(0, 1, 2, 0))
  {
    DigitsLenOf(s, 0, 1);
    DigitsLenOf(s, 2, 1);
    assert DigitsLen(s, 1) == 0;
    assert DigitsLen(s, 3) == 0;
    assert MatchCore(s, 1) == None;
  }

  /** A version that does not start with a digit does not match. */
  lemma NoLeadingDigitNoMatch()
    ensures ParseVersion("v1.2") == None
  {
    assert DigitsLen("v1.2", 0) == 0;
  }

  /** A version the expression does not match raises a `ValueError` that names both inputs. */
  lemma InvalidVersionNamesBoth(version: string, release: string, commit: Option<string>, buildTime: string)
    requires ParseVersion(version).None? && release != "nightly"
    ensures Construct(version, release, commit, buildTime) == Failure(InvalidEvr(version, release))
  {
  }

  /** Any printed version matches the version expression (possibly re-split). */
  lemma PrintedVersionParses(e: Evr)
    ensures ParseVersion(VersionString(e)).Some?
  {
    if e.epoch > 0 || e.vMajor < 10 {
      VersionParsesBack(e);
    } else {
      VersionSplitsLongMajor(e);
    }
  }

  /** A stage outside alpha/beta/rc is accepted whatever the release major, 0 included. */
  lemma OtherStagesAccepted(major: nat, minor: nat, st: string)
    requires StageShape(st) && st !in PythonStageMap
    ensures ParseRelease(NatToString(major) + "." + NatToString(minor) + "." + st)
         == Success(ReleaseParts(major, minor, Some(st)))
  {
    var e := Evr(0, 0, 0, 0, major, minor, Some(st));
    ReleaseMatchesBack(e);
    EvrLayout.ReleaseNotNightly(e);
  }

  // ---------------------------------------------------------------------------
  // Ordering and equality
  // ---------------------------------------------------------------------------

  /** `e < e` is false. */
  lemma LessIrreflexive(e: Evr)
    ensures Less(e, e) == Success(false)
  {
  }

  /** `a < b` as soon as ANY of the six integer fields of `a` is below that of `b`, whatever the fields before it. */
  lemma LessWhenAnyFieldSmaller(a: Evr, b: Evr, i: nat)
    requires i < 6 && Fields(a)[i] < Fields(b)[i]
    ensures Less(a, b) == Success(true)
  {
  }

  /** So the order is not lexicographic: `2.0.0-1 < 1.5.0-1` and `1.5.0-1 < 2.0.0-1` both hold. */
  lemma LessIsNotLexicographic()
    ensures Less(Evr(0, 2, 0, 0, 1, 0, None), Evr(0, 1, 5, 0, 1, 0, None)) == Success(true)
    ensures Less(Evr(0, 1, 5, 0, 1, 0, None), Evr(0, 2, 0, 0, 1, 0, None)) == Success(true)
  {
    LessWhenAnyFieldSmaller(Evr(0, 2, 0, 0, 1, 0, None), Evr(0, 1, 5, 0, 1, 0, None), 2);
    LessWhenAnyFieldSmaller(Evr(0, 1, 5, 0, 1, 0, None), Evr(0, 2, 0, 0, 1, 0, None), 1);
  }

  /** The stage tie-break: any stage, even `''`, is below no stage, and no stage is below nothing. */
  lemma StagedBeforeReleased(e: Evr, st: string)
    ensures Less(e.(rStage := Some(st)), e.(rStage := None)) == Success(true)
    ensures Less(e.(rStage := None), e.(rStage := Some(st))) == Success(false)
  {
    assert Fields(e.(rStage := Some(st))) == Fields(e.(rStage := None));
  }

  /**
   * The stage decides even between different versions: no field of
   * `2.0.0-1.0.foo` is below that of `1.0.0-1`, yet its stage puts it first.
   */
  lemma StageDecidesAcrossVersions()
    ensures var a, b := Evr(0, 2, 0, 0, 1, 0, Some("foo")), Evr(0, 1, 0, 0, 1, 0, None);
      !SomeFieldSmaller(Fields(a), Fields(b)) && Less(a, b) == Success(true)
  {
  }

  /** A nightly is below any other non-empty stage with the same integer fields. */
  lemma NightlyBeforeOtherStages(e: Evr, n: string, st: string)
    requires |n| > 0 && n[0] == 'n' && |st| > 0 && st[0] != 'n'
    ensures Less(e.(rStage := Some(n)), e.(rStage := Some(st))) == Success(true)
    ensures Less(e.(rStage := Some(st)), e.(rStage := Some(n))) == Success(false)
  {
    assert Fields(e.(rStage := Some(n))) == Fields(e.(rStage := Some(st)));
  }

  /** alpha < beta < rc by string order, and not the other way round. */
  lemma PreReleasesInOrder(e: Evr)
    ensures Less(e.(rStage := Some("alpha")), e.(rStage := Some("beta"))) == Success(true)
    ensures Less(e.(rStage := Some("beta")), e.(rStage := Some("rc"))) == Success(true)
    ensures Less(e.(rStage := Some("beta")), e.(rStage := Some("alpha"))) == Success(false)
    ensures Less(e.(rStage := Some("rc")), e.(rStage := Some("beta"))) == Success(false)
  {
    assert Fields(e.(rStage := Some("alpha"))) == Fields(e.(rStage := Some("beta")));
    assert Fields(e.(rStage := Some("rc"))) == Fields(e.(rStage := Some("beta")));
  }

  /** An empty stage next to a different non-empty one makes `r_stage[0]` raise `IndexError`. */
  lemma EmptyStageRaises(e: Evr, st: string)
    requires st != ""
    ensures Less(e.(rStage := Some("")), e.(rStage := Some(st))) == Failure(EmptyStageIndex)
    ensures Less(e.(rStage := Some(st)), e.(rStage := Some(""))) == Failure(EmptyStageIndex)
  {
    assert Fields(e.(rStage := Some(""))) == Fields(e.(rStage := Some(st)));
  }

  /**
   * `__eq__` compares `str()`, which prints no stage for both `None` and `''`:
   * two EVRs with different fields are equal, and one is also below the other.
   */
  lemma EqualButLess()
    ensures var a, b := Evr(0, 1, 0, 0, 1, 0, None), Evr(0, 1, 0, 0, 1, 0, Some(""));
      a != b && Equal(a, b) && Less(b, a) == Success(true) && Less(a, b) == Success(false)
  {
    StagedBeforeReleased(Evr(0, 1, 0, 0, 1, 0, None), "");
  }

  /** For EVRs that re-parse, equality of `str()` is equality of every field. */
  lemma EqualMeansSameFields(a: Evr, b: Evr)
    requires StringReparses(a) && StringReparses(b)
    ensures Equal(a, b) <==> a == b
  {
    FromStringRoundTrip(a);
    FromStringRoundTrip(b);
  }

  // ---------------------------------------------------------------------------
  // String forms
  // ---------------------------------------------------------------------------

  /** The version prints an epoch (and so a `:`) exactly when the epoch is non-zero. */
  lemma VersionColonIffEpoch(e: Evr)
    ensures ':' in VersionString(e) <==> e.epoch != 0
  {
    NoSeparatorIn(e.epoch, ':');
    NoSeparatorIn(e.vMajor, ':');
    NoSeparatorIn(e.vMinor, ':');
    NoSeparatorIn(e.vPatch, ':');
    if e.epoch != 0 {
      var E := NatToString(e.epoch);
      assert VersionString(e)[|E|] == ':';
    }
  }

  /** The dist release is the release followed by the `%{?dist}` macro. */
  lemma DistReleaseExtendsRelease(e: Evr)
    ensures var r, d := ReleaseString(e), DistRelease(e);
      |d| == |r| + 8 && d[..|r|] == r && d[|r|..] == "%{?dist}"
  {
  }

  // ---------------------------------------------------------------------------
  // The Python form
  // ---------------------------------------------------------------------------

  /** The epoch part of a PEP 440 public version: the epoch and `!` when non-zero. */
  function EpochPrefix(e: Evr): string {
    if e.epoch != 0 then NatToString(e.epoch) + "!" else ""
  }

  /**
   * The PEP 440 public version the base of `python_version` stands for: the
   * epoch part, then `major.minor`, then `.patch` unless the patch is 0.
   */
  function PublicVersion(e: Evr): string {
    EpochPrefix(e) + (NatToString(e.vMajor) + "." + NatToString(e.vMinor)) +
    (if e.vPatch == 0 then "" else "." + NatToString(e.vPatch))
  }

  lemma {:induction false} ReplaceColonsAppend(a: string, b: string)
    ensures ReplaceColons(a + b) == ReplaceColons(a) + ReplaceColons(b)
  {
    if a == [] {
      assert a + b == b;
    } else {
      assert (a + b)[1..] == a[1..] + b;
      ReplaceColonsAppend(a[1..], b);
    }
  }

  lemma {:induction false} ReplaceColonsKeeps(s: string)
    requires ':' !in s
    ensures ReplaceColons(s) == s
  {
    if s != [] {
      assert forall k :: 0 <= k < |s| - 1 ==> s[1..][k] == s[k + 1];
      ReplaceColonsKeeps(s[1..]);
    }
  }

  /** Replacing the colon that separates a colon-free epoch from a colon-free core. */
  lemma ReplaceEpochColon(ep: string, core: string)
    requires ':' !in ep && ':' !in core
    ensures ReplaceColons(ep + ":" + core) == ep + "!" + core
  {
    ReplaceColonsAppend(ep + ":", core);
    ReplaceColonsAppend(ep, ":");
    ReplaceColonsKeeps(ep);
    ReplaceColonsKeeps(core);
    assert ReplaceColons(":") == "!";
  }

  /** `pre + major.minor.patch`, less its last two characters when the patch is `0`. */
  lemma DropZeroPatch(pre: string, c2: string, p: string, v0: string, zero: bool)
    requires v0 == pre + (c2 + "." + p) && |p| >= 1 && (zero ==> p == "0")
    ensures |v0| >= 2
    ensures (if zero then v0[..|v0| - 2] else v0) == pre + c2 + (if zero then "" else "." + p)
  {
    if zero {
      assert v0[..|v0| - 2] == pre + c2;
    } else {
      assert v0 == pre + c2 + ("." + p);
    }
  }

  /** The printed version is colon-free after its epoch. */
  lemma ColonFreeCore(x: nat, y: nat, z: nat)
    ensures ':' !in NatToString(x) + "." + NatToString(y) + "." + NatToString(z)
  {
    NoSeparatorIn(x, ':');
    NoSeparatorIn(y, ':');
    NoSeparatorIn(z, ':');
  }

  /** `version.replace(':', '!')` is the epoch part followed by the printed `major.minor.patch`. */
  lemma ReplacedVersion(e: Evr)
    ensures ReplaceColons(VersionString(e))
         == EpochPrefix(e) + (NatToString(e.vMajor) + "." + NatToString(e.vMinor) + "." + NatToString(e.vPatch))
  {
    ColonFreeCore(e.vMajor, e.vMinor, e.vPatch);
    if e.epoch != 0 {
      NoSeparatorIn(e.epoch, ':');
      ReplaceEpochColon(NatToString(e.epoch), NatToString(e.vMajor) + "." + NatToString(e.vMinor) + "." + NatToString(e.vPatch));
    } else {
      ReplaceColonsKeeps(NatToString(e.vMajor) + "." + NatToString(e.vMinor) + "." + NatToString(e.vPatch));
    }
  }

  /** `version.replace(':', '!')`, less a trailing `.0` when the patch is 0, is the public version. */
  lemma PythonBaseVersion(e: Evr)
    ensures var v0 := ReplaceColons(VersionString(e));
      |v0| >= 2 && (if e.vPatch == 0 then v0[..|v0| - 2] else v0) == PublicVersion(e)
  {
    ReplacedVersion(e);
    assert NatToString(0) == "0";
    DropZeroPatch(EpochPrefix(e), NatToString(e.vMajor) + "." + NatToString(e.vMinor), NatToString(e.vPatch),
      ReplaceColons(VersionString(e)), e.vPatch == 0);
  }

  /** `python_version` in terms of the public version: the suffix for a nightly, a pre-release stage, a post-release or none. */
  lemma PythonVersionIs(e: Evr)
    ensures PythonVersion(e) ==
      if HasStage(e.rStage) then
        if IsNightly(e) then Success(PublicVersion(e) + "dev" + e.rStage.value[1..])
        else if e.rStage.value in PythonStageMap then
          Success(PublicVersion(e) + PythonStageMap[e.rStage.value] + NatToString(e.rMinor))
        else Failure(NoPythonStage(e.rStage.value))
      else if e.rMajor > 1 then Success(PublicVersion(e) + ".post" + NatToString(e.rMajor))
      else Success(PublicVersion(e))
  {
    PythonBaseVersion(e);
  }

  /** The spellings of the small numbers the examples use. */
  lemma SmallNumbers()
    ensures NatToString(0) == "0" && NatToString(1) == "1" && NatToString(2) == "2"
    ensures NatToString(3) == "3" && NatToString(4) == "4" && NatToString(5) == "5"
  {
  }

  /**
   * The pre-release examples of the `python_version` comments: the release
   * major is dropped and the release minor numbers the pre-release.
   */
  lemma PythonPreReleaseExamples()
    ensures PythonVersion(Evr(0, 1, 2, 3, 0, 1, Some("alpha"))) == Success("1.2.3a1")
    ensures PythonVersion(Evr(0, 1, 2, 3, 0, 4, Some("beta"))) == Success("1.2.3b4")
    ensures PythonVersion(Evr(0, 1, 2, 3, 0, 5, Some("rc"))) == Success("1.2.3rc5")
  {
    SmallNumbers();
    var a, b, c := Evr(0, 1, 2, 3, 0, 1, Some("alpha")), Evr(0, 1, 2, 3, 0, 4, Some("beta")), Evr(0, 1, 2, 3, 0, 5, Some("rc"));
    PythonVersionIs(a);
    PythonVersionIs(b);
    PythonVersionIs(c);
    assert PublicVersion(a) == PublicVersion(b) == PublicVersion(c) == "1.2.3";
    assert "1.2.3" + "a" + "1" == "1.2.3a1";
    assert "1.2.3" + "b" + "4" == "1.2.3b4";
    assert "1.2.3" + "rc" + "5" == "1.2.3rc5";
  }

  /** `1.2.3-1` is `1.2.3`: release 1 adds nothing. */
  lemma PythonGaExample()
    ensures PythonVersion(Evr(0, 1, 2, 3, 1, 0, None)) == Success("1.2.3")
  {
    SmallNumbers();
    PythonVersionIs(Evr(0, 1, 2, 3, 1, 0, None));
    assert PublicVersion(Evr(0, 1, 2, 3, 1, 0, None)) == "1.2.3";
  }

  /** `1.2.0-1` is `1.2`: a zero patch is dropped. */
  lemma PythonZeroPatchExample()
    ensures PythonVersion(Evr(0, 1, 2, 0, 1, 0, None)) == Success("1.2")
  {
    SmallNumbers();
    PythonVersionIs(Evr(0, 1, 2, 0, 1, 0, None));
    assert PublicVersion(Evr(0, 1, 2, 0, 1, 0, None)) == "1.2";
  }

  /** `2:1.2.3-2` is `2!1.2.3.post2`: the code writes `.post` where the comments write `post`. */
  lemma PythonPostExample()
    ensures PythonVersion(Evr(2, 1, 2, 3, 2, 0, None)) == Success("2!1.2.3.post2")
  {
    SmallNumbers();
    var e := Evr(2, 1, 2, 3, 2, 0, None);
    PythonVersionIs(e);
    assert EpochPrefix(e) == "2!";
    assert PublicVersion(e) == "2!1.2.3";
    assert "2!1.2.3" + ".post" + "2" == "2!1.2.3.post2";
  }

  /**
   * `1.2.3-0.0.n<date>` is `1.2.3dev<date>`: the stage without its `n` follows
   * `dev`, which the code appends where the comments write `.dev`.
   */
  lemma PythonNightlyExample(date: string)
    ensures PythonVersion(Evr(0, 1, 2, 3, 0, 0, Some("n" + date))) == Success("1.2.3dev" + date)
  {
    SmallNumbers();
    var e := Evr(0, 1, 2, 3, 0, 0, Some("n" + date));
    PythonVersionIs(e);
    assert PublicVersion(e) == "1.2.3";
    assert ("n" + date)[1..] == date;
    assert "1.2.3" + "dev" + date == "1.2.3dev" + date;
  }

  // ---------------------------------------------------------------------------
  // Stage machine
  // ---------------------------------------------------------------------------

  /** none or nightly -> alpha -> beta -> rc -> none. */
  lemma StageMachine(n: string)
    requires |n| > 0 && n[0] == 'n'
    ensures NextStage(None) == Success(Some("alpha")) && NextStage(Some(n)) == Success(Some("alpha"))
    ensures NextStage(Some("alpha")) == Success(Some("beta"))
    ensures NextStage(Some("beta")) == Success(Some("rc"))
    ensures NextStage(Some("rc")) == Success(None)
  {
  }

  // ---------------------------------------------------------------------------
  // increment
  // ---------------------------------------------------------------------------

  /** `increment` re-parses through `copy()`, so it always fails on an alpha, beta or rc receiver. */
  lemma IncrementFailsOnPreRelease(e: Evr, req: IncrementRequest)
    requires e.rStage.Some? && e.rStage.value in PythonStageMap
    ensures Incremented(e, req) == Failure(StageNeedsZeroMajor)
  {
    PrintedVersionParses(e);
    var st := e.rStage.value;
    assert StageShape(st);
    ReleaseMatchesBack(e);
    EvrLayout.ReleaseNotNightly(e);
  }

  /** On a receiver that re-parses, `increment` works on the receiver's own fields. */
  lemma IncrementedOnOwnFields(e: Evr, req: IncrementRequest)
    requires Reparses(e)
    ensures Incremented(e, req) == IncrementedCopy(e, req)
  {
    CopyIsIdentity(e);
  }

  /** With no version flag, a target that resolves to GA (`None` or `''`) leaves every field as it was. */
  lemma IncrementNoOp(e: Evr, req: IncrementRequest)
    requires Reparses(e) && !BumpsVersion(req)
    requires TargetStage(e, req).Success? && !HasStage(TargetStage(e, req).value)
    ensures Incremented(e, req) == Success(e)
  {
    IncrementedOnOwnFields(e, req);
  }

  /**
   * With no version flag and a real target stage, the release becomes `0.<minor+1>`
   * and the stage changes only when `stage=True`.
   */
  lemma IncrementAdvancesRelease(e: Evr, req: IncrementRequest)
    requires Reparses(e) && !BumpsVersion(req)
    requires TargetStage(e, req).Success? && HasStage(TargetStage(e, req).value)
    ensures Incremented(e, req) == Success(e.(rMajor := 0, rMinor := e.rMinor + 1,
      rStage := if req.stage then TargetStage(e, req).value else e.rStage))
  {
    IncrementedOnOwnFields(e, req);
  }

  /**
   * A version flag moves up the highest requested component and zeroes those
   * below it; the epoch never changes; the release becomes `1` when a release is
   * forced or the target is GA, and `0.1.<target>` otherwise.
   */
  lemma IncrementBumpsVersion(e: Evr, req: IncrementRequest)
    requires Reparses(e) && BumpsVersion(req) && TargetStage(e, req).Success?
    ensures var t := TargetStage(e, req).value;
      var r := Incremented(e, req);
      r.Success? && r.value.epoch == e.epoch &&
      (if req.major then r.value.vMajor == e.vMajor + 1 && r.value.vMinor == 0 && r.value.vPatch == 0
       else if req.minor then r.value.vMajor == e.vMajor && r.value.vMinor == e.vMinor + 1 && r.value.vPatch == 0
       else r.value.vMajor == e.vMajor && r.value.vMinor == e.vMinor && r.value.vPatch == e.vPatch + 1) &&
      (if req.release || t.None? then r.value.rMajor == 1 && r.value.rMinor == 0
       else r.value.rMajor == 0 && r.value.rMinor == 1) &&
      r.value.rStage == t
  {
    IncrementedOnOwnFields(e, req);
  }

  /** On the copy: a version bump moves one of the three version fields up. */
  lemma BumpIsGreaterOnCopy(c: Evr, req: IncrementRequest)
    requires BumpsVersion(req) && TargetStage(c, req).Success?
    ensures IncrementedCopy(c, req).Success? && Less(c, IncrementedCopy(c, req).value) == Success(true)
  {
    var r := IncrementedCopy(c, req).value;
    var i := if req.major then 1 else if req.minor then 2 else 3;
    assert Fields(c)[i] < Fields(r)[i];
    LessWhenAnyFieldSmaller(c, r, i);
  }

  /** On the copy: advancing the release moves the release minor up. */
  lemma AdvanceIsGreaterOnCopy(c: Evr, req: IncrementRequest)
    requires !BumpsVersion(req) && TargetStage(c, req).Success? && HasStage(TargetStage(c, req).value)
    ensures IncrementedCopy(c, req).Success? && Less(c, IncrementedCopy(c, req).value) == Success(true)
  {
    var r := IncrementedCopy(c, req).value;
    assert Fields(c)[5] < Fields(r)[5];
    LessWhenAnyFieldSmaller(c, r, 5);
  }

  /** A version bump yields something above the receiver. */
  lemma BumpIsGreater(e: Evr, req: IncrementRequest)
    requires Reparses(e) && BumpsVersion(req) && TargetStage(e, req).Success?
    ensures Incremented(e, req).Success? && Less(e, Incremented(e, req).value) == Success(true)
  {
    IncrementedOnOwnFields(e, req);
    BumpIsGreaterOnCopy(e, req);
  }

  /** Advancing the release without a version bump yields something above the receiver. */
  lemma AdvanceIsGreater(e: Evr, req: IncrementRequest)
    requires Reparses(e) && !BumpsVersion(req)
    requires TargetStage(e, req).Success? && HasStage(TargetStage(e, req).value)
    ensures Incremented(e, req).Success? && Less(e, Incremented(e, req).value) == Success(true)
  {
    IncrementedOnOwnFields(e, req);
    AdvanceIsGreaterOnCopy(e, req);
  }

  /** Whatever it changes, `increment` yields the receiver itself or something `__lt__` puts above it. */
  lemma IncrementIsGreaterOrSame(e: Evr, req: IncrementRequest)
    requires Reparses(e)
    ensures var r := Incremented(e, req);
      r.Success? ==> r.value == e || Less(e, r.value) == Success(true)
  {
    var target := TargetStage(e, req);
    if target.Failure? {
      IncrementedOnOwnFields(e, req);
    } else if BumpsVersion(req) {
      BumpIsGreater(e, req);
    } else if HasStage(target.value) {
      AdvanceIsGreater(e, req);
    } else {
      IncrementNoOp(e, req);
    }
  }

  /** ... but a major bump is also below its receiver: `increment(major=True)` of `1.5.0-1` is `2.0.0-1`, and each is `<` the other. */
  lemma MajorBumpIsAlsoLess()
    ensures var e := Evr(0, 1, 5, 0, 1, 0, None);
      Incremented(e, IncrementRequest(true, false, false, false, false, None)) == Success(Evr(0, 2, 0, 0, 1, 0, None)) &&
      Less(e, Evr(0, 2, 0, 0, 1, 0, None)) == Success(true) && Less(Evr(0, 2, 0, 0, 1, 0, None), e) == Success(true)
  {
    var e := Evr(0, 1, 5, 0, 1, 0, None);
    IncrementBumpsVersion(e, IncrementRequest(true, false, false, false, false, None));
    LessIsNotLexicographic();
  }

  /**
   * The stage cycle breaks at its first step: `increment(stage=True)` of `1.2.3-1`
   * is `1.2.3-0.1.alpha`, and incrementing that fails because its copy is rejected.
   */
  lemma StageCycleBreaks()
    ensures var req := IncrementRequest(false, false, false, false, true, None);
      var alpha := Evr(0, 1, 2, 3, 0, 1, Some("alpha"));
      Incremented(Evr(0, 1, 2, 3, 1, 0, None), req) == Success(alpha) &&
      Incremented(alpha, req) == Failure(StageNeedsZeroMajor)
  {
    var req := IncrementRequest(false, false, false, false, true, None);
    IncrementAdvancesRelease(Evr(0, 1, 2, 3, 1, 0, None), req);
    IncrementFailsOnPreRelease(Evr(0, 1, 2, 3, 0, 1, Some("alpha")), req);
  }

  /**
   * Without an epoch and with a major of 10 or more, `increment` works on the
   * copy whose major's leading digits became the epoch.
   */
  lemma IncrementedOnResplitCopy(e: Evr, req: IncrementRequest)
    requires e.epoch == 0 && e.vMajor >= 10 && ReleaseReparses(e)
    ensures Incremented(e, req) == IncrementedCopy(e.(epoch := e.vMajor / 10, vMajor := e.vMajor % 10), req)
  {
    CopyResplitsLongMajor(e);
  }

  /**
   * So `increment` does move the epoch: `increment(patch=True)` of `0:10.2.0-1`
   * is `1:0.2.1-1`, and with no flag and no stage it gives `1:0.2.0-1`, not the receiver.
   */
  lemma IncrementMovesEpoch()
    ensures var e := Evr(0, 10, 2, 0, 1, 0, None);
      Incremented(e, IncrementRequest(false, false, true, false, false, None)) == Success(Evr(1, 0, 2, 1, 1, 0, None)) &&
      Incremented(e, IncrementRequest(false, false, false, false, false, None)) == Success(Evr(1, 0, 2, 0, 1, 0, None))
  {
    var e := Evr(0, 10, 2, 0, 1, 0, None);
    IncrementedOnResplitCopy(e, IncrementRequest(false, false, true, false, false, None));
    IncrementedOnResplitCopy(e, IncrementRequest(false, false, false, false, false, None));
  }
}
