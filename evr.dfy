/**
 * The EVR value type of the release-engineering helpers: an RPM-style
 * epoch:major.minor.patch-release identifier, its parser (two regular
 * expressions matched at the start of the input), its string forms, its
 * hand-written ordering, the stage machine and `increment`.
 *
 * Everything here models the Python code as written, including the places
 * where it does not do what its comments say; EvrProperties proves those.
 */
module Evr {
  import opened Wrappers
  import opened Decimal

  /**
   * The fields of an `EVR` object. There is no invariant: the constructor
   * validates, but `increment` assigns fields of its copy directly and can
   * produce combinations the constructor would reject.
   */
  datatype Evr = Evr(
    epoch: nat,
    vMajor: nat, vMinor: nat, vPatch: nat,
    rMajor: nat, rMinor: nat, rStage: Option<string>)

  datatype EvrError =
    | NightlyWithoutCommit                     // ValueError: nightly release requested without a commit hash
    | InvalidEvr(version: string, release: string)  // ValueError raised for a regular expression that did not match
    | StageNeedsZeroMajor                      // ValueError: alpha/beta/rc stage rejected
    | GaNeedsPositiveMajor                     // ValueError: stage-less release with major 0
    | ReleaseNoMatch                           // the release expression did not match (AttributeError)
    | ReleaseNotAString                        // parse_release('nightly') hands a bool to re.match (TypeError)
    | MissingReleaseSeparator(evr: string)     // rsplit('-', 1) gave one part: unpacking fails (ValueError)
    | UnknownStage(stage: string)              // next_stage on a stage outside the machine (ValueError)
    | EmptyStageIndex                          // r_stage[0] on an empty stage (IndexError)
    | NoPythonStage(stage: string)             // _PYTHON_STAGE_MAP lookup failed (KeyError)

  /** `_PYTHON_STAGE_MAP`: the named pre-release stages and their PEP 440 spelling. */
  const PythonStageMap: map<string, string> := map["alpha" := "a", "beta" := "b", "rc" := "rc"]

  /** Python truthiness of `r_stage`: both `None` and `''` are false. */
  predicate HasStage(stage: Option<string>) {
    stage.Some? && stage.value != ""
  }

  // ---------------------------------------------------------------------------
  // EVR_VERSION_RE = (?P<epoch>\d+)?(?:\:?)(?P<major>\d+)\.(?P<minor>\d+)(?:\.?)(?P<patch>\d+)?
  // ---------------------------------------------------------------------------

  /** The groups of a successful `re.match(EVR_VERSION_RE, s)`. */
  datatype VersionGroups = VersionGroups(epoch: Option<nat>, major: nat, minor: nat, patch: Option<nat>)

  /** The four integers `parse_version` returns. */
  datatype VersionParts = VersionParts(epoch: nat, major: nat, minor: nat, patch: nat)

  /**
   * `(?P<major>\d+)\.(?P<minor>\d+)(?:\.?)(?P<patch>\d+)?` at position `p`.
   * No backtracking into `major` can help: a shorter run is followed by a digit,
   * never by the `.` the pattern needs. Nothing follows `patch`, so the greedy
   * choices for minor, the optional dot and patch are final.
   */
  function MatchCore(s: string, p: nat): Option<(nat, nat, Option<nat>)>
    requires p <= |s|
  {
    var a := DigitsLen(s, p);
    if a == 0 || p + a == |s| || s[p + a] != '.' then None
    else
      var q := p + a + 1;
      var b := DigitsLen(s, q);
      if b == 0 then None
      else
        var r := q + b;
        var r' := if r < |s| && s[r] == '.' then r + 1 else r;
        var c := DigitsLen(s, r');
        Some((RunValue(s, p, p + a), RunValue(s, q, r),
              if c == 0 then None else Some(RunValue(s, r', r' + c))))
  }

  /** `(?:\:?)` followed by the core at position `p`: the colon is tried consumed first. */
  function MatchAfterEpoch(s: string, p: nat): Option<(nat, nat, Option<nat>)>
    requires p <= |s|
  {
    if p < |s| && s[p] == ':' && MatchCore(s, p + 1).Some? then MatchCore(s, p + 1)
    else MatchCore(s, p)
  }

  /**
   * The backtracking over the optional epoch group: it first takes `k` digits for
   * `k` from the whole leading run down to 1, and only then leaves the group out.
   */
  function MatchEpoch(s: string, k: nat): Option<VersionGroups>
    requires k <= DigitsLen(s, 0)
    decreases k
  {
    if k == 0 then
      match MatchAfterEpoch(s, 0)
      case None => None
      case Some(t) => Some(VersionGroups(None, t.0, t.1, t.2))
    else
      match MatchAfterEpoch(s, k)
      case Some(t) => Some(VersionGroups(Some(RunValue(s, 0, k)), t.0, t.1, t.2))
      case None => MatchEpoch(s, k - 1)
  }

  /** `re.match(EVR_VERSION_RE, s)`: `None` when the expression does not match. */
  function MatchVersion(s: string): Option<VersionGroups> {
    MatchEpoch(s, DigitsLen(s, 0))
  }

  /** `parse_version`: a missing epoch or patch becomes 0. */
  function ParseVersion(s: string): Option<VersionParts> {
    match MatchVersion(s)
    case None => None
    case Some(g) =>
      Some(VersionParts(
        if g.epoch.None? then 0 else g.epoch.value, g.major, g.minor,
        if g.patch.None? then 0 else g.patch.value))
  }

  // ---------------------------------------------------------------------------
  // EVR_RELEASE_RE = (?P<major>\d+)(?:\.?)(?P<minor>\d+)?(?:\.?)(?P<stage>.+[^.])?
  // ---------------------------------------------------------------------------

  /** The groups of a successful `re.match(EVR_RELEASE_RE, s)`. */
  datatype ReleaseGroups = ReleaseGroups(major: nat, minor: Option<nat>, stage: Option<string>)

  /** The three values `parse_release` returns. */
  datatype ReleaseParts = ReleaseParts(major: nat, minor: nat, stage: Option<string>)

  /** The first position at or after `i` holding a newline (which `.` does not match), or `|s|`. */
  function LineEnd(s: string, i: nat): (e: nat)
    requires i <= |s|
    ensures i <= e <= |s|
    ensures e < |s| ==> s[e] == '\n'
    ensures forall k :: i <= k < e ==> s[k] != '\n'
    decreases |s| - i
  {
    if i == |s| || s[i] == '\n' then i else LineEnd(s, i + 1)
  }

  /**
   * Backtracking of `.+[^.]` started at `r`: `.+` covers `s[r..j]` and `[^.]`
   * (which does match a newline) must match `s[j]`; `j` is tried from the
   * longest line-internal run downwards. Returns the end of the captured text.
   */
  function StageEnd(s: string, r: nat, j: nat): (end: Option<nat>)
    requires r <= j <= |s|
    ensures end.Some? ==> r + 2 <= end.value <= |s|
    decreases j
  {
    if j == r then None
    else if j < |s| && s[j] != '.' then Some(j + 1)
    else StageEnd(s, r, j - 1)
  }

  /** The optional group `(?P<stage>.+[^.])?` at position `r`. */
  function MatchStage(s: string, r: nat): Option<string>
    requires r <= |s|
  {
    match StageEnd(s, r, LineEnd(s, r))
    case None => None
    case Some(end) => Some(s[r..end])
  }

  /**
   * `re.match(EVR_RELEASE_RE, s)`. Every group after `major` is optional and nothing
   * follows them, so the greedy choice for each is the one the match keeps.
   */
  function MatchRelease(s: string): Option<ReleaseGroups> {
    var a := DigitsLen(s, 0);
    if a == 0 then None
    else
      var p := if a < |s| && s[a] == '.' then a + 1 else a;
      var b := DigitsLen(s, p);
      var q := p + b;
      var r := if q < |s| && s[q] == '.' then q + 1 else q;
      Some(ReleaseGroups(RunValue(s, 0, a),
                         if b == 0 then None else Some(RunValue(s, p, q)),
                         MatchStage(s, r)))
  }

  /**
   * `parse_release`. The guard `major != '0'` compares an int with a str and is
   * always true, so any alpha/beta/rc stage is rejected whatever the major.
   */
  function ParseRelease(release: string): (r: Result<ReleaseParts, EvrError>)
    ensures r.Success? && r.value.stage.Some? ==> r.value.stage.value !in PythonStageMap
    ensures r.Success? && r.value.stage.None? ==> r.value.major >= 1
  {
    if release == "nightly" then Failure(ReleaseNotAString)
    else
      match MatchRelease(release)
      case None => Failure(ReleaseNoMatch)
      case Some(g) =>
        var minor := if g.minor.None? then 0 else g.minor.value;
        if HasStage(g.stage) then
          if g.stage.value in PythonStageMap then Failure(StageNeedsZeroMajor)
          else Success(ReleaseParts(g.major, minor, g.stage))
        else if g.major < 1 then Failure(GaNeedsPositiveMajor)
        else Success(ReleaseParts(g.major, minor, g.stage))
  }

  // ---------------------------------------------------------------------------
  // Construction
  // ---------------------------------------------------------------------------

  /** `_build_nightly_release`, with the `%Y%m%d%H%M` clock reading passed in. */
  function NightlyReleaseString(buildTime: string, commit: string): string {
    "0.0.n" + buildTime + "git" + commit[..if |commit| < 7 then |commit| else 7]
  }

  /**
   * `EVR(version, release, commit_hash)`. `buildTime` stands for the clock, read
   * only when `release` is the literal `nightly`.
   */
  function Construct(version: string, release: string, commit: Option<string>, buildTime: string):
    (r: Result<Evr, EvrError>)
    ensures r == Failure(NightlyWithoutCommit) <==> release == "nightly" && commit.None?
    ensures r.Success? && r.value.rStage.Some? ==> r.value.rStage.value !in PythonStageMap
    ensures r.Success? && r.value.rStage.None? ==> r.value.rMajor >= 1
  {
    if release == "nightly" && commit.None? then Failure(NightlyWithoutCommit)
    else
      var release' := if release == "nightly" then NightlyReleaseString(buildTime, commit.value) else release;
      match ParseVersion(version)
      case None => Failure(InvalidEvr(version, release'))
      case Some(v) =>
        match ParseRelease(release')
        case Failure(ReleaseNoMatch) => Failure(InvalidEvr(version, release'))
        case Failure(err) => Failure(err)
        case Success(rp) =>
          Success(Evr(v.epoch, v.major, v.minor, v.patch, rp.major, rp.minor, rp.stage))
  }

  /** The position of the last `-` in `s`, if any (what `rsplit('-', 1)` splits at). */
  function LastDash(s: string): (r: Option<nat>)
    ensures r.Some? ==> r.value < |s| && s[r.value] == '-' && '-' !in s[r.value + 1..]
    ensures r.None? ==> '-' !in s
  {
    if s == [] then None
    else if s[|s| - 1] == '-' then Some(|s| - 1)
    else
      var r := LastDash(s[..|s| - 1]);
      assert r.Some? ==> s[r.value + 1..] == s[..|s| - 1][r.value + 1..] + [s[|s| - 1]];
      assert r.None? ==> s == s[..|s| - 1] + [s[|s| - 1]];
      r
  }

  /** `EVR.fromstring`: split at the last `-`; no commit hash is passed on. */
  function FromString(s: string): Result<Evr, EvrError> {
    match LastDash(s)
    case None => Failure(MissingReleaseSeparator(s))
    case Some(i) => Construct(s[..i], s[i + 1..], None, "")
  }

  /** `EVR.lowest()`. */
  function Lowest(): Result<Evr, EvrError> {
    Construct("0.0", "0", None, "")
  }

  // ---------------------------------------------------------------------------
  // String forms
  // ---------------------------------------------------------------------------

  /** The `version` property: the epoch only when non-zero, the patch always. */
  function VersionString(e: Evr): string {
    var core := NatToString(e.vMajor) + "." + NatToString(e.vMinor) + "." + NatToString(e.vPatch);
    if e.epoch != 0 then NatToString(e.epoch) + ":" + core else core
  }

  /** The `release` property. */
  function ReleaseString(e: Evr): string {
    if HasStage(e.rStage) then NatToString(e.rMajor) + "." + NatToString(e.rMinor) + "." + e.rStage.value
    else if e.rMinor != 0 then NatToString(e.rMajor) + "." + NatToString(e.rMinor)
    else NatToString(e.rMajor)
  }

  /** The `dist_release` property: the release with the dist macro appended. */
  function DistRelease(e: Evr): string {
    ReleaseString(e) + "%{?dist}"
  }

  /** `str(evr)`: `version-release`. */
  function ToString(e: Evr): string {
    VersionString(e) + "-" + ReleaseString(e)
  }

  /** `copy()`: a new EVR built from the printed version and release. */
  function Copy(e: Evr): Result<Evr, EvrError> {
    Construct(VersionString(e), ReleaseString(e), None, "")
  }

  /** The `nightly_release` property. */
  predicate IsNightly(e: Evr) {
    HasStage(e.rStage) && e.rStage.value[0] == 'n'
  }

  /** The `tagged_release` property. */
  predicate IsTagged(e: Evr) {
    !IsNightly(e)
  }

  /** `str.replace(':', '!')`. */
  function ReplaceColons(s: string): (r: string)
    ensures |r| == |s|
  {
    if s == [] then [] else [if s[0] == ':' then '!' else s[0]] + ReplaceColons(s[1..])
  }

  /** The `python_version` property (PEP 440 public version). */
  function PythonVersion(e: Evr): Result<string, EvrError> {
    var v0 := ReplaceColons(VersionString(e));
    var v := if e.vPatch == 0 then v0[..|v0| - 2] else v0;
    if HasStage(e.rStage) then
      if IsNightly(e) then Success(v + "dev" + e.rStage.value[1..])
      else if e.rStage.value in PythonStageMap then
        Success(v + PythonStageMap[e.rStage.value] + NatToString(e.rMinor))
      else Failure(NoPythonStage(e.rStage.value))
    else if e.rMajor > 1 then Success(v + ".post" + NatToString(e.rMajor))
    else Success(v)
  }

  // ---------------------------------------------------------------------------
  // Comparison
  // ---------------------------------------------------------------------------

  /** The six integer components `__lt__` walks, in order. */
  function Fields(e: Evr): seq<nat> {
    [e.epoch, e.vMajor, e.vMinor, e.vPatch, e.rMajor, e.rMinor]
  }

  /** The loop of `__lt__`: true as soon as some component of `xs` is below that of `ys`. */
  function SomeFieldSmaller(xs: seq<nat>, ys: seq<nat>): (r: bool)
    requires |xs| == |ys|
    ensures r <==> exists i :: 0 <= i < |xs| && xs[i] < ys[i]
  {
    if xs == [] then false
    else if xs[0] < ys[0] then true
    else
      var r := SomeFieldSmaller(xs[1..], ys[1..]);
      assert forall i :: 1 <= i < |xs| ==> xs[1..][i - 1] == xs[i] && ys[1..][i - 1] == ys[i];
      r
  }

  /** Python's `<` on strings: code-point lexicographic order, a proper prefix being smaller. */
  predicate LexLess(a: string, b: string) {
    if b == [] then false
    else if a == [] then true
    else if a[0] != b[0] then a[0] < b[0]
    else LexLess(a[1..], b[1..])
  }

  /** The stage tie-break of `__lt__`, reached when no integer component is smaller. */
  function StageLess(a: Option<string>, b: Option<string>): Result<bool, EvrError> {
    if a == b then Success(false)
    else if a.None? then Success(false)
    else if b.None? then Success(true)
    else if a.value == "" || b.value == "" then Failure(EmptyStageIndex)
    else if a.value[0] == 'n' && b.value[0] != 'n' then Success(true)
    else if b.value[0] == 'n' && a.value[0] != 'n' then Success(false)
    else Success(LexLess(a.value, b.value))
  }

  /** `__lt__`. */
  function Less(a: Evr, b: Evr): Result<bool, EvrError> {
    if SomeFieldSmaller(Fields(a), Fields(b)) then Success(true)
    else StageLess(a.rStage, b.rStage)
  }

  /** `__eq__`: equality of `str()`. */
  predicate Equal(a: Evr, b: Evr) {
    ToString(a) == ToString(b)
  }

  // ---------------------------------------------------------------------------
  // Stage machine and increment
  // ---------------------------------------------------------------------------

  /** The stages `next_stage` knows: none, a nightly, alpha, beta and rc. */
  predicate KnownStage(stage: Option<string>) {
    stage.None? || (|stage.value| > 0 && stage.value[0] == 'n') ||
    stage.value == "alpha" || stage.value == "beta" || stage.value == "rc"
  }

  /** `next_stage`: none or nightly -> alpha -> beta -> rc -> none (GA). */
  function NextStage(stage: Option<string>): (r: Result<Option<string>, EvrError>)
    ensures r.Failure? <==> !KnownStage(stage)
  {
    if stage.None? || (|stage.value| > 0 && stage.value[0] == 'n') then Success(Some("alpha"))
    else if stage.value == "alpha" then Success(Some("beta"))
    else if stage.value == "beta" then Success(Some("rc"))
    else if stage.value == "rc" then Success(None)
    else Failure(UnknownStage(stage.value))
  }

  /** The keyword arguments of `increment`; `nextStage == None` means the argument was not passed. */
  datatype IncrementRequest = IncrementRequest(
    major: bool, minor: bool, patch: bool, release: bool, stage: bool, nextStage: Option<string>)

  predicate BumpsVersion(req: IncrementRequest) {
    req.major || req.minor || req.patch
  }

  /** The stage `increment` moves to: the explicit one, the next one, none for a release, or the current one. */
  function TargetStage(c: Evr, req: IncrementRequest): Result<Option<string>, EvrError> {
    if req.nextStage.Some? then Success(req.nextStage)
    else if req.stage then NextStage(c.rStage)
    else if req.release then Success(None)
    else Success(c.rStage)
  }

  /** The release part of the transition table: (`r_major`, `r_minor`, `r_stage`) after `increment`. */
  function ReleaseAfter(c: Evr, req: IncrementRequest, target: Option<string>): Evr {
    var released := req.release || target.None?;
    if BumpsVersion(req) then
      if released then c.(rMajor := 1, rMinor := 0, rStage := target)
      else c.(rMajor := 0, rMinor := 1, rStage := target)
    else if HasStage(target) then
      c.(rMajor := 0, rMinor := c.rMinor + 1, rStage := if req.stage then target else c.rStage)
    else c
  }

  /** The version part of the transition table: the highest requested component moves up. */
  function VersionAfter(r: Evr, req: IncrementRequest): Evr {
    if req.major then r.(vMajor := r.vMajor + 1, vMinor := 0, vPatch := 0)
    else if req.minor then r.(vMinor := r.vMinor + 1, vPatch := 0)
    else if req.patch then r.(vPatch := r.vPatch + 1)
    else r
  }

  /**
   * The transition table of `increment`, applied to the re-parsed copy `c`:
   * the version part and the release part are each chosen by one case split.
   */
  function Incremented(e: Evr, req: IncrementRequest): Result<Evr, EvrError> {
    match Copy(e)
    case Failure(err) => Failure(err)
    case Success(c) => IncrementedCopy(c, req)
  }

  /** The part of the transition table that works on the copy. */
  function IncrementedCopy(c: Evr, req: IncrementRequest): Result<Evr, EvrError> {
    match TargetStage(c, req)
    case Failure(err) => Failure(err)
    case Success(target) => Success(VersionAfter(ReleaseAfter(c, req, target), req))
  }

  /** `increment`, statement by statement on a local copy. */
  method Increment(e: Evr, req: IncrementRequest) returns (result: Result<Evr, EvrError>)
    ensures result == Incremented(e, req)
  {
    var copied := Copy(e);
    if copied.Failure? {
      return Failure(copied.error);
    }
    result := AdvanceCopy(copied.value, req);
  }

  /** The body of `increment` after `copy = self.copy()`: the assignments to the copy's fields. */
  method AdvanceCopy(c: Evr, req: IncrementRequest) returns (result: Result<Evr, EvrError>)
    ensures result == IncrementedCopy(c, req)
  {
    var copy := c;
    var release := req.release;
    var nextStage := req.nextStage;
    if nextStage.None? {
      if req.stage {
        var next := NextStage(copy.rStage);
        if next.Failure? {
          return Failure(next.error);
        }
        nextStage := next.value;
      } else if release {
        nextStage := None;
      } else {
        nextStage := copy.rStage;
      }
    }
    if nextStage.None? {
      release := true;
    }
    assert TargetStage(c, req) == Success(nextStage);
    assert release == (req.release || nextStage.None?);
    if req.major || req.minor || req.patch {
      if release {
        copy := copy.(rMajor := 1);
        copy := copy.(rMinor := 0);
      } else {
        copy := copy.(rMajor := 0);
        copy := copy.(rMinor := 1);
      }
      copy := copy.(rStage := nextStage);
      assert copy == ReleaseAfter(c, req, nextStage);
    }
    ghost var released := copy;
    if req.major {
      copy := copy.(vMajor := copy.vMajor + 1);
      copy := copy.(vMinor := 0, vPatch := 0);
      assert copy == VersionAfter(released, req);
    } else if req.minor {
      copy := copy.(vMinor := copy.vMinor + 1);
      copy := copy.(vPatch := 0);
      assert copy == VersionAfter(released, req);
    } else if req.patch {
      copy := copy.(vPatch := copy.vPatch + 1);
      assert copy == VersionAfter(released, req);
    } else if HasStage(nextStage) {
      copy := copy.(rMajor := 0);
      copy := copy.(rMinor := copy.rMinor + 1);
      if req.stage {
        copy := copy.(rStage := nextStage);
      }
      assert copy == ReleaseAfter(c, req, nextStage);
    }
    return Success(copy);
  }
}
