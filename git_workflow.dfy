/**
 * The branch promotion chain of the git workflow helpers: from a start branch
 * named `x.y-dev` or `x.y-release`, the branches a change is merged forward
 * through, and the check that every step has been merged.
 *
 * `git branch -r` is a parameter (its output lines) and `git log ^dest src` is
 * a function parameter giving the commits of `src` that `dest` lacks.
 */
module GitWorkflow {
  import opened Wrappers
  import opened Decimal

  // ---------------------------------------------------------------------------
  // str.strip()
  // ---------------------------------------------------------------------------

  /** The characters Python 2's `str.strip()` removes. */
  predicate IsSpace(c: char) {
    c == ' ' || c == '\t' || c == '\n' || c == '\r' || c as int == 11 || c as int == 12
  }

  function StripLeft(s: string): string {
    if s != [] && IsSpace(s[0]) then StripLeft(s[1..]) else s
  }

  function StripRight(s: string): string {
    if s != [] && IsSpace(s[|s| - 1]) then StripRight(s[..|s| - 1]) else s
  }

  /** `s.strip()`. */
  function Strip(s: string): string {
    StripRight(StripLeft(s))
  }

  /** `s.lstrip()` drops a leading run of whitespace and stops at the first other character. */
  lemma {:induction false} StripLeftIs(s: string) returns (i: nat)
    ensures i <= |s| && StripLeft(s) == s[i..]
    ensures forall k :: 0 <= k < i ==> IsSpace(s[k])
    ensures i == |s| || !IsSpace(s[i])
  {
    if s != [] && IsSpace(s[0]) {
      var j := StripLeftIs(s[1..]);
      i := j + 1;
      assert s[1..][j..] == s[i..];
      assert forall k :: 1 <= k < i ==> s[k] == s[1..][k - 1];
    } else {
      i := 0;
    }
  }

  /** `s.rstrip()` drops a trailing run of whitespace and stops at the last other character. */
  lemma {:induction false} StripRightIs(s: string) returns (j: nat)
    ensures j <= |s| && StripRight(s) == s[..j]
    ensures forall k :: j <= k < |s| ==> IsSpace(s[k])
    ensures j == 0 || !IsSpace(s[j - 1])
  {
    if s != [] && IsSpace(s[|s| - 1]) {
      j := StripRightIs(s[..|s| - 1]);
      assert s[..|s| - 1][..j] == s[..j];
      assert forall k :: j <= k < |s| - 1 ==> s[k] == s[..|s| - 1][k];
    } else {
      j := |s|;
    }
  }

  /**
   * `s.strip()` is the slice of `s` left after removing the whitespace at both
   * ends: what it cut off is whitespace, and it neither starts nor ends with any.
   */
  lemma StripIsSlice(s: string) returns (i: nat, j: nat)
    ensures i <= j <= |s| && Strip(s) == s[i..j]
    ensures forall k :: 0 <= k < i ==> IsSpace(s[k])
    ensures forall k :: j <= k < |s| ==> IsSpace(s[k])
    ensures Strip(s) == [] || (!IsSpace(Strip(s)[0]) && !IsSpace(Strip(s)[|Strip(s)| - 1]))
  {
    i := StripLeftIs(s);
    var t := s[i..];
    var j' := StripRightIs(t);
    j := i + j';
    assert t[..j'] == s[i..j];
    assert forall k :: j <= k < |s| ==> s[k] == t[k - i];
    if j' > 0 {
      assert forall k :: 0 <= k < j' ==> t[k] == s[i + k];
      if i == |s| {
        assert false;
      }
    }
  }

  // ---------------------------------------------------------------------------
  // (?P<version>\d+.\d+)-(?P<stream>dev|release), searched
  // ---------------------------------------------------------------------------

  datatype Stream = Dev | Release

  /** What a successful search yields: the `version` text and the `stream`. */
  datatype BranchMatch = BranchMatch(version: string, stream: Stream)

  /** Does `s` hold `w` at position `k`? */
  predicate HasAt(s: string, k: nat, w: string) {
    k + |w| <= |s| && s[k..k + |w|] == w
  }

  /**
   * The expression anchored at `i`, the separator between the two numbers read
   * as a literal `.`. Each `\d+` can only end where the run of digits ends, since
   * the character after it must be a `.` and a `-` respectively, and `dev` is
   * tried before `release`.
   */
  function BranchAt(s: string, i: nat): Option<BranchMatch>
    requires i <= |s|
  {
    var a := DigitsLen(s, i);
    if a == 0 || i + a == |s| || s[i + a] != '.' then None
    else
      var j := i + a + 1;
      var b := DigitsLen(s, j);
      if b == 0 || j + b == |s| || s[j + b] != '-' then None
      else match StreamAt(s, j + b + 1)
        case Some(stream) => Some(BranchMatch(s[i..j + b], stream))
        case None => None
  }

  /** The alternation `dev|release` at `k`, `dev` tried first. */
  function StreamAt(s: string, k: nat): Option<Stream> {
    if HasAt(s, k, "dev") then Some(Dev)
    else if HasAt(s, k, "release") then Some(Release)
    else None
  }

  /** `re.search`: the match at the leftmost position that has one. */
  function SearchBranch(s: string, i: nat): Option<BranchMatch>
    requires i <= |s|
    decreases |s| - i
  {
    match BranchAt(s, i)
    case Some(m) => Some(m)
    case None => if i == |s| then None else SearchBranch(s, i + 1)
  }

  /** A successful search yields the match at the leftmost position where there is one. */
  lemma {:induction false} SearchFinds(s: string, i: nat) returns (k: nat)
    requires i <= |s| && SearchBranch(s, i).Some?
    ensures i <= k <= |s| && BranchAt(s, k) == SearchBranch(s, i)
    ensures forall k' :: i <= k' < k ==> BranchAt(s, k').None?
    decreases |s| - i
  {
    if BranchAt(s, i).Some? {
      k := i;
    } else {
      k := SearchFinds(s, i + 1);
    }
  }

  /** A failed search means the expression matches at no position. */
  lemma {:induction false} SearchMisses(s: string, i: nat)
    requires i <= |s| && SearchBranch(s, i).None?
    ensures forall k :: i <= k <= |s| ==> BranchAt(s, k).None?
    decreases |s| - i
  {
    if i < |s| {
      SearchMisses(s, i + 1);
    }
  }

  // ---------------------------------------------------------------------------
  // Versions and LooseVersion
  // ---------------------------------------------------------------------------

  /** `version.split('.', 1)[0]`: the text of the major number, which the code compares as a string. */
  function MajorText(v: string): string {
    v[..DigitsLen(v, 0)]
  }

  /** `LooseVersion(v)` of a matched `x.y`: the pair of its two numbers. */
  function VersionKey(v: string): (nat, nat) {
    var a := DigitsLen(v, 0);
    (RunValue(v, 0, a), if a < |v| then RunValue(v, a + 1, |v|) else 0)
  }

  /** Comparison of `LooseVersion`s: lists of numbers, compared element by element. */
  predicate KeyLess(x: (nat, nat), y: (nat, nat)) {
    x.0 < y.0 || (x.0 == y.0 && x.1 < y.1)
  }

  predicate KeyLessEq(x: (nat, nat), y: (nat, nat)) {
    KeyLess(x, y) || x == y
  }

  /** A branch version is a merge-forward target of `source`: newer, with the same major text. */
  predicate IsTarget(v: string, source: string) {
    KeyLess(VersionKey(source), VersionKey(v)) && MajorText(v) == MajorText(source)
  }

  /** The version a line of `git branch -r` names, if any (the line is stripped first). */
  function LineVersion(line: string): Option<string> {
    var s := Strip(line);
    match SearchBranch(s, 0)
    case None => None
    case Some(m) => Some(m.version)
  }

  /** `target_branch_versions` after the first `|lines|` lines, in first-seen order and without repeats. */
  function Candidates(lines: seq<string>, source: string): seq<string>
    decreases |lines|
  {
    if lines == [] then []
    else
      var prev := Candidates(lines[..|lines| - 1], source);
      var lv := LineVersion(lines[|lines| - 1]);
      if lv.Some? && IsTarget(lv.value, source) && lv.value !in prev then prev + [lv.value] else prev
  }

  /** `all_branches` after the first `|lines|` lines. */
  function AllVersions(lines: seq<string>): set<string>
    decreases |lines|
  {
    if lines == [] then {}
    else
      var lv := LineVersion(lines[|lines| - 1]);
      AllVersions(lines[..|lines| - 1]) + if lv.Some? then {lv.value} else {}
  }

  // ---------------------------------------------------------------------------
  // sorted(..., key=LooseVersion)
  // ---------------------------------------------------------------------------

  /** Inserting `x`, which came before every element of `s`, ahead of the first element not below it. */
  function Insert(x: string, s: seq<string>): seq<string>
    decreases |s|
  {
    if s == [] || KeyLessEq(VersionKey(x), VersionKey(s[0])) then [x] + s
    else [s[0]] + Insert(x, s[1..])
  }

  /** A stable sort by `LooseVersion`. */
  function SortVersions(xs: seq<string>): seq<string>
    decreases |xs|
  {
    if xs == [] then [] else Insert(xs[0], SortVersions(xs[1..]))
  }

  predicate SortedByKey(s: seq<string>) {
    forall i, j :: 0 <= i < j < |s| ==> KeyLessEq(VersionKey(s[i]), VersionKey(s[j]))
  }

  lemma KeyLessEqTrans(x: (nat, nat), y: (nat, nat), z: (nat, nat))
    requires KeyLessEq(x, y) && KeyLessEq(y, z)
    ensures KeyLessEq(x, z)
  {
  }

  lemma {:induction false} InsertPermutes(x: string, s: seq<string>)
    ensures multiset(Insert(x, s)) == multiset([x] + s)
    decreases |s|
  {
    if !(s == [] || KeyLessEq(VersionKey(x), VersionKey(s[0]))) {
      InsertPermutes(x, s[1..]);
      assert s == [s[0]] + s[1..];
    }
  }

  /** Everything `Insert(x, s)` holds is `x` or an element of `s`. */
  lemma InsertFrom(x: string, s: seq<string>, k: nat)
    requires k < |Insert(x, s)|
    ensures Insert(x, s)[k] == x || Insert(x, s)[k] in s
  {
    InsertPermutes(x, s);
    assert Insert(x, s)[k] in multiset([x] + s);
  }

  lemma {:induction false} InsertSorted(x: string, s: seq<string>)
    requires SortedByKey(s)
    ensures SortedByKey(Insert(x, s))
    decreases |s|
  {
    if s == [] || KeyLessEq(VersionKey(x), VersionKey(s[0])) {
      var r := [x] + s;
      forall i, j | 0 <= i < j < |r| ensures KeyLessEq(VersionKey(r[i]), VersionKey(r[j])) {
        if i == 0 && j > 1 {
          KeyLessEqTrans(VersionKey(x), VersionKey(s[0]), VersionKey(s[j - 1]));
        }
      }
    } else {
      var tail := s[1..];
      assert SortedByKey(tail) by {
        forall i, j | 0 <= i < j < |tail| ensures KeyLessEq(VersionKey(tail[i]), VersionKey(tail[j])) {
          assert tail[i] == s[i + 1] && tail[j] == s[j + 1];
        }
      }
      InsertSorted(x, tail);
      var t := Insert(x, tail);
      forall k | 0 <= k < |t| ensures KeyLessEq(VersionKey(s[0]), VersionKey(t[k])) {
        InsertFrom(x, tail, k);
      }
      var r := [s[0]] + t;
      forall i, j | 0 <= i < j < |r| ensures KeyLessEq(VersionKey(r[i]), VersionKey(r[j])) {
        assert r[j] == t[j - 1];
        if i > 0 {
          assert r[i] == t[i - 1];
        }
      }
    }
  }

  /** `sorted` gives a permutation of its input in non-decreasing `LooseVersion` order. */
  lemma {:induction false} SortVersionsSorted(xs: seq<string>)
    ensures SortedByKey(SortVersions(xs)) && multiset(SortVersions(xs)) == multiset(xs)
    decreases |xs|
  {
    if xs != [] {
      SortVersionsSorted(xs[1..]);
      InsertSorted(xs[0], SortVersions(xs[1..]));
      InsertPermutes(xs[0], SortVersions(xs[1..]));
      assert xs == [xs[0]] + xs[1..];
    }
  }

  // ---------------------------------------------------------------------------
  // promotion_chain
  // ---------------------------------------------------------------------------

  datatype ChainError =
    | InvalidStartBranch(ref: string)    // the start ref is not x.y-dev / x.y-release (raises AttributeError)
    | MissingBranches(versions: set<string>)  // sys.exit(1) after printing the missing versions
    | EmptyChain                         // next() on an empty chain raises StopIteration
    | NotMerged(directory: string, src: string, dest: string)  // RuntimeError naming the pair

  /** The chain before the discovered branches: the start ref, then the parent branch when one is given. */
  function Seed(ref: string, parentBranch: Option<string>): (r: seq<string>)
    ensures |r| >= 1 && r[0] == ref
  {
    if parentBranch.Some? && parentBranch.value != "" then [ref, parentBranch.value] else [ref]
  }

  function DevBranches(versions: seq<string>): (r: seq<string>)
    ensures |r| == |versions| && forall i :: 0 <= i < |r| ==> r[i] == versions[i] + "-dev"
  {
    seq(|versions|, i requires 0 <= i < |versions| => versions[i] + "-dev")
  }

  function WithRemote(chain: seq<string>): (r: seq<string>)
    ensures |r| == |chain| && forall i :: 0 <= i < |r| ==> r[i] == "origin/" + chain[i]
  {
    seq(|chain|, i requires 0 <= i < |chain| => "origin/" + chain[i])
  }

  /** The chain `promotion_chain` computes, as one expression. */
  function Chain(commitRef: string, parentBranch: Option<string>, skipMaster: bool, lines: seq<string>):
    Result<seq<string>, ChainError>
  {
    var ref := Strip(commitRef);
    if ref == "master" then Success(["master"])
    else
      var seed := Seed(ref, parentBranch);
      var start := seed[|seed| - 1];
      match SearchBranch(start, 0)
      case None => Failure(InvalidStartBranch(start))
      case Some(m) =>
        var targets := SortVersions(Candidates(lines, m.version));
        var missing := (set v | v in targets) - AllVersions(lines);
        if missing != {} then Failure(MissingBranches(missing))
        else
          Success(WithRemote(
            seed + (if m.stream == Release then [m.version + "-dev"] else []) +
            DevBranches(targets) + (if skipMaster then [] else ["master"])))
  }

  /** `promotion_chain`, statement by statement. */
  method PromotionChain(commitRef: string, parentBranch: Option<string>, skipMaster: bool, lines: seq<string>)
    returns (r: Result<seq<string>, ChainError>)
    ensures r == Chain(commitRef, parentBranch, skipMaster, lines)
  {
    var ref := Strip(commitRef);
    if ref == "master" {
      return Success(["master"]);
    }
    var chain := Seed(ref, parentBranch);
    ghost var seed := chain;
    var start := chain[|chain| - 1];
    var found := SearchBranch(start, 0);
    if found.None? {
      return Failure(InvalidStartBranch(start));
    }
    var source := found.value.version;
    if found.value.stream == Release {
      chain := chain + [source + "-dev"];
    }
    assert chain == seed + if found.value.stream == Release then [source + "-dev"] else [];
    var targets: seq<string> := [];
    var all: set<string> := {};
    var i := 0;
    while i < |lines|
      invariant 0 <= i <= |lines|
      invariant targets == Candidates(lines[..i], source)
      invariant all == AllVersions(lines[..i])
    {
      assert lines[..i + 1][..i] == lines[..i];
      var branch := Strip(lines[i]);
      var m := SearchBranch(branch, 0);
      if m.Some? {
        var version := m.value.version;
        all := all + {version};
        if KeyLess(VersionKey(source), VersionKey(version)) && MajorText(version) == MajorText(source) {
          if version !in targets {
            targets := targets + [version];
          }
        }
      }
      i := i + 1;
    }
    assert lines[..|lines|] == lines;
    var sorted := SortVersions(targets);
    chain := chain + DevBranches(sorted);
    var missing := (set v | v in sorted) - all;
    if missing != {} {
      return Failure(MissingBranches(missing));
    }
    ghost var withTargets := chain;
    if !skipMaster {
      chain := chain + ["master"];
    }
    assert chain == withTargets + if skipMaster then [] else ["master"];
    r := Success(WithRemote(chain));
  }

  // ---------------------------------------------------------------------------
  // generate_promotion_pairs and check_merge_forward
  // ---------------------------------------------------------------------------

  /** `zip(src, dest)` after `next(dest)`: consecutive pairs; `next` on an empty chain raises. */
  function Pairs(chain: seq<string>): Result<seq<(string, string)>, ChainError> {
    if chain == [] then Failure(EmptyChain) else Success(Zip(chain[..|chain| - 1], chain[1..]))
  }

  function Zip(xs: seq<string>, ys: seq<string>): seq<(string, string)>
    requires |xs| == |ys|
    decreases |xs|
  {
    if xs == [] then [] else [(xs[0], ys[0])] + Zip(xs[1..], ys[1..])
  }

  lemma {:induction false} ZipAt(xs: seq<string>, ys: seq<string>)
    requires |xs| == |ys|
    ensures |Zip(xs, ys)| == |xs| && forall i :: 0 <= i < |xs| ==> Zip(xs, ys)[i] == (xs[i], ys[i])
    decreases |xs|
  {
    if xs != [] {
      ZipAt(xs[1..], ys[1..]);
      var z := Zip(xs, ys);
      assert forall i :: 1 <= i < |xs| ==> z[i] == Zip(xs[1..], ys[1..])[i - 1];
    }
  }

  /** A chain of `n >= 1` branches gives exactly the `n - 1` pairs `(c[i], c[i + 1])`, in order. */
  lemma PairsAreConsecutive(chain: seq<string>)
    requires chain != []
    ensures Pairs(chain).Success?
    ensures var p := Pairs(chain).value;
      |p| == |chain| - 1 && forall i :: 0 <= i < |p| ==> p[i] == (chain[i], chain[i + 1])
  {
    ZipAt(chain[..|chain| - 1], chain[1..]);
  }

  /** Every pair of the chain is merged, up to pair `k`. */
  predicate MergedUpTo(chain: seq<string>, unmerged: (string, string) -> seq<string>, k: nat)
    requires k < |chain|
  {
    forall i :: 0 <= i < k ==> unmerged(chain[i], chain[i + 1]) == []
  }

  /** What `check_merge_forward` reports for a chain. */
  function MergeCheck(directory: string, chain: seq<string>, unmerged: (string, string) -> seq<string>):
    Outcome<ChainError>
  {
    if chain == [] then Fail(EmptyChain)
    else FirstUnmerged(directory, chain, unmerged, 0)
  }

  /** The report for the pairs from position `i` on. */
  function FirstUnmerged(directory: string, chain: seq<string>, unmerged: (string, string) -> seq<string>, i: nat):
    Outcome<ChainError>
    requires i < |chain|
    decreases |chain| - i
  {
    if i == |chain| - 1 then Pass
    else if unmerged(chain[i], chain[i + 1]) != [] then Fail(NotMerged(directory, chain[i], chain[i + 1]))
    else FirstUnmerged(directory, chain, unmerged, i + 1)
  }

  /**
   * `check_merge_forward`: `git log ^dest src` over the pairs in order; the first
   * pair whose source has commits the destination lacks raises, naming both.
   */
  method CheckMergeForward(directory: string, chain: seq<string>, unmerged: (string, string) -> seq<string>)
    returns (r: Outcome<ChainError>)
    ensures r == MergeCheck(directory, chain, unmerged)
  {
    var pairs := Pairs(chain);
    if pairs.Failure? {
      return Fail(pairs.error);
    }
    PairsAreConsecutive(chain);
    var p := pairs.value;
    var i := 0;
    while i < |p|
      invariant 0 <= i <= |p| && |p| == |chain| - 1
      invariant MergeCheck(directory, chain, unmerged) == FirstUnmerged(directory, chain, unmerged, i)
    {
      var (src, dest) := p[i];
      if unmerged(src, dest) != [] {
        return Fail(NotMerged(directory, src, dest));
      }
      i := i + 1;
    }
    return Pass;
  }

  /**
   * The check passes exactly when no pair has unmerged commits; otherwise it
   * names the first pair that has.
   */
  lemma {:induction false} FirstUnmergedIs(directory: string, chain: seq<string>, unmerged: (string, string) -> seq<string>, i: nat)
    requires i < |chain|
    ensures FirstUnmerged(directory, chain, unmerged, i) == Pass <==>
      forall k :: i <= k < |chain| - 1 ==> unmerged(chain[k], chain[k + 1]) == []
    ensures FirstUnmerged(directory, chain, unmerged, i).Fail? ==> exists k :: (i <= k < |chain| - 1 &&
      (forall k' :: i <= k' < k ==> unmerged(chain[k'], chain[k' + 1]) == []) &&
      unmerged(chain[k], chain[k + 1]) != [] &&
      FirstUnmerged(directory, chain, unmerged, i) == Fail(NotMerged(directory, chain[k], chain[k + 1])))
    decreases |chain| - i
  {
    if i < |chain| - 1 && unmerged(chain[i], chain[i + 1]) == [] {
      FirstUnmergedIs(directory, chain, unmerged, i + 1);
    }
  }

  lemma MergeCheckIsFirstFailure(directory: string, chain: seq<string>, unmerged: (string, string) -> seq<string>)
    ensures chain == [] ==> MergeCheck(directory, chain, unmerged) == Fail(EmptyChain)
    ensures chain != [] ==> (MergeCheck(directory, chain, unmerged) == Pass <==> MergedUpTo(chain, unmerged, |chain| - 1))
    ensures chain != [] && MergeCheck(directory, chain, unmerged).Fail? ==> exists k :: (0 <= k < |chain| - 1 &&
      MergedUpTo(chain, unmerged, k) && unmerged(chain[k], chain[k + 1]) != [] &&
      MergeCheck(directory, chain, unmerged) == Fail(NotMerged(directory, chain[k], chain[k + 1])))
  {
    if chain != [] {
      FirstUnmergedIs(directory, chain, unmerged, 0);
    }
  }
}
