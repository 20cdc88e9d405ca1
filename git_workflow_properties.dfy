/**
 * What `promotion_chain` promises about its result: the start of the chain,
 * which branches follow it and in which order, that the missing-branch exit
 * cannot be reached, and how long the chain is.
 */
module GitWorkflowProperties {
  import opened Wrappers
  import opened Decimal
  import opened GitWorkflow

  /** `x.y` read out of `s[i:i+a+1+b]`, `a` digits, a `.`, `b` more: its major text and its `LooseVersion`. */
  lemma VersionNumbersAt(s: string, i: nat, a: nat, b: nat, v: string)
    requires 0 < a && 0 < b && i + a + 1 + b <= |s| && DigitsLen(s, i) == a && s[i + a] == '.'
    requires v == s[i..i + a + 1 + b]
    ensures MajorText(v) == s[i..i + a]
    ensures VersionKey(v) == (RunValue(s, i, i + a), RunValue(s, i + a + 1, i + a + 1 + b))
  {
    var j, e := i + a, i + a + 1 + b;
    assert forall k :: 0 <= k < a ==> v[k] == s[i + k];
    assert v[a] == '.';
    DigitsLenOf(v, 0, a);
    RunValueSlice(s, i, e, i, j);
    RunValueSlice(s, i, e, j + 1, e);
  }

  /**
   * A matched version is the text of the two digit runs around the `.`; its major
   * text is the first run and its `LooseVersion` the pair of their values.
   */
  lemma BranchVersionNumbers(s: string, i: nat)
    requires i <= |s| && BranchAt(s, i).Some?
    ensures var a := DigitsLen(s, i); var b := DigitsLen(s, i + a + 1);
      var v := BranchAt(s, i).value.version;
      a > 0 && b > 0 && v == s[i..i + a + 1 + b] && MajorText(v) == s[i..i + a] &&
      VersionKey(v) == (RunValue(s, i, i + a), RunValue(s, i + a + 1, i + a + 1 + b))
  {
    var a := DigitsLen(s, i);
    var b := DigitsLen(s, i + a + 1);
    var v := BranchAt(s, i).value.version;
    assert v == s[i..i + a + 1 + b];
    VersionNumbersAt(s, i, a, b, v);
  }

  /** The versions of `all_branches`: those that some line names. */
  lemma {:induction false} AllVersionsAre(lines: seq<string>)
    ensures forall v :: v in AllVersions(lines) <==> exists i :: 0 <= i < |lines| && LineVersion(lines[i]) == Some(v)
    decreases |lines|
  {
    if lines != [] {
      var prev := lines[..|lines| - 1];
      AllVersionsAre(prev);
      assert forall i :: 0 <= i < |prev| ==> prev[i] == lines[i];
    }
  }

  /**
   * The candidate set: the versions some line names that are newer than the
   * source and share its major text, each once.
   */
  lemma {:induction false} CandidatesAre(lines: seq<string>, source: string)
    ensures forall v :: v in Candidates(lines, source) <==>
      exists i :: 0 <= i < |lines| && LineVersion(lines[i]) == Some(v) && IsTarget(v, source)
    ensures NoRepeats(Candidates(lines, source))
    decreases |lines|
  {
    if lines != [] {
      var prev := lines[..|lines| - 1];
      CandidatesAre(prev, source);
      assert forall i :: 0 <= i < |prev| ==> prev[i] == lines[i];
    }
  }

  /**
   * The merge-forward targets: the newer versions with the same major text that
   * some line names, each once, in non-decreasing `LooseVersion` order.
   */
  lemma TargetsAre(lines: seq<string>, source: string)
    ensures var t := SortVersions(Candidates(lines, source));
      (forall v :: v in t <==> exists i :: 0 <= i < |lines| && LineVersion(lines[i]) == Some(v) && IsTarget(v, source)) &&
      NoRepeats(t) && SortedByKey(t) &&
      forall k :: 0 <= k < |t| ==> KeyLess(VersionKey(source), VersionKey(t[k])) && MajorText(t[k]) == MajorText(source)
  {
    var c := Candidates(lines, source);
    var t := SortVersions(c);
    CandidatesAre(lines, source);
    SortVersionsSorted(c);
    forall v ensures v in t <==> v in c {
      assert v in t <==> v in multiset(t);
    }
    forall k | 0 <= k < |t| ensures IsTarget(t[k], source) {
      assert t[k] in c;
    }
  }

  /** Every target is a branch that was seen, so the missing-branch exit is never taken. */
  lemma NoMissingBranches(commitRef: string, parentBranch: Option<string>, skipMaster: bool, lines: seq<string>)
    ensures !(Chain(commitRef, parentBranch, skipMaster, lines).Failure? &&
              Chain(commitRef, parentBranch, skipMaster, lines).error.MissingBranches?)
  {
    var ref := Strip(commitRef);
    var seed := Seed(ref, parentBranch);
    var found := SearchBranch(seed[|seed| - 1], 0);
    if ref != "master" && found.Some? {
      var t := SortVersions(Candidates(lines, found.value.version));
      TargetsAre(lines, found.value.version);
      AllVersionsAre(lines);
      assert (set v | v in t) - AllVersions(lines) == {} by {
        forall v | v in t ensures v in AllVersions(lines) {
        }
      }
    }
  }

  /**
   * The outcomes: `master` alone for a master ref; otherwise an error exactly when
   * the last branch of the seed is not `x.y-dev` or `x.y-release`, naming it.
   */
  lemma ChainOutcomes(commitRef: string, parentBranch: Option<string>, skipMaster: bool, lines: seq<string>)
    ensures var r := Chain(commitRef, parentBranch, skipMaster, lines);
      var ref := Strip(commitRef); var seed := Seed(ref, parentBranch); var start := seed[|seed| - 1];
      (ref == "master" ==> r == Success(["master"])) &&
      (ref != "master" ==> (r.Failure? <==> SearchBranch(start, 0).None?)) &&
      (ref != "master" && r.Failure? ==> r.error == InvalidStartBranch(start))
  {
    NoMissingBranches(commitRef, parentBranch, skipMaster, lines);
  }

  /** Prefixing the branches of two lists is prefixing each list. */
  lemma WithRemoteAppend(a: seq<string>, b: seq<string>)
    ensures WithRemote(a + b) == WithRemote(a) + WithRemote(b)
  {
    var l, r := WithRemote(a + b), WithRemote(a) + WithRemote(b);
    forall i | 0 <= i < |l| ensures l[i] == r[i] {
      if i < |a| {
        assert r[i] == WithRemote(a)[i];
      } else {
        assert r[i] == WithRemote(b)[i - |a|];
      }
    }
  }

  /** The branches of the chain from a valid start, before the `origin/` prefix. */
  function Unprefixed(commitRef: string, parentBranch: Option<string>, skipMaster: bool, lines: seq<string>, m: BranchMatch):
    seq<string>
  {
    Seed(Strip(commitRef), parentBranch) + (if m.stream == Release then [m.version + "-dev"] else []) +
    DevBranches(SortVersions(Candidates(lines, m.version))) + (if skipMaster then [] else ["master"])
  }

  lemma ChainIsUnprefixed(commitRef: string, parentBranch: Option<string>, skipMaster: bool, lines: seq<string>, m: BranchMatch)
    requires Strip(commitRef) != "master"
    requires var seed := Seed(Strip(commitRef), parentBranch); SearchBranch(seed[|seed| - 1], 0) == Some(m)
    ensures Chain(commitRef, parentBranch, skipMaster, lines) == Success(WithRemote(Unprefixed(commitRef, parentBranch, skipMaster, lines, m)))
  {
    NoMissingBranches(commitRef, parentBranch, skipMaster, lines);
  }

  /**
   * The chain from a valid start, part by part: the seed; the start's own `-dev`
   * branch when it is a release branch; the targets as `-dev` branches in
   * `LooseVersion` order; `master` unless skipped; every one with the `origin/`
   * prefix.
   */
  lemma ChainLayout(commitRef: string, parentBranch: Option<string>, skipMaster: bool, lines: seq<string>, m: BranchMatch)
    requires Strip(commitRef) != "master"
    requires var seed := Seed(Strip(commitRef), parentBranch); SearchBranch(seed[|seed| - 1], 0) == Some(m)
    ensures Chain(commitRef, parentBranch, skipMaster, lines).Success?
    ensures var c := Chain(commitRef, parentBranch, skipMaster, lines).value;
      var seed := Seed(Strip(commitRef), parentBranch);
      var own := if m.stream == Release then [m.version + "-dev"] else [];
      var t := SortVersions(Candidates(lines, m.version));
      var tail := if skipMaster then [] else ["master"];
      c == WithRemote(seed) + WithRemote(own) + WithRemote(DevBranches(t)) + WithRemote(tail) &&
      |c| == |seed| + |own| + |t| + |tail|
  {
    var seed := Seed(Strip(commitRef), parentBranch);
    var own := if m.stream == Release then [m.version + "-dev"] else [];
    var t := SortVersions(Candidates(lines, m.version));
    var tail := if skipMaster then [] else ["master"];
    ChainIsUnprefixed(commitRef, parentBranch, skipMaster, lines, m);
    assert Unprefixed(commitRef, parentBranch, skipMaster, lines, m) == seed + own + DevBranches(t) + tail;
    WithRemoteAppend(seed + own + DevBranches(t), tail);
    WithRemoteAppend(seed + own, DevBranches(t));
    WithRemoteAppend(seed, own);
  }
}
