/**
 * Where the fields of an EVR lie in its printed forms (`version`, `release`,
 * `str()`), stated as positions so that the parsing lemmas can work on an
 * abstract string.
 */
module EvrLayout {
  import opened Decimal
  import opened Evr
  import Layout

  /** With an epoch: `E:M.m.P`. */
  lemma VersionWithEpoch(e: Evr)
    requires e.epoch != 0
    ensures var s, E := VersionString(e), NatToString(e.epoch);
      var M, m, P := NatToString(e.vMajor), NatToString(e.vMinor), NatToString(e.vPatch);
      var p := |E| + 1;
      s[0..|E|] == E && s[|E|] == ':' && Layout.Dotted3At(s, p, p + |M| + 1, p + |M| + |m| + 2, M, m, P)
  {
    var M, m, P := NatToString(e.vMajor), NatToString(e.vMinor), NatToString(e.vPatch);
    Layout.PrefixedDotted3(NatToString(e.epoch), ':', M, m, P);
  }

  /** Without an epoch: `M.m.P`. */
  lemma VersionWithoutEpoch(e: Evr)
    requires e.epoch == 0
    ensures var M, m, P := NatToString(e.vMajor), NatToString(e.vMinor), NatToString(e.vPatch);
      Layout.Dotted3At(VersionString(e), 0, |M| + 1, |M| + |m| + 2, M, m, P)
  {
    Layout.Dotted3(NatToString(e.vMajor), NatToString(e.vMinor), NatToString(e.vPatch));
  }

  /** With a (non-empty) stage: `A.B.stage`. */
  lemma ReleaseWithStage(e: Evr)
    requires HasStage(e.rStage)
    ensures var A, B := NatToString(e.rMajor), NatToString(e.rMinor);
      Layout.Dotted3At(ReleaseString(e), 0, |A| + 1, |A| + |B| + 2, A, B, e.rStage.value)
  {
    Layout.Dotted3(NatToString(e.rMajor), NatToString(e.rMinor), e.rStage.value);
  }

  /** Without a stage and with a minor: `A.B`. */
  lemma ReleaseWithMinor(e: Evr)
    requires !HasStage(e.rStage) && e.rMinor != 0
    ensures Layout.Dotted2At(ReleaseString(e), |NatToString(e.rMajor)| + 1, NatToString(e.rMajor), NatToString(e.rMinor))
  {
    Layout.Dotted2(NatToString(e.rMajor), NatToString(e.rMinor));
  }

  /** A printed release starts with a digit, so it is never the literal `nightly`. */
  lemma ReleaseNotNightly(e: Evr)
    ensures ReleaseString(e) != "nightly"
  {
    var A := NatToString(e.rMajor);
    NatToStringDigits(e.rMajor);
    assert ReleaseString(e)[0] == A[0];
  }

  /** `str(e)` is the version, a `-`, then the release. */
  lemma Dashed(e: Evr)
    ensures var s, v, r := ToString(e), VersionString(e), ReleaseString(e);
      |s| == |v| + 1 + |r| && s[0..|v|] == v && s[|v|] == '-' && s[|v| + 1..|s|] == r
  {
    Layout.AfterSeparator(VersionString(e), '-', ReleaseString(e));
  }

  /** The printed version never holds a `-`. */
  lemma NoDashInVersion(e: Evr)
    ensures '-' !in VersionString(e)
  {
    NoSeparatorIn(e.epoch, '-');
    NoSeparatorIn(e.vMajor, '-');
    NoSeparatorIn(e.vMinor, '-');
    NoSeparatorIn(e.vPatch, '-');
  }

  /** The printed release holds a `-` only where its stage does. */
  lemma NoDashInRelease(e: Evr)
    requires HasStage(e.rStage) ==> '-' !in e.rStage.value
    ensures '-' !in ReleaseString(e)
  {
    NoSeparatorIn(e.rMajor, '-');
    NoSeparatorIn(e.rMinor, '-');
  }
}
