/** File names of the derived images inside a subject's folder. Apart from
    `T1`, these are plain constants with no behaviour. */
module FilesNames {
  import opened Wrappers
  import opened Text

  // Diffusion tensor maps.
  const FA: string := "dti_FA.nii.gz"
  const MD: string := "dti_MD.nii.gz"
  const L1: string := "dti_L1.nii.gz"
  const L2: string := "dti_L2.nii.gz"
  const L3: string := "dti_L3.nii.gz"

  // FSL segmentations (folder 'FSL'); the linear+nonlinear one keeps the
  // repository's ".niinge" extension as written.
  const FSLseg: string := "FSLmask_reg2_S0_linear.nii.gz"
  const FSLsegLnl: string := "FSLmask_reg2_S0_linearnlinear.niinge"
  const FSLsegOrig: string := "T1_first_all_fast_firstseg_orig.nii.gz"
  const FSLsegMne: string := "T1_first_all_fast_firstseg.nii.gz"

  // FreeSurfer segmentations (folder 'FreeSurfer').
  const FSseg: string := "aparc+aseg_diffspace_linear_BETfree.nii.gz"
  const FSsegLnl: string := "aparc+aseg_diffspace_linearnlinear_BETfree.nii.gz"
  const FSsegOrig: string := "aparc+aseg_origspace.nii.gz"
  const FSsegMne: string := "aparc+aseg.nii.gz"

  const T1Prefix: string := "T1_"
  const T1Suffix: string := ".nii.gz"

  /** The name of a subject's T1 image. */
  function T1(subject: string): string {
    T1Prefix + subject + T1Suffix
  }

  /** A T1 name starts with "T1_", ends with ".nii.gz" and is ten
      characters longer than the subject. */
  lemma T1Shape(subject: string)
    ensures StartsWith(T1(subject), "T1_") && EndsWith(T1(subject), ".nii.gz")
    ensures |T1(subject)| == |subject| + 10
  {
    var r := T1(subject);
    assert r[..3] == T1Prefix;
    assert r[|r| - 7..] == T1Suffix;
  }

  /** Recovers the subject from a T1 image name, if it is one. */
  function SubjectOfT1(name: string): (r: Option<string>)
    ensures r.Some? ==> T1(r.value) == name
    ensures r.None? ==> !StartsWith(name, "T1_") || !EndsWith(name, ".nii.gz") || |name| < 10
  {
    if |name| >= 10 && StartsWith(name, T1Prefix) && EndsWith(name, T1Suffix) then
      var s := name[3..|name| - 7];
      assert name == name[..3] + s + name[|name| - 7..];
      Some(s)
    else None
  }

  /** Round trip: the subject can always be read back from its T1 name. */
  lemma T1RoundTrip(subject: string)
    ensures SubjectOfT1(T1(subject)) == Some(subject)
  {
    var n := T1(subject);
    assert n[3..|n| - 7] == subject;
  }

  /** Distinct subjects get distinct T1 names. */
  lemma T1Injective(a: string, b: string)
    requires T1(a) == T1(b)
    ensures a == b
  {
    T1RoundTrip(a);
    T1RoundTrip(b);
  }
}
