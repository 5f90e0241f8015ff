/** Which subjects of a cohort have every required file.

    The filesystem is a set of existing file paths; the directory listing
    of the cohort root is an input sequence (in whatever order the listing
    yields). */
module CheckFiles {
  import opened Text
  import opened Paths
  import FilesNames
  import opened SeqFacts

  /** A required file: the subject's T1 image, or a path relative to the
      subject's folder. */
  datatype Requirement = T1Image | RelPath(path: string)

  /** The entry "T1" in a files list stands for the subject's T1 image;
      any other entry is a relative path. */
  function Classify(entry: string): (r: Requirement)
    ensures r.T1Image? <==> entry == "T1"
    ensures r.RelPath? ==> r.path == entry
  {
    if entry == "T1" then T1Image else RelPath(entry)
  }

  /** The file a requirement names inside `dataDir/subject`. */
  function FileName(subject: string, req: Requirement): string {
    match req
    case T1Image => FilesNames.T1(subject)
    case RelPath(p) => p
  }

  /** The path tested for one entry of the files list. */
  function Resolve(dataDir: string, subject: string, entry: string): string {
    Join(Join(dataDir, subject), FileName(subject, Classify(entry)))
  }

  /** A subject qualifies when every entry resolves to an existing file. */
  predicate HasAll(dataDir: string, subject: string, filesList: seq<string>, existing: set<string>) {
    forall f :: f in filesList ==> Resolve(dataDir, subject, f) in existing
  }

  /** Checking one more entry of the files list. */
  lemma HasAllStep(dataDir: string, subject: string, filesList: seq<string>, j: nat, existing: set<string>)
    requires j < |filesList|
    ensures HasAll(dataDir, subject, filesList[..j + 1], existing)
        <==> HasAll(dataDir, subject, filesList[..j], existing) && Resolve(dataDir, subject, filesList[j]) in existing
  {
    assert filesList[..j + 1] == filesList[..j] + [filesList[j]];
  }

  /** The qualifying subjects, in listing order. */
  function Available(dataDir: string, subjects: seq<string>, filesList: seq<string>, existing: set<string>): seq<string> {
    if subjects == [] then []
    else
      (if HasAll(dataDir, subjects[0], filesList, existing) then [subjects[0]] else [])
      + Available(dataDir, subjects[1..], filesList, existing)
  }

  /** `a` is `b` with some elements dropped, the rest kept in order. */
  predicate IsSubsequence(a: seq<string>, b: seq<string>) {
    if a == [] then true
    else if b == [] then false
    else if a[0] == b[0] then IsSubsequence(a[1..], b[1..])
    else IsSubsequence(a, b[1..])
  }

  lemma {:induction false} AvailableAppend(dataDir: string, subjects: seq<string>, s: string, filesList: seq<string>, existing: set<string>)
    ensures Available(dataDir, subjects + [s], filesList, existing)
         == Available(dataDir, subjects, filesList, existing)
            + (if HasAll(dataDir, s, filesList, existing) then [s] else [])
  {
    if subjects != [] {
      var t := subjects + [s];
      var head := if HasAll(dataDir, subjects[0], filesList, existing) then [subjects[0]] else [];
      assert t[0] == subjects[0];
      assert t[1..] == subjects[1..] + [s];
      assert Available(dataDir, t, filesList, existing) == head + Available(dataDir, subjects[1..] + [s], filesList, existing);
      AvailableAppend(dataDir, subjects[1..], s, filesList, existing);
      assert Available(dataDir, subjects, filesList, existing) == head + Available(dataDir, subjects[1..], filesList, existing);
    } else {
      assert [s][1..] == [];
    }
  }

  /** The loop of check_files: for each subject, collect the entries whose
      resolved path exists and keep the subject when all were found. */
  method CheckFiles(dataDir: string, subjects: seq<string>, filesList: seq<string>, existing: set<string>)
    returns (kept: seq<string>)
    ensures kept == Available(dataDir, subjects, filesList, existing)
  {
    kept := [];
    var i := 0;
    while i < |subjects|
      invariant 0 <= i <= |subjects|
      invariant kept == Available(dataDir, subjects[..i], filesList, existing)
    {
      var subject := subjects[i];
      var subjectFiles: seq<string> := [];
      var j := 0;
      while j < |filesList|
        invariant 0 <= j <= |filesList|
        invariant |subjectFiles| <= j
        invariant |subjectFiles| == j <==> HasAll(dataDir, subject, filesList[..j], existing)
      {
        var file := filesList[j];
        var filePath := Resolve(dataDir, subject, file);
        HasAllStep(dataDir, subject, filesList, j, existing);
        if filePath in existing {
          subjectFiles := subjectFiles + [file];
        }
        j := j + 1;
      }
      WholePrefix(filesList);
      if |subjectFiles| == |filesList| {
        kept := kept + [subject];
      }
      PrefixStep(subjects, i);
      AvailableAppend(dataDir, subjects[..i], subject, filesList, existing);
      i := i + 1;
    }
    WholePrefix(subjects);
  }

  // -----------------------------------------------------------------------
  // Properties of the result.

  /** A subject is kept iff it is listed and has every required file. */
  lemma {:induction false} AvailableMembership(dataDir: string, subjects: seq<string>, filesList: seq<string>, existing: set<string>, s: string)
    ensures s in Available(dataDir, subjects, filesList, existing)
        <==> s in subjects && HasAll(dataDir, s, filesList, existing)
  {
    if subjects != [] {
      AvailableMembership(dataDir, subjects[1..], filesList, existing, s);
      assert subjects == [subjects[0]] + subjects[1..];
    }
  }

  /** The result keeps listing order and never sorts or repeats more than
      the listing does; hence it is no longer than the listing. */
  lemma {:induction false} AvailableIsSubsequence(dataDir: string, subjects: seq<string>, filesList: seq<string>, existing: set<string>)
    ensures IsSubsequence(Available(dataDir, subjects, filesList, existing), subjects)
    ensures |Available(dataDir, subjects, filesList, existing)| <= |subjects|
  {
    if subjects != [] {
      var rest := Available(dataDir, subjects[1..], filesList, existing);
      AvailableIsSubsequence(dataDir, subjects[1..], filesList, existing);
      if HasAll(dataDir, subjects[0], filesList, existing) {
        assert ([subjects[0]] + rest)[1..] == rest;
      } else {
        assert Available(dataDir, subjects, filesList, existing) == rest;
        SubsequenceDropHead(rest, subjects);
      }
    }
  }

  lemma {:induction false} SubsequenceDropHead(a: seq<string>, b: seq<string>)
    requires b != [] && IsSubsequence(a, b[1..])
    ensures IsSubsequence(a, b)
  {
    if a != [] && a[0] == b[0] {
      SubsequenceTail(a, b[1..]);
    }
  }

  lemma {:induction false} SubsequenceTail(a: seq<string>, b: seq<string>)
    requires a != [] && IsSubsequence(a, b)
    ensures IsSubsequence(a[1..], b)
  {
    if b != [] {
      if a[0] == b[0] {
        SubsequenceDropHead(a[1..], b);
      } else {
        SubsequenceTail(a, b[1..]);
        SubsequenceDropHead(a[1..], b);
      }
    }
  }

  /** With an empty files list every listed subject is returned. */
  lemma {:induction false} NoRequirementsKeepsAll(dataDir: string, subjects: seq<string>, existing: set<string>)
    ensures Available(dataDir, subjects, [], existing) == subjects
  {
    if subjects != [] {
      NoRequirementsKeepsAll(dataDir, subjects[1..], existing);
      assert subjects == [subjects[0]] + subjects[1..];
    }
  }

  /** Requiring more files can only remove subjects: the result for the
      larger files list is a subsequence of the result for the smaller. */
  lemma {:induction false} MoreRequirementsFewerSubjects(dataDir: string, subjects: seq<string>, fewer: seq<string>, more: seq<string>, existing: set<string>)
    requires forall f :: f in fewer ==> f in more
    ensures IsSubsequence(Available(dataDir, subjects, more, existing), Available(dataDir, subjects, fewer, existing))
  {
    if subjects != [] {
      var s := subjects[0];
      var restMore := Available(dataDir, subjects[1..], more, existing);
      var restFewer := Available(dataDir, subjects[1..], fewer, existing);
      MoreRequirementsFewerSubjects(dataDir, subjects[1..], fewer, more, existing);
      var keptMore := HasAll(dataDir, s, more, existing);
      var keptFewer := HasAll(dataDir, s, fewer, existing);
      assert keptMore ==> keptFewer;
      if keptMore {
        assert ([s] + restMore)[1..] == restMore;
        assert ([s] + restFewer)[1..] == restFewer;
      } else if keptFewer {
        assert Available(dataDir, subjects, more, existing) == restMore;
        SubsequenceDropHead(restMore, [s] + restFewer);
      } else {
        assert Available(dataDir, subjects, more, existing) == restMore;
        assert Available(dataDir, subjects, fewer, existing) == restFewer;
      }
    }
  }

  /** Only the set of entries matters: repeating or reordering entries of
      the files list leaves the result unchanged. */
  lemma {:induction false} DuplicatesIrrelevant(dataDir: string, subjects: seq<string>, a: seq<string>, b: seq<string>, existing: set<string>)
    requires forall f :: f in a <==> f in b
    ensures Available(dataDir, subjects, a, existing) == Available(dataDir, subjects, b, existing)
  {
    if subjects != [] {
      DuplicatesIrrelevant(dataDir, subjects[1..], a, b, existing);
      assert HasAll(dataDir, subjects[0], a, existing) == HasAll(dataDir, subjects[0], b, existing);
    }
  }

  /** The symbolic "T1" entry and the T1 file name spelled out resolve to
      the same path. */
  lemma T1EntryIsShorthand(dataDir: string, subject: string)
    ensures Resolve(dataDir, subject, "T1") == Resolve(dataDir, subject, FilesNames.T1(subject))
  {
    var n := FilesNames.T1(subject);
    assert n[..3] == "T1_";
    assert n != "T1";
  }
}
