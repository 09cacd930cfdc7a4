/** `blur_photo` (faceblur.py:64-69): decide whether a walked file is a photo to
    blur and, if so, which source file is read and which destination file is
    written. The call into `face_blur` itself is the `Task` returned here. */
module PhotoFiles {
  import opened PosixPath

  datatype Option<T> = None | Some(value: T)

  /** One unit of work handed to `face_blur`: read `source`, write `destination`. */
  datatype Task = Task(source: string, destination: string)

  /** The one extension the source accepts, compared case-sensitively. */
  const JpgExt: string := ".jpg"

  /** A file is processed exactly when `os.path.splitext` gives the literal ".jpg". */
  predicate Eligible(f: string) {
    SplitExt(f).1 == JpgExt
  }

  /** An eligible name ends in ".jpg" with a non-dot before it in its final component. */
  lemma EligibleHasSuffix(f: string)
    requires Eligible(f)
    ensures |f| >= 4 && f[|f| - 4..] == JpgExt
    ensures exists k :: LastIndex(f, Sep) < k < |f| - 4 && f[k] != ExtSep
  {
    SplitExtIff(f);
    SplitExtParts(f);
    assert f[|f| - 4..] == SplitExt(f).1;
    var k, d :| LastIndex(f, Sep) < k < d < |f| && f[k] != ExtSep && f[d] == ExtSep;
    assert f[|f| - 3] != ExtSep && f[|f| - 2] != ExtSep && f[|f| - 1] != ExtSep;
    assert k < |f| - 4;
  }

  /** A name ending in ".jpg" with a non-dot at `k` before it, in its final
      component, is eligible. */
  lemma SuffixIsEligible(f: string, k: int)
    requires |f| >= 4 && f[|f| - 4..] == JpgExt
    requires LastIndex(f, Sep) < k < |f| - 4 && f[k] != ExtSep
    ensures Eligible(f)
  {
    SplitExtIff(f);
    SplitExtParts(f);
    var ext := SplitExt(f).1;
    var n := |ext|;
    assert f[|f| - 4] == ExtSep;
    assert ext != [];
    assert f[|f| - n..] == ext;
    assert f[|f| - n] == ExtSep;
    assert f[|f| - 3] != ExtSep && f[|f| - 2] != ExtSep && f[|f| - 1] != ExtSep;
    assert n >= 4;
    assert ext[n - 4] == f[|f| - 4];
    assert n == 4;
  }

  /** Eligibility in terms of the name alone: it ends in ".jpg", and the final
      component has some character other than a dot before that suffix. */
  lemma EligibleIff(f: string)
    ensures Eligible(f) <==>
      |f| >= 4 && f[|f| - 4..] == JpgExt &&
      exists k :: LastIndex(f, Sep) < k < |f| - 4 && f[k] != ExtSep
  {
    if Eligible(f) {
      EligibleHasSuffix(f);
    }
    if |f| >= 4 && f[|f| - 4..] == JpgExt &&
      exists k :: LastIndex(f, Sep) < k < |f| - 4 && f[k] != ExtSep
    {
      var k :| LastIndex(f, Sep) < k < |f| - 4 && f[k] != ExtSep;
      SuffixIsEligible(f, k);
    }
  }

  /** Upper case, other spellings and a bare ".jpg" are skipped (a bare
      ".jpg" is all leading dots before its last dot, so it has no extension). */
  lemma SkippedExamples()
    ensures !Eligible(".jpg") && !Eligible("..jpg")
    ensures !Eligible("photo.JPG") && !Eligible("photo.jpeg")
  {
    EligibleIff(".jpg");
    EligibleIff("..jpg");
    EligibleIff("photo.JPG");
    EligibleIff("photo.jpeg");
  }

  /** A plain name ending in ".jpg" with a non-dot at position `k` before it is processed. */
  lemma EligibleName(f: string, k: nat)
    requires Sep !in f && |f| >= 4 && f[|f| - 4..] == JpgExt
    requires k < |f| - 4 && f[k] != ExtSep
    ensures Eligible(f)
  {
    LastIndexAt(f, Sep, -1);
    EligibleIff(f);
  }

  /** Ordinary names, hidden files and names with several dots are processed. */
  lemma ProcessedExamples()
    ensures Eligible("photo.jpg") && Eligible(".hidden.jpg") && Eligible("a.b.jpg")
  {
    var f, g, h := "photo.jpg", ".hidden.jpg", "a.b.jpg";
    assert f[|f| - 4..] == JpgExt && g[|g| - 4..] == JpgExt && h[|h| - 4..] == JpgExt;
    EligibleName(f, 0);
    EligibleName(g, 1);
    EligibleName(h, 0);
  }

  /** `blur_photo(root, new_root_path, f)`: no work for an ineligible file;
      otherwise read `root/f` and write `new_root_path/basename(f)`. */
  function BlurPhoto(root: string, newRoot: string, f: string): (t: Option<Task>)
    ensures t.Some? <==> Eligible(f)
  {
    if Eligible(f) then Some(Task(Join(root, f), Join(newRoot, Basename(f))))
    else None
  }

  /** The written file has the name of the file read. */
  lemma DestinationKeepsName(root: string, newRoot: string, f: string)
    requires Eligible(f)
    ensures Basename(BlurPhoto(root, newRoot, f).value.destination) == Basename(f)
  {
    BasenameOfJoin(newRoot, Basename(f));
  }

  /** For a plain file name in a directory that does not end in a separator,
      the task reads `root/f` and writes `newRoot/f`: the name is kept unchanged. */
  lemma TaskPaths(root: string, newRoot: string, f: string)
    requires Eligible(f) && Sep !in f
    requires |root| > 0 && root[|root| - 1] != Sep
    requires |newRoot| > 0 && newRoot[|newRoot| - 1] != Sep
    ensures BlurPhoto(root, newRoot, f) == Some(Task(root + [Sep] + f, newRoot + [Sep] + f))
  {
    assert f != [] by { EligibleIff(f); }
  }
}
