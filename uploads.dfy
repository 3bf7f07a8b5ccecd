/** The upload filename check `allowed_file`, identical in both back-ends. */
module Uploads {
  import opened PyStr

  const ALLOWED_EXTENSIONS: set<string> := {"png", "jpg", "jpeg", "gif", "bmp", "webp"}

  /** `'.' in f and f.rsplit('.', 1)[1].lower() in ALLOWED_EXTENSIONS`. */
  predicate AllowedFile(f: string)
    ensures AllowedFile(f) ==> '.' in f && 3 <= |Extension(f)| <= 4 && |Extension(f)| < |f|
  {
    '.' in f && Extension(f) in ALLOWED_EXTENSIONS
  }

  /** `f.rsplit('.', 1)[1].lower()`: the lower-cased text after the last dot, which holds no dot. */
  function Extension(f: string): (e: string)
    requires '.' in f
    ensures '.' !in e && |e| < |f|
  {
    Lower(f[LastIndexOf(f, '.') + 1..])
  }

  /** `i` is the position of the last dot of `f`. */
  predicate LastDotAt(f: string, i: int) {
    0 <= i < |f| && f[i] == '.' && '.' !in f[i + 1..]
  }

  /** The extension is what follows the last dot, compared case-insensitively. */
  lemma AllowedFileIff(f: string)
    ensures AllowedFile(f) <==> exists i :: LastDotAt(f, i) && Lower(f[i + 1..]) in ALLOWED_EXTENSIONS
  {
    if AllowedFile(f) {
      assert LastDotAt(f, LastIndexOf(f, '.'));
    }
    forall i | LastDotAt(f, i) && Lower(f[i + 1..]) in ALLOWED_EXTENSIONS
      ensures AllowedFile(f)
    {
      LastDotUnique(f, i);
    }
  }

  /** A dot with no dot after it is the one `rsplit('.', 1)` splits at. */
  lemma LastDotUnique(f: string, i: int)
    requires LastDotAt(f, i)
    ensures LastIndexOf(f, '.') == i
  {
  }

  /** A name built as stem, dot, extension is accepted exactly when the lower-cased extension is allowed. */
  lemma AllowedFileJoin(stem: string, ext: string)
    requires '.' !in ext
    ensures AllowedFile(stem + "." + ext) <==> Lower(ext) in ALLOWED_EXTENSIONS
  {
    var f := stem + "." + ext;
    assert f[|stem|] == '.';
    assert f[|stem| + 1..] == ext;
    assert LastDotAt(f, |stem|);
    LastDotUnique(f, |stem|);
  }

  /** A name without a dot is never accepted, whatever it spells. */
  lemma AllowedFileNeedsDot(f: string)
    requires '.' !in f
    ensures !AllowedFile(f)
  {
  }

  /** Upper and lower case are accepted alike. */
  lemma AllowedFileCaseInsensitive(f: string)
    ensures AllowedFile(Lower(f)) <==> AllowedFile(f)
  {
    LowerKeepsDots(f);
    if '.' in f {
      LowerKeepsExtension(f, LastIndexOf(f, '.'));
    }
  }

  /** Lower-casing a name leaves its last dot where it was and its lower-cased extension as it was. */
  lemma LowerKeepsExtension(f: string, i: int)
    requires LastDotAt(f, i)
    ensures '.' in Lower(f) && Extension(Lower(f)) == Extension(f)
  {
    LowerKeepsLastDot(f, i);
    LastDotUnique(f, i);
    LastDotUnique(Lower(f), i);
    LowerSuffix(f, i + 1);
    LowerIdempotent(f[i + 1..]);
  }

  lemma LowerKeepsLastDot(f: string, i: int)
    requires LastDotAt(f, i)
    ensures LastDotAt(Lower(f), i)
  {
    var g := Lower(f);
    forall k | i + 1 <= k < |g| ensures g[k] != '.' {
      assert f[i + 1..][k - i - 1] == f[k];
    }
  }

  lemma LowerSuffix(f: string, i: nat)
    requires i <= |f|
    ensures Lower(f)[i..] == Lower(f[i..])
  {
  }

  /** Lower-casing adds no dot and removes none. */
  lemma LowerKeepsDots(f: string)
    ensures ('.' in Lower(f)) == ('.' in f)
  {
    var g := Lower(f);
    if '.' in f {
      var k :| 0 <= k < |f| && f[k] == '.';
      assert g[k] == '.';
    }
    if '.' in g {
      var k :| 0 <= k < |g| && g[k] == '.';
      assert f[k] == '.';
    }
  }

  lemma LowerIdempotent(s: string)
    ensures Lower(Lower(s)) == Lower(s)
  {
  }

  /** An upper-case extension is accepted. */
  lemma AllowedFileUpperCase()
    ensures AllowedFile("a.PNG")
  {
    AllowedFileJoin("a", "PNG");
    assert "a" + "." + "PNG" == "a.PNG";
    assert Lower("PNG") == "png";
  }

  /** Earlier dots belong to the stem: the extension is what follows the dot at index 7. */
  lemma AllowedFileDottedStem()
    ensures AllowedFile("scan.v2.JpEg")
  {
    var f := "scan.v2.JpEg";
    assert f[8..] == "JpEg";
    assert LastDotAt(f, 7);
    LastDotUnique(f, 7);
    assert Lower("JpEg") == "jpeg";
  }

  /** A name that only spells an extension has no dot and is rejected. */
  lemma AllowedFileRejectsBareExtension()
    ensures !AllowedFile("png")
  {
    AllowedFileNeedsDot("png");
  }

  /** A name ending in a dot has an empty extension and is rejected. */
  lemma AllowedFileRejectsEmptyExtension()
    ensures !AllowedFile("a.")
  {
    AllowedFileJoin("a", "");
    assert "a" + "." + "" == "a.";
    assert Lower("") == "";
  }

  /** An allowed extension that is not the last one does not count. */
  lemma AllowedFileRejectsInnerExtension()
    ensures !AllowedFile("photo.png.exe")
  {
    AllowedFileJoin("photo.png", "exe");
    assert "photo.png" + "." + "exe" == "photo.png.exe";
    assert Lower("exe") == "exe";
  }
}
