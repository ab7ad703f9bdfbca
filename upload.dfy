/** The extension allow-list applied to uploaded image files. */
module Upload {
  import opened Wrappers
  import opened PyStr

  /** The configured ALLOWED_EXTENSIONS. */
  const AllowedExtensions: set<string> := {"png", "jpg", "jpeg", "gif"}

  /** The position of the last occurrence of c in s, if any. */
  function LastIndexOf(s: string, c: char): (r: Option<nat>)
    ensures r.None? <==> c !in s
    ensures r.Some? ==> r.value < |s| && s[r.value] == c
    ensures r.Some? ==> forall k :: r.value < k < |s| ==> s[k] != c
  {
    if s == [] then None
    else if s[|s| - 1] == c then Some(|s| - 1)
    else
      assert s == s[..|s| - 1] + [s[|s| - 1]];
      LastIndexOf(s[..|s| - 1], c)
  }

  /** filename.rsplit('.', 1)[1]: everything after the last dot. */
  function Extension(filename: string): string
    requires '.' in filename
  {
    filename[LastIndexOf(filename, '.').value + 1..]
  }

  /** allowed_file: the name has a dot and its lower-cased extension is allowed. */
  predicate AllowedFile(filename: string) {
    '.' in filename && Lower(Extension(filename)) in AllowedExtensions
  }

  /** Only the text after the last dot decides, whatever the stem holds. */
  lemma AllowedFileBySuffix(stem: string, ext: string)
    requires '.' !in ext
    ensures AllowedFile(stem + "." + ext) <==> Lower(ext) in AllowedExtensions
  {
    var f := stem + "." + ext;
    assert f[|stem|] == '.';
    assert forall m :: |stem| < m < |f| ==> f[m] == ext[m - |stem| - 1];
    assert f[|stem| + 1..] == ext;
  }

  /** The name has its last dot at k and the text after it is an allowed
      extension once lower-cased. */
  predicate AllowedSplitAt(filename: string, k: int) {
    && 0 <= k < |filename|
    && filename[k] == '.'
    && '.' !in filename[k + 1..]
    && Lower(filename[k + 1..]) in AllowedExtensions
  }

  /** allowed_file holds exactly of the names that split, at some dot, into
      a stem and a dot-free extension that lower-cases to an allowed one. */
  lemma AllowedFileIff(filename: string)
    ensures AllowedFile(filename) <==> exists k :: AllowedSplitAt(filename, k)
  {
    if AllowedFile(filename) {
      LastDotSplits(filename);
    }
    if exists k :: AllowedSplitAt(filename, k) {
      var k :| AllowedSplitAt(filename, k);
      assert filename == filename[..k] + "." + filename[k + 1..];
      AllowedFileBySuffix(filename[..k], filename[k + 1..]);
    }
  }

  lemma LastDotSplits(filename: string)
    requires AllowedFile(filename)
    ensures AllowedSplitAt(filename, LastIndexOf(filename, '.').value)
  {
    var k := LastIndexOf(filename, '.').value;
    var ext := filename[k + 1..];
    assert forall m :: 0 <= m < |ext| ==> ext[m] == filename[k + 1 + m];
  }

  /** An upper-case extension is accepted. */
  lemma AllowedUpperCase()
    ensures AllowedFile("a.PNG")
  {
    AllowedFileBySuffix("a", "PNG");
    assert "a" + "." + "PNG" == "a.PNG";
    assert Lower("PNG") == "png";
  }

  /** Only the last extension of a multi-dot name counts. */
  lemma AllowedLastExtension()
    ensures AllowedFile("x.tar.gif")
  {
    AllowedFileBySuffix("x.tar", "gif");
    assert "x.tar" + "." + "gif" == "x.tar.gif";
    assert Lower("gif") == "gif";
  }

  /** An allowed extension earlier in the name does not help. */
  lemma RefusedInnerExtension()
    ensures !AllowedFile("x.gif.tar")
  {
    AllowedFileBySuffix("x.gif", "tar");
    assert "x.gif" + "." + "tar" == "x.gif.tar";
    assert Lower("tar") == "tar";
  }

  /** A name without a dot, even an allowed extension alone, is refused. */
  lemma RefusedWithoutDot()
    ensures !AllowedFile("png")
  {
    assert "png"[0] != '.' && "png"[1] != '.' && "png"[2] != '.';
  }

  /** A trailing dot leaves an empty extension, which is refused. */
  lemma RefusedTrailingDot()
    ensures !AllowedFile("a.")
  {
    AllowedFileBySuffix("a", "");
    assert "a" + "." + "" == "a.";
  }
}
