/** The upload filename check of the HTTP layer (main.py `allowed_file`). */
module Upload {
  import opened Text

  /** The extensions an uploaded video may carry. */
  const AllowedExtensions: set<string> := {"mp4"}

  /**
   * A filename is accepted when it contains a '.' and the text after its last '.',
   * lower-cased, is an allowed extension.
   */
  function AllowedFile(filename: string): bool {
    '.' in filename && ToLower(RSplitOnce(filename, '.')[1]) in AllowedExtensions
  }

  /** A name without any '.' is never accepted. */
  lemma NoDotRejected(filename: string)
    requires '.' !in filename
    ensures !AllowedFile(filename)
  {
  }

  /**
   * Only the text after the last '.' decides: for any stem, `stem.ext` (with no '.'
   * in `ext`) is accepted exactly when `ext` lower-cases to "mp4".
   */
  lemma AcceptedIffLastExtensionIsMp4(stem: string, ext: string)
    requires '.' !in ext
    ensures AllowedFile(stem + "." + ext) <==> ToLower(ext) == "mp4"
  {
    RSplitOnceUnique(stem, '.', ext);
  }

  /** An upper-case extension, a doubled extension ending in mp4, and a bare extension are accepted. */
  lemma AllowedFileAcceptsExamples()
    ensures AllowedFile("clip.MP4")
    ensures AllowedFile("a.txt.mp4")
    ensures AllowedFile(".mp4")
  {
    var mp4, upper := "mp4", "MP4";
    assert ToLower(upper) == mp4 && ToLower(mp4) == mp4;
    assert "clip.MP4" == "clip" + "." + upper;
    AcceptedIffLastExtensionIsMp4("clip", upper);
    assert "a.txt.mp4" == "a.txt" + "." + mp4;
    AcceptedIffLastExtensionIsMp4("a.txt", mp4);
    assert ".mp4" == "" + "." + mp4;
    AcceptedIffLastExtensionIsMp4("", mp4);
  }

  /** A doubled extension ending in something else, and a trailing dot, are refused. */
  lemma AllowedFileRejectsExamples()
    ensures !AllowedFile("a.mp4.txt")
    ensures !AllowedFile("video.")
  {
    var txt := "txt";
    assert ToLower(txt) == txt;
    assert "a.mp4.txt" == "a.mp4" + "." + txt;
    AcceptedIffLastExtensionIsMp4("a.mp4", txt);
    assert "video." == "video" + "." + "";
    AcceptedIffLastExtensionIsMp4("video", "");
  }
}
