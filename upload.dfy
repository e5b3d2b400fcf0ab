/**
 * `allowed_file` (app.py): an upload is accepted when its name has an
 * extension and that extension, lowercased, is one of the allowed ones.
 */
module Upload {
  import opened Wrappers
  import opened PyStr

  /** `ALLOWED_EXTENSIONS`: only PDF files are accepted. */
  const AllowedExtensions: set<string> := {"pdf"}

  /** `'.' in filename and filename.rsplit('.', 1)[1].lower() in ALLOWED_EXTENSIONS`. */
  predicate AllowedFile(filename: string) {
    match RFindChar(filename, '.')
    case None => false
    case Some(dot) => Lower(filename[dot + 1..]) in AllowedExtensions
  }

  /** Three characters that lowercase to "pdf". */
  predicate PdfLetters(t: string) {
    |t| == 3 && LowerChar(t[0]) == 'p' && LowerChar(t[1]) == 'd' && LowerChar(t[2]) == 'f'
  }

  lemma AllowedExtension(t: string)
    ensures Lower(t) in AllowedExtensions <==> PdfLetters(t)
  {
    var l := Lower(t);
    if PdfLetters(t) {
      assert l == "pdf" by {
        assert |l| == 3;
        assert l[0] == 'p' && l[1] == 'd' && l[2] == 'f';
      }
    }
    if l in AllowedExtensions {
      assert l == "pdf";
      assert l[0] == 'p' && l[1] == 'd' && l[2] == 'f';
    }
  }

  /** A name is accepted exactly when it ends in a dot and three letters that lowercase to "pdf". */
  lemma AllowedFileIff(filename: string)
    ensures AllowedFile(filename)
        <==> |filename| >= 4 && filename[|filename| - 4] == '.' && PdfLetters(filename[|filename| - 3..])
  {
    var n := |filename|;
    match RFindChar(filename, '.')
    case None =>
    case Some(dot) =>
      AllowedExtension(filename[dot + 1..]);
      if PdfLetters(filename[dot + 1..]) {
        assert dot == n - 4;
      }
  }

  /** The extension test is case-insensitive. */
  lemma UpperCaseAccepted()
    ensures AllowedFile("a.PDF")
  {
    AllowedFileIff("a.PDF");
    assert "a.PDF"[2..] == "PDF";
  }

  /** A bare "pdf" has no extension. */
  lemma NoDotRejected()
    ensures !AllowedFile("pdf")
  {
    AllowedFileIff("pdf");
  }

  /** Only the last extension counts. */
  lemma LastExtensionCounts()
    ensures !AllowedFile("a.pdf.txt")
  {
    AllowedFileIff("a.pdf.txt");
  }
}
