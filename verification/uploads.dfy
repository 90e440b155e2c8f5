/** The upload service's filter `allowed_file`: a name is accepted when it
    has a dot and what follows its last dot, lower-cased, is one of the
    listed extensions. */
module Uploads {
  import opened Text

  /** `ALLOWED_EXTENSIONS`. */
  const AllowedExtensions: set<string> :=
    {"txt", "pdf", "png", "jpg", "jpeg", "gif", "zip", "doc", "docx", "mp4", "mp3"}

  /** `filename.rsplit('.', 1)[1]`: the text after the last dot. */
  function Extension(filename: string): (ext: string)
    requires '.' in filename
    ensures '.' !in ext
    ensures exists i :: 0 <= i < |filename| && filename[i] == '.' && filename[i + 1..] == ext
  {
    filename[LastIndexOf(filename, '.') + 1..]
  }

  /** The test `allowed_file` makes, against any set of extensions. */
  function AllowedFileIn(filename: string, allowed: set<string>): bool {
    '.' in filename && Lower(Extension(filename)) in allowed
  }

  /** `allowed_file(filename)`. */
  function AllowedFile(filename: string): bool {
    AllowedFileIn(filename, AllowedExtensions)
  }

  /** The suffix after the last dot of `stem.ext`, with `ext` free of dots,
      is `ext`, whatever dots the stem holds. */
  lemma ExtensionOf(stem: string, ext: string)
    requires '.' !in ext
    ensures Extension(stem + "." + ext) == ext
  {
    var f := stem + "." + ext;
    assert f[|stem|] == '.' && f[|stem| + 1..] == ext;
    LastIndexOfAt(f, '.', |stem|);
  }

  /** Where a name splits into `stem.ext`, there is a dot and `ext` is
      its extension. */
  lemma SplitNameExtension(filename: string, stem: string, ext: string)
    requires filename == stem + "." + ext && '.' !in ext
    ensures '.' in filename && Extension(filename) == ext
  {
    assert filename[|stem|] == '.';
    ExtensionOf(stem, ext);
  }

  lemma AllowedFileInIff(filename: string, allowed: set<string>)
    ensures AllowedFileIn(filename, allowed) <==>
      exists stem: string, ext: string {:trigger stem + "." + ext} ::
        && filename == stem + "." + ext && '.' !in ext
        && Lower(ext) in allowed
  {
    if AllowedFileIn(filename, allowed) {
      var i := LastIndexOf(filename, '.');
      var stem, ext := filename[..i], filename[i + 1..];
      assert filename == stem + "." + ext;
    }
    forall stem: string, ext: string | filename == stem + "." + ext && '.' !in ext
      ensures AllowedFileIn(filename, allowed) <==> Lower(ext) in allowed
    {
      SplitNameExtension(filename, stem, ext);
    }
  }

  /** A name is accepted exactly when it splits, at a dot with no dot after
      it, into a stem and a listed extension written in any case. */
  lemma AllowedFileIff(filename: string)
    ensures AllowedFile(filename) <==>
      exists stem: string, ext: string {:trigger stem + "." + ext} ::
        && filename == stem + "." + ext && '.' !in ext
        && Lower(ext) in AllowedExtensions
  {
    AllowedFileInIff(filename, AllowedExtensions);
  }

  /** A name with no dot, or ending in a dot, is refused. */
  lemma NamesWithoutExtensionRefused(filename: string)
    ensures '.' !in filename ==> !AllowedFile(filename)
    ensures filename != [] && filename[|filename| - 1] == '.' ==> !AllowedFile(filename)
  {
    if '.' in filename && filename[|filename| - 1] == '.' {
      assert LastIndexOf(filename, '.') == |filename| - 1;
      assert Lower(Extension(filename)) == [];
    }
  }

  /** Only the last dot counts: `stem.ext` is accepted exactly when `ext`
      is a listed extension, whatever the stem says, so `report.pdf.exe` is
      refused and `archive.tar.zip` accepted. */
  lemma OnlyLastDotCounts(stem: string, ext: string)
    requires '.' !in ext
    ensures AllowedFile(stem + "." + ext) <==> Lower(ext) in AllowedExtensions
  {
    ExtensionOf(stem, ext);
  }

  /** `OnlyLastDotCounts` for a name given in full. */
  lemma JudgedByLastExtension(filename: string, stem: string, ext: string)
    requires filename == stem + "." + ext && '.' !in ext
    ensures AllowedFile(filename) <==> Lower(ext) in AllowedExtensions
  {
    OnlyLastDotCounts(stem, ext);
  }

  /** Lower-casing a name keeps its dots where they were, so its extension
      is the lower-cased extension. */
  lemma ExtensionOfLowered(filename: string)
    ensures '.' in Lower(filename) <==> '.' in filename
    ensures '.' in filename ==> Extension(Lower(filename)) == Lower(Extension(filename))
  {
    var lowered := Lower(filename);
    LowerKeepsDots(filename);
    if '.' in filename {
      var i := LastIndexOf(filename, '.');
      var tail := filename[i + 1..];
      LowerSuffix(filename, i + 1);
      LowerKeepsDots(tail);
      assert lowered[i] == LowerChar('.');
      LastIndexOfAt(lowered, '.', i);
    }
  }

  /** Case does not matter: a name and its lower-case form are judged
      alike. */
  lemma AllowedFileIgnoresCase(filename: string)
    ensures AllowedFile(Lower(filename)) == AllowedFile(filename)
  {
    ExtensionOfLowered(filename);
    if '.' in filename {
      LowerIdempotent(Extension(filename));
    }
  }

  /** Only the last extension is judged: `a.pdf.exe` is refused ... */
  lemma LastDotRefusedExample()
    ensures !AllowedFile("a.pdf.exe")
  {
    var stem, ext := "a.pdf", "exe";
    assert Lower(ext) == ext;
    assert ext !in AllowedExtensions by {
      assert ext[0] == 'e';
    }
    assert "a.pdf.exe" == stem + "." + ext;
    JudgedByLastExtension("a.pdf.exe", stem, ext);
  }

  /** ... and `a.exe.pdf` accepted. */
  lemma LastDotAcceptedExample()
    ensures AllowedFile("a.exe.pdf")
  {
    var stem, ext := "a.exe", "pdf";
    assert Lower(ext) == ext;
    assert "a.exe.pdf" == stem + "." + ext;
    JudgedByLastExtension("a.exe.pdf", stem, ext);
  }

  /** `X.PDF` is accepted. */
  lemma UpperCaseExample()
    ensures AllowedFile("X.PDF")
  {
    var stem, ext := "X", "PDF";
    assert Lower(ext) in AllowedExtensions by {
      assert Lower(ext) == "pdf";
    }
    assert "X.PDF" == stem + "." + ext;
    JudgedByLastExtension("X.PDF", stem, ext);
  }

  /** `name` and `name.` are refused. */
  lemma NoExtensionExamples()
    ensures !AllowedFile("name") && !AllowedFile("name.")
  {
    var bare, dotted := "name", "name.";
    assert '.' !in bare;
    assert dotted[|dotted| - 1] == '.';
    NamesWithoutExtensionRefused(bare);
    NamesWithoutExtensionRefused(dotted);
  }
}
