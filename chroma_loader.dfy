/**
 * Loading a directory of Word and PDF files for the vector store: the walk
 * over the directory listing, the choice of a loader by file-name suffix,
 * the count of supported files, the accumulated page list, and the request
 * finally handed to the text splitter.
 *
 * The directory listing is a parameter and the two document loaders are an
 * oracle from (loader, path) to the pages it loads.
 */
module ChromaLoader {
  import opened Wrappers
  import opened Documents

  /** The two document loaders the walk can pick. */
  datatype Loader = Docx2txtLoader | PyPdfLoader

  /** What a loader returns for a file path. */
  type LoadFn = (Loader, string) -> seq<Document>

  /** The settings the recursive character splitter is built with. */
  datatype SplitterConfig = SplitterConfig(
    separators: seq<string>,
    chunkSize: nat,
    chunkOverlap: nat,
    addStartIndex: bool)

  /** Separators "\n\n" then "\n", chunks of 512 characters overlapping by 128, start indices recorded. */
  const Splitter: SplitterConfig := SplitterConfig(["\n\n", "\n"], 512, 128, true)

  /** The call made on the splitter: its settings and the documents it is to split. */
  datatype SplitRequest = SplitRequest(config: SplitterConfig, documents: seq<Document>)

  /** Why the splitter call cannot be made: `data` is read while still unbound. */
  datatype LoadError = DataUnbound

  /** Python's `str.endswith`: exact, case-sensitive suffix test. */
  predicate EndsWith(s: string, suffix: string)
  {
    |suffix| <= |s| && s[|s| - |suffix|..] == suffix
  }

  /** The suffix test of the walk: ".docx" first, then ".pdf", any other name skipped. */
  function LoaderFor(filename: string): Option<Loader>
  {
    if EndsWith(filename, ".docx") then Some(Docx2txtLoader)
    else if EndsWith(filename, ".pdf") then Some(PyPdfLoader)
    else None
  }

  /**
   * Each suffix selects its own loader and nothing else: no name ends in both
   * ".docx" and ".pdf", so testing ".docx" first never decides the choice.
   */
  lemma LoaderChoice(filename: string)
    ensures LoaderFor(filename) == Some(Docx2txtLoader) <==> EndsWith(filename, ".docx")
    ensures LoaderFor(filename) == Some(PyPdfLoader) <==> EndsWith(filename, ".pdf")
    ensures LoaderFor(filename) == None <==> !EndsWith(filename, ".docx") && !EndsWith(filename, ".pdf")
  {
    if EndsWith(filename, ".docx") {
      assert filename[|filename| - 1] == ".docx"[4];
    }
  }

  /** POSIX `os.path.join` of a directory and a plain file name from its listing. */
  function JoinPath(directory: string, filename: string): string
  {
    if directory == [] || directory[|directory| - 1] == '/' then directory + filename
    else directory + "/" + filename
  }

  /** What the walk adds to the page list for one listed file. */
  function PagesOf(directory: string, filename: string, load: LoadFn): seq<Document>
  {
    match LoaderFor(filename)
    case None => []
    case Some(loader) => load(loader, JoinPath(directory, filename))
  }

  // ---------------------------------------------------------------------------
  // The state after walking a prefix of the listing
  // ---------------------------------------------------------------------------

  /** `contador_doc` after walking `listing`. */
  function SupportedCount(listing: seq<string>): nat
  {
    if listing == [] then 0
    else
      var last := listing[|listing| - 1];
      SupportedCount(listing[..|listing| - 1]) + if LoaderFor(last).Some? then 1 else 0
  }

  /** `lista_documentos` after walking `listing`. */
  function LoadedDocuments(directory: string, listing: seq<string>, load: LoadFn): seq<Document>
  {
    if listing == [] then []
    else
      var last := listing[|listing| - 1];
      LoadedDocuments(directory, listing[..|listing| - 1], load) + PagesOf(directory, last, load)
  }

  /** `data` after walking `listing`: the pages of the last supported file, or unbound. */
  function LastData(directory: string, listing: seq<string>, load: LoadFn): Option<seq<Document>>
  {
    if listing == [] then None
    else if LoaderFor(listing[|listing| - 1]).Some? then
      Some(PagesOf(directory, listing[|listing| - 1], load))
    else LastData(directory, listing[..|listing| - 1], load)
  }

  /** The splitter call as the source makes it: on `data`, failing if it is unbound. */
  function SplitterCall(directory: string, listing: seq<string>, load: LoadFn): Result<SplitRequest, LoadError>
  {
    match LastData(directory, listing, load)
    case None => Err(DataUnbound)
    case Some(data) => Ok(SplitRequest(Splitter, data))
  }

  // ---------------------------------------------------------------------------
  // Reference definitions: the supported files, their pages, their page counts
  // ---------------------------------------------------------------------------

  /** The listed names that select a loader, in listing order. */
  function SupportedFiles(listing: seq<string>): seq<string>
  {
    if listing == [] then []
    else (if LoaderFor(listing[0]).Some? then [listing[0]] else []) + SupportedFiles(listing[1..])
  }

  /** The pages of `files`, loaded one after the other. */
  function Flatten(directory: string, files: seq<string>, load: LoadFn): seq<Document>
  {
    if files == [] then [] else PagesOf(directory, files[0], load) + Flatten(directory, files[1..], load)
  }

  /** The number of pages the loaders return for `files`, summed. */
  function TotalPages(directory: string, files: seq<string>, load: LoadFn): nat
  {
    if files == [] then 0 else |PagesOf(directory, files[0], load)| + TotalPages(directory, files[1..], load)
  }

  /** The supported files are exactly the listed names that select a loader. */
  lemma {:induction false} SupportedFilesMembers(listing: seq<string>)
    ensures forall f :: f in SupportedFiles(listing) <==> f in listing && LoaderFor(f).Some?
  {
    if listing != [] {
      SupportedFilesMembers(listing[1..]);
      assert forall f :: f in listing <==> f == listing[0] || f in listing[1..];
    }
  }

  lemma {:induction false} SupportedFilesAppend(a: seq<string>, b: seq<string>)
    ensures SupportedFiles(a + b) == SupportedFiles(a) + SupportedFiles(b)
  {
    if a == [] {
      assert a + b == b;
    } else {
      assert (a + b)[0] == a[0] && (a + b)[1..] == a[1..] + b;
      SupportedFilesAppend(a[1..], b);
    }
  }

  lemma {:induction false} FlattenAppend(directory: string, a: seq<string>, b: seq<string>, load: LoadFn)
    ensures Flatten(directory, a + b, load) == Flatten(directory, a, load) + Flatten(directory, b, load)
  {
    if a == [] {
      assert a + b == b;
    } else {
      assert (a + b)[0] == a[0] && (a + b)[1..] == a[1..] + b;
      FlattenAppend(directory, a[1..], b, load);
    }
  }

  lemma {:induction false} FlattenLength(directory: string, files: seq<string>, load: LoadFn)
    ensures |Flatten(directory, files, load)| == TotalPages(directory, files, load)
  {
    if files != [] {
      FlattenLength(directory, files[1..], load);
    }
  }

  /** Unsupported names contribute no pages. */
  lemma {:induction false} FlattenSkipsUnsupported(directory: string, files: seq<string>, load: LoadFn)
    ensures Flatten(directory, files, load) == Flatten(directory, SupportedFiles(files), load)
  {
    if files != [] {
      FlattenSkipsUnsupported(directory, files[1..], load);
      if LoaderFor(files[0]).Some? {
        var supported := SupportedFiles(files);
        assert supported == [files[0]] + SupportedFiles(files[1..]);
        assert supported[0] == files[0] && supported[1..] == SupportedFiles(files[1..]);
        assert Flatten(directory, supported, load) ==
          PagesOf(directory, files[0], load) + Flatten(directory, supported[1..], load);
      } else {
        assert SupportedFiles(files) == SupportedFiles(files[1..]);
        assert Flatten(directory, files, load) == Flatten(directory, files[1..], load);
      }
    }
  }

  // ---------------------------------------------------------------------------
  // Properties of the walk
  // ---------------------------------------------------------------------------

  /** `contador_doc` is the number of listed names ending in ".docx" or ".pdf". */
  lemma {:induction false} CountIsNumberOfSupportedFiles(listing: seq<string>)
    ensures SupportedCount(listing) == |SupportedFiles(listing)|
    ensures forall f :: f in SupportedFiles(listing) <==>
      f in listing && (EndsWith(f, ".docx") || EndsWith(f, ".pdf"))
    ensures SupportedCount(listing) <= |listing|
  {
    SupportedFilesMembers(listing);
    forall f {
      LoaderChoice(f);
    }
    if listing != [] {
      var prefix, last := listing[..|listing| - 1], listing[|listing| - 1];
      assert listing == prefix + [last];
      CountIsNumberOfSupportedFiles(prefix);
      SupportedFilesAppend(prefix, [last]);
    }
  }

  /**
   * `lista_documentos` is the in-order concatenation of the pages of the
   * supported files, and its length is the sum of their page counts.
   */
  lemma {:induction false} LoadedIsConcatenationOfSupported(directory: string, listing: seq<string>, load: LoadFn)
    ensures LoadedDocuments(directory, listing, load) == Flatten(directory, SupportedFiles(listing), load)
    ensures |LoadedDocuments(directory, listing, load)| == TotalPages(directory, SupportedFiles(listing), load)
  {
    if listing != [] {
      var prefix, last := listing[..|listing| - 1], listing[|listing| - 1];
      assert listing == prefix + [last];
      LoadedIsConcatenationOfSupported(directory, prefix, load);
      FlattenSkipsUnsupported(directory, prefix, load);
      FlattenSkipsUnsupported(directory, listing, load);
      FlattenAppend(directory, prefix, [last], load);
      assert Flatten(directory, [last], load) == PagesOf(directory, last, load);
    }
    FlattenLength(directory, SupportedFiles(listing), load);
  }

  lemma {:induction false} LoadedAppend(directory: string, a: seq<string>, b: seq<string>, load: LoadFn)
    ensures LoadedDocuments(directory, a + b, load) ==
      LoadedDocuments(directory, a, load) + LoadedDocuments(directory, b, load)
  {
    LoadedIsConcatenationOfSupported(directory, a + b, load);
    LoadedIsConcatenationOfSupported(directory, a, load);
    LoadedIsConcatenationOfSupported(directory, b, load);
    SupportedFilesAppend(a, b);
    FlattenAppend(directory, SupportedFiles(a), SupportedFiles(b), load);
  }

  lemma {:induction false} CountAppend(a: seq<string>, b: seq<string>)
    ensures SupportedCount(a + b) == SupportedCount(a) + SupportedCount(b)
  {
    CountIsNumberOfSupportedFiles(a + b);
    CountIsNumberOfSupportedFiles(a);
    CountIsNumberOfSupportedFiles(b);
    SupportedFilesAppend(a, b);
  }

  /**
   * A file whose name ends in neither ".docx" nor ".pdf", wherever it stands
   * in the listing, changes neither the count nor the page list.
   */
  lemma SkippedFileAddsNothing(directory: string, a: seq<string>, filename: string, b: seq<string>, load: LoadFn)
    requires LoaderFor(filename) == None
    ensures SupportedCount(a + [filename] + b) == SupportedCount(a + b)
    ensures LoadedDocuments(directory, a + [filename] + b, load) == LoadedDocuments(directory, a + b, load)
  {
    SkippedFileAlone(directory, filename, load);
    assert SupportedCount(a + [filename] + b) == SupportedCount(a + b) by {
      CountAppend(a + [filename], b);
      CountAppend(a, [filename]);
      CountAppend(a, b);
    }
    assert LoadedDocuments(directory, a + [filename] + b, load) == LoadedDocuments(directory, a + b, load) by {
      LoadedAppend(directory, a + [filename], b, load);
      LoadedAppend(directory, a, [filename], load);
      LoadedAppend(directory, a, b, load);
    }
  }

  /** A listing of one unsupported name counts nothing and loads nothing. */
  lemma SkippedFileAlone(directory: string, filename: string, load: LoadFn)
    requires LoaderFor(filename) == None
    ensures SupportedCount([filename]) == 0 && LoadedDocuments(directory, [filename], load) == []
  {
    assert [filename][..0] == [];
  }

  /**
   * `data` is unbound exactly when no file is supported, and otherwise holds
   * the pages of the last supported file.
   */
  lemma {:induction false} DataIsLastSupportedFile(directory: string, listing: seq<string>, load: LoadFn)
    ensures LastData(directory, listing, load).None? <==> SupportedFiles(listing) == []
    ensures SupportedFiles(listing) != [] ==>
      LastData(directory, listing, load) ==
        Some(PagesOf(directory, SupportedFiles(listing)[|SupportedFiles(listing)| - 1], load))
  {
    if listing != [] {
      var prefix, last := listing[..|listing| - 1], listing[|listing| - 1];
      assert listing == prefix + [last];
      DataIsLastSupportedFile(directory, prefix, load);
      SupportedFilesAppend(prefix, [last]);
    }
  }

  // ---------------------------------------------------------------------------
  // The walk itself (app/cargar_en_chroma_db.py, cargar_documentos_en_chroma_db)
  // ---------------------------------------------------------------------------

  /**
   * Walks `listing` (the directory's entries), loads every ".docx" and ".pdf"
   * file, and returns the counter, the accumulated page list and the
   * splitter call made afterwards.
   */
  method LoadDocumentsIntoChroma(directory: string, listing: seq<string>, load: LoadFn)
    returns (count: nat, documents: seq<Document>, split: Result<SplitRequest, LoadError>)
    ensures count == SupportedCount(listing) && count == |SupportedFiles(listing)|
    ensures documents == LoadedDocuments(directory, listing, load)
    ensures documents == Flatten(directory, SupportedFiles(listing), load)
    ensures split == SplitterCall(directory, listing, load)
  {
    documents := [];
    count := 0;
    var data: Option<seq<Document>> := None;
    for i := 0 to |listing|
      invariant count == SupportedCount(listing[..i])
      invariant documents == LoadedDocuments(directory, listing[..i], load)
      invariant data == LastData(directory, listing[..i], load)
    {
      var filename := listing[i];
      var filePath := JoinPath(directory, filename);
      assert listing[..i + 1][..i] == listing[..i] && listing[..i + 1][i] == filename;
      var loader;
      if EndsWith(filename, ".docx") {
        loader := Docx2txtLoader;
        count := count + 1;
      } else if EndsWith(filename, ".pdf") {
        loader := PyPdfLoader;
        count := count + 1;
      } else {
        continue;
      }
      var pages := load(loader, filePath);
      data := Some(pages);
      documents := documents + pages;
    }
    assert listing[..|listing|] == listing;
    match data {
      case None => split := Err(DataUnbound);
      case Some(pages) => split := Ok(SplitRequest(Splitter, pages));
    }
    CountIsNumberOfSupportedFiles(listing);
    LoadedIsConcatenationOfSupported(directory, listing, load);
  }

  // ---------------------------------------------------------------------------
  // The splitter is given `data`, not `lista_documentos`
  // ---------------------------------------------------------------------------

  /**
   * As written: when the last listed file is supported, the splitter gets its
   * pages alone, and every page loaded from the files before it is missing.
   */
  lemma SplitterDropsEarlierFiles(directory: string, earlier: seq<string>, last: string, load: LoadFn)
    requires LoaderFor(last).Some?
    requires LoadedDocuments(directory, earlier, load) != []
    ensures SplitterCall(directory, earlier + [last], load) ==
      Ok(SplitRequest(Splitter, PagesOf(directory, last, load)))
    ensures LoadedDocuments(directory, earlier + [last], load) ==
      LoadedDocuments(directory, earlier, load) + PagesOf(directory, last, load)
    ensures SplitterCall(directory, earlier + [last], load).value.documents !=
      LoadedDocuments(directory, earlier + [last], load)
  {
    assert (earlier + [last])[..|earlier|] == earlier;
  }

  /** As written: a listing without a supported file makes the splitter call fail. */
  lemma SplitterFailsWithoutSupportedFiles(directory: string, listing: seq<string>, load: LoadFn)
    requires forall i :: 0 <= i < |listing| ==> LoaderFor(listing[i]) == None
    ensures SplitterCall(directory, listing, load) == Err(DataUnbound)
  {
    SupportedFilesMembers(listing);
    if SupportedFiles(listing) != [] {
      assert SupportedFiles(listing)[0] in SupportedFiles(listing);
      assert false;
    }
    DataIsLastSupportedFile(directory, listing, load);
  }

  /** A loader oracle that returns one page per file, its content the file's path. */
  function OnePagePerFile(loader: Loader, path: string): seq<Document>
  {
    [Document(path, map[])]
  }

  /** A concrete listing, a PDF then a Word file with one page each: both pages are accumulated. */
  lemma ExampleAccumulatesBoth()
    ensures LoadedDocuments("docs", ["a.pdf", "b.docx"], OnePagePerFile) ==
      [Document("docs/a.pdf", map[]), Document("docs/b.docx", map[])]
  {
    assert ["a.pdf", "b.docx"] == ["a.pdf"] + ["b.docx"];
    LoadedAppend("docs", ["a.pdf"], ["b.docx"], OnePagePerFile);
    LoadedSingle("docs", "a.pdf", OnePagePerFile);
    LoadedSingle("docs", "b.docx", OnePagePerFile);
    ExampleNames();
  }

  /** A one-name listing loads that file's pages. */
  lemma LoadedSingle(directory: string, filename: string, load: LoadFn)
    ensures LoadedDocuments(directory, [filename], load) == PagesOf(directory, filename, load)
  {
    assert [filename][..0] == [];
  }

  /** The same listing: the splitter gets the Word file's page only, and an empty listing fails. */
  lemma ExampleSplitsLastOnly()
    ensures SplitterCall("docs", ["a.pdf", "b.docx"], OnePagePerFile) ==
      Ok(SplitRequest(Splitter, [Document("docs/b.docx", map[])]))
    ensures SplitterCall("docs", [], OnePagePerFile) == Err(DataUnbound)
  {
    ExampleNames();
  }

  /** The loaders and paths of the two names of the example. */
  lemma ExampleNames()
    ensures LoaderFor("a.pdf") == Some(PyPdfLoader) && JoinPath("docs", "a.pdf") == "docs/a.pdf"
    ensures LoaderFor("b.docx") == Some(Docx2txtLoader) && JoinPath("docs", "b.docx") == "docs/b.docx"
  {
    assert "a.pdf"[1..] == ".pdf";
    assert "b.docx"[1..] == ".docx";
  }

  /**
   * The evidently intended splitter call: on every page that was loaded.
   * It never fails, and it covers each supported file's pages, in order.
   */
  function IntendedSplitterCall(directory: string, listing: seq<string>, load: LoadFn): (r: SplitRequest)
    ensures r.config == Splitter
    ensures r.documents == Flatten(directory, SupportedFiles(listing), load)
    ensures |r.documents| == TotalPages(directory, SupportedFiles(listing), load)
  {
    LoadedIsConcatenationOfSupported(directory, listing, load);
    SplitRequest(Splitter, LoadedDocuments(directory, listing, load))
  }
}
