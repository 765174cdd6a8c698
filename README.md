# Agentic RAG chatbot: retrieval post-processing, answer routing and directory loading

This project is a Dafny model of the two pieces of sequential logic in a
retrieval-augmented chatbot. The chatbot indexes Word and PDF documents in a
Chroma vector store and answers questions with a Cohere chat model.

- **Query pipeline** (`app/services.py`, modelled in `services.dfy`, module
  `Services`). `preprocess_docs` de-duplicates documents by page content:
  the first occurrence wins, and a set of seen contents is kept beside an
  output list. `retrieve` asks the similarity search for 3 documents. It
  computes the de-duplicated list but only prints it, and returns the page
  contents of *every* retrieved document. `procesar_consulta` retrieves,
  detects the language, generates a base answer, and then translates it
  unless the detected language is exactly `"es"`. `traducir_respuesta`
  returns its input text unchanged when the model call raises.
- **Directory loader** (`app/cargar_en_chroma_db.py`, modelled in
  `chroma_loader.dfy`, module `ChromaLoader`). `cargar_documentos_en_chroma_db`
  walks the directory listing. It chooses `Docx2txtLoader` for names ending
  in `.docx` and otherwise `PyPDFLoader` for names ending in `.pdf`, and it
  skips every other name. It counts the supported files in `contador_doc`
  and appends their pages to `lista_documentos`. It then builds the
  recursive character splitter with separators `["\n\n", "\n"]`, chunk size
  512, overlap 128 and start indices on (the constant `ChromaLoader.Splitter`).
  The splitter is given `data`, which holds the pages of the last supported
  file only.

Shared definitions: `wrappers.dfy` (`Option`, `Result`) and `documents.dfy`
(the `Document` record: page content and metadata).

External systems are oracles, passed in as function-typed parameters:
- the similarity search: `Services.Search`, from a query and a count to
  `Found(documents)` or `SearchRaised` (the query embedding is a remote call
  that can raise);
- the chat model: `Services.Model`, from an abstract `Prompt` to a `Reply`.
  A `Reply` is `Content(text)` or `Raised`. The prompt kinds are language
  detection, answer generation and translation;
- the two document loaders: `ChromaLoader.LoadFn`, from a loader and a file path to pages;
- the directory listing: a `seq<string>` parameter.

Only the translation call catches exceptions in the source. A raising
search ends `ProcessQuery` with `Err(SearchFailed)` before any model call,
and a raising detection or generation call ends it with `Err(ModelRaised)`.

The walk is the imperative method `LoadDocumentsIntoChroma`. It has the
for-loop, the counter, the accumulated list and an `Option` for the
possibly unbound `data`. Its loop invariants tie its state to the functions
`SupportedCount`, `LoadedDocuments` and `LastData` of the listing prefix it
has walked. Lemmas then relate those functions to independent reference
definitions: `SupportedFiles` (a filter), `Flatten` and `TotalPages`.
`PreprocessDocs` is a loop method too. It is proved equal to the reference
scan `Deduplicated`, and the de-duplication properties are lemmas about
`Deduplicated`.

Callers elsewhere in the repository pass arguments that these definitions do
not take. `main.py:89` passes a selected document and a temperature to
`procesar_consulta`. `app/inicializar_db.py` passes `persist_directory` and
`flag_nuevo` to the loader. The model follows the definitions in the two
core files as they stand. Those definitions have no metadata filter on
retrieval and no check for documents that are already indexed.

## Model

| member | source | states |
|---|---|---|
| `Services.PreprocessDocs` | app/services.py:38-45 | The seen-set loop returns exactly the reference de-duplication. The result has pairwise distinct page contents, is a subsequence of the input in input order, and has the same set of contents as the input. |
| `Services.DeduplicatedHasDistinctContents` | app/services.py:38-45 | No two kept documents share a page content. |
| `Services.DeduplicatedIsSubsequence` | app/services.py:41-43 | The kept documents appear in the input in the same relative order. |
| `Services.DeduplicatedCoversContents` | app/services.py:41-44 | Every page content of the input occurs in the output, and no other content does. |
| `Services.DeduplicatedKeepsFirstOccurrence` | app/services.py:41-44 | Each kept document is the first input document that has its page content, and the kept documents appear in the order in which their contents first occur in the input. |
| `Services.DeduplicatedLength` | app/services.py:38-45 | The output is never longer than the input. It is exactly as long if and only if the input contents are pairwise distinct. |
| `Services.DeduplicatedIdempotent` | app/services.py:38-45 | De-duplicating twice gives the same list as de-duplicating once. |
| `Services.PageContents` | app/services.py:60 | The list comprehension over the retrieved documents. Its meaning is stated by the per-entry ensures of `Retrieve` and by `RetrieveKeepsDuplicates`. |
| `Services.Deduplicated` | app/services.py:38-45 | The reference first-occurrence scan. Its meaning is given by the `Deduplicated*` lemmas below and by `PreprocessDocs`, which is proved equal to it. |
| `Services.Retrieve` | app/services.py:47-60 | Retrieval fails exactly when the search (k = 3) raises. Otherwise the context has one entry per retrieved document, and entry i is the page content of retrieved document i. |
| `Services.RetrieveKeepsDuplicates` | app/services.py:57-60 | When the search answers, retrieval succeeds, and the returned context equals the contents of the de-duplicated documents if and only if the search returned no repeated content. The de-duplicated list does not reach the result. |
| `Services.DetectLanguage` | app/services.py:62-99 | Oracle call, no contract: the model's reply to the language-detection prompt for the question. |
| `Services.GenerateAnswer` | app/services.py:101-133 | Oracle call, no contract: the model's reply to the answer prompt for the question and the retrieved context. |
| `Services.TranslateAnswer` | app/services.py:135-179 | If the model call raises, the original text is returned. Otherwise the model's content is returned. |
| `Services.ProcessQuery` | app/services.py:181-206 | The query succeeds exactly when the search answers and the detection and generation calls both return content. A raising search gives `SearchFailed`; any other failure is `ModelRaised`. A successful record carries the request's user name. |
| `Services.SpanishAnswerPassesThrough` | app/services.py:196-197 | If the detected language is "es", the answer is the base response. The result is the same for any model that differs only on translation requests, so no translation is requested. |
| `Services.OtherLanguagesAreTranslated` | app/services.py:196-204 | For any other detected string, the answer is the translator's output for that language. If the translator raises, the answer is the base response. The user name is the request's. |
| `Services.AnswerIsBaseOrTranslation` | app/services.py:194-204 | A successful answer is either the base response or the content of a successful translation of it into a detected language other than "es". |
| `ChromaLoader.LoaderChoice` | app/cargar_en_chroma_db.py:35-44 | The Word loader is chosen if and only if the name ends in ".docx". The PDF loader is chosen if and only if the name ends in ".pdf". The file is skipped if and only if it has neither suffix. The two suffixes exclude each other, so testing ".docx" first never changes the choice. |
| `ChromaLoader.EndsWith` | app/cargar_en_chroma_db.py:36-39 | The suffix test `str.endswith`. Its meaning is stated by `LoaderChoice` and `CountIsNumberOfSupportedFiles`. |
| `ChromaLoader.JoinPath` | app/cargar_en_chroma_db.py:33 | The path join `os.path.join` for a plain entry name; the simplification is recorded under "Left out". Its meaning is shown by `ExampleNames` ("docs" and "b.docx" give "docs/b.docx") and used by `ExampleSplitsLastOnly`. |
| `ChromaLoader.PagesOf` | app/cargar_en_chroma_db.py:33-47 | The per-file step: choose the loader, join the path and load, or nothing for a skipped name. Its meaning is stated by `LoaderChoice`, `FlattenSkipsUnsupported` and `SkippedFileAddsNothing`. |
| `ChromaLoader.SupportedCount` | app/cargar_en_chroma_db.py:29-41 | `contador_doc` after walking a listing. Its meaning is stated by `CountIsNumberOfSupportedFiles`. |
| `ChromaLoader.LoadedDocuments` | app/cargar_en_chroma_db.py:28-50 | `lista_documentos` after walking a listing. Its meaning is stated by `LoadedIsConcatenationOfSupported`. |
| `ChromaLoader.LoaderFor` | app/cargar_en_chroma_db.py:36-44 | The per-file loader choice. Its meaning is stated by `LoaderChoice`. |
| `ChromaLoader.LastData` | app/cargar_en_chroma_db.py:47 | The value of `data` after a walk. Its meaning is stated by `DataIsLastSupportedFile`. |
| `ChromaLoader.SplitterCall` | app/cargar_en_chroma_db.py:59 | The as-written splitter call on `data`. Its meaning is stated by `SplitterDropsEarlierFiles` and `SplitterFailsWithoutSupportedFiles`. |
| `ChromaLoader.LoadDocumentsIntoChroma` | app/cargar_en_chroma_db.py:20-59 | After the walk, the counter is the number of supported files. The page list is the in-order concatenation of the supported files' pages. The splitter call is the as-written one: on the last supported file's pages, or failing when `data` is unbound. |
| `ChromaLoader.CountIsNumberOfSupportedFiles` | app/cargar_en_chroma_db.py:32-41 | `contador_doc` equals the number of supported files, and a name is supported if and only if it is listed and ends in ".docx" or ".pdf". The counter is at most the listing's length. |
| `ChromaLoader.LoadedIsConcatenationOfSupported` | app/cargar_en_chroma_db.py:47-50 | `lista_documentos` is the in-order concatenation of the pages of the supported files. Its length is the sum of their page counts. |
| `ChromaLoader.SkippedFileAddsNothing` | app/cargar_en_chroma_db.py:42-44 | Inserting an unsupported name anywhere in the listing changes neither the counter nor the page list. |
| `ChromaLoader.DataIsLastSupportedFile` | app/cargar_en_chroma_db.py:32-47 | `data` is unbound if and only if no file is supported. Otherwise it holds the pages of the last supported file. |
| `ChromaLoader.SplitterDropsEarlierFiles` | app/cargar_en_chroma_db.py:47-59 | When the last listed file is supported and earlier files loaded any page, the splitter gets the last file's pages alone. The page list is the earlier pages followed by the last file's, so the two differ. |
| `ChromaLoader.SplitterFailsWithoutSupportedFiles` | app/cargar_en_chroma_db.py:42-59 | If no name is supported, the splitter call fails because `data` is unbound. |
| `ChromaLoader.ExampleAccumulatesBoth` | app/cargar_en_chroma_db.py:32-50 | For the listing ["a.pdf", "b.docx"] in directory "docs", with one page per file, both pages are accumulated in listing order. |
| `ChromaLoader.ExampleSplitsLastOnly` | app/cargar_en_chroma_db.py:47-59 | For the same listing, the splitter gets only the page of "docs/b.docx". For an empty listing, the splitter call fails. |
| `ChromaLoader.IntendedSplitterCall` | app/cargar_en_chroma_db.py:50-59 | The splitter call on `lista_documentos` never fails, uses the fixed splitter settings, and contains every supported file's pages in listing order, with their total count. |

## Left out

- The language model: the prompt texts, the few-shot examples, the model name and the temperature (app/services.py:29, 62-133, 147-172). These are remote, nondeterministic calls, so they are the `Model` oracle.
- TranslateAnswer: the fallback covers any failure of the model call. The source catches only `Exception` subclasses, and the model does not tell them apart from other exceptions.
- The Chroma vector store, the Cohere embeddings and persistence (app/services.py:32-36; app/cargar_en_chroma_db.py:62-70). These are library internals, so the search is the `Search` oracle and the store is not modelled.
- The document loaders and the internals of `RecursiveCharacterTextSplitter`. These are library code. Only the splitter's constructor settings are recorded.
- Loader exceptions, such as a missing or unreadable file: `LoadFn` is a total function. A raising loader would abort the walk, and the model does not capture that.
- `os.listdir`: the listing is a parameter in whatever order the operating system gives it. Errors for a missing directory are not modelled.
- `os.path.join` is modelled for plain entry names only: `JoinPath` inserts one '/' unless the directory is empty or already ends in '/'.
- `app/models.py` is not part of this model. The request record is modelled by the two fields the core reads: `userName` and `question`.
- Printing and logging throughout, including the only use of `preprocess_docs`'s result inside `retrieve`.
- The UI and file-copying scripts (main.py, main_gr.py, main_02.py), app/inicializar_db.py, app/db.py and test.py. They hold no logic of the core.

## Findings

| source | as written | input that shows it | evidently intended | confidence | as-written member | corrected member |
|---|---|---|---|---|---|---|
| app/cargar_en_chroma_db.py:59 | the splitter is given `data`, the pages of the last supported file | listing ["a.pdf", "b.docx"], each file loading one page: only b.docx's page is split and stored | split `lista_documentos`, the pages of every supported file | high; not executed | `ChromaLoader.SplitterDropsEarlierFiles` | `ChromaLoader.IntendedSplitterCall` |
| app/cargar_en_chroma_db.py:47-59 | `data` is bound only inside the loop | an empty listing, or one with no ".docx"/".pdf" name: line 59 raises UnboundLocalError | split the (empty) `lista_documentos` | medium; not executed | `ChromaLoader.SplitterFailsWithoutSupportedFiles` | `ChromaLoader.IntendedSplitterCall` |

`LoadDocumentsIntoChroma` models the walk as written. `IntendedSplitterCall`
is the call the splitter should receive, with its properties proved. Nothing
after the splitter call is modelled, so no other member depends on which of
the two calls is made.
