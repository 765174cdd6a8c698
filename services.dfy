/**
 * The query pipeline: retrieval of passages, their de-duplication, and the
 * routing of the generated answer through translation.
 *
 * The language model, the prompts it is sent and the vector store's
 * similarity search are oracles: they are parameters of the functions below,
 * and nothing is assumed about what they return.
 */
module Services {
  import opened Wrappers
  import opened Documents

  /** A user's request: who asks and what (the request record of the service). */
  datatype Query = Query(userName: string, question: string)

  /** The number of passages the similarity search is asked for. */
  const RetrievalK: nat := 3

  /** The language code for which the base answer is passed through untranslated. */
  const PassThroughLanguage: string := "es"

  // ---------------------------------------------------------------------------
  // Sequences of documents: contents, distinctness, subsequences
  // ---------------------------------------------------------------------------

  /** The set of page contents occurring in `docs`. */
  function Contents(docs: seq<Document>): set<string>
  {
    if docs == [] then {} else {docs[0].pageContent} + Contents(docs[1..])
  }

  /** No two documents of `docs` share their page content. */
  predicate DistinctContents(docs: seq<Document>)
  {
    forall i, j :: 0 <= i < j < |docs| ==> docs[i].pageContent != docs[j].pageContent
  }

  /** `xs` is obtained from `ys` by deleting elements, keeping the order of the rest. */
  predicate IsSubsequence<T(==)>(xs: seq<T>, ys: seq<T>)
  {
    if xs == [] then true
    else if ys == [] then false
    else if xs[0] == ys[0] then IsSubsequence(xs[1..], ys[1..])
    else IsSubsequence(xs, ys[1..])
  }

  /** The position of the first document of `docs` whose page content is `c`. */
  function FirstIndex(docs: seq<Document>, c: string): (i: nat)
    requires c in Contents(docs)
    ensures i < |docs| && docs[i].pageContent == c
    ensures forall j :: 0 <= j < i ==> docs[j].pageContent != c
  {
    if docs[0].pageContent == c then 0 else 1 + FirstIndex(docs[1..], c)
  }

  lemma {:induction false} ContentsAppend(a: seq<Document>, b: seq<Document>)
    ensures Contents(a + b) == Contents(a) + Contents(b)
  {
    if a == [] {
      assert a + b == b;
    } else {
      assert (a + b)[1..] == a[1..] + b;
      ContentsAppend(a[1..], b);
    }
  }

  lemma {:induction false} ContentsOfMember(docs: seq<Document>, d: Document)
    requires d in docs
    ensures d.pageContent in Contents(docs)
  {
    if docs[0] != d {
      ContentsOfMember(docs[1..], d);
    }
  }

  lemma {:induction false} SubsequenceLength<T>(xs: seq<T>, ys: seq<T>)
    requires IsSubsequence(xs, ys)
    ensures |xs| <= |ys|
  {
    if xs != [] {
      if xs[0] == ys[0] {
        SubsequenceLength(xs[1..], ys[1..]);
      } else {
        SubsequenceLength(xs, ys[1..]);
      }
    }
  }

  /** A subsequence as long as the whole sequence is the whole sequence. */
  lemma {:induction false} SubsequenceSameLength<T>(xs: seq<T>, ys: seq<T>)
    requires IsSubsequence(xs, ys) && |xs| == |ys|
    ensures xs == ys
  {
    if xs != [] {
      if xs[0] == ys[0] {
        SubsequenceSameLength(xs[1..], ys[1..]);
      } else {
        SubsequenceLength(xs, ys[1..]);
      }
    }
  }

  // ---------------------------------------------------------------------------
  // De-duplication of retrieved documents (app/services.py, preprocess_docs)
  // ---------------------------------------------------------------------------

  /**
   * The documents of `docs` kept by a left-to-right scan that drops every
   * document whose page content is in `seen` or was kept earlier.
   */
  function DedupFrom(docs: seq<Document>, seen: set<string>): seq<Document>
  {
    if docs == [] then []
    else if docs[0].pageContent in seen then DedupFrom(docs[1..], seen)
    else [docs[0]] + DedupFrom(docs[1..], seen + {docs[0].pageContent})
  }

  /** The first-occurrence-wins de-duplication of `docs` by page content. */
  function Deduplicated(docs: seq<Document>): seq<Document>
  {
    DedupFrom(docs, {})
  }

  lemma {:induction false} DedupFromContents(docs: seq<Document>, seen: set<string>)
    ensures Contents(DedupFrom(docs, seen)) == Contents(docs) - seen
  {
    if docs != [] {
      var c := docs[0].pageContent;
      if c in seen {
        DedupFromContents(docs[1..], seen);
      } else {
        DedupFromContents(docs[1..], seen + {c});
        assert DedupFrom(docs, seen)[1..] == DedupFrom(docs[1..], seen + {c});
      }
    }
  }

  lemma {:induction false} DedupFromDistinct(docs: seq<Document>, seen: set<string>)
    ensures DistinctContents(DedupFrom(docs, seen))
  {
    if docs != [] {
      var c := docs[0].pageContent;
      if c in seen {
        DedupFromDistinct(docs[1..], seen);
      } else {
        var rest := DedupFrom(docs[1..], seen + {c});
        DedupFromDistinct(docs[1..], seen + {c});
        DedupFromContents(docs[1..], seen + {c});
        var r := [docs[0]] + rest;
        forall i, j | 0 <= i < j < |r|
          ensures r[i].pageContent != r[j].pageContent
        {
          if i == 0 {
            ContentsOfMember(rest, rest[j - 1]);
          } else {
            assert r[i] == rest[i - 1] && r[j] == rest[j - 1];
          }
        }
      }
    }
  }

  lemma {:induction false} DedupFromSubsequence(docs: seq<Document>, seen: set<string>)
    ensures IsSubsequence(DedupFrom(docs, seen), docs)
  {
    if docs != [] {
      var c := docs[0].pageContent;
      var r := DedupFrom(docs, seen);
      if c in seen {
        DedupFromSubsequence(docs[1..], seen);
        SubsequenceDropHead(r, docs);
      } else {
        DedupFromSubsequence(docs[1..], seen + {c});
        assert r[0] == docs[0] && r[1..] == DedupFrom(docs[1..], seen + {c});
      }
    }
  }

  /** A subsequence of the tail of `ys` is a subsequence of `ys`. */
  lemma {:induction false} SubsequenceDropHead<T>(xs: seq<T>, ys: seq<T>)
    requires ys != [] && IsSubsequence(xs, ys[1..])
    ensures IsSubsequence(xs, ys)
    decreases |xs| + |ys|
  {
    if xs != [] && xs[0] == ys[0] {
      SubsequenceTail(xs, ys[1..]);
    }
  }

  /** Dropping the head of a nonempty subsequence keeps it a subsequence. */
  lemma {:induction false} SubsequenceTail<T>(xs: seq<T>, ys: seq<T>)
    requires xs != [] && IsSubsequence(xs, ys)
    ensures IsSubsequence(xs[1..], ys)
    decreases |xs| + |ys|
  {
    if xs[0] == ys[0] {
      SubsequenceDropHead(xs[1..], ys);
    } else {
      SubsequenceTail(xs, ys[1..]);
      SubsequenceDropHead(xs[1..], ys);
    }
  }

  lemma {:induction false} DedupFromFirstOccurrence(docs: seq<Document>, seen: set<string>)
    ensures forall d :: d in DedupFrom(docs, seen) ==>
      d.pageContent in Contents(docs) && d == docs[FirstIndex(docs, d.pageContent)]
  {
    if docs != [] {
      var c := docs[0].pageContent;
      var seen' := if c in seen then seen else seen + {c};
      var rest := DedupFrom(docs[1..], seen');
      DedupFromFirstOccurrence(docs[1..], seen');
      DedupFromContents(docs[1..], seen');
      forall d | d in rest
        ensures d.pageContent in Contents(docs) && d == docs[FirstIndex(docs, d.pageContent)]
      {
        ContentsOfMember(rest, d);
        assert d.pageContent != c;
        assert FirstIndex(docs, d.pageContent) == 1 + FirstIndex(docs[1..], d.pageContent);
      }
    }
  }

  /** A content found only after the head keeps its place in the tail, shifted by one. */
  lemma FirstIndexTail(docs: seq<Document>, c: string)
    requires docs != [] && c != docs[0].pageContent && c in Contents(docs[1..])
    ensures c in Contents(docs) && FirstIndex(docs, c) == 1 + FirstIndex(docs[1..], c)
  {
  }

  /** The scan keeps documents in the order in which their contents first occur. */
  lemma {:induction false} DedupFromOrdered(docs: seq<Document>, seen: set<string>)
    ensures forall i, j :: 0 <= i < j < |DedupFrom(docs, seen)| ==>
      DedupFrom(docs, seen)[i].pageContent in Contents(docs) &&
      DedupFrom(docs, seen)[j].pageContent in Contents(docs) &&
      FirstIndex(docs, DedupFrom(docs, seen)[i].pageContent)
        < FirstIndex(docs, DedupFrom(docs, seen)[j].pageContent)
  {
    if docs != [] {
      var c := docs[0].pageContent;
      var seen' := if c in seen then seen else seen + {c};
      var rest := DedupFrom(docs[1..], seen');
      DedupFromOrdered(docs[1..], seen');
      DedupFromContents(docs[1..], seen');
      var r := DedupFrom(docs, seen);
      var offset := if c in seen then 0 else 1;
      assert r[offset..] == rest;
      forall k | 0 <= k < |rest|
        ensures rest[k].pageContent in Contents(docs)
        ensures FirstIndex(docs, rest[k].pageContent) == 1 + FirstIndex(docs[1..], rest[k].pageContent)
      {
        ContentsOfMember(rest, rest[k]);
        FirstIndexTail(docs, rest[k].pageContent);
      }
      forall i, j | 0 <= i < j < |r|
        ensures r[i].pageContent in Contents(docs) && r[j].pageContent in Contents(docs)
        ensures FirstIndex(docs, r[i].pageContent) < FirstIndex(docs, r[j].pageContent)
      {
        assert r[j] == rest[j - offset];
        if i < offset {
          assert r[i] == docs[0];
        } else {
          assert r[i] == rest[i - offset];
        }
      }
      assert r == DedupFrom(docs, seen);
    } else {
      assert DedupFrom(docs, seen) == [];
    }
  }

  /** Documents that already have distinct contents, none of them in `seen`, are all kept. */
  lemma {:induction false} DedupFromKeepsDistinct(docs: seq<Document>, seen: set<string>)
    requires DistinctContents(docs) && Contents(docs) !! seen
    ensures DedupFrom(docs, seen) == docs
  {
    if docs != [] {
      var c := docs[0].pageContent;
      if c in Contents(docs[1..]) {
        var k := FirstIndex(docs[1..], c);
        assert false;
      }
      assert DistinctContents(docs[1..]) by {
        forall i, j | 0 <= i < j < |docs[1..]|
          ensures docs[1..][i].pageContent != docs[1..][j].pageContent
        {
          assert docs[1..][i] == docs[i + 1] && docs[1..][j] == docs[j + 1];
        }
      }
      DedupFromKeepsDistinct(docs[1..], seen + {c});
    }
  }

  /** preprocess_docs: no two kept documents share their page content. */
  lemma DeduplicatedHasDistinctContents(docs: seq<Document>)
    ensures DistinctContents(Deduplicated(docs))
  {
    DedupFromDistinct(docs, {});
  }

  /** preprocess_docs: the kept documents are a subsequence of the input, in input order. */
  lemma DeduplicatedIsSubsequence(docs: seq<Document>)
    ensures IsSubsequence(Deduplicated(docs), docs)
  {
    DedupFromSubsequence(docs, {});
  }

  /** preprocess_docs: every page content of the input survives, and nothing else appears. */
  lemma DeduplicatedCoversContents(docs: seq<Document>)
    ensures Contents(Deduplicated(docs)) == Contents(docs)
  {
    DedupFromContents(docs, {});
  }

  /**
   * preprocess_docs: the document kept for a content is the first input
   * document with it, and the kept documents follow the order of those first
   * occurrences.
   */
  lemma DeduplicatedKeepsFirstOccurrence(docs: seq<Document>)
    ensures forall d :: d in Deduplicated(docs) ==>
      d.pageContent in Contents(docs) && d == docs[FirstIndex(docs, d.pageContent)]
    ensures forall i, j :: 0 <= i < j < |Deduplicated(docs)| ==>
      Deduplicated(docs)[i].pageContent in Contents(docs) &&
      Deduplicated(docs)[j].pageContent in Contents(docs) &&
      FirstIndex(docs, Deduplicated(docs)[i].pageContent)
        < FirstIndex(docs, Deduplicated(docs)[j].pageContent)
  {
    DedupFromFirstOccurrence(docs, {});
    DedupFromOrdered(docs, {});
    var r := Deduplicated(docs);
    assert r == DedupFrom(docs, {});
    forall i, j | 0 <= i < j < |r|
      ensures r[i].pageContent in Contents(docs) && r[j].pageContent in Contents(docs)
      ensures FirstIndex(docs, r[i].pageContent) < FirstIndex(docs, r[j].pageContent)
    {
      assert r[i] == DedupFrom(docs, {})[i] && r[j] == DedupFrom(docs, {})[j];
    }
  }

  /** preprocess_docs: never longer than its input, and as long exactly when the input has distinct contents. */
  lemma DeduplicatedLength(docs: seq<Document>)
    ensures |Deduplicated(docs)| <= |docs|
    ensures |Deduplicated(docs)| == |docs| <==> DistinctContents(docs)
  {
    var r := Deduplicated(docs);
    DedupFromSubsequence(docs, {});
    SubsequenceLength(r, docs);
    if |r| == |docs| {
      SubsequenceSameLength(r, docs);
      DedupFromDistinct(docs, {});
    }
    if DistinctContents(docs) {
      DedupFromKeepsDistinct(docs, {});
    }
  }

  /** preprocess_docs applied twice keeps what it kept once. */
  lemma DeduplicatedIdempotent(docs: seq<Document>)
    ensures Deduplicated(Deduplicated(docs)) == Deduplicated(docs)
  {
    DedupFromDistinct(docs, {});
    DedupFromKeepsDistinct(Deduplicated(docs), {});
  }

  /** One step of the scan at position `i`: `kept` and `seen` are what the scan holds before it. */
  lemma ScanStep(docs: seq<Document>, i: nat, kept: seq<Document>, seen: set<string>)
    requires i < |docs| && seen == Contents(kept)
    ensures docs[i].pageContent in seen ==>
      kept + DedupFrom(docs[i..], seen) == kept + DedupFrom(docs[i + 1..], seen)
    ensures docs[i].pageContent !in seen ==>
      Contents(kept + [docs[i]]) == seen + {docs[i].pageContent} &&
      kept + DedupFrom(docs[i..], seen) ==
        (kept + [docs[i]]) + DedupFrom(docs[i + 1..], seen + {docs[i].pageContent})
  {
    assert docs[i..][0] == docs[i] && docs[i..][1..] == docs[i + 1..];
    ContentsAppend(kept, [docs[i]]);
  }

  /**
   * preprocess_docs: one pass over `docs` with a set of seen page contents
   * and a list of kept documents.
   */
  method PreprocessDocs(docs: seq<Document>) returns (uniqueDocs: seq<Document>)
    ensures uniqueDocs == Deduplicated(docs)
    ensures DistinctContents(uniqueDocs)
    ensures IsSubsequence(uniqueDocs, docs)
    ensures Contents(uniqueDocs) == Contents(docs)
  {
    var seen: set<string> := {};
    uniqueDocs := [];
    ghost var target := Deduplicated(docs);
    for i := 0 to |docs|
      invariant seen == Contents(uniqueDocs)
      invariant uniqueDocs + DedupFrom(docs[i..], seen) == target
    {
      var doc := docs[i];
      ScanStep(docs, i, uniqueDocs, seen);
      if doc.pageContent !in seen {
        uniqueDocs := uniqueDocs + [doc];
        seen := seen + {doc.pageContent};
      }
    }
    assert docs[|docs|..] == [];
    DeduplicatedHasDistinctContents(docs);
    DeduplicatedIsSubsequence(docs);
    DeduplicatedCoversContents(docs);
  }

  // ---------------------------------------------------------------------------
  // Retrieval (app/services.py, retrieve)
  // ---------------------------------------------------------------------------

  /**
   * The vector store's reply: the documents found, or an exception (the
   * query is embedded by a remote call first, which can raise).
   */
  datatype SearchReply = Found(docs: seq<Document>) | SearchRaised

  /** The vector store's similarity search: a query and a count give a reply. */
  type Search = (string, nat) -> SearchReply

  /** Why a query fails: an uncaught exception from the search or from a model call. */
  datatype QueryError = SearchFailed | ModelRaised

  /** The context handed to answer generation. */
  datatype Retrieval = Retrieval(context: seq<string>)

  /** The page contents of `docs`, in order. */
  function PageContents(docs: seq<Document>): seq<string>
  {
    seq(|docs|, i requires 0 <= i < |docs| => docs[i].pageContent)
  }

  /**
   * retrieve: asks the search for `RetrievalK` documents and returns all of
   * their page contents; the de-duplicated list it computes is only logged.
   * A raising search propagates.
   */
  function Retrieve(state: Query, search: Search): (r: Result<Retrieval, QueryError>)
    ensures r.Err? <==> search(state.question, RetrievalK).SearchRaised?
    ensures r.Err? ==> r.error == SearchFailed
    ensures r.Ok? ==> |r.value.context| == |search(state.question, RetrievalK).docs|
    ensures r.Ok? ==> forall i :: 0 <= i < |r.value.context| ==>
      r.value.context[i] == search(state.question, RetrievalK).docs[i].pageContent
  {
    match search(state.question, RetrievalK)
    case SearchRaised => Err(SearchFailed)
    case Found(retrievedDocs) =>
      var filteredDocs := Deduplicated(retrievedDocs);
      Ok(Retrieval(PageContents(retrievedDocs)))
  }

  /**
   * When the search answers with `docs`, the context equals the contents of
   * the de-duplicated documents exactly when `docs` has no repeated content:
   * duplicates reach generation.
   */
  lemma RetrieveKeepsDuplicates(state: Query, search: Search, docs: seq<Document>)
    requires search(state.question, RetrievalK) == Found(docs)
    ensures Retrieve(state, search).Ok?
    ensures Retrieve(state, search).value.context == PageContents(Deduplicated(docs))
        <==> DistinctContents(docs)
  {
    DeduplicatedLength(docs);
    if DistinctContents(docs) {
      DedupFromKeepsDistinct(docs, {});
    }
  }

  // ---------------------------------------------------------------------------
  // The language model and the answer routing (app/services.py)
  // ---------------------------------------------------------------------------

  /** What the pipeline asks the model for; the prompt texts themselves are not modelled. */
  datatype Prompt =
    | DetectLanguagePrompt(question: string)
    | AnswerPrompt(question: string, context: seq<string>)
    | TranslatePrompt(text: string, targetLanguage: string)

  /** A model invocation either returns content or raises. */
  datatype Reply = Content(content: string) | Raised

  /** The chat model, as an oracle from prompts to replies. */
  type Model = Prompt -> Reply

  /** The record returned to the caller. */
  datatype Answer = Answer(userName: string, answer: string)

  /** detectar_idioma: the model's reply to the language-detection prompt. */
  function DetectLanguage(state: Query, llm: Model): Reply
  {
    llm(DetectLanguagePrompt(state.question))
  }

  /** generar_respuesta: the model's reply to the question with the retrieved context. */
  function GenerateAnswer(state: Query, context: seq<string>, llm: Model): Reply
  {
    llm(AnswerPrompt(state.question, context))
  }

  /**
   * traducir_respuesta: the model's translation of `text` into
   * `targetLanguage`, or `text` itself when the invocation raises.
   * (`state` is unused, as in the source.)
   */
  function TranslateAnswer(state: Query, text: string, targetLanguage: string, llm: Model): (r: string)
    ensures llm(TranslatePrompt(text, targetLanguage)).Raised? ==> r == text
    ensures llm(TranslatePrompt(text, targetLanguage)).Content? ==>
      r == llm(TranslatePrompt(text, targetLanguage)).content
  {
    match llm(TranslatePrompt(text, targetLanguage))
    case Content(translated) => translated
    case Raised => text
  }

  /**
   * procesar_consulta: retrieve, detect the language, generate, and
   * translate unless the detected language is exactly "es".
   */
  function ProcessQuery(state: Query, search: Search, llm: Model): (r: Result<Answer, QueryError>)
    ensures r.Ok? <==>
      Retrieve(state, search).Ok? &&
      DetectLanguage(state, llm).Content? &&
      GenerateAnswer(state, Retrieve(state, search).value.context, llm).Content?
    ensures search(state.question, RetrievalK).SearchRaised? ==> r == Err(SearchFailed)
    ensures Retrieve(state, search).Ok? && !r.Ok? ==> r == Err(ModelRaised)
    ensures r.Ok? ==> r.value.userName == state.userName
  {
    match Retrieve(state, search)
    case Err(e) => Err(e)
    case Ok(contextData) =>
      match DetectLanguage(state, llm)
      case Raised => Err(ModelRaised)
      case Content(detectedLanguage) =>
        match GenerateAnswer(state, contextData.context, llm)
        case Raised => Err(ModelRaised)
        case Content(baseResponse) =>
          var finalResponse :=
            if detectedLanguage == PassThroughLanguage then baseResponse
            else TranslateAnswer(state, baseResponse, detectedLanguage, llm);
          Ok(Answer(state.userName, finalResponse))
  }

  /** Two models that agree on every prompt except translation requests. */
  ghost predicate AgreeExceptTranslation(llm1: Model, llm2: Model)
  {
    forall p: Prompt :: !p.TranslatePrompt? ==> llm1(p) == llm2(p)
  }

  /**
   * When the detected language is "es", the answer is the base response and
   * the model's handling of translation requests has no bearing on it: no
   * translation is requested.
   */
  lemma SpanishAnswerPassesThrough(state: Query, search: Search, llm: Model, other: Model, baseResponse: string)
    requires Retrieve(state, search).Ok?
    requires DetectLanguage(state, llm) == Content(PassThroughLanguage)
    requires GenerateAnswer(state, Retrieve(state, search).value.context, llm) == Content(baseResponse)
    requires AgreeExceptTranslation(llm, other)
    ensures ProcessQuery(state, search, llm) == Ok(Answer(state.userName, baseResponse))
    ensures ProcessQuery(state, search, other) == ProcessQuery(state, search, llm)
  {
    assert other(DetectLanguagePrompt(state.question)) == llm(DetectLanguagePrompt(state.question));
    assert other(AnswerPrompt(state.question, Retrieve(state, search).value.context))
        == llm(AnswerPrompt(state.question, Retrieve(state, search).value.context));
  }

  /**
   * Any other detected language (compared exactly: "ES" or "es " included)
   * routes the base response through the translator, whose failure leaves
   * the base response in place.
   */
  lemma OtherLanguagesAreTranslated(state: Query, search: Search, llm: Model, language: string, baseResponse: string)
    requires Retrieve(state, search).Ok?
    requires DetectLanguage(state, llm) == Content(language) && language != PassThroughLanguage
    requires GenerateAnswer(state, Retrieve(state, search).value.context, llm) == Content(baseResponse)
    ensures ProcessQuery(state, search, llm) ==
      Ok(Answer(state.userName, TranslateAnswer(state, baseResponse, language, llm)))
    ensures llm(TranslatePrompt(baseResponse, language)).Raised? ==>
      ProcessQuery(state, search, llm) == Ok(Answer(state.userName, baseResponse))
    ensures llm(TranslatePrompt(baseResponse, language)).Content? ==>
      ProcessQuery(state, search, llm) ==
        Ok(Answer(state.userName, llm(TranslatePrompt(baseResponse, language)).content))
  {
  }

  /**
   * A successful answer is either the base response or a successful
   * translation of it into the detected, non-"es" language.
   */
  lemma AnswerIsBaseOrTranslation(state: Query, search: Search, llm: Model)
    requires ProcessQuery(state, search, llm).Ok?
    ensures var language := DetectLanguage(state, llm).content;
            var baseResponse := GenerateAnswer(state, Retrieve(state, search).value.context, llm).content;
            var answer := ProcessQuery(state, search, llm).value.answer;
            answer == baseResponse ||
            (language != PassThroughLanguage && llm(TranslatePrompt(baseResponse, language)) == Content(answer))
  {
  }
}
