/** The query path of the RAG model (`Rag`): the prompt template is checked
    when the model is built; a query's vector-search hits are ranked by score,
    narrowed to the requested PDF with a fail-open fallback, joined into a
    context string and substituted into the template for the language model.
    The vector index, the language model and the image processor are
    external: the index's answer is an argument, the other two are functions
    held by the model. */
module Retriever {
  import opened Results
  import opened Seqs
  import opened Text
  import opened Layout
  import opened Ranking

  const ContextPlaceholder := "{context}"
  const QueryPlaceholder := "{query}"
  /** The separator between the chunk texts of the context. */
  const ContextDelimiter := "\n\n---\n\n"
  /** The suffix of the embedding listener's key, `<chunk field>.txt`. */
  const TextSuffix := ".txt"

  /** The exceptions of the query path, as values: a failed template
      assertion, the unbound `filtered_out` after an empty search, a missing
      document field, and a template `str.format` rejects. */
  datatype RagError =
    | MissingPlaceholder(placeholder: string)
    | NoSearchResults
    | MissingField(field: string)
    | MalformedTemplate

  /** The model: the language model, the key of the vector index's embedding
      listener, the prompt template and the optional image processor, which
      maps the ranked hits and the answer to (caption, image) pairs. */
  datatype Rag<Img> = Rag(
    llm: string -> string,
    key: string,
    promptTemplate: string,
    processor: Option<(seq<SearchDoc>, string) -> seq<(string, Option<Img>)>>)

  /** Building the model (`__post_init__`): the template must contain
      `{context}`, checked first, and `{query}`. */
  function NewRag<Img>(
    llm: string -> string,
    key: string,
    promptTemplate: string,
    processor: Option<(seq<SearchDoc>, string) -> seq<(string, Option<Img>)>>)
    : (r: Result<Rag<Img>, RagError>)
    ensures r.Success? <==>
              (exists j :: OccursAt(promptTemplate, ContextPlaceholder, j))
              && (exists j :: OccursAt(promptTemplate, QueryPlaceholder, j))
    ensures (forall j :: !OccursAt(promptTemplate, ContextPlaceholder, j)) ==>
              r.Failure? && r.error == MissingPlaceholder(ContextPlaceholder)
    ensures (exists j :: OccursAt(promptTemplate, ContextPlaceholder, j))
            && (forall j :: !OccursAt(promptTemplate, QueryPlaceholder, j)) ==>
              r.Failure? && r.error == MissingPlaceholder(QueryPlaceholder)
    ensures r.Success? ==> r.value.promptTemplate == promptTemplate && r.value.key == key
  {
    if !Contains(promptTemplate, ContextPlaceholder) then Failure(MissingPlaceholder(ContextPlaceholder))
    else if !Contains(promptTemplate, QueryPlaceholder) then Failure(MissingPlaceholder(QueryPlaceholder))
    else Success(Rag(llm, key, promptTemplate, processor))
  }

  /** `key.rsplit('.txt', 1)[0]`: the key up to the last `.txt`, or the
      whole key when it has none. */
  function ChunkField(key: string): (f: string)
    ensures IsPrefix(f, key)
    ensures |f| < |key| ==> (OccursAt(key, TextSuffix, |f|)
                             && forall j :: |f| < j ==> !OccursAt(key, TextSuffix, j))
    ensures |f| == |key| ==> forall j :: !OccursAt(key, TextSuffix, j)
  {
    match LastIndexOf(key, TextSuffix)
    case Some(i) => key[..i]
    case None => key
  }

  /** The field recovered from the listener key `<field>.txt` is `<field>`,
      whatever the field name. */
  lemma ChunkFieldOfListenerKey(field: string)
    ensures ChunkField(field + TextSuffix) == field
  {
    var key := field + TextSuffix;
    assert key[|field|..|field| + |TextSuffix|] == TextSuffix;
    assert OccursAt(key, TextSuffix, |field|);
    var f := ChunkField(key);
    assert key[..|field|] == field;
  }

  /** The hit's chunk, under `field`, has an element from `pdfFilename`. */
  function MentionsFile(field: string, pdfFilename: string): SearchDoc -> bool
  {
    (d: SearchDoc) =>
      && field in d.fields
      && exists t :: 0 <= t < |d.fields[field].sourceElements|
                     && d.fields[field].sourceElements[t].element.filename == pdfFilename
  }

  /** `vector_search(query, pdf_filename)` given the index's hits `out` for
      the query: rank the hits, keep those from `pdfFilename`, and fall back
      to all ranked hits when none is.  With no hits `filtered_out` is never
      bound and the return fails. */
  function VectorSearch(key: string, pdfFilename: string, out: seq<SearchDoc>): (r: Result<seq<SearchDoc>, RagError>)
    ensures |out| == 0 ==> r == Failure(NoSearchResults)
    ensures |out| > 0 ==>
              (r.Failure? <==> exists i :: 0 <= i < |out| && ChunkField(key) !in out[i].fields)
    ensures |out| > 0 && r.Failure? ==> r.error == MissingField(ChunkField(key))
    ensures r.Success? ==>
              && |r.value| > 0
              && SortedByScore(r.value)
              && IsSubsequence(r.value, SortByScore(out))
    ensures r.Success? ==>
              var ranked := SortByScore(out);
              var matches := MentionsFile(ChunkField(key), pdfFilename);
              if exists i :: 0 <= i < |ranked| && matches(ranked[i])
              then forall i :: 0 <= i < |ranked| ==> (ranked[i] in r.value <==> matches(ranked[i]))
              else r.value == ranked
  {
    if |out| == 0 then Failure(NoSearchResults)
    else
      var field := ChunkField(key);
      var ranked := SortByScore(out);
      RankingKeepsFields(out, field);
      if exists i :: 0 <= i < |ranked| && field !in ranked[i].fields then Failure(MissingField(field))
      else
        var matches := MentionsFile(field, pdfFilename);
        var filtered := Filter(ranked, matches);
        FilterOfRanked(ranked, matches);
        if |filtered| > 0 then
          Success(filtered)
        else
          SubsequenceOfItself(ranked);
          Success(ranked)
  }

  /** Ranking neither adds nor drops a hit, so some hit lacks `field` before
      ranking exactly when one does after. */
  lemma RankingKeepsFields(out: seq<SearchDoc>, field: string)
    ensures (exists i :: 0 <= i < |out| && field !in out[i].fields)
            ==> (exists i :: 0 <= i < |SortByScore(out)| && field !in SortByScore(out)[i].fields)
    ensures (exists i :: 0 <= i < |SortByScore(out)| && field !in SortByScore(out)[i].fields)
            ==> (exists i :: 0 <= i < |out| && field !in out[i].fields)
  {
    var ranked := SortByScore(out);
    forall i | 0 <= i < |out| && field !in out[i].fields
      ensures exists j :: 0 <= j < |ranked| && field !in ranked[j].fields
    {
      var j := SamePosition(out, ranked, i);
    }
    forall j | 0 <= j < |ranked| && field !in ranked[j].fields
      ensures exists i :: 0 <= i < |out| && field !in out[i].fields
    {
      var i := SamePosition(ranked, out, j);
    }
  }


  /** An element of `a` sits somewhere in any permutation `b` of `a`. */
  lemma SamePosition(a: seq<SearchDoc>, b: seq<SearchDoc>, i: nat) returns (j: nat)
    requires multiset(a) == multiset(b) && i < |a|
    ensures j < |b| && b[j] == a[i]
  {
    assert a[i] in multiset(a);
    assert a[i] in b;
    j :| 0 <= j < |b| && b[j] == a[i];
  }

  /** The filter step of the search on a ranked list: ranked, in order, and
      holding exactly the hits that match. */
  lemma FilterOfRanked(ranked: seq<SearchDoc>, matches: SearchDoc -> bool)
    requires SortedByScore(ranked)
    ensures var f := Filter(ranked, matches);
            && SortedByScore(f)
            && IsSubsequence(f, ranked)
            && (|f| > 0 <==> exists i :: 0 <= i < |ranked| && matches(ranked[i]))
            && forall i :: 0 <= i < |ranked| ==> (ranked[i] in f <==> matches(ranked[i]))
  {
    FilterIsSubsequence(ranked, matches);
    FilterKeepsRanking(ranked, matches);
  }


  /** `x[key]` on a hit: the document store resolves the dotted key
      `<field>.txt` to the text of the chunk stored under `<field>`. */
  function TextAt(d: SearchDoc, key: string): Result<string, RagError>
  {
    var field := ChunkField(key);
    if key == field + TextSuffix && field in d.fields then Success(d.fields[field].txt)
    else Failure(MissingField(key))
  }

  /** `[x[key] for x in docs]`. */
  function ContextTexts(docs: seq<SearchDoc>, key: string): (r: Result<seq<string>, RagError>)
    ensures r.Success? <==> forall i :: 0 <= i < |docs| ==> TextAt(docs[i], key).Success?
    ensures r.Success? ==> |r.value| == |docs|
                           && forall i :: 0 <= i < |docs| ==> TextAt(docs[i], key) == Success(r.value[i])
  {
    if |docs| == 0 then Success([])
    else
      var first :- TextAt(docs[0], key);
      var rest :- ContextTexts(docs[1..], key);
      Success([first] + rest)
  }

  /** `str.format(context=..., query=...)` on a template whose replacement
      fields are `{context}` and `{query}`: `{{` and `}}` stand for single
      braces, and any other brace is an error. */
  function FormatPrompt(template: string, context: string, query: string): (r: Result<string, RagError>)
    decreases |template|
  {
    if |template| == 0 then Success("")
    else if template[0] == '{' then
      if IsPrefix("{{", template) then
        var rest :- FormatPrompt(template[2..], context, query);
        Success("{" + rest)
      else if IsPrefix(ContextPlaceholder, template) then
        var rest :- FormatPrompt(template[|ContextPlaceholder|..], context, query);
        Success(context + rest)
      else if IsPrefix(QueryPlaceholder, template) then
        var rest :- FormatPrompt(template[|QueryPlaceholder|..], context, query);
        Success(query + rest)
      else Failure(MalformedTemplate)
    else if template[0] == '}' then
      if IsPrefix("}}", template) then
        var rest :- FormatPrompt(template[2..], context, query);
        Success("}" + rest)
      else Failure(MalformedTemplate)
    else
      var rest :- FormatPrompt(template[1..], context, query);
      Success([template[0]] + rest)
  }

  predicate BraceFree(s: string)
  {
    forall i :: 0 <= i < |s| ==> s[i] != '{' && s[i] != '}'
  }

  /** `text` in front of a formatted result; failures pass through. */
  function Prefixed(text: string, r: Result<string, RagError>): Result<string, RagError>
  {
    match r
    case Success(s) => Success(text + s)
    case Failure(e) => Failure(e)
  }

  /** Text without braces is copied through unchanged. */
  lemma {:induction false} FormatCopiesPlainText(plain: string, rest: string, context: string, query: string)
    requires BraceFree(plain)
    ensures FormatPrompt(plain + rest, context, query) == Prefixed(plain, FormatPrompt(rest, context, query))
    decreases |plain|
  {
    if |plain| > 0 {
      var t := plain + rest;
      assert t[0] == plain[0] && t[1..] == plain[1..] + rest;
      FormatCopiesPlainText(plain[1..], rest, context, query);
      match FormatPrompt(rest, context, query)
      case Success(s) =>
        assert [plain[0]] + (plain[1..] + s) == plain + s;
      case Failure(_) =>
    } else {
      assert plain + rest == rest;
      match FormatPrompt(rest, context, query)
      case Success(s) =>
        assert plain + s == s;
      case Failure(_) =>
    }
  }

  /** `{query}` at the front of a template is replaced by the query. */
  lemma FormatQueryStep(rest: string, context: string, query: string)
    ensures FormatPrompt(QueryPlaceholder + rest, context, query) == Prefixed(query, FormatPrompt(rest, context, query))
  {
    var t := QueryPlaceholder + rest;
    assert t[..|QueryPlaceholder|] == QueryPlaceholder;
    assert t[1] == 'q';
    assert t[..2][1] == 'q';
    assert |ContextPlaceholder| <= |t| ==> t[..|ContextPlaceholder|][1] == 'q';
    assert t[|QueryPlaceholder|..] == rest;
  }

  /** `{context}` at the front of a template is replaced by the context. */
  lemma FormatContextStep(rest: string, context: string, query: string)
    ensures FormatPrompt(ContextPlaceholder + rest, context, query) == Prefixed(context, FormatPrompt(rest, context, query))
  {
    var t := ContextPlaceholder + rest;
    assert t[..|ContextPlaceholder|] == ContextPlaceholder;
    assert t[1] == 'c';
    assert t[..2][1] == 'c';
    assert t[|ContextPlaceholder|..] == rest;
  }

  /** A template made of brace-free text around one `{context}` followed by
      one `{query}` formats to that text with the two values in place. */
  lemma FormatFillsPlaceholders(p1: string, p2: string, p3: string, context: string, query: string)
    requires BraceFree(p1) && BraceFree(p2) && BraceFree(p3)
    ensures FormatPrompt(p1 + ContextPlaceholder + p2 + QueryPlaceholder + p3, context, query)
            == Success(p1 + context + p2 + query + p3)
  {
    var tail3 := QueryPlaceholder + p3;
    var tail2 := p2 + tail3;
    var tail1 := ContextPlaceholder + tail2;
    NestFive(p1, ContextPlaceholder, p2, QueryPlaceholder, p3);
    var r3 := FormatPrompt(p3, context, query);
    var r2 := FormatPrompt(tail3, context, query);
    var r1 := FormatPrompt(tail2, context, query);
    var r0 := FormatPrompt(tail1, context, query);
    PlainTextFormatsToItself(p3, context, query);
    FormatQueryStep(p3, context, query);
    FormatCopiesPlainText(p2, tail3, context, query);
    FormatContextStep(tail2, context, query);
    FormatCopiesPlainText(p1, tail1, context, query);
    PrefixedTwice(p1, context, r1);
    PrefixedTwice(p1 + context, p2, r2);
    PrefixedTwice(p1 + context + p2, query, r3);
  }

  lemma NestFive(a: string, b: string, c: string, d: string, e: string)
    ensures a + b + c + d + e == a + (b + (c + (d + e)))
  {
  }

  /** A brace-free template is its own prompt. */
  lemma PlainTextFormatsToItself(plain: string, context: string, query: string)
    requires BraceFree(plain)
    ensures FormatPrompt(plain, context, query) == Success(plain)
  {
    FormatCopiesPlainText(plain, "", context, query);
    assert plain + "" == plain;
  }


  /** The construction check is a substring test, not a parse: a template
      whose `{context}` is escaped as `{{context}}` is accepted ... */
  lemma EscapedPlaceholderPassesCheck(llm: string -> string, key: string)
    ensures NewRag<int>(llm, key, "{{context}}{query}", None).Success?
  {
    var t := "{{context}}{query}";
    assert t[1..1 + |ContextPlaceholder|] == ContextPlaceholder;
    assert OccursAt(t, ContextPlaceholder, 1);
    assert t[11..11 + |QueryPlaceholder|] == QueryPlaceholder;
    assert OccursAt(t, QueryPlaceholder, 11);
  }

  /** `{{` at the front of a template stands for one `{`. */
  lemma OpenBraceStep(rest: string, context: string, query: string)
    ensures FormatPrompt("{{" + rest, context, query) == Prefixed("{", FormatPrompt(rest, context, query))
  {
    var t := "{{" + rest;
    assert t[0] == '{' && t[..2] == "{{" && t[2..] == rest;
  }

  /** `}}` at the front of a template stands for one `}`. */
  lemma CloseBraceStep(rest: string, context: string, query: string)
    ensures FormatPrompt("}}" + rest, context, query) == Prefixed("}", FormatPrompt(rest, context, query))
  {
    var t := "}}" + rest;
    assert t[0] == '}' && t[..2] == "}}" && t[2..] == rest;
  }

  lemma PrefixedTwice(a: string, b: string, r: Result<string, RagError>)
    ensures Prefixed(a, Prefixed(b, r)) == Prefixed(a + b, r)
  {
    if r.Success? {
      assert a + (b + r.value) == (a + b) + r.value;
    }
  }

  /** A field name in doubled braces comes out as that name in single braces,
      not as a substitution. */
  lemma EscapedFieldIsLiteral(name: string, rest: string, context: string, query: string)
    requires BraceFree(name)
    ensures FormatPrompt("{{" + name + "}}" + rest, context, query)
            == Prefixed("{" + name + "}", FormatPrompt(rest, context, query))
  {
    var r := FormatPrompt(rest, context, query);
    CloseBraceStep(rest, context, query);
    FormatCopiesPlainText(name, "}}" + rest, context, query);
    PrefixedTwice(name, "}", r);
    assert "{{" + name + "}}" + rest == "{{" + (name + ("}}" + rest));
    OpenBraceStep(name + ("}}" + rest), context, query);
    PrefixedTwice("{", name + "}", r);
    assert "{" + (name + "}") == "{" + name + "}";
  }

  /** ... yet its prompt carries the literal text `{context}` and not the
      context. */
  lemma EscapedPlaceholderIsLiteral(context: string, query: string)
    ensures FormatPrompt("{{context}}{query}", context, query) == Success("{context}" + query)
  {
    QueryAloneFormats(context, query);
    ContextIsBraceFree();
    EscapedFieldIsLiteral("context", QueryPlaceholder, context, query);
    EscapedTemplateParts();
  }

  lemma QueryAloneFormats(context: string, query: string)
    ensures FormatPrompt(QueryPlaceholder, context, query) == Success(query)
  {
    FormatQueryStep("", context, query);
    assert QueryPlaceholder + "" == QueryPlaceholder && query + "" == query;
  }

  lemma ContextIsBraceFree()
    ensures BraceFree("context")
  {
  }

  lemma EscapedTemplateParts()
    ensures "{{" + "context" + "}}" + QueryPlaceholder == "{{context}}{query}"
    ensures "{" + "context" + "}" == "{context}"
  {
  }



  /** The result of `predict`: the answer, the hits used, and the processor's
      images when they were asked for and a processor is configured. */
  datatype Prediction<Img> = Prediction(
    answer: string,
    docs: seq<SearchDoc>,
    images: Option<seq<(string, Option<Img>)>>)

  /** `answer` is the language model's reply to the prompt formatted from
      the template, the chunk texts of `docs` joined by the delimiter, and the
      question. */
  predicate AnswersPrompt<Img>(rag: Rag<Img>, query: string, docs: seq<SearchDoc>, answer: string)
  {
    && ContextTexts(docs, rag.key).Success?
    && var context := Join(ContextTexts(docs, rag.key).value, ContextDelimiter);
       && FormatPrompt(rag.promptTemplate, context, query).Success?
       && answer == rag.llm(FormatPrompt(rag.promptTemplate, context, query).value)
  }

  /** `predict(query, pdf_filename, format_result)` given the index's hits
      `out` for the query. */
  function Predict<Img>(rag: Rag<Img>, query: string, pdfFilename: string, out: seq<SearchDoc>, formatResult: bool)
    : (r: Result<Prediction<Img>, RagError>)
    ensures |out| == 0 ==> r.Failure? && r.error == NoSearchResults
    ensures r.Success? ==>
              && VectorSearch(rag.key, pdfFilename, out).Success?
              && r.value.docs == VectorSearch(rag.key, pdfFilename, out).value
    ensures r.Success? ==> (r.value.images.Some? <==> formatResult && rag.processor.Some?)
    ensures r.Success? && r.value.images.Some? ==>
              r.value.images.value == rag.processor.value(r.value.docs, r.value.answer)
    ensures r.Success? ==> AnswersPrompt(rag, query, r.value.docs, r.value.answer)
    ensures r.Success? <==>
              && VectorSearch(rag.key, pdfFilename, out).Success?
              && Answer(rag, query, VectorSearch(rag.key, pdfFilename, out).value, formatResult).Success?
    ensures VectorSearch(rag.key, pdfFilename, out).Failure? ==>
              r == Failure(VectorSearch(rag.key, pdfFilename, out).error)
  {
    var docs :- VectorSearch(rag.key, pdfFilename, out);
    Answer(rag, query, docs, formatResult)
  }

  /** The part of `predict` after the search: prompt, answer and, on
      request, the processed documents. */
  function Answer<Img>(rag: Rag<Img>, query: string, docs: seq<SearchDoc>, formatResult: bool)
    : (r: Result<Prediction<Img>, RagError>)
    ensures r.Success? ==> r.value.docs == docs
    ensures r.Success? ==> (r.value.images.Some? <==> formatResult && rag.processor.Some?)
    ensures r.Success? && r.value.images.Some? ==>
              r.value.images.value == rag.processor.value(docs, r.value.answer)
    ensures r.Success? ==> AnswersPrompt(rag, query, docs, r.value.answer)
    ensures r.Failure? <==>
              || ContextTexts(docs, rag.key).Failure?
              || FormatPrompt(rag.promptTemplate, Join(ContextTexts(docs, rag.key).value, ContextDelimiter), query).Failure?
  {
    var texts :- ContextTexts(docs, rag.key);
    var context := Join(texts, ContextDelimiter);
    var prompt :- FormatPrompt(rag.promptTemplate, context, query);
    var answer := rag.llm(prompt);
    var images := if formatResult && rag.processor.Some? then Some(rag.processor.value(docs, answer)) else None;
    Success(Prediction(answer, docs, images))
  }

  /** Every hit a successful search returns carries the chunk field. */
  lemma SearchHitsHaveField(key: string, pdfFilename: string, out: seq<SearchDoc>)
    requires VectorSearch(key, pdfFilename, out).Success?
    ensures var docs := VectorSearch(key, pdfFilename, out).value;
            forall i :: 0 <= i < |docs| ==> ChunkField(key) in docs[i].fields
  {
    var docs := VectorSearch(key, pdfFilename, out).value;
    var ranked := SortByScore(out);
    SubsequenceMembers(docs, ranked);
    assert forall i :: 0 <= i < |ranked| ==> ranked[i] in multiset(out);
  }

  /** The chunk texts stored under `field`, hit by hit. */
  function FieldTexts(docs: seq<SearchDoc>, field: string): (texts: seq<string>)
    requires forall i :: 0 <= i < |docs| ==> field in docs[i].fields
    ensures |texts| == |docs|
  {
    seq(|docs|, i requires 0 <= i < |docs| => docs[i].fields[field].txt)
  }

  /** With the listener key `<field>.txt`, once the search succeeds the
      context lookups cannot fail: the context is the ranked hits' chunk
      texts joined by the delimiter, in order. */
  lemma PredictContext(field: string, pdfFilename: string, out: seq<SearchDoc>, docs: seq<SearchDoc>)
    requires VectorSearch(field + TextSuffix, pdfFilename, out) == Success(docs)
    ensures forall i :: 0 <= i < |docs| ==> field in docs[i].fields
    ensures ContextTexts(docs, field + TextSuffix) == Success(FieldTexts(docs, field))
  {
    var key := field + TextSuffix;
    ChunkFieldOfListenerKey(field);
    SearchHitsHaveField(key, pdfFilename, out);
    AllTextsPresent(docs, field);
  }

  lemma {:induction false} AllTextsPresent(docs: seq<SearchDoc>, field: string)
    requires ChunkField(field + TextSuffix) == field
    requires forall i :: 0 <= i < |docs| ==> field in docs[i].fields
    ensures ContextTexts(docs, field + TextSuffix) == Success(FieldTexts(docs, field))
  {
    if |docs| > 0 {
      var key := field + TextSuffix;
      AllTextsPresent(docs[1..], field);
      assert TextAt(docs[0], key) == Success(docs[0].fields[field].txt);
      assert ContextTexts(docs, key) == Success([docs[0].fields[field].txt] + FieldTexts(docs[1..], field));
      assert [docs[0].fields[field].txt] + FieldTexts(docs[1..], field) == FieldTexts(docs, field);
    } else {
      assert FieldTexts(docs, field) == [];
    }
  }

  /** End to end: with the listener key `<field>.txt`, a template of the
      shape the application uses and hits that all carry the chunk field,
      `predict` succeeds and asks the language model about the prompt built
      from the ranked chunk texts and the question. */
  lemma PredictAnswers<Img>(
    rag: Rag<Img>, field: string, p1: string, p2: string, p3: string,
    query: string, pdfFilename: string, out: seq<SearchDoc>, formatResult: bool)
    requires rag.key == field + TextSuffix
    requires rag.promptTemplate == p1 + ContextPlaceholder + p2 + QueryPlaceholder + p3
    requires BraceFree(p1) && BraceFree(p2) && BraceFree(p3)
    requires |out| > 0 && forall i :: 0 <= i < |out| ==> field in out[i].fields
    ensures Predict(rag, query, pdfFilename, out, formatResult).Success?
    ensures var p := Predict(rag, query, pdfFilename, out, formatResult).value;
            && (forall i :: 0 <= i < |p.docs| ==> field in p.docs[i].fields)
            && p.answer == rag.llm(p1 + Join(FieldTexts(p.docs, field), ContextDelimiter) + p2 + query + p3)
  {
    ChunkFieldOfListenerKey(field);
    var search := VectorSearch(rag.key, pdfFilename, out);
    assert search.Success?;
    var docs := search.value;
    PredictContext(field, pdfFilename, out, docs);
    var context := Join(FieldTexts(docs, field), ContextDelimiter);
    FormatFillsPlaceholders(p1, p2, p3, context, query);
  }

  /** A hit whose chunk, stored under `field`, comes from one element of
      `filename`. */
  function HitFrom(field: string, score: real, filename: string): (d: SearchDoc)
    ensures field in d.fields && |d.fields[field].sourceElements| == 1
    ensures d.fields[field].sourceElements[0].element.filename == filename
  {
    var e := Element("e", 1, 0, 0, UncategorizedText, "", filename);
    SearchDoc(score, map[field := Chunk("", [SourceElement(e, 0)])])
  }

  /** Three hits scoring 0.2, 0.9 and 0.5, from a.pdf, b.pdf and a.pdf. */
  function ExampleHits(field: string): seq<SearchDoc>
  {
    [HitFrom(field, 0.2, "a.pdf"), HitFrom(field, 0.9, "b.pdf"), HitFrom(field, 0.5, "a.pdf")]
  }

  lemma ExampleRanking(field: string)
    ensures var hits := ExampleHits(field);
            SortByScore(hits) == [hits[1], hits[2], hits[0]]
  {
    var hits := ExampleHits(field);
    var h0, h1, h2 := hits[0], hits[1], hits[2];
    assert hits[..2] == [h0, h1];
    assert [h0, h1][..1] == [h0];
    assert SortByScore([h0]) == [h0];
    assert Insert([h0], h1) == [h1, h0];
    assert SortByScore([h0, h1]) == [h1, h0];
    assert Insert([h0], h2) == [h2, h0];
    assert Insert([h1, h0], h2) == [h1, h2, h0];
  }

  /** The search once every hit carries the chunk field. */
  lemma SearchWithFields(key: string, pdfFilename: string, out: seq<SearchDoc>, ranked: seq<SearchDoc>)
    requires |out| > 0 && ranked == SortByScore(out)
    requires forall i :: 0 <= i < |ranked| ==> ChunkField(key) in ranked[i].fields
    ensures var filtered := Filter(ranked, MentionsFile(ChunkField(key), pdfFilename));
            VectorSearch(key, pdfFilename, out) == if |filtered| > 0 then Success(filtered) else Success(ranked)
  {
    assert !exists i :: 0 <= i < |ranked| && ChunkField(key) !in ranked[i].fields;
  }

  /** Of the ranked example hits, the two from a.pdf, in ranked order. */
  lemma ExampleMatches(field: string)
    ensures var hits := ExampleHits(field);
            Filter([hits[1], hits[2], hits[0]], MentionsFile(field, "a.pdf")) == [hits[2], hits[0]]
  {
    var hits := ExampleHits(field);
    var ranked := [hits[1], hits[2], hits[0]];
    var inA := MentionsFile(field, "a.pdf");
    assert inA(hits[0]) && inA(hits[2]) && !inA(hits[1]);
    assert ranked[1..] == [hits[2], hits[0]] && ranked[1..][1..] == [hits[0]];
    assert Filter([hits[0]], inA) == [hits[0]];
  }

  /** The example search, given its ranking. */
  lemma ExampleSearch(field: string, pdfFilename: string)
    ensures var hits := ExampleHits(field);
            var ranked := [hits[1], hits[2], hits[0]];
            var filtered := Filter(ranked, MentionsFile(field, pdfFilename));
            VectorSearch(field + TextSuffix, pdfFilename, hits)
            == if |filtered| > 0 then Success(filtered) else Success(ranked)
  {
    var hits := ExampleHits(field);
    ExampleRanking(field);
    ExampleHitsHaveField(field);
    SearchWithListenerKey(field, pdfFilename, hits, SortByScore(hits));
  }

  lemma ExampleHitsHaveField(field: string)
    ensures var ranked := SortByScore(ExampleHits(field));
            forall i :: 0 <= i < |ranked| ==> field in ranked[i].fields
  {
    var hits := ExampleHits(field);
    ExampleRanking(field);
    var ranked := [hits[1], hits[2], hits[0]];
    assert field in ranked[0].fields && field in ranked[1].fields && field in ranked[2].fields;
  }

  /** The search under the listener key `<field>.txt` once every hit carries
      `field`. */
  lemma SearchWithListenerKey(field: string, pdfFilename: string, out: seq<SearchDoc>, ranked: seq<SearchDoc>)
    requires |out| > 0 && ranked == SortByScore(out)
    requires forall i :: 0 <= i < |ranked| ==> field in ranked[i].fields
    ensures var filtered := Filter(ranked, MentionsFile(field, pdfFilename));
            VectorSearch(field + TextSuffix, pdfFilename, out)
            == if |filtered| > 0 then Success(filtered) else Success(ranked)
  {
    ChunkFieldOfListenerKey(field);
    SearchWithFields(field + TextSuffix, pdfFilename, out, ranked);
  }

  /** Asking for a.pdf gives its two hits, best first. */
  lemma SearchKeepsRequestedFile(field: string)
    ensures var hits := ExampleHits(field);
            VectorSearch(field + TextSuffix, "a.pdf", hits) == Success([hits[2], hits[0]])
  {
    ExampleMatches(field);
    ExampleSearch(field, "a.pdf");
  }

  /** Asking for a file no hit comes from gives all three hits, ranked. */
  lemma SearchFallsBackToAllHits(field: string)
    ensures var hits := ExampleHits(field);
            VectorSearch(field + TextSuffix, "c.pdf", hits) == Success([hits[1], hits[2], hits[0]])
  {
    var hits := ExampleHits(field);
    var ranked := [hits[1], hits[2], hits[0]];
    var inC := MentionsFile(field, "c.pdf");
    assert !inC(hits[0]) && !inC(hits[1]) && !inC(hits[2]);
    FilterDropsAll(ranked, inC);
    ExampleSearch(field, "c.pdf");
  }
}
