/** The pure parts of the utilities module besides the chunker: query
    validation, file-name cleaning, and the assembly of the context, the
    source list and the context preview around the language-model call of
    `generate_response`. */
module Utils {
  import opened PyStrings
  import opened PyPaths
  import opened Documents
  import opened Chunker

  // ---------------------------------------------------------------------
  // validate_query

  /** A query needs at least this many characters once stripped. */
  const MinQueryChars: nat := 5

  /** A query may have at most this many tokens. */
  const MaxQueryTokens: nat := 300

  /** `validate_query(query)`: reject an empty query or one shorter than five
      characters once stripped, then one of more than 300 tokens. The token
      count is taken of the query as given, not of the stripped query. */
  function ValidateQuery(query: string, tokens: TokenCounter): (ok: bool)
    ensures ok <==> |Strip(query)| >= MinQueryChars && tokens(query) <= MaxQueryTokens
    ensures query == "" ==> !ok
    ensures (forall i :: 0 <= i < |query| ==> IsSpace(query[i])) ==> !ok
    ensures ok ==> |query| >= MinQueryChars
  {
    if query == "" || |Strip(query)| < MinQueryChars then false
    else if tokens(query) > MaxQueryTokens then false
    else true
  }

  /** Surrounding whitespace does not help a query through the length check:
      only the stripped characters count. */
  lemma ValidateQueryLengthIsStripped(query: string, pad: string, tokens: TokenCounter)
    requires forall i :: 0 <= i < |pad| ==> IsSpace(pad[i])
    requires |Strip(query)| < MinQueryChars
    ensures !ValidateQuery(pad + query + pad, tokens)
  {
    var span := StripSpan(query);
    PaddedSpaces(pad, query, span.0, span.1);
    StripSpanWithin(pad + query + pad, |pad| + span.0, |pad| + span.1);
  }

  /** Padding both sides of `s` with whitespace keeps whitespace outside the
      window `lo..hi`, shifted by the padding. */
  lemma PaddedSpaces(pad: string, s: string, lo: nat, hi: nat)
    requires lo <= hi <= |s|
    requires forall i :: 0 <= i < |pad| ==> IsSpace(pad[i])
    requires forall i :: 0 <= i < lo ==> IsSpace(s[i])
    requires forall i :: hi <= i < |s| ==> IsSpace(s[i])
    ensures forall i :: 0 <= i < |pad| + lo ==> IsSpace((pad + s + pad)[i])
    ensures forall i :: |pad| + hi <= i < |pad + s + pad| ==> IsSpace((pad + s + pad)[i])
  {
    var q := pad + s + pad;
    forall i | 0 <= i < |pad| + lo ensures IsSpace(q[i]) {
      if i >= |pad| {
        assert q[i] == s[i - |pad|];
      }
    }
    forall i | |pad| + hi <= i < |q| ensures IsSpace(q[i]) {
      if i < |pad| + |s| {
        assert q[i] == s[i - |pad|];
      } else {
        assert q[i] == pad[i - |pad| - |s|];
      }
    }
  }

  /** Whatever `strip` keeps lies inside any window outside of which there is
      only whitespace. */
  lemma StripSpanWithin(s: string, lo: nat, hi: nat)
    requires lo <= hi <= |s|
    requires forall i :: 0 <= i < lo ==> IsSpace(s[i])
    requires forall i :: hi <= i < |s| ==> IsSpace(s[i])
    ensures |Strip(s)| <= hi - lo
  {
    var span := StripSpan(s);
    if span.0 < span.1 {
      assert !IsSpace(s[span.0]) && !IsSpace(s[span.1 - 1]);
      assert lo <= span.0;
      assert span.1 - 1 < hi;
    }
  }

  // ---------------------------------------------------------------------
  // clean_filename

  /** What `replace(" ", "_").lower()` does to one character. */
  function NormalizeChar(c: char): (d: char)
    ensures d != ' ' && !IsAsciiUpper(d)
  {
    LowerChar(if c == ' ' then '_' else c)
  }

  /** `replace(" ", "_").lower()` on a whole name. */
  function NormalizeName(name: string): (r: string)
    ensures |r| == |name|
    ensures forall i :: 0 <= i < |r| ==> r[i] == NormalizeChar(name[i])
  {
    Lower(ReplaceChar(name, ' ', '_'))
  }

  /** Names that agree character by character after normalisation normalise
      to the same name. */
  lemma NormalizeNameAgrees(a: string, b: string)
    requires |a| == |b|
    requires forall i :: 0 <= i < |a| ==> NormalizeChar(a[i]) == NormalizeChar(b[i])
    ensures NormalizeName(a) == NormalizeName(b)
  {
    var na := NormalizeName(a);
    var nb := NormalizeName(b);
    forall i | 0 <= i < |na| ensures na[i] == nb[i] {
      assert na[i] == NormalizeChar(a[i]);
    }
  }

  /** `clean_filename(filename)`: the root `os.path.splitext` gives, with
      spaces turned into underscores and ASCII letters lowercased. */
  function CleanFilename(filename: string): (r: string)
    ensures |r| == |SplitExt(filename).0| == |filename| - |SplitExt(filename).1|
    ensures forall i :: 0 <= i < |r| ==> r[i] != ' ' && !IsAsciiUpper(r[i])
    ensures forall i :: 0 <= i < |r| ==> r[i] == NormalizeChar(filename[i])
  {
    var root := SplitExt(filename).0;
    assert root <= filename;
    NormalizeName(root)
  }

  /** The extension is dropped exactly when the final path component has one;
      a name without one keeps its full length. */
  lemma CleanFilenameDropsOnlyExtension(filename: string)
    ensures |CleanFilename(filename)| < |filename| <==> HasExtension(Basename(filename))
  {
    SplitExtFindsExtension(filename);
  }

  /** Cleaning a cleaned name whose final component has no extension changes
      nothing: the character normalisation is idempotent. */
  lemma CleanFilenameIdempotent(filename: string)
    requires !HasExtension(Basename(CleanFilename(filename)))
    ensures CleanFilename(CleanFilename(filename)) == CleanFilename(filename)
  {
    var c := CleanFilename(filename);
    SplitExtFindsExtension(c);
    var cc := CleanFilename(c);
    forall i | 0 <= i < |cc| ensures cc[i] == c[i] {
      assert c[i] != ' ' && !IsAsciiUpper(c[i]);
    }
  }

  // ---------------------------------------------------------------------
  // generate_response

  /** The context handed to the language model: the chunk contents joined by
      "\n\n", in retrieval order. */
  function ContextText(docs: seq<Document>): (ctx: string)
    ensures |docs| == 0 ==> ctx == ""
    ensures |docs| == 1 ==> ctx == docs[0].pageContent
  {
    Join(ParagraphSep, Contents(docs))
  }

  /** The context is the contents plus one "\n\n" between each pair. */
  lemma ContextTextLength(docs: seq<Document>)
    requires |docs| > 0
    ensures |ContextText(docs)| == TotalLength(Contents(docs)) + 2 * (|docs| - 1)
  {
    JoinLength(ParagraphSep, Contents(docs));
  }

  /** Each retrieved document contributes its content in order: the context of
      two runs of documents is their contexts glued by "\n\n". */
  lemma ContextTextConcat(a: seq<Document>, b: seq<Document>)
    requires |a| > 0 && |b| > 0
    ensures ContextText(a + b) == ContextText(a) + "\n\n" + ContextText(b)
  {
    assert Contents(a + b) == Contents(a) + Contents(b);
    JoinConcat(ParagraphSep, Contents(a), Contents(b));
  }

  /** `doc.metadata.get('source', '')`. */
  function SourceOf(d: Document): string
  {
    MetaOrEmpty(d, "source")
  }

  /** `set(doc.metadata.get('source', '') for doc in context_docs)`: every
      distinct source once, '' standing for a document without one. The
      order in which Python lists a set is unspecified, so the model keeps
      the set. */
  function Sources(docs: seq<Document>): (r: set<string>)
    ensures forall s :: s in r <==> exists i :: 0 <= i < |docs| && SourceOf(docs[i]) == s
  {
    if |docs| == 0 then {}
    else
      var init := docs[..|docs| - 1];
      assert forall i :: 0 <= i < |init| ==> init[i] == docs[i];
      Sources(init) + {SourceOf(docs[|docs| - 1])}
  }

  /** There are never more sources than documents. */
  lemma {:induction false} SourcesAtMostDocs(docs: seq<Document>)
    ensures |Sources(docs)| <= |docs|
  {
    if |docs| > 0 {
      SourcesAtMostDocs(docs[..|docs| - 1]);
    }
  }

  /** How much of the context is shown back with the answer. */
  const ContextPreviewLength: nat := 2000

  const Ellipsis: string := "..."

  /** `context_used`: the context, or its first 2000 characters followed by
      "..." when it is longer. */
  function ContextUsed(ctx: string): (r: string)
    ensures |ctx| <= ContextPreviewLength ==> r == ctx
    ensures |ctx| > ContextPreviewLength ==> |r| == ContextPreviewLength + |Ellipsis| && EndsWith(r, Ellipsis)
    ensures |r| <= ContextPreviewLength + |Ellipsis|
    ensures Take(r, ContextPreviewLength) == Take(ctx, ContextPreviewLength)
  {
    if |ctx| > ContextPreviewLength then ctx[..ContextPreviewLength] + Ellipsis else ctx
  }

  /** The preview of a preview is the preview. */
  lemma ContextUsedIdempotent(ctx: string)
    ensures ContextUsed(ContextUsed(ctx)) == ContextUsed(ctx)
  {
    var r := ContextUsed(ctx);
    if |ctx| > ContextPreviewLength {
      assert r[..ContextPreviewLength] == ctx[..ContextPreviewLength];
    }
  }

  /** A context of exactly 2000 characters followed by "..." is its own
      preview, so the preview alone does not tell whether anything was cut. */
  lemma ContextUsedAmbiguous(head: string)
    requires |head| == ContextPreviewLength
    ensures ContextUsed(head + Ellipsis) == head + Ellipsis
  {
    assert (head + Ellipsis)[..ContextPreviewLength] == head;
  }

  /** The language-model call of `generate_response`, given the context and
      the question, in that order; it is outside this model. */
  type AnswerModel = (string, string) -> string

  /** The dictionary `generate_response` returns. */
  datatype Response = Response(answer: string, sources: set<string>, contextUsed: string)

  /** `generate_response(query, context_docs)` around the model call. */
  function GenerateResponse(query: string, docs: seq<Document>, model: AnswerModel): (r: Response)
    ensures r.answer == Strip(model(ContextText(docs), query))
    ensures r.answer == [] || (!IsSpace(r.answer[0]) && !IsSpace(r.answer[|r.answer| - 1]))
    ensures forall s :: s in r.sources <==> exists i :: 0 <= i < |docs| && SourceOf(docs[i]) == s
    ensures |r.sources| <= |docs|
    ensures |r.contextUsed| <= ContextPreviewLength + |Ellipsis|
    ensures Take(r.contextUsed, ContextPreviewLength) == Take(ContextText(docs), ContextPreviewLength)
    ensures |ContextText(docs)| <= ContextPreviewLength ==> r.contextUsed == ContextText(docs)
    ensures |ContextText(docs)| > ContextPreviewLength ==>
      |r.contextUsed| == ContextPreviewLength + |Ellipsis| && EndsWith(r.contextUsed, Ellipsis)
  {
    var context := ContextText(docs);
    SourcesAtMostDocs(docs);
    Response(Strip(model(context, query)), Sources(docs), ContextUsed(context))
  }

  /** The answer is the model's reply without the whitespace around it, and
      nothing else of the reply is changed. */
  lemma GenerateResponseTrimsReply(query: string, docs: seq<Document>, model: AnswerModel,
                                   pre: string, reply: string, post: string)
    requires model(ContextText(docs), query) == pre + reply + post
    requires forall i :: 0 <= i < |pre| ==> IsSpace(pre[i])
    requires forall i :: 0 <= i < |post| ==> IsSpace(post[i])
    requires reply != [] ==> !IsSpace(reply[0]) && !IsSpace(reply[|reply| - 1])
    ensures GenerateResponse(query, docs, model).answer == reply
  {
    StripPadded(pre, reply, post);
  }
}
