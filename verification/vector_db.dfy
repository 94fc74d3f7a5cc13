/** The client-side logic of the vector-store module: chunk identifiers, the
    choice of loader for a file, and the ingestion loop that tags every chunk
    and hands the whole batch to the store in one write.

    MD5, the PDF and text loaders, LangChain's character splitter and the
    store are outside this model: they enter as the fields of `Env`. */
module VectorDb {
  import opened PyStrings
  import opened PyPaths
  import opened Documents
  import opened Utils

  datatype Option<T> = None | Some(value: T)

  /** A step that may raise: the error text stands for the exception. */
  datatype Result<T> = Ok(value: T) | Err(message: string)

  // ---------------------------------------------------------------------
  // generate_document_id

  predicate IsLowerHexDigit(c: char)
  {
    '0' <= c <= '9' || 'a' <= c <= 'f'
  }

  /** What `hashlib.md5(...).hexdigest()` returns: 32 lowercase hex digits. */
  type HexDigest = s: string | |s| == 32 && forall i :: 0 <= i < |s| ==> IsLowerHexDigit(s[i])
    witness "00000000000000000000000000000000"

  /** MD5 of a text's UTF-8 encoding, as hex. */
  type Digest = string -> HexDigest

  /** How much of the cleaned source name starts an identifier. */
  const SourcePrefixLength: nat := 20

  /** How many hex digits of the content hash end an identifier. */
  const HashLength: nat := 8

  /** The source part of an identifier. */
  function SourcePrefix(source: string): (prefix: string)
    ensures |prefix| == if |CleanFilename(source)| < SourcePrefixLength then |CleanFilename(source)| else SourcePrefixLength
    ensures prefix <= CleanFilename(source)
    ensures |CleanFilename(source)| <= SourcePrefixLength ==> prefix == CleanFilename(source)
  {
    Take(CleanFilename(source), SourcePrefixLength)
  }

  /** The content part of an identifier. */
  function ContentHash(text: string, md5: Digest): (h: string)
    ensures |h| == HashLength
    ensures h <= md5(text)
    ensures forall i :: 0 <= i < |h| ==> IsLowerHexDigit(h[i])
  {
    md5(text)[..HashLength]
  }

  /** `generate_document_id(text, source)`: the cleaned source name cut to
      20 characters, a dash, and the first 8 hex digits of the MD5 of the
      text. The result depends on nothing but its arguments. */
  function GenerateDocumentId(text: string, source: string, md5: Digest): (id: string)
    ensures |id| == |SourcePrefix(source)| + 1 + HashLength
    ensures |id| <= SourcePrefixLength + 1 + HashLength
  {
    SourcePrefix(source) + "-" + ContentHash(text, md5)
  }

  /** An identifier has no spaces and no upper-case ASCII letters. */
  lemma DocumentIdCharacters(text: string, source: string, md5: Digest)
    ensures var id := GenerateDocumentId(text, source, md5);
      forall i :: 0 <= i < |id| ==> id[i] != ' ' && !IsAsciiUpper(id[i])
  {
    var p := SourcePrefix(source);
    var h := ContentHash(text, md5);
    var id := p + "-" + h;
    forall i | 0 <= i < |id| ensures id[i] != ' ' && !IsAsciiUpper(id[i]) {
      if i < |p| {
        assert id[i] == CleanFilename(source)[i];
      } else if i > |p| {
        assert id[i] == h[i - |p| - 1];
      }
    }
  }

  /** Reads an identifier back as (source prefix, content hash): the hash is
      the last 8 characters and a dash comes just before it. The prefix may
      itself contain dashes, so the identifier is read from the right. */
  function ParseDocumentId(id: string): (r: Option<(string, string)>)
    ensures r.Some? ==> r.value.0 + "-" + r.value.1 == id && |r.value.1| == HashLength
  {
    if |id| >= HashLength + 1 && id[|id| - HashLength - 1] == '-' then
      Some((id[..|id| - HashLength - 1], id[|id| - HashLength..]))
    else
      None
  }

  /** Every identifier reads back as the prefix and hash it was built from. */
  lemma ParseGeneratedId(text: string, source: string, md5: Digest)
    ensures ParseDocumentId(GenerateDocumentId(text, source, md5))
         == Some((SourcePrefix(source), ContentHash(text, md5)))
  {
    var p := SourcePrefix(source);
    var h := ContentHash(text, md5);
    var id := GenerateDocumentId(text, source, md5);
    assert id[|id| - HashLength - 1] == '-';
    assert id[..|id| - HashLength - 1] == p;
    assert id[|id| - HashLength..] == h;
  }

  /** Two identifiers are equal exactly when their source prefixes and their
      content hashes are. */
  lemma GeneratedIdsEqual(t1: string, s1: string, t2: string, s2: string, md5: Digest)
    ensures GenerateDocumentId(t1, s1, md5) == GenerateDocumentId(t2, s2, md5)
        <==> SourcePrefix(s1) == SourcePrefix(s2) && ContentHash(t1, md5) == ContentHash(t2, md5)
  {
    ParseGeneratedId(t1, s1, md5);
    ParseGeneratedId(t2, s2, md5);
  }

  /** Identifiers built from the same source share everything but the final
      8 hash characters. */
  lemma SameSourceIdsDifferOnlyInHash(t1: string, t2: string, source: string, md5: Digest)
    ensures var id1 := GenerateDocumentId(t1, source, md5);
      var id2 := GenerateDocumentId(t2, source, md5);
      && |id1| == |id2|
      && id1[..|id1| - HashLength] == id2[..|id2| - HashLength] == SourcePrefix(source) + "-"
  {
    var id1 := GenerateDocumentId(t1, source, md5);
    var id2 := GenerateDocumentId(t2, source, md5);
    assert id1[..|id1| - HashLength] == SourcePrefix(source) + "-";
    assert id2[..|id2| - HashLength] == SourcePrefix(source) + "-";
  }

  /** Names that differ only in extension, case or spaces-versus-underscores
      give the same source prefix, so chunks of equal text get the same
      identifier: "Guide A.pdf" and "guide_a.txt" collide. */
  lemma IdsIgnoreNameVariants(text: string, stem1: string, e1: string, stem2: string, e2: string, md5: Digest)
    requires HasNonDot(Basename(stem1)) && HasNonDot(Basename(stem2))
    requires forall i :: 0 <= i < |e1| ==> e1[i] != '.' && e1[i] != '/'
    requires forall i :: 0 <= i < |e2| ==> e2[i] != '.' && e2[i] != '/'
    requires |stem1| == |stem2|
    requires forall i :: 0 <= i < |stem1| ==> NormalizeChar(stem1[i]) == NormalizeChar(stem2[i])
    ensures GenerateDocumentId(text, stem1 + "." + e1, md5) == GenerateDocumentId(text, stem2 + "." + e2, md5)
  {
    SplitExtOfAppended(stem1, e1);
    SplitExtOfAppended(stem2, e2);
    NormalizeNameAgrees(stem1, stem2);
    assert CleanFilename(stem1 + "." + e1) == CleanFilename(stem2 + "." + e2);
  }

  // ---------------------------------------------------------------------
  // load_document

  /** The LangChain loader `load_document` picks. */
  datatype Loader = PdfLoader | TextLoader(encoding: string)

  const PdfSuffix: string := ".pdf"

  const TextEncoding: string := "utf-8"

  /** A path ending in ".pdf" goes to the PDF loader, every other path to the
      UTF-8 text loader. */
  function ChooseLoader(path: string): (l: Loader)
    ensures l == PdfLoader <==> EndsWith(path, PdfSuffix)
    ensures l != PdfLoader ==> l == TextLoader(TextEncoding)
  {
    if EndsWith(path, PdfSuffix) then PdfLoader else TextLoader(TextEncoding)
  }

  /** The suffix test is case-sensitive and looks at nothing else: ".PDF"
      goes to the text loader, and so do ".txt" and ".md". */
  lemma ChooseLoaderExamples(stem: string)
    ensures ChooseLoader(stem + ".pdf") == PdfLoader
    ensures ChooseLoader(stem + ".PDF") == TextLoader(TextEncoding)
    ensures ChooseLoader(stem + ".txt") == TextLoader(TextEncoding)
    ensures ChooseLoader(stem + ".md") == TextLoader(TextEncoding)
  {
    assert (stem + ".pdf")[|stem|..] == ".pdf";
    LastCharDiffers(stem + ".PDF", PdfSuffix, 'F');
    LastCharDiffers(stem + ".txt", PdfSuffix, 't');
    LastCharDiffers(stem + ".md", PdfSuffix, 'd');
  }

  /** A path whose last character is not 'f' does not end in ".pdf". */
  lemma LastCharDiffers(s: string, suffix: string, last: char)
    requires |s| > 0 && |suffix| > 0
    requires s[|s| - 1] == last != suffix[|suffix| - 1]
    ensures !EndsWith(s, suffix)
  {
    if |suffix| <= |s| {
      assert s[|s| - |suffix|..][|suffix| - 1] == last;
    }
  }

  /** The character splitter's settings in `load_document`: chunks of at
      most 1000 characters (measured with `len`), 200 of them overlapping. */
  const SplitterChunkSize: nat := 1000

  const SplitterChunkOverlap: nat := 200

  /** The collaborators of the vector-store module. */
  datatype Env = Env(
    loadPdf: string -> Result<seq<Document>>,
    loadText: (string, string) -> Result<seq<Document>>,
    splitDocuments: (nat, nat, seq<Document>) -> seq<Document>,
    md5: Digest)

  /** `load_document(file_path)`: load with the chosen loader, then split.
      A loader failure is the call's failure. */
  function LoadDocument(path: string, env: Env): (r: Result<seq<Document>>)
    ensures EndsWith(path, PdfSuffix) ==>
      (r.Err? <==> env.loadPdf(path).Err?) &&
      (r.Ok? ==> r.value == env.splitDocuments(SplitterChunkSize, SplitterChunkOverlap, env.loadPdf(path).value))
    ensures !EndsWith(path, PdfSuffix) ==>
      (r.Err? <==> env.loadText(path, TextEncoding).Err?) &&
      (r.Ok? ==> r.value == env.splitDocuments(SplitterChunkSize, SplitterChunkOverlap, env.loadText(path, TextEncoding).value))
  {
    var raw := match ChooseLoader(path)
      case PdfLoader => env.loadPdf(path)
      case TextLoader(encoding) => env.loadText(path, encoding);
    match raw
    case Err(e) => Err(e)
    case Ok(docs) => Ok(env.splitDocuments(SplitterChunkSize, SplitterChunkOverlap, docs))
  }

  // ---------------------------------------------------------------------
  // load_documents_to_pinecone

  /** The metadata step for one chunk of `path`: `source` becomes the file's
      base name, `id` the identifier of the content and the FULL path. */
  function Tag(d: Document, path: string, md5: Digest): (t: Document)
    ensures t.pageContent == d.pageContent
    ensures t.metadata.Keys == d.metadata.Keys + {"source", "id"}
    ensures t.metadata["source"] == Basename(path)
    ensures t.metadata["id"] == GenerateDocumentId(d.pageContent, path, md5)
    ensures forall k :: k in d.metadata && k != "source" && k != "id" ==> t.metadata[k] == d.metadata[k]
  {
    Document(d.pageContent, d.metadata["source" := Basename(path)]["id" := GenerateDocumentId(d.pageContent, path, md5)])
  }

  /** A document carries the metadata the loop gives chunks of `path`. */
  ghost predicate TaggedFor(d: Document, path: string, md5: Digest)
  {
    && "source" in d.metadata && d.metadata["source"] == Basename(path)
    && "id" in d.metadata && d.metadata["id"] == GenerateDocumentId(d.pageContent, path, md5)
  }

  /** The chunks of one file with their metadata, in order. */
  function TagAll(docs: seq<Document>, path: string, md5: Digest): (ts: seq<Document>)
    ensures |ts| == |docs|
    ensures forall k :: 0 <= k < |ts| ==> ts[k].pageContent == docs[k].pageContent
    ensures forall k :: 0 <= k < |ts| ==> TaggedFor(ts[k], path, md5)
  {
    seq(|docs|, k requires 0 <= k < |docs| => Tag(docs[k], path, md5))
  }

  /** What one file adds to the batch: its tagged chunks, or nothing at all
      when loading it raised. */
  function FileContribution(path: string, env: Env): (ds: seq<Document>)
    ensures forall k :: 0 <= k < |ds| ==> TaggedFor(ds[k], path, env.md5)
  {
    match LoadDocument(path, env)
    case Err(_) => []
    case Ok(docs) => TagAll(docs, path, env.md5)
  }

  /** The contributions of the files, concatenated in file order. */
  function Gather(paths: seq<string>, contribution: string -> seq<Document>): seq<Document>
  {
    if |paths| == 0 then []
    else Gather(paths[..|paths| - 1], contribution) + contribution(paths[|paths| - 1])
  }

  lemma {:induction false} GatherConcat(p1: seq<string>, p2: seq<string>, contribution: string -> seq<Document>)
    ensures Gather(p1 + p2, contribution) == Gather(p1, contribution) + Gather(p2, contribution)
    decreases |p2|
  {
    if |p2| > 0 {
      var init := p2[..|p2| - 1];
      var all := p1 + p2;
      assert all[..|all| - 1] == p1 + init;
      assert all[|all| - 1] == p2[|p2| - 1];
      GatherConcat(p1, init, contribution);
    } else {
      assert p1 + p2 == p1;
    }
  }

  /** Whatever holds of each document with the file it came from holds of
      every gathered document with some input file. */
  lemma {:induction false} GatherOrigin(paths: seq<string>, contribution: string -> seq<Document>,
                                        from: (Document, string) -> bool)
    requires forall path, k :: 0 <= k < |contribution(path)| ==> from(contribution(path)[k], path)
    ensures forall k :: 0 <= k < |Gather(paths, contribution)| ==>
      exists j :: 0 <= j < |paths| && from(Gather(paths, contribution)[k], paths[j])
  {
    if |paths| > 0 {
      var init := paths[..|paths| - 1];
      var last := paths[|paths| - 1];
      GatherOrigin(init, contribution, from);
      var a := Gather(init, contribution);
      var c := contribution(last);
      var all := Gather(paths, contribution);
      assert all == a + c;
      forall k | 0 <= k < |all|
        ensures exists j :: 0 <= j < |paths| && from(all[k], paths[j])
      {
        if k < |a| {
          var j :| 0 <= j < |init| && from(a[k], init[j]);
          assert all[k] == a[k] && paths[j] == init[j];
          assert from(all[k], paths[j]);
        } else {
          assert all[k] == c[k - |a|];
          assert from(all[k], paths[|paths| - 1]);
        }
      }
      assert forall k :: 0 <= k < |all| ==> exists j :: 0 <= j < |paths| && from(all[k], paths[j]);
    } else {
      assert Gather(paths, contribution) == [];
    }
  }

  /** `FileContribution` for every file, under one environment. */
  function Contributions(env: Env): string -> seq<Document>
  {
    path => FileContribution(path, env)
  }

  /** `all_docs` after the loop over `paths`. */
  function Accumulate(paths: seq<string>, env: Env): seq<Document>
  {
    Gather(paths, Contributions(env))
  }

  /** The files of `paths` that satisfy `failing`, in order. */
  function Select(paths: seq<string>, failing: string -> bool): (r: seq<string>)
    ensures |r| <= |paths|
    ensures forall x :: x in r <==> x in paths && failing(x)
  {
    if |paths| == 0 then []
    else
      var last := paths[|paths| - 1];
      Select(paths[..|paths| - 1], failing) + (if failing(last) then [last] else [])
  }

  /** The files whose error message the loop prints, in order. */
  function FailedFiles(paths: seq<string>, env: Env): seq<string>
  {
    Select(paths, path => LoadDocument(path, env).Err?)
  }

  /** The one write to the store: the batch, the index and the namespace.
      No identifiers are passed; the computed ones live in metadata only. */
  datatype StoreWrite = StoreWrite(documents: seq<Document>, indexName: string, namespace: string)

  /** The inner loop: give every chunk of `path` its metadata. */
  method TagChunks(docs: seq<Document>, path: string, md5: Digest) returns (tagged: seq<Document>)
    ensures |tagged| == |docs|
    ensures forall k :: 0 <= k < |docs| ==> tagged[k] == Tag(docs[k], path, md5)
  {
    tagged := [];
    for j := 0 to |docs|
      invariant |tagged| == j
      invariant forall k :: 0 <= k < j ==> tagged[k] == Tag(docs[k], path, md5)
    {
      tagged := tagged + [Tag(docs[j], path, md5)];
    }
  }

  /** One turn of the outer loop. */
  lemma AccumulateStep(paths: seq<string>, i: nat, env: Env)
    requires i < |paths|
    ensures Accumulate(paths[..i + 1], env) == Accumulate(paths[..i], env) + FileContribution(paths[i], env)
    ensures FailedFiles(paths[..i + 1], env)
         == FailedFiles(paths[..i], env) + (if LoadDocument(paths[i], env).Err? then [paths[i]] else [])
  {
    assert paths[..i + 1][..i] == paths[..i];
  }

  /** The loop and the write guard of `load_documents_to_pinecone`. The
      store receives exactly the accumulated batch, and only when it is not
      empty; the result also lists the files that failed. */
  method LoadDocumentsToStore(paths: seq<string>, namespace: string, indexName: string, env: Env)
    returns (write: Option<StoreWrite>, failed: seq<string>)
    ensures write.Some? <==> Accumulate(paths, env) != []
    ensures write.Some? ==> write.value == StoreWrite(Accumulate(paths, env), indexName, namespace)
    ensures failed == FailedFiles(paths, env)
    ensures write.Some? ==> forall k :: 0 <= k < |write.value.documents| ==>
      exists j :: 0 <= j < |paths| && TaggedFor(write.value.documents[k], paths[j], env.md5)
  {
    var all: seq<Document> := [];
    failed := [];
    for i := 0 to |paths|
      invariant all == Accumulate(paths[..i], env)
      invariant failed == FailedFiles(paths[..i], env)
    {
      var path := paths[i];
      AccumulateStep(paths, i, env);
      match LoadDocument(path, env)
      case Err(_) =>
        failed := failed + [path];
      case Ok(docs) =>
        var tagged := TagChunks(docs, path, env.md5);
        assert tagged == TagAll(docs, path, env.md5);
        all := all + tagged;
    }
    assert paths[..|paths|] == paths;
    if all != [] {
      AccumulatedDocsAreTagged(paths, env);
      write := Some(StoreWrite(all, indexName, namespace));
    } else {
      write := None;
    }
  }

  /** Files are processed in order: the batch of two runs of files is the
      first run's batch followed by the second's. */
  lemma AccumulateConcat(p1: seq<string>, p2: seq<string>, env: Env)
    ensures Accumulate(p1 + p2, env) == Accumulate(p1, env) + Accumulate(p2, env)
  {
    GatherConcat(p1, p2, Contributions(env));
  }

  /** A file whose loading raises adds nothing, and the files after it are
      processed as if it were not there. */
  lemma FailedFileContributesNothing(p1: seq<string>, f: string, p2: seq<string>, env: Env)
    requires LoadDocument(f, env).Err?
    ensures Accumulate(p1 + [f] + p2, env) == Accumulate(p1, env) + Accumulate(p2, env)
  {
    assert Contributions(env)(f) == [];
    GatherAround(p1, f, p2, Contributions(env));
  }

  /** A file that loads contributes all its chunks, tagged, in their order. */
  lemma LoadedFileContributesItsChunks(p1: seq<string>, f: string, p2: seq<string>, env: Env)
    requires LoadDocument(f, env).Ok?
    ensures var docs := LoadDocument(f, env).value;
      Accumulate(p1 + [f] + p2, env) == Accumulate(p1, env) + TagAll(docs, f, env.md5) + Accumulate(p2, env)
  {
    assert Contributions(env)(f) == TagAll(LoadDocument(f, env).value, f, env.md5);
    GatherAround(p1, f, p2, Contributions(env));
  }

  /** One file in the middle of a run contributes exactly its own part. */
  lemma GatherAround(p1: seq<string>, f: string, p2: seq<string>, contribution: string -> seq<Document>)
    ensures Gather(p1 + [f] + p2, contribution)
         == Gather(p1, contribution) + contribution(f) + Gather(p2, contribution)
  {
    GatherConcat(p1 + [f], p2, contribution);
    GatherConcat(p1, [f], contribution);
    assert [f][..0] == [];
  }

  /** Every accumulated chunk carries the `source` and `id` metadata of one of
      the input files. */
  lemma AccumulatedDocsAreTagged(paths: seq<string>, env: Env)
    ensures forall k :: 0 <= k < |Accumulate(paths, env)| ==>
      exists j :: 0 <= j < |paths| && TaggedFor(Accumulate(paths, env)[k], paths[j], env.md5)
  {
    var from := (d, path) => TaggedFor(d, path, env.md5);
    GatherOrigin(paths, Contributions(env), from);
    var all := Accumulate(paths, env);
    forall k | 0 <= k < |all|
      ensures exists j :: 0 <= j < |paths| && TaggedFor(all[k], paths[j], env.md5)
    {
      var j :| 0 <= j < |paths| && from(all[k], paths[j]);
      assert TaggedFor(all[k], paths[j], env.md5);
    }
  }

  /** Nothing removes duplicates: ingesting the same files twice in one call
      sends every chunk twice. */
  lemma NoDeduplication(paths: seq<string>, env: Env)
    ensures Accumulate(paths + paths, env) == Accumulate(paths, env) + Accumulate(paths, env)
    ensures |Accumulate(paths + paths, env)| == 2 * |Accumulate(paths, env)|
  {
    AccumulateConcat(paths, paths, env);
  }

  /** The `source` of a chunk is the base name of its file while its `id` is
      built from the full path: for a file "dir/name" the source is "name"
      and, when "dir" is short enough, the identifier keeps the '/' after
      it (for "docs/Guide.txt" it starts with "docs/guide-"). */
  lemma SourceIsBaseNameButIdUsesPath(d: Document, dir: string, name: string, md5: Digest)
    requires forall i :: 0 <= i < |name| ==> name[i] != '/'
    requires |dir| < SourcePrefixLength
    ensures var t := Tag(d, dir + "/" + name, md5);
      && t.metadata["source"] == name
      && t.metadata["id"][|dir|] == '/'
  {
    var p := dir + "/" + name;
    RFindIs(dir + "/", '/', |dir|);
    RFindAppend(dir + "/", name, '/');
    assert Basename(p) == name;
    assert p[|dir|] == '/';
    IdStartsWithPath(d.pageContent, p, md5, |dir|);
  }

  /** The first characters of an identifier are those of the full path,
      normalised, up to the extension or the 20-character cut. */
  lemma IdStartsWithPath(text: string, path: string, md5: Digest, n: nat)
    requires n < SourcePrefixLength && n < |SplitExt(path).0|
    ensures GenerateDocumentId(text, path, md5)[n] == NormalizeChar(path[n])
  {
    var c := CleanFilename(path);
    assert SourcePrefix(path)[n] == c[n];
  }
}
