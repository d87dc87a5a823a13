/** The ingestion script: text sanitising, the document map, the choice of
    embedding backend and the vector store built with that backend's
    dimension. The models, the store and the library calls that chunk, embed
    and persist are opaque values here. */
module Ingest {
  import opened PyBuiltins

  const NUL: char := '\0'

  // ---------------------------------------------------------------------------
  // clean_text
  // ---------------------------------------------------------------------------

  /** clean_text: empty text stays empty; otherwise every NUL is removed and
      everything else is kept, in order. */
  function CleanText(s: string): (r: string)
    ensures s == "" ==> r == ""
    ensures NUL !in r
    ensures |r| == |s| - multiset(s)[NUL]
    ensures multiset(r) == multiset(s)[NUL := 0]
    ensures IsSubsequence(r, s)
  {
    if s == "" then "" else RemoveAll(s, NUL)
  }

  /** clean_text called with a missing value (None), which `not s` also turns
      into the empty string. */
  function CleanOptionalText(s: Option<string>): (r: string)
    ensures s.None? ==> r == ""
    ensures s.Some? ==> r == CleanText(s.value)
  {
    match s
    case None => ""
    case Some(t) => CleanText(t)
  }

  /** Any NUL-free, order-preserving selection from s that is as long as s
      without its NULs is CleanText(s): the result is exactly "s with the NULs
      taken out". */
  lemma {:induction false} CleanTextCharacterised(s: string, t: string)
    requires IsSubsequence(t, s) && NUL !in t
    requires |t| == |s| - multiset(s)[NUL]
    ensures t == CleanText(s)
  {
    if s != "" {
      RemoveAllUnique(t, s, NUL);
    }
  }

  /** Text without NUL comes back unchanged, and only such text does. */
  lemma CleanTextIdentity(s: string)
    ensures CleanText(s) == s <==> NUL !in s
  {
    RemoveAllIdentity(s, NUL);
  }

  lemma CleanTextIdempotent(s: string)
    ensures CleanText(CleanText(s)) == CleanText(s)
  {
    CleanTextIdentity(CleanText(s));
  }

  /** Cleaning works character by character, so it distributes over
      concatenation. */
  lemma CleanTextConcat(s: string, t: string)
    ensures CleanText(s + t) == CleanText(s) + CleanText(t)
  {
    if s == "" {
      assert s + t == t;
    } else if t == "" {
      assert s + t == s;
    } else {
      RemoveAllConcat(s, t, NUL);
    }
  }

  // ---------------------------------------------------------------------------
  // Documents
  // ---------------------------------------------------------------------------

  /** A loaded document: its text and its metadata (file_name and the like). */
  datatype Document = Document(text: string, metadata: map<string, string>)

  /** The documents handed to the index: each loaded document with its text
      cleaned and its metadata kept, in the order they were loaded. */
  function CleanDocuments(raw: seq<Document>): (docs: seq<Document>)
    ensures |docs| == |raw|
    ensures forall i :: 0 <= i < |raw| ==>
      docs[i].metadata == raw[i].metadata && docs[i].text == CleanText(raw[i].text)
  {
    if raw == [] then []
    else [Document(CleanText(raw[0].text), raw[0].metadata)] + CleanDocuments(raw[1..])
  }

  /** Cleaning the documents maps over the list: it distributes over
      concatenation, so each document is cleaned independently of the others. */
  lemma {:induction false} CleanDocumentsConcat(a: seq<Document>, b: seq<Document>)
    ensures CleanDocuments(a + b) == CleanDocuments(a) + CleanDocuments(b)
    decreases |a|
  {
    if a == [] {
      assert a + b == b;
    } else {
      assert (a + b)[0] == a[0];
      assert (a + b)[1..] == a[1..] + b;
      CleanDocumentsConcat(a[1..], b);
    }
  }

  /** Cleaning an already cleaned list changes nothing. */
  lemma CleanDocumentsIdempotent(raw: seq<Document>)
    ensures CleanDocuments(CleanDocuments(raw)) == CleanDocuments(raw)
  {
    var once := CleanDocuments(raw);
    var twice := CleanDocuments(once);
    forall i | 0 <= i < |raw| ensures twice[i] == once[i] {
      CleanTextIdempotent(raw[i].text);
    }
  }

  // ---------------------------------------------------------------------------
  // Embedding backend and vector store
  // ---------------------------------------------------------------------------

  const OpenAIModelName: string := "text-embedding-3-small"
  const LocalModelName: string := "sentence-transformers/all-MiniLM-L6-v2"
  const OpenAIDim: nat := 1536
  const LocalDim: nat := 384

  /** The embedding model object, opaque apart from which model it is. */
  datatype EmbedModel =
    | OpenAIEmbedding(model: string)
    | HuggingFaceEmbedding(modelName: string)

  /** The width of the vectors each named model produces (a property of the
      models themselves; 0 for a model name the script never builds). */
  function NativeDim(m: EmbedModel): (d: nat)
    ensures d == OpenAIDim <==> m == OpenAIEmbedding(OpenAIModelName)
    ensures d == LocalDim <==> m == HuggingFaceEmbedding(LocalModelName)
  {
    match m
    case OpenAIEmbedding(name) => if name == OpenAIModelName then OpenAIDim else 0
    case HuggingFaceEmbedding(name) => if name == LocalModelName then LocalDim else 0
  }

  /** The (model, vector_dim) pair returned by get_embed_model. */
  datatype EmbedSelection = EmbedSelection(model: EmbedModel, dim: nat)

  /** get_embed_model: the USE_OPENAI toggle picks the backend, and the
      dimension returned beside it is the one that model produces. */
  function GetEmbedModel(useOpenAI: bool): (r: EmbedSelection)
    ensures r.dim == OpenAIDim <==> useOpenAI
    ensures r.dim == LocalDim <==> !useOpenAI
    ensures r.model.OpenAIEmbedding? <==> useOpenAI
    ensures r.dim == NativeDim(r.model)
  {
    if useOpenAI then EmbedSelection(OpenAIEmbedding(OpenAIModelName), OpenAIDim)
    else EmbedSelection(HuggingFaceEmbedding(LocalModelName), LocalDim)
  }

  /** The connection parameters handed to PGVectorStore.from_params (their
      environment lookup is not modelled). */
  datatype ConnParams = ConnParams(
    database: string, user: string, password: string,
    host: string, port: string, tableName: string)

  /** The store handle, opaque apart from its parameters and vector width. */
  datatype PgVectorStore = PgVectorStore(params: ConnParams, embedDim: nat)

  /** get_pg_store: the store is opened with the dimension of the selected
      embedding model and with the given connection parameters. */
  function GetPgStore(useOpenAI: bool, params: ConnParams): (store: PgVectorStore)
    ensures store.params == params
    ensures store.embedDim == NativeDim(GetEmbedModel(useOpenAI).model)
    ensures store.embedDim == (if useOpenAI then OpenAIDim else LocalDim)
  {
    var selection := GetEmbedModel(useOpenAI);
    PgVectorStore(params, selection.dim)
  }

  // ---------------------------------------------------------------------------
  // main
  // ---------------------------------------------------------------------------

  const ChunkSize: nat := 200
  const ChunkOverlap: nat := 20

  /** What one run of main hands to VectorStoreIndex.from_documents and what
      it reports: the embedding model, the store, the chunking parameters, the
      cleaned documents and the count printed at the end. */
  datatype IngestRun = IngestRun(
    model: EmbedModel, store: PgVectorStore,
    chunkSize: nat, chunkOverlap: nat,
    docs: seq<Document>, count: nat)

  /** main: the documents indexed are the cleaned documents, none holds a NUL,
      the count reported is their number, and the store's vector width is the
      width of the model that embeds them. */
  function IngestMain(useOpenAI: bool, params: ConnParams, raw: seq<Document>): (r: IngestRun)
    ensures r.docs == CleanDocuments(raw)
    ensures r.count == |raw| == |r.docs|
    ensures forall i :: 0 <= i < |r.docs| ==> NUL !in r.docs[i].text
    ensures r.store.embedDim == NativeDim(r.model)
    ensures r.store.params == params
    ensures r.chunkSize == ChunkSize && r.chunkOverlap == ChunkOverlap
  {
    var selection := GetEmbedModel(useOpenAI);
    var store := GetPgStore(useOpenAI, params);
    var docs := CleanDocuments(raw);
    IngestRun(selection.model, store, ChunkSize, ChunkOverlap, docs, |docs|)
  }
}
