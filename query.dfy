/** The interactive query script: the read loop that strips each line, stops
    at the first "exit" or "quit" in any letter case, and otherwise dispatches
    the stripped line to the query engine; and the rendering of each returned
    source as a label and a 250-character preview. */
module Query {
  import opened PyBuiltins
  import Ingest

  // ---------------------------------------------------------------------------
  // Exit test
  // ---------------------------------------------------------------------------

  const ExitKeywords: set<string> := {"exit", "quit"}

  predicate AsciiLetter(c: char)
  {
    'A' <= c <= 'Z' || 'a' <= c <= 'z'
  }

  /** The exit test on a stripped question: its lower-case form is one of the
      two keywords. Only a four-letter ASCII word can pass it, so no character
      outside A-Z and a-z ever takes part in the decision. */
  predicate IsExitWord(question: string): (b: bool)
    ensures b ==> |question| == 4
    ensures b ==> forall i :: 0 <= i < |question| ==> AsciiLetter(question[i])
  {
    Lower(question) in ExitKeywords
  }

  /** The exit test on a raw input line: the line is stripped first, so an exit
      command is at least as long as its keyword. */
  predicate IsExitCommand(line: string): (b: bool)
    ensures b ==> 4 <= |line|
  {
    IsExitWord(Strip(line))
  }

  /** The index of the first element that passes the test p, or |xs| when
      none does: where a `while True` loop that breaks on p stops. */
  function FirstMatch<X>(xs: seq<X>, p: X -> bool): (k: nat)
    ensures k <= |xs|
    ensures forall i :: 0 <= i < k ==> !p(xs[i])
    ensures k < |xs| ==> p(xs[k])
  {
    if xs == [] then 0
    else if p(xs[0]) then 0
    else 1 + FirstMatch(xs[1..], p)
  }

  /** The index of the first exit command among the lines, or |lines| when
      there is none. */
  function FirstExit(lines: seq<string>): (k: nat)
    ensures k <= |lines|
    ensures forall i :: 0 <= i < k ==> !IsExitCommand(lines[i])
    ensures k < |lines| ==> IsExitCommand(lines[k])
  {
    FirstMatch(lines, IsExitCommand)
  }

  /** A line whose letters spell an exit keyword in any case, surrounded by any
      whitespace, still ends the loop: "  EXIT\n" and "Quit" both do. */
  lemma PaddedExitTerminates(p: string, w: string, q: string)
    requires AllSpace(p) && AllSpace(q)
    requires Lower(w) in ExitKeywords
    ensures IsExitCommand(p + w + q)
  {
    assert |w| == 4;
    assert !IsSpace(w[0]) by { assert Lower(w)[0] == 'e' || Lower(w)[0] == 'q'; }
    assert !IsSpace(w[3]) by { assert Lower(w)[3] == 't'; }
    StripUnique([], w, []);
    assert [] + w + [] == w;
    StripPadding(p, w, q);
  }

  /** Conversely, every exit command has that shape: blank text, a keyword in
      some letter case, blank text. */
  lemma ExitCommandShape(line: string) returns (p: string, w: string, q: string)
    requires IsExitCommand(line)
    ensures line == p + w + q
    ensures AllSpace(p) && AllSpace(q)
    ensures Lower(w) in ExitKeywords
  {
    p, q := StripSplit(line);
    w := Strip(line);
  }

  lemma {:induction false} FirstMatchIgnoresRest<X>(xs: seq<X>, more: seq<X>, p: X -> bool)
    requires FirstMatch(xs, p) < |xs|
    ensures FirstMatch(xs + more, p) == FirstMatch(xs, p)
    decreases |xs|
  {
    assert (xs + more)[0] == xs[0];
    if !p(xs[0]) {
      assert (xs + more)[1..] == xs[1..] + more;
      FirstMatchIgnoresRest(xs[1..], more, p);
    }
  }

  lemma {:induction false} FirstMatchAfterMisses<X>(xs: seq<X>, more: seq<X>, p: X -> bool)
    requires FirstMatch(xs, p) == |xs|
    ensures FirstMatch(xs + more, p) == |xs| + FirstMatch(more, p)
    decreases |xs|
  {
    if xs == [] {
      assert xs + more == more;
    } else {
      assert (xs + more)[0] == xs[0];
      assert (xs + more)[1..] == xs[1..] + more;
      FirstMatchAfterMisses(xs[1..], more, p);
    }
  }

  /** A blank (or all-whitespace) line is not an exit command: it is
      dispatched as the empty question. */
  lemma BlankLineDispatched(line: string)
    requires AllSpace(line)
    ensures Strip(line) == "" && !IsExitCommand(line)
  {
    StripUnique(line, [], []);
    assert line + [] + [] == line;
  }

  /** Lines after the first exit command are never read: appending input
      after it does not change where the loop stops. */
  lemma FirstExitIgnoresRest(lines: seq<string>, more: seq<string>)
    requires FirstExit(lines) < |lines|
    ensures FirstExit(lines + more) == FirstExit(lines)
  {
    FirstMatchIgnoresRest(lines, more, IsExitCommand);
  }

  /** Lines with no exit command among them are all dispatched before any
      later line is looked at. */
  lemma FirstExitAfterQuestions(lines: seq<string>, more: seq<string>)
    requires FirstExit(lines) == |lines|
    ensures FirstExit(lines + more) == |lines| + FirstExit(more)
  {
    FirstMatchAfterMisses(lines, more, IsExitCommand);
  }

  /** An exit command on the first line stops the loop before anything is
      dispatched. */
  lemma ExitFirstStopsAtOnce(line: string, rest: seq<string>)
    requires IsExitCommand(line)
    ensures FirstExit([line] + rest) == 0
  {
    assert ([line] + rest)[0] == line;
  }

  // ---------------------------------------------------------------------------
  // Sources
  // ---------------------------------------------------------------------------

  const FileNameKey: string := "file_name"
  const UnknownLabel: string := "unknown"
  const PreviewLength: nat := 250

  /** A retrieved chunk: its text and the metadata inherited from its document
      (its similarity score is floating point and not modelled). */
  datatype SourceNode = SourceNode(text: string, metadata: map<string, string>)

  /** What the query engine returns for one question. */
  datatype Response = Response(answer: string, sourceNodes: seq<SourceNode>)

  /** The label printed for a source: the chunk's file name, or "unknown" when
      its metadata has none. */
  function SourceLabel(metadata: map<string, string>): (name: string)
    ensures FileNameKey in metadata ==> name == metadata[FileNameKey]
    ensures FileNameKey !in metadata ==> name == UnknownLabel
  {
    Get(metadata, FileNameKey, UnknownLabel)
  }

  /** The preview printed for a source: the first 250 characters of its text,
      with every line break shown as a space. */
  function Preview(text: string): (r: string)
    ensures |r| == if |text| < PreviewLength then |text| else PreviewLength
    ensures '\n' !in r
    ensures forall i :: 0 <= i < |r| ==> r[i] == (if text[i] == '\n' then ' ' else text[i])
  {
    ReplaceChar(Take(text, PreviewLength), '\n', ' ')
  }

  /** A short text without line breaks is shown whole. */
  lemma PreviewOfShortLine(text: string)
    requires |text| <= PreviewLength && '\n' !in text
    ensures Preview(text) == text
  {
  }

  /** The preview only looks at the first 250 characters. */
  lemma PreviewIgnoresTail(text: string, tail: string)
    requires |text| >= PreviewLength
    ensures Preview(text + tail) == Preview(text)
  {
    var a, b := Preview(text + tail), Preview(text);
    forall i | 0 <= i < |a| ensures a[i] == b[i] {
      assert (text + tail)[i] == text[i];
    }
  }

  /** The two printed parts of one source entry. */
  datatype SourceLine = SourceLine(fileName: string, preview: string)

  /** One printed source entry: the node's label and its preview. */
  function RenderSource(node: SourceNode): (entry: SourceLine)
    ensures entry.fileName == if FileNameKey in node.metadata then node.metadata[FileNameKey] else UnknownLabel
    ensures entry.preview == Preview(node.text)
  {
    SourceLine(SourceLabel(node.metadata), Preview(node.text))
  }

  /** One printed entry per source node, in the same order. */
  function RenderSources(nodes: seq<SourceNode>): (lines: seq<SourceLine>)
    ensures |lines| == |nodes|
    ensures forall i :: 0 <= i < |nodes| ==> lines[i] == RenderSource(nodes[i])
  {
    if nodes == [] then [] else [RenderSource(nodes[0])] + RenderSources(nodes[1..])
  }

  /** The `for source in response.source_nodes` loop. */
  method FormatSources(nodes: seq<SourceNode>) returns (lines: seq<SourceLine>)
    ensures lines == RenderSources(nodes)
  {
    lines := [];
    for i := 0 to |nodes|
      invariant lines == RenderSources(nodes[..i])
    {
      var name := SourceLabel(nodes[i].metadata);
      var preview := Preview(nodes[i].text);
      RenderSourcesStep(nodes, i);
      lines := lines + [SourceLine(name, preview)];
    }
    assert nodes[..|nodes|] == nodes;
  }

  /** One turn of the sources loop appends the entry for node i. */
  lemma RenderSourcesStep(nodes: seq<SourceNode>, i: nat)
    requires i < |nodes|
    ensures RenderSources(nodes[..i + 1]) == RenderSources(nodes[..i]) + [RenderSource(nodes[i])]
  {
    assert nodes[..i + 1] == nodes[..i] + [nodes[i]];
    RenderSourcesSnoc(nodes[..i], nodes[i]);
  }

  lemma {:induction false} RenderSourcesSnoc(nodes: seq<SourceNode>, node: SourceNode)
    ensures RenderSources(nodes + [node]) == RenderSources(nodes) + [RenderSource(node)]
    decreases |nodes|
  {
    if nodes == [] {
      assert nodes + [node] == [node];
    } else {
      assert (nodes + [node])[0] == nodes[0];
      assert (nodes + [node])[1..] == nodes[1..] + [node];
      RenderSourcesSnoc(nodes[1..], node);
    }
  }

  // ---------------------------------------------------------------------------
  // The read loop
  // ---------------------------------------------------------------------------

  /** What is printed for one dispatched question. */
  datatype Exchange = Exchange(question: string, answer: string, sources: seq<SourceLine>)

  /** The exchange printed for `question`: the engine's answer and one entry
      per source node it returned. */
  function Reply(question: string, engine: string -> Response): (e: Exchange)
    ensures e.question == question && e.answer == engine(question).answer
    ensures |e.sources| == |engine(question).sourceNodes|
    ensures forall i :: 0 <= i < |e.sources| ==> e.sources[i] == RenderSource(engine(question).sourceNodes[i])
  {
    Exchange(question, engine(question).answer, RenderSources(engine(question).sourceNodes))
  }

  /** How the loop ends: at the exit command on line `at`, or by running out of
      input (where input() raises EOFError, which main does not catch). */
  datatype LoopOutcome = ExitCommand(at: nat) | EndOfInput

  /** The exchanges printed for lines none of which is an exit command: each
      line is stripped and sent to the engine, in order. */
  function Replies(lines: seq<string>, engine: string -> Response): (es: seq<Exchange>)
    ensures |es| == |lines|
    ensures forall i :: 0 <= i < |lines| ==> es[i] == Reply(Strip(lines[i]), engine)
  {
    if lines == [] then [] else [Reply(Strip(lines[0]), engine)] + Replies(lines[1..], engine)
  }

  lemma {:induction false} RepliesSnoc(lines: seq<string>, line: string, engine: string -> Response)
    ensures Replies(lines + [line], engine) == Replies(lines, engine) + [Reply(Strip(line), engine)]
    decreases |lines|
  {
    if lines == [] {
      assert lines + [line] == [line];
    } else {
      assert (lines + [line])[0] == lines[0];
      assert (lines + [line])[1..] == lines[1..] + [line];
      RepliesSnoc(lines[1..], line, engine);
    }
  }

  /** One dispatched question: query the engine, then print its answer and its
      sources. */
  method AnswerQuestion(question: string, engine: string -> Response) returns (e: Exchange)
    ensures e == Reply(question, engine)
  {
    var response := engine(question);
    var sources := FormatSources(response.sourceNodes);
    e := Exchange(question, response.answer, sources);
  }

  /** The exchanges for the first i + 1 lines extend those for the first i. */
  lemma RepliesStep(lines: seq<string>, i: nat, engine: string -> Response)
    requires i < |lines|
    ensures Replies(lines[..i + 1], engine) == Replies(lines[..i], engine) + [Reply(Strip(lines[i]), engine)]
  {
    assert lines[..i + 1] == lines[..i] + [lines[i]];
    RepliesSnoc(lines[..i], lines[i], engine);
  }

  /** Where the loop stands after reading line i, given that it has not
      stopped before it. */
  lemma FirstExitStep(lines: seq<string>, i: nat)
    requires i <= FirstExit(lines) && i < |lines|
    ensures IsExitCommand(lines[i]) ==> i == FirstExit(lines)
    ensures !IsExitCommand(lines[i]) ==> i + 1 <= FirstExit(lines)
  {
  }

  /** The `while True` loop of main over the given input lines. Every line
      before the first exit command is dispatched, in order, as its stripped
      form; the exit line and everything after it is not. */
  method QueryLoop(lines: seq<string>, engine: string -> Response)
    returns (transcript: seq<Exchange>, outcome: LoopOutcome)
    ensures transcript == Replies(lines[..FirstExit(lines)], engine)
    ensures |transcript| == FirstExit(lines)
    ensures outcome == if FirstExit(lines) < |lines| then ExitCommand(FirstExit(lines)) else EndOfInput
  {
    transcript := [];
    outcome := EndOfInput;
    var i := 0;
    while i < |lines|
      invariant 0 <= i <= FirstExit(lines)
      invariant transcript == Replies(lines[..i], engine)
    {
      var question := Strip(lines[i]);
      FirstExitStep(lines, i);
      if IsExitWord(question) {
        outcome := ExitCommand(i);
        break;
      }
      var e := AnswerQuestion(question, engine);
      RepliesStep(lines, i, engine);
      transcript := transcript + [e];
      i := i + 1;
    }
  }

  // ---------------------------------------------------------------------------
  // Setup
  // ---------------------------------------------------------------------------

  const LlmModelName: string := "llama3"

  /** What main builds before the loop: the store from get_pg_store, the
      embedding model from get_embed_model, and the local language model. */
  datatype QuerySetup = QuerySetup(store: Ingest.PgVectorStore, model: Ingest.EmbedModel, llm: string)

  /** main's setup: both the store and the model come from the same toggle, so
      the store's vector width is the width of the model embedding questions. */
  function Connect(useOpenAI: bool, params: Ingest.ConnParams): (r: QuerySetup)
    ensures r.store.embedDim == Ingest.NativeDim(r.model)
    ensures r.store.params == params
    ensures r.model.OpenAIEmbedding? <==> useOpenAI
    ensures r.llm == LlmModelName
  {
    var store := Ingest.GetPgStore(useOpenAI, params);
    var selection := Ingest.GetEmbedModel(useOpenAI);
    QuerySetup(store, selection.model, LlmModelName)
  }

  /** Under the same toggle and parameters, the query side opens the very store
      that ingestion filled, and embeds questions with the model that embedded
      the documents. */
  lemma QueryMatchesIngest(useOpenAI: bool, params: Ingest.ConnParams, raw: seq<Ingest.Document>)
    ensures Connect(useOpenAI, params).store == Ingest.IngestMain(useOpenAI, params, raw).store
    ensures Connect(useOpenAI, params).model == Ingest.IngestMain(useOpenAI, params, raw).model
  {
  }

  /** Nothing but the shared toggle keeps the two sides consistent: had ingestion
      and querying been run with different toggles, the table's vector width
      would not be the width of the query embeddings. */
  lemma MismatchedToggles(ingestOpenAI: bool, queryOpenAI: bool, params: Ingest.ConnParams, raw: seq<Ingest.Document>)
    requires ingestOpenAI != queryOpenAI
    ensures Ingest.IngestMain(ingestOpenAI, params, raw).store.embedDim
         != Ingest.NativeDim(Connect(queryOpenAI, params).model)
  {
  }
}
