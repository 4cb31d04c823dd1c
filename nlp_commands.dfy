/**
 * The NLP runner's entry point: the command table and the command-line
 * dispatch of `main`, and the placeholder answer of `embed_text` when no
 * sentence-embedding model is installed.
 */
module NlpCommands {
  import opened Wrappers

  datatype Command =
    | DetectLanguage | ExtractEntities | ExtractKeywords | AnalyzeSentiment
    | SplitSentences | GenerateOutline | EmbedText | ClassifyText

  /** The command table, in its declaration order. */
  const CommandTable: seq<(string, Command)> :=
    [("detect_language", DetectLanguage),
     ("extract_entities", ExtractEntities),
     ("extract_keywords", ExtractKeywords),
     ("analyze_sentiment", AnalyzeSentiment),
     ("split_sentences", SplitSentences),
     ("generate_outline", GenerateOutline),
     ("embed_text", EmbedText),
     ("classify_text", ClassifyText)]

  /** The names listed as `available` in error answers, in table order. */
  function Available(): seq<string>
  {
    seq(|CommandTable|, i requires 0 <= i < |CommandTable| => CommandTable[i].0)
  }

  function LookupFrom(name: string, i: nat): Option<Command>
    decreases |CommandTable| - i
  {
    if i >= |CommandTable| then None
    else if CommandTable[i].0 == name then Some(CommandTable[i].1)
    else LookupFrom(name, i + 1)
  }

  /** `COMMANDS.get(name)` */
  function Lookup(name: string): Option<Command>
  {
    LookupFrom(name, 0)
  }

  function Name(c: Command): string
  {
    match c
    case DetectLanguage => "detect_language"
    case ExtractEntities => "extract_entities"
    case ExtractKeywords => "extract_keywords"
    case AnalyzeSentiment => "analyze_sentiment"
    case SplitSentences => "split_sentences"
    case GenerateOutline => "generate_outline"
    case EmbedText => "embed_text"
    case ClassifyText => "classify_text"
  }

  lemma {:induction false} LookupFromFinds(name: string, i: nat)
    ensures LookupFrom(name, i).Some? <==> exists j :: i <= j < |CommandTable| && CommandTable[j].0 == name
    ensures LookupFrom(name, i).Some? ==> exists j :: i <= j < |CommandTable| && CommandTable[j] == (name, LookupFrom(name, i).value)
    decreases |CommandTable| - i
  {
    if i < |CommandTable| && CommandTable[i].0 != name {
      LookupFromFinds(name, i + 1);
    }
  }

  /**
   * The table maps each command's name to that command and nothing else:
   * a lookup succeeds exactly on the eight names, and gives back the command
   * whose name was looked up.
   */
  lemma LookupRoundTrip(name: string, c: Command)
    ensures Lookup(Name(c)) == Some(c)
    ensures Lookup(name).Some? <==> name in Available()
    ensures Lookup(name) == Some(c) ==> Name(c) == name
  {
    LookupFromFinds(name, 0);
    if Lookup(name).Some? {
      var j :| 0 <= j < |CommandTable| && CommandTable[j] == (name, Lookup(name).value);
      assert Available()[j] == name;
    }
    if name in Available() {
      var j :| 0 <= j < |Available()| && Available()[j] == name;
      assert CommandTable[j].0 == name;
    }
  }

  /**
   * The `available` list names every command exactly once, and looking up
   * its i-th name gives the command of table row i.
   */
  lemma AvailableListsEachCommandOnce(c: Command)
    ensures Name(c) in Available()
    ensures forall i, j :: 0 <= i < j < |Available()| ==> Available()[i] != Available()[j]
    ensures forall i :: 0 <= i < |Available()| ==> Lookup(Available()[i]) == Some(CommandTable[i].1)
  {
    var names := Available();
    assert names == ["detect_language", "extract_entities", "extract_keywords", "analyze_sentiment",
                     "split_sentences", "generate_outline", "embed_text", "classify_text"];
    forall i | 0 <= i < |names|
      ensures Lookup(names[i]) == Some(CommandTable[i].1)
    {
      LookupRoundTrip(names[i], CommandTable[i].1);
    }
  }

  /** The JSON error answer of `main`, before it exits with status 1. */
  datatype DispatchError = DispatchError(error: string, available: seq<string>)

  /** Picks the command named by `argv[1]`. */
  function SelectCommand(argv: seq<string>): (r: Result<Command, DispatchError>)
    ensures |argv| < 2 ==> r == Err(DispatchError("No command specified", Available()))
    ensures |argv| >= 2 && Lookup(argv[1]).None? ==>
              r == Err(DispatchError("Unknown command: " + argv[1], Available()))
    ensures r.Ok? ==> |argv| >= 2 && Lookup(argv[1]) == Some(r.value)
  {
    if |argv| < 2 then Err(DispatchError("No command specified", Available()))
    else
      match Lookup(argv[1])
      case None => Err(DispatchError("Unknown command: " + argv[1], Available()))
      case Some(c) => Ok(c)
  }

  /** Naming a command on the command line selects exactly that command. */
  lemma SelectNamedCommand(argv: seq<string>, c: Command)
    requires |argv| >= 2 && argv[1] == Name(c)
    ensures SelectCommand(argv) == Ok(c)
  {
    LookupRoundTrip(argv[1], c);
  }

  // ---------------------------------------------------------------------------
  // embed_text without a model
  // ---------------------------------------------------------------------------

  const EmbeddingDimensions := 384

  datatype Embeddings = Embeddings(vectors: seq<seq<real>>, model: string, dimensions: nat)

  /**
   * The texts to embed: the `texts` argument when given, otherwise the single
   * `text` argument when it is non-empty, otherwise none.
   */
  function TextsToEmbed(text: string, texts: Option<seq<string>>): seq<string>
  {
    match texts
    case Some(ts) => ts
    case None => if text != "" then [text] else []
  }

  function ZeroVector(): (v: seq<real>)
    ensures |v| == EmbeddingDimensions
  {
    seq(EmbeddingDimensions, _ => 0.0)
  }

  /** The answer of `embed_text` when the embedding model is unavailable. */
  function PlaceholderEmbeddings(text: string, texts: Option<seq<string>>): (r: Embeddings)
    ensures |r.vectors| == |TextsToEmbed(text, texts)|
    ensures texts.None? ==> |r.vectors| == if text == "" then 0 else 1
    ensures forall i :: 0 <= i < |r.vectors| ==>
              |r.vectors[i]| == EmbeddingDimensions && forall j :: 0 <= j < |r.vectors[i]| ==> r.vectors[i][j] == 0.0
    ensures r.model == "unavailable" && r.dimensions == EmbeddingDimensions
  {
    var ts := TextsToEmbed(text, texts);
    Embeddings(seq(|ts|, _ => ZeroVector()), "unavailable", EmbeddingDimensions)
  }
}
