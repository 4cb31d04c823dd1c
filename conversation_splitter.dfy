/**
 * The conversation export splitter: it finds the conversations array of a
 * JSON export, cuts it into consecutive chunks of `perChunk` conversations
 * and emits one file per chunk, named `chunk_0001.json`, `chunk_0002.json`,
 * ... Reading and writing the files is outside the model; the emitted files
 * are returned as (name, content) pairs.
 */
module ConversationSplitting {
  import opened Wrappers
  import opened PyText
  import opened Arith

  /** A JSON value as `json.load` returns it. */
  datatype Json =
    | JNull
    | JBool(b: bool)
    | JNum(n: int)
    | JStr(s: string)
    | JArr(items: seq<Json>)
    | JObj(fields: map<string, Json>)

  /** Whether the input was a bare array or an object holding `conversations`. */
  datatype Shape = Bare | Wrapped

  datatype SplitError =
    | NoConversations  // "Unable to find conversations array"
    | NotAnArray       // `conversations` holds something other than an array
    | ZeroPerChunk     // `// 0` raises

  /**
   * The shape rule: an object with a `conversations` key uses that array, a
   * bare array is used directly, and anything else is an error.
   */
  function SelectConversations(data: Json): (r: Result<(seq<Json>, Shape), SplitError>)
    ensures data.JArr? ==> r == Ok((data.items, Bare))
    ensures data.JObj? && "conversations" in data.fields && data.fields["conversations"].JArr? ==>
              r == Ok((data.fields["conversations"].items, Wrapped))
    ensures !data.JArr? && !(data.JObj? && "conversations" in data.fields) ==> r == Err(NoConversations)
    ensures r.Ok? <==> data.JArr? || (data.JObj? && "conversations" in data.fields && data.fields["conversations"].JArr?)
  {
    if data.JObj? && "conversations" in data.fields then
      match data.fields["conversations"]
      case JArr(items) => Ok((items, Wrapped))
      case _ => Err(NotAnArray)
    else if data.JArr? then Ok((data.items, Bare))
    else Err(NoConversations)
  }

  /** `(total + per_chunk - 1) // per_chunk` */
  function TotalChunks(n: nat, perChunk: int): int
    requires perChunk != 0
  {
    FloorDiv(n + perChunk - 1, perChunk)
  }

  /** For a positive chunk size the chunk count is ceil(n / perChunk). */
  lemma TotalChunksIsCeiling(n: nat, perChunk: int)
    requires perChunk > 0
    ensures var c := TotalChunks(n, perChunk);
      && c >= 0 && c * perChunk >= n
      && (c > 0 ==> (c - 1) * perChunk < n)
      && (c == 0 <==> n == 0)
  {
    var c := TotalChunks(n, perChunk);
    assert (c - 1) * perChunk == c * perChunk - perChunk;
    if c < 0 {
      MulMonotone(c, -1, perChunk);
    }
  }

  /** `conversations[i * k : min(i * k + k, n)]` */
  function ChunkSlice(convs: seq<Json>, perChunk: int, i: nat): seq<Json>
  {
    var start := i * perChunk;
    PySlice(convs, start, Min(start + perChunk, |convs|))
  }

  /** What is written for a chunk: the bare list, or the list under `conversations`. */
  function Emit(shape: Shape, chunk: seq<Json>): Json
  {
    match shape
    case Bare => JArr(chunk)
    case Wrapped => JObj(map["conversations" := JArr(chunk)])
  }

  // ---------------------------------------------------------------------------
  // Chunk file names: `chunk_{n:04d}.json`
  // ---------------------------------------------------------------------------

  function DigitChar(d: nat): char
    requires d < 10
  {
    ('0' as int + d) as char
  }

  /** The decimal digits of `n`, without leading zeros ("0" for zero). */
  function Decimal(n: nat): (s: string)
    ensures |s| >= 1
    ensures forall j :: 0 <= j < |s| ==> '0' <= s[j] <= '9'
  {
    if n < 10 then [DigitChar(n)] else Decimal(n / 10) + [DigitChar(n % 10)]
  }

  /** `{n:04d}`: the decimal digits of `n`, zero-padded on the left to at least four. */
  function Pad4(n: nat): (s: string)
    ensures |s| >= 4
    ensures forall j :: 0 <= j < |s| ==> '0' <= s[j] <= '9'
  {
    var d := Decimal(n);
    if |d| >= 4 then d else Zeros(4 - |d|) + d
  }

  function Zeros(z: nat): (s: string)
    ensures |s| == z && forall j :: 0 <= j < z ==> s[j] == '0'
  {
    if z == 0 then [] else ['0'] + Zeros(z - 1)
  }

  function ChunkName(number: nat): string
  {
    "chunk_" + Pad4(number) + ".json"
  }

  /** The number a string of decimal digits denotes; leading zeros are allowed. */
  function DecimalValue(s: string): nat
    requires forall j :: 0 <= j < |s| ==> '0' <= s[j] <= '9'
  {
    if |s| == 0 then 0
    else 10 * DecimalValue(s[..|s| - 1]) + (s[|s| - 1] as int - '0' as int)
  }

  lemma {:induction false} DecimalRoundTrip(n: nat)
    ensures DecimalValue(Decimal(n)) == n
  {
    if n >= 10 {
      var d := Decimal(n);
      assert d[..|d| - 1] == Decimal(n / 10);
      DecimalRoundTrip(n / 10);
    }
  }

  lemma {:induction false} LeadingZeroValue(s: string)
    requires forall j :: 0 <= j < |s| ==> '0' <= s[j] <= '9'
    ensures DecimalValue(['0'] + s) == DecimalValue(s)
    decreases |s|
  {
    if |s| > 0 {
      var t := ['0'] + s;
      assert t[..|t| - 1] == ['0'] + s[..|s| - 1];
      LeadingZeroValue(s[..|s| - 1]);
    }
  }

  lemma {:induction false} ZerosValue(z: nat, s: string)
    requires forall j :: 0 <= j < |s| ==> '0' <= s[j] <= '9'
    ensures DecimalValue(Zeros(z) + s) == DecimalValue(s)
    decreases z
  {
    if z > 0 {
      var rest := Zeros(z - 1) + s;
      assert Zeros(z) == ['0'] + Zeros(z - 1);
      assert Zeros(z) + s == ['0'] + rest;
      LeadingZeroValue(rest);
      ZerosValue(z - 1, s);
    } else {
      assert Zeros(z) + s == s;
    }
  }

  /** The padded digits read back as the chunk number. */
  lemma Pad4RoundTrip(n: nat)
    ensures DecimalValue(Pad4(n)) == n
  {
    var d := Decimal(n);
    DecimalRoundTrip(n);
    if |d| < 4 {
      ZerosValue(4 - |d|, d);
    }
  }

  /**
   * Different chunks get different file names, and chunks 1 to 9999 get
   * names of exactly 15 characters.
   */
  lemma ChunkNamesDistinct(a: nat, b: nat)
    ensures ChunkName(a) == ChunkName(b) ==> a == b
    ensures a < 10000 ==> |ChunkName(a)| == 15
  {
    if ChunkName(a) == ChunkName(b) {
      var na, nb := ChunkName(a), ChunkName(b);
      assert Pad4(a) == na[6..|na| - 5];
      assert Pad4(b) == nb[6..|nb| - 5];
      Pad4RoundTrip(a);
      Pad4RoundTrip(b);
    }
    if a < 10000 {
      DecimalLength(a);
    }
  }

  lemma {:induction false} DecimalLength(n: nat)
    ensures n < 10000 ==> |Decimal(n)| <= 4
  {
    if n >= 10 {
      DecimalLength(n / 10);
      if n < 10000 {
        assert n / 10 < 1000;
        if n / 10 >= 10 {
          DecimalShort(n / 10);
        }
      }
    }
  }

  lemma {:induction false} DecimalShort(n: nat)
    ensures n < 1000 ==> |Decimal(n)| <= 3
  {
    if 10 <= n < 1000 {
      assert n / 10 < 100;
      if n / 10 >= 10 {
        assert n / 100 < 10;
        assert |Decimal(n / 10)| == 2;
      }
    }
  }

  // ---------------------------------------------------------------------------
  // split
  // ---------------------------------------------------------------------------

  datatype ChunkFile = ChunkFile(name: string, content: Json)

  /** The file for chunk `i` (0-based) of the conversations in `convs`. */
  function ChunkFileAt(convs: seq<Json>, shape: Shape, perChunk: int, i: nat): ChunkFile
  {
    ChunkFile(ChunkName(i + 1), Emit(shape, ChunkSlice(convs, perChunk, i)))
  }

  /** The number of files `split` writes: `range` of a negative count is empty. */
  function ChunkFileCount(data: Json, perChunk: int): nat
    requires SelectConversations(data).Ok? && perChunk != 0
  {
    var total := TotalChunks(|SelectConversations(data).value.0|, perChunk);
    if total < 0 then 0 else total
  }

  /** The i-th file `split` writes for `data`. */
  function FileOf(data: Json, perChunk: int, i: nat): ChunkFile
    requires SelectConversations(data).Ok?
  {
    var selected := SelectConversations(data).value;
    ChunkFileAt(selected.0, selected.1, perChunk, i)
  }

  /** The loop of `split`: one file per chunk, numbered from 1. */
  method WriteChunks(convs: seq<Json>, shape: Shape, perChunk: int) returns (files: seq<ChunkFile>)
    requires perChunk != 0
    ensures var total := TotalChunks(|convs|, perChunk); |files| == if total < 0 then 0 else total
    ensures forall i :: 0 <= i < |files| ==> files[i] == ChunkFileAt(convs, shape, perChunk, i)
  {
    var total := FloorDiv(|convs| + perChunk - 1, perChunk);
    files := [];
    var chunkNum := 0;
    while chunkNum < total
      invariant 0 <= chunkNum <= (if total < 0 then 0 else total)
      invariant |files| == chunkNum
      invariant forall i :: 0 <= i < chunkNum ==> files[i] == ChunkFileAt(convs, shape, perChunk, i)
    {
      var startIdx := chunkNum * perChunk;
      var endIdx := Min(startIdx + perChunk, |convs|);
      var chunkConvs := PySlice(convs, startIdx, endIdx);
      files := files + [ChunkFile(ChunkName(chunkNum + 1), Emit(shape, chunkConvs))];
      chunkNum := chunkNum + 1;
    }
  }

  /**
   * `split`: the files written for `data`, in order. A chunk size of 0 fails
   * on the division; a negative one follows Python's floor division and slicing.
   */
  method Split(data: Json, perChunk: int) returns (r: Result<seq<ChunkFile>, SplitError>)
    ensures SelectConversations(data).Err? ==> r == Err(SelectConversations(data).error)
    ensures SelectConversations(data).Ok? && perChunk == 0 ==> r == Err(ZeroPerChunk)
    ensures SelectConversations(data).Ok? && perChunk != 0 ==> r.Ok?
    ensures r.Ok? ==> |r.value| == ChunkFileCount(data, perChunk)
    ensures r.Ok? ==> forall i :: 0 <= i < |r.value| ==> r.value[i] == FileOf(data, perChunk, i)
  {
    var selected := SelectConversations(data);
    if selected.Err? {
      return Err(selected.error);
    }
    var (convs, shape) := selected.value;
    if perChunk == 0 {
      return Err(ZeroPerChunk);
    }
    var files := WriteChunks(convs, shape, perChunk);
    assert (convs, shape) == SelectConversations(data).value;
    r := Ok(files);
  }

  // ---------------------------------------------------------------------------
  // The chunks partition the conversations
  // ---------------------------------------------------------------------------

  /** The first `c` chunks. */
  function Chunks(convs: seq<Json>, perChunk: int, c: nat): (cs: seq<seq<Json>>)
    ensures |cs| == c
  {
    if c == 0 then [] else Chunks(convs, perChunk, c - 1) + [ChunkSlice(convs, perChunk, c - 1)]
  }

  function Flatten(cs: seq<seq<Json>>): seq<Json>
  {
    if |cs| == 0 then [] else Flatten(cs[..|cs| - 1]) + cs[|cs| - 1]
  }

  /** A chunk that starts inside the list is the contiguous slice from its start. */
  lemma ChunkSliceInside(convs: seq<Json>, perChunk: int, i: nat)
    requires perChunk > 0 && i * perChunk < |convs|
    ensures 0 <= i * perChunk
    ensures ChunkSlice(convs, perChunk, i) == convs[i * perChunk..Min(i * perChunk + perChunk, |convs|)]
  {
    MulMonotone(0, i, perChunk);
  }

  lemma {:induction false} FlattenPrefix(convs: seq<Json>, perChunk: int, c: nat)
    requires perChunk > 0 && (c > 0 ==> (c - 1) * perChunk < |convs|)
    ensures Flatten(Chunks(convs, perChunk, c)) == convs[..Min(c * perChunk, |convs|)]
  {
    if c > 0 {
      var cs := Chunks(convs, perChunk, c);
      assert cs[..c - 1] == Chunks(convs, perChunk, c - 1);
      if c > 1 {
        MulMonotone(c - 2, c - 1, perChunk);
      }
      FlattenPrefix(convs, perChunk, c - 1);
      ChunkSliceInside(convs, perChunk, c - 1);
      assert (c - 1) * perChunk + perChunk == c * perChunk;
      MulMonotone(0, c - 1, perChunk);
      assert Min((c - 1) * perChunk, |convs|) == (c - 1) * perChunk;
      assert convs[..(c - 1) * perChunk] + convs[(c - 1) * perChunk..Min(c * perChunk, |convs|)]
          == convs[..Min(c * perChunk, |convs|)];
    }
  }

  /**
   * For a positive chunk size, the chunks in order concatenate back to the
   * conversations; every chunk is non-empty and holds at most `perChunk`
   * conversations, and every chunk but the last holds exactly `perChunk`.
   */
  lemma ChunksPartition(convs: seq<Json>, perChunk: int)
    requires perChunk > 0
    ensures var c := TotalChunks(|convs|, perChunk);
      && c >= 0
      && Flatten(Chunks(convs, perChunk, c)) == convs
      && (forall i :: 0 <= i < c ==> 1 <= |ChunkSlice(convs, perChunk, i)| <= perChunk)
      && (forall i :: 0 <= i < c - 1 ==> |ChunkSlice(convs, perChunk, i)| == perChunk)
  {
    var c := TotalChunks(|convs|, perChunk);
    TotalChunksIsCeiling(|convs|, perChunk);
    FlattenPrefix(convs, perChunk, c);
    assert Min(c * perChunk, |convs|) == |convs|;
    forall i | 0 <= i < c
      ensures 1 <= |ChunkSlice(convs, perChunk, i)| <= perChunk
      ensures i < c - 1 ==> |ChunkSlice(convs, perChunk, i)| == perChunk
    {
      ChunkSize(convs, perChunk, c, i);
    }
  }

  /** Chunk i of c holds 1..perChunk conversations, and exactly perChunk unless it is the last. */
  lemma ChunkSize(convs: seq<Json>, perChunk: int, c: nat, i: nat)
    requires perChunk > 0 && i < c && (c - 1) * perChunk < |convs| <= c * perChunk
    ensures 1 <= |ChunkSlice(convs, perChunk, i)| <= perChunk
    ensures i < c - 1 ==> |ChunkSlice(convs, perChunk, i)| == perChunk
  {
    MulMonotone(i, c - 1, perChunk);
    ChunkSliceInside(convs, perChunk, i);
    if i < c - 1 {
      MulMonotone(i + 1, c - 1, perChunk);
      MulSucc(i, perChunk);
    }
  }
}
