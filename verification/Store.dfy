// The snapshot payload: the whole bridge state as bytes, and back.
module Store {
  import opened Wrappers
  import opened Arith
  import opened Hashing
  import opened Bytes
  import opened LinkedSet
  import opened ImtProofs
  import opened Imt
  import opened ImtBulk
  import opened Transparent
  import opened KeyOrder
  import opened Chain
  import opened Accumulators
  import opened Wire
  import opened WireMessages

  const MAGIC: ByteString := [0x5A, 0x55, 0x54, 0x52, 0x45, 0x45, 0x58, 0x4F]

  const STORE_VERSION: Byte := 1

  /** txid, vout, height, flag, amount and an empty script's length. */
  const MIN_OUTPUT_LENGTH: nat := 57

  /** How the forest library writes and reads itself. */
  datatype ForestCodec = ForestCodec(write: Forest -> ByteString, read: ByteString -> Option<Forest>)

  // ---- length-prefixed bytes ----

  function Blob(b: ByteString): ByteString {
    ToLE(|b|, 8) + b
  }

  function ReadBlob(s: ByteString): Parsed<ByteString> {
    var len :- ReadLE(s, 8);
    Take(len.1, len.0)
  }

  lemma BlobBack(b: ByteString, rest: ByteString)
    requires |b| < WIRE_U64
    ensures ReadBlob(Blob(b) + rest) == Ok((b, rest))
  {
    WidthLimits();
    assert Blob(b) + rest == ToLE(|b|, 8) + (b + rest);
    ReadLEBack(|b|, 8, b + rest);
    TakeBack(b, rest);
  }

  method NextBlob(reader: Reader) returns (r: Result<ByteString, CodecError>)
    requires reader.Valid()
    modifies reader
    ensures reader.Valid() && Follows(ReadBlob(old(reader.Rest())), r, reader.Rest())
  {
    var len :- reader.LE(8);
    r := reader.TakeBytes(len);
  }

  // ---- one pool's values ----

  /** The inserted values from position `k` on; the sentinel at 0 is implied. */
  function ValuesFrom(all: seq<Value>, k: nat): ByteString
    requires k <= |all|
    decreases |all| - k
  {
    if k == |all| then [] else ToBE(all[k], 32) + ValuesFrom(all, k + 1)
  }

  function PoolBytes(pool: PoolId, all: seq<Value>): ByteString
    requires |all| > 0
  {
    [PoolCode(pool)] + (ToLE(|all| - 1, 8) + ValuesFrom(all, 1))
  }

  function ReadValue(s: ByteString): Parsed<Value> {
    var word :- ReadWord(s);
    Pow256At32();
    FromBEBound(word.0);
    Ok((FromBE(word.0), word.1))
  }

  function ReadPoolValues(s: ByteString, n: nat, done: seq<Value>): Parsed<seq<Value>>
    decreases n
  {
    if n == 0 then Ok((done, s))
    else
      var one :- ReadValue(s);
      ReadPoolValues(one.1, n - 1, done + [one.0])
  }

  /** A pool's code and values; the values are taken only if they rebuild a tree. */
  ghost function ReadTree(s: ByteString, depth: nat): Parsed<(PoolId, seq<Value>)> {
    var pool :- ReadPool(s);
    var count :- ReadLE(pool.1, 8);
    if 32 * count.0 > |count.1| then Err(TooManyDeclared)
    else
      var values :- ReadPoolValues(count.1, count.0, []);
      if ReplayAccepts(depth, values.0) then Ok(((pool.0, [0] + values.0), values.1)) else Err(TreeRefused)
  }

  lemma ReadValueBack(v: Value, rest: ByteString)
    ensures ReadValue(ToBE(v, 32) + rest) == Ok((v, rest))
  {
    Pow256At32();
    FromBEToBE(v, 32);
    ReadWordBack(ToBE(v, 32), rest);
  }

  lemma {:induction false} PoolValuesBack(all: seq<Value>, k: nat, rest: ByteString)
    requires 1 <= k <= |all|
    ensures ReadPoolValues(ValuesFrom(all, k) + rest, |all| - k, all[1..k]) == Ok((all[1..], rest))
    ensures |ValuesFrom(all, k)| == 32 * (|all| - k)
    decreases |all| - k
  {
    hide ReadValue, ToBE;
    if k == |all| {
      assert ValuesFrom(all, k) + rest == rest && all[1..k] == all[1..];
    } else {
      var tail := ValuesFrom(all, k + 1) + rest;
      assert ValuesFrom(all, k) + rest == ToBE(all[k], 32) + tail;
      ReadValueBack(all[k], tail);
      PoolValuesBack(all, k + 1, rest);
      assert all[1..k + 1] == all[1..k] + [all[k]];
    }
  }

  lemma TreeBack(pool: PoolId, depth: nat, all: seq<Value>, rest: ByteString)
    requires ValidDepth(depth) && History(all) && |all| <= Pow2(depth)
    ensures ReadTree(PoolBytes(pool, all) + rest, depth) == Ok(((pool, all), rest))
  {
    hide ReadPool, ReadLE, ReadPoolValues, ValuesFrom, ToLE, ReplayAccepts;
    WidthLimits();
    CapacityFitsU64(depth);
    var b := ValuesFrom(all, 1) + rest;
    var a := ToLE(|all| - 1, 8) + b;
    assert PoolBytes(pool, all) + rest == [PoolCode(pool)] + a;
    ReadPoolBack(pool, a);
    ReadLEBack(|all| - 1, 8, b);
    PoolValuesBack(all, 1, rest);
    assert all[1..1] == [];
    assert [0] + all[1..] == all;
    ReplayAcceptsHistories(depth, all[1..]);
  }

  // ---- every pool ----

  /** Every pool has a history, which holds at least the sentinel. */
  ghost predicate AllFull(pools: Pools) {
    forall pool :: pool in pools && |pools[pool]| > 0
  }

  function PoolsBytes(pools: Pools, k: nat): ByteString
    requires k <= |ALL_POOLS| && AllFull(pools)
    decreases |ALL_POOLS| - k
  {
    if k == |ALL_POOLS| then [] else PoolBytes(ALL_POOLS[k], pools[ALL_POOLS[k]]) + PoolsBytes(pools, k + 1)
  }

  ghost function ReadTrees(s: ByteString, n: nat, depth: nat, pools: Pools): Parsed<Pools>
    decreases n
  {
    if n == 0 then Ok((pools, s))
    else
      var one :- ReadTree(s, depth);
      ReadTrees(one.1, n - 1, depth, pools[one.0.0 := one.0.1])
  }

  lemma {:induction false} TreesBack(depth: nat, pools: Pools, read: Pools, k: nat, rest: ByteString)
    requires PoolsOk(depth, pools) && k <= |ALL_POOLS| && read.Keys == pools.Keys
    requires forall j {:trigger ALL_POOLS[j]} :: 0 <= j < k ==> read[ALL_POOLS[j]] == pools[ALL_POOLS[j]]
    ensures ReadTrees(PoolsBytes(pools, k) + rest, |ALL_POOLS| - k, depth, read) == Ok((pools, rest))
    decreases |ALL_POOLS| - k
  {
    assert AllFull(pools);
    hide *;
    if k == |ALL_POOLS| {
      AllRead(pools, read);
      NoTreeLeft(depth, pools, rest);
    } else {
      var pool := ALL_POOLS[k];
      var next := read[pool := pools[pool]];
      FirstTreeRead(depth, pools, read, k, rest);
      assert next.Keys == pools.Keys;
      TreesBack(depth, pools, next, k + 1, rest);
    }
  }

  lemma NoTreeLeft(depth: nat, pools: Pools, rest: ByteString)
    requires AllFull(pools)
    ensures ReadTrees(PoolsBytes(pools, |ALL_POOLS|) + rest, 0, depth, pools) == Ok((pools, rest))
  {
    assert PoolsBytes(pools, |ALL_POOLS|) + rest == rest;
  }

  lemma AllRead(pools: Pools, read: Pools)
    requires read.Keys == pools.Keys
    requires forall j {:trigger ALL_POOLS[j]} :: 0 <= j < |ALL_POOLS| && ALL_POOLS[j] in pools ==>
      read[ALL_POOLS[j]] == pools[ALL_POOLS[j]]
    ensures read == pools
  {
    forall pool | pool in pools
      ensures read[pool] == pools[pool]
    {
      var j := EveryPool(pool);
    }
  }

  lemma FirstTreeRead(depth: nat, pools: Pools, read: Pools, k: nat, rest: ByteString)
    requires PoolsOk(depth, pools) && k < |ALL_POOLS|
    ensures AllFull(pools)
    ensures var pool := ALL_POOLS[k];
      ReadTrees(PoolsBytes(pools, k) + rest, |ALL_POOLS| - k, depth, read)
        == ReadTrees(PoolsBytes(pools, k + 1) + rest, |ALL_POOLS| - k - 1, depth, read[pool := pools[pool]])
  {
    assert AllFull(pools);
    var pool := ALL_POOLS[k];
    var tail := PoolsBytes(pools, k + 1) + rest;
    TreeBack(pool, depth, pools[pool], tail);
    FirstPool(pools, k);
    hide ReadTree, PoolBytes, PoolsBytes, History;
    Prefixed(PoolBytes(pool, pools[pool]), PoolsBytes(pools, k + 1), rest);
  }

  // ---- the outpoint index ----

  predicate OutputFits(o: OutPoint, leaf: UtxoLeaf) {
    && |o.txid| == 32 && o.vout < U32_LIMIT && OutPointOf(leaf) == o
    && leaf.height < U32_LIMIT && leaf.amount < WIRE_U64 && |leaf.script| < WIRE_U64
  }

  predicate OutputsFit(outputs: Outputs) {
    forall i {:trigger outputs[i]} :: 0 <= i < |outputs| ==> OutputFits(outputs[i].0, outputs[i].1)
  }

  function OutputBytes(o: OutPoint, leaf: UtxoLeaf): ByteString {
    o.txid + (ToLE(o.vout, 4) + (ToLE(leaf.height, 4) +
      ([if leaf.isCoinbase then 1 else 0] + (ToLE(leaf.amount, 8) + Blob(leaf.script)))))
  }

  function OutputsBytes(outputs: Outputs, k: nat): ByteString
    requires k <= |outputs|
    decreases |outputs| - k
  {
    if k == |outputs| then [] else OutputBytes(outputs[k].0, outputs[k].1) + OutputsBytes(outputs, k + 1)
  }

  /** Reads one entry; the leaf takes its outpoint from the key. */
  function ReadOutput(s: ByteString): Parsed<(OutPoint, UtxoLeaf)> {
    var txid :- ReadWord(s);
    var vout :- ReadLE(txid.1, 4);
    var height :- ReadLE(vout.1, 4);
    var flag :- ReadByte(height.1);
    var amount :- ReadLE(flag.1, 8);
    var script :- ReadBlob(amount.1);
    Ok(((OutPoint(txid.0, vout.0), UtxoLeaf(txid.0, vout.0, height.0, flag.0 != 0, amount.0, script.0)), script.1))
  }

  function ReadOutputs(s: ByteString, n: nat, index: Index): Parsed<Index>
    decreases n
  {
    if n == 0 then Ok((index, s))
    else
      var one :- ReadOutput(s);
      ReadOutputs(one.1, n - 1, index[one.0.0 := one.0.1])
  }

  lemma OutputBack(o: OutPoint, leaf: UtxoLeaf, rest: ByteString)
    requires OutputFits(o, leaf)
    ensures ReadOutput(OutputBytes(o, leaf) + rest) == Ok(((o, leaf), rest))
    ensures |OutputBytes(o, leaf)| >= MIN_OUTPUT_LENGTH
  {
    hide ReadWord, ReadLE, ReadByte, ReadBlob, ToLE;
    WidthLimits();
    var flag: Byte := if leaf.isCoinbase then 1 else 0;
    var e := Blob(leaf.script) + rest;
    var d := ToLE(leaf.amount, 8) + e;
    var c := [flag] + d;
    var b := ToLE(leaf.height, 4) + c;
    var a := ToLE(o.vout, 4) + b;
    assert OutputBytes(o, leaf) + rest == o.txid + a;
    ReadWordBack(o.txid, a);
    ReadLEBack(o.vout, 4, b);
    ReadLEBack(leaf.height, 4, c);
    ReadByteBack(flag, d);
    ReadLEBack(leaf.amount, 8, e);
    BlobBack(leaf.script, rest);
  }

  lemma {:induction false} OutputsBack(outputs: Outputs, k: nat, rest: ByteString)
    requires k <= |outputs| && OutputsFit(outputs)
    ensures ReadOutputs(OutputsBytes(outputs, k) + rest, |outputs| - k, Recorded(map[], outputs, k))
         == Ok((Recorded(map[], outputs, |outputs|), rest))
    ensures |OutputsBytes(outputs, k)| >= MIN_OUTPUT_LENGTH * (|outputs| - k)
    decreases |outputs| - k
  {
    hide ReadOutput, OutputBytes;
    if k == |outputs| {
      assert OutputsBytes(outputs, k) + rest == rest;
    } else {
      var tail := OutputsBytes(outputs, k + 1) + rest;
      assert OutputsBytes(outputs, k) + rest == OutputBytes(outputs[k].0, outputs[k].1) + tail;
      OutputBack(outputs[k].0, outputs[k].1, tail);
      OutputsBack(outputs, k + 1, rest);
    }
  }

  // ---- the payload ----

  ghost predicate IndexFits(index: Index) {
    |index| < WIRE_U64 && forall o :: o in index ==> OutputFits(o, index[o])
  }

  lemma ListingFits(outputs: Outputs, index: Index)
    requires ListsIndex(outputs, index) && IndexFits(index)
    ensures OutputsFit(outputs) && |outputs| < WIRE_U64 && Recorded(map[], outputs, |outputs|) == index
  {
    ListingIsIndex(outputs, index);
    hide OutputFits;
  }

  function TipBytes(tip: Option<Height>): ByteString {
    [if tip.Some? then 1 else 0] + ToLE(if tip.Some? then tip.value else 0, 4)
  }

  function Payload(s: ChainState, outputs: Outputs, codec: ForestCodec): ByteString
    requires s.depth < 256 && AllFull(s.pools)
  {
    HeaderThen(s.depth, s.tip, PoolsBytes(s.pools, 0) + TransparentBytes(s.forest, outputs, codec))
  }

  function HeaderThen(depth: nat, tip: Option<Height>, rest: ByteString): ByteString
    requires depth < 256
  {
    MAGIC + ([STORE_VERSION] + ([depth] + (TipBytes(tip) + ([|ALL_POOLS|] + rest))))
  }

  function TransparentBytes(forest: Forest, outputs: Outputs, codec: ForestCodec): ByteString {
    Blob(codec.write(forest)) + (ToLE(|outputs|, 8) + OutputsBytes(outputs, 0))
  }

  /** A state the format can carry. */
  ghost predicate StateFits(s: ChainState, codec: ForestCodec) {
    && PoolsOk(s.depth, s.pools) && IndexFits(s.index)
    && codec.read(codec.write(s.forest)) == Some(s.forest) && |codec.write(s.forest)| < WIRE_U64
  }

  datatype Header = Header(depth: Byte, flag: Byte, height: nat, pools: Byte)

  function ReadHeader(s: ByteString): Parsed<Header> {
    var magic :- Take(s, 8);
    if magic.0 != MAGIC then Err(NotASnapshot)
    else
      var version :- ReadByte(magic.1);
      if version.0 != STORE_VERSION then Err(UnsupportedVersion(version.0))
      else
        var depth :- ReadByte(version.1);
        var flag :- ReadByte(depth.1);
        var height :- ReadLE(flag.1, 4);
        if !ValidDepth(depth.0) then Err(InvalidTreeDepth)
        else
          var pools :- ReadByte(height.1);
          Ok((Header(depth.0, flag.0, height.0, pools.0), pools.1))
  }

  /** The forest and the index, which must be all that is left. */
  function ReadTransparent(s: ByteString, codec: ForestCodec): Result<(Forest, Index), CodecError> {
    var blob :- ReadBlob(s);
    var forest := codec.read(blob.0);
    if forest.None? then Err(ForestRefused)
    else
      var count :- ReadLE(blob.1, 8);
      if MIN_OUTPUT_LENGTH * count.0 > |count.1| then Err(TooManyDeclared)
      else
        var index :- ReadOutputs(count.1, count.0, map[]);
        if index.1 != [] then Err(TrailingBytes(|index.1|)) else Ok((forest.value, index.0))
  }

  function TipOf(header: Header): Option<Height> {
    if header.flag == 1 && header.height <= MAX_HEIGHT then Some(header.height) else None
  }

  /** What loading a payload rebuilds. */
  ghost function LoadedState(payload: ByteString, codec: ForestCodec): Result<ChainState, CodecError> {
    var header :- ReadHeader(payload);
    var trees :- ReadTrees(header.1, header.0.pools, header.0.depth, Genesis(header.0.depth).pools);
    var rest :- ReadTransparent(trees.1, codec);
    Ok(ChainState(header.0.depth, trees.0, rest.0, rest.1, TipOf(header.0)))
  }

  lemma HeaderBack(s: ChainState, rest: ByteString)
    requires ValidDepth(s.depth)
    ensures var header := Header(s.depth, if s.tip.Some? then 1 else 0, if s.tip.Some? then s.tip.value else 0, 4);
      && ReadHeader(HeaderThen(s.depth, s.tip, rest)) == Ok((header, rest))
      && TipOf(header) == s.tip
  {
    hide ReadByte, ReadLE, ToLE, Take;
    WidthLimits();
    var flag: Byte, height: nat := if s.tip.Some? then 1 else 0, if s.tip.Some? then s.tip.value else 0;
    var d := [|ALL_POOLS|] + rest;
    var c := ToLE(height, 4) + d;
    assert TipBytes(s.tip) + d == [flag] + c;
    TakeBack(MAGIC, [STORE_VERSION] + ([s.depth] + ([flag] + c)));
    ReadByteBack(STORE_VERSION, [s.depth] + ([flag] + c));
    ReadByteBack(s.depth, [flag] + c);
    ReadByteBack(flag, c);
    ReadLEBack(height, 4, d);
    ReadByteBack(|ALL_POOLS|, rest);
  }

  lemma TransparentBack(s: ChainState, outputs: Outputs, codec: ForestCodec)
    requires StateFits(s, codec) && ListsIndex(outputs, s.index)
    ensures ReadTransparent(TransparentBytes(s.forest, outputs, codec), codec) == Ok((s.forest, s.index))
  {
    ListingFits(outputs, s.index);
    hide ReadBlob, Blob, ReadLE, ToLE, ReadOutputs, OutputsBytes, PoolsOk, ListsIndex, IndexFits, OutputsFit, Recorded;
    WidthLimits();
    var listed := OutputsBytes(outputs, 0);
    BlobBack(codec.write(s.forest), ToLE(|outputs|, 8) + listed);
    ReadLEBack(|outputs|, 8, listed);
    OutputsBack(outputs, 0, []);
    assert listed + [] == listed;
  }

  /**
   * Loading what was saved gives the identical state, though only the values
   * were written of each tree and only the entries of the index, in whatever
   * order it was listed.
   */
  lemma SnapshotRoundTrip(s: ChainState, outputs: Outputs, codec: ForestCodec)
    requires StateFits(s, codec) && ListsIndex(outputs, s.index)
    ensures LoadedState(Payload(s, outputs, codec), codec) == Ok(s)
  {
    assert AllFull(s.pools);
    var last := TransparentBytes(s.forest, outputs, codec);
    var trees := PoolsBytes(s.pools, 0) + last;
    var header := Header(s.depth, if s.tip.Some? then 1 else 0, if s.tip.Some? then s.tip.value else 0, 4);
    var payload := Payload(s, outputs, codec);
    assert payload == HeaderThen(s.depth, s.tip, trees);
    hide ReadHeader, ReadTrees, ReadTransparent, PoolsBytes, HeaderThen, TransparentBytes, Genesis, LoadedState, TipOf,
      Payload;
    HeaderBack(s, trees);
    assert ReadHeader(payload) == Ok((header, trees));
    TreesRead(s, last);
    TransparentBack(s, outputs, codec);
    hide StateFits, PoolsOk, ListsIndex;
    LoadedIs(payload, codec, header, trees, s.pools, last, s.forest, s.index);
  }

  lemma TreesRead(s: ChainState, rest: ByteString)
    requires PoolsOk(s.depth, s.pools)
    ensures AllFull(s.pools)
    ensures ReadTrees(PoolsBytes(s.pools, 0) + rest, 4, s.depth, Genesis(s.depth).pools) == Ok((s.pools, rest))
  {
    hide ReadTrees, PoolsBytes, Genesis;
    GenesisHolds(s.depth, s.pools);
    TreesBack(s.depth, s.pools, Genesis(s.depth).pools, 0, rest);
  }

  /** The three parts of a payload, put together. */
  lemma LoadedIs(payload: ByteString, codec: ForestCodec, header: Header, trees: ByteString, pools: Pools,
          last: ByteString, forest: Forest, index: Index)
    requires ReadHeader(payload) == Ok((header, trees))
    requires ReadTrees(trees, header.pools, header.depth, Genesis(header.depth).pools) == Ok((pools, last))
    requires ReadTransparent(last, codec) == Ok((forest, index))
    ensures LoadedState(payload, codec) == Ok(ChainState(header.depth, pools, forest, index, TipOf(header)))
  {
    hide ReadHeader, ReadTrees, ReadTransparent, Genesis, TipOf;
  }

  lemma GenesisHolds(depth: nat, pools: Pools)
    requires forall pool :: pool in pools
    ensures Genesis(depth).pools.Keys == pools.Keys
  {
    forall pool: PoolId
      ensures pool in Genesis(depth).pools && pool in pools
    {
      var k := EveryPool(pool);
    }
  }

  // ---- saving and loading objects ----

  /** Writes a pool's values from its leaves, the sentinel left out. */
  method SaveTree(pool: PoolId, leaves: seq<Leaf>, out: ByteString) returns (grown: ByteString)
    requires |leaves| > 0
    ensures grown == out + PoolBytes(pool, ValuesOf(leaves))
  {
    hide ToBE, ToLE;
    var values := SaveValues(leaves, ValuesOf(leaves));
    grown := out + [PoolCode(pool)] + ToLE(|leaves| - 1, 8) + values;
    assert grown == out + PoolBytes(pool, ValuesOf(leaves));
  }

  method SaveValues(leaves: seq<Leaf>, ghost all: seq<Value>) returns (out: ByteString)
    requires |leaves| > 0 && all == ValuesOf(leaves)
    ensures out == ValuesFrom(all, 1)
  {
    hide ToBE;
    out := [];
    for k := 1 to |leaves|
      invariant out + ValuesFrom(all, k) == ValuesFrom(all, 1)
    {
      out := out + ToBE(leaves[k].value, 32);
    }
  }

  /** Serialises a state, its index in key order; refused only when a pool has no tree. */
  method Save(state: ChainAccumulators,
          codec: ForestCodec) returns (r: Result<ByteString, CodecError>, ghost outputs: Outputs)
    requires state.Valid()
    ensures r.Ok? <==> forall pool :: pool in state.pools
    ensures r.Err? ==> r.error.NoTreeToSave? && r.error.pool !in state.pools
    ensures r.Ok? ==> IsPayload(r.value, outputs, state.Model(), codec)
    ensures r.Ok? && StateFits(state.Model(), codec) ==> LoadedState(r.value, codec) == Ok(state.Model())
  {
    hide IndexedMerkleTree.Valid, IsPayload, LoadedState, StateFits;
    for k := 0 to |ALL_POOLS|
      invariant forall j {:trigger ALL_POOLS[j]} :: 0 <= j < k ==> ALL_POOLS[j] in state.pools
    {
      if ALL_POOLS[k] !in state.trees {
        return Err(NoTreeToSave(ALL_POOLS[k])), [];
      }
    }
    AllHeld(state.pools);
    AllTreesHeld(state);
    var leaves := map pool | pool in state.trees :: state.trees[pool].leaves;
    var out;
    out, outputs := SaveAll(leaves, state.depth, state.forest, state.index, state.tip, codec, state.Model());
    PayloadBack(out, outputs, state.Model(), codec);
    return Ok(out), outputs;
  }

  /** A payload of `s`: its index listed in key order. */
  ghost predicate IsPayload(out: ByteString, outputs: Outputs, s: ChainState, codec: ForestCodec) {
    s.depth < 256 && AllFull(s.pools) && ListsInOrder(outputs, s.index) && out == Payload(s, outputs, codec)
  }

  lemma PayloadBack(out: ByteString, outputs: Outputs, s: ChainState, codec: ForestCodec)
    requires ValidDepth(s.depth) && IsPayload(out, outputs, s, codec)
    ensures StateFits(s, codec) ==> LoadedState(out, codec) == Ok(s)
  {
    hide Payload, LoadedState, ListsIndex, InKeyOrder, AllFull;
    if StateFits(s, codec) {
      SnapshotRoundTrip(s, outputs, codec);
    }
  }

  /** The payload of a state whose every pool has a tree. */
  method SaveAll(leaves: map<PoolId, seq<Leaf>>, depth: nat, forest: Forest, index: Index, tip: Option<Height>,
          codec: ForestCodec, ghost s: ChainState) returns (out: ByteString, ghost outputs: Outputs)
    requires ValidDepth(depth) && LeavesHold(leaves, s.pools) && s == ChainState(depth, s.pools, forest, index, tip)
    ensures IsPayload(out, outputs, s, codec)
  {
    hide PoolsBytes, OutputsBytes, Blob, ToLE, TipBytes, Payload, ListsInOrder;
    var head := MAGIC + [STORE_VERSION] + [depth] + TipBytes(tip) + [|ALL_POOLS|];
    var trees := SaveTrees(leaves, s.pools);
    var entries := ListOutputs(index);
    var listed := SaveOutputs(entries);
    out := head + trees + Blob(codec.write(forest)) + ToLE(|entries|, 8) + listed;
    PayloadIs(s, entries, codec, head, trees, listed, out);
    outputs := entries;
  }

  /** A snapshot is reproducible: a state has one payload. */
  lemma OnePayload(s: ChainState, codec: ForestCodec, out: ByteString, outputs: Outputs, again: ByteString,
          others: Outputs)
    requires IsPayload(out, outputs, s, codec) && IsPayload(again, others, s, codec)
    ensures out == again
  {
    OneListing(outputs, others, s.index);
    hide Payload, ListsInOrder;
  }

  /** Two snapshots are equal bytes if and only if their states are equal. */
  lemma PayloadsEqualExactly(s: ChainState, t: ChainState, codec: ForestCodec, out: ByteString, outputs: Outputs,
          other: ByteString, others: Outputs)
    requires StateFits(s, codec) && StateFits(t, codec)
    requires IsPayload(out, outputs, s, codec) && IsPayload(other, others, t, codec)
    ensures out == other <==> s == t
  {
    assert ValidDepth(s.depth) && ValidDepth(t.depth);
    hide *;
    PayloadBack(out, outputs, s, codec);
    PayloadBack(other, others, t, codec);
    if s == t {
      OnePayload(s, codec, out, outputs, other, others);
    }
  }

  lemma AllHeld(pools: Pools)
    requires forall j {:trigger ALL_POOLS[j]} :: 0 <= j < |ALL_POOLS| ==> ALL_POOLS[j] in pools
    ensures forall pool :: pool in pools
  {
    forall pool
      ensures pool in pools
    {
      var k := EveryPool(pool);
    }
  }

  lemma PayloadIs(s: ChainState, outputs: Outputs, codec: ForestCodec, head: ByteString, trees: ByteString,
          listed: ByteString, out: ByteString)
    requires s.depth < 256 && AllFull(s.pools)
    requires head == MAGIC + [STORE_VERSION] + [s.depth] + TipBytes(s.tip) + [|ALL_POOLS|]
    requires trees == PoolsBytes(s.pools, 0) && listed == OutputsBytes(outputs, 0)
    requires out == head + trees + Blob(codec.write(s.forest)) + ToLE(|outputs|, 8) + listed
    ensures out == Payload(s, outputs, codec)
  {
    hide PoolsBytes, OutputsBytes, Blob, ToLE, TipBytes;
    Nested(head, trees, Blob(codec.write(s.forest)), ToLE(|outputs|, 8), listed);
    Nested(MAGIC, [STORE_VERSION], [s.depth], TipBytes(s.tip),
      [|ALL_POOLS|] + (trees + TransparentBytes(s.forest, outputs, codec)));
    Nested(MAGIC, [STORE_VERSION], [s.depth], TipBytes(s.tip), [|ALL_POOLS|]);
    Prefixed(MAGIC + [STORE_VERSION] + [s.depth] + TipBytes(s.tip), [|ALL_POOLS|],
      trees + TransparentBytes(s.forest, outputs, codec));
  }

  lemma Nested(a: ByteString, b: ByteString, c: ByteString, d: ByteString, e: ByteString)
    ensures a + b + c + d + e == a + (b + (c + (d + e)))
  {
  }

  lemma Prefixed(a: ByteString, b: ByteString, c: ByteString)
    ensures a + b + c == a + (b + c)
  {
  }

  lemma TreeHeld(state: ChainAccumulators, pool: PoolId)
    requires state.Valid() && pool in state.pools
    ensures pool in state.trees && state.trees[pool].Valid() && state.trees[pool].pool == pool
    ensures state.trees[pool].Values() == state.pools[pool] && |state.pools[pool]| > 0
  {
    assert state.TreeIs(pool);
  }

  /** The stored leaves of every pool hold that pool's history. */
  ghost predicate LeavesHold(leaves: map<PoolId, seq<Leaf>>, pools: Pools) {
    AllFull(pools) && forall pool :: pool in pools ==> pool in leaves && ValuesOf(leaves[pool]) == pools[pool]
  }

  lemma AllTreesHeld(state: ChainAccumulators)
    requires state.Valid() && forall pool :: pool in state.pools
    ensures LeavesHold(map pool | pool in state.trees :: state.trees[pool].leaves, state.pools)
  {
    forall pool: PoolId
      ensures pool in state.pools && |state.pools[pool]| > 0 && pool in state.trees
      ensures ValuesOf(state.trees[pool].leaves) == state.pools[pool]
    {
      TreeHeld(state, pool);
    }
  }

  /** `out` holds the pools of rank below `k`. */
  ghost predicate SavedTo(out: ByteString, pools: Pools, k: nat)
    requires k <= |ALL_POOLS| && AllFull(pools)
  {
    out + PoolsBytes(pools, k) == PoolsBytes(pools, 0)
  }

  method SaveTrees(leaves: map<PoolId, seq<Leaf>>, ghost pools: Pools) returns (out: ByteString)
    requires LeavesHold(leaves, pools)
    ensures out == PoolsBytes(pools, 0)
  {
    NothingSaved(pools);
    out := [];
    for k := 0 to |ALL_POOLS|
      invariant SavedTo(out, pools, k)
    {
      OnePoolSaved(pools, k, out);
      out := SaveTree(ALL_POOLS[k], leaves[ALL_POOLS[k]], out);
    }
    AllSaved(pools, out);
  }

  lemma NothingSaved(pools: Pools)
    requires AllFull(pools)
    ensures SavedTo([], pools, 0)
  {
  }

  lemma OnePoolSaved(pools: Pools, k: nat, out: ByteString)
    requires k < |ALL_POOLS| && AllFull(pools)
    requires SavedTo(out, pools, k)
    ensures SavedTo(out + PoolBytes(ALL_POOLS[k], pools[ALL_POOLS[k]]), pools, k + 1)
  {
    FirstPool(pools, k);
    hide PoolBytes, PoolsBytes;
    Prefixed(out, PoolBytes(ALL_POOLS[k], pools[ALL_POOLS[k]]), PoolsBytes(pools, k + 1));
  }

  lemma AllSaved(pools: Pools, out: ByteString)
    requires AllFull(pools)
    requires SavedTo(out, pools, |ALL_POOLS|)
    ensures out == PoolsBytes(pools, 0)
  {
    NoPoolLeft(pools);
  }

  lemma FirstPool(pools: Pools, k: nat)
    requires k < |ALL_POOLS| && AllFull(pools)
    ensures PoolsBytes(pools, k) == PoolBytes(ALL_POOLS[k], pools[ALL_POOLS[k]]) + PoolsBytes(pools, k + 1)
  {
  }

  lemma NoPoolLeft(pools: Pools)
    requires AllFull(pools)
    ensures PoolsBytes(pools, |ALL_POOLS|) == []
  {
  }

  method SaveOutputs(outputs: Outputs) returns (out: ByteString)
    ensures out == OutputsBytes(outputs, 0)
  {
    hide OutputBytes;
    out := [];
    for k := 0 to |outputs|
      invariant out + OutputsBytes(outputs, k) == OutputsBytes(outputs, 0)
    {
      out := out + OutputBytes(outputs[k].0, outputs[k].1);
    }
  }

  /** Rebuilds one pool's tree in bulk from its values. */
  method LoadTree(reader: Reader, depth: nat) returns (r: Result<IndexedMerkleTree, CodecError>)
    requires reader.Valid() && ValidDepth(depth)
    modifies reader
    ensures reader.Valid()
    ensures var read := ReadTree(old(reader.Rest()), depth);
      if read.Ok? then
        && r.Ok? && fresh(r.value) && reader.Rest() == read.value.1
        && r.value.Valid() && r.value.depth == depth && (r.value.pool, r.value.Values()) == read.value.0
      else r == Err(read.error)
  {
    hide ReadPool, ReadLE, ReadWord, ReplayAccepts, IndexedMerkleTree.Valid;
    var pool :- NextPool(reader);
    var count :- reader.LE(8);
    if 32 * count > reader.Remaining() {
      return Err(TooManyDeclared);
    }
    ghost var start := reader.Rest();
    var values: seq<Value> := [];
    for k := 0 to count
      invariant reader.Valid()
      invariant ReadPoolValues(start, count, []) == ReadPoolValues(reader.Rest(), count - k, values)
    {
      var word :- reader.Hash32();
      Pow256At32();
      FromBEBound(word);
      values := values + [FromBE(word)];
    }
    var built := FromValuesBulk(pool, depth, values);
    if built.Err? {
      return Err(TreeRefused);
    }
    return Ok(built.value);
  }

  /** Rebuilds a whole state from a payload. */
  method Load(payload: ByteString, codec: ForestCodec) returns (r: Result<ChainAccumulators, CodecError>)
    ensures var loaded := LoadedState(payload, codec);
      if loaded.Ok? then r.Ok? && fresh(r.value) && r.value.Valid() && r.value.Model() == loaded.value
      else r == Err(loaded.error)
  {
    hide ReadByte, ReadLE, ReadTrees, ReadTransparent, Take, ChainAccumulators.Valid;
    var reader := new Reader(payload);
    var header :- NextHeader(reader);
    var state := new ChainAccumulators(header.depth);
    hide ReadHeader;
    var trees := LoadTrees(reader, state, header.pools);
    if trees.Err? {
      return Err(trees.error);
    }
    var rest :- NextTransparent(reader, codec);
    state.forest, state.index := rest.0, rest.1;
    state.tip := TipOf(header);
    return Ok(state);
  }

  method NextHeader(reader: Reader) returns (r: Result<Header, CodecError>)
    requires reader.Valid()
    modifies reader
    ensures reader.Valid() && Follows(ReadHeader(old(reader.Rest())), r, reader.Rest())
    ensures r.Ok? ==> ValidDepth(r.value.depth)
  {
    hide ReadLE;
    var magic :- reader.TakeBytes(8);
    if magic != MAGIC {
      return Err(NotASnapshot);
    }
    var version :- reader.U8();
    if version != STORE_VERSION {
      return Err(UnsupportedVersion(version));
    }
    var depth :- reader.U8();
    var flag :- reader.U8();
    var height :- reader.LE(4);
    if !ValidDepth(depth) {
      return Err(InvalidTreeDepth);
    }
    var pools :- reader.U8();
    return Ok(Header(depth, flag, height, pools));
  }

  method LoadTrees(reader: Reader, state: ChainAccumulators, n: nat) returns (r: Result<(), CodecError>)
    requires reader.Valid() && state.Valid()
    modifies reader, state`trees, state`pools
    ensures reader.Valid() && state.Valid() && fresh(state.trees.Values - old(state.trees.Values))
    ensures var read := ReadTrees(old(reader.Rest()), n, state.depth, old(state.pools));
      if read.Ok? then r == Ok(()) && state.pools == read.value.0 && reader.Rest() == read.value.1
      else r == Err(read.error)
  {
    hide ReadTree, IndexedMerkleTree.Valid;
    for k := 0 to n
      invariant reader.Valid() && state.Valid() && fresh(state.trees.Values - old(state.trees.Values))
      invariant ReadTrees(reader.Rest(), n - k, state.depth, state.pools) ==
        ReadTrees(old(reader.Rest()), n, state.depth, old(state.pools))
    {
      assert forall p :: p in state.trees ==> state.TreeIs(p);
      var tree :- LoadTree(reader, state.depth);
      state.ReplaceTree(tree);
    }
    return Ok(());
  }

  method NextTransparent(reader: Reader, codec: ForestCodec) returns (r: Result<(Forest, Index), CodecError>)
    requires reader.Valid()
    modifies reader
    ensures reader.Valid() && r == ReadTransparent(old(reader.Rest()), codec)
  {
    hide ReadBlob, ReadLE, ReadOutput;
    var blob :- NextBlob(reader);
    var forest := codec.read(blob);
    if forest.None? {
      return Err(ForestRefused);
    }
    var count :- reader.LE(8);
    if MIN_OUTPUT_LENGTH * count > reader.Remaining() {
      return Err(TooManyDeclared);
    }
    ghost var start := reader.Rest();
    var index: Index := map[];
    for k := 0 to count
      invariant reader.Valid()
      invariant ReadOutputs(start, count, map[]) == ReadOutputs(reader.Rest(), count - k, index)
    {
      var one :- NextOutput(reader);
      index := index[one.0 := one.1];
    }
    if reader.Remaining() != 0 {
      return Err(TrailingBytes(reader.Remaining()));
    }
    return Ok((forest.value, index));
  }

  method NextOutput(reader: Reader) returns (r: Result<(OutPoint, UtxoLeaf), CodecError>)
    requires reader.Valid()
    modifies reader
    ensures reader.Valid() && Follows(ReadOutput(old(reader.Rest())), r, reader.Rest())
  {
    hide ReadLE, ReadWord, ReadBlob;
    var txid :- reader.Hash32();
    var vout :- reader.LE(4);
    var height :- reader.LE(4);
    var flag :- reader.U8();
    var amount :- reader.LE(8);
    var script :- NextBlob(reader);
    return Ok((OutPoint(txid, vout), UtxoLeaf(txid, vout, height, flag != 0, amount, script)));
  }

  /** Two states with one model are identical down to every tree's leaves, value index and node map. */
  lemma SameModelSameTrees(a: ChainAccumulators, b: ChainAccumulators, pool: PoolId)
    requires a.Valid() && b.Valid() && a.Model() == b.Model() && pool in a.trees
    ensures pool in b.trees
    ensures var p, q := a.trees[pool], b.trees[pool];
      p.zeros == q.zeros && p.leaves == q.leaves && p.indexByValue == q.indexByValue && p.nodes == q.nodes
  {
    assert a.TreeIs(pool) && b.TreeIs(pool);
    HistoryDeterminesTree(a.trees[pool], b.trees[pool]);
  }
}
