/** shard.go: a 64-bit fingerprint is split into a shard id (its top byte)
    and a 7-byte shard-local key; the 256 shard tables are opened from their
    files once the manifest has been checked, and a lookup is sent to the
    table of its shard. */
module Shard {
  import opened Bits
  import opened Io
  import opened Encoding
  import opened Hashtable

  /** `1 << shardMusk`: the number of shards. */
  const ShardNum: nat := 256

  /** The manifest format version this code understands. */
  const Version: int := 1

  /** 2^56, the weight of the shard id byte: `hash64 >> (64 - shardMusk)` is `hash64 / ShardUnit`. */
  const ShardUnit: nat := 0x100_0000_0000_0000

  /** The shard id of a fingerprint: its top 8 bits. */
  function ShardId(hash64: u64): (id: nat)
    ensures id < ShardNum
  {
    DivBelow(hash64, ShardUnit, 256);
    hash64 / ShardUnit
  }

  /** The shard-local key of a fingerprint: its low 7 bytes, little-endian. */
  function ShardKey(hash64: u64): (key: seq<byte>)
    ensures |key| == KLen
  {
    Bytes(hash64, KLen)
  }

  /** calcShard: the key through littleEndianPutKey into a fresh 7-byte
      buffer, the shard id by a shift right of 56. */
  method CalcShard(hash64: u64) returns (shardId: nat, key: seq<byte>)
    ensures shardId == ShardId(hash64) && key == ShardKey(hash64)
  {
    var b := new byte[KLen](_ => 0);
    LittleEndianPutKey(b, hash64);
    key := b[..];
    shardId := hash64 / 0x100_0000_0000_0000;
  }

  /** The shard id always names one of the 256 shards, and it is byte 7 of
      the little-endian encoding of the fingerprint. */
  lemma ShardIdIsTopByte(hash64: u64)
    ensures ShardId(hash64) < ShardNum
    ensures ShardId(hash64) == Bytes(hash64, 8)[7]
  {
    Pow256Constants();
    TopByte(hash64, 7);
  }

  /** calcShard loses nothing: shard id and key put back together give the fingerprint. */
  lemma CalcShardLossless(hash64: u64)
    ensures ShardId(hash64) * ShardUnit + LittleEndianKey(ShardKey(hash64)) == hash64
  {
    Pow256Constants();
    Split(hash64, 7);
    assert ShardKey(hash64)[..KLen] == ShardKey(hash64);
  }

  /** Two fingerprints with the same shard id and key are equal. */
  lemma CalcShardInjective(h1: u64, h2: u64)
    requires ShardId(h1) == ShardId(h2) && ShardKey(h1) == ShardKey(h2)
    ensures h1 == h2
  {
    CalcShardLossless(h1);
    CalcShardLossless(h2);
  }

  /** Shards.Get: look the shard key up in the table of the shard and unpack
      the 5 stored bytes as an offset. A nil table (a shard that was never
      opened) is dereferenced and panics; a table error or miss is returned as is. */
  function ShardsGet(shards: seq<Option<HashTable>>, hash64: u64): (r: Result<u64>)
    requires |shards| == ShardNum
    ensures r.Success? ==> r.value < 0x100_0000_0000
    ensures r.Failure? ==> r.error in {NotExist, EOF, NegativeOffset, Panic}
  {
    match shards[ShardId(hash64)]
    case None => Failure(Panic)
    case Some(table) =>
      match table.Find(ShardKey(hash64))
      case Failure(e) => Failure(e)
      case Success(v) => Pow256Constants(); Success(LittleEndianOffset(v))
  }

  /** Shards.Get asks only the table of shard `hash64 >> 56`, with the 7-byte
      key, and passes its miss or error through unchanged. */
  lemma ShardsGetRoutes(shards: seq<Option<HashTable>>, hash64: u64, table: HashTable)
    requires |shards| == ShardNum && shards[ShardId(hash64)] == Some(table)
    ensures table.Find(ShardKey(hash64)).Failure? ==>
      ShardsGet(shards, hash64) == Failure(table.Find(ShardKey(hash64)).error)
    ensures table.Find(ShardKey(hash64)).Success? ==>
      ShardsGet(shards, hash64) == Success(LittleEndianOffset(table.Find(ShardKey(hash64)).value))
    ensures forall others: seq<Option<HashTable>> ::
      |others| == ShardNum && others[ShardId(hash64)] == Some(table) ==>
        ShardsGet(others, hash64) == ShardsGet(shards, hash64)
  {
  }

  /** The two numbers of the JSON manifest file. */
  datatype Manifest = Manifest(version: int, shardNum: int)

  /** The manifest buildManifest writes. */
  const CurrentManifest: Manifest := Manifest(Version, ShardNum)

  /** os.Open of a table file followed by OpenHashTable on it. A failed open
      leaves a nil file, whose ReadAt fails, so OpenHashTable fails too. */
  function OpenShard(file: Result<seq<byte>>): (r: Result<HashTable>)
    ensures file.Failure? ==> r.Failure?
    ensures file.Success? ==> r == OpenHashTable(file.value)
  {
    var data :- file;
    OpenHashTable(data)
  }

  /** The version and shard-count check of LoadFromManifest: an unknown
      version or shard count panics. */
  function CheckManifest(manifest: Manifest): (r: Option<Error>)
    ensures r.None? <==> manifest == CurrentManifest
    ensures r.Some? ==> r.value == Panic
  {
    if manifest.version != Version then Some(Panic)
    else if manifest.shardNum != ShardNum then Some(Panic)
    else None
  }

  /** A Shards value with no table opened: 256 nil tables. */
  const NoShards: seq<Option<HashTable>> := seq(ShardNum, _ => None)

  /** LoadFromManifest as evidently intended: after the check, open the 256
      table files in order and stop at the first that cannot be opened,
      returning its error. */
  method LoadFromManifest(manifest: Manifest, files: seq<Result<seq<byte>>>)
      returns (shards: seq<Option<HashTable>>, err: Option<Error>)
    requires |files| == ShardNum
    ensures |shards| == ShardNum
    ensures CheckManifest(manifest).Some? ==> err == CheckManifest(manifest) && shards == NoShards
    ensures err.None? <==>
      manifest == CurrentManifest && forall i :: 0 <= i < ShardNum ==> OpenShard(files[i]).Success?
    ensures err.None? ==> forall i :: 0 <= i < ShardNum ==> shards[i] == Some(OpenShard(files[i]).value)
    ensures err.Some? && manifest == CurrentManifest ==>
      exists i :: 0 <= i < ShardNum && OpenShard(files[i]) == Failure(err.value) &&
        forall j :: 0 <= j < i ==> OpenShard(files[j]).Success?
  {
    err := CheckManifest(manifest);
    shards := NoShards;
    if err.Some? {
      return;
    }
    var i := 0;
    while i < ShardNum
      invariant i <= ShardNum && |shards| == ShardNum
      invariant forall j :: 0 <= j < i ==> OpenShard(files[j]).Success? && shards[j] == Some(OpenShard(files[j]).value)
    {
      var table := OpenShard(files[i]);
      if table.Failure? {
        return shards, Some(table.error);
      }
      shards := shards[i := Some(table.value)];
      i := i + 1;
    }
  }

  /** LoadFromManifest as written: after opening table file i it tests the
      named result `err`, which is still nil, instead of the error just
      returned, so no open error is ever reported and a table that could not
      be opened is left nil. */
  method LoadFromManifestAsWritten(manifest: Manifest, files: seq<Result<seq<byte>>>)
      returns (shards: seq<Option<HashTable>>, err: Option<Error>)
    requires |files| == ShardNum
    ensures |shards| == ShardNum
    ensures err == CheckManifest(manifest)
    ensures err.None? ==>
      forall i :: 0 <= i < ShardNum ==>
        shards[i] == if OpenShard(files[i]).Success? then Some(OpenShard(files[i]).value) else None
  {
    err := CheckManifest(manifest);
    shards := NoShards;
    if err.Some? {
      return;
    }
    var i := 0;
    while i < ShardNum
      invariant i <= ShardNum && |shards| == ShardNum
      invariant forall j :: 0 <= j < i ==>
        shards[j] == if OpenShard(files[j]).Success? then Some(OpenShard(files[j]).value) else None
      invariant forall j :: i <= j < ShardNum ==> shards[j] == None
    {
      var table := OpenShard(files[i]);
      if table.Success? {
        shards := shards[i := Some(table.value)];
      }
      i := i + 1;
    }
  }

  /** The defect of LoadFromManifest as written: with a missing table file
      the load reports success, and the first lookup routed to that shard
      panics on the nil table, where the intended load reports os.ErrNotExist. */
  lemma MissingShardPanics(shards: seq<Option<HashTable>>, hash64: u64)
    requires |shards| == ShardNum && shards[ShardId(hash64)] == None
    ensures ShardsGet(shards, hash64) == Failure(Panic)
  {
  }
}
