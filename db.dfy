/** The database: the data log of records (keySize, key, valueSize, value),
    the scan that indexes it (preLoad), the lookup that checks every index hit
    against the log (Get), and Open's choice between building the index and
    loading it from a manifest. */
module Db {
  import opened Bits
  import opened Io
  import opened Hashtable
  import opened Shard
  import opened Builder

  /** Capacity of preLoad's key buffer: 1 KiB. */
  const KeyBufSize: nat := 1024

  const MaxInt64: nat := 0x8000_0000_0000_0000

  /** The key fingerprint (fnvHash64). */
  type Fingerprint = seq<byte> -> u64

  /** A record as the scan meets it: its key and the log position of its
      key-size field. */
  datatype Record = Record(key: seq<byte>, pos: nat)

  /** One round of preLoad's loop: the record read and where the cursor
      ends, or the error that ends the loop. */
  datatype Step = Next(key: seq<byte>, valueSize: u64, next: int) | Stop(err: Error) {
    /** The bytes the record takes: 8 + keySize + 8 + valueSize. */
    function Size(): nat
      requires Next?
    {
      16 + |key| + valueSize
    }
  }

  /** The whole loop: the records met, in log order, and the error that ended it. */
  datatype Scanned = Scanned(records: seq<Record>, err: Error)

  /** A sum computed in uint64: it wraps modulo 2^64. */
  function Wrap(x: nat): u64
  {
    x % U64
  }

  lemma WrapSmall(x: nat)
    requires x < U64
    ensures Wrap(x) == x
  {
    DivModUnique(x, U64, 0, x);
  }

  /** Wrapping a partial sum first changes nothing. */
  lemma WrapAdd(a: nat, b: nat, c: nat)
    requires c == a + b
    ensures Wrap(Wrap(a) + b) == Wrap(c)
  {
    var q, r := a / U64, a % U64;
    var q2, r2 := (r + b) / U64, (r + b) % U64;
    DivModUnique(a + b, U64, q + q2, r2);
  }

  /** binary.Read of a little-endian uint64 at cursor `pos`. */
  function ReadUint64(data: seq<byte>, pos: nat): (r: Result<u64>)
    ensures r.Success? <==> pos + 8 <= |data|
    ensures r.Success? ==> r.value == Value(data[pos..pos + 8])
    ensures r.Failure? ==> r.error == (if pos >= |data| then EOF else UnexpectedEOF)
  {
    var b :- ReadFullAt(data, pos, 8);
    Pow256Constants();
    Success(Value(b))
  }

  /** The key of a record at `o` is in the log: the key-size field holds its
      length and the key bytes follow, and so does a value-size field. */
  ghost predicate KeyAt(log: seq<byte>, o: nat, key: seq<byte>)
  {
    o + 16 + |key| <= |log| && Value(log[o..o + 8]) == |key| && log[o + 8..o + 8 + |key|] == key
  }

  /** The value-size field of the record at `r`. */
  function ValueSizeAt(log: seq<byte>, r: Record): nat
    requires r.pos + 16 + |r.key| <= |log|
  {
    Value(log[r.pos + 8 + |r.key|..r.pos + 16 + |r.key|])
  }

  /** A whole record (|key|, key, |value|, value) lies in the log at `o`. */
  ghost predicate RecordAt(log: seq<byte>, o: nat, key: seq<byte>, value: seq<byte>)
  {
    KeyAt(log, o, key) && o + 16 + |key| + |value| <= |log| &&
    ValueSizeAt(log, Record(key, o)) == |value| &&
    log[o + 16 + |key|..o + 16 + |key| + |value|] == value
  }

  /** One round of preLoad's loop at cursor `pos`, as evidently intended:
      read the key size, the key into the 1 KiB buffer (a larger key size
      slices past its capacity and panics), the value size, and skip the
      value by moving the cursor valueSize bytes forward. A move past the end
      is allowed; the next read then finds io.EOF. */
  function LogStep(log: seq<byte>, pos: nat): (s: Step)
    ensures s.Next? ==> pos + 16 + |s.key| <= |log| && s.next == pos + s.Size()
    ensures pos >= |log| ==> s == Stop(EOF)
  {
    match ReadUint64(log, pos)
    case Failure(e) => Stop(e)
    case Success(keySize) =>
      if keySize > KeyBufSize then Stop(Panic)
      else
        match ReadFullAt(log, pos + 8, keySize)
        case Failure(e) => Stop(e)
        case Success(key) =>
          match ReadUint64(log, pos + 8 + keySize)
          case Failure(e) => Stop(e)
          case Success(valueSize) => Next(key, valueSize, pos + 16 + keySize + valueSize)
  }

  /** A round reads a record exactly when the log holds its key size, at
      most 1 KiB, its key and its value size; the record read is the one in
      the log. Otherwise the round ends the loop with io.EOF,
      io.ErrUnexpectedEOF or a panic. */
  lemma LogStepReads(log: seq<byte>, pos: nat)
    ensures var s := LogStep(log, pos);
      (s.Next? <==>
        pos + 8 <= |log| && Value(log[pos..pos + 8]) <= KeyBufSize && pos + 16 + Value(log[pos..pos + 8]) <= |log|) &&
      (s.Next? ==>
        KeyAt(log, pos, s.key) && |s.key| <= KeyBufSize && s.valueSize == ValueSizeAt(log, Record(s.key, pos))) &&
      (s.Stop? ==> s.err in {EOF, UnexpectedEOF, Panic})
  {
  }

  /** One round of preLoad's loop as written: the value is skipped by
      `Seek(int64(valueSize), 1)`, so a value size of 2^63 or more becomes a
      backward move, refused when it would pass the start of the file. */
  function LogStepAsWritten(log: seq<byte>, pos: nat): (s: Step)
    ensures s.Next? ==> s.next >= 0
  {
    match ReadUint64(log, pos)
    case Failure(e) => Stop(e)
    case Success(keySize) =>
      if keySize > KeyBufSize then Stop(Panic)
      else
        match ReadFullAt(log, pos + 8, keySize)
        case Failure(e) => Stop(e)
        case Success(key) =>
          match ReadUint64(log, pos + 8 + keySize)
          case Failure(e) => Stop(e)
          case Success(valueSize) =>
            var target := pos + 16 + keySize + Int64(valueSize);
            if target < 0 then Stop(NegativeOffset) else Next(key, valueSize, target)
  }

  /** The two rounds differ only on a value size of 2^63 or more, where the
      written one moves 2^64 bytes short of the intended one. */
  lemma AsWrittenDiffers(log: seq<byte>, pos: nat)
    ensures LogStep(log, pos).Stop? ==> LogStepAsWritten(log, pos) == LogStep(log, pos)
    ensures LogStep(log, pos).Next? && LogStep(log, pos).valueSize < MaxInt64 ==>
      LogStepAsWritten(log, pos) == LogStep(log, pos)
    ensures LogStep(log, pos).Next? && LogStep(log, pos).valueSize >= MaxInt64 ==>
      var s := LogStep(log, pos);
      LogStepAsWritten(log, pos) == if s.next < U64 then Stop(NegativeOffset) else Next(s.key, s.valueSize, s.next - U64)
  {
  }

  /** A 16-byte log holding one record: an empty key and a value size of
      2^64 - 16, the value itself missing. */
  const LoopingLog: seq<byte> := Bytes(0, 8) + Bytes(U64 - 16, 8)

  /** On LoopingLog the written loop reads the record at 0 and seeks back
      to 0, adding 16 + 0 + (2^64 - 16), that is 0 modulo 2^64, to the
      offset: it puts (fp(""), 0) forever. The intended scan meets the one
      record and stops at io.EOF. */
  lemma PreLoadAsWrittenLoops()
    ensures LogStepAsWritten(LoopingLog, 0) == Next([], U64 - 16, 0)
    ensures Wrap(0 + 16 + 0 + (U64 - 16)) == 0
    ensures ScanLog(LoopingLog, 0) == Scanned([Record([], 0)], EOF)
  {
    Pow256Constants();
    ValueOfBytes(0, 8);
    ValueOfBytes(U64 - 16, 8);

    assert LoopingLog[0..8] == Bytes(0, 8);
    assert LoopingLog[8..16] == Bytes(U64 - 16, 8);
    assert ReadUint64(LoopingLog, 0) == Success(0);
    assert ReadUint64(LoopingLog, 8) == Success(U64 - 16);
    DivModUnique(U64, U64, 1, 0);
    assert LogStep(LoopingLog, 0) == Next([], U64 - 16, U64);
  }

  /** preLoad's loop from cursor `pos`, as evidently intended. Each record
      takes at least 16 bytes of the log, so the loop ends. */
  function ScanLog(log: seq<byte>, pos: nat): (r: Scanned)
    ensures 16 * |r.records| <= if pos <= |log| then |log| - pos else 0
    decreases if pos <= |log| then |log| + 1 - pos else 0
  {
    match LogStep(log, pos)
    case Stop(e) => Scanned([], e)
    case Next(key, _, next) =>
      var rest := ScanLog(log, next);
      Scanned([Record(key, pos)] + rest.records, rest.err)
  }

  /** The scan from the start met `records` before reaching `pos`. */
  ghost predicate ScannedUpTo(log: seq<byte>, records: seq<Record>, pos: nat)
  {
    ScanLog(log, 0).err == ScanLog(log, pos).err && ScanLog(log, 0).records == records + ScanLog(log, pos).records
  }

  /** The scan at a record: the record, then the scan from where it ends. */
  lemma ScanLogNext(log: seq<byte>, pos: nat, records: seq<Record>)
    requires LogStep(log, pos).Next? && ScannedUpTo(log, records, pos)
    ensures ScannedUpTo(log, records + [Record(LogStep(log, pos).key, pos)], LogStep(log, pos).next)
  {
    var s := LogStep(log, pos);
    assert ScanLog(log, pos).records == [Record(s.key, pos)] + ScanLog(log, s.next).records;
  }

  /** Every record the scan meets is in the log, the first at the cursor and
      each next one where the value of the one before ends: the scan
      accounts 8 + keySize + 8 + valueSize bytes per record. */
  lemma {:induction false} ScanLogRecords(log: seq<byte>, pos: nat)
    ensures var rs := ScanLog(log, pos).records;
      (forall i :: 0 <= i < |rs| ==> KeyAt(log, rs[i].pos, rs[i].key) && |rs[i].key| <= KeyBufSize) &&
      (rs != [] ==> rs[0].pos == pos) &&
      forall i :: 0 <= i < |rs| - 1 ==> rs[i + 1].pos == rs[i].pos + 16 + |rs[i].key| + ValueSizeAt(log, rs[i])
    decreases if pos <= |log| then |log| + 1 - pos else 0
  {
    match LogStep(log, pos)
    case Stop(e) =>
    case Next(key, valueSize, next) =>
      LogStepReads(log, pos);
      ScanLogRecords(log, next);
      var rest := ScanLog(log, next).records;
      var rs := ScanLog(log, pos).records;
      assert rs == [Record(key, pos)] + rest;
      assert forall i :: 1 <= i < |rs| ==> rs[i] == rest[i - 1];
  }

  /** What preLoad puts to the shards builder for the records: each key's
      fingerprint and its record's position as a uint64. */
  function Puts(records: seq<Record>, fp: Fingerprint): (puts: seq<Entry>)
    ensures |puts| == |records|
    ensures forall i :: 0 <= i < |records| ==> puts[i] == Entry(fp(records[i].key), Wrap(records[i].pos))
  {
    seq(|records|, i requires 0 <= i < |records| => Entry(fp(records[i].key), Wrap(records[i].pos)))
  }

  /** The key check of DB.Get on the record at `offset`: read its key size
      (a mismatch with the key's length is a miss) and its key bytes (a
      mismatch is a miss); yields the key size. */
  function CheckKey(log: seq<byte>, offset: u64, key: seq<byte>): (r: Result<u64>)
    ensures r.Success? ==>
      r.value == |key| < MaxInt64 && offset + 8 + |key| <= |log| &&
      Value(log[offset..offset + 8]) == |key| && log[offset + 8..offset + 8 + |key|] == key
  {
    Pow256Constants();
    var keySizeBuf :- ReadAt(log, Int64(offset), 8);
    var keySize: u64 := Value(keySizeBuf);
    if Int64(keySize) != |key| then Failure(NotExist)
    else
      var keyBuf :- ReadAt(log, Int64(Wrap(offset + 8)), |key|);
      WrapSmall(offset + 8);
      if keyBuf != key then Failure(NotExist)
      else Success(keySize)
  }

  /** The value read of DB.Get behind a key of `keySize` bytes at `offset`:
      the value size (2^63 or more makes a negative-length buffer and
      panics), then the value. */
  function ReadValue(log: seq<byte>, offset: u64, keySize: u64): (r: Result<seq<byte>>)
    requires offset < 0x100_0000_0000 && keySize < MaxInt64
    ensures r.Success? ==>
      var start := offset + 16 + keySize;
      start + |r.value| <= |log| && Value(log[offset + 8 + keySize..start]) == |r.value| &&
      log[start..start + |r.value|] == r.value
  {
    Pow256Constants();
    WrapSmall(offset + 8 + keySize);
    WrapSmall(offset + 16 + keySize);
    var valueSizeBuf :- ReadAt(log, Int64(Wrap(offset + 8 + keySize)), 8);
    var valueSize: u64 := Value(valueSizeBuf);
    if Int64(valueSize) < 0 then Failure(Panic)
    else ReadAt(log, Int64(Wrap(offset + 16 + keySize)), valueSize)
  }

  lemma PutsSnoc(records: seq<Record>, record: Record, fp: Fingerprint)
    ensures Puts(records + [record], fp) == Puts(records, fp) + [Entry(fp(record.key), Wrap(record.pos))]
  {
  }

  /** The part of DB.Get after the index lookup: the key check and the
      value read on the record at `offset`. What it returns is the value of
      a whole record at `offset` holding exactly `key`. */
  function CheckRecord(log: seq<byte>, offset: u64, key: seq<byte>): (r: Result<seq<byte>>)
    requires offset < 0x100_0000_0000
    ensures r.Success? ==> RecordAt(log, offset, key, r.value)
  {
    var keySize :- CheckKey(log, offset, key);
    var value :- ReadValue(log, offset, keySize);
    assert ValueSizeAt(log, Record(key, offset)) == |value|;
    Success(value)
  }

  /** DB.Get: look the key's fingerprint up in the shards, then check the
      record at the offset found and read its value; errors pass through. */
  function Get(shards: seq<Option<HashTable>>, log: seq<byte>, fp: Fingerprint, key: seq<byte>): (r: Result<seq<byte>>)
    requires |shards| == ShardNum
  {
    var offset :- ShardsGet(shards, fp(key));
    CheckRecord(log, offset, key)
  }

  /** A value Get returns is the value of a whole record, holding exactly
      the key asked for, at the offset the shards gave for its fingerprint. */
  lemma GetSound(shards: seq<Option<HashTable>>, log: seq<byte>, fp: Fingerprint, key: seq<byte>)
    requires |shards| == ShardNum
    ensures Get(shards, log, fp, key).Success? ==>
      ShardsGet(shards, fp(key)).Success? &&
      RecordAt(log, ShardsGet(shards, fp(key)).value, key, Get(shards, log, fp, key).value)
  {
    if ShardsGet(shards, fp(key)).Success? {
      assert Get(shards, log, fp, key) == CheckRecord(log, ShardsGet(shards, fp(key)).value, key);
    }
  }

  /** The key check on the record at `o` holding key `k`: a different key is
      a miss, the same key passes. */
  lemma CheckKeyAt(log: seq<byte>, o: u64, k: seq<byte>, key: seq<byte>)
    requires o < 0x100_0000_0000 && |log| < 0x100_0000_0000 && KeyAt(log, o, k)
    ensures CheckKey(log, o, key) == if k == key then Success(|k|) else Failure(NotExist)
  {
    Pow256Constants();
    WrapSmall(o + 8);
    if |k| == |key| {
      assert ReadAt(log, o + 8, |key|) == Success(k);
    }
  }

  /** The value read on a whole record yields its value. */
  lemma ReadValueAt(log: seq<byte>, o: u64, key: seq<byte>, value: seq<byte>)
    requires o < 0x100_0000_0000 && |log| < 0x100_0000_0000 && RecordAt(log, o, key, value)
    ensures ReadValue(log, o, |key|) == Success(value)
  {
    Pow256Constants();
    WrapSmall(o + 8 + |key|);
    WrapSmall(o + 16 + |key|);
    if value != [] {
      assert ReadAt(log, o + 16 + |key|, |value|) == Success(value);
    }
  }

  /** Get on the record at `o`, the offset the shards give for key's
      fingerprint: a different key there is a miss, the same key yields the
      record's value. */
  lemma GetAtRecord(shards: seq<Option<HashTable>>, log: seq<byte>, fp: Fingerprint, key: seq<byte>,
                    o: nat, k: seq<byte>, value: seq<byte>)
    requires |shards| == ShardNum && |log| < 0x100_0000_0000
    requires ShardsGet(shards, fp(key)) == Success(o) && KeyAt(log, o, k)
    ensures k != key ==> Get(shards, log, fp, key) == Failure(NotExist)
    ensures k == key && RecordAt(log, o, k, value) ==> Get(shards, log, fp, key) == Success(value)
  {
    CheckKeyAt(log, o, k, key);
    if k == key && RecordAt(log, o, k, value) {
      ReadValueAt(log, o, key, value);
    }
    assert Get(shards, log, fp, key) == CheckRecord(log, o, key);
  }

  /** After preLoad, a key no record holds is a miss. */
  lemma GetMiss(log: seq<byte>, fp: Fingerprint, key: seq<byte>)
    requires |log| < 0x100_0000_0000
    requires NoSentinelPuts(Puts(ScanLog(log, 0).records, fp))
    requires forall i :: 0 <= i < |ScanLog(log, 0).records| ==> ScanLog(log, 0).records[i].key != key
    ensures Get(Built(Puts(ScanLog(log, 0).records, fp)), log, fp, key) == Failure(NotExist)
  {
    var rs := ScanLog(log, 0).records;
    var puts := Puts(rs, fp);
    var h := fp(key);
    BuiltGet(puts, h);
    match FirstOffset(puts, h)
    case None =>
    case Some(o) =>
      var j :| 0 <= j < |puts| && puts[j] == Entry(h, o);
      ScanLogRecords(log, 0);
      WrapSmall(rs[j].pos);
      DivModUnique(o, 0x100_0000_0000, 0, o);
      GetAtRecord(Built(puts), log, fp, key, o, rs[j].key, []);
  }

  /** After preLoad, Get returns the value of a record with the key, when no
      earlier record has a key with the same fingerprint. */
  lemma GetHit(log: seq<byte>, fp: Fingerprint, key: seq<byte>, i: nat, value: seq<byte>)
    requires |log| < 0x100_0000_0000
    requires NoSentinelPuts(Puts(ScanLog(log, 0).records, fp))
    requires i < |ScanLog(log, 0).records| && ScanLog(log, 0).records[i].key == key
    requires RecordAt(log, ScanLog(log, 0).records[i].pos, key, value)
    requires forall j :: 0 <= j < i ==> fp(ScanLog(log, 0).records[j].key) != fp(key)
    ensures Get(Built(Puts(ScanLog(log, 0).records, fp)), log, fp, key) == Success(value)
  {
    var rs := ScanLog(log, 0).records;
    var puts := Puts(rs, fp);
    var h := fp(key);
    assert puts[i].hash64 == h;
    BuiltGet(puts, h);
    var o := FirstOffset(puts, h).value;
    var j :| 0 <= j < |puts| && puts[j] == Entry(h, o) && (forall l :: 0 <= l < j ==> puts[l].hash64 != h);
    assert j == i;
    ScanLogRecords(log, 0);
    WrapSmall(rs[i].pos);
    DivModUnique(o, 0x100_0000_0000, 0, o);
    GetAtRecord(Built(puts), log, fp, key, o, key, value);
  }

  /** The table files the built shards were written to open to those very
      tables, so a later Open through the manifest serves the same index. */
  lemma ReopenBuilt(puts: seq<Entry>, files: seq<Result<seq<byte>>>)
    requires |puts| < 0x10_0000_0000_0000 && |files| == ShardNum
    requires forall i :: 0 <= i < ShardNum ==> files[i] == Success(TableFile(ShardPairs(puts, i)))
    ensures forall i :: 0 <= i < ShardNum ==>
      OpenShard(files[i]).Success? && Some(OpenShard(files[i]).value) == Built(puts)[i]
  {
    forall i | 0 <= i < ShardNum
      ensures OpenShard(files[i]) == Success(BuiltShard(puts, i))
    {
      OpenBuilt(puts, i);
    }
  }

  /** One round of preLoad's loop on the log file: binary.Read, io.ReadFull
      and Seek at the file's cursor. */
  method ReadRecord(file: File) returns (step: Step)
    modifies file
    ensures file.data == old(file.data)
    ensures step == LogStep(file.data, old(file.pos))
    ensures step.Next? ==> file.pos == step.next
  {
    Pow256Constants();
    var keySizeBuf := file.ReadFull(8);
    if keySizeBuf.Failure? {
      return Stop(keySizeBuf.error);
    }
    var keySize: u64 := Value(keySizeBuf.value);
    if keySize > KeyBufSize {
      return Stop(Panic);
    }
    var key := file.ReadFull(keySize);
    if key.Failure? {
      return Stop(key.error);
    }
    var valueSizeBuf := file.ReadFull(8);
    if valueSizeBuf.Failure? {
      return Stop(valueSizeBuf.error);
    }
    var valueSize: u64 := Value(valueSizeBuf.value);
    var _ := file.Seek(valueSize);
    return Next(key.value, valueSize, file.pos);
  }

  /** The builder holds the puts of `records` and has written no table yet. */
  ghost predicate Indexed(builder: ShardsBuilder, records: seq<Record>, fp: Fingerprint)
    reads builder, builder.repr
  {
    builder.Valid() && builder.puts == Puts(records, fp) &&
    forall i :: 0 <= i < ShardNum ==> builder.builders[i].table == []
  }

  /** One round of preLoad's loop: read a record and, when one is read, put
      its key's fingerprint and `offset` to the builder and advance `offset`
      past it in uint64 arithmetic, so that it stays the cursor modulo 2^64. */
  method Round(builder: ShardsBuilder, file: File, offset: u64, fp: Fingerprint, ghost records: seq<Record>)
      returns (step: Step, next: u64)
    requires Indexed(builder, records, fp) && offset == Wrap(file.pos)
    modifies file, builder, builder.repr
    ensures file.data == old(file.data) && step == LogStep(file.data, old(file.pos))
    ensures step.Stop? ==> Indexed(builder, records, fp)
    ensures step.Next? ==>
      file.pos == step.next && next == Wrap(file.pos) &&
      Indexed(builder, records + [Record(step.key, old(file.pos))], fp)
  {
    ghost var pos := file.pos;
    assert offset == Wrap(pos);
    step := ReadRecord(file);
    next := offset;
    if step.Stop? {
      return;
    }
    ghost var after := file.pos;
    var hash64 := fp(step.key);
    builder.Put(hash64, offset);
    assert file.pos == after;
    PutsSnoc(records, Record(step.key, pos), fp);
    assert builder.puts == Puts(records + [Record(step.key, pos)], fp);
    next := Wrap(offset + step.Size());
    WrapAdd(pos, step.Size(), file.pos);
    assert next == Wrap(file.pos);
  }

  /** preLoad's loop over the whole log file, from its start: every record
      met is put to the builder, and the error that ends the scan is returned. */
  method IndexLog(builder: ShardsBuilder, file: File, fp: Fingerprint) returns (last: Error)
    requires Indexed(builder, [], fp) && file.pos == 0
    modifies file, builder, builder.repr
    ensures file.data == old(file.data)
    ensures Indexed(builder, ScanLog(file.data, 0).records, fp) && last == ScanLog(file.data, 0).err
  {
    ghost var log := file.data;
    var offset: u64 := 0;
    ghost var records: seq<Record> := [];
    while true
      invariant Indexed(builder, records, fp) && ScannedUpTo(log, records, file.pos)
      invariant file.data == log && offset == Wrap(file.pos)
      decreases if file.pos <= |log| then |log| + 1 - file.pos else 0
    {
      ghost var pos := file.pos;
      var step;
      step, offset := Round(builder, file, offset, fp, records);
      if step.Stop? {
        last := step.err;
        break;
      }
      ScanLogNext(log, pos, records);
      records := records + [Record(step.key, pos)];
    }
  }

  /** A DB: the data log, the fingerprint, the 256 shards and the manifest
      file of the directory. */
  class DB {
    const log: seq<byte>
    const fp: Fingerprint
    var shards: seq<Option<HashTable>>
    var manifest: Option<Manifest>

    ghost predicate Valid()
      reads this
    {
      |shards| == ShardNum
    }

    /** The DB value Open makes once the log is open: no shards yet, no manifest. */
    constructor (log: seq<byte>, fp: Fingerprint)
      ensures Valid() && this.log == log && this.fp == fp && shards == NoShards && manifest == None
    {
      this.log, this.fp := log, fp;
      shards, manifest := NoShards, None;
    }

    /** preLoad: scan the log from the start, putting every record's key
      fingerprint and offset to a shards builder; only when the scan ends at
      io.EOF build the shards and write the manifest. */
    method PreLoad() returns (err: Option<Error>)
      requires Valid() && |log| < 0x100_0000_0000_0000
      modifies this
      ensures Valid()
      ensures var s := ScanLog(log, 0);
        (s.err == EOF ==> err == None && shards == Built(Puts(s.records, fp)) && manifest == Some(CurrentManifest)) &&
        (s.err != EOF ==> err == Some(s.err) && shards == old(shards) && manifest == old(manifest))
    {
      var builder := new ShardsBuilder();
      var file := new File.Open(log);
      var last := IndexLog(builder, file, fp);
      if last != EOF {
        return Some(last);
      }
      shards := builder.BuildShards();
      manifest := Some(CurrentManifest);
      return None;
    }
  }

  /** Open: open the log (its failure is returned with no DB), then load the
      manifest. A missing manifest builds the index by preLoad; any other
      manifest error is returned; a manifest read loads the tables. */
  method Open(log: Result<seq<byte>>, fp: Fingerprint, manifestFile: Result<Manifest>,
              tableFiles: seq<Result<seq<byte>>>) returns (db: DB?, err: Option<Error>)
    requires |tableFiles| == ShardNum
    requires log.Success? ==> |log.value| < 0x100_0000_0000_0000
    ensures log.Failure? ==> db == null && err == Some(log.error)
    ensures log.Success? ==> db != null && fresh(db) && db.Valid() && db.log == log.value && db.fp == fp
    ensures log.Success? && manifestFile.Failure? && manifestFile.error != NotExist ==>
      err == Some(manifestFile.error) && db.shards == NoShards && db.manifest == None
    ensures log.Success? && manifestFile == Failure(NotExist) ==>
      var s := ScanLog(log.value, 0);
      (s.err == EOF ==> err == None && db.shards == Built(Puts(s.records, fp)) && db.manifest == Some(CurrentManifest)) &&
      (s.err != EOF ==> err == Some(s.err) && db.shards == NoShards && db.manifest == None)
    ensures log.Success? && manifestFile.Success? ==>
      db.manifest == Some(manifestFile.value) &&
      (err.None? <==>
        manifestFile.value == CurrentManifest && forall i :: 0 <= i < ShardNum ==> OpenShard(tableFiles[i]).Success?) &&
      (err.None? ==> forall i :: 0 <= i < ShardNum ==> db.shards[i] == Some(OpenShard(tableFiles[i]).value))
  {
    if log.Failure? {
      return null, Some(log.error);
    }
    db := new DB(log.value, fp);
    if manifestFile.Failure? {
      if manifestFile.error == NotExist {
        err := db.PreLoad();
      } else {
        err := Some(manifestFile.error);
      }
      return;
    }
    db.manifest := Some(manifestFile.value);
    db.shards, err := LoadFromManifest(manifestFile.value, tableFiles);
  }
}
