/** builder.go: every (fingerprint, offset) put is routed to the builder of
    its shard, which appends the 12-byte pair to its scratch file; building
    turns each scratch file into a table file and opens it. The 256 shards
    are built one after the other. */
module Builder {
  import opened Bits
  import opened Io
  import opened Encoding
  import opened Probing
  import opened Hashtable
  import opened Shard

  /** One put of ShardsBuilder.Put: a fingerprint and the offset stored for it. */
  datatype Entry = Entry(hash64: u64, offset: u64)

  /** The 12 bytes an entry becomes in its shard: the 7-byte shard key, then
      the low 5 bytes of the offset. */
  function PutPair(e: Entry): (s: Slot)
    ensures s[..KLen] == ShardKey(e.hash64) && s[KLen..] == Bytes(e.offset, VLen)
  {
    ShardKey(e.hash64) + Bytes(e.offset, VLen)
  }

  /** The pairs of shard i, in put order. */
  function ShardPairs(puts: seq<Entry>, i: nat): (ps: seq<Slot>)
  {
    if puts == [] then []
    else
      var e := puts[|puts| - 1];
      ShardPairs(puts[..|puts| - 1], i) + (if ShardId(e.hash64) == i then [PutPair(e)] else [])
  }

  /** The offset of the first put of fingerprint h, if any. */
  function FirstOffset(puts: seq<Entry>, h: u64): (r: Option<u64>)
    ensures r.Some? <==> exists j :: 0 <= j < |puts| && puts[j].hash64 == h
    ensures r.Some? ==>
      exists j :: 0 <= j < |puts| && puts[j] == Entry(h, r.value) && (forall l :: 0 <= l < j ==> puts[l].hash64 != h)
  {
    if puts == [] then None
    else
      var init, e := puts[..|puts| - 1], puts[|puts| - 1];
      assert forall j :: 0 <= j < |init| ==> init[j] == puts[j];
      match FirstOffset(init, h)
      case Some(o) => Some(o)
      case None => if e.hash64 == h then Some(e.offset) else None
  }

  /** The scratch file holding `ps`, one 12-byte pair after the other. */
  function Flatten(ps: seq<Slot>): (r: seq<byte>)
    ensures |r| == 12 * |ps|
  {
    if ps == [] then [] else Flatten(ps[..|ps| - 1]) + ps[|ps| - 1]
  }

  lemma {:induction false} FlattenAt(ps: seq<Slot>, i: nat)
    requires i < |ps|
    ensures Flatten(ps)[12 * i..12 * i + 12] == ps[i]
  {
    var init := ps[..|ps| - 1];
    if i < |init| {
      FlattenAt(init, i);
      assert Flatten(ps)[12 * i..12 * i + 12] == Flatten(init)[12 * i..12 * i + 12];
    }
  }

  /** Pair i read back from a scratch file is pair i written to it. */
  lemma ReadFlattenAt(ps: seq<Slot>, i: nat)
    requires i < |ps|
    ensures ReadPairs(Flatten(ps), 0, |ps|).Success?
    ensures ReadPairs(Flatten(ps), 0, |ps|).value[i] == ps[i]
  {
    ReadPairsAt(Flatten(ps), 0, |ps|, i);
    FlattenAt(ps, i);
  }

  /** Reading a scratch file back gives the pairs written to it, in order. */
  lemma ReadFlatten(ps: seq<Slot>)
    ensures ReadPairs(Flatten(ps), 0, |ps|) == Success(ps)
  {
    var r := ReadPairs(Flatten(ps), 0, |ps|);
    if ps != [] {
      ReadFlattenAt(ps, 0);
      forall i | 0 <= i < |ps|
        ensures r.value[i] == ps[i]
      {
        ReadFlattenAt(ps, i);
      }
      assert r.value == ps;
    }
  }

  /** A shard gets at most as many pairs as there were puts. */
  lemma {:induction false} ShardPairsLength(puts: seq<Entry>, i: nat)
    ensures |ShardPairs(puts, i)| <= |puts|
  {
    if puts != [] {
      ShardPairsLength(puts[..|puts| - 1], i);
    }
  }

  /** A pair of shard i comes from a put routed to shard i. */
  lemma {:induction false} ShardPairsFrom(puts: seq<Entry>, i: nat)
    ensures forall s :: s in ShardPairs(puts, i) ==>
      exists e :: e in puts && ShardId(e.hash64) == i && s == PutPair(e)
  {
    if puts != [] {
      var init := puts[..|puts| - 1];
      ShardPairsFrom(init, i);
      assert forall e :: e in init ==> e in puts;
    }
  }

  /** A shard key is the 7 zero bytes of the empty-slot pattern exactly
      when the low 56 bits of the fingerprint are zero. */
  lemma ZeroKey(h: u64)
    ensures ShardKey(h) == [0, 0, 0, 0, 0, 0, 0] <==> h % 0x100_0000_0000_0000 == 0
  {
    var zeros: seq<byte> := [0, 0, 0, 0, 0, 0, 0];
    ValueOfBytes(h, KLen);
    Pow256Small();
    BytesOfValue(ShardKey(h));
    assert Value(zeros) == 0;
    BytesOfValue(zeros);
  }

  /** A packed offset is the 5 0x0F bytes of the empty-slot pattern exactly
      when the low 40 bits of the offset are 0x0F0F0F0F0F. */
  lemma FivesOffset(o: u64)
    ensures Bytes(o, VLen) == [0x0F, 0x0F, 0x0F, 0x0F, 0x0F] <==> o % 0x100_0000_0000 == 0x0F_0F0F_0F0F
  {
    var fives: seq<byte> := [0x0F, 0x0F, 0x0F, 0x0F, 0x0F];
    ValueOfBytes(o, VLen);
    Pow256Small();
    BytesOfValue(Bytes(o, VLen));
    assert Value(fives) == 0x0F_0F0F_0F0F;
    BytesOfValue(fives);
  }

  /** An entry is stored as the empty-slot pattern exactly when the low 56
      bits of its fingerprint are zero and the low 40 bits of its offset are
      0x0F0F0F0F0F. */
  lemma SentinelEntry(e: Entry)
    ensures PutPair(e) == NotExistSlot <==>
      e.hash64 % 0x100_0000_0000_0000 == 0 && e.offset % 0x100_0000_0000 == 0x0F_0F0F_0F0F
  {
    var zeros: seq<byte> := [0, 0, 0, 0, 0, 0, 0];
    var fives: seq<byte> := [0x0F, 0x0F, 0x0F, 0x0F, 0x0F];
    assert NotExistSlot == zeros + fives;
    var p := PutPair(e);
    assert p == NotExistSlot <==> p[..KLen] == zeros && p[KLen..] == fives;
    ZeroKey(e.hash64);
    FivesOffset(e.offset);
  }

  /** No put of `puts` is stored as the empty-slot pattern. */
  ghost predicate NoSentinelPuts(puts: seq<Entry>)
  {
    forall e :: e in puts ==> PutPair(e) != NotExistSlot
  }

  /** An offset as Shards.Get finds it stored: its low 5 bytes. */
  function PackedOffset(o: Option<u64>): Option<seq<byte>>
  {
    match o
    case None => None
    case Some(x) => Some(Bytes(x, VLen))
  }

  /** In the pairs of the shard of h, the first pair with h's key is the
      first put of h. */
  lemma {:induction false} ShardFirst(puts: seq<Entry>, h: u64)
    ensures FirstValue(ShardPairs(puts, ShardId(h)), ShardKey(h)) == PackedOffset(FirstOffset(puts, h))
  {
    if puts != [] {
      var init, e := puts[..|puts| - 1], puts[|puts| - 1];
      var s, k := ShardId(h), ShardKey(h);
      ShardFirst(init, h);
      var first := FirstOffset(init, h);
      assert FirstOffset(puts, h) == if first.Some? then first else if e.hash64 == h then Some(e.offset) else None;
      if ShardId(e.hash64) == s {
        assert ShardPairs(puts, s) == ShardPairs(init, s) + [PutPair(e)];
        FirstValueSnoc(ShardPairs(init, s), PutPair(e), k);
        if ShardKey(e.hash64) == k {
          CalcShardInjective(e.hash64, h);
        }
      } else {
        assert ShardPairs(init, s) + [] == ShardPairs(init, s);
        assert ShardPairs(puts, s) == ShardPairs(init, s);
        assert e.hash64 != h;
      }
    }
  }

  /** The table file Generate writes for `pairs`. */
  function TableFile(pairs: seq<Slot>): (f: seq<byte>)
    ensures |f| == 8 + 12 * SlotCountFor(|pairs|)
  {
    Serialize(Build(pairs, SlotCountFor(|pairs|)))
  }

  /** The opened table of shard i after building. */
  function BuiltShard(puts: seq<Entry>, i: nat): (t: HashTable)
    requires |puts| < 0x10_0000_0000_0000
  {
    ShardPairsLength(puts, i);
    var pairs := ShardPairs(puts, i);
    HashTable(SlotCountFor(|pairs|), TableFile(pairs))
  }

  /** Opening the table file built for shard i gives the built table. */
  lemma OpenBuilt(puts: seq<Entry>, i: nat)
    requires |puts| < 0x10_0000_0000_0000
    ensures OpenHashTable(TableFile(ShardPairs(puts, i))) == Success(BuiltShard(puts, i))
  {
    ShardPairsLength(puts, i);
    var pairs := ShardPairs(puts, i);
    OpenSerialized(Build(pairs, SlotCountFor(|pairs|)));
  }

  /** The shards BuildShards returns after `puts`. */
  function Built(puts: seq<Entry>): (shards: seq<Option<HashTable>>)
    requires |puts| < 0x10_0000_0000_0000
    ensures |shards| == ShardNum
    ensures forall i :: 0 <= i < ShardNum ==> shards[i] == Some(BuiltShard(puts, i))
  {
    seq(ShardNum, i requires 0 <= i < ShardNum => Some(BuiltShard(puts, i)))
  }

  /** The shards built from `puts` answer a fingerprint with the low 40 bits
      of the offset of its first put, and a fingerprint never put with
      os.ErrNotExist, provided no put is stored as the empty-slot pattern. */
  lemma BuiltGet(puts: seq<Entry>, h: u64)
    requires |puts| < 0x10_0000_0000_0000 && NoSentinelPuts(puts)
    ensures ShardsGet(Built(puts), h) ==
      match FirstOffset(puts, h)
      case None => Failure(NotExist)
      case Some(o) => Success(o % 0x100_0000_0000)
  {
    var s := ShardId(h);
    var pairs := ShardPairs(puts, s);
    ShardPairsLength(puts, s);
    ShardPairsFrom(puts, s);
    GenerateGet(pairs, ShardKey(h));
    OpenBuilt(puts, s);
    ShardFirst(puts, h);
    match FirstOffset(puts, h)
    case None =>
    case Some(o) => OffsetRoundTrip(o);
  }

  /** The builder of one shard. The buffered scratch file is modelled by its
      flushed contents; the table writer by the bytes written to it. */
  class ShardBuilder {
    var scratch: seq<byte>
    var keycount: nat
    var table: seq<byte>
    ghost var pairs: seq<Slot>
    /** The shard this builder is for. */
    ghost const shard: nat

    /** The scratch file holds the pairs put so far, keycount of them. */
    ghost predicate Valid()
      reads this
    {
      keycount == |pairs| && scratch == Flatten(pairs)
    }

    /** The builder is valid and holds exactly `ps`. */
    ghost predicate Holds(ps: seq<Slot>)
      reads this
    {
      Valid() && pairs == ps
    }

    /** The table file holds the table of the pairs put. */
    ghost predicate Finished()
      reads this
    {
      table == TableFile(pairs)
    }

    /** NewBuilder over a fresh scratch file and a fresh table file of shard i. */
    constructor (ghost i: nat)
      ensures Valid() && pairs == [] && scratch == [] && keycount == 0 && table == [] && shard == i
    {
      scratch, keycount, table, pairs := [], 0, [], [];
      shard := i;
    }

    /** Put: append k[:7] and v[:5] to the scratch file and count the key. */
    method Put(k: seq<byte>, v: seq<byte>)
      requires Valid() && |k| >= KLen && |v| >= VLen
      modifies this
      ensures Valid() && pairs == old(pairs) + [k[..KLen] + v[..VLen]]
      ensures scratch == old(scratch) + k[..KLen] + v[..VLen] && |scratch| == 12 * keycount
      ensures keycount == old(keycount) + 1 && table == old(table)
    {
      ghost var s: Slot := k[..KLen] + v[..VLen];
      scratch := scratch + k[..KLen];
      scratch := scratch + v[..VLen];
      keycount := keycount + 1;
      pairs := pairs + [s];
      assert pairs[..|pairs| - 1] == old(pairs);
    }

    /** Finish: rewind the scratch file and let Generate read it back (through
        readNext) and write the table file. On a valid builder the read
        cannot fail, so the table file receives the table of the pairs put. */
    method Finish()
      requires Valid() && keycount < 0x10_0000_0000_0000
      modifies this
      ensures Valid() && pairs == old(pairs) && scratch == old(scratch) && keycount == old(keycount)
      ensures table == old(table) + TableFile(pairs)
    {
      table := GenerateAfter(scratch, keycount, table, pairs);
    }
  }

  /** The body of Finish: the scratch file rewound (`Seek(0, 0)`), read back
      by Generate, which writes at the end of the table file. */
  method GenerateAfter(scratch: seq<byte>, keycount: nat, table: seq<byte>, ghost pairs: seq<Slot>)
      returns (written: seq<byte>)
    requires scratch == Flatten(pairs) && keycount == |pairs| < 0x10_0000_0000_0000
    ensures written == table + TableFile(pairs)
  {
    var tmp := new File.Open(scratch);
    var w := new File.Open(table);
    var _ := w.Seek(|table|);
    assert w.Valid() && w.data == table && w.pos == |table|;
    ReadFlatten(pairs);
    assert ReadPairs(tmp.data, tmp.pos, keycount) == Success(pairs);
    var err := Generate(tmp, keycount, w);
    assert w.data == Splice(table, |table|, TableFile(pairs));
    SpliceEnd(table, TableFile(pairs));
    written := w.data;
  }

  /** ShardsBuilder: one shard builder per shard, and the puts made so far. */
  class ShardsBuilder {
    const builders: seq<ShardBuilder>
    ghost const repr: set<ShardBuilder>
    ghost var puts: seq<Entry>

    /** 256 distinct builders, the builder of shard i holding the pairs of
        the puts routed to i. */
    ghost predicate Valid()
      reads this, repr
    {
      |builders| == ShardNum && (forall i :: 0 <= i < ShardNum ==> builders[i] in repr) &&
      (forall i :: 0 <= i < ShardNum ==> builders[i].shard == i) &&
      forall i :: 0 <= i < ShardNum ==> builders[i].Holds(ShardPairs(puts, i))
    }

    /** NewShardsBuilder: a fresh builder per shard, nothing put yet. */
    constructor ()
      ensures Valid() && puts == []
      ensures forall i :: 0 <= i < ShardNum ==> builders[i].table == []
      ensures fresh(repr)
    {
      var bs: seq<ShardBuilder> := [];
      while |bs| < ShardNum
        invariant |bs| <= ShardNum
        invariant forall i :: 0 <= i < |bs| ==> fresh(bs[i])
        invariant forall i :: 0 <= i < |bs| ==> bs[i].shard == i
        invariant forall i :: 0 <= i < |bs| ==> bs[i].Valid() && bs[i].pairs == [] && bs[i].table == []
      {
        var b := new ShardBuilder(|bs|);
        bs := bs + [b];
      }
      builders := bs;
      repr := set i | 0 <= i < |bs| :: bs[i];
      puts := [];
    }

    /** Put: split the fingerprint into shard id and key, pack the offset
        into 5 bytes, and put both to the builder of that shard; no other
        builder changes. */
    method Put(hash64: u64, offset: u64)
      requires Valid()
      modifies this, repr
      ensures Valid() && puts == old(puts) + [Entry(hash64, offset)]
      ensures forall i :: 0 <= i < ShardNum ==> builders[i].table == old(builders[i].table)
      ensures forall i :: 0 <= i < ShardNum && i != ShardId(hash64) ==>
        builders[i].scratch == old(builders[i].scratch) && builders[i].keycount == old(builders[i].keycount)
    {
      var shardId, key := CalcShard(hash64);
      var vBuf := new byte[VLen](_ => 0);
      LittleEndianPutOffset(vBuf, offset);
      var v := vBuf[..];
      assert v == Bytes(offset, VLen);
      ghost var e := Entry(hash64, offset);
      assert key[..KLen] + v[..VLen] == PutPair(e);
      builders[shardId].Put(key, v);
      puts := puts + [e];
      assert puts[..|puts| - 1] == old(puts);
      forall i | 0 <= i < ShardNum
        ensures builders[i].Valid() && builders[i].pairs == ShardPairs(puts, i)
      {
        if i != shardId {
          assert ShardPairs(puts, i) == ShardPairs(old(puts), i) + [];
        }
      }
    }

    /** BuildShards: finish every builder and open its table file, shard
        after shard. */
    /** Finish the builder of shard i and open its table file. */
    method FinishShard(i: nat) returns (table: HashTable)
      requires Valid() && i < ShardNum && |puts| < 0x10_0000_0000_0000 && builders[i].table == []
      modifies builders[i]
      ensures Valid() && builders[i].Finished() && table == BuiltShard(puts, i)
    {
      ShardPairsLength(puts, i);
      builders[i].Finish();
      ghost var file := TableFile(ShardPairs(puts, i));
      assert [] + file == file;
      OpenBuilt(puts, i);
      var t := OpenHashTable(builders[i].table);
      table := t.value;
    }

    method BuildShards() returns (shards: seq<Option<HashTable>>)
      requires Valid() && |puts| < 0x10_0000_0000_0000
      requires forall i :: 0 <= i < ShardNum ==> builders[i].table == []
      modifies repr
      ensures Valid() && shards == Built(puts)
      ensures forall i :: 0 <= i < ShardNum ==> builders[i].Finished()
    {
      ghost var ps := puts;
      ghost var expected := Built(ps);
      shards := [];
      var i := 0;
      while i < ShardNum
        invariant i <= ShardNum && |shards| == i && Valid() && puts == ps
        invariant forall j :: 0 <= j < i ==> builders[j].Finished()
        invariant forall j :: 0 <= j < i ==> shards[j] == expected[j]
        invariant forall j :: i <= j < ShardNum ==> builders[j].table == []
      {
        label Before:
        var table := FinishShard(i);
        forall j | 0 <= j < ShardNum && j != i
          ensures unchanged@Before(builders[j])
        {
          assert builders[j].shard != builders[i].shard;
        }
        assert puts == ps;
        assert Some(table) == expected[i];
        shards := shards + [Some(table)];
        i := i + 1;
      }
      assert shards == expected;
    }
  }
}
