/** hashtable.go: building a table file from a shard's scratch stream
    (Generate), opening it (OpenHashTable) and probing it (HashTable.Get).
    A table file is an 8-byte little-endian slot count followed by the
    slots in index order, 12 bytes each. */
module Hashtable {
  import opened Bits
  import opened Io
  import opened Encoding
  import opened Probing

  /** NotExistSlot: the bytes written for an empty slot, seven zero key
      bytes and five 0x0F value bytes. */
  const NotExistSlot: Slot := [0, 0, 0, 0, 0, 0, 0, 0x0F, 0x0F, 0x0F, 0x0F, 0x0F]

  /** nextSlot: the uint64 increment, reset to 0 once it reaches slotCount. */
  function NextSlot(slot: u64, slotCount: u64): (r: u64)
    ensures slotCount > 0 ==> r < slotCount
  {
    var s := (slot + 1) % U64;
    if s >= slotCount then 0 else s
  }

  /** Within the table nextSlot is the successor modulo the slot count. */
  lemma NextSlotMod(slot: u64, slotCount: u64)
    requires slot < slotCount
    ensures NextSlot(slot, slotCount) == (slot + 1) % slotCount
  {
    if slot + 1 < slotCount {
      DivModUnique(slot + 1, slotCount, 0, slot + 1);
    } else {
      DivModUnique(slot + 1, slotCount, 1, 0);
    }
  }

  /** nextSlot walks the probe sequence of the table model. */
  lemma NextSlotPos(h: nat, j: nat, n: nat)
    requires h < n < U64 && j + 1 < n
    ensures NextSlot(Pos(h, j, n), n) == Pos(h, j + 1, n)
  {
  }

  lemma {:induction false} Pow2Mono(i: nat, j: nat)
    requires i <= j
    ensures Pow2(i) <= Pow2(j)
    decreases j - i
  {
    if i < j {
      Pow2Mono(i + 1, j);
    }
  }

  /** The value of `musk` when the sizing loop of Generate, started at e, stops. */
  function MuskFrom(c: nat, e: nat): (r: nat)
    ensures r >= e && Pow2(r) >= c
    ensures forall i :: e <= i < r ==> Pow2(i) < c
    decreases c - Pow2(e)
  {
    if Pow2(e) >= c then e else MuskFrom(c, e + 1)
  }

  /** The slot count Generate chooses for keycount pairs: 2^musk, musk being
      the first exponent with 2^musk >= 3 * keycount. */
  function SlotCountFor(keycount: nat): (n: nat)
    ensures n >= 1 && n >= 3 * keycount
    ensures n == 1 || n < 6 * keycount
  {
    var m := MuskFrom(3 * keycount, 0);
    if m > 0 then assert Pow2(m - 1) < 3 * keycount; Pow2(m) else Pow2(m)
  }

  /** The slot count is the smallest power of two that is at least 3 * keycount. */
  lemma SlotCountMinimal(keycount: nat, e: nat)
    requires Pow2(e) >= 3 * keycount
    ensures SlotCountFor(keycount) <= Pow2(e)
    ensures SlotCountFor(keycount) == Pow2(MuskFrom(3 * keycount, 0))
  {
    Pow2Mono(MuskFrom(3 * keycount, 0), e);
  }

  lemma SlotCountExamples()
    ensures SlotCountFor(0) == 1 && SlotCountFor(3) == 16 && SlotCountFor(10) == 32
  {
    assert MuskFrom(0, 0) == 0;
    assert MuskFrom(9, 0) == 4 by {
      assert Pow2(3) == 8 && Pow2(4) == 16;
    }
    assert MuskFrom(30, 0) == 5 by {
      assert Pow2(4) == 16 && Pow2(5) == 32;
    }
  }

  /** The bytes written for a slot. */
  function Cell(c: Option<Slot>): (r: Slot)
    ensures c.None? ==> r == NotExistSlot
    ensures c.Some? ==> r == c.value
  {
    match c
    case None => NotExistSlot
    case Some(s) => s
  }

  /** The slots of t written in index order. */
  function Cells(t: Table): (r: seq<byte>)
    ensures |r| == 12 * |t|
  {
    if t == [] then [] else Cells(t[..|t| - 1]) + Cell(t[|t| - 1])
  }

  lemma {:induction false} CellsAt(t: Table, p: nat)
    requires p < |t|
    ensures Cells(t)[12 * p..12 * p + 12] == Cell(t[p])
  {
    var m := |t| - 1;
    if p < m {
      CellsAt(t[..m], p);
      assert Cells(t)[..12 * m] == Cells(t[..m]);
    }
  }

  /** The table file of t: the little-endian slot count, then every slot. */
  function Serialize(t: Table): (r: seq<byte>)
    ensures |r| == 8 + 12 * |t|
  {
    Bytes(|t|, 8) + Cells(t)
  }

  /** Slot p of the table file lies at byte offset 8 + 12p. */
  lemma SerializeAt(t: Table, p: nat)
    requires p < |t|
    ensures Serialize(t)[8 + 12 * p..8 + 12 * p + 12] == Cell(t[p])
  {
    CellsAt(t, p);
    assert Serialize(t)[8 + 12 * p..8 + 12 * p + 12] == Cells(t)[12 * p..12 * p + 12];
  }

  /** No stored pair looks like an empty slot. */
  ghost predicate NoSentinel(t: Table)
  {
    forall p :: 0 <= p < |t| ==> t[p] != Some(NotExistSlot)
  }

  /** Every slot of a built table is empty or holds one of the pairs. */
  lemma {:induction false} BuildMembers(pairs: seq<Slot>, n: nat)
    requires n >= 1
    ensures forall p :: 0 <= p < n && Build(pairs, n)[p].Some? ==> Build(pairs, n)[p].value in pairs
  {
    if pairs != [] {
      var m := |pairs| - 1;
      BuildMembers(pairs[..m], n);
      assert forall s :: s in pairs[..m] ==> s in pairs;
    }
  }

  /** The pairs read by `readNext` from cursor pos: a 7-byte key, then a 5-byte value. */
  function ReadPair(data: seq<byte>, pos: nat): (r: Result<Slot>)
    ensures r.Success? <==> pos + 12 <= |data|
    ensures r.Success? ==> r.value == data[pos..pos + 12]
  {
    var k :- ReadFullAt(data, pos, KLen);
    var v :- ReadFullAt(data, pos + KLen, VLen);
    assert data[pos..pos + 12] == k + v;
    Success(k + v)
  }

  /** The keycount pairs Generate reads from cursor pos, or the first read error. */
  function ReadPairs(data: seq<byte>, pos: nat, keycount: nat): (r: Result<seq<Slot>>)
    ensures r.Success? <==> keycount == 0 || pos + 12 * keycount <= |data|
    ensures r.Success? ==> |r.value| == keycount
    decreases keycount
  {
    if keycount == 0 then Success([])
    else
      var s :- ReadPair(data, pos);
      var rest :- ReadPairs(data, pos + 12, keycount - 1);
      Success([s] + rest)
  }

  /** Pair i of a successful read is the 12 bytes at pos + 12i. */
  lemma {:induction false} ReadPairsAt(data: seq<byte>, pos: nat, keycount: nat, i: nat)
    requires ReadPairs(data, pos, keycount).Success? && i < keycount
    ensures ReadPairs(data, pos, keycount).value[i] == data[pos + 12 * i..pos + 12 * i + 12]
    decreases keycount
  {
    if i > 0 {
      ReadPairsAt(data, pos + 12, keycount - 1, i - 1);
    }
  }

  /** A scratch stream shorter than 12 * keycount bytes makes Generate fail
      with io.EOF when it ends at a record or value boundary and with
      io.ErrUnexpectedEOF otherwise. */
  lemma {:induction false} ReadPairsError(data: seq<byte>, pos: nat, keycount: nat)
    requires pos <= |data| < pos + 12 * keycount
    ensures ReadPairs(data, pos, keycount) ==
      Failure(if (|data| - pos) % 12 == 0 || (|data| - pos) % 12 == 7 then EOF else UnexpectedEOF)
    decreases keycount
  {
    if pos + 12 <= |data| {
      ReadPairsError(data, pos + 12, keycount - 1);
      assert (|data| - pos) % 12 == (|data| - (pos + 12)) % 12;
    }
  }

  function Prepend(ps: seq<Slot>, r: Result<seq<Slot>>): Result<seq<Slot>>
  {
    if r.Success? then Success(ps + r.value) else r
  }

  /** The outcome `all` of reading pairs, once `pairs` have been read and
      `rest` remain to be read from cursor pos. */
  ghost predicate Pending(all: Result<seq<Slot>>, pairs: seq<Slot>, data: seq<byte>, pos: nat, rest: nat)
  {
    all == Prepend(pairs, ReadPairs(data, pos, rest))
  }

  /** Before the loop of Generate nothing has been read. */
  lemma PendingStart(data: seq<byte>, pos: nat, keycount: nat)
    ensures Pending(ReadPairs(data, pos, keycount), [], data, pos, keycount)
  {
    var all := ReadPairs(data, pos, keycount);
    if all.Success? {
      assert [] + all.value == all.value;
    }
  }

  /** When nothing remains to be read, the pairs read are the outcome. */
  lemma PendingDone(all: Result<seq<Slot>>, pairs: seq<Slot>, data: seq<byte>, pos: nat)
    requires Pending(all, pairs, data, pos, 0)
    ensures all == Success(pairs)
  {
    assert pairs + [] == pairs;
  }

  /** One pair read off the front of ReadPairs, as the loop of Generate sees it. */
  lemma ReadPairsNext(data: seq<byte>, pos: nat, m: nat, pairs: seq<Slot>, v: Slot, all: Result<seq<Slot>>)
    requires all == Prepend(pairs, ReadPairs(data, pos, m + 1))
    requires ReadPair(data, pos) == Success(v)
    ensures all == Prepend(pairs + [v], ReadPairs(data, pos + 12, m))
  {
    var rest := ReadPairs(data, pos + 12, m);
    if rest.Success? {
      assert pairs + ([v] + rest.value) == (pairs + [v]) + rest.value;
    }
  }

  /** A failed pair read is the failure of the whole read. */
  lemma ReadPairsStop(data: seq<byte>, pos: nat, m: nat, pairs: seq<Slot>, e: Error)
    requires ReadPair(data, pos) == Failure(e)
    ensures Prepend(pairs, ReadPairs(data, pos, m + 1)) == Failure(e)
  {
  }

  /** readNext of the shard builder, the kvReader Generate reads from: the
      next 7 key bytes, then the next 5 value bytes of the scratch file. */
  method ReadNext(source: File) returns (r: Result<Slot>)
    modifies source
    ensures source.data == old(source.data)
    ensures r == ReadPair(source.data, old(source.pos))
    ensures r.Success? ==> source.pos == old(source.pos) + 12
  {
    var k := source.ReadFull(KLen);
    if k.Failure? {
      return Failure(k.error);
    }
    var v := source.ReadFull(VLen);
    if v.Failure? {
      return Failure(v.error);
    }
    return Success(k.value + v.value);
  }

  /** The table held by the `slots` and `hit` arrays of Generate. */
  ghost function AsTable(slots: seq<Slot>, hit: seq<bool>): (t: Table)
    requires |slots| == |hit|
    ensures |t| == |hit|
  {
    seq(|hit|, p requires 0 <= p < |hit| => if hit[p] then Some(slots[p]) else None)
  }

  /** The arrays of Generate hold the table built from `pairs`. */
  ghost predicate Holds(slots: array<Slot>, hit: array<bool>, pairs: seq<Slot>)
    reads slots, hit
  {
    1 <= slots.Length == hit.Length && AsTable(slots[..], hit[..]) == Build(pairs, hit.Length)
  }

  /** Arrays with no slot hit hold the table built from no pairs. */
  lemma HoldsEmpty(slots: array<Slot>, hit: array<bool>)
    requires 1 <= slots.Length == hit.Length && forall p :: 0 <= p < hit.Length ==> !hit[p]
    ensures Holds(slots, hit, [])
  {
    assert AsTable(slots[..], hit[..]) == Empty(hit.Length);
  }

  /** The sizing loop of Generate: `musk` grows until `1 << musk >= keycount * 3`. */
  method SlotCount(keycount: nat) returns (slotCount: u64)
    requires 3 * keycount < 0x8000_0000_0000_0000
    ensures slotCount == SlotCountFor(keycount)
  {
    slotCount := 3 * keycount;
    var musk: nat := 0;
    while Pow2(musk) < slotCount
      invariant MuskFrom(3 * keycount, musk) == MuskFrom(3 * keycount, 0)
      decreases slotCount - Pow2(musk)
    {
      musk := musk + 1;
    }
    assert MuskFrom(3 * keycount, musk) == musk;
    assert Pow2(musk) == SlotCountFor(keycount);
    slotCount := Pow2(musk);
  }

  /** The probe loop of Generate: from the home slot of s, the first slot
      not yet hit, if any. */
  method FirstFree(slots: array<Slot>, hit: array<bool>, s: Slot, ghost t: Table) returns (slot: u64, found: bool)
    requires 1 <= slots.Length == hit.Length < U64 && t == AsTable(slots[..], hit[..])
    ensures found <==> FreeFrom(t, Home(s, |t|), 0) < |t|
    ensures found ==> slot == Pos(Home(s, |t|), FreeFrom(t, Home(s, |t|), 0), |t|)
  {
    var slotCount: u64 := hit.Length;
    ghost var n := hit.Length;
    ghost var h := Home(s, n);
    slot := And(LittleEndianKey(s), slotCount - 1);
    var j: u64 := 0;
    while j < slotCount
      invariant j <= n && (j < n ==> slot == Pos(h, j, n))
      invariant forall m :: 0 <= m < j ==> t[Pos(h, m, n)].Some?
    {
      if !hit[slot] {
        FreeFromAt(t, h, 0, j);
        return slot, true;
      }
      if j + 1 < slotCount {
        NextSlotPos(h, j, n);
      }
      slot := NextSlot(slot, slotCount);
      j := j + 1;
    }
    FreeFromAt(t, h, 0, n);
    return slot, false;
  }

  /** The placement of Generate: s goes into the first slot not yet hit on
      the probe sequence from its home slot; when all are hit it is dropped. */
  method Place(slots: array<Slot>, hit: array<bool>, s: Slot)
    requires 1 <= slots.Length == hit.Length < U64
    modifies slots, hit
    ensures AsTable(slots[..], hit[..]) == Insert(old(AsTable(slots[..], hit[..])), s)
  {
    ghost var t := AsTable(slots[..], hit[..]);
    var slot, found := FirstFree(slots, hit, s, t);
    if found {
      hit[slot] := true;
      slots[slot] := s;
      assert AsTable(slots[..], hit[..]) == t[slot := Some(s)];
    }
  }

  /** Writing the next slot extends the written prefix of the table file. */
  lemma SpliceCells(d: seq<byte>, pos: nat, header: seq<byte>, t: Table, p: nat)
    requires pos <= |d| && p < |t|
    ensures pos + |header| + 12 * p <= |Splice(d, pos, header + Cells(t[..p]))|
    ensures Splice(Splice(d, pos, header + Cells(t[..p])), pos + |header| + 12 * p, Cell(t[p])) ==
      Splice(d, pos, header + Cells(t[..p + 1]))
  {
    SpliceTwice(d, pos, header + Cells(t[..p]), Cell(t[p]));
    assert t[..p + 1][..p] == t[..p];
    assert (header + Cells(t[..p])) + Cell(t[p]) == header + Cells(t[..p + 1]);
  }

  /** One slot of the flush: the stored pair, or the empty-slot pattern
      where nothing was placed. */
  method WriteSlot(w: File, slots: array<Slot>, hit: array<bool>, p: nat, ghost table: Table)
    requires w.Valid() && p < slots.Length == hit.Length
    requires table == AsTable(slots[..], hit[..])
    modifies w
    ensures w.Valid()
    ensures w.data == Splice(old(w.data), old(w.pos), Cell(table[p])) && w.pos == old(w.pos) + 12
  {
    if hit[p] {
      w.Write(slots[p]);
    } else {
      w.Write(NotExistSlot);
    }
  }

  /** The flush of Generate: the little-endian slot count, then each slot,
      the empty-slot pattern where nothing was placed. */
  method Flush(w: File, slots: array<Slot>, hit: array<bool>)
    requires w.Valid() && slots.Length == hit.Length < U64
    modifies w
    ensures w.Valid()
    ensures w.data == Splice(old(w.data), old(w.pos), Serialize(AsTable(slots[..], hit[..])))
    ensures w.pos == old(w.pos) + 8 + 12 * hit.Length
  {
    ghost var table := AsTable(slots[..], hit[..]);
    ghost var d0, pos0 := w.data, w.pos;
    var slotCount: u64 := hit.Length;
    var header := Bytes(slotCount, 8);
    w.Write(header);
    var p := 0;
    while p < slotCount
      invariant p <= slotCount && w.Valid()
      invariant w.data == Splice(d0, pos0, header + Cells(table[..p]))
      invariant w.pos == pos0 + 8 + 12 * p
    {
      WriteSlot(w, slots, hit, p, table);
      SpliceCells(d0, pos0, header, table, p);
      p := p + 1;
    }
    assert table[..slotCount] == table;
  }

  /** One turn of the loop of Generate: read the next pair and place it;
      a read error leaves the table as it is. */
  method ReadAndPlace(source: File, slots: array<Slot>, hit: array<bool>,
                      ghost rest: nat, ghost pairs: seq<Slot>, ghost all: Result<seq<Slot>>)
      returns (r: Result<Slot>)
    requires hit.Length < U64 && rest >= 1
    requires Pending(all, pairs, source.data, source.pos, rest)
    requires Holds(slots, hit, pairs)
    modifies source, slots, hit
    ensures source.data == old(source.data) && r == ReadPair(source.data, old(source.pos))
    ensures r.Failure? ==> all == Failure(r.error)
    ensures r.Success? ==>
      source.pos == old(source.pos) + 12 &&
      Pending(all, pairs + [r.value], source.data, source.pos, rest - 1) &&
      Holds(slots, hit, pairs + [r.value])
  {
    ghost var data, pos := source.data, source.pos;
    r := ReadNext(source);
    if r.Failure? {
      ReadPairsStop(data, pos, rest - 1, pairs, r.error);
      return;
    }
    Place(slots, hit, r.value);
    BuildSnoc(pairs, r.value, hit.Length);
    ReadPairsNext(data, pos, rest - 1, pairs, r.value, all);
  }

  /** The read-and-place loop of Generate: keycount pairs read from `source`,
      each placed by linear probing into the empty table held by slots/hit;
      the first read error stops the loop. */
  method Fill(source: File, keycount: nat, slots: array<Slot>, hit: array<bool>) returns (err: Option<Error>)
    requires 1 <= slots.Length == hit.Length < U64
    requires forall p :: 0 <= p < hit.Length ==> !hit[p]
    modifies source, slots, hit
    ensures source.data == old(source.data)
    ensures ReadPairs(source.data, old(source.pos), keycount).Failure? ==>
      err == Some(ReadPairs(source.data, old(source.pos), keycount).error)
    ensures ReadPairs(source.data, old(source.pos), keycount).Success? ==>
      err == None && source.pos == old(source.pos) + 12 * keycount &&
      Holds(slots, hit, ReadPairs(source.data, old(source.pos), keycount).value)
  {
    ghost var data, pos0 := source.data, source.pos;
    ghost var all := ReadPairs(data, pos0, keycount);
    ghost var pairs: seq<Slot> := [];
    PendingStart(data, pos0, keycount);
    HoldsEmpty(slots, hit);
    var i := 0;
    while i < keycount
      invariant i <= keycount && |pairs| == i
      invariant source.data == data && source.pos == pos0 + 12 * i
      invariant Pending(all, pairs, data, source.pos, keycount - i)
      invariant Holds(slots, hit, pairs)
    {
      var r := ReadAndPlace(source, slots, hit, keycount - i, pairs, all);
      if r.Failure? {
        return Some(r.error);
      }
      pairs := pairs + [r.value];
      i := i + 1;
    }
    PendingDone(all, pairs, data, source.pos);
    return None;
  }

  /** Generate: size the table, read keycount pairs from `source` placing each
      by linear probing, then write the header and every slot to w. A read
      error is returned before anything is written. */
  method Generate(source: File, keycount: nat, w: File) returns (err: Option<Error>)
    requires source != w && w.Valid() && 3 * keycount < 0x8000_0000_0000_0000
    modifies source, w
    ensures source.data == old(source.data)
    ensures ReadPairs(source.data, old(source.pos), keycount).Failure? ==>
      err == Some(ReadPairs(source.data, old(source.pos), keycount).error) &&
      w.data == old(w.data) && w.pos == old(w.pos)
    ensures ReadPairs(source.data, old(source.pos), keycount).Success? ==>
      err == None && w.Valid() && source.pos == old(source.pos) + 12 * keycount &&
      w.data == Splice(old(w.data), old(w.pos),
        Serialize(Build(ReadPairs(source.data, old(source.pos), keycount).value, SlotCountFor(keycount)))) &&
      w.pos == old(w.pos) + 8 + 12 * SlotCountFor(keycount)
  {
    var slotCount := SlotCount(keycount);
    var slots := new Slot[slotCount](_ => NotExistSlot);
    var hit := new bool[slotCount](_ => false);
    err := Fill(source, keycount, slots, hit);
    if err.Some? {
      return;
    }
    Flush(w, slots, hit);
  }

  /** A reader of table slots: the bytes of slot p, or the read error. */
  type SlotReader = u64 -> Result<seq<byte>>

  /** The probe loop of HashTable.Get from step i at `slot`, over the slot
      reads of a table file: stop on a read error, on the empty pattern or on
      a key match, and give up after slotCount steps. */
  function Walk(read: SlotReader, slotCount: u64, k: seq<byte>, slot: u64, i: nat): (r: Result<seq<byte>>)
    requires forall p: u64 :: read(p).Success? ==> |read(p).value| == 12
    requires forall p: u64 :: read(p).Failure? ==> read(p).error == EOF || read(p).error == NegativeOffset
    ensures r.Success? ==> |r.value| == VLen
    ensures r.Failure? ==> r.error == NotExist || r.error == EOF || r.error == NegativeOffset
    decreases slotCount - i
  {
    if i >= slotCount then Failure(NotExist)
    else match read(slot)
      case Failure(e) => Failure(e)
      case Success(b) =>
        if b == NotExistSlot then Failure(NotExist)
        else if b[..KLen] == k then Success(b[KLen..])
        else Walk(read, slotCount, k, NextSlot(slot, slotCount), i + 1)
  }

  /** A table file opened for lookups: its slot count and its bytes. */
  datatype HashTable = HashTable(slotCount: u64, file: seq<byte>) {

    /** The 12 bytes of `slot`, read at byte offset `int64(8 + slot*12)`. */
    function ReadSlot(slot: u64): (r: Result<seq<byte>>)
      ensures r.Success? ==> |r.value| == 12
      ensures r.Failure? ==> r.error == EOF || r.error == NegativeOffset
    {
      ReadAt(file, Int64((8 + slot * 12) % U64), 12)
    }

    /** The result of HashTable.Get(k): a key shorter than 7 bytes makes
        `littleEndianKey` index out of range. */
    function Find(k: seq<byte>): (r: Result<seq<byte>>)
      ensures r.Success? ==> |r.value| == VLen
      ensures |k| < KLen <==> r == Failure(Panic)
    {
      if |k| < KLen then Failure(Panic)
      else Walk(ReadSlot, slotCount, k, And(LittleEndianKey(k), (slotCount + U64 - 1) % U64), 0)
    }

    /** HashTable.Get. */
    method Get(k: seq<byte>) returns (r: Result<seq<byte>>)
      ensures r == Find(k)
    {
      if |k| < KLen {
        return Failure(Panic);
      }
      var slot: u64 := And(LittleEndianKey(k), (slotCount + U64 - 1) % U64);
      var i: nat := 0;
      while i < slotCount
        invariant Walk(ReadSlot, slotCount, k, slot, i) == Find(k)
      {
        var b := ReadSlot(slot);
        if b.Failure? {
          return Failure(b.error);
        }
        if b.value == NotExistSlot {
          return Failure(NotExist);
        }
        if b.value[..KLen] == k {
          return Success(b.value[KLen..]);
        }
        slot := NextSlot(slot, slotCount);
        i := i + 1;
      }
      return Failure(NotExist);
    }
  }

  /** OpenHashTable: the slot count is the little-endian uint64 at bytes 0..8. */
  function OpenHashTable(file: seq<byte>): (r: Result<HashTable>)
    ensures r.Success? <==> |file| >= 8
    ensures r.Failure? ==> r.error == EOF
    ensures r.Success? ==> r.value.file == file && Bytes(r.value.slotCount, 8) == file[..8]
  {
    var b :- ReadAt(file, 0, 8);
    Pow256Constants();
    BytesOfValue(b);
    Success(HashTable(Value(b), file))
  }

  /** Opening a generated table file gives back its slot count. */
  lemma OpenSerialized(t: Table)
    requires |t| < U64
    ensures OpenHashTable(Serialize(t)) == Success(HashTable(|t|, Serialize(t)))
  {
    var f := Serialize(t);
    assert f[..8] == Bytes(|t|, 8);
    ValueOfBytes(|t|, 8);
    Pow256Constants();
    DivModUnique(|t|, U64, 0, |t|);
    assert ReadAt(f, 0, 8) == Success(f[..8]);
  }

  function AsResult(v: Option<seq<byte>>): Result<seq<byte>>
  {
    match v
    case None => Failure(NotExist)
    case Some(x) => Success(x)
  }

  /** Reading slot p of a table file gives the bytes written for it. */
  lemma SlotRead(t: Table, p: nat)
    requires p < |t| && 8 + 12 * |t| < 0x8000_0000_0000_0000
    ensures HashTable(|t|, Serialize(t)).ReadSlot(p) == Success(Cell(t[p]))
  {
    SerializeAt(t, p);
    assert (8 + p * 12) % U64 == 8 + 12 * p;
  }

  /** The lookup loop of HashTable.Get over the slots of t as they appear in
      a table file, where an empty slot reads as the empty-slot pattern. */
  ghost function Scan(t: Table, k: seq<byte>, h: nat, i: nat): (r: Result<seq<byte>>)
    requires h < |t| && i <= |t|
    decreases |t| - i
  {
    if i == |t| then Failure(NotExist)
    else
      var b := Cell(t[Pos(h, i, |t|)]);
      if b == NotExistSlot then Failure(NotExist)
      else if b[..KLen] == k then Success(b[KLen..])
      else Scan(t, k, h, i + 1)
  }

  /** A slot reader that gives back the cells of t, in a table whose slot
      count is n, and fails only as a file read does. */
  ghost predicate ReadsCells(read: SlotReader, t: Table, n: u64)
  {
    n == |t| &&
    (forall p: u64 :: read(p).Success? ==> |read(p).value| == 12) &&
    (forall p: u64 :: read(p).Failure? ==> read(p).error == EOF || read(p).error == NegativeOffset) &&
    (forall p: u64 {:trigger t[p]} :: p < n ==> read(p) == Success(Cell(t[p])))
  }

  /** The probe loop over a reader of the cells of t walks the same slots as Scan. */
  lemma {:induction false} WalkScan(read: SlotReader, t: Table, n: u64, k: seq<byte>, h: nat, i: nat, slot: u64)
    requires ReadsCells(read, t, n) && n >= 1
    requires h < n && i <= n && (i < n ==> slot == Pos(h, i, n))
    ensures Walk(read, n, k, slot, i) == Scan(t, k, h, i)
    decreases n - i
  {
    if i < n {
      assert read(slot) == Success(Cell(t[slot]));
      var next := NextSlot(slot, n);
      if i + 1 < n {
        NextSlotPos(h, i, n);
      }
      WalkScan(read, t, n, k, h, i + 1, next);
    }
  }

  /** Without the empty-slot pattern among the pairs, Scan is the probe of
      the table model. */
  lemma {:induction false} ScanProbe(t: Table, k: seq<byte>, h: nat, i: nat)
    requires NoSentinel(t) && h < |t| && i <= |t|
    ensures Scan(t, k, h, i) == AsResult(Probe(t, k, h, i))
    decreases |t| - i
  {
    if i < |t| {
      var q := Pos(h, i, |t|);
      assert t[q] != Some(NotExistSlot);
      ScanProbe(t, k, h, i + 1);
    }
  }

  /** `slotCount - 1` in uint64 arithmetic, for a nonzero slot count. */
  lemma MaskWraps(n: u64)
    requires n >= 1
    ensures (n + U64 - 1) % U64 == n - 1
  {
    DivModUnique(n + U64 - 1, U64, 1, n - 1);
  }

  /** The slot reads of a table file give back the cells of its table. */
  lemma SerializedReadsCells(t: Table)
    requires 8 + 12 * |t| < 0x8000_0000_0000_0000
    ensures ReadsCells(HashTable(|t|, Serialize(t)).ReadSlot, t, |t|)
  {
    var ht := HashTable(|t|, Serialize(t));
    var read: SlotReader := ht.ReadSlot;
    forall p: u64 | p < |t|
      ensures read(p) == Success(Cell(t[p]))
    {
      SlotRead(t, p);
    }
    assert forall p: u64 :: read(p).Success? ==> |read(p).value| == 12;
    assert forall p: u64 :: read(p).Failure? ==> read(p).error == EOF || read(p).error == NegativeOffset;
  }

  /** HashTable.Get on a table file answers exactly like the table model. */
  lemma FindSerialized(t: Table, k: seq<byte>)
    requires 1 <= |t| && 8 + 12 * |t| < 0x8000_0000_0000_0000 && NoSentinel(t) && |k| >= KLen
    ensures HashTable(|t|, Serialize(t)).Find(k) == AsResult(Lookup(t, k))
  {
    var n := |t|;
    var ht := HashTable(n, Serialize(t));
    SerializedReadsCells(t);
    MaskWraps(n);
    WalkScan(ht.ReadSlot, t, n, k, Home(k, n), 0, Home(k, n));
    ScanProbe(t, k, Home(k, n), 0);
  }

  /** Round trip of Generate and Get: the table file built from `pairs`
      answers a key with the value of its first pair, and a key no pair
      has with os.ErrNotExist, provided no pair is the empty-slot pattern. */
  lemma GenerateGet(pairs: seq<Slot>, k: seq<byte>)
    requires |pairs| < 0x10_0000_0000_0000 && NotExistSlot !in pairs && |k| >= KLen
    ensures OpenHashTable(Serialize(Build(pairs, SlotCountFor(|pairs|)))).Success?
    ensures OpenHashTable(Serialize(Build(pairs, SlotCountFor(|pairs|)))).value.Find(k) ==
      AsResult(FirstValue(pairs, k))
  {
    var n := SlotCountFor(|pairs|);
    var t := Build(pairs, n);
    BuildLookup(pairs, n);
    BuildMembers(pairs, n);
    assert NoSentinel(t);
    assert 8 + 12 * n < 0x8000_0000_0000_0000;
    OpenSerialized(t);
    FindSerialized(t, k);
  }
}
