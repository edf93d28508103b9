/** The bit packing of shard.go: a shard-local key is the low 56 bits of a
    fingerprint in 7 little-endian bytes, a stored value is the low 40 bits
    of an offset in 5 little-endian bytes. */
module Encoding {
  import opened Bits

  /** Width of a shard-local key. */
  const KLen: nat := 7
  /** Width of a stored value. */
  const VLen: nat := 5

  lemma Pow256Small()
    ensures Pow256(1) == 0x100 && Pow256(2) == 0x1_0000 && Pow256(3) == 0x100_0000
    ensures Pow256(4) == 0x1_0000_0000 && Pow256(5) == 0x100_0000_0000
    ensures Pow256(6) == 0x1_0000_0000_0000 && Pow256(7) == 0x100_0000_0000_0000
  {
  }

  /** littleEndianKey: bytes b[0..7) as a little-endian integer. */
  function LittleEndianKey(b: seq<byte>): (r: u64)
    requires |b| >= KLen
    ensures r < Pow256(KLen)
  {
    Pow256Small();
    Value(b[..KLen])
  }

  /** littleEndianOffset: bytes b[0..5) as a little-endian integer. */
  function LittleEndianOffset(b: seq<byte>): (r: u64)
    requires |b| >= VLen
    ensures r < Pow256(VLen)
  {
    Pow256Small();
    Value(b[..VLen])
  }

  /** littleEndianPutKey: b[i] = byte(k >> 8i) for i in 0..7; the rest of b is untouched. */
  method LittleEndianPutKey(b: array<byte>, k: u64)
    requires b.Length >= KLen
    modifies b
    ensures b[..KLen] == Bytes(k, KLen)
    ensures b[KLen..] == old(b[KLen..])
  {
    b[0] := k % 256;
    b[1] := (k / 0x100) % 256;
    b[2] := (k / 0x1_0000) % 256;
    b[3] := (k / 0x100_0000) % 256;
    b[4] := (k / 0x1_0000_0000) % 256;
    b[5] := (k / 0x100_0000_0000) % 256;
    b[6] := (k / 0x1_0000_0000_0000) % 256;
    Pow256Small();
    forall i | 0 <= i < KLen
      ensures b[i] == Bytes(k, KLen)[i]
    {
      BytesAt(k, KLen, i);
    }
  }

  /** littleEndianPutOffset: b[i] = byte(v >> 8i) for i in 0..5; the rest of b is untouched. */
  method LittleEndianPutOffset(b: array<byte>, v: u64)
    requires b.Length >= VLen
    modifies b
    ensures b[..VLen] == Bytes(v, VLen)
    ensures b[VLen..] == old(b[VLen..])
  {
    b[0] := v % 256;
    b[1] := (v / 0x100) % 256;
    b[2] := (v / 0x1_0000) % 256;
    b[3] := (v / 0x100_0000) % 256;
    b[4] := (v / 0x1_0000_0000) % 256;
    Pow256Small();
    forall i | 0 <= i < VLen
      ensures b[i] == Bytes(v, VLen)[i]
    {
      BytesAt(v, VLen, i);
    }
  }

  /** Unpacking a packed key gives back the fingerprint without its top byte (`k<<8>>8`). */
  lemma KeyRoundTrip(k: u64)
    ensures LittleEndianKey(Bytes(k, KLen)) == k % 0x100_0000_0000_0000
  {
    assert Bytes(k, KLen)[..KLen] == Bytes(k, KLen);
    ValueOfBytes(k, KLen);
    Pow256Small();
  }

  /** A packed key is the first 7 bytes of binary.LittleEndian.PutUint64. */
  lemma KeyIsLowBytes(k: u64)
    ensures Bytes(k, KLen) == Bytes(k, 8)[..KLen]
  {
    BytesPrefix(k, KLen, 8);
  }

  /** Packing the unpacked key of 7 bytes gives the same 7 bytes. */
  lemma KeyBytesRoundTrip(b: seq<byte>)
    requires |b| >= KLen
    ensures Bytes(LittleEndianKey(b), KLen) == b[..KLen]
  {
    BytesOfValue(b[..KLen]);
  }

  /** Unpacking a packed offset gives back its low 40 bits (`v<<24>>24`). */
  lemma OffsetRoundTrip(v: u64)
    ensures LittleEndianOffset(Bytes(v, VLen)) == v % 0x100_0000_0000
  {
    assert Bytes(v, VLen)[..VLen] == Bytes(v, VLen);
    ValueOfBytes(v, VLen);
    Pow256Small();
  }

  /** A packed offset is the first 5 bytes of binary.LittleEndian.PutUint64. */
  lemma OffsetIsLowBytes(v: u64)
    ensures Bytes(v, VLen) == Bytes(v, 8)[..VLen]
  {
    BytesPrefix(v, VLen, 8);
  }
}
