/** The slice of Go's `io` and `os` behaviour the index relies on: error
    values, positional and sequential reads of a file's bytes, and a file
    handle with a cursor. */
module Io {
  import opened Bits

  /** The errors the index can observe. */
  datatype Error =
    | EOF             // io.EOF: a read found no bytes at all
    | UnexpectedEOF   // io.ErrUnexpectedEOF: a read found some bytes but not enough
    | NotExist        // os.ErrNotExist
    | NegativeOffset  // ReadAt or Seek addressed a position below zero
    | Panic           // a Go run-time panic (slice out of range, nil dereference, explicit panic)

  datatype Option<+T> = None | Some(value: T)

  datatype Result<+T> = Success(value: T) | Failure(error: Error) {
    predicate IsFailure() { Failure? }
    function PropagateFailure<U>(): Result<U>
      requires Failure?
    {
      Failure(error)
    }
    function Extract(): T
      requires Success?
    {
      value
    }
  }

  /** Go's `int64(x)` on a `uint64`: values from 2^63 on become negative. */
  function Int64(x: u64): (r: int)
    ensures -0x8000_0000_0000_0000 <= r < 0x8000_0000_0000_0000
    ensures r >= 0 ==> r == x
  {
    if x < 0x8000_0000_0000_0000 then x else x - U64
  }

  /** `(*os.File).ReadAt` of n bytes at offset off: a negative offset is
      refused, an empty read always succeeds, a read that runs past the end
      reports io.EOF. */
  function ReadAt(data: seq<byte>, off: int, n: nat): (r: Result<seq<byte>>)
    ensures r.Success? ==> |r.value| == n
    ensures r.Success? <==> off >= 0 && (n == 0 || off + n <= |data|)
    ensures r.Success? && n > 0 ==> r.value == data[off..off + n]
  {
    if off < 0 then Failure(NegativeOffset)
    else if n == 0 then Success([])
    else if off + n > |data| then Failure(EOF)
    else Success(data[off..off + n])
  }

  /** `io.ReadFull` of n bytes from cursor position pos: io.EOF when nothing
      is left, io.ErrUnexpectedEOF when only part of the n bytes is. */
  function ReadFullAt(data: seq<byte>, pos: nat, n: nat): (r: Result<seq<byte>>)
    ensures r.Success? <==> n == 0 || pos + n <= |data|
    ensures r.Success? ==> |r.value| == n
    ensures r.Failure? ==> r.error == (if pos >= |data| then EOF else UnexpectedEOF)
  {
    if n == 0 then Success([])
    else if pos >= |data| then Failure(EOF)
    else if pos + n > |data| then Failure(UnexpectedEOF)
    else Success(data[pos..pos + n])
  }

  /** How far io.ReadFull moves the cursor: it consumes what it reads, even on failure. */
  function Consumed(data: seq<byte>, pos: nat, n: nat): nat
  {
    if pos >= |data| then 0 else if pos + n <= |data| then n else |data| - pos
  }

  /** The file contents after writing b at the cursor pos. */
  function Splice(data: seq<byte>, pos: nat, b: seq<byte>): (r: seq<byte>)
    requires pos <= |data|
  {
    data[..pos] + b + (if pos + |b| < |data| then data[pos + |b|..] else [])
  }

  lemma SpliceTwice(data: seq<byte>, pos: nat, a: seq<byte>, b: seq<byte>)
    requires pos <= |data|
    ensures pos + |a| <= |Splice(data, pos, a)|
    ensures Splice(Splice(data, pos, a), pos + |a|, b) == Splice(data, pos, a + b)
  {
    var d1 := Splice(data, pos, a);
    assert d1[..pos + |a|] == data[..pos] + a;
    if pos + |a| + |b| < |data| {
      assert d1[pos + |a| + |b|..] == data[pos + |a| + |b|..];
    }
  }

  /** Writing at the end of a file appends. */
  lemma SpliceEnd(data: seq<byte>, b: seq<byte>)
    ensures Splice(data, |data|, b) == data + b
  {
    assert data[..|data|] == data;
  }

  /** An open `*os.File`: its bytes and its cursor. The cursor may lie past
      the end after a seek; writing needs it within the file. Write and read
      failures of the device are not part of the model. */
  class File {
    var data: seq<byte>
    var pos: nat

    ghost predicate Valid()
      reads this
    {
      pos <= |data|
    }

    /** `os.Create`: an empty file. */
    constructor Create()
      ensures Valid() && data == [] && pos == 0
    {
      data, pos := [], 0;
    }

    /** A file holding `contents`, its cursor at the start. */
    constructor Open(contents: seq<byte>)
      ensures Valid() && data == contents && pos == 0
    {
      data, pos := contents, 0;
    }

    /** `(*os.File).Write`: b overwrites the bytes at the cursor and extends the file. */
    method Write(b: seq<byte>)
      requires Valid()
      modifies this
      ensures Valid()
      ensures data == Splice(old(data), old(pos), b) && pos == old(pos) + |b|
    {
      data := Splice(data, pos, b);
      pos := pos + |b|;
    }

    /** `Seek(0, 0)`: back to the start. */
    method Rewind()
      modifies this
      ensures data == old(data) && pos == 0
    {
      pos := 0;
    }

    /** `Seek(delta, 1)`: a move below the start is refused, a move past the end is allowed. */
    method Seek(delta: int) returns (err: Option<Error>)
      modifies this
      ensures data == old(data)
      ensures old(pos) + delta < 0 ==> err == Some(NegativeOffset) && pos == old(pos)
      ensures old(pos) + delta >= 0 ==> err == None && pos == old(pos) + delta
    {
      if pos + delta < 0 {
        err := Some(NegativeOffset);
      } else {
        pos := pos + delta;
        err := None;
      }
    }

    /** `io.ReadFull(f, buf[:n])`. */
    method ReadFull(n: nat) returns (r: Result<seq<byte>>)
      modifies this
      ensures data == old(data)
      ensures r == ReadFullAt(data, old(pos), n)
      ensures pos == old(pos) + Consumed(data, old(pos), n)
    {
      r := ReadFullAt(data, pos, n);
      pos := pos + Consumed(data, pos, n);
    }
  }
}
