/**
 * The fixed-width byte primitives the record codecs build on
 * (read_uint8, read_uint32, write_uint8, write_uint32), little-endian as in NFO.
 * Running out of input is a failure, never a silent default.
 */
module ByteCodec {
  import opened Wrappers

  /** The four bytes of a 32-bit word, least significant first. */
  function Uint32Bytes(v: bv32): (b: seq<bv8>)
    ensures |b| == 4
    ensures b[0] as bv32 == v & 0xFF && b[3] as bv32 == v >> 24
  {
    [ (v & 0xFF) as bv8, ((v >> 8) & 0xFF) as bv8,
      ((v >> 16) & 0xFF) as bv8, ((v >> 24) & 0xFF) as bv8 ]
  }

  /** The word whose little-endian bytes are `b`. */
  function Uint32Of(b: seq<bv8>): (v: bv32)
    requires |b| == 4
    ensures v & 0xFF == b[0] as bv32 && v >> 24 == b[3] as bv32
  {
    (b[0] as bv32) | ((b[1] as bv32) << 8) | ((b[2] as bv32) << 16) | ((b[3] as bv32) << 24)
  }

  lemma Uint32OfBytes(v: bv32)
    ensures Uint32Of(Uint32Bytes(v)) == v
  {
  }

  lemma Uint32BytesOf(b: seq<bv8>)
    requires |b| == 4
    ensures Uint32Bytes(Uint32Of(b)) == b
  {
    var v := Uint32Of(b);
    assert Uint32Bytes(v)[1] == b[1] && Uint32Bytes(v)[2] == b[2];
  }

  /** A slice of the bytes after `start`, in positions of the whole input. */
  lemma SuffixSlice(b: seq<bv8>, start: nat, i: nat, j: nat)
    requires i <= j && start + j <= |b|
    ensures b[start..][i..j] == b[start + i..start + j]
  {
  }

  /** An input stream of bytes with a read cursor. */
  class ByteReader {
    const bytes: seq<bv8>
    var pos: nat

    ghost predicate Valid()
      reads this
    {
      pos <= |bytes|
    }

    /** The bytes not yet consumed. */
    function Unread(): (s: seq<bv8>)
      reads this
      requires Valid()
      ensures |s| == |bytes| - pos
    {
      bytes[pos..]
    }

    constructor (input: seq<bv8>)
      ensures Valid() && bytes == input && pos == 0
    {
      bytes := input;
      pos := 0;
    }

    method ReadUint8() returns (r: Option<bv8>)
      requires Valid()
      modifies this
      ensures Valid()
      ensures old(pos) < |bytes| ==> r == Some(bytes[old(pos)]) && pos == old(pos) + 1
      ensures old(pos) == |bytes| ==> r == None && pos == old(pos)
    {
      if pos < |bytes| {
        r := Some(bytes[pos]);
        pos := pos + 1;
      } else {
        r := None;
      }
    }

    method ReadUint32() returns (r: Option<bv32>)
      requires Valid()
      modifies this
      ensures Valid()
      ensures old(pos) + 4 <= |bytes| ==> r == Some(Uint32Of(bytes[old(pos)..old(pos) + 4])) && pos == old(pos) + 4
      ensures old(pos) + 4 > |bytes| ==> r == None && pos == old(pos)
    {
      if pos + 4 <= |bytes| {
        r := Some(Uint32Of(bytes[pos..pos + 4]));
        pos := pos + 4;
      } else {
        r := None;
      }
    }
  }

  /** An output stream that bytes are appended to. */
  class ByteWriter {
    var bytes: seq<bv8>

    constructor ()
      ensures bytes == []
    {
      bytes := [];
    }

    method WriteUint8(b: bv8)
      modifies this
      ensures bytes == old(bytes) + [b]
    {
      bytes := bytes + [b];
    }

    method WriteUint32(v: bv32)
      modifies this
      ensures bytes == old(bytes) + Uint32Bytes(v)
    {
      bytes := bytes + Uint32Bytes(v);
    }
  }
}
