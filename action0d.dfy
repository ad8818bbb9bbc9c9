/**
 * The indirect-parameter record (NewGRF Action 0x0D): its payload layout,
 * the split of the operation byte, the data-dependent sub-kind and the
 * byte-level read and write of the record.
 */
module Action0D {
  import opened Wrappers
  import opened ByteCodec
  import opened Tokens

  /** The 13 operators of the low seven bits of the operation byte, in declaration order. */
  datatype Operator =
    | Assignment
    | Addition
    | Subtraction
    | MultiplyUnsigned
    | MultiplySigned
    | BitShiftUnsigned
    | BitShiftSigned
    | BitwiseAnd
    | BitwiseOr
    | DivideUnsigned
    | DivideSigned
    | ModuloUnsigned
    | ModuloSigned

  /** The raw value of an operator (the operator enum table, 0x00..0x0C). */
  function OperatorCode(op: Operator): (c: bv8)
    ensures c < 0x0D
  {
    match op
    case Assignment => 0x00
    case Addition => 0x01
    case Subtraction => 0x02
    case MultiplyUnsigned => 0x03
    case MultiplySigned => 0x04
    case BitShiftUnsigned => 0x05
    case BitShiftSigned => 0x06
    case BitwiseAnd => 0x07
    case BitwiseOr => 0x08
    case DivideUnsigned => 0x09
    case DivideSigned => 0x0A
    case ModuloUnsigned => 0x0B
    case ModuloSigned => 0x0C
  }

  /** The operator a raw value names, if any: the enum table read backwards. */
  function OperatorOf(c: bv8): (r: Option<Operator>)
    ensures r.Some? <==> c < 0x0D
    ensures r.Some? ==> OperatorCode(r.value) == c
  {
    if c == 0x00 then Some(Assignment)
    else if c == 0x01 then Some(Addition)
    else if c == 0x02 then Some(Subtraction)
    else if c == 0x03 then Some(MultiplyUnsigned)
    else if c == 0x04 then Some(MultiplySigned)
    else if c == 0x05 then Some(BitShiftUnsigned)
    else if c == 0x06 then Some(BitShiftSigned)
    else if c == 0x07 then Some(BitwiseAnd)
    else if c == 0x08 then Some(BitwiseOr)
    else if c == 0x09 then Some(DivideUnsigned)
    else if c == 0x0A then Some(DivideSigned)
    else if c == 0x0B then Some(ModuloUnsigned)
    else if c == 0x0C then Some(ModuloSigned)
    else None
  }

  lemma OperatorCodeRoundTrip(op: Operator)
    ensures OperatorOf(OperatorCode(op)) == Some(op)
  {
  }

  /** The four sub-kinds of the record; derived from the fields, never stored. */
  datatype Kind = Param | Patch | Resources | OtherGrf

  /** The seven resource-management (GRM) operators, in declaration order. */
  datatype GrmOperator =
    | GrmReserve
    | GrmFind
    | GrmCheck
    | GrmMark
    | GrmFindNoFail
    | GrmCheckNoFail
    | GrmGetOwner

  /** The raw value of a GRM operator (the GRM enum table, 0x00..0x06). */
  function GrmOperatorCode(g: GrmOperator): (c: bv8)
    ensures c <= 0x06
  {
    match g
    case GrmReserve => 0x00
    case GrmFind => 0x01
    case GrmCheck => 0x02
    case GrmMark => 0x03
    case GrmFindNoFail => 0x04
    case GrmCheckNoFail => 0x05
    case GrmGetOwner => 0x06
  }

  /** The GRM operator a raw byte names, if any: the GRM enum table read backwards. */
  function GrmOperatorOf(b: bv8): (r: Option<GrmOperator>)
    ensures r.Some? <==> b <= 0x06
    ensures r.Some? ==> GrmOperatorCode(r.value) == b
  {
    if b == 0x00 then Some(GrmReserve)
    else if b == 0x01 then Some(GrmFind)
    else if b == 0x02 then Some(GrmCheck)
    else if b == 0x03 then Some(GrmMark)
    else if b == 0x04 then Some(GrmFindNoFail)
    else if b == 0x05 then Some(GrmCheckNoFail)
    else if b == 0x06 then Some(GrmGetOwner)
    else None
  }

  lemma GrmOperatorCodeRoundTrip(g: GrmOperator)
    ensures GrmOperatorOf(GrmOperatorCode(g)) == Some(g)
  {
  }

  /**
   * The wire fields of the record. `operation` is the low seven bits of the
   * operation byte as read (it may hold a value outside the operator table).
   */
  datatype Action0D = Action0D(
    target: bv8,
    notIfDefined: bool,
    operation: bv8,
    source1: bv8,
    source2: bv8,
    data: bv32)

  /** has_data: the 4-byte data word is on the wire. */
  predicate HasData(r: Action0D)
  {
    r.source1 == 0xFF || r.source2 >= 0xFE
  }

  /** The records `write` can reproduce: a 7-bit operation, and no data unless it is on the wire. */
  predicate WellFormed(r: Action0D)
  {
    r.operation < 0x80 && (!HasData(r) ==> r.data == 0)
  }

  /**
   * type(): the sub-kind, by sentinel values of `source2` and `data`, tested
   * in the order Patch, Resources, OtherGRF; everything else is Param.
   */
  function KindOf(r: Action0D): (k: Kind)
    ensures k == Patch <==> r.source2 == 0xFE && r.data == 0xFFFF
    ensures k == Resources <==> r.source2 == 0xFE && r.data != 0xFFFF && r.data & 0xFF == 0xFF
    ensures k == OtherGrf <==> r.source2 == 0xFE && r.data & 0xFF != 0xFF
    ensures k == Param <==> r.source2 != 0xFE
  {
    if r.source2 == 0xFE then
      if r.data == 0xFFFF then Patch
      else if r.data & 0x00FF == 0x00FF then Resources
      else OtherGrf
    else Param
  }

  /** The kind is a function of `source2` and `data` alone. */
  lemma KindDependsOnlyOnSource2AndData(r1: Action0D, r2: Action0D)
    requires r1.source2 == r2.source2 && r1.data == r2.data
    ensures KindOf(r1) == KindOf(r2)
  {
  }

  /** Every special kind carries its data word on the wire. */
  lemma SpecialKindHasData(r: Action0D)
    requires KindOf(r) != Param
    ensures HasData(r)
  {
  }

  /** Splits the operation byte into the "not if defined" flag (bit 7) and the operator bits. */
  function SplitOperationByte(b: bv8): (r: (bool, bv8))
    ensures r.1 < 0x80
    ensures r.0 <==> b >= 0x80
  {
    (b & 0x80 != 0, b & 0x7F)
  }

  /** The operation byte `write` emits: the operation with bit 7 set by the flag. */
  function OperationByte(operation: bv8, notIfDefined: bool): (b: bv8)
    ensures operation < 0x80 ==> (b >= 0x80 <==> notIfDefined) && b & 0x7F == operation
  {
    operation | (if notIfDefined then 0x80 else 0x00)
  }

  lemma OperationByteOfSplit(b: bv8)
    ensures OperationByte(SplitOperationByte(b).1, SplitOperationByte(b).0) == b
  {
  }

  lemma SplitOfOperationByte(operation: bv8, notIfDefined: bool)
    requires operation < 0x80
    ensures SplitOperationByte(OperationByte(operation, notIfDefined)) == (notIfDefined, operation)
  {
  }

  datatype ReadError = Truncated

  datatype Decoded = Decoded(record: Action0D, consumed: nat)

  /**
   * The record `read` produces from the payload bytes `b` (the bytes after
   * the action header), and how many bytes it consumes.
   */
  function Decode(b: seq<bv8>): (r: Result<Decoded, ReadError>)
    ensures r.Failure? <==> |b| < 4 || (|b| < 8 && (b[2] == 0xFF || b[3] >= 0xFE))
    ensures r.Success? ==> && WellFormed(r.value.record)
                           && r.value.consumed == (if HasData(r.value.record) then 8 else 4)
                           && r.value.consumed <= |b|
  {
    if |b| < 4 then Failure(Truncated)
    else
      var (flag, operation) := SplitOperationByte(b[1]);
      var head := Action0D(b[0], flag, operation, b[2], b[3], 0);
      if !HasData(head) then Success(Decoded(head, 4))
      else if |b| < 8 then Failure(Truncated)
      else Success(Decoded(head.(data := Uint32Of(b[4..8])), 8))
  }

  /** The payload bytes `write` emits after the action header. */
  function Encode(r: Action0D): (b: seq<bv8>)
    ensures |b| == if HasData(r) then 8 else 4
  {
    [r.target, OperationByte(r.operation, r.notIfDefined), r.source1, r.source2]
      + (if HasData(r) then Uint32Bytes(r.data) else [])
  }

  /** read(write(r)) == r for every record write can reproduce, whatever follows it. */
  lemma DecodeEncode(r: Action0D, rest: seq<bv8>)
    requires WellFormed(r)
    ensures Decode(Encode(r) + rest) == Success(Decoded(r, |Encode(r)|))
  {
    var b := Encode(r) + rest;
    SplitOfOperationByte(r.operation, r.notIfDefined);
    assert b[1] == OperationByte(r.operation, r.notIfDefined);
    if HasData(r) {
      assert b[4..8] == Uint32Bytes(r.data);
      Uint32OfBytes(r.data);
    }
  }

  /** A record whose fields were taken from the leading bytes of `b` is what Decode gives. */
  lemma DecodeFields(b: seq<bv8>, r: Action0D)
    requires |b| >= 4
    requires r.target == b[0] && (r.notIfDefined, r.operation) == SplitOperationByte(b[1])
    requires r.source1 == b[2] && r.source2 == b[3]
    requires HasData(r) ==> |b| >= 8 && r.data == Uint32Of(b[4..8])
    requires !HasData(r) ==> r.data == 0
    ensures Decode(b) == Success(Decoded(r, if HasData(r) then 8 else 4))
  {
  }

  /** write(read(b)) reproduces exactly the bytes read consumed. */
  lemma EncodeDecode(b: seq<bv8>)
    requires Decode(b).Success?
    ensures Encode(Decode(b).value.record) == b[..Decode(b).value.consumed]
  {
    var d := Decode(b).value;
    OperationByteOfSplit(b[1]);
    if HasData(d.record) {
      Uint32BytesOf(b[4..8]);
      assert b[..8] == b[..4] + b[4..8];
    }
  }

  /** The kind derived after a read is the kind of the record that was written. */
  lemma KindSurvivesRoundTrip(r: Action0D, rest: seq<bv8>)
    requires WellFormed(r)
    ensures Decode(Encode(r) + rest).Success?
    ensures KindOf(Decode(Encode(r) + rest).value.record) == KindOf(r)
  {
    DecodeEncode(r, rest);
  }

  /** The mutable record as the translator holds it. */
  class Action0DRecord {
    var target: bv8
    var notIfDefined: bool
    var operation: bv8
    var source1: bv8
    var source2: bv8
    var data: bv32

    function Value(): Action0D
      reads this
    {
      Action0D(target, notIfDefined, operation, source1, source2, data)
    }

    constructor ()
      ensures Value() == Action0D(0, false, 0, 0, 0, 0)
    {
      target, notIfDefined, operation, source1, source2, data := 0, false, 0, 0, 0, 0;
    }

    /**
     * read: target, operation byte, source1, source2, then the data word when
     * has_data holds (otherwise data is zero). Fails when the bytes run out;
     * the fields are then partly assigned and must not be used.
     */
    method Read(reader: ByteReader) returns (ok: bool)
      requires reader.Valid()
      modifies this`target, this`notIfDefined, this`operation, this`source1, this`source2, this`data
      modifies reader
      ensures reader.Valid()
      ensures ok == Decode(old(reader.Unread())).Success?
      ensures ok ==> && Value() == Decode(old(reader.Unread())).value.record
                     && reader.pos == old(reader.pos) + Decode(old(reader.Unread())).value.consumed
    {
      ghost var input := reader.Unread();
      ghost var start := reader.pos;
      ok := false;
      var t := reader.ReadUint8();
      if t.Some? {
        target := t.value;
        assert input[0] == target;
        var op := reader.ReadUint8();
        if op.Some? {
          notIfDefined, operation := SplitOperationByte(op.value).0, SplitOperationByte(op.value).1;
          assert input[1] == op.value;
          var s1 := reader.ReadUint8();
          if s1.Some? {
            source1 := s1.value;
            assert input[2] == source1;
            var s2 := reader.ReadUint8();
            if s2.Some? {
              source2 := s2.value;
              assert input[3] == source2;
              data := 0x0000_0000;
              ok := true;
              if HasData(Value()) {
                var d := reader.ReadUint32();
                ok := d.Some?;
                if ok {
                  data := d.value;
                  SuffixSlice(reader.bytes, start, 4, 8);
                }
              }
              if ok {
                DecodeFields(input, Value());
              }
            }
          }
        }
      }
    }

    /** write (after the action header): the fields in wire order, the data word only when has_data holds. */
    method Write(writer: ByteWriter)
      modifies writer
      ensures writer.bytes == old(writer.bytes) + Encode(Value())
    {
      ghost var v := Value();
      ghost var before := writer.bytes;
      writer.WriteUint8(target);
      var opByte := OperationByte(operation, notIfDefined);
      writer.WriteUint8(opByte);
      assert writer.bytes == before + [v.target, opByte];
      writer.WriteUint8(source1);
      assert writer.bytes == before + [v.target, opByte, v.source1];
      writer.WriteUint8(source2);
      ghost var head := [v.target, opByte, v.source1, v.source2];
      assert writer.bytes == before + head;
      if HasData(Value()) {
        writer.WriteUint32(data);
        assert Encode(v) == head + Uint32Bytes(v.data);
      } else {
        assert Encode(v) == head;
      }
      assert Value() == v;
    }

    /**
     * parse: matches the record name, then fails: parsing this record from
     * text is not implemented.
     */
    method Parse(ts: TokenStream, recordName: string) returns (err: ParseError)
      requires ts.Valid()
      modifies ts
      ensures ts.Valid()
      ensures old(ts.Peek()) == Ident(recordName) ==> err == NotImplemented("Action0DRecord::parse") && ts.pos == old(ts.pos) + 1
      ensures old(ts.Peek()) != Ident(recordName) ==> err == Unexpected(Expect(Ident(recordName)), old(ts.Peek())) && ts.pos == old(ts.pos)
    {
      var r := ts.Match(Ident(recordName));
      if r.Some? {
        return r.value;
      }
      err := NotImplemented("Action0DRecord::parse");
    }
  }
}
