/**
 * The payload of a `headers` message entry (`messages::header`): a block
 * header record followed, at every protocol version other than the
 * canonical one, by a variable-length integer zero, the historical
 * transaction count of the Bitcoin `headers` message. The protocol version
 * and the canonical level are parameters of every call; the message
 * stores neither.
 */
module HeaderMessage {
  import opened Codec
  import opened Stream
  import opened ChainHeader

  /** `satoshi_fixed_size(version)`. */
  function SatoshiFixedSize(version: uint32, canonical: uint32): (r: nat)
    ensures version == canonical ==> r == RecordSize
    ensures version != canonical ==> r == RecordSize + 1
  {
    VariableZero();
    RecordSize + (if version == canonical then 0 else VariableSize(0))
  }

  /** `to_data(version, writer&)` over a byte string. */
  function EncodeMessage(version: uint32, canonical: uint32, h: BlockHeader): (r: seq<byte>)
    ensures |r| == SatoshiFixedSize(version, canonical)
    ensures r[..RecordSize] == EncodeRecord(h)
  {
    VariableZero();
    EncodeRecord(h) + (if version != canonical then EncodeVariable(0) else [])
  }

  /** Why `from_data` failed. */
  datatype DecodeError =
    | RecordTruncated          // fewer than 80 bytes for the record
    | TrailerMissing           // the record ends the data where a zero byte is due
    | TrailerNotZero(b: byte)  // the byte after the record is not zero

  datatype Decoded = Decoded(header: BlockHeader, consumed: nat)

  /** `from_data(version, reader&)` over the bytes left in a valid reader. */
  function DecodeMessage(version: uint32, canonical: uint32, s: seq<byte>): (r: Result<Decoded, DecodeError>)
    ensures |s| < RecordSize ==> r == Failure(RecordTruncated)
    ensures r.Success? ==> r.value.consumed == SatoshiFixedSize(version, canonical) <= |s|
  {
    if |s| < RecordSize then Failure(RecordTruncated)
    else
      var record := DecodeRecord(s).value;
      if version == canonical then Success(Decoded(record, RecordSize))
      else if |s| == RecordSize then Failure(TrailerMissing)
      else if s[RecordSize] != 0 then Failure(TrailerNotZero(s[RecordSize]))
      else Success(Decoded(record, RecordSize + 1))
  }

  /** Encoding appends exactly one 0x00 after the record iff the version is not canonical. */
  lemma TrailerIffNotCanonical(version: uint32, canonical: uint32, h: BlockHeader)
    ensures var e := EncodeMessage(version, canonical, h);
      && (version == canonical ==> e == EncodeRecord(h))
      && (version != canonical ==> e == EncodeRecord(h) + [0x00])
  {
    VariableZero();
  }

  /** Decoding at `version` what was encoded at `version` gives the record back. */
  lemma MessageRoundTrip(version: uint32, canonical: uint32, h: BlockHeader, rest: seq<byte>)
    ensures DecodeMessage(version, canonical, EncodeMessage(version, canonical, h) + rest)
      == Success(Decoded(h, SatoshiFixedSize(version, canonical)))
  {
    VariableZero();
    var e := EncodeMessage(version, canonical, h);
    if version == canonical {
      assert e == EncodeRecord(h);
      RecordRoundTrip(h, rest);
    } else {
      assert e + rest == EncodeRecord(h) + ([0x00] + rest);
      RecordRoundTrip(h, [0x00] + rest);
    }
  }

  /** What decodes is exactly the encoding of the decoded record at the same version. */
  lemma DecodeThenEncode(version: uint32, canonical: uint32, s: seq<byte>)
    requires DecodeMessage(version, canonical, s).Success?
    ensures var d := DecodeMessage(version, canonical, s).value;
      EncodeMessage(version, canonical, d.header) == s[..d.consumed]
  {
    VariableZero();
    RecordDecodeEncode(s);
    if version != canonical {
      assert s[..RecordSize + 1] == s[..RecordSize] + [s[RecordSize]];
    }
  }

  /**
   * At a non-canonical version a record followed by a nonzero byte, or by
   * nothing, is rejected although the record alone decodes.
   */
  lemma TrailerRejected(version: uint32, canonical: uint32, h: BlockHeader, b: byte, rest: seq<byte>)
    requires version != canonical
    ensures DecodeRecord(EncodeRecord(h)).Some?
    ensures DecodeMessage(version, canonical, EncodeRecord(h)) == Failure(TrailerMissing)
    ensures b != 0 ==> DecodeMessage(version, canonical, EncodeRecord(h) + [b] + rest) == Failure(TrailerNotZero(b))
  {
    var s := EncodeRecord(h) + [b] + rest;
    assert s[RecordSize] == b;
  }

  /**
   * At the canonical version nothing after the record is read: success is
   * the record's own success and the bytes that follow do not matter.
   */
  lemma CanonicalReadsRecordOnly(canonical: uint32, s: seq<byte>, rest: seq<byte>)
    ensures DecodeMessage(canonical, canonical, s).Success? <==> DecodeRecord(s).Some?
    ensures |s| >= RecordSize ==> DecodeMessage(canonical, canonical, s + rest) == DecodeMessage(canonical, canonical, s)
  {
    if |s| >= RecordSize {
      RecordIgnoresRest(s, rest);
    }
  }

  /** `messages::header`: a block header record held by composition. */
  class Header {
    var record: BlockHeader

    /** `header()`: the default record. */
    constructor ()
      ensures record == DefaultRecord
    {
      record := DefaultRecord;
    }

    /** `header(version, previous_block_hash, merkle, timestamp, bits, nonce)`. */
    constructor Create(version: uint32, previousBlockHash: Hash, merkleRoot: Hash,
                       timestamp: uint32, bits: uint32, nonce: uint32)
      ensures record == BlockHeader(version, previousBlockHash, merkleRoot, timestamp, bits, nonce)
    {
      record := BlockHeader(version, previousBlockHash, merkleRoot, timestamp, bits, nonce);
    }

    /** `serialized_size(version)`: the same for every field value. */
    function SerializedSize(version: uint32, canonical: uint32): (r: nat)
      reads this
      ensures r == |EncodeMessage(version, canonical, record)|
    {
      SatoshiFixedSize(version, canonical)
    }

    /** `reset()`. */
    method Reset()
      modifies this
      ensures record == DefaultRecord
    {
      record := DefaultRecord;
    }

    /**
     * `from_data(version, reader&)`: reads the record, then at a
     * non-canonical version one byte that must be zero; on failure the
     * reader is invalid and the record is reset.
     */
    method FromData(version: uint32, canonical: uint32, source: Reader) returns (ok: bool)
      requires source.Consistent()
      modifies this, source
      ensures source.Consistent() && ok == source.valid
      ensures var d := DecodeMessage(version, canonical, old(source.Remaining()));
        && ok == (old(source.valid) && d.Success?)
        && (ok ==> record == d.value.header && source.pos == old(source.pos) + d.value.consumed)
      ensures !ok ==> record == DefaultRecord
    {
      record := ReadRecord(source);
      if !source.valid {
        return false;
      }
      if version != canonical {
        var b := source.ReadByte();
        if b != 0 {
          source.Invalidate();
        }
      }
      if !source.valid {
        Reset();
      }
      ok := source.valid;
    }

    /** `to_data(version, writer&)`. */
    method ToData(version: uint32, canonical: uint32, sink: Writer)
      modifies sink
      ensures sink.data == old(sink.data) + EncodeMessage(version, canonical, record)
    {
      WriteRecord(record, sink);
      if version != canonical {
        sink.WriteVariable(0);
      }
    }

    /** `to_data(version)`: a fresh byte string of exactly `serialized_size(version)` bytes. */
    method ToBytes(version: uint32, canonical: uint32) returns (data: seq<byte>)
      ensures data == EncodeMessage(version, canonical, record)
      ensures |data| == SerializedSize(version, canonical)
    {
      var sink := new Writer();
      ToData(version, canonical, sink);
      data := sink.data;
    }

    /** `operator==`: delegates to the record; the protocol version plays no part. */
    predicate Equals(other: Header)
      reads this, other
      ensures Equals(other) <==> record == other.record
    {
      RecordEquals(record, other.record)
    }

    /** `operator!=`. */
    predicate NotEquals(other: Header)
      reads this, other
      ensures NotEquals(other) <==> record != other.record
    {
      !Equals(other)
    }
  }

  /**
   * A header written at `version` and read back at `version` through a
   * writer and a reader is equal to the original.
   */
  method WriteThenRead(version: uint32, canonical: uint32, h: BlockHeader) returns (ok: bool, same: bool)
    ensures ok && same
  {
    var original := new Header.Create(h.version, h.previousBlockHash, h.merkleRoot,
                                      h.timestamp, h.bits, h.nonce);
    var bytes := original.ToBytes(version, canonical);
    MessageRoundTrip(version, canonical, h, []);
    assert bytes + [] == bytes;
    var source := new Reader(bytes);
    var copy := new Header();
    ok := copy.FromData(version, canonical, source);
    same := copy.Equals(original);
  }
}
