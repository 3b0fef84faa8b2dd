/**
 * The block-header record (`chain::header`) that a `headers` message
 * carries: the standard 80-byte Bitcoin layout of version, previous block
 * hash, merkle root, timestamp, difficulty bits and nonce, integers
 * little-endian, hashes as 32 raw bytes.
 */
module ChainHeader {
  import opened Codec
  import opened Stream

  datatype BlockHeader = BlockHeader(
    version: uint32,
    previousBlockHash: Hash,
    merkleRoot: Hash,
    timestamp: uint32,
    bits: uint32,
    nonce: uint32)

  /** `chain::header::satoshi_fixed_size()`. */
  const RecordSize: nat := 80

  /** The value of a default-constructed or reset record. */
  const DefaultRecord := BlockHeader(0, NullHash, NullHash, 0, 0, 0)

  /** `chain::header::to_data`. */
  function EncodeRecord(h: BlockHeader): (r: seq<byte>)
    ensures |r| == RecordSize
  {
    Le32(h.version) + h.previousBlockHash + h.merkleRoot
      + Le32(h.timestamp) + Le32(h.bits) + Le32(h.nonce)
  }

  /** `chain::header::from_data` over a byte string: the record in its first 80 bytes. */
  function DecodeRecord(s: seq<byte>): (r: Option<BlockHeader>)
    ensures r.Some? <==> |s| >= RecordSize
  {
    if |s| < RecordSize then None
    else Some(BlockHeader(
      FromLe32(s[0..4]), s[4..36], s[36..68],
      FromLe32(s[68..72]), FromLe32(s[72..76]), FromLe32(s[76..80])))
  }

  /** Decoding what was encoded gives the record back, whatever follows it. */
  lemma RecordRoundTrip(h: BlockHeader, rest: seq<byte>)
    ensures DecodeRecord(EncodeRecord(h) + rest) == Some(h)
  {
    var s := EncodeRecord(h) + rest;
    assert s[0..4] == Le32(h.version);
    assert s[4..36] == h.previousBlockHash;
    assert s[36..68] == h.merkleRoot;
    assert s[68..72] == Le32(h.timestamp);
    assert s[72..76] == Le32(h.bits);
    assert s[76..80] == Le32(h.nonce);
    Le32RoundTrip(h.version);
    Le32RoundTrip(h.timestamp);
    Le32RoundTrip(h.bits);
    Le32RoundTrip(h.nonce);
  }

  /** Every 80 bytes are the encoding of the record decoded from them. */
  lemma RecordDecodeEncode(s: seq<byte>)
    requires |s| >= RecordSize
    ensures EncodeRecord(DecodeRecord(s).value) == s[..RecordSize]
  {
    FromLe32RoundTrip(s[0..4]);
    FromLe32RoundTrip(s[68..72]);
    FromLe32RoundTrip(s[72..76]);
    FromLe32RoundTrip(s[76..80]);
    assert s[..RecordSize] == s[0..4] + s[4..36] + s[36..68] + s[68..72] + s[72..76] + s[76..80];
  }

  /** The record is read from the first 80 bytes alone. */
  lemma RecordIgnoresRest(s: seq<byte>, rest: seq<byte>)
    requires |s| >= RecordSize
    ensures DecodeRecord(s + rest) == DecodeRecord(s)
  {
    var t := s + rest;
    assert t[0..4] == s[0..4] && t[4..36] == s[4..36] && t[36..68] == s[36..68];
    assert t[68..72] == s[68..72] && t[72..76] == s[72..76] && t[76..80] == s[76..80];
  }

  /** `chain::header::operator==`: all six fields agree. */
  predicate RecordEquals(a: BlockHeader, b: BlockHeader)
    ensures RecordEquals(a, b) <==> a == b
  {
    a.version == b.version && a.previousBlockHash == b.previousBlockHash
      && a.merkleRoot == b.merkleRoot && a.timestamp == b.timestamp
      && a.bits == b.bits && a.nonce == b.nonce
  }

  /**
   * `chain::header::from_data(reader&)`: reads the six fields in order and
   * resets the record when the reader ends up invalid.
   */
  method ReadRecord(source: Reader) returns (r: BlockHeader)
    requires source.Consistent()
    modifies source
    ensures source.Consistent()
    ensures source.valid == (old(source.valid) && |old(source.Remaining())| >= RecordSize)
    ensures source.valid ==> Some(r) == DecodeRecord(old(source.Remaining()))
    ensures source.valid ==> source.pos == old(source.pos) + RecordSize
    ensures !source.valid ==> r == DefaultRecord
  {
    ghost var s := source.Remaining();
    var version := source.ReadUint32();
    var previous := source.ReadHash();
    var merkle := source.ReadHash();
    var timestamp := source.ReadUint32();
    var bits := source.ReadUint32();
    var nonce := source.ReadUint32();
    if source.valid {
      assert s[..4] == s[0..4] && s[4..][..32] == s[4..36] && s[36..][..32] == s[36..68];
      assert s[68..][..4] == s[68..72] && s[72..][..4] == s[72..76] && s[76..][..4] == s[76..80];
      r := BlockHeader(version, previous, merkle, timestamp, bits, nonce);
    } else {
      r := DefaultRecord;
    }
  }

  /** `chain::header::to_data(writer&)`. */
  method WriteRecord(h: BlockHeader, sink: Writer)
    modifies sink
    ensures sink.data == old(sink.data) + EncodeRecord(h)
  {
    sink.WriteUint32(h.version);
    sink.WriteBytes(h.previousBlockHash);
    sink.WriteBytes(h.merkleRoot);
    sink.WriteUint32(h.timestamp);
    sink.WriteUint32(h.bits);
    sink.WriteUint32(h.nonce);
  }
}
