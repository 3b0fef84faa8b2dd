/**
 * The 24-byte heading that prefixes every peer-to-peer message
 * (`messages::heading`): network magic, a 12-byte null-padded command, the
 * payload length and the payload checksum, integers little-endian. The
 * checksum function (the first four bytes of a double SHA-256, read
 * little-endian) is a parameter `hash` of the operations that use it.
 */
module MessageHeading {
  import opened Codec
  import opened Stream

  /** Width of the command field. */
  const CommandSize: nat := 12

  /** The message types that `id()` distinguishes; `Unknown` for any other command. */
  datatype Identifier =
    | Unknown
    | Address
    | Block
    | GetBlocks
    | GetData
    | GetHeaders
    | Headers
    | Inventory
    | Ping
    | Pong
    | Transaction
    | VersionAcknowledge
    | Version

  /** The command string of a known message type. */
  function CommandName(id: Identifier): (s: Text)
    requires id != Unknown
    ensures FitsWidth(s, CommandSize) && s != []
  {
    match id
    case Address => "addr"
    case Block => "block"
    case GetBlocks => "getblocks"
    case GetData => "getdata"
    case GetHeaders => "getheaders"
    case Headers => "headers"
    case Inventory => "inv"
    case Ping => "ping"
    case Pong => "pong"
    case Transaction => "tx"
    case VersionAcknowledge => "verack"
    case Version => "version"
  }

  /**
   * `id()`: exact match against the known command strings. Total: a
   * command that matches none is `Unknown`.
   */
  function IdOf(command: Text): (id: Identifier)
    ensures id != Unknown ==> CommandName(id) == command
  {
    if command == "addr" then Address
    else if command == "block" then Block
    else if command == "getblocks" then GetBlocks
    else if command == "getdata" then GetData
    else if command == "getheaders" then GetHeaders
    else if command == "headers" then Headers
    else if command == "inv" then Inventory
    else if command == "ping" then Ping
    else if command == "pong" then Pong
    else if command == "tx" then Transaction
    else if command == "verack" then VersionAcknowledge
    else if command == "version" then Version
    else Unknown
  }

  /** Every known message type is recognised from its own command. */
  lemma IdOfCommandName(id: Identifier)
    requires id != Unknown
    ensures IdOf(CommandName(id)) == id
  {
  }

  datatype HeadingValue = HeadingValue(magic: uint32, command: Text, payloadSize: uint32, checksum: uint32)

  /** The fields of a default-constructed or reset heading. */
  const DefaultHeading := HeadingValue(0, [], 0, 0)

  /** `satoshi_fixed_size()`: magic, command, payload size and checksum. */
  function SatoshiFixedSize(): (r: nat)
    ensures r == 24
  {
    4 + CommandSize + 4 + 4
  }

  /** `to_data(writer&)` over a byte string. */
  function EncodeHeading(h: HeadingValue): (r: seq<byte>)
    ensures |r| == SatoshiFixedSize() == 24
  {
    Le32(h.magic) + PadText(h.command, CommandSize) + Le32(h.payloadSize) + Le32(h.checksum)
  }

  /** Where each field sits in the 24-byte encoding. */
  lemma WireFields(h: HeadingValue)
    ensures var e := EncodeHeading(h);
      && e[0..4] == Le32(h.magic)
      && e[4..16] == PadText(h.command, CommandSize)
      && e[16..20] == Le32(h.payloadSize)
      && e[20..24] == Le32(h.checksum)
  {
  }

  /** Appending four fields one by one appends their concatenation. */
  lemma AppendFields(before: seq<byte>, a: seq<byte>, b: seq<byte>, c: seq<byte>, d: seq<byte>)
    ensures before + a + b + c + d == before + (a + b + c + d)
  {
  }

  /** `from_data(reader&)` over the bytes left in a valid reader. */
  function DecodeHeading(s: seq<byte>): (r: Option<HeadingValue>)
    ensures r.Some? <==> |s| >= SatoshiFixedSize()
    ensures r.Some? ==> FitsWidth(r.value.command, CommandSize)
  {
    if |s| < SatoshiFixedSize() then None
    else Some(HeadingValue(FromLe32(s[0..4]), UnpadText(s[4..16]),
                           FromLe32(s[16..20]), FromLe32(s[20..24])))
  }

  /** A heading whose command fits its field is decoded exactly as it was encoded. */
  lemma HeadingRoundTrip(h: HeadingValue, rest: seq<byte>)
    requires FitsWidth(h.command, CommandSize)
    ensures DecodeHeading(EncodeHeading(h) + rest) == Some(h)
  {
    var s := EncodeHeading(h) + rest;
    assert s[0..4] == Le32(h.magic);
    assert s[4..16] == PadText(h.command, CommandSize);
    assert s[16..20] == Le32(h.payloadSize);
    assert s[20..24] == Le32(h.checksum);
    Le32RoundTrip(h.magic);
    Le32RoundTrip(h.payloadSize);
    Le32RoundTrip(h.checksum);
    TextRoundTrip(h.command, CommandSize);
  }

  /**
   * Twenty-four bytes whose command field is zero-padded are the encoding
   * of the heading decoded from them.
   */
  lemma HeadingDecodeEncode(s: seq<byte>)
    requires |s| >= SatoshiFixedSize() && ZeroPadded(s[4..16])
    ensures EncodeHeading(DecodeHeading(s).value) == s[..SatoshiFixedSize()]
  {
    var h := DecodeHeading(s).value;
    FromLe32RoundTrip(s[0..4]);
    FromLe32RoundTrip(s[16..20]);
    FromLe32RoundTrip(s[20..24]);
    PaddedFieldRoundTrip(s[4..16]);
    EncodeFromFields(h, s);
  }

  /** The encoding of a heading whose fields encode to the four slices of `s`. */
  lemma EncodeFromFields(h: HeadingValue, s: seq<byte>)
    requires |s| >= SatoshiFixedSize()
    requires Le32(h.magic) == s[0..4] && PadText(h.command, CommandSize) == s[4..16]
    requires Le32(h.payloadSize) == s[16..20] && Le32(h.checksum) == s[20..24]
    ensures EncodeHeading(h) == s[..SatoshiFixedSize()]
  {
    SliceFields(s, Le32(h.magic), PadText(h.command, CommandSize), Le32(h.payloadSize), Le32(h.checksum));
  }

  lemma SliceFields(s: seq<byte>, a: seq<byte>, b: seq<byte>, c: seq<byte>, d: seq<byte>)
    requires |s| >= 24 && a == s[0..4] && b == s[4..16] && c == s[16..20] && d == s[20..24]
    ensures a + b + c + d == s[..24]
  {
  }

  /**
   * The heading of a mainnet `block` message with an 81-byte payload is
   * 24 bytes long, decodes to the same four fields, and names a block.
   */
  lemma MainnetBlockHeading()
    ensures var h := HeadingValue(0xD9B4BEF9, "block", 81, 0x1A2B3C4D);
      && |EncodeHeading(h)| == 24
      && DecodeHeading(EncodeHeading(h)) == Some(h)
      && IdOf(h.command) == Block
  {
    var h := HeadingValue(0xD9B4BEF9, "block", 81, 0x1A2B3C4D);
    HeadingRoundTrip(h, []);
    assert EncodeHeading(h) + [] == EncodeHeading(h);
  }

  /** `messages::heading`. */
  class Heading {
    var magic: uint32
    var command: Text
    var payloadSize: uint32
    var checksum: uint32

    function Value(): HeadingValue
      reads this
    {
      HeadingValue(magic, command, payloadSize, checksum)
    }

    /** `magic()`: the value carried by the first four bytes on the wire. */
    function Magic(): (r: uint32)
      reads this
      ensures Le32(r) == EncodeHeading(Value())[0..4]
    {
      WireFields(Value());
      magic
    }

    /** `command()`: read back from bytes 4 to 16 on the wire whenever it fits them. */
    function Command(): (r: Text)
      reads this
      ensures FitsWidth(r, CommandSize) ==> UnpadText(EncodeHeading(Value())[4..16]) == r
    {
      WireFields(Value());
      if FitsWidth(command, CommandSize) then TextRoundTrip(command, CommandSize); command
      else command
    }

    /** `payload_size()`: the value carried by bytes 16 to 20 on the wire. */
    function PayloadSize(): (r: uint32)
      reads this
      ensures Le32(r) == EncodeHeading(Value())[16..20]
    {
      WireFields(Value());
      payloadSize
    }

    /** `heading()`: every field zero or empty, so not valid. */
    constructor ()
      ensures Value() == DefaultHeading && !IsValid()
    {
      magic, command, payloadSize, checksum := 0, [], 0, 0;
    }

    /** The protected `heading(magic, command, payload_size, checksum)`. */
    constructor Create(magic: uint32, command: Text, payloadSize: uint32, checksum: uint32)
      ensures Value() == HeadingValue(magic, command, payloadSize, checksum)
    {
      this.magic, this.command, this.payloadSize, this.checksum := magic, command, payloadSize, checksum;
    }

    /**
     * `heading(magic, command, payload)`: the payload size is the payload's
     * length cast to `uint32` and the checksum is that of the payload.
     */
    constructor FromPayload(magic: uint32, command: Text, payload: seq<byte>, hash: seq<byte> -> uint32)
      ensures Magic() == magic && Command() == command
      ensures PayloadSize() == Uint32(|payload|)
      ensures |payload| < 0x1_0000_0000 ==> PayloadSize() == |payload|
      ensures VerifyChecksum(payload, hash)
    {
      this.magic, this.command := magic, command;
      payloadSize := Uint32(|payload|);
      checksum := hash(payload);
    }

    /** `id()`. */
    function Id(): (id: Identifier)
      reads this
      ensures id != Unknown ==> CommandName(id) == command
    {
      IdOf(command)
    }

    /**
     * `verify_checksum(body)`: a query; it changes nothing. It holds iff the
     * body's checksum is the one carried by the last four bytes on the wire.
     */
    predicate VerifyChecksum(body: seq<byte>, hash: seq<byte> -> uint32)
      reads this
      ensures VerifyChecksum(body, hash) <==> Le32(hash(body)) == EncodeHeading(Value())[20..24]
    {
      WireFields(Value());
      Le32RoundTrip(hash(body));
      Le32RoundTrip(checksum);
      hash(body) == checksum
    }

    /** `is_valid()`: some field differs from its default. */
    predicate IsValid()
      reads this
      ensures IsValid() <==> Value() != DefaultHeading
    {
      magic != 0 || command != [] || payloadSize != 0 || checksum != 0
    }

    /** `set_magic(value)`. */
    method SetMagic(value: uint32)
      modifies this
      ensures Magic() == value
      ensures Value() == old(Value()).(magic := value)
    {
      magic := value;
    }

    /** `set_command(value)`. */
    method SetCommand(value: Text)
      modifies this
      ensures Command() == value
      ensures Value() == old(Value()).(command := value)
    {
      command := value;
    }

    /** `reset()`. */
    method Reset()
      modifies this
      ensures Value() == DefaultHeading && !IsValid()
    {
      magic, command, payloadSize, checksum := 0, [], 0, 0;
    }

    /**
     * `from_data(reader&)`: resets, reads the four fields, and resets again
     * if the reader ran out; returns the reader's validity.
     */
    method FromData(source: Reader) returns (ok: bool)
      requires source.Consistent()
      modifies this, source
      ensures source.Consistent() && ok == source.valid
      ensures ok == (old(source.valid) && |old(source.Remaining())| >= SatoshiFixedSize())
      ensures ok ==> Some(Value()) == DecodeHeading(old(source.Remaining()))
      ensures ok ==> source.pos == old(source.pos) + SatoshiFixedSize()
      ensures !ok ==> Value() == DefaultHeading && !IsValid()
    {
      ghost var s := source.Remaining();
      Reset();
      magic := source.ReadUint32();
      command := source.ReadString(CommandSize);
      payloadSize := source.ReadUint32();
      checksum := source.ReadUint32();
      if source.valid {
        assert s[..4] == s[0..4] && s[4..][..12] == s[4..16];
        assert s[16..][..4] == s[16..20] && s[20..][..4] == s[20..24];
      } else {
        Reset();
      }
      ok := source.valid;
    }

    /** `to_data(writer&)`. */
    method ToData(sink: Writer)
      modifies sink
      ensures sink.data == old(sink.data) + EncodeHeading(Value())
    {
      ghost var v := Value();
      ghost var before := sink.data;
      sink.WriteUint32(magic);
      sink.WriteString(command, CommandSize);
      sink.WriteUint32(payloadSize);
      sink.WriteUint32(checksum);
      AppendFields(before, Le32(v.magic), PadText(v.command, CommandSize), Le32(v.payloadSize), Le32(v.checksum));
    }

    /** `to_data()`: a fresh byte string of `satoshi_fixed_size()` bytes. */
    method ToBytes() returns (data: seq<byte>)
      ensures data == EncodeHeading(Value())
      ensures |data| == SatoshiFixedSize()
    {
      var sink := new Writer();
      ToData(sink);
      data := sink.data;
    }

    /** `operator==`: all four fields agree. */
    predicate Equals(other: Heading)
      reads this, other
      ensures Equals(other) <==> Value() == other.Value()
    {
      magic == other.magic && command == other.command
        && payloadSize == other.payloadSize && checksum == other.checksum
    }

    /** `operator!=`. */
    predicate NotEquals(other: Heading)
      reads this, other
      ensures NotEquals(other) <==> Value() != other.Value()
    {
      !Equals(other)
    }
  }

  /**
   * A heading whose command fits its field, written to bytes and read back
   * through a reader, is equal to the original.
   */
  method WriteThenRead(magic: uint32, command: Text, payloadSize: uint32, checksum: uint32)
    returns (ok: bool, same: bool)
    requires FitsWidth(command, CommandSize)
    ensures ok && same
  {
    var original := new Heading.Create(magic, command, payloadSize, checksum);
    var bytes := original.ToBytes();
    HeadingRoundTrip(original.Value(), []);
    assert bytes + [] == bytes;
    var source := new Reader(bytes);
    var copy := new Heading();
    ok := copy.FromData(source);
    same := copy.Equals(original);
  }

  /**
   * A heading built from a payload reports the payload's length and accepts
   * that payload's checksum, and decoding its bytes gives it back.
   */
  method BuildForPayload(magic: uint32, command: Text, payload: seq<byte>, hash: seq<byte> -> uint32)
    returns (size: uint32, verified: bool, decoded: Option<HeadingValue>)
    requires FitsWidth(command, CommandSize) && |payload| < 0x1_0000_0000
    ensures size == |payload| && verified
    ensures decoded == Some(HeadingValue(magic, command, |payload|, hash(payload)))
  {
    var h := new Heading.FromPayload(magic, command, payload, hash);
    size := h.PayloadSize();
    verified := h.VerifyChecksum(payload, hash);
    var bytes := h.ToBytes();
    HeadingRoundTrip(h.Value(), []);
    assert bytes + [] == bytes;
    decoded := DecodeHeading(bytes);
  }
}
