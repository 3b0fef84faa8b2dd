/**
 * The byte cursor the messages read from and write to (libbitcoin's
 * `reader` and `writer`). A reader carries a validity flag: a read that
 * runs past the end of the data clears it, reads on an invalid reader
 * return zeros and consume nothing, and nothing sets the flag again.
 */
module Stream {
  import opened Codec

  class Reader {
    const data: seq<byte>
    var pos: nat
    var valid: bool

    ghost predicate Consistent()
      reads this
    {
      pos <= |data|
    }

    /** The bytes not yet consumed. */
    ghost function Remaining(): seq<byte>
      reads this
      requires Consistent()
    {
      data[pos..]
    }

    constructor (bytes: seq<byte>)
      ensures Consistent() && data == bytes && pos == 0 && valid
    {
      data := bytes;
      pos := 0;
      valid := true;
    }

    /** `read_bytes(n)`. */
    method ReadBytes(n: nat) returns (s: seq<byte>)
      requires Consistent()
      modifies this
      ensures Consistent() && |s| == n
      ensures valid == (old(valid) && old(pos) + n <= |data|)
      ensures valid ==> s == old(Remaining())[..n] && pos == old(pos) + n
      ensures !valid ==> s == Zeros(n) && pos == old(pos)
    {
      if valid && pos + n <= |data| {
        s := data[pos..pos + n];
        pos := pos + n;
      } else {
        valid := false;
        s := Zeros(n);
      }
    }

    /** `read_byte`. */
    method ReadByte() returns (b: byte)
      requires Consistent()
      modifies this
      ensures Consistent()
      ensures valid == (old(valid) && old(pos) < |data|)
      ensures valid ==> b == data[old(pos)] && pos == old(pos) + 1
      ensures !valid ==> b == 0 && pos == old(pos)
    {
      if valid && pos < |data| {
        b := data[pos];
        pos := pos + 1;
      } else {
        valid := false;
        b := 0;
      }
    }

    /** `read_4_bytes_little_endian`. */
    method ReadUint32() returns (x: uint32)
      requires Consistent()
      modifies this
      ensures Consistent()
      ensures valid == (old(valid) && old(pos) + 4 <= |data|)
      ensures valid ==> x == FromLe32(old(Remaining())[..4]) && pos == old(pos) + 4
      ensures !valid ==> x == 0 && pos == old(pos)
    {
      var b := ReadBytes(4);
      x := FromLe32(b);
    }

    /** `read_hash`: 32 raw bytes. */
    method ReadHash() returns (h: Hash)
      requires Consistent()
      modifies this
      ensures Consistent()
      ensures valid == (old(valid) && old(pos) + 32 <= |data|)
      ensures valid ==> h == old(Remaining())[..32] && pos == old(pos) + 32
      ensures !valid ==> h == NullHash && pos == old(pos)
    {
      h := ReadBytes(32);
    }

    /** `read_string(width)` over a null-padded field of `width` bytes. */
    method ReadString(width: nat) returns (s: Text)
      requires Consistent()
      modifies this
      ensures Consistent()
      ensures valid == (old(valid) && old(pos) + width <= |data|)
      ensures valid ==> s == UnpadText(old(Remaining())[..width]) && pos == old(pos) + width
      ensures !valid ==> s == [] && pos == old(pos)
    {
      var b := ReadBytes(width);
      s := UnpadText(b);
    }

    /** `invalidate`: a validation failure detected by the caller. */
    method Invalidate()
      modifies this
      ensures !valid && pos == old(pos)
    {
      valid := false;
    }
  }

  class Writer {
    var data: seq<byte>

    constructor ()
      ensures data == []
    {
      data := [];
    }

    /** `write_byte`. */
    method WriteByte(b: byte)
      modifies this
      ensures data == old(data) + [b]
    {
      data := data + [b];
    }

    /** `write_bytes`. */
    method WriteBytes(s: seq<byte>)
      modifies this
      ensures data == old(data) + s
    {
      data := data + s;
    }

    /** `write_4_bytes_little_endian`. */
    method WriteUint32(x: uint32)
      modifies this
      ensures data == old(data) + Le32(x)
    {
      data := data + Le32(x);
    }

    /** `write_variable`. */
    method WriteVariable(v: nat)
      requires v < MaxUint64
      modifies this
      ensures data == old(data) + EncodeVariable(v)
    {
      data := data + EncodeVariable(v);
    }

    /** `write_string(s, width)`. */
    method WriteString(s: Text, width: nat)
      modifies this
      ensures data == old(data) + PadText(s, width)
    {
      data := data + PadText(s, width);
    }
  }
}
