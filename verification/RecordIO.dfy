/** The buffer archives of the C client: an output archive that grows by doubling and an
    input archive that reads at an offset, with the generated code of some records on
    top. Bytes written are exactly the encoding; reading does exactly what decoding
    says, return codes included. */
module RecordIO {
  import opened Prelude
  import opened Codec

  /** Sizes are kept well below the 32-bit limit, so that doubling cannot overflow. */
  const LIMIT := 0x800_0000

  method Reverse8(s: array<byte>)
    requires s.Length == 8
    modifies s
    ensures forall i | 0 <= i < 8 :: s[i] == old(s[7 - i])
  {
    for i := 0 to 4
      invariant forall k | 0 <= k < i || 8 - i <= k < 8 :: s[k] == old(s[7 - k])
      invariant forall k | i <= k < 8 - i :: s[k] == old(s[k])
    {
      var tmp := s[i];
      s[i] := s[8 - i - 1];
      s[8 - i - 1] := tmp;
    }
  }

  /** A 64-bit word as it lies in the memory of a little-endian host. */
  function Memory64(v: int): seq<byte>
    requires IsInt64(v)
  {
    var b := Enc64(v);
    [b[7], b[6], b[5], b[4], b[3], b[2], b[1], b[0]]
  }

  /** zoo_htonll on a little-endian host. */
  method ZooHtonll(v: int) returns (bytes: seq<byte>)
    requires IsInt64(v)
    ensures bytes == Enc64(v)
  {
    var m := Memory64(v);
    var s := new byte[8](i requires 0 <= i < 8 => m[i]);
    Reverse8(s);
    bytes := s[..];
    assert forall i | 0 <= i < 8 :: bytes[i] == m[7 - i] == Enc64(v)[i];
  }

  class OArchive {
    var buffer: array<byte>
    var len: int
    var off: nat

    ghost predicate Valid()
      reads this
    {
      buffer.Length == len && 128 <= len && off <= len && (len == 128 || len <= 4 * off)
    }

    ghost function Contents(): seq<byte>
      requires Valid()
      reads this, buffer
    {
      buffer[..off]
    }

    constructor ()
      ensures Valid() && fresh(buffer) && Contents() == []
    {
      buffer := new byte[128];
      len, off := 128, 0;
    }

    /** Doubles the length until it suffices, then moves the bytes. */
    method ResizeBuffer(newlen: int)
      requires 0 < len == buffer.Length && off <= len && len < newlen
      modifies this`len, this`buffer
      ensures fresh(buffer) && buffer.Length == len && newlen <= len < 2 * newlen
      ensures off <= old(len) && buffer[..off] == old(buffer[..off])
    {
      while len < newlen
        invariant buffer == old(buffer) && old(len) <= len < 2 * newlen
        decreases newlen - len
      {
        len := len * 2;
      }
      var oldBuffer := buffer;
      var grown := new byte[len];
      forall i | 0 <= i < oldBuffer.Length {
        grown[i] := oldBuffer[i];
      }
      buffer := grown;
    }

    /** Makes room and copies: the common part of all serializers. */
    method Append(s: seq<byte>)
      requires Valid() && off + |s| <= LIMIT
      modifies this, buffer
      ensures Valid() && (buffer == old(buffer) || fresh(buffer))
      ensures Contents() == old(Contents()) + s
    {
      if len - off < |s| {
        ResizeBuffer(len + |s|);
      }
      ghost var before := buffer[..off];
      forall i | 0 <= i < |s| {
        buffer[off + i] := s[i];
      }
      off := off + |s|;
      assert buffer[..off] == before + s;
    }

    method SerializeInt(v: int)
      requires Valid() && off + 4 <= LIMIT && IsInt32(v)
      modifies this, buffer
      ensures Valid() && (buffer == old(buffer) || fresh(buffer))
      ensures Contents() == old(Contents()) + Enc32(v)
    {
      Append(Enc32(v));
    }

    method SerializeLong(v: int)
      requires Valid() && off + 8 <= LIMIT && IsInt64(v)
      modifies this, buffer
      ensures Valid() && (buffer == old(buffer) || fresh(buffer))
      ensures Contents() == old(Contents()) + Enc64(v)
    {
      var i := ZooHtonll(v);
      Append(i);
    }

    method SerializeBool(v: int)
      requires Valid() && off + 1 <= LIMIT
      modifies this, buffer
      ensures Valid() && (buffer == old(buffer) || fresh(buffer))
      ensures Contents() == old(Contents()) + [if v == 0 then 0 else 1]
    {
      Append([if v == 0 then 0 else 1]);
    }

    /** Strings and buffers alike: a length, or -1 for the null pointer, then the
        bytes. */
    method SerializeBytes(s: Option<seq<byte>>)
      requires Valid() && (s.Some? ==> Fits(s.value)) && off + |EncBytes(s)| <= LIMIT
      modifies this, buffer
      ensures Valid() && (buffer == old(buffer) || fresh(buffer))
      ensures Contents() == old(Contents()) + EncBytes(s)
    {
      if s.None? {
        SerializeInt(-1);
        return;
      }
      ghost var before := Contents();
      SerializeInt(|s.value|);
      Append(s.value);
      assert before + Enc32(|s.value|) + s.value == before + EncBytes(s);
    }
  }

  class IArchive {
    const buffer: seq<byte>
    var off: nat

    ghost predicate Valid()
      reads this
    {
      off <= |buffer|
    }

    constructor (bytes: seq<byte>)
      ensures Valid() && buffer == bytes && off == 0
    {
      buffer, off := bytes, 0;
    }

    method DeserializeInt() returns (rc: int, v: int)
      requires Valid()
      modifies this
      ensures Valid() && Decoded(rc, Int(v), off) == Dec(TInt, buffer, old(off))
    {
      if |buffer| - off < 4 { return E2BIG, 0; }
      v := Dec32(buffer, off);
      off := off + 4;
      rc := 0;
    }

    method DeserializeLong() returns (rc: int, v: int)
      requires Valid()
      modifies this
      ensures Valid() && Decoded(rc, Long(v), off) == Dec(TLong, buffer, old(off))
    {
      if |buffer| - off < 8 { return E2BIG, 0; }
      v := Dec64(buffer, off);
      off := off + 8;
      rc := 0;
    }

    method DeserializeBool() returns (rc: int, v: int)
      requires Valid()
      modifies this
      ensures Valid() && Decoded(rc, Bool(v), off) == Dec(TBool, buffer, old(off))
    {
      if |buffer| - off < 1 { return E2BIG, 0; }
      v := if buffer[off] < 128 then buffer[off] as int else buffer[off] as int - 256;
      off := off + 1;
      rc := 0;
    }

    method DeserializeBuffer() returns (rc: int, b: Option<seq<byte>>)
      requires Valid()
      modifies this
      ensures Valid() && Decoded(rc, Buf(b), off) == Dec(TBuffer, buffer, old(off))
    {
      var len;
      rc, len := DeserializeInt();
      if rc < 0 { return rc, None; }
      if |buffer| - off < len { return E2BIG, None; }
      if len == -1 { return rc, None; }
      if len < 0 { return ENOMEM, None; }   // no allocator grants a negative size
      b := Some(buffer[off..off + len]);
      off := off + len;
      rc := 0;
    }

    method DeserializeString() returns (rc: int, s: Option<seq<byte>>)
      requires Valid()
      modifies this
      ensures Valid() && Decoded(rc, Str(s), off) == Dec(TString, buffer, old(off))
    {
      var len;
      rc, len := DeserializeInt();
      if rc < 0 { return rc, None; }
      if |buffer| - off < len { return E2BIG, None; }
      if len < 0 { return EINVAL, None; }
      s := Some(UptoNul(buffer[off..off + len]));
      off := off + len;
      rc := 0;
    }
  }
}
