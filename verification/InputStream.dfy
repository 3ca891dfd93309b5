/**
 `pb_istream_t` over a buffer, and the decoders of the wire format that read from it. Every method
 moves the stream by exactly the bytes that the corresponding function of `Wire` uses, and never
 past `bytesLeft`.
 */
module InputStream {
  import opened Bits
  import opened Wire
  import opened Decoding

  function Plus<T>(r: Parsed<T>, k: nat): Parsed<T> {
    match r
    case Fail => Fail
    case Ok(v, n) => Ok(v, k + n)
  }

  class IStream {
    const source: seq<byte>
    var state: nat
    var bytesLeft: nat

    ghost predicate Valid()
      reads this
    {
      state + bytesLeft <= |source|
    }

    /** The bytes that may still be read. */
    ghost function Rest(): (s: seq<byte>)
      requires Valid()
      reads this
      ensures |s| == bytesLeft
    {
      source[state..state + bytesLeft]
    }

    /** The stream has moved from a state by `used` bytes; offset plus bytes left is conserved. */
    ghost predicate Moved(state0: nat, left0: nat, used: nat)
      reads this
    {
      state == state0 + used && bytesLeft + used == left0
    }

    /** The stream has only moved forward. */
    ghost predicate Within(state0: nat, left0: nat)
      reads this
    {
      Valid() && state0 <= state && bytesLeft <= left0 && state + bytesLeft <= state0 + left0
    }

    constructor FromBuffer(buffer: seq<byte>)
      ensures Valid() && source == buffer && state == 0 && bytesLeft == |buffer| && Rest() == buffer
    {
      source := buffer;
      state := 0;
      bytesLeft := |buffer|;
    }

    /** `*substream = *stream` with another limit. */
    constructor Limited(parent: IStream, size: nat)
      requires parent.Valid() && size <= parent.bytesLeft
      ensures source == parent.source && state == parent.state && bytesLeft == size
      ensures Valid() && Rest() == parent.Rest()[..size]
    {
      source := parent.source;
      state := parent.state;
      bytesLeft := size;
    }

    /** `pb_read` */
    method Read(count: nat) returns (ok: bool, bytes: seq<byte>)
      requires Valid()
      modifies this
      ensures ok <==> count <= old(bytesLeft)
      ensures Within(old(state), old(bytesLeft))
      ensures ok ==> Moved(old(state), old(bytesLeft), count) && bytes == old(Rest())[..count] && Rest() == old(Rest())[count..]
      ensures !ok ==> Moved(old(state), old(bytesLeft), 0)
    {
      if count == 0 { return true, []; }
      if bytesLeft < count { return false, []; }
      bytes := source[state..state + count];
      state := state + count;
      bytesLeft := bytesLeft - count;
      return true, bytes;
    }

    /** `pb_readbyte` */
    method ReadByte() returns (ok: bool, b: byte)
      requires Valid()
      modifies this
      ensures ok <==> old(bytesLeft) > 0
      ensures Within(old(state), old(bytesLeft))
      ensures ok ==> Moved(old(state), old(bytesLeft), 1) && b == old(Rest())[0] && Rest() == old(Rest())[1..]
      ensures !ok ==> Moved(old(state), old(bytesLeft), 0)
    {
      if bytesLeft == 0 { return false, 0; }
      b := source[state];
      state := state + 1;
      bytesLeft := bytesLeft - 1;
      return true, b;
    }

    /** `pb_decode_varint32_eof` */
    method DecodeVarint32Eof() returns (ok: bool, value: nat, eof: bool)
      requires Valid()
      modifies this
      ensures Within(old(state), old(bytesLeft))
      ensures ok <==> Varint32(old(Rest())).Ok?
      ensures ok ==> value == Varint32(old(Rest())).value && Moved(old(state), old(bytesLeft), Varint32(old(Rest())).used)
      ensures eof <==> old(bytesLeft) == 0
    {
      hide Or, Low, Shl;
      var read, b := ReadByte();
      if !read {
        return false, 0, bytesLeft == 0;
      }
      if b < 128 {
        return true, b, false;
      }
      var bitpos: nat := 7;
      var result: nat := b % 128;
      var more := true;
      while more
        invariant Within(old(state), old(bytesLeft)) && old(state) < state
        invariant Moved(old(state), old(bytesLeft), state - old(state))
        invariant more ==> Varint32(old(Rest())) == Plus(Varint32From(Rest(), bitpos, result), state - old(state))
        invariant !more ==> b < 128
        invariant !more ==> Varint32(old(Rest())) == if bitpos == 35 && b / 16 % 8 != 0 then Fail else Ok(result, state - old(state))
        decreases bytesLeft + (if more then 1 else 0)
      {
        read, b := ReadByte();
        if !read {
          return false, 0, false;
        }
        if bitpos >= 32 {
          var sign := if bitpos < 63 then 0xFF else 0x01;
          if b % 128 != 0 && (result < TWO31 || b != sign) {
            return false, 0, false;
          }
        } else {
          result := Or(result, Low(Shl(b % 128, bitpos), 32));
        }
        bitpos := (bitpos + 7) % 256;
        more := b >= 128;
      }
      if bitpos == 35 && b / 16 % 8 != 0 {
        return false, 0, false;
      }
      return true, result, false;
    }

    /** `pb_decode_varint32` */
    method DecodeVarint32() returns (ok: bool, value: nat)
      requires Valid()
      modifies this
      ensures Within(old(state), old(bytesLeft))
      ensures ok <==> Varint32(old(Rest())).Ok?
      ensures ok ==> value == Varint32(old(Rest())).value && Moved(old(state), old(bytesLeft), Varint32(old(Rest())).used)
    {
      var eof;
      ok, value, eof := DecodeVarint32Eof();
    }

    /** `pb_decode_varint` */
    method DecodeVarint() returns (ok: bool, value: nat)
      requires Valid()
      modifies this
      ensures Within(old(state), old(bytesLeft))
      ensures ok <==> ReadVarint(old(Rest())).Ok?
      ensures ok ==> value == ReadVarint(old(Rest())).value && Moved(old(state), old(bytesLeft), ReadVarint(old(Rest())).used)
    {
      hide Or, Low, Shl;
      var bitpos: nat, result: nat := 0, 0;
      var more := true;
      while more
        invariant Within(old(state), old(bytesLeft))
        invariant Moved(old(state), old(bytesLeft), state - old(state))
        invariant more ==> Varint64(old(Rest())) == Plus(Varint64From(Rest(), bitpos, result), state - old(state))
        invariant !more ==> Varint64(old(Rest())) == Ok(result, state - old(state))
        decreases bytesLeft + (if more then 1 else 0)
      {
        if bitpos >= 64 {
          return false, 0;
        }
        var read, b := ReadByte();
        if !read {
          return false, 0;
        }
        result := Or(result, Low(Shl(b % 128, bitpos), 64));
        bitpos := bitpos + 7;
        more := b >= 128;
      }
      return true, result;
    }

    /** `pb_decode_tag`. At the end of the message it fails with `eof`. */
    method DecodeTag() returns (ok: bool, wireType: nat, tag: nat, eof: bool)
      requires Valid() && bytesLeft > 0
      modifies this
      ensures Within(old(state), old(bytesLeft))
      ensures ok <==> ReadHeader(old(Rest())).Header?
      ensures eof <==> ReadHeader(old(Rest())).EndOfMessage?
      ensures ok ==> Header(tag, wireType, state - old(state)) == ReadHeader(old(Rest()))
      ensures ok || eof ==> Moved(old(state), old(bytesLeft), ReadHeader(old(Rest())).used)
    {
      wireType, tag := 0, 0;
      var temp;
      ok, temp, eof := DecodeVarint32Eof();
      if !ok {
        return;
      }
      if temp == 0 {
        return false, 0, 0, true;
      }
      tag := temp / 8;
      wireType := temp % 8;
    }

    /** `pb_skip_varint` */
    method SkipVarint() returns (ok: bool)
      requires Valid()
      modifies this
      ensures Within(old(state), old(bytesLeft))
      ensures ok <==> Wire.SkipVarint(old(Rest())).Ok?
      ensures ok ==> Moved(old(state), old(bytesLeft), Wire.SkipVarint(old(Rest())).used)
    {
      var more := true;
      while more
        invariant Within(old(state), old(bytesLeft))
        invariant Moved(old(state), old(bytesLeft), state - old(state))
        invariant more ==> Wire.SkipVarint(old(Rest())) == Plus(Wire.SkipVarint(Rest()), state - old(state))
        invariant !more ==> Wire.SkipVarint(old(Rest())) == Ok((), state - old(state))
        decreases bytesLeft + (if more then 1 else 0)
      {
        var read, bytes := Read(1);
        if !read {
          return false;
        }
        more := bytes[0] >= 128;
      }
      return true;
    }

    /** `pb_skip_field` */
    method SkipField(wireType: nat) returns (ok: bool)
      requires Valid()
      modifies this
      ensures Within(old(state), old(bytesLeft))
      ensures ok <==> Wire.SkipField(old(Rest()), wireType).Ok?
      ensures ok ==> Moved(old(state), old(bytesLeft), Wire.SkipField(old(Rest()), wireType).used)
    {
      hide Wire.SkipVarint, Varint32;
      var bytes;
      if wireType == WT_VARINT {
        ok := SkipVarint();
      } else if wireType == WT_64BIT {
        ok, bytes := Read(8);
      } else if wireType == WT_STRING {
        var length;
        ok, length := DecodeVarint32();
        if ok { ok, bytes := Read(length); }
      } else if wireType == WT_32BIT {
        ok, bytes := Read(4);
      } else {
        ok := false;
      }
    }

    /** `pb_make_string_substream`: the parent gives up the bytes of the substream but stays where it is. */
    method MakeSubstream() returns (ok: bool, substream: IStream)
      requires Valid()
      modifies this
      ensures Within(old(state), old(bytesLeft)) && fresh(substream) && substream.Valid()
      ensures ok <==> Substream(old(Rest())).Ok?
      ensures ok ==>
        && substream.source == source && substream.Rest() == Substream(old(Rest())).value
        && state == substream.state
        && state + substream.bytesLeft == old(state) + Substream(old(Rest())).used
        && bytesLeft + Substream(old(Rest())).used == old(bytesLeft)
    {
      hide Varint32;
      var size;
      ok, size := DecodeVarint32();
      if !ok || bytesLeft < size {
        substream := new IStream.Limited(this, 0);
        return false, substream;
      }
      substream := new IStream.Limited(this, size);
      bytesLeft := bytesLeft - size;
    }

    /**
     `pb_close_string_substream`: skips what the body left and moves the parent past the region, so
     that the parent does not depend on how much the body read.
     */
    method CloseSubstream(substream: IStream) returns (ok: bool)
      requires Valid() && substream.Valid() && substream != this && substream.source == source
      requires substream.state + substream.bytesLeft + bytesLeft <= |source|
      modifies this, substream
      ensures ok && Valid()
      ensures state == old(substream.state) + old(substream.bytesLeft) && bytesLeft == old(bytesLeft)
    {
      if substream.bytesLeft > 0 {
        var bytes;
        ok, bytes := substream.Read(substream.bytesLeft);
        if !ok { return false; }
      }
      state := substream.state;
      return true;
    }
  }
}
