/**
 `pb_ostream_t`: a stream that writes into a buffer up to a limit, or one that only counts.
 */
module OutputStream {
  import opened Wire
  import opened Descriptor
  import opened Encoding
  import opened Options

  /** `content` with `bytes` written over it at `at`. */
  function Patch(content: seq<byte>, at: nat, bytes: seq<byte>): (r: seq<byte>)
    requires at + |bytes| <= |content|
    ensures |r| == |content|
  {
    content[..at] + bytes + content[at + |bytes|..]
  }

  lemma PatchTwice(content: seq<byte>, at: nat, a: seq<byte>, b: seq<byte>)
    requires at + |a| + |b| <= |content|
    ensures Patch(Patch(content, at, a), at + |a|, b) == Patch(content, at, a + b)
  {
  }

  lemma PatchNothing(content: seq<byte>, at: nat)
    requires at <= |content|
    ensures Patch(content, at, []) == content
  {
  }

  /** The state of a stream and of its buffer. */
  datatype Mark = Mark(content: seq<byte>, state: nat, written: nat)

  class OStream {
    /** Without a callback nothing is written and nothing can fail. */
    const sizing: bool
    const buffer: array<byte>
    const maxSize: nat
    var state: nat
    var bytesWritten: nat

    ghost predicate Valid()
      reads this
    {
      !sizing ==> bytesWritten <= maxSize && state + (maxSize - bytesWritten) <= buffer.Length
    }

    ghost function At(): Mark
      reads this, buffer
    {
      Mark(buffer[..], state, bytesWritten)
    }

    ghost predicate ValidMark(m: Mark)
    {
      |m.content| == buffer.Length && (!sizing ==> m.written <= maxSize && m.state + (maxSize - m.written) <= buffer.Length)
    }

    ghost predicate Room(m: Mark, n: nat)
    {
      sizing || m.written + n <= maxSize
    }

    ghost function After(m: Mark, bytes: seq<byte>): Mark
      requires ValidMark(m) && Room(m, |bytes|)
    {
      if sizing then m.(written := m.written + |bytes|)
      else Mark(Patch(m.content, m.state, bytes), m.state + |bytes|, m.written + |bytes|)
    }

    /** Nothing outside the part of the buffer that the limit allows has been touched. */
    ghost predicate Kept(m: Mark)
      requires ValidMark(m)
      reads this, buffer
    {
      if sizing then buffer[..] == m.content
      else
        (buffer[..m.state] == m.content[..m.state]
         && buffer[m.state + (maxSize - m.written)..] == m.content[m.state + (maxSize - m.written)..])
    }

    /**
     Starting at `m`, an encoder of `e` succeeded exactly when there is an encoding and it fits the
     limit; then the stream has moved by it and the buffer holds it. If it failed, nothing beyond
     the limit was touched.
     */
    ghost predicate Did(m: Mark, e: Option<seq<byte>>, ok: bool)
      reads this, buffer
    {
      && Valid() && ValidMark(m)
      && (ok <==> e.Some? && Room(m, |e.value|))
      && (ok ==> At() == After(m, e.value))
      && (!ok ==> Kept(m))
    }

    constructor Sizing()
      ensures sizing && Valid() && bytesWritten == 0 && fresh(buffer)
    {
      sizing := true;
      buffer := new byte[0];
      maxSize, state, bytesWritten := 0, 0, 0;
    }

    /** `pb_ostream_from_buffer` */
    constructor FromBuffer(buf: array<byte>)
      ensures !sizing && Valid() && buffer == buf && maxSize == buf.Length && state == 0 && bytesWritten == 0
    {
      sizing := false;
      buffer := buf;
      maxSize, state, bytesWritten := buf.Length, 0, 0;
    }

    /** A substream at the place of its parent, limited to `size`. */
    constructor Limited(parent: OStream, size: nat)
      requires parent.Valid() && !parent.sizing && parent.bytesWritten + size <= parent.maxSize
      ensures !sizing && Valid() && buffer == parent.buffer && maxSize == size && state == parent.state && bytesWritten == 0
    {
      sizing := false;
      buffer := parent.buffer;
      maxSize, state, bytesWritten := size, parent.state, 0;
    }

    /** `buf_write` */
    method BufWrite(bytes: seq<byte>)
      requires state + |bytes| <= buffer.Length
      modifies this`state, buffer
      ensures state == old(state) + |bytes| && buffer[..] == Patch(old(buffer[..]), old(state), bytes)
    {
      ghost var content := buffer[..];
      var dest := state;
      state := state + |bytes|;
      var i := 0;
      PatchNothing(content, dest);
      while i < |bytes|
        invariant i <= |bytes|
        invariant buffer[..] == Patch(content, dest, bytes[..i])
        modifies buffer
      {
        PatchTwice(content, dest, bytes[..i], [bytes[i]]);
        assert bytes[..i] + [bytes[i]] == bytes[..i + 1];
        buffer[dest + i] := bytes[i];
        i := i + 1;
      }
      assert bytes[..i] == bytes;
    }

    /** `pb_write`: all the bytes, or none of them. */
    method Write(bytes: seq<byte>) returns (ok: bool)
      requires Valid()
      modifies this, buffer
      ensures Did(old(At()), Some(bytes), ok)
      ensures !ok ==> At() == old(At())
    {
      hide Patch;
      if |bytes| > 0 && !sizing {
        if bytesWritten + |bytes| > maxSize {
          return false;
        }
        BufWrite(bytes);
      } else {
        assert |bytes| == 0 ==> bytes == [];
        if !sizing { PatchNothing(buffer[..], state); }
      }
      bytesWritten := bytesWritten + |bytes|;
      return true;
    }

    /** `pb_write` of `count` bytes without data, on a sizing stream. */
    method Count(bytes: nat)
      requires Valid() && sizing
      modifies this
      ensures Valid() && bytesWritten == old(bytesWritten) + bytes && state == old(state)
    {
      bytesWritten := bytesWritten + bytes;
    }
  }

  /** Two encoders in a row encode what the two encode. */
  lemma InSequence(stream: OStream, m: Mark, a: Option<seq<byte>>, b: Option<seq<byte>>, ok: bool)
    requires stream.ValidMark(m) && a.Some? && stream.Room(m, |a.value|)
    requires stream.Did(stream.After(m, a.value), b, ok)
    ensures stream.Did(m, Append(a, b), ok)
  {
    if b.Some? && stream.Room(stream.After(m, a.value), |b.value|) && !stream.sizing {
      PatchTwice(m.content, m.state, a.value, b.value);
    }
    if !ok && !stream.sizing { KeptLater(stream, m, a.value); }
  }

  lemma KeptLater(stream: OStream, m: Mark, a: seq<byte>)
    requires stream.ValidMark(m) && stream.Room(m, |a|) && !stream.sizing
    requires stream.ValidMark(stream.After(m, a)) && stream.Kept(stream.After(m, a))
    ensures stream.Kept(m)
  {
    var now, next := stream.buffer[..], stream.After(m, a);
    var end := m.state + (stream.maxSize - m.written);
    assert now[..m.state] == now[..next.state][..m.state] == next.content[..m.state] == m.content[..m.state];
    assert next.content[end..] == m.content[end..];
  }

  /** If the first encoder fails, so do both. */
  lemma FirstFails(stream: OStream, m: Mark, a: Option<seq<byte>>, b: Option<seq<byte>>)
    requires stream.Did(m, a, false)
    ensures stream.Did(m, Append(a, b), false)
  {
  }
}
