/**
 * The bounded writer the handler encodes into: a fixed-capacity buffer and the
 * offset of its first unused byte. An extend that does not fit writes nothing.
 */
module TdispWriter {
  import opened Wrappers
  import opened TdispTypes

  datatype WriterState = WriterState(bytes: seq<Byte>, offset: nat)

  ghost predicate WellFormed(w: WriterState) {
    w.offset <= |w.bytes|
  }

  /** The writer after appending `data`: the bytes land at the offset when they
      fit, and nothing else in the buffer changes; otherwise the writer is as it
      was. */
  function Extend(w: WriterState, data: seq<Byte>): (r: WriterState)
    requires WellFormed(w)
    ensures WellFormed(r) && |r.bytes| == |w.bytes|
    ensures w.offset + |data| <= |w.bytes| ==>
      && r.offset == w.offset + |data|
      && r.bytes[w.offset..r.offset] == data
      && (forall i :: 0 <= i < w.offset ==> r.bytes[i] == w.bytes[i])
      && (forall i :: r.offset <= i < |w.bytes| ==> r.bytes[i] == w.bytes[i])
    ensures w.offset + |data| > |w.bytes| ==> r == w
  {
    if w.offset + |data| <= |w.bytes| then
      WriterState(w.bytes[..w.offset] + data + w.bytes[w.offset + |data|..], w.offset + |data|)
    else
      w
  }

  class Writer {
    const buf: array<Byte>
    var offset: nat

    ghost predicate Valid()
      reads this
    {
      offset <= buf.Length
    }

    ghost function State(): WriterState
      reads this, buf
    {
      WriterState(buf[..], offset)
    }

    constructor (buf: array<Byte>)
      ensures Valid() && this.buf == buf && offset == 0
    {
      this.buf := buf;
      offset := 0;
    }

    /** Copies `data` to the offset when it fits and reports how many bytes were
        added; reports `None` and writes nothing when it does not fit. */
    method ExtendFromSlice(data: seq<Byte>) returns (added: Option<nat>)
      requires Valid()
      modifies this, buf
      ensures Valid()
      ensures WellFormed(old(State())) && State() == Extend(old(State()), data)
      ensures added == if old(offset) + |data| <= buf.Length then Some(|data|) else None
    {
      if buf.Length - offset < |data| {
        return None;
      }
      var i := 0;
      while i < |data|
        invariant 0 <= i <= |data|
        invariant offset + |data| <= buf.Length && offset == old(offset)
        invariant forall k :: 0 <= k < buf.Length ==>
          buf[k] == if offset <= k < offset + i then data[k - offset] else old(buf[k])
      {
        buf[offset + i] := data[i];
        i := i + 1;
      }
      ghost var e := Extend(old(State()), data);
      assert buf[..] == e.bytes by {
        forall k | 0 <= k < buf.Length
          ensures buf[k] == e.bytes[k]
        {
          if offset <= k < offset + |data| {
            assert e.bytes[offset..offset + |data|][k - offset] == e.bytes[k];
          }
        }
      }
      offset := offset + |data|;
      added := Some(|data|);
    }
  }
}
