/** The ring buffer under the work pool refines a plain sequence. */
module RingQueue {
  import opened Options
  import opened RingMath

  /** Go's copy of src[lo..hi] into dst from index `at`. */
  method CopyInto<T>(dst: array<T>, at: nat, src: array<T>, lo: nat, hi: nat)
    requires dst != src && lo <= hi <= src.Length && at + (hi - lo) <= dst.Length
    modifies dst
    ensures forall i | 0 <= i < dst.Length ::
              dst[i] == if at <= i < at + (hi - lo) then src[lo + (i - at)] else old(dst[i])
  {
    var k := 0;
    while k < hi - lo
      invariant k <= hi - lo
      invariant forall i | 0 <= i < dst.Length ::
                  dst[i] == if at <= i < at + k then src[lo + (i - at)] else old(dst[i])
    {
      dst[at + k] := src[lo + k];
      k := k + 1;
    }
  }

  class Queue<T> {
    var buf: array<Option<T>>
    var head: nat
    var tail: nat
    var count: nat
    /** Elements copied by all resizes of this queue so far. */
    ghost var copied: nat

    ghost function Footprint(): Shape
      reads this
    {
      Shape(count, buf.Length, copied)
    }

    /** The indices are right; the buffer may be due for a resize. */
    ghost predicate Laid()
      reads this, buf
    {
      && Holds(Footprint())
      && head < buf.Length && tail == Wrap(buf.Length, head + count)
      && Filled(buf[..], head, count)
    }

    ghost predicate Valid()
      reads this, buf
    {
      Laid() && Fits(Footprint())
    }

    /** The elements from the head on. */
    ghost function Contents(): (s: seq<T>)
      requires Laid()
      reads this, buf
      ensures |s| == count
    {
      Unroll(buf[..], head, count)
    }

    constructor ()
      ensures Valid() && fresh(buf) && Contents() == [] && Footprint() == Shape(0, MIN_QUEUE_LEN, 0)
    {
      buf := new Option<T>[MIN_QUEUE_LEN](_ => None);
      head, tail, count, copied := 0, 0, 0, 0;
      new;
      assert Pow2(4) == 16;
    }

    method Length() returns (n: nat)
      requires Valid()
      ensures n == |Contents()|
    {
      return count;
    }

    method Resize()
      requires Laid() && (count == buf.Length || 4 * count == buf.Length) && 2 * count >= MIN_QUEUE_LEN
      modifies this
      ensures Laid() && fresh(buf)
      ensures Contents() == old(Contents()) && Footprint() == Resized(old(Footprint()))
    {
      hide Unroll, Filled, IsPow2;
      var newBuf := new Option<T>[2 * count](_ => None);
      if tail > head {
        CopyInto(newBuf, 0, buf, head, tail);
      } else {
        CopyInto(newBuf, 0, buf, head, buf.Length);
        CopyInto(newBuf, buf.Length - head, buf, 0, tail);
      }
      UnrollCopy(buf[..], head, count, newBuf[..]);
      Pow2Half(buf.Length);
      head := 0;
      tail := count;
      buf := newBuf;
      copied := copied + count;
    }

    method Add(elem: T)
      requires Valid()
      modifies this, buf
      ensures Valid() && (buf == old(buf) || fresh(buf))
      ensures Contents() == old(Contents()) + [elem]
      ensures Footprint() == Added(old(Footprint()))
    {
      hide Unroll, Filled, IsPow2, Potential;
      AddPays(Footprint());
      if count == buf.Length {
        Resize();
      }
      Place(elem);
    }

    /** The part of Add after its resize. */
    method Place(elem: T)
      requires Laid() && count < buf.Length
      modifies this, buf
      ensures Laid() && buf == old(buf)
      ensures Contents() == old(Contents()) + [elem]
      ensures Footprint() == old(Footprint()).(count := old(count) + 1)
    {
      hide Unroll, Filled, And, IsPow2;
      MaskWraps(buf.Length, tail + 1);
      UnrollAdd(buf[..], head, count, elem);
      ghost var after := buf[..][tail := Some(elem)];
      buf[tail] := Some(elem);
      assert buf[..] == after;
      tail := And(tail + 1, buf.Length - 1);
      count := count + 1;
    }

    /** None stands for the panic on an empty queue. */
    method Peek() returns (r: Option<T>)
      requires Valid()
      ensures r == if Contents() == [] then None else Some(Contents()[0])
    {
      if count == 0 {
        return None;
      }
      assert Slot(buf.Length, head, 0) == head;
      return buf[head];
    }

    /** None stands for the panic on an index out of range; negative indices count from the end. */
    method Get(i: int) returns (r: Option<T>)
      requires Valid()
      ensures r == if 0 <= i < |Contents()| then Some(Contents()[i])
                   else if -|Contents()| <= i < 0 then Some(Contents()[|Contents()| + i])
                   else None
    {
      var j := if i < 0 then i + count else i;
      if j < 0 || j >= count {
        return None;
      }
      MaskWraps(buf.Length, head + j);
      return buf[And(head + j, buf.Length - 1)];
    }

    /** None stands for the panic on an empty queue. */
    method Remove() returns (r: Option<T>)
      requires Valid()
      modifies this, buf
      ensures Valid() && (buf == old(buf) || fresh(buf))
      ensures r.None? <==> old(Contents()) == []
      ensures r.None? ==> Contents() == old(Contents()) && Footprint() == old(Footprint())
      ensures r.Some? ==> [r.value] + Contents() == old(Contents()) && Footprint() == Removed(old(Footprint()))
    {
      hide Unroll, Filled, And, IsPow2, Potential;
      if count == 0 {
        return None;
      }
      RemovePays(Footprint());
      MaskWraps(buf.Length, head + 1);
      UnrollRemove(buf[..], head, count);
      ghost var after := buf[..][head := None];
      r := buf[head];
      buf[head] := None;
      assert buf[..] == after;
      head := And(head + 1, buf.Length - 1);
      count := count - 1;
      if buf.Length > MIN_QUEUE_LEN && 4 * count == buf.Length {
        Resize();
      }
    }
  }
}
