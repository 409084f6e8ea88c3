/** The closable queue between submitters and dispatcher. Every method body of the source runs under one
    mutex, so an interleaving of callers is a sequence of the methods below. */
module MyQueue {
  import opened Options
  import RingQueue

  /** What one attempt of Pop, made with the mutex held, comes to. */
  datatype Attempt<T> = Waits | Returns(value: Option<T>)

  class MyQueue<T> {
    const buffer: RingQueue.Queue<T>
    var closed: bool
    var count: nat
    /** The items accepted and the items handed out so far, in order. */
    ghost var pushed: seq<T>
    ghost var popped: seq<T>

    /** While open, what was pushed is what was popped followed by what is buffered, and the counter is
        the buffer's length; once closed, the counter is zero for good. */
    ghost predicate Valid()
      reads this, buffer, buffer.buf
    {
      && buffer.Valid()
      && popped <= pushed
      && (closed ==> count == 0)
      && (!closed ==> count == |buffer.Contents()| && pushed == popped + buffer.Contents())
    }

    constructor ()
      ensures Valid() && fresh(buffer) && fresh(buffer.buf) && !closed && pushed == [] && popped == []
    {
      buffer := new RingQueue.Queue();
      closed, count, pushed, popped := false, 0, [], [];
    }

    method Len() returns (n: nat)
      requires Valid()
      ensures n == if closed then 0 else |pushed| - |popped|
    {
      return count;
    }

    method Push(v: T)
      requires Valid()
      modifies this, buffer, buffer.buf
      ensures Valid() && (buffer.buf == old(buffer.buf) || fresh(buffer.buf))
      ensures pushed == (if closed then old(pushed) else old(pushed) + [v])
      ensures popped == old(popped) && closed == old(closed)
    {
      if !closed {
        buffer.Add(v);
        count := count + 1;
        pushed := pushed + [v];
      }
    }

    /** Peek and Remove under an open queue with a positive counter: neither panics, both are the head. */
    method Take() returns (v: Option<T>)
      requires Valid() && !closed && count > 0
      modifies this`count, this`popped, buffer, buffer.buf
      ensures Valid() && (buffer.buf == old(buffer.buf) || fresh(buffer.buf))
      ensures v.Some? && popped == old(popped) + [v.value]
    {
      v := buffer.Peek();
      var gone := buffer.Remove();
      assert gone == v;
      count := count - 1;
      popped := popped + [v.value];
    }

    /** One pass of Pop with the mutex held: it waits exactly while the queue is open and empty, returns
        nil exactly when it is closed, and otherwise hands out the next item. */
    method Pop() returns (r: Attempt<T>)
      requires Valid()
      modifies this`count, this`popped, buffer, buffer.buf
      ensures Valid() && (buffer.buf == old(buffer.buf) || fresh(buffer.buf))
      ensures r.Waits? <==> !closed && old(popped) == pushed
      ensures r == Returns(None) <==> closed
      ensures popped == old(popped) + (if r.Returns? && r.value.Some? then [r.value.value] else [])
    {
      if count == 0 && !closed {
        return Waits;
      }
      if closed {
        return Returns(None);
      }
      var v := Take();
      return Returns(v);
    }

    method TryPop() returns (v: Option<T>, ok: bool)
      requires Valid()
      modifies this`count, this`popped, buffer, buffer.buf
      ensures Valid() && (buffer.buf == old(buffer.buf) || fresh(buffer.buf))
      ensures ok <==> closed || old(popped) != pushed
      ensures v.Some? <==> !closed && old(popped) != pushed
      ensures popped == old(popped) + (if v.Some? then [v.value] else [])
    {
      v, ok := None, false;
      if count > 0 {
        v := Take();
        ok := true;
      } else if closed {
        ok := true;
      }
    }

    method Close()
      requires Valid()
      modifies this
      ensures Valid() && closed && pushed == old(pushed) && popped == old(popped)
    {
      if !closed {
        closed := true;
        count := 0;
      }
    }
  }
}
