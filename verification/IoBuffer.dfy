/** A flat buffer that bytes enter at the tail and leave at the head, and that makes room by moving what is
    left to the front. */
module IoBuffers {
  import opened Bytes

  function Min(a: nat, b: nat): nat {
    if a < b then a else b
  }

  class IoBuffer {
    const buffer: array<Byte>
    var head: nat
    var tail: nat

    // What the buffer has moved to make room, and what has been put into it, since it was made; and how much
    // of that was in when it moved last.
    ghost var moved: nat
    ghost var committed: nat
    ghost var lastMove: nat

    ghost predicate Valid()
      reads this
    {
      head <= tail <= buffer.Length
    }

    /** The bytes that are in and not yet consumed. */
    ghost function Contents(): seq<Byte>
      reads this, buffer
      requires Valid()
    {
      buffer[..tail][head..]
    }

    constructor (size: nat)
      ensures Valid() && fresh(buffer) && buffer.Length == size
      ensures head == tail == 0 && Contents() == [] && moved == committed == lastMove == 0
    {
      buffer := new Byte[size];
      head, tail := 0, 0;
      moved, committed, lastMove := 0, 0, 0;
    }

    function Size(): nat
      reads this
      requires Valid()
    {
      tail - head
    }

    function Capacity(): nat
      reads this
      requires Valid()
    {
      buffer.Length - Size()
    }

    function FreeSize(): nat
      reads this
      requires Valid()
    {
      buffer.Length - tail
    }

    /** Makes as much room as there is and offers buffer[at..at + size] to be written.  The contents stay;
        they move to the front exactly when n does not fit behind them. */
    method Prepare(n: nat) returns (at: nat, size: nat)
      requires Valid()
      modifies this`head, this`tail, this`moved, this`lastMove, buffer
      ensures Valid() && Contents() == old(Contents())
      ensures at == tail && size == Min(n, Capacity()) && at + size <= buffer.Length
      ensures if n > old(FreeSize())
              then head == 0 && moved == old(moved) + old(Size()) && lastMove == committed
              else head == old(head) && moved == old(moved) && lastMove == old(lastMove) && buffer[..] == old(buffer[..]) && size == n
    {
      var n := n;
      if n > FreeSize() {
        var size := tail - head;
        forall i | 0 <= i < size {
          buffer[i] := buffer[head + i];
        }
        tail := size;
        head := 0;
        moved, lastMove := moved + size, committed;
        assert buffer[..tail] == old(buffer[..tail][head..]);
      }
      if n > Capacity() {
        n := Capacity();
      }
      return tail, n;
    }

    /** Takes in the n bytes written behind the tail. */
    method Commit(n: nat)
      requires Valid() && tail + n <= buffer.Length
      modifies this`tail, this`committed
      ensures Valid() && tail == old(tail) + n && committed == old(committed) + n
      ensures Contents() == old(Contents()) + buffer[old(tail)..tail]
    {
      tail := tail + n;
      committed := committed + n;
    }

    /** Drops the first n bytes, or all there are; an empty buffer starts again at the front. */
    method Consume(n: nat)
      requires Valid()
      modifies this`head, this`tail
      ensures Valid() && Contents() == old(Contents())[Min(n, old(Size()))..]
      ensures if n < old(Size()) then head == old(head) + n && tail == old(tail) else head == tail == 0
    {
      head := head + n;
      if head >= tail {
        head, tail := 0, 0;
      }
    }

    method Clear()
      requires Valid()
      modifies this`head, this`tail
      ensures Valid() && Contents() == [] && head == tail == 0
    {
      head, tail := 0, 0;
    }
  }
}
