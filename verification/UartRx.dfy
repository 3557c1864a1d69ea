/**
 The receive half of the UART driver (platform/stm32/peripheral/uart.c): a ring filled by the interrupt
 handler and emptied by a task, without a lock.
 */
module UartRx {
  import opened Basics

  class Ring {
    const buf: array<byte>
    const delimiter: Option<byte>  // frame_delimiter, when IF_SERIAL_HAS_FRAME_DELIMITER is set
    var head: nat
    var tail: nat
    var hasTask: bool              // rx_task != NULL

    ghost var queue: seq<byte>     // what the ring holds, oldest first
    ghost var received: seq<byte>  // every byte the interrupt handler ever stored
    ghost var delivered: seq<byte> // every byte handed to a reader
    ghost var calls: seq<seq<byte>> // what had been received when each call of a reader was made

    /** The slot `k` places after `i`. */
    function Slot(i: nat, k: nat): nat {
      if i + k < buf.Length then i + k else i + k - buf.Length
    }

    /** The ring holds the queue. */
    ghost predicate Shape()
      reads this, buf
    {
      && 0 < buf.Length
      && tail < buf.Length && |queue| < buf.Length && head == Slot(tail, |queue|)
      && (forall k :: 0 <= k < |queue| ==> buf[Slot(tail, k)] == queue[k])
    }

    /** Nothing has been lost. */
    ghost predicate Valid()
      reads this, buf
    {
      Shape() && delivered + queue == received
    }

    /** One more byte fits. */
    ghost predicate HasRoom()
      reads this, buf
    {
      |queue| + 1 < buf.Length
    }

    constructor (size: nat, delimiter: Option<byte>)
      requires 0 < size
      ensures Valid() && fresh(buf) && buf.Length == size && this.delimiter == delimiter
      ensures received == delivered == [] && calls == []
    {
      buf := new byte[size];
      this.delimiter := delimiter;
      head, tail, hasTask := 0, 0, false;
      queue, received, delivered, calls := [], [], [], [];
    }

    lemma DeliveredFirst()
      requires Valid()
      ensures delivered <= received
    {
      assert received[..|delivered|] == delivered;
    }

    lemma Wrap(x: nat, n: nat)
      requires 0 < n && x < 2 * n
      ensures x % n == if x < n then x else x - n
    {
    }

    /** The RXNE branch of uart_irqhandler stores the byte and moves the head on, whether there is room or not. */
    method Store(c: byte)
      requires Valid()
      modifies this`head, this`queue, this`received, buf
      ensures Shape() && received == old(received) + [c]
      ensures if old(HasRoom()) then Valid() && queue == old(queue) + [c] else queue == []
    {
      buf[head] := c;
      Wrap(head + 1, buf.Length);
      head := (head + 1) % buf.Length;
      queue := if |queue| + 1 < buf.Length then queue + [c] else [];
      received := received + [c];
      assert old(HasRoom()) ==> delivered + queue == received;
    }

    /** Whether it then wakes up the reader. */
    method WakesUp(c: byte) returns (wakeup: bool)
      requires Shape()
      ensures var remain := if queue == [] then 0 else buf.Length - |queue|;
        wakeup == (hasTask && (delimiter.None? || delimiter == Some(c) || remain < buf.Length / 4))
    {
      wakeup := delimiter.None?;
      if !wakeup {
        wakeup := delimiter == Some(c);
      }
      if !wakeup {
        Wrap(tail - head + buf.Length, buf.Length);
        var remain := (tail - head + buf.Length) % buf.Length;
        wakeup := remain < buf.Length / 4;
      }
      wakeup := wakeup && hasTask;
    }

    /**
     The RXNE branch of uart_irqhandler.  It has no overflow check: a byte that does not fit makes the ring look
     empty, and all it held is lost.
     */
    method RxIrq(c: byte) returns (wakeup: bool)
      requires Valid()
      modifies this`head, this`queue, this`received, buf
      ensures Shape() && received == old(received) + [c]
      ensures if old(HasRoom()) then Valid() && queue == old(queue) + [c] else queue == []
      ensures
        var remain := if old(HasRoom()) then buf.Length - |queue| else 0;
        wakeup == (hasTask && (delimiter.None? || delimiter == Some(c) || remain < buf.Length / 4))
    {
      Store(c);
      wakeup := WakesUp(c);
    }

    /** Any number of receive interrupts, at any point of the reader's code, that leave room in the ring. */
    method Preempt()
      requires Valid()
      modifies this`head, this`queue, this`received, buf
      ensures Valid() && old(queue) <= queue && old(received) <= received
    {
      var n: int := *;
      var i := 0;
      while i < n
        invariant Valid() && old(queue) <= queue && old(received) <= received
      {
        Wrap(head - tail + buf.Length, buf.Length);
        var occupied := (head - tail + buf.Length) % buf.Length;
        if occupied + 1 < buf.Length {
          var c: byte := *;
          var _ := RxIrq(c);
        }
        i := i + 1;
      }
    }

    /** One pass of the read loop: fetch the oldest byte, then release its slot. */
    method Take() returns (c: byte)
      requires Valid() && queue != []
      modifies this`head, this`tail, this`queue, this`received, this`delivered, buf
      ensures Valid() && c == old(queue[0])
      ensures old(received) <= received && delivered == old(delivered) + [c]
    {
      Preempt();
      c := buf[tail];
      assert c == queue[0];
      Preempt();
      Wrap(tail + 1, buf.Length);
      tail := (tail + 1) % buf.Length;
      queue := queue[1..];
      delivered := delivered + [c];
      assert delivered + queue == received;
      Preempt();
    }

    /** The read loop of uart_rx_read.  `out` is what it stored, byte by byte, from index `at` on. */
    method ReadLoop(dst: array<byte>, at: nat, dstSize: nat) returns (n: nat, ghost out: seq<byte>)
      requires Valid() && dst != buf && at + dstSize <= dst.Length
      modifies this`head, this`tail, this`queue, this`received, this`delivered, buf, dst
      ensures Valid() && old(received) <= received
      ensures n == |out| <= dstSize && delivered == old(delivered) + out
      ensures forall k {:trigger out[k]} :: 0 <= k < n ==> dst[at + k] == out[k]
      ensures forall k :: 0 <= k < at || at + n <= k < dst.Length ==> dst[k] == old(dst[k])
      ensures forall k :: 0 <= k < n - 1 ==> delimiter != Some(out[k])
      ensures n < dstSize && (n == 0 || delimiter != Some(out[n - 1])) ==> old(received) <= delivered
    {
      n, out := 0, [];
      while tail != head && n < dstSize
        invariant Valid() && old(received) <= received
        invariant n == |out| <= dstSize && delivered == old(delivered) + out
        invariant forall k {:trigger out[k]} :: 0 <= k < n ==> dst[at + k] == out[k]
        invariant forall k :: 0 <= k < n ==> delimiter != Some(out[k])
        invariant forall k :: 0 <= k < at || at + n <= k < dst.Length ==> dst[k] == old(dst[k])
        decreases dstSize - n
      {
        var c := Take();
        dst[at + n] := c;
        n, out := n + 1, out + [c];
        if delimiter == Some(c) {
          return;
        }
      }
    }

    /** uart_rx_read, with interrupts between any two accesses to shared memory. */
    method RxRead(dst: array<byte>, at: nat, dstSize: nat) returns (n: nat)
      requires Valid() && dst != buf && at + dstSize <= dst.Length
      modifies this, buf, dst
      ensures Valid() && old(received) <= received
      ensures n <= dstSize && delivered == old(delivered) + dst[at..at + n]
      ensures dst[..at] == old(dst[..at]) && dst[at + n..] == old(dst[at + n..])
      // a delimiter can only be the last byte of a read
      ensures forall k :: at <= k < at + n - 1 ==> delimiter != Some(dst[k])
      // a read that is neither full nor ended by a delimiter leaves nothing behind that was there before
      ensures n < dstSize && (n == 0 || delimiter != Some(dst[at + n - 1])) ==> old(received) <= delivered
      // the interrupt handler goes on waking up the task that read last
      ensures hasTask && calls == old(calls) + [old(received)]
    {
      hasTask := true;
      calls := calls + [received];
      if head == tail {
        Preempt();
      }
      Preempt();
      ghost var out;
      n, out := ReadLoop(dst, at, dstSize);
      assert dst[at..at + n] == out;
    }
  }
}
