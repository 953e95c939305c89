/** The interrupt queue of intq.c: a ring of 64 bytes that holds up to 63. */
module InterruptQueue {
  import opened Common

  const BUFSIZE: nat := 64

  function Next(pos: nat): nat {
    (pos + 1) % BUFSIZE
  }

  /** One position stays free, so that full and empty differ. */
  predicate IsFull(bytes: seq<Byte>) {
    |bytes| == BUFSIZE - 1
  }

  /** "notFull" and "notEmpty" are the threads that wait for room and for a byte. */
  class Intq {
    var buf: array<Byte>
    var head: nat
    var tail: nat
    var notFull: Option<Tid>
    var notEmpty: Option<Tid>

    ghost predicate Valid()
      reads this
    {
      buf.Length == BUFSIZE && head < BUFSIZE && tail < BUFSIZE
    }

    /** The bytes in the order in which they will be removed. */
    ghost function Contents(): (s: seq<Byte>)
      reads this, buf
      requires Valid()
    {
      if tail <= head then buf[tail..head] else buf[tail..] + buf[..head]
    }

    constructor ()
      ensures Valid() && fresh(buf) && Contents() == [] && notFull == notEmpty == None
    {
      buf := new Byte[BUFSIZE](_ => 0);
      head, tail := 0, 0;
      notFull, notEmpty := None, None;
    }

    method Empty() returns (r: bool)
      requires Valid()
      ensures r == (Contents() == [])
    {
      r := head == tail;
    }

    method Full() returns (r: bool)
      requires Valid()
      ensures r == IsFull(Contents())
    {
      r := Next(head) == tail;
    }

    /** One pass of intq_getc() by thread "me": the oldest byte leaves, and a thread that waits for room is
        woken; or there is none, and the thread waits for one. */
    method Get(me: Tid) returns (b: Option<Byte>, woken: Option<Tid>)
      requires Valid()
      modifies this`tail, this`notFull, this`notEmpty
      ensures Valid()
      ensures if old(Contents()) == []
        then b == woken == None && Contents() == [] && notEmpty == Some(me) && notFull == old(notFull)
        else b == Some(old(Contents())[0]) && Contents() == old(Contents())[1..] && !IsFull(Contents())
             && woken == old(notFull) && notFull == None && notEmpty == old(notEmpty)
    {
      b, woken := None, None;
      var empty := Empty();
      if empty {
        notEmpty := Some(me);
        return;
      }
      b := Some(buf[tail]);
      assert Next(tail) == if tail == 63 then 0 else tail + 1;
      assert tail == 63 ==> buf[tail..] == [buf[tail]];
      tail := Next(tail);
      woken, notFull := notFull, None;
    }

    /** One pass of intq_putc() by thread "me": the byte joins the end, and a thread that waits for one is
        woken; or there is no room, and the thread waits for it. */
    method Put(me: Tid, b: Byte) returns (ok: bool, woken: Option<Tid>)
      requires Valid()
      modifies this`head, this`notFull, this`notEmpty, buf
      ensures Valid() && ok == !old(IsFull(Contents()))
      ensures if ok
        then Contents() == old(Contents()) + [b] && woken == old(notEmpty) && notEmpty == None && notFull == old(notFull)
        else Contents() == old(Contents()) && woken == None && notFull == Some(me) && notEmpty == old(notEmpty)
    {
      var full := Full();
      if full {
        notFull := Some(me);
        return false, None;
      }
      buf[head] := b;
      head := Next(head);
      woken, notEmpty := notEmpty, None;
      ok := true;
    }
  }
}
