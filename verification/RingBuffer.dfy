/**
 * The byte queue of firmware/lib/rbuf/src/rbuf.c, held against a bounded
 * first-in first-out queue of C chars.
 */
module RingBuffer {

  import opened Prelude

  type Byte = b: nat | b < 256
  type Char = c: int | -128 <= c < 128

  /** Storing a char in a uint8_t, and reading it back. */
  function Stored(c: Char): Byte {
    if c < 0 then c + 256 else c
  }

  function Loaded(b: Byte): Char {
    if b < 128 then b else b - 256
  }

  // ------------------------------------------------------------- the queue specified

  datatype Op = Put(c: Char) | Get | Reset
  datatype Reply = Done | Refused | Got(c: Char)

  function Step(capacity: nat, q: seq<Char>, op: Op): (seq<Char>, Reply) {
    match op
    case Put(c) => if |q| < capacity then (q + [c], Done) else (q, Refused)
    case Get => if q == [] then (q, Refused) else (q[1..], Got(q[0]))
    case Reset => ([], Done)
  }

  function After(capacity: nat, q: seq<Char>, ops: seq<Op>): seq<Char>
    decreases |ops|
  {
    if ops == [] then q else After(capacity, Step(capacity, q, ops[0]).0, ops[1..])
  }

  function Replies(capacity: nat, q: seq<Char>, ops: seq<Op>): (r: seq<Reply>)
    ensures |r| == |ops|
    decreases |ops|
  {
    if ops == [] then []
    else [Step(capacity, q, ops[0]).1] + Replies(capacity, Step(capacity, q, ops[0]).0, ops[1..])
  }

  /** The chars taken in, by the replies. */
  function Accepted(ops: seq<Op>, replies: seq<Reply>): seq<Char>
    requires |ops| == |replies|
  {
    if ops == [] then []
    else (if ops[0].Put? && replies[0].Done? then [ops[0].c] else []) + Accepted(ops[1..], replies[1..])
  }

  function Delivered(replies: seq<Reply>): seq<Char> {
    if replies == [] then [] else (if replies[0].Got? then [replies[0].c] else []) + Delivered(replies[1..])
  }

  /** Without a reset, what went in is what came out and what is still there, in the same order. */
  lemma {:induction false} NothingLostOrReordered(capacity: nat, q: seq<Char>, ops: seq<Op>)
    requires Reset !in ops
    ensures q + Accepted(ops, Replies(capacity, q, ops))
         == Delivered(Replies(capacity, q, ops)) + After(capacity, q, ops)
    decreases |ops|
  {
    if ops == [] {
    } else {
      var (next, reply) := Step(capacity, q, ops[0]);
      var replies := Replies(capacity, q, ops);
      assert ops[0] in ops;
      assert replies[1..] == Replies(capacity, next, ops[1..]);
      NothingLostOrReordered(capacity, next, ops[1..]);
      var more, out := Accepted(ops[1..], replies[1..]), Delivered(replies[1..]);
      hide Replies, After;
      match ops[0]
      case Put(c) =>
        if reply.Done? {
          assert q + ([c] + more) == next + more;
        } else {
          assert q + ([] + more) == next + more;
        }
      case Get =>
        if reply.Got? {
          assert q == [q[0]] + next;
          assert q + more == [q[0]] + (next + more);
          assert [q[0]] + (out + After(capacity, next, ops[1..])) == ([q[0]] + out) + After(capacity, next, ops[1..]);
        } else {
          assert Accepted(ops, replies) == more && Delivered(replies) == out;
        }
    }
  }

  // ------------------------------------------------------------------ the ring buffer

  function Wrapped(i: nat, n: nat): nat {
    if i < n then i else i - n
  }

  lemma NextCell(i: nat, n: nat)
    requires i < n
    ensures (i + 1) % n == Wrapped(i + 1, n)
  {
    if i + 1 < n {
      QuotientIs(i + 1, n, 0, i + 1);
    } else {
      QuotientIs(n, n, 1, 0);
    }
  }

  /** The chars in a number of cells from a tail on, around the end. */
  function Ring(cells: seq<Byte>, tail: nat, count: nat): (q: seq<Char>)
    requires tail < |cells| && count <= |cells|
    ensures |q| == count && forall i :: 0 <= i < count ==> q[i] == Loaded(cells[Wrapped(tail + i, |cells|)])
  {
    seq<Char>(count, i requires 0 <= i < count => Loaded(cells[Wrapped(tail + i, |cells|)]))
  }

  lemma RingPut(cells: seq<Byte>, tail: nat, count: nat, c: Char)
    requires tail < |cells| && count < |cells|
    ensures Ring(cells[Wrapped(tail + count, |cells|) := Stored(c)], tail, count + 1) == Ring(cells, tail, count) + [c]
  {
  }

  lemma RingGet(cells: seq<Byte>, tail: nat, count: nat)
    requires tail < |cells| && 0 < count <= |cells|
    ensures Ring(cells, tail, count)[0] == Loaded(cells[tail])
    ensures Ring(cells, Wrapped(tail + 1, |cells|), count - 1) == Ring(cells, tail, count)[1..]
  {
  }

  class RBuf {
    var buffer: array<Byte>
    var size: nat
    var head: nat
    var tail: nat
    var full: bool

    ghost predicate Valid()
      reads this
    {
      buffer.Length == size && head < size && tail < size && (full ==> head == tail)
    }

    function Count(): nat
      requires Valid()
      reads this
    {
      if full then size else if head >= tail then head - tail else size + head - tail
    }

    ghost function Queue(): (q: seq<Char>)
      requires Valid()
      reads this, buffer
      ensures |q| == Count() <= size
    {
      Ring(buffer[..], tail, Count())
    }

    constructor (buf: array<Byte>)
      requires buf.Length > 0
      ensures Valid() && buffer == buf && Queue() == []
    {
      buffer, size := buf, buf.Length;
      head, tail, full := 0, 0, false;
    }

    method Reset()
      requires Valid()
      modifies this`head, this`tail, this`full
      ensures Valid() && Queue() == []
    {
      head, tail, full := 0, 0, false;
    }

    method Put(c: Char) returns (status: int)
      requires Valid()
      modifies this`head, this`full, buffer
      ensures Valid()
      ensures status == if |old(Queue())| < size then 0 else -1
      ensures Queue() == if |old(Queue())| < size then old(Queue()) + [c] else old(Queue())
    {
      if !full {
        RingPut(buffer[..], tail, Count(), c);
        NextCell(head, size);
        ghost var cells := buffer[..][head := Stored(c)];
        buffer[head] := Stored(c);
        assert buffer[..] == cells;
        head := (head + 1) % size;
        full := head == tail;
        return 0;
      }
      return -1;
    }

    method Get() returns (status: int, data: Option<Char>)
      requires Valid()
      modifies this`tail, this`full
      ensures Valid()
      ensures if old(Queue()) == [] then status == -1 && data == None && Queue() == []
              else status == 0 && data == Some(old(Queue())[0]) && Queue() == old(Queue())[1..]
    {
      if !(!full && head == tail) {
        RingGet(buffer[..], tail, Count());
        NextCell(tail, size);
        data := Some(Loaded(buffer[tail]));
        ghost var was := Count();
        tail := (tail + 1) % size;
        full := false;
        hide Ring, Loaded, Wrapped;
        assert Count() == was - 1;
        return 0, data;
      }
      return -1, None;
    }

    method Empty() returns (r: bool)
      requires Valid()
      ensures r <==> Queue() == []
    {
      r := !full && head == tail;
    }

    method Full() returns (r: bool)
      requires Valid()
      ensures r <==> |Queue()| == size
    {
      r := full;
    }

    method Size() returns (n: nat)
      requires Valid()
      ensures n == |Queue()|
    {
      n := size;
      if !full {
        if head >= tail {
          n := head - tail;
        } else {
          n := size + head - tail;
        }
      }
    }

    method Apply(op: Op) returns (reply: Reply)
      requires Valid()
      modifies this`head, this`tail, this`full, buffer
      ensures Valid()
      ensures (Queue(), reply) == Step(size, old(Queue()), op)
    {
      match op {
        case Put(c) =>
          var status := Put(c);
          reply := if status == 0 then Done else Refused;
        case Get =>
          var status, data := Get();
          reply := if status == 0 then Got(data.value) else Refused;
        case Reset =>
          Reset();
          reply := Done;
      }
    }

    /** Every sequence of operations is answered as the queue answers it. */
    method Run(ops: seq<Op>) returns (replies: seq<Reply>)
      requires Valid()
      modifies this`head, this`tail, this`full, buffer
      ensures Valid()
      ensures replies == Replies(size, old(Queue()), ops)
      ensures Queue() == After(size, old(Queue()), ops)
    {
      replies := [];
      var i := 0;
      while i < |ops|
        invariant 0 <= i <= |ops| && Valid()
        invariant replies + Replies(size, Queue(), ops[i..]) == Replies(size, old(Queue()), ops)
        invariant After(size, Queue(), ops[i..]) == After(size, old(Queue()), ops)
      {
        var reply := Apply(ops[i]);
        assert ops[i..][1..] == ops[i + 1..];
        replies := replies + [reply];
        i := i + 1;
      }
    }
  }
}
