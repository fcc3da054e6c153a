/**
 * The TCP socket seen by both scripts, as an abstract byte source and sink.
 *
 * Inbound, the peer's bytes arrive as a queue of segments. `recv(n)` hands
 * back the head segment when it fits in `n` bytes and otherwise its first
 * `n` bytes, leaving the tail at the head of the queue; once the queue is
 * empty the peer has closed and `recv` returns no bytes, as Python's does.
 * Any pattern in which each `recv(n)` returns between 1 and `n` bytes is the
 * behaviour of some queue. Outbound, every `send` is taken to write its
 * whole argument, which is appended to `outbox`.
 */
module Transport {
  import opened Wire

  /** `b''.join(blocks)`: the blocks' bytes, in order. */
  function Joined(blocks: seq<seq<byte>>): seq<byte>
  {
    if blocks == [] then [] else blocks[0] + Joined(blocks[1..])
  }

  lemma {:induction false} JoinedAppend(blocks: seq<seq<byte>>, block: seq<byte>)
    ensures Joined(blocks + [block]) == Joined(blocks) + block
    decreases |blocks|
  {
    if blocks == [] {
      assert blocks + [block] == [block];
    } else {
      assert (blocks + [block])[1..] == blocks[1..] + [block];
      JoinedAppend(blocks[1..], block);
    }
  }

  lemma {:induction false} JoinedConcat(a: seq<seq<byte>>, b: seq<seq<byte>>)
    ensures Joined(a + b) == Joined(a) + Joined(b)
    decreases |a|
  {
    if a == [] {
      assert a + b == b;
    } else {
      assert (a + b)[1..] == a[1..] + b;
      JoinedConcat(a[1..], b);
    }
  }

  /** A segment queue never holds an empty segment: an empty read means the
      peer closed, which is the empty queue. */
  predicate WellFormed(inbox: seq<seq<byte>>)
  {
    forall i :: 0 <= i < |inbox| ==> inbox[i] != []
  }

  lemma WellFormedEmpty(inbox: seq<seq<byte>>)
    requires WellFormed(inbox)
    ensures Joined(inbox) == [] <==> inbox == []
  {
    if inbox != [] {
      assert inbox[0] != [];
    }
  }

  /** What one `recv(n)` returns, and the queue it leaves behind. */
  datatype Delivery = Delivery(block: seq<byte>, rest: seq<seq<byte>>)

  /** `recv(n)`: a prefix of the pending bytes of at most `n` bytes; nothing
      is lost or reordered; the block is empty only for `recv(0)` or once the
      peer has closed. */
  function Deliver(inbox: seq<seq<byte>>, n: nat): (d: Delivery)
    ensures |d.block| <= n
    ensures d.block + Joined(d.rest) == Joined(inbox)
    ensures WellFormed(inbox) ==> WellFormed(d.rest)
    ensures WellFormed(inbox) ==> (d.block == [] <==> inbox == [] || n == 0)
  {
    if inbox == [] || n == 0 then
      Delivery([], inbox)
    else if |inbox[0]| <= n then
      Delivery(inbox[0], inbox[1..])
    else
      var rest := [inbox[0][n..]] + inbox[1..];
      assert rest[1..] == inbox[1..];
      Delivery(inbox[0][..n], rest)
  }

  /** The queue once the first `k` pending bytes have been read. */
  function Drop(inbox: seq<seq<byte>>, k: nat): (r: seq<seq<byte>>)
    requires k <= |Joined(inbox)|
    ensures Joined(r) == Joined(inbox)[k..]
    ensures WellFormed(inbox) ==> WellFormed(r)
    decreases |inbox|
  {
    if k == 0 then
      inbox
    else if |inbox[0]| <= k then
      Drop(inbox[1..], k - |inbox[0]|)
    else
      var rest := [inbox[0][k..]] + inbox[1..];
      assert rest[1..] == inbox[1..];
      rest
  }

  /** A `recv` leaves the queue that reading its block's bytes leaves. */
  lemma DeliverDrops(inbox: seq<seq<byte>>, n: nat)
    requires WellFormed(inbox)
    ensures |Deliver(inbox, n).block| <= |Joined(inbox)|
    ensures Deliver(inbox, n).rest == Drop(inbox, |Deliver(inbox, n).block|)
  {
    if inbox != [] && n != 0 {
      assert inbox[0] != [];
    }
  }

  /** Reading `a` bytes and then `b` more is reading `a + b` bytes. */
  lemma {:induction false} DropDrop(inbox: seq<seq<byte>>, a: nat, b: nat)
    requires a + b <= |Joined(inbox)|
    ensures Drop(Drop(inbox, a), b) == Drop(inbox, a + b)
    decreases |inbox|
  {
    if a != 0 {
      if |inbox[0]| <= a {
        DropDrop(inbox[1..], a - |inbox[0]|, b);
      } else if b != 0 {
        var once := [inbox[0][a..]] + inbox[1..];
        assert once[0] == inbox[0][a..] && once[1..] == inbox[1..];
        if |inbox[0]| > a + b {
          assert inbox[0][a..][b..] == inbox[0][a + b..];
        }
      }
    }
  }

  /** A connected TCP socket. */
  class Socket {
    /** Segments the peer has sent that this end has not read yet. */
    var inbox: seq<seq<byte>>
    /** The argument of every `send` so far, in call order. */
    var outbox: seq<seq<byte>>

    ghost predicate Valid()
      reads this
    {
      WellFormed(inbox)
    }

    /** The bytes still to be read. */
    function Stream(): seq<byte>
      reads this
    {
      Joined(inbox)
    }

    /** The bytes written so far. */
    function Written(): seq<byte>
      reads this
    {
      Joined(outbox)
    }

    /** `sock.recv(n)`. */
    method Recv(n: nat) returns (block: seq<byte>)
      requires Valid()
      modifies this
      ensures Valid()
      ensures block == Deliver(old(inbox), n).block
      ensures inbox == Deliver(old(inbox), n).rest
      ensures outbox == old(outbox)
    {
      var d := Deliver(inbox, n);
      block, inbox := d.block, d.rest;
    }

    /** `sock.send(data)`, taken to send all of `data`. */
    method Send(data: seq<byte>)
      modifies this
      ensures inbox == old(inbox)
      ensures outbox == old(outbox) + [data]
    {
      outbox := outbox + [data];
    }
  }
}
