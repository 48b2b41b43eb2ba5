/** The put area of the socket stream buffer and its flush loop (src/asio/basic_socket_streambuf.hpp).

    What the network answers to each asynchronous send, and whether the expiry timer fires while the
    loop waits for it, are inputs. A send that succeeds transfers at least one byte. */
module SocketFlush {
  import opened Basics
  import opened ByteRegions

  const BUFFER_SIZE: nat := 512

  datatype Error = OperationAborted | NetworkError(code: int)

  /** One answer: a failure, or a transfer of 1 + n bytes, cut to the size of the request. */
  datatype Answer = Answer(failure: Option<Error>, n: nat, timerExpires: bool)

  /** A network that takes every send, in time. */
  ghost predicate IsReliable(answers: nat -> Answer) {
    forall k :: answers(k).failure.None? && !answers(k).timerExpires
  }

  /** What a flush does, from the answers alone: the error it fails with, how many bytes go out, how many
      answers were used up by then, and whether the timer has expired. */
  datatype Flushed = Flushed(failure: Option<Error>, sent: nat, sends: nat, expired: bool) {
    predicate Ok() {
      failure.None?
    }
  }

  /** The flush of `size` bytes with `done` of them out, from the k-th answer on. */
  function FlushOf(answers: nat -> Answer, k: nat, expired: bool, size: nat, done: nat): Flushed
    requires done <= size
    decreases size - done
  {
    if done == size then Flushed(None, done, k, expired)
    else if expired then Flushed(Some(OperationAborted), done, k, expired)
    else if answers(k).failure.Some? then Flushed(answers(k).failure, done, k + 1, answers(k).timerExpires)
    else FlushOf(answers, k + 1, answers(k).timerExpires, size, done + Min(1 + answers(k).n, size - done))
  }

  /** A flush that fails has sent a proper part, and nothing more exactly if the timer had expired before it
      or its first send failed. It reports the failure of its last send, or an abort if that did not fail. */
  lemma {:induction false} FailedFlush(answers: nat -> Answer, k: nat, expired: bool, size: nat, done: nat)
    requires done <= size
    ensures var f := FlushOf(answers, k, expired, size, done);
            if f.Ok() then f.sent == size
            else
              && done <= f.sent < size && k <= f.sends && (f.sent == done <==> expired || answers(k).failure.Some?)
              && f.failure == if f.sends > k && answers(f.sends - 1).failure.Some? then answers(f.sends - 1).failure
                              else Some(OperationAborted)
    decreases size - done
  {
    if done < size && !expired && answers(k).failure.None? {
      FailedFlush(answers, k + 1, answers(k).timerExpires, size, done + Min(1 + answers(k).n, size - done));
    }
  }

  datatype Op = Put(c: Byte) | Sync | Unbuffer

  function PutsOf(op: Op): seq<Byte> {
    if op.Put? then [op.c] else []
  }

  function AllPuts(ops: seq<Op>, k: nat): seq<Byte>
    requires k <= |ops|
  {
    if k == 0 then [] else AllPuts(ops, k - 1) + PutsOf(ops[k - 1])
  }

  class SocketStreambuf {
    const putBuffer: array<Byte>
    const answers: nat -> Answer
    var sends: nat                // how many sends have been answered
    var unbuffered: bool
    var pptr: nat                 // pbase is 0
    var epptr: nat
    var ec: Option<Error>
    var bytesTransferred: nat
    var timerHasExpired: bool
    ghost var wire: seq<Byte>     // everything the network has taken

    ghost predicate Valid()
      reads this
    {
      && putBuffer.Length == BUFFER_SIZE
      && (if unbuffered then pptr == epptr == 0 else pptr <= epptr == BUFFER_SIZE)
    }

    /** The put area. */
    ghost function Pending(): seq<Byte>
      requires Valid()
      reads this, putBuffer
    {
      putBuffer[..pptr]
    }

    constructor (answers: nat -> Answer)
      ensures Valid() && fresh(putBuffer) && Pending() == [] && wire == [] && !unbuffered
      ensures sends == 0 && !timerHasExpired
      ensures this.answers == answers
    {
      putBuffer := new Byte[BUFFER_SIZE](_ => 0);
      this.answers := answers;
      sends, unbuffered, ec, bytesTransferred, timerHasExpired := 0, false, None, 0, false;
      pptr, epptr := 0, BUFFER_SIZE;
      wire := [];
    }

    /** async_send of the buffer and the wait for its handler. */
    method Send(ghost data: seq<Byte>, size: nat)
      requires size == |data| > 0
      modifies this`sends, this`ec, this`bytesTransferred, this`timerHasExpired, this`wire
      ensures ec.None? ==> 0 < bytesTransferred <= size && wire == old(wire) + data[..bytesTransferred]
      ensures ec.Some? ==> wire == old(wire)
      ensures sends == old(sends) + 1 && ec == answers(old(sends)).failure
      ensures ec.None? ==> bytesTransferred == Min(1 + answers(old(sends)).n, size)
      ensures timerHasExpired == (old(timerHasExpired) || answers(old(sends)).timerExpires)
    {
      var answer := answers(sends);
      sends := sends + 1;
      timerHasExpired := timerHasExpired || answer.timerExpires;
      ec := answer.failure;
      bytesTransferred := if ec.Some? then 0 else if answer.n < size then 1 + answer.n else size;
      wire := wire + data[..bytesTransferred];
    }

    /** What a flush does now. */
    ghost function Flushing(): Flushed
      requires Valid()
      reads this
    {
      FlushOf(answers, sends, timerHasExpired, pptr, 0)
    }

    /** The loop over the put area. It goes as the answers say; if it fails, `sent` bytes have gone out but
        the put area is kept whole. */
    method Flush() returns (ok: bool, ghost sent: nat)
      requires Valid() && !unbuffered
      modifies this`sends, this`ec, this`bytesTransferred, this`timerHasExpired, this`wire
      ensures Valid() && Pending() == old(Pending())
      ensures ok == old(Flushing()).Ok() && Flushed(if ok then None else ec, sent, sends, timerHasExpired) == old(Flushing())
      ensures sent <= |Pending()| && wire == old(wire) + Pending()[..sent]
      ensures ok ==> sent == |Pending()|
      ensures !ok ==> sent < |Pending()| && ec.Some?
      ensures old(timerHasExpired) && Pending() != [] ==> !ok && sent == 0 && ec == Some(OperationAborted)
      ensures IsReliable(answers) && !old(timerHasExpired) ==> ok && !timerHasExpired
    {
      var start := 0;
      sent := 0;
      while pptr - start > 0
        invariant sent == start <= pptr && wire == old(wire) + Pending()[..start]
        invariant old(Flushing()) == FlushOf(answers, sends, timerHasExpired, pptr, start)
        invariant old(timerHasExpired) ==> timerHasExpired && start == 0
        invariant IsReliable(answers) ==> timerHasExpired == old(timerHasExpired)
        decreases pptr - start
      {
        if timerHasExpired {
          ec := Some(OperationAborted);
          return false, sent;
        }
        ghost var data := putBuffer[start..pptr];
        Send(data, pptr - start);
        if ec.Some? {
          return false, sent;
        }
        SentPrefix(Pending(), start, bytesTransferred);
        start := start + bytesTransferred;
        sent := start;
      }
      ok := true;
    }

    /** Sends what is pending, then takes the next character; c == None is the end-of-file value. */
    method Overflow(c: Option<Byte>) returns (ok: bool, ghost sent: nat)
      requires Valid()
      modifies this, putBuffer
      ensures Valid() && unbuffered == old(unbuffered)
      ensures ok ==> sent == 0
      ensures ok ==> wire + Pending() == old(wire) + old(Pending()) + (if c.Some? then [c.value] else [])
      ensures ok && !unbuffered ==> wire == old(wire) + old(Pending())
      ensures !ok ==> ec.Some? && Pending() == old(Pending()) && sent <= |Pending()|
      ensures !ok ==> wire == old(wire) + Pending()[..sent] && (unbuffered || sent < |Pending()|)
      ensures !unbuffered ==> ok == old(Flushing()).Ok() && (!ok ==> sent == old(Flushing()).sent)
      ensures !unbuffered ==> sends == old(Flushing()).sends && timerHasExpired == old(Flushing()).expired
      ensures !unbuffered && !ok ==> ec == old(Flushing()).failure
      ensures unbuffered && c.Some? && !old(timerHasExpired) ==>
                && sends == old(sends) + 1 && ec == answers(old(sends)).failure && ok == ec.None?
                && wire == old(wire) + if ok then [c.value] else []
      ensures unbuffered && c.None? ==> ok && sends == old(sends) && wire == old(wire)
      ensures old(timerHasExpired) && (if unbuffered then c.Some? else old(Pending()) != []) ==>
                !ok && wire == old(wire) && ec == Some(OperationAborted)
      ensures IsReliable(answers) && !old(timerHasExpired) ==> ok && !timerHasExpired
    {
      sent := 0;
      if unbuffered {
        if c.None? {
          return true, 0;
        }
        if timerHasExpired {
          ec := Some(OperationAborted);
          return false, 0;
        }
        Send([c.value], 1);
        if ec.Some? {
          return false, 0;
        }
        return true, 0;
      }
      ok, sent := Flush();
      if !ok {
        return;
      }
      sent := 0;
      pptr, epptr := 0, putBuffer.Length;
      if c.None? {
        return;
      }
      putBuffer[pptr] := c.value;
      pptr := pptr + 1;
    }

    /** sputc of the standard stream buffer: into the put area while there is room, that is up to 512 bytes
        before anything is sent. */
    method PutByte(c: Byte) returns (ok: bool, ghost sent: nat)
      requires Valid()
      modifies this, putBuffer
      ensures Valid() && unbuffered == old(unbuffered)
      ensures ok ==> sent == 0 && wire + Pending() == old(wire) + old(Pending()) + [c]
      ensures !ok ==> Pending() == old(Pending()) && sent <= |Pending()| && wire == old(wire) + Pending()[..sent]
      ensures !unbuffered && |old(Pending())| < 512 ==> ok && wire == old(wire) && sends == old(sends)
      ensures !unbuffered && |old(Pending())| == 512 ==> ok == old(Flushing()).Ok() && sends == old(Flushing()).sends
      ensures old(pptr < epptr) ==> ok && wire == old(wire) && sends == old(sends) && timerHasExpired == old(timerHasExpired)
      ensures IsReliable(answers) && !old(timerHasExpired) ==> ok && !timerHasExpired
    {
      if pptr < epptr {
        putBuffer[pptr] := c;
        pptr := pptr + 1;
        ok, sent := true, 0;
        assert Pending() == old(Pending()) + [c];
      } else {
        ok, sent := Overflow(Some(c));
      }
    }

    /** setbuf(0, 0): refused while something is pending. */
    method SetUnbuffered() returns (ok: bool)
      requires Valid()
      modifies this
      ensures Valid() && wire == old(wire) && Pending() == old(Pending()) && timerHasExpired == old(timerHasExpired)
      ensures ok <==> old(Pending()) == []
      ensures unbuffered == (ok || old(unbuffered))
    {
      if pptr == 0 {
        unbuffered := true;
        pptr, epptr := 0, 0;
        return true;
      }
      return false;
    }

    method Execute(op: Op) returns (ok: bool, ghost sent: nat)
      requires Valid()
      modifies this, putBuffer
      ensures Valid() && sent <= |Pending()|
      ensures ok ==> sent == 0 && wire + Pending() == old(wire) + old(Pending()) + PutsOf(op)
      ensures !ok ==> Pending() == old(Pending()) && wire == old(wire) + Pending()[..sent]
      ensures IsReliable(answers) && !old(timerHasExpired) ==> ok && !timerHasExpired
    {
      match op {
        case Put(c) => ok, sent := PutByte(c);
        case Sync => ok, sent := Overflow(None);
        case Unbuffer =>
          var accepted := SetUnbuffered();  // a refused request leaves everything as it was
          ok, sent := true, 0;
      }
    }

    /** Any run up to its first failed flush. As long as nothing fails, the wire followed by the put
        area is all bytes put, in order. A failure leaves the put area whole although its first `sent`
        bytes are on the wire already. */
    method Run(ops: seq<Op>) returns (ok: bool, done: nat, ghost sent: nat)
      requires Valid()
      modifies this, putBuffer
      ensures Valid() && done <= |ops| && sent <= |Pending()|
      ensures wire + Pending()[sent..] == old(wire) + old(Pending()) + AllPuts(ops, done)
      ensures ok ==> done == |ops| && sent == 0
      ensures IsReliable(answers) && !old(timerHasExpired) ==> ok
    {
      ok, done, sent := true, 0, 0;
      ghost var all := wire + Pending();
      while done < |ops|
        invariant done <= |ops| && ok && sent == 0 && Valid() && wire + Pending() == all + AllPuts(ops, done)
        invariant IsReliable(answers) && !old(timerHasExpired) ==> !timerHasExpired
      {
        ghost var wire0 := wire;
        ok, sent := Execute(ops[done]);
        if !ok {
          SplitPending(wire0, Pending(), sent);
          return;
        }
        done := done + 1;
      }
      assert Pending()[0..] == Pending();
    }

    /** Flushing again after a failure sends the put area from its start: bytes that were already out go
        out twice. The wire is right exactly when the failed flush had sent nothing. */
    method FlushAgain(ghost all: seq<Byte>, ghost sent: nat) returns (ok: bool)
      requires Valid() && !unbuffered && sent <= |Pending()| && wire + Pending()[sent..] == all
      modifies this, putBuffer
      ensures Valid() && (ok ==> Pending() == []) && ok == old(Flushing()).Ok()
      ensures ok ==> wire == old(wire) + old(Pending()) && (wire == all <==> sent == 0)
    {
      ghost var sent';
      ghost var before, pending := wire, Pending();
      ok, sent' := Overflow(None);
      assert |before + pending| == |all| + sent;
      if ok {
        assert |wire + Pending()| == |before| + |pending|;
        assert Pending() == [];
        assert pending[0..] == pending;
      }
    }

    /** A flush that fails and one more, which gets through, perhaps with a new expiry time: the wire is
        right exactly if the timer had expired before the first or its first send failed, and otherwise
        some bytes are on it twice. */
    method FlushTwice(newExpiry: bool) returns (first: bool, second: bool)
      requires Valid() && !unbuffered
      modifies this, putBuffer
      ensures Valid() && first == old(Flushing()).Ok() && old(Flushing()).sent <= |old(Pending())|
      ensures !first ==>
                var f := old(Flushing());
                second == FlushOf(answers, f.sends, f.expired && !newExpiry, |old(Pending())|, 0).Ok()
      ensures !first && second ==> wire == old(wire) + old(Pending())[..old(Flushing()).sent] + old(Pending())
      ensures !first && second ==>
                (wire == old(wire) + old(Pending()) <==> old(timerHasExpired) || answers(old(sends)).failure.Some?)
    {
      FailedFlush(answers, sends, timerHasExpired, pptr, 0);
      assert old(Flushing()).sent <= |Pending()|;
      ghost var sent;
      ghost var all := wire + Pending();
      first, sent := Overflow(None);
      second := first;
      if !first {
        if newExpiry {
          timerHasExpired := false;
        }
        SplitPending(old(wire), Pending(), sent);
        second := FlushAgain(all, sent);
      }
    }
  }

  /** Such bytes: two are pending, one gets out, the network fails once, and the next flush gets through. */
  method SendsAByteTwice() returns (b: SocketStreambuf, first: bool, second: bool)
    ensures !first && second && b.wire == [1, 1, 2]
  {
    b := new SocketStreambuf(k => Answer(if k == 1 then Some(NetworkError(0)) else None, if k == 0 then 0 else 1, false));
    var _, _ := b.PutByte(1);
    assert b.wire + b.Pending() == [1];
    assert |b.Pending()| == 1;
    var _, _ := b.PutByte(2);
    assert b.wire + b.Pending() == [1, 2];
    assert b.Pending() == [1, 2];
    assert FlushOf(b.answers, 1, false, 2, 1) == Flushed(Some(NetworkError(0)), 1, 2, false);
    assert b.Flushing() == Flushed(Some(NetworkError(0)), 1, 2, false);
    assert FlushOf(b.answers, 2, false, 2, 0) == Flushed(None, 2, 3, false);
    first, second := b.FlushTwice(false);
    assert b.wire == [] + [1, 2][..1] + [1, 2];
  }

  lemma SentPrefix(pending: seq<Byte>, start: nat, n: nat)
    requires start + n <= |pending|
    ensures pending[..start] + pending[start..][..n] == pending[..start + n]
  {
  }

  lemma SplitPending(wire: seq<Byte>, pending: seq<Byte>, sent: nat)
    requires sent <= |pending|
    ensures wire + pending[..sent] + pending[sent..] == wire + pending
  {
  }
}
