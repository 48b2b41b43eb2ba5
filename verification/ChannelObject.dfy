/** The channel as the object the program updates in place (src/Channel.cpp, src/Object.hpp), proved
    against the steps of ChannelLifetime. */
module ChannelObject {
  import opened Basics
  import opened ChannelLifetime
  import opened ChannelTraffic

  class TcpChannel {
    // fields of the source
    var referenceCount: int
    var txPending: int
    // the library's side: socket.is_open() and the operations it has pending for this channel
    var socketIsOpen: bool
    var timerWaits: Ops
    var socketReads: Ops
    var socketWrites: Ops
    // who else refers to the channel
    var ptrs: nat
    var acceptState: Accept
    // deletion, and accesses after it
    ghost var deletions: nat
    ghost var misused: bool

    ghost function State(): Channel
      reads this
    {
      Channel(referenceCount, txPending, socketIsOpen, timerWaits, socketReads, socketWrites,
              ptrs, acceptState, deletions, misused)
    }

    /** A new channel in the hands of listen: `keep` ptrs of createChannel, the one of the accept
        handler and the local one, which goes at the end. */
    constructor ForAccept(keep: nat)
      ensures State() == Created(keep)
    {
      referenceCount, txPending, socketIsOpen := 0, 0, false;
      timerWaits, socketReads, socketWrites := NO_OPS, NO_OPS, NO_OPS;
      ptrs, acceptState, deletions, misused := keep, Waiting, 0, false;
      new;
      for i := 0 to keep
        invariant State() == Created(keep).(referenceCount := i)
      {
        AddReference();  // kept by createChannel
      }
      AddReference();  // the local ptr
      AddReference();  // its copy in the handler
      RemoveReference();
    }

    ghost method Touch()
      modifies this`misused
      ensures misused == (old(misused) || deletions > 0)
    {
      misused := misused || deletions > 0;
    }

    method AddReference()
      modifies this`referenceCount, this`misused
      ensures State() == ChannelLifetime.AddReference(old(State()))
    {
      Touch();
      referenceCount := referenceCount + 1;
    }

    method RemoveReference()
      modifies this`referenceCount, this`misused, this`deletions
      ensures State() == ChannelLifetime.RemoveReference(old(State()))
    {
      Touch();
      var before := referenceCount;
      referenceCount := before - 1;
      if before == 1 {
        deletions := deletions + 1;
      }
    }

    /** timer.expires_from_now, which cancels pending waits, and timer.async_wait. */
    method WaitForTimeout()
      modifies this`timerWaits
      ensures timerWaits == old(timerWaits).Cancel().Start(true, None)
    {
      timerWaits := timerWaits.Cancel();
      timerWaits := timerWaits.Start(true, None);
    }

    /** now is the result of a write that is performed at once. */
    method SendData(now: Option<Result>)
      modifies this
      ensures State() == ChannelLifetime.SendData(old(State()), now)
      ensures IsStarted(socketIsOpen, now, old(socketWrites), socketWrites) && IsRestarted(old(timerWaits), timerWaits)
      ensures txPending == old(txPending) + 1 && referenceCount == old(referenceCount) + 2
    {
      SendStartsAWrite(State(), now);
      AddReference();
      WaitForTimeout();
      AddReference();
      txPending := txPending + 1;
      socketWrites := socketWrites.Start(socketIsOpen, now);
    }

    method Receive(now: Option<Result>)
      modifies this
      ensures State() == ChannelLifetime.Receive(old(State()), now)
      ensures IsStarted(socketIsOpen, now, old(socketReads), socketReads) && IsRestarted(old(timerWaits), timerWaits)
      ensures referenceCount == old(referenceCount) + 2
    {
      ReceiveStartsARead(State(), now);
      AddReference();
      WaitForTimeout();
      AddReference();
      socketReads := socketReads.Start(socketIsOpen, now);
    }

    /** onError is what the callback does if closing the socket fails. */
    method Close(onError: seq<Act>)
      modifies this
      ensures State() == Do(old(State()), Act.Close(onError))
      decreases onError, 2
    {
      Touch();
      if socketIsOpen {
        timerWaits := timerWaits.Cancel();
        socketReads, socketWrites := socketReads.Cancel(), socketWrites.Cancel();
        socketIsOpen := false;
        PerformActs(onError);
        RemoveReference();
      }
    }

    method PerformAct(act: Act)
      modifies this
      ensures State() == Do(old(State()), act)
      decreases act, 0
    {
      match act {
        case Send(now) => SendData(now);
        case Close(onError) => Close(onError);
        case AddHandle =>
          ptrs := ptrs + 1;
          AddReference();
        case DropHandle =>
          if ptrs > 0 {
            ptrs := ptrs - 1;
            RemoveReference();
          }
      }
    }

    method PerformActs(acts: seq<Act>)
      modifies this
      ensures State() == Perform(old(State()), acts)
      decreases acts, 1
    {
      var i := 0;
      while i < |acts|
        invariant i <= |acts| && Perform(State(), acts[i..]) == Perform(old(State()), acts)
      {
        assert acts[i..][0] == acts[i] && acts[i..][1..] == acts[i + 1..];
        PerformAct(acts[i]);
        i := i + 1;
      }
    }

    method OnWaitDone(r: Result, onTimeout: seq<Act>)
      requires r in timerWaits.queued
      modifies this
      ensures State() == WaitHandler(old(State()), r, onTimeout)
    {
      timerWaits := timerWaits.Take(r);
      Touch();
      if r.Success? {
        PerformActs(onTimeout);
      }
      RemoveReference();
    }

    /** The handler of a write up to the report of an error. */
    method ReportWrite(r: Result, onError: seq<Act>)
      requires r in socketWrites.queued
      modifies this
      ensures State() == WriteReported(old(State()), r, onError)
    {
      socketWrites := socketWrites.Take(r);
      Touch();
      txPending := txPending - 1;
      if !r.Success? {
        PerformActs(onError);
      }
    }

    method OnWriteDone(r: Result, onError: seq<Act>, onReadyToSend: seq<Act>)
      requires r in socketWrites.queued
      modifies this
      ensures State() == WriteHandler(old(State()), r, onError, onReadyToSend)
    {
      ReportWrite(r, onError);
      if txPending == 0 {
        PerformActs(onReadyToSend);
      }
      RemoveReference();
    }

    /** acts is what onShutdown, onError or onData does, whichever is called. Afterwards the next read is
        pending exactly if this one was successful. */
    method OnReadDone(r: Result, now: Option<Result>, acts: seq<Act>)
      requires r in socketReads.queued
      modifies this
      ensures State() == ReadHandler(old(State()), r, now, acts)
      ensures old(Shape(State())) ==> socketReads.Total() == if r.Success? then 1 else 0
    {
      if Shape(State()) {
        ReadsAfterRead(State(), r, now, acts);
      }
      socketReads := socketReads.Take(r);
      Touch();
      if !r.Success? {
        if r.Aborted? {
          // nothing to do
        } else {
          PerformActs(acts);
        }
      } else {
        Receive(now);
        PerformActs(acts);
      }
      RemoveReference();
    }

    method OnAccepted(onConnect: seq<Act>, now: Option<Result>)
      modifies this
      ensures State() == AcceptHandler(old(State()), onConnect, now)
      ensures old(acceptState.Accepted? && Healthy(State())) ==> socketReads.Total() == 1
    {
      if acceptState.Accepted? && Healthy(State()) {
        ConnectStartsReading(State(), onConnect, now);
      }
      var accepted := acceptState.Accepted?;
      acceptState := Handled;
      if accepted {
        AddReference();
        PerformActs(onConnect);
        Receive(now);
      }
      RemoveReference();  // the handler's ptr is destroyed
    }

    method Handle(e: Event)
      requires Enabled(State(), e)
      modifies this
      ensures State() == Step(old(State()), e)
    {
      match e {
        case Outside(act) => PerformAct(act);
        case WaitExpires => timerWaits := timerWaits.Finish(Success);
        case ReadCompletes(r) => socketReads := socketReads.Finish(r);
        case WriteCompletes(r) => socketWrites := socketWrites.Finish(r);
        case AcceptCompletes(ok) =>
          acceptState := if ok then Accepted else Refused;
          socketIsOpen := socketIsOpen || ok;
        case RunWait(r, acts) => OnWaitDone(r, acts);
        case RunRead(r, now, acts) => OnReadDone(r, now, acts);
        case RunWrite(r, acts, more) => OnWriteDone(r, acts, more);
        case RunAccept(acts, now) => OnAccepted(acts, now);
      }
    }

    /** The event loop, for the events of one channel that never closes in the gap: the channel is never
        used after its deletion, and deleted exactly when nothing refers to it any more; every send is
        pending or was reported, and a channel once connected reads until a read fails. */
    method Loop(es: seq<Event>)
      requires Healthy(State()) && IsRun(State(), es) && NeverClosesEarly(State(), es)
      modifies this
      ensures State() == Final(old(State()), es) && Healthy(State())
      ensures !misused && deletions == if Owners(State()) == 0 then 1 else 0
      ensures var t := Tallied(old(State()), es);
              t.sends + old(socketWrites.Total()) == t.writeHandlers + socketWrites.Total()
      ensures old(acceptState.Handled?) && !ReadFails(es) ==> socketReads.Total() == old(socketReads.Total())
      ensures old(acceptState.Waiting?) && Connects(es) && HandlesAccept(es) && !ReadFails(es) ==> socketReads.Total() == 1
    {
      RunExact(State(), es);
      NothingSentIsLost(State(), es);
      ReadPendingExactly(State(), es);
      var i := 0;
      while i < |es|
        invariant i <= |es| && IsRun(State(), es[i..])
        invariant Final(State(), es[i..]) == Final(old(State()), es)
      {
        assert es[i..][0] == es[i] && es[i..][1..] == es[i + 1..];
        Handle(es[i]);
        i := i + 1;
      }
    }
  }
}
