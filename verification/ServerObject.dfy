/** The server as the object the program updates in place (src/Server.cpp, src/Object.hpp), proved
    against the steps of ServerLifetime. Its channels are kept by their states. */
module ServerObject {
  import opened Basics
  import opened ChannelLifetime
  import opened ServerLifetime

  class Server {
    var referenceCount: int
    var ptrs: nat
    var acceptorIsOpen: bool
    var channels: seq<Channel>
    ghost var deletions: nat
    ghost var misused: bool

    ghost function State(): System
      reads this
    {
      System(referenceCount, ptrs, acceptorIsOpen, deletions, misused, channels)
    }

    /** A server whose creator holds n ptrs to it. */
    constructor (n: nat)
      ensures State() == Started(n) && (n > 0 ==> Sound(State()))
    {
      referenceCount, ptrs, acceptorIsOpen, channels := n, n, true, [];
      deletions, misused := 0, false;
    }

    ghost method Touch()
      modifies this`misused
      ensures misused == (old(misused) || deletions > 0)
    {
      misused := misused || deletions > 0;
    }

    method AddReference()
      modifies this`referenceCount, this`misused
      ensures State() == AddServerReference(old(State()))
    {
      Touch();
      referenceCount := referenceCount + 1;
    }

    method RemoveReference()
      modifies this`referenceCount, this`misused, this`deletions
      ensures State() == RemoveServerReference(old(State()))
    {
      Touch();
      var before := referenceCount;
      referenceCount := before - 1;
      if before == 1 {
        deletions := deletions + 1;
      }
    }

    /** `keep` is the number of ptrs createChannel keeps to the new channel. The one reference added is
        owned by the one accept that is pending from now on, so the running code holds what it held. */
    method Listen(keep: nat)
      modifies this
      ensures State() == StartListening(old(State()), keep)
      ensures ServerHeld(State()) == old(ServerHeld(State())) && PendingAccepts(State()) == old(PendingAccepts(State())) + 1
      ensures old(AllHealthy(channels)) ==> AllHealthy(channels)
    {
      ListenKeeps(State(), keep);
      var channel := NewChannel(acceptorIsOpen, keep);
      AddReference();
      channels := channels + [channel];
    }

    /** Afterwards no accept waits for a connection, but all that were pending still hold their reference
        until their handler has run: closing deletes nothing. */
    method Close()
      modifies this
      ensures State() == ServerDo(old(State()), Shut)
      ensures !acceptorIsOpen && forall c :: c in channels ==> !c.accept.Waiting?
      ensures PendingAccepts(State()) == old(PendingAccepts(State())) && ServerHeld(State()) == old(ServerHeld(State()))
      ensures deletions == old(deletions) && (old(AllHealthy(channels)) ==> AllHealthy(channels))
    {
      CloseAcceptorKeeps(Use(State()));
      Touch();
      acceptorIsOpen := false;
      var before := channels;
      channels := seq(|before|, i requires 0 <= i < |before| => Abort(before[i]));
    }

    method PerformAct(act: ServerAct)
      modifies this
      ensures State() == ServerDo(old(State()), act)
    {
      match act {
        case Listen(keep) => Listen(keep);
        case Shut => Close();
        case AddPtr =>
          ptrs := ptrs + 1;
          AddReference();
        case DropPtr =>
          if ptrs > 0 {
            ptrs := ptrs - 1;
            RemoveReference();
          }
      }
    }

    method PerformActs(acts: seq<ServerAct>)
      modifies this
      ensures State() == ServerPerform(old(State()), acts)
    {
      var k := 0;
      while k < |acts|
        invariant k <= |acts| && ServerPerform(State(), acts[k..]) == ServerPerform(old(State()), acts)
      {
        assert acts[k..][0] == acts[k] && acts[k..][1..] == acts[k + 1..];
        PerformAct(acts[k]);
        k := k + 1;
      }
    }

    /** The accept handler of the i-th channel: callbacks, listening again, and the release. Whatever the
        callbacks do, the server survives it, with an accept pending and all counts right. */
    method OnAcceptDone(i: nat, onConnect: seq<Act>, now: Option<Result>, acts: seq<ServerAct>, keep: nat)
      requires CanHappen(State(), RunAcceptHandler(i, onConnect, now, acts, keep))
      modifies this
      ensures State() == Happen(old(State()), RunAcceptHandler(i, onConnect, now, acts, keep))
      ensures old(Sound(State())) ==> Sound(State()) && PendingAccepts(State()) > 0 && deletions == 0
    {
      if Sound(State()) {
        AcceptHandlerStepKeeps(State(), i, onConnect, now, acts, keep);
      }
      channels := channels[i := Step(channels[i], RunAccept(onConnect, now))];
      Touch();
      PerformActs(acts);
      Listen(keep);
      RemoveReference();
    }

    method Handle(e: ServerEvent)
      requires CanHappen(State(), e)
      modifies this
      ensures State() == Happen(old(State()), e)
    {
      match e {
        case OnServer(act) => PerformAct(act);
        case OnChannel(i, event) => channels := channels[i := Step(channels[i], event)];
        case RunAcceptHandler(i, onConnect, now, acts, keep) => OnAcceptDone(i, onConnect, now, acts, keep);
      }
    }

    /** The event loop, as long as no channel is closed in the gap: the server is never used after its
        deletion, its count is that of its owners, a channel is made for every call of listen and every
        accept handler, after a close nothing is accepted any more, and it is deleted exactly if its last
        ptr is gone and listen was never called, whether it was closed or not. */
    method Loop(es: seq<ServerEvent>)
      requires Sound(State()) && IsSystemRun(State(), es)
      modifies this
      ensures State() == After(old(State()), es) && Sound(State()) && !misused && deletions <= 1
      ensures referenceCount == ptrs + PendingAccepts(State())
      ensures |channels| == old(|channels|) + ListensIn(es) && (acceptorIsOpen <==> old(acceptorIsOpen) && !ShutsIn(es))
      ensures old(IsShut(State())) ==> IsShut(State()) && NoNewConnections(old(channels), channels)
      ensures deletions == 1 <==> ptrs == 0 && old(channels) == [] && forall i :: 0 <= i < |es| ==> !IsListen(es[i])
    {
      RunKeeps(State(), es);
      EveryListenMakesAChannel(State(), es);
      if IsShut(State()) {
        ClosedServerAcceptsNothing(State(), es);
      }
      var i := 0;
      while i < |es|
        invariant i <= |es| && IsSystemRun(State(), es[i..])
        invariant After(State(), es[i..]) == After(old(State()), es)
      {
        assert es[i..][0] == es[i] && es[i..][1..] == es[i + 1..];
        Handle(es[i]);
        i := i + 1;
      }
    }
  }
}
