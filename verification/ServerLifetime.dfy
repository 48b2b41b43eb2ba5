/** The server with its channels (src/Server.cpp): every pending accept holds a reference to the server
    and a ptr to the channel it will connect. */
module ServerLifetime {
  import opened Basics
  import opened ChannelLifetime
  import opened ChannelTraffic

  /** User code that acts on the server, in its callbacks or through a ptr to it. What onError does if
      closing fails is what follows the Shut: close does nothing after it. */
  datatype ServerAct = Listen(keep: nat) | Shut | AddPtr | DropPtr

  datatype System = System(
    referenceCount: int,
    ptrs: nat,
    acceptorOpen: bool,
    deletions: nat,
    misused: bool,
    channels: seq<Channel>)

  // ---------- steps of the source ----------

  function Use(s: System): System {
    s.(misused := s.misused || s.deletions > 0)
  }

  function AddServerReference(s: System): System {
    Use(s).(referenceCount := s.referenceCount + 1)
  }

  function RemoveServerReference(s: System): System {
    Use(s).(referenceCount := s.referenceCount - 1,
            deletions := s.deletions + if s.referenceCount == 1 then 1 else 0)
  }

  /** listen: a new channel and a pending accept for it; on a closed acceptor the accept fails at once. */
  function StartListening(s: System, keep: nat): System {
    AddServerReference(s).(channels := s.channels + [NewChannel(s.acceptorOpen, keep)])
  }

  function Abort(c: Channel): Channel {
    if c.accept.Waiting? then c.(accept := Refused) else c
  }

  /** acceptor.close: pending accepts complete with an error. */
  function CloseAcceptor(s: System): System {
    s.(acceptorOpen := false, channels := seq(|s.channels|, i requires 0 <= i < |s.channels| => Abort(s.channels[i])))
  }

  function ServerDo(s: System, act: ServerAct): System {
    match act
    case Listen(keep) => StartListening(s, keep)
    case Shut => CloseAcceptor(Use(s))
    case AddPtr => AddServerReference(s.(ptrs := s.ptrs + 1))
    case DropPtr => if s.ptrs > 0 then RemoveServerReference(s.(ptrs := s.ptrs - 1)) else s
  }

  function ServerPerform(s: System, acts: seq<ServerAct>): System
    decreases acts
  {
    if acts == [] then s else ServerPerform(ServerDo(s, acts[0]), acts[1..])
  }

  datatype ServerEvent =
    | OnServer(act: ServerAct)                // through a ptr to the server, between handlers
    | OnChannel(i: nat, event: Event)         // anything but the accept handler
    | RunAcceptHandler(i: nat, onConnect: seq<Act>, now: Option<Result>, acts: seq<ServerAct>, keep: nat)

  predicate CanHappen(s: System, e: ServerEvent) {
    match e
    case OnServer(_) => s.ptrs > 0
    case OnChannel(i, event) => i < |s.channels| && !event.RunAccept? && Enabled(s.channels[i], event)
    case RunAcceptHandler(i, onConnect, now, _, _) => i < |s.channels| && Enabled(s.channels[i], RunAccept(onConnect, now))
  }

  /** The accept handler: onError or onConnect (which may act on the server, too), then listen again, in
      every case, and only then the release of the server. */
  function Happen(s: System, e: ServerEvent): System
    requires CanHappen(s, e)
  {
    match e
    case OnServer(act) => ServerDo(s, act)
    case OnChannel(i, event) => s.(channels := s.channels[i := Step(s.channels[i], event)])
    case RunAcceptHandler(i, onConnect, now, acts, keep) =>
      var s := Use(s.(channels := s.channels[i := Step(s.channels[i], RunAccept(onConnect, now))]));
      RemoveServerReference(StartListening(ServerPerform(s, acts), keep))
  }

  /** A new server with n > 0 ptrs to it. */
  function Started(n: nat): System {
    System(n, n, true, 0, false, [])
  }

  // ---------- the reference count of the server ----------

  /** Accepts whose handler has not run, among the first n channels. */
  function Accepting(cs: seq<Channel>, n: nat): nat
    requires n <= |cs|
  {
    if n == 0 then 0 else Accepting(cs, n - 1) + if cs[n - 1].accept.Handled? then 0 else 1
  }

  function PendingAccepts(s: System): nat {
    Accepting(s.channels, |s.channels|)
  }

  function ServerHeld(s: System): int {
    s.referenceCount - s.ptrs - PendingAccepts(s)
  }

  lemma {:induction false} AcceptingSame(cs: seq<Channel>, cs': seq<Channel>, n: nat)
    requires n <= |cs| && n <= |cs'|
    requires forall i :: 0 <= i < n ==> (cs[i].accept.Handled? <==> cs'[i].accept.Handled?)
    ensures Accepting(cs, n) == Accepting(cs', n)
  {
    if n > 0 {
      AcceptingSame(cs, cs', n - 1);
    }
  }

  lemma {:induction false} AcceptingUpdate(cs: seq<Channel>, i: nat, c: Channel, n: nat)
    requires i < |cs| && n <= |cs| && !cs[i].accept.Handled? && c.accept.Handled?
    ensures Accepting(cs[i := c], n) == Accepting(cs, n) - if i < n then 1 else 0
  {
    if n > 0 {
      AcceptingUpdate(cs, i, c, n - 1);
    }
  }

  predicate AllHealthy(cs: seq<Channel>) {
    forall i :: 0 <= i < |cs| ==> Healthy(cs[i])
  }

  function NewChannel(works: bool, keep: nat): Channel {
    if works then Created(keep) else Created(keep).(accept := Refused)
  }

  lemma NewChannelIsHealthy(works: bool, keep: nat)
    ensures Healthy(NewChannel(works, keep)) && !NewChannel(works, keep).accept.Handled?
  {
    CreatedIsNew(keep);
    NewIsHealthy(NewChannel(works, keep), keep);
  }

  lemma ListenKeeps(s: System, keep: nat)
    ensures ServerHeld(StartListening(s, keep)) == ServerHeld(s)
    ensures PendingAccepts(StartListening(s, keep)) == PendingAccepts(s) + 1
    ensures AllHealthy(s.channels) ==> AllHealthy(StartListening(s, keep).channels)
    ensures var cs := StartListening(s, keep).channels;
            |cs| == |s.channels| + 1 && cs[..|s.channels|] == s.channels
            && (if s.acceptorOpen then cs[|s.channels|].accept.Waiting? else cs[|s.channels|].accept.Refused?)
  {
    NewChannelIsHealthy(s.acceptorOpen, keep);
    AcceptingSame(s.channels, StartListening(s, keep).channels, |s.channels|);
  }

  lemma AbortKeeps(c: Channel)
    requires Healthy(c)
    ensures Healthy(Abort(c))
  {
  }

  lemma CloseAcceptorKeeps(s: System)
    ensures ServerHeld(CloseAcceptor(s)) == ServerHeld(s) && PendingAccepts(CloseAcceptor(s)) == PendingAccepts(s)
    ensures AllHealthy(s.channels) ==> AllHealthy(CloseAcceptor(s).channels)
  {
    AcceptingSame(s.channels, CloseAcceptor(s).channels, |s.channels|);
    if AllHealthy(s.channels) {
      forall i | 0 <= i < |s.channels|
        ensures Healthy(CloseAcceptor(s).channels[i])
      {
        AbortKeeps(s.channels[i]);
      }
    }
  }

  /** The server was not used after its deletion, the running code holds `held` references beyond those
      of the ptrs and the pending accepts, and the server is deleted, once, exactly when none is left. */
  predicate SoundCount(s: System, held: nat) {
    && ServerHeld(s) == held && !s.misused
    && s.deletions == if s.referenceCount > 0 then 0 else 1
  }

  lemma ServerDoKeeps(s: System, act: ServerAct, held: nat)
    requires SoundCount(s, held) && AllHealthy(s.channels) && held + s.ptrs > 0
    ensures SoundCount(ServerDo(s, act), held) && AllHealthy(ServerDo(s, act).channels)
    ensures PendingAccepts(s) + |ServerDo(s, act).channels| == PendingAccepts(ServerDo(s, act)) + |s.channels|
    ensures |s.channels| <= |ServerDo(s, act).channels|
  {
    match act {
      case Listen(keep) => ListenKeeps(s, keep);
      case Shut => CloseAcceptorKeeps(Use(s));
      case _ =>
    }
  }

  lemma {:induction false} ServerPerformKeeps(s: System, acts: seq<ServerAct>, held: nat)
    requires SoundCount(s, held) && AllHealthy(s.channels) && held > 0
    ensures SoundCount(ServerPerform(s, acts), held) && AllHealthy(ServerPerform(s, acts).channels)
    ensures PendingAccepts(s) + |ServerPerform(s, acts).channels| == PendingAccepts(ServerPerform(s, acts)) + |s.channels|
    ensures |s.channels| <= |ServerPerform(s, acts).channels|
    decreases acts
  {
    if acts != [] {
      ServerDoKeeps(s, acts[0], held);
      ServerPerformKeeps(ServerDo(s, acts[0]), acts[1..], held);
    }
  }

  // ---------- every run of the system ----------

  /** Between handlers; once the server has listened, an accept is pending. */
  predicate Sound(s: System) {
    && SoundCount(s, 0) && AllHealthy(s.channels)
    && (s.channels != [] ==> PendingAccepts(s) > 0)
  }

  /** The one thing user code must not do: close a channel between its accept and the accept handler. */
  predicate IsTooEarly(s: System, e: ServerEvent)
    requires CanHappen(s, e)
  {
    e.OnChannel? && ClosesEarly(s.channels[e.i], e.event)
  }

  lemma ChannelStepKeeps(s: System, i: nat, event: Event)
    requires Sound(s) && CanHappen(s, OnChannel(i, event)) && !ClosesEarly(s.channels[i], event)
    ensures Sound(Happen(s, OnChannel(i, event)))
  {
    StepExact(s.channels[i], event);
    AcceptStays(s.channels[i], event);
    AcceptingSame(s.channels, Happen(s, OnChannel(i, event)).channels, |s.channels|);
  }

  /** Only the accept handler ends the pending accept. */
  lemma AcceptStays(c: Channel, e: Event)
    requires Enabled(c, e) && !e.RunAccept?
    ensures Step(c, e).accept.Handled? <==> c.accept.Handled?
  {
    AcceptAfterStep(c, e);
  }

  /** The accept handler up to the callbacks that act on the server. */
  lemma AcceptHandlerBegins(s: System, i: nat, onConnect: seq<Act>, now: Option<Result>) returns (begun: System)
    requires Sound(s) && i < |s.channels| && Enabled(s.channels[i], RunAccept(onConnect, now))
    ensures begun == Use(s.(channels := s.channels[i := Step(s.channels[i], RunAccept(onConnect, now))]))
    ensures SoundCount(begun, 1) && AllHealthy(begun.channels) && PendingAccepts(s) > 0
  {
    var c := s.channels[i];
    StepExact(c, RunAccept(onConnect, now));
    AcceptHandlerKeeps(c, onConnect, now);
    AcceptingUpdate(s.channels, i, Step(c, RunAccept(onConnect, now)), |s.channels|);
    begun := Use(s.(channels := s.channels[i := Step(c, RunAccept(onConnect, now))]));
  }

  lemma AcceptHandlerStepKeeps(s: System, i: nat, onConnect: seq<Act>, now: Option<Result>, acts: seq<ServerAct>, keep: nat)
    requires Sound(s) && CanHappen(s, RunAcceptHandler(i, onConnect, now, acts, keep))
    ensures Sound(Happen(s, RunAcceptHandler(i, onConnect, now, acts, keep)))
    ensures |s.channels| < |Happen(s, RunAcceptHandler(i, onConnect, now, acts, keep)).channels|
  {
    var begun := AcceptHandlerBegins(s, i, onConnect, now);
    ServerPerformKeeps(begun, acts, 1);
    ListenKeeps(ServerPerform(begun, acts), keep);
  }

  predicate IsListen(e: ServerEvent) {
    e.OnServer? && e.act.Listen?
  }

  lemma HappenKeeps(s: System, e: ServerEvent)
    requires Sound(s) && CanHappen(s, e) && !IsTooEarly(s, e)
    ensures Sound(Happen(s, e)) && |s.channels| <= |Happen(s, e).channels|
    ensures Happen(s, e).channels == [] <==> s.channels == [] && !IsListen(e)
  {
    match e {
      case OnServer(act) => ServerDoKeeps(s, act, 0);
      case OnChannel(i, event) => ChannelStepKeeps(s, i, event);
      case RunAcceptHandler(i, onConnect, now, acts, keep) =>
        AcceptHandlerStepKeeps(s, i, onConnect, now, acts, keep);
    }
  }

  ghost predicate IsSystemRun(s: System, es: seq<ServerEvent>)
    decreases es
  {
    es == [] || (CanHappen(s, es[0]) && !IsTooEarly(s, es[0]) && IsSystemRun(Happen(s, es[0]), es[1..]))
  }

  ghost function After(s: System, es: seq<ServerEvent>): System
    requires IsSystemRun(s, es)
    decreases es
  {
    if es == [] then s else After(Happen(s, es[0]), es[1..])
  }

  lemma {:induction false} RunKeeps(s: System, es: seq<ServerEvent>)
    requires Sound(s) && IsSystemRun(s, es)
    ensures Sound(After(s, es))
    ensures After(s, es).channels == [] <==> s.channels == [] && forall i :: 0 <= i < |es| ==> !IsListen(es[i])
    decreases es
  {
    if es != [] {
      HappenKeeps(s, es[0]);
      RunKeeps(Happen(s, es[0]), es[1..]);
    }
  }

  /** In every run from a new server: all counts are the numbers of owners, nothing is used after its
      deletion, and the server is deleted exactly when its last ptr is gone and listen was never called.
      So closing a server that has listened never leads to its destructor: the accept handler listens
      again even after an error. */
  lemma ServerDeletedIff(start: System, n: nat, es: seq<ServerEvent>)
    requires start == Started(n) && n > 0 && IsSystemRun(start, es)
    ensures var s := After(start, es);
            && s.referenceCount == s.ptrs + PendingAccepts(s) && !s.misused && s.deletions <= 1
            && (s.deletions == 1 <==> s.ptrs == 0 && forall i :: 0 <= i < |es| ==> !IsListen(es[i]))
            && AllHealthy(s.channels)
  {
    RunKeeps(start, es);
  }

  // ---------- a closed acceptor ----------

  /** No accept waits for a connection, and none will. */
  predicate IsShut(s: System) {
    !s.acceptorOpen && forall c :: c in s.channels ==> !c.accept.Waiting?
  }

  lemma CloseShuts(s: System)
    ensures IsShut(ServerDo(s, Shut))
  {
  }

  /** No connections appear: a socket that is open, or accepted with its handler still to run, was so before. */
  predicate NoNewConnections(before: seq<Channel>, after: seq<Channel>) {
    && |before| <= |after|
    && forall i :: 0 <= i < |after| && (after[i].open || after[i].accept.Accepted?) ==>
         i < |before| && (after[i].open ==> before[i].open) && (after[i].accept.Accepted? ==> before[i].accept.Accepted?)
  }

  lemma ShutListens(s: System, act: ServerAct)
    requires IsShut(s)
    ensures IsShut(ServerDo(s, act)) && NoNewConnections(s.channels, ServerDo(s, act).channels)
  {
    if act.Listen? {
      var cs := ServerDo(s, act).channels;
      assert cs[|s.channels|] == NewChannel(false, act.keep);
    }
  }

  lemma NoneThenNone(a: seq<Channel>, b: seq<Channel>, c: seq<Channel>)
    requires NoNewConnections(a, b) && NoNewConnections(b, c)
    ensures NoNewConnections(a, c)
  {
  }

  lemma {:induction false} ShutPerforms(s: System, acts: seq<ServerAct>)
    requires IsShut(s)
    ensures IsShut(ServerPerform(s, acts)) && NoNewConnections(s.channels, ServerPerform(s, acts).channels)
    decreases acts
  {
    if acts != [] {
      var next := ServerDo(s, acts[0]);
      ShutListens(s, acts[0]);
      ShutPerforms(next, acts[1..]);
      NoneThenNone(s.channels, next.channels, ServerPerform(s, acts).channels);
    }
  }

  /** On a channel, only an accept that waits makes a connection. */
  lemma StepConnects(c: Channel, e: Event)
    requires Enabled(c, e) && !c.accept.Waiting?
    ensures !Step(c, e).accept.Waiting? && (Step(c, e).accept.Accepted? ==> c.accept.Accepted?)
    ensures Step(c, e).open ==> c.open
  {
    AcceptAfterStep(c, e);
    OpenAfterStep(c, e);
  }

  lemma ShutHappens(s: System, e: ServerEvent)
    requires IsShut(s) && CanHappen(s, e)
    ensures IsShut(Happen(s, e)) && NoNewConnections(s.channels, Happen(s, e).channels)
  {
    match e {
      case OnServer(act) => ShutListens(s, act);
      case OnChannel(i, event) => StepConnects(s.channels[i], event);
      case RunAcceptHandler(i, onConnect, now, acts, keep) =>
        StepConnects(s.channels[i], RunAccept(onConnect, now));
        var begun := Use(s.(channels := s.channels[i := Step(s.channels[i], RunAccept(onConnect, now))]));
        var performed := ServerPerform(begun, acts);
        ShutPerforms(begun, acts);
        ShutListens(performed, Listen(keep));
        NoneThenNone(s.channels, begun.channels, performed.channels);
        NoneThenNone(s.channels, performed.channels, StartListening(performed, keep).channels);
    }
  }

  /** After close the acceptor stays closed in every run, however often the accept handlers listen again,
      and no connection is made any more: what was accepted before is all there is. */
  lemma {:induction false} ClosedServerAcceptsNothing(s: System, es: seq<ServerEvent>)
    requires IsShut(s) && IsSystemRun(s, es)
    ensures IsShut(After(s, es)) && NoNewConnections(s.channels, After(s, es).channels)
    decreases es
  {
    if es != [] {
      var next := Happen(s, es[0]);
      ShutHappens(s, es[0]);
      ClosedServerAcceptsNothing(next, es[1..]);
      NoneThenNone(s.channels, next.channels, After(s, es).channels);
    }
  }

  // ---------- what is called for ----------

  /** The ptrs to the server that user code leaves; with none there is nothing to drop. */
  function PtrsAfter(n: nat, acts: seq<ServerAct>): nat
    decreases acts
  {
    if acts == [] then n
    else PtrsAfter(if acts[0].AddPtr? then n + 1 else if acts[0].DropPtr? && n > 0 then n - 1 else n, acts[1..])
  }

  function Listens(acts: seq<ServerAct>): nat {
    if acts == [] then 0 else (if acts[0].Listen? then 1 else 0) + Listens(acts[1..])
  }

  predicate HasShut(acts: seq<ServerAct>) {
    exists i :: 0 <= i < |acts| && acts[i].Shut?
  }

  lemma HasShutUnfold(acts: seq<ServerAct>)
    requires acts != []
    ensures HasShut(acts) <==> acts[0].Shut? || HasShut(acts[1..])
  {
    assert forall i :: 1 <= i < |acts| ==> acts[i] == acts[1..][i - 1];
    assert forall i :: 0 <= i < |acts| - 1 ==> acts[1..][i] == acts[i + 1];
  }

  /** What user code does to the server: each listen makes a channel, only close closes the acceptor, and
      copies and drops of ptrs are counted. */
  lemma {:induction false} PerformDoesAll(s: System, acts: seq<ServerAct>)
    ensures |ServerPerform(s, acts).channels| == |s.channels| + Listens(acts)
    ensures ServerPerform(s, acts).acceptorOpen <==> s.acceptorOpen && !HasShut(acts)
    ensures ServerPerform(s, acts).ptrs == PtrsAfter(s.ptrs, acts)
    decreases acts
  {
    if acts != [] {
      PerformDoesAll(ServerDo(s, acts[0]), acts[1..]);
      HasShutUnfold(acts);
    }
  }

  function ActsOn(e: ServerEvent): seq<ServerAct> {
    match e
    case OnServer(act) => [act]
    case OnChannel(_, _) => []
    case RunAcceptHandler(_, _, _, acts, _) => acts
  }

  lemma HappenDoesAll(s: System, e: ServerEvent)
    requires CanHappen(s, e)
    ensures |Happen(s, e).channels| == |s.channels| + Listens(ActsOn(e)) + if e.RunAcceptHandler? then 1 else 0
    ensures Happen(s, e).acceptorOpen <==> s.acceptorOpen && !HasShut(ActsOn(e))
    ensures Happen(s, e).ptrs == PtrsAfter(s.ptrs, ActsOn(e))
  {
    match e {
      case OnServer(act) =>
        HasShutUnfold([act]);
        assert ServerPerform(s, [act]) == ServerDo(s, act);
        PerformDoesAll(s, [act]);
      case OnChannel(i, event) =>
      case RunAcceptHandler(i, onConnect, now, acts, keep) =>
        PerformDoesAll(Use(s.(channels := s.channels[i := Step(s.channels[i], RunAccept(onConnect, now))])), acts);
    }
  }

  /** Calls of listen by user code, in callbacks too, and accept handlers run. */
  function ListensIn(es: seq<ServerEvent>): nat {
    if es == [] then 0
    else Listens(ActsOn(es[0])) + (if es[0].RunAcceptHandler? then 1 else 0) + ListensIn(es[1..])
  }

  function ShutsIn(es: seq<ServerEvent>): bool {
    es != [] && (HasShut(ActsOn(es[0])) || ShutsIn(es[1..]))
  }

  /** In every run a channel is made for every call of listen and every accept handler, and the acceptor is
      open exactly until close is called. */
  lemma {:induction false} EveryListenMakesAChannel(s: System, es: seq<ServerEvent>)
    requires IsSystemRun(s, es)
    ensures |After(s, es).channels| == |s.channels| + ListensIn(es)
    ensures After(s, es).acceptorOpen <==> s.acceptorOpen && !ShutsIn(es)
    decreases es
  {
    if es != [] {
      HappenDoesAll(s, es[0]);
      EveryListenMakesAChannel(Happen(s, es[0]), es[1..]);
    }
  }
}
