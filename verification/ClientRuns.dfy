/** Every run of the client machine: what holds after any sequence of requests, network events and ticks. */
module ClientRuns {
  import opened Wrappers
  import opened ClientMachine
  import opened BuddyProofs
  import Conn = ConnectingProofs

  datatype Event<C> =
    | NewClient(c: C)
    | RequestTcp(c: C, hasSocket: bool)
    | RequestBuddy(c: C)
    | IncomingBuddy(c: C)
    | RequestUdpCheck(c: C)
    | TryToConnect(c: C, o: TryOutcome, now: nat)
    | ConnectionEstablished(c: C, udpRequestSent: bool)
    | ConnectionLost(c: C, delete: bool)
    | DropDownload(c: C)
    | DeleteClient(c: C)
    | Process(t: Tick<C>)

  function Step<C(==)>(s: State<C>, e: Event<C>): State<C>
    requires s.kad.Keys == s.ccs.Keys
  {
    if s.broken then s else
    match e
    case NewClient(c) => Known(s, c)
    case RequestTcp(c, hasSocket) => RequestedTcp(s, c, hasSocket)
    case RequestBuddy(c) => RequestedBuddy(s, c)
    case IncomingBuddy(c) => NewInKadList(s, c, KS_INCOMING_BUDDY)
    case RequestUdpCheck(c) => NewInKadList(s, c, KS_QUEUED_FWCHECK_UDP)
    case TryToConnect(c, o, now) => if c in s.kad then Tried(s, c, o, now) else s
    case ConnectionEstablished(c, udp) => if c in s.kad then Established(s, c, udp) else s
    case ConnectionLost(c, delete) => if c in s.kad then AfterDisconnect(s, c, delete) else s
    case DropDownload(c) => if c in s.kad then DownloadDropped(s, c) else s
    case DeleteClient(c) => if c in s.kad then Deleted(s, c) else s
    case Process(t) => Processed(s, t)
  }

  /** CClientList's constructor. */
  function Empty<C(==)>(): State<C> { State(map[], map[], [], [], None, Disconnected, true, false) }

  ghost predicate Inv<C>(s: State<C>) {
    BuddyInv(s) && Conn.ConnInv(s) && s.asserts
  }

  // ----- Process -----

  lemma {:induction false} LoopKeepsConn<C>(s: State<C>, i: nat, flag: BuddyStatus, running: bool, visits: nat -> Visit, k: nat, now: nat)
    requires WalkOk(s, i, flag) && Conn.ConnInv(s) && s.asserts
    ensures var w := KadLoop(s, i, flag, running, visits, k, now); Conn.ConnInv(w.s) && w.s.asserts
    decreases |s.kadList| - i
  {
    if i < |s.kadList| && s.kadList[i] in s.kad {
      var c := s.kadList[i];
      var w := VisitClient(s, flag, c, running, visits(k), now);
      Conn.VisitKeeps(s, flag, c, running, visits(k), now);
      VisitKeeps(s, i, flag, running, visits(k), now);
      VisitShape(s, flag, c, running, visits(k), now);
      LoopKeepsConn(w.s, NextIndex(s, w.s, i), w.flag, running, visits, k + 1, now);
    }
  }

  lemma {:induction false} CleanUpKeeps<C>(s: State<C>, unused: seq<C>)
    requires Inv(s)
    ensures Inv(CleanedUp(s, unused)) && CleanedUp(s, unused).broken == s.broken
  {
    Conn.CleanUpKeeps(s, unused);
    if unused != [] {
      var front, c := unused[..|unused| - 1], unused[|unused| - 1];
      CleanUpKeeps(s, front);
      var s1 := CleanedUp(s, front);
      if c in s1.kad && s1.kad[c] == KS_NONE {
        DeletedLocal(s1, c);
        LocalKeeps(s1, Deleted(s1, c), c);
      }
    }
  }

  lemma {:induction false} TimeoutsKeepBuddy<C>(s: State<C>, i: nat, deletes: nat -> bool, k: nat, now: nat)
    requires BuddyInv(s) && Conn.ConnInv(s)
    ensures BuddyInv(TimedOut(s, i, deletes, k, now))
    decreases |s.connecting| - i
  {
    if i < |s.connecting| {
      var e := s.connecting[i];
      if now < e.inserted + CONNECT_TIMEOUT {
        TimeoutsKeepBuddy(s, i + 1, deletes, k, now);
      } else {
        Conn.TimeoutStep(s, i, deletes(k));
        var s1 := s.(connecting := RemoveAt(s.connecting, i), asserts := s.asserts && s.ccs[e.client] != CCS_NONE);
        var s2 := AfterDisconnect(s1, e.client, deletes(k));
        DisconnectLocal(s1, e.client, deletes(k));
        LocalKeeps(s1, s2, e.client);
        TimeoutsKeepBuddy(s2, i, deletes, k + 1, now);
      }
    }
  }

  lemma LoopEndKeeps<C>(w: Visited<C>)
    requires Inv(w.s)
    requires w.flag == Disconnected ==> forall c :: c in w.s.kad ==> w.s.kad[c] != KS_CONNECTING_BUDDY
    ensures Inv(LoopEnd(w)) && LoopEnd(w).broken == w.s.broken
  {
  }

  lemma BuddyDropKeeps<C>(s: State<C>, drop: bool)
    requires Inv(s)
    ensures Inv(BuddyDropped(s, drop)) && BuddyDropped(s, drop).broken == s.broken
  {
    if drop && s.buddy.Some? {
      var s' := BuddyDropped(s, drop);
      LocalKeeps(s, s', s.buddy.value);
      Conn.KadOnlyKeeps(s, s');
    }
  }

  /** One Process call keeps the invariant, and no attempt of 45 seconds or more survives it. */
  lemma ProcessKeeps<C>(s: State<C>, t: Tick<C>)
    requires Inv(s)
    ensures var s' := Processed(s, t);
      && Inv(s')
      && (!s'.broken ==> forall i :: 0 <= i < |s'.connecting| ==> t.now < s'.connecting[i].inserted + CONNECT_TIMEOUT)
  {
    assert s.kadList[0..] == s.kadList;
    var w := KadLoop(s, 0, Disconnected, t.running, t.visits, 0, t.now);
    LoopKeeps(s, 0, Disconnected, t.running, t.visits, 0, t.now);
    LoopKeepsConn(s, 0, Disconnected, t.running, t.visits, 0, t.now);
    if !w.s.broken {
      LoopEndKeeps(w);
      BuddyDropKeeps(LoopEnd(w), t.dropBuddy);
      var s2 := BuddyDropped(LoopEnd(w), t.dropBuddy);
      CleanUpKeeps(s2, t.unused);
      var s3 := CleanedUp(s2, t.unused);
      Conn.TimeoutsKeep(s3, 0, t.deletes, 0, t.now);
      TimeoutsKeepBuddy(s3, 0, t.deletes, 0, t.now);
    }
  }

  // ----- every event -----

  lemma RequestKeeps<C>(s: State<C>, c: C, k: KadState, list: seq<C>)
    requires Inv(s) && k != KS_NONE && k != KS_CONNECTING_BUDDY
    requires list == s.kadList + [c] || (list == s.kadList && c in s.kadList)
    ensures var s1 := Known(s, c); Inv(s1.(kad := s1.kad[c := k], kadList := list))
  {
    var s1 := Known(s, c);
    assert Conn.ConnInv(s1);
    Conn.KadOnlyKeeps(s1, s1.(kad := s1.kad[c := k], kadList := list));
  }

  lemma LocalStepKeeps<C>(s: State<C>, s': State<C>, c: C)
    requires Inv(s) && LocalTo(s, s', c) && Conn.ConnInv(s') && s'.asserts == s.asserts
    requires c in s'.kad ==> Tame(s.kad[c], s'.kad[c])
    ensures Inv(s')
  {
    LocalKeeps(s, s', c);
  }

  lemma StepKeeps<C>(s: State<C>, e: Event<C>)
    requires Inv(s)
    ensures Inv(Step(s, e))
  {
    if s.broken { return; }
    match e
    case NewClient(c) => assert Conn.ConnInv(Known(s, c));
    case RequestTcp(c, hasSocket) => RequestKeeps(s, c, KS_QUEUED_FWCHECK, s.kadList + [c]);
    case RequestBuddy(c) => RequestKeeps(s, c, KS_QUEUED_BUDDY, AddedToKadList(s, c).kadList);
    case IncomingBuddy(c) => RequestKeeps(s, c, KS_INCOMING_BUDDY, AddedToKadList(s, c).kadList);
    case RequestUdpCheck(c) => RequestKeeps(s, c, KS_QUEUED_FWCHECK_UDP, AddedToKadList(s, c).kadList);
    case Process(t) => ProcessKeeps(s, t);
    case _ =>
      if e.c in s.kad { ClientStepKeeps(s, e); }
  }

  lemma ClientStepKeeps<C>(s: State<C>, e: Event<C>)
    requires Inv(s) && !s.broken
    requires e.TryToConnect? || e.ConnectionEstablished? || e.ConnectionLost? || e.DropDownload? || e.DeleteClient?
    requires e.c in s.kad
    ensures Inv(Step(s, e))
  {
    hide Tried, Established, AfterDisconnect, Deleted, DownloadDropped, InKadList, OneConnecting, BuddyOk, Conn.ConnInv,
      LocalTo, Tame, KadAfterTry, KadEstablished;
    var s' := Step(s, e);
    match e
    case TryToConnect(c, o, now) =>
      TriedLocal(s, c, o, now);
      if c in s'.kad { TryIsTame(s.kad[c], s'.kad[c]); }
      Conn.TriedKeeps(s, c, o, now);
      LocalStepKeeps(s, s', c);
    case ConnectionEstablished(c, udp) =>
      EstablishedLocal(s, c, udp);
      EstablishIsTame(s.kad[c], udp);
      Conn.EstablishedKeeps(s, c, udp);
      LocalStepKeeps(s, s', c);
    case ConnectionLost(c, delete) =>
      DisconnectLocal(s, c, delete);
      NoneIsTame(s.kad[c]);
      Conn.DisconnectKeeps(s, c, delete);
      LocalStepKeeps(s, s', c);
    case DropDownload(c) =>
      DroppedLocal(s, c);
      NoneIsTame(s.kad[c]);
      Conn.DroppedKeeps(s, c);
      LocalStepKeeps(s, s', c);
    case DeleteClient(c) =>
      DeletedLocal(s, c);
      Conn.DeletedKeeps(s, c);
      LocalStepKeeps(s, s', c);
  }

  // ----- every run -----

  /** The state after the events es, from s. */
  ghost function RunFrom<C>(s: State<C>, es: seq<Event<C>>): (s': State<C>)
    requires Inv(s)
    ensures Inv(s')
  {
    if es == [] then s else
    var s1 := RunFrom(s, es[..|es| - 1]);
    StepKeeps(s1, es[|es| - 1]);
    Step(s1, es[|es| - 1])
  }

  ghost function Run<C>(es: seq<Event<C>>): (s: State<C>)
    ensures Inv(s)
  {
    RunFrom(Empty(), es)
  }

  /**
   After any run: none of the four recorded ASSERTs has fired; at most one client is being connected to as a buddy, and
   none while the status is Disconnected; a buddy is a live client of the Kad list with the status
   Connected; and a client is listed as connecting once while it is, and not at all otherwise.
   */
  lemma EveryRunIsSafe<C>(es: seq<Event<C>>)
    ensures var s := Run(es);
      && s.asserts
      && (forall c, d :: c in s.kad && d in s.kad && s.kad[c] == KS_CONNECTING_BUDDY && s.kad[d] == KS_CONNECTING_BUDDY ==> c == d)
      && (s.status == Disconnected ==> forall c :: c in s.kad ==> s.kad[c] != KS_CONNECTING_BUDDY)
      && (s.buddy.Some? ==> s.buddy.value in s.kad && s.buddy.value in s.kadList && s.status == Connected)
      && (forall c :: c in s.ccs ==> Conn.Listed(s.connecting, c) == if s.ccs[c] != CCS_NONE then 1 else 0)
  {
    var s := Run(es);
    forall c | c in s.ccs ensures Conn.Listed(s.connecting, c) == if s.ccs[c] != CCS_NONE then 1 else 0 {
      Conn.ListedOnceIffConnecting(s, c);
    }
  }

  // ----- deleted clients in the Kad list -----

  ghost predicate NoDuplicates<C>(list: seq<C>) {
    forall i, j :: 0 <= i < j < |list| ==> list[i] != list[j]
  }

  /** The Kad list holds live clients, each once. */
  ghost predicate ListOk<C>(s: State<C>) {
    NoDuplicates(s.kadList) && forall c :: c in s.kadList ==> c in s.kad
  }

  /**
   RequestTCP appends without looking: the list stays free of duplicates exactly when the request
   is turned down or the client is not waiting in the list for its removal.
   */
  lemma RequestTcpDuplicates<C>(s: State<C>, c: C, hasSocket: bool)
    requires NoDuplicates(s.kadList)
    ensures NoDuplicates(RequestedTcp(s, c, hasSocket).kadList) <==> HarmlessTcpRequest(s, c, hasSocket)
  {
    var list := s.kadList + [c];
    if c in s.kadList {
      var i :| 0 <= i < |s.kadList| && s.kadList[i] == c;
      assert list[i] == list[|s.kadList|];
    }
  }

  lemma {:induction false} RemoveFirstNoDuplicates<C>(list: seq<C>, c: C)
    requires NoDuplicates(list)
    ensures NoDuplicates(RemoveFirst(list, c)) && c !in RemoveFirst(list, c)
  {
    if list != [] {
      if list[0] == c {
        assert c !in list[1..];
      } else {
        RemoveFirstNoDuplicates(list[1..], c);
        var r := RemoveFirst(list[1..], c);
        assert list[0] !in list[1..];
        assert list[0] !in r;
      }
    }
  }

  lemma ListOkLocal<C>(s: State<C>, s': State<C>, c: C)
    requires ListOk(s) && s.kad.Keys == s.ccs.Keys && LocalTo(s, s', c)
    ensures ListOk(s') && s'.broken == s.broken
  {
    if c !in s'.kad { RemoveFirstNoDuplicates(s.kadList, c); }
  }

  lemma VisitListOk<C>(s: State<C>, flag: BuddyStatus, c: C, running: bool, v: Visit, now: nat)
    requires ListOk(s) && s.kad.Keys == s.ccs.Keys && c in s.kadList
    ensures ListOk(VisitClient(s, flag, c, running, v, now).s) && VisitClient(s, flag, c, running, v, now).s.broken == s.broken
  {
    var s0 := if running then s else s.(kad := s.kad[c := KS_NONE]);
    assert ListOk(s0);
    VisitRunningListOk(s0, flag, c, v, now);
  }

  lemma TriedListOk<C>(s: State<C>, c: C, o: TryOutcome, now: nat)
    requires ListOk(s) && s.kad.Keys == s.ccs.Keys && c in s.kad
    ensures ListOk(Tried(s, c, o, now)) && Tried(s, c, o, now).broken == s.broken
  {
    TriedLocal(s, c, o, now);
    ListOkLocal(s, Tried(s, c, o, now), c);
  }

  lemma VisitRunningListOk<C>(s: State<C>, flag: BuddyStatus, c: C, v: Visit, now: nat)
    requires ListOk(s) && s.kad.Keys == s.ccs.Keys && c in s.kadList
    ensures ListOk(VisitRunning(s, flag, c, v, now).s) && VisitRunning(s, flag, c, v, now).s.broken == s.broken
  {
    hide Tried;
    match s.kad[c]
    case KS_NONE => RemoveFirstNoDuplicates(s.kadList, c);
    case KS_QUEUED_FWCHECK => TriedListOk(s, c, v.o, now);
    case KS_QUEUED_FWCHECK_UDP => TriedListOk(s, c, v.o, now);
    case KS_CONNECTED_FWCHECK => if v.ack.AckViaConnect? { TriedListOk(s, c, v.ack.o, now); }
    case KS_QUEUED_BUDDY =>
      TriedListOk(s.(status := Connecting, kad := s.kad[c := KS_CONNECTING_BUDDY]), c, v.o, now);
    case _ =>
  }

  lemma {:induction false} LoopListOk<C>(s: State<C>, i: nat, flag: BuddyStatus, running: bool, visits: nat -> Visit, k: nat, now: nat)
    requires ListOk(s) && s.kad.Keys == s.ccs.Keys && i <= |s.kadList|
    ensures var w := KadLoop(s, i, flag, running, visits, k, now); ListOk(w.s) && w.s.broken == s.broken
    decreases |s.kadList| - i
  {
    if i < |s.kadList| {
      var c := s.kadList[i];
      var w := VisitClient(s, flag, c, running, visits(k), now);
      VisitListOk(s, flag, c, running, visits(k), now);
      VisitShape(s, flag, c, running, visits(k), now);
      LoopListOk(w.s, NextIndex(s, w.s, i), w.flag, running, visits, k + 1, now);
    }
  }

  lemma {:induction false} CleanUpListOk<C>(s: State<C>, unused: seq<C>)
    requires ListOk(s) && Inv(s)
    ensures ListOk(CleanedUp(s, unused))
  {
    if unused != [] {
      var front, c := unused[..|unused| - 1], unused[|unused| - 1];
      CleanUpListOk(s, front);
      CleanUpKeeps(s, front);
      var s1 := CleanedUp(s, front);
      DeletedLocal(s1, c);
      if c in s1.kad { ListOkLocal(s1, Deleted(s1, c), c); }
    }
  }

  lemma {:induction false} TimeoutsListOk<C>(s: State<C>, i: nat, deletes: nat -> bool, k: nat, now: nat)
    requires ListOk(s) && Conn.ConnInv(s)
    ensures var s' := TimedOut(s, i, deletes, k, now); ListOk(s') && s'.broken == s.broken
    decreases |s.connecting| - i
  {
    if i < |s.connecting| {
      var e := s.connecting[i];
      if now < e.inserted + CONNECT_TIMEOUT {
        TimeoutsListOk(s, i + 1, deletes, k, now);
      } else {
        Conn.TimeoutStep(s, i, deletes(k));
        var s1 := s.(connecting := RemoveAt(s.connecting, i), asserts := s.asserts && s.ccs[e.client] != CCS_NONE);
        var s2 := AfterDisconnect(s1, e.client, deletes(k));
        DisconnectLocal(s1, e.client, deletes(k));
        ListOkLocal(s1, s2, e.client);
        TimeoutsListOk(s2, i, deletes, k + 1, now);
      }
    }
  }

  lemma ProcessListOk<C>(s: State<C>, t: Tick<C>)
    requires ListOk(s) && Inv(s)
    ensures ListOk(Processed(s, t)) && Processed(s, t).broken == s.broken
  {
    var w := KadLoop(s, 0, Disconnected, t.running, t.visits, 0, t.now);
    LoopListOk(s, 0, Disconnected, t.running, t.visits, 0, t.now);
    if !s.broken {
      assert s.kadList[0..] == s.kadList;
      LoopKeeps(s, 0, Disconnected, t.running, t.visits, 0, t.now);
      LoopKeepsConn(s, 0, Disconnected, t.running, t.visits, 0, t.now);
      LoopEndKeeps(w);
      BuddyDropKeeps(LoopEnd(w), t.dropBuddy);
      var s2 := BuddyDropped(LoopEnd(w), t.dropBuddy);
      CleanUpKeeps(s2, t.unused);
      CleanUpListOk(s2, t.unused);
      TimeoutsListOk(CleanedUp(s2, t.unused), 0, t.deletes, 0, t.now);
    }
  }

  /** RequestTCP turns the request down, or the client is not in the Kad list. */
  ghost predicate HarmlessTcpRequest<C>(s: State<C>, c: C, hasSocket: bool) {
    (c in s.kad && (s.kad[c] != KS_NONE || hasSocket)) || c !in s.kadList
  }

  /** No accepted RequestTCP of the run named a client that was still in the Kad list. */
  ghost predicate Careful<C>(es: seq<Event<C>>) {
    es != [] ==>
      var front, e := es[..|es| - 1], es[|es| - 1];
      && Careful(front)
      && (e.RequestTcp? ==> HarmlessTcpRequest(Run(front), e.c, e.hasSocket))
  }

  lemma StepListOk<C>(s: State<C>, e: Event<C>)
    requires Inv(s) && ListOk(s) && !s.broken
    requires e.RequestTcp? ==> HarmlessTcpRequest(s, e.c, e.hasSocket)
    ensures ListOk(Step(s, e)) && !Step(s, e).broken
  {
    hide Tried, Established, AfterDisconnect, Deleted, Processed, LocalTo, InKadList, OneConnecting, BuddyOk, Conn.ConnInv;
    match e
    case Process(t) => ProcessListOk(s, t);
    case TryToConnect(c, o, now) =>
      if c in s.kad { TriedListOk(s, c, o, now); }
    case ConnectionEstablished(c, udp) =>
      if c in s.kad { EstablishedLocal(s, c, udp); ListOkLocal(s, Step(s, e), c); }
    case ConnectionLost(c, delete) =>
      if c in s.kad { DisconnectLocal(s, c, delete); ListOkLocal(s, Step(s, e), c); }
    case DeleteClient(c) =>
      if c in s.kad { DeletedLocal(s, c); ListOkLocal(s, Step(s, e), c); }
    case _ =>
  }

  /** Then the Kad list never names a deleted client or a client twice. */
  lemma {:induction false} CarefulRunsNeverBreak<C>(es: seq<Event<C>>)
    requires Careful(es)
    ensures ListOk(Run(es)) && !Run(es).broken
  {
    if es != [] {
      CarefulRunsNeverBreak(es[..|es| - 1]);
      StepListOk(Run(es[..|es| - 1]), es[|es| - 1]);
    }
  }

  // ----- exactly when a deleted client can still be touched -----

  /** A tick on which nobody answers and nothing goes away. */
  function QuietTick<C>(): Tick<C> {
    Tick(true, k => Visit(HandshakeOpen, AckSent), false, [], k => false, 0)
  }

  /** On a quiet tick the walk deletes nobody and leaves the entries ahead of it alone. */
  lemma QuietVisit<C>(s: State<C>, flag: BuddyStatus, c: C)
    requires s.kad.Keys == s.ccs.Keys && c in s.kad && c in s.kadList
    ensures var s' := VisitClient(s, flag, c, true, Visit(HandshakeOpen, AckSent), 0).s;
      s'.kad.Keys == s.kad.Keys && (s'.kadList == s.kadList || s'.kadList == RemoveFirst(s.kadList, c))
  {
    hide RemoveFirst;
  }

  /** So it arrives at a dead entry that is still ahead. */
  lemma {:induction false} QuietLoopBreaks<C>(s: State<C>, i: nat, flag: BuddyStatus, k: nat, j: nat)
    requires s.kad.Keys == s.ccs.Keys && i <= j < |s.kadList| && s.kadList[j] !in s.kad
    ensures KadLoop(s, i, flag, true, QuietTick<C>().visits, k, 0).s.broken
    decreases |s.kadList| - i
  {
    hide VisitClient, RemoveFirst;
    if s.kadList[i] in s.kad {
      var c := s.kadList[i];
      var w := VisitClient(s, flag, c, true, Visit(HandshakeOpen, AckSent), 0);
      QuietVisit(s, flag, c);
      KadLoopStep(s, i, flag, true, QuietTick<C>().visits, k, 0);
      var next := NextIndex(s, w.s, i);
      RemoveFirstTail(s.kadList, i);
      assert w.s.kadList[next..] == s.kadList[i + 1..];
      var j' := next + (j - i - 1);
      assert w.s.kadList[j'] == w.s.kadList[next..][j - i - 1] == s.kadList[i + 1..][j - i - 1] == s.kadList[j];
      QuietLoopBreaks(w.s, next, w.flag, k + 1, j');
    }
  }

  /** Of two occurrences, removing the first leaves one. */
  lemma {:induction false} SecondStays<C>(list: seq<C>, i: nat, j: nat)
    requires i < j < |list| && list[i] == list[j]
    ensures list[j] in RemoveFirst(list, list[j])
  {
    if list[0] == list[j] {
      assert list[1..][j - 1] == list[j];
    } else {
      SecondStays(list[1..], i - 1, j - 1);
    }
  }

  lemma QuietTickBreaks<C>(s: State<C>, c: C)
    requires s.kad.Keys == s.ccs.Keys && c in s.kadList && c !in s.kad
    ensures Processed(s, QuietTick()).broken
  {
    hide KadLoop;
    var j :| 0 <= j < |s.kadList| && s.kadList[j] == c;
    QuietLoopBreaks(s, 0, Disconnected, 0, j);
  }

  ghost predicate NoTcpRequest<C>(es: seq<Event<C>>) {
    forall i :: 0 <= i < |es| ==> !es[i].RequestTcp?
  }

  /** A client that is listed twice, or dead and listed. */
  lemma BadEntry<C>(s: State<C>) returns (c: C)
    requires !ListOk(s)
    ensures c in s.kadList && (c in s.kad ==> c in RemoveFirst(s.kadList, c))
  {
    if c' :| c' in s.kadList && c' !in s.kad {
      c := c';
    } else {
      var i, j :| 0 <= i < j < |s.kadList| && s.kadList[i] == s.kadList[j];
      SecondStays(s.kadList, i, j);
      c := s.kadList[j];
    }
  }

  /** Without a sound Kad list, deleting one client and one quiet tick are enough. */
  lemma BadListBreaks<C>(s: State<C>) returns (es: seq<Event<C>>)
    requires Inv(s) && !s.broken && !ListOk(s)
    ensures NoTcpRequest(es) && RunFrom(s, es).broken
  {
    hide Processed, InKadList, OneConnecting, BuddyOk, Conn.ConnInv, QuietTick;
    var c := BadEntry(s);
    var d, t := DeleteClient(c), Event<C>.Process(QuietTick<C>());
    es := [d, t];
    var s1 := Step(s, d);
    assert es[..1] == [d] && es[..1][..0] == [];
    assert RunFrom(s, es[..1]) == s1;
    assert !s1.broken && c in s1.kadList && c !in s1.kad;
    assert s1.kad.Keys == s1.ccs.Keys;
    QuietTickBreaks(s1, c);
  }

  /** A sound list stays sound as long as RequestTCP is not used. */
  lemma {:induction false} SoundListStays<C>(s: State<C>, es: seq<Event<C>>)
    requires Inv(s) && !s.broken && ListOk(s) && NoTcpRequest(es)
    ensures ListOk(RunFrom(s, es)) && !RunFrom(s, es).broken
  {
    if es != [] {
      var n := |es| - 1;
      assert NoTcpRequest(es[..n]);
      SoundListStays(s, es[..n]);
      StepListOk(RunFrom(s, es[..n]), es[n]);
    }
  }

  /** From s on, some run without another TCP request touches a deleted client. */
  ghost predicate CanBreak<C(!new)>(s: State<C>)
    requires Inv(s)
  {
    exists es: seq<Event<C>> :: NoTcpRequest(es) && RunFrom(s, es).broken
  }

  /** The danger is exactly a Kad list with a duplicate or a dead entry. */
  lemma CanBreakIffListBad<C(!new)>(s: State<C>)
    requires Inv(s) && !s.broken
    ensures CanBreak(s) <==> !ListOk(s)
  {
    if ListOk(s) {
      forall es: seq<Event<C>> | NoTcpRequest(es) ensures !RunFrom(s, es).broken {
        SoundListStays(s, es);
      }
    } else {
      var es := BadListBreaks(s);
    }
  }

  /** And it is a TCP request for a client waiting in the list, and no other event, that brings it about. */
  lemma StepEndangers<C(!new)>(s: State<C>, e: Event<C>)
    requires Inv(s) && !s.broken && !CanBreak(s)
    ensures Inv(Step(s, e)) && !Step(s, e).broken
    ensures CanBreak(Step(s, e)) <==> e.RequestTcp? && !HarmlessTcpRequest(s, e.c, e.hasSocket)
  {
    CanBreakIffListBad(s);
    StepKeeps(s, e);
    if e.RequestTcp? { RequestTcpDuplicates(s, e.c, e.hasSocket); }
    if e.RequestTcp? ==> HarmlessTcpRequest(s, e.c, e.hasSocket) { StepListOk(s, e); }
    CanBreakIffListBad(Step(s, e));
  }

  /** A tick on which every connection attempt has the same outcome. */
  function TickWith(o: TryOutcome): Tick<nat> {
    Tick(true, k => Visit(o, AckSent), false, [], k => false, 0)
  }

  /** A state in which only client 1 exists. */
  function Lone(k: KadState, list: seq<nat>, way: ConnectingState): State<nat> {
    State(map[1 := k], map[1 := way], list, if way == CCS_NONE then [] else [Attempt(1, 0)], None, Disconnected, true, false)
  }

  /**
   Client 1 is checked; the connection is made and lost, and the client, waiting in some queue, is
   kept. Before its entry goes away it is requested again, and that attempt is refused, which always
   deletes a client that nobody chats with.
   */
  function SecondRequestRun(): seq<Event<nat>> {
    [Event.RequestTcp(1, false), Event.Process(TickWith(Started(CCS_DIRECTTCP))),
     Event.ConnectionEstablished(1, true), Event.ConnectionLost(1, false),
     Event.RequestTcp(1, false), Event.Process(TickWith(Refused(true)))]
  }

  /** A run that is not careful and does break: the second entry is left over when its client goes. */
  lemma SecondRequestBreaks()
    ensures Run(SecondRequestRun()).broken && !Careful(SecondRequestRun())
  {
    hide Inv, Run, Step, Lone;
    var es := SecondRequestRun();
    assert Run(es[..4]) == Lone(KS_NONE, [1], CCS_NONE) by { FirstRequest(es); }
    RunUpTo(es, 4);
    RunUpTo(es, 5);
    SecondRequest();
    assert es[..6] == es;
    if Careful(es) { CarefulRunsNeverBreak(es); }
  }

  lemma FirstRequest(es: seq<Event<nat>>)
    requires es == SecondRequestRun()
    ensures Run(es[..4]) == Lone(KS_NONE, [1], CCS_NONE)
  {
    hide Inv, Step, Lone;
    assert Run(es[..0]) == Empty();
    RunUpTo(es, 0);
    RunUpTo(es, 1);
    RunUpTo(es, 2);
    RunUpTo(es, 3);
    FirstRequestQueued();
    FirstRequestStarted();
    FirstRequestEnds();
  }

  lemma FirstRequestQueued()
    ensures Step(Empty<nat>(), Event.RequestTcp(1, false)) == Lone(KS_QUEUED_FWCHECK, [1], CCS_NONE)
  {
  }

  lemma FirstRequestStarted()
    ensures Step(Lone(KS_QUEUED_FWCHECK, [1], CCS_NONE), Event.Process(TickWith(Started(CCS_DIRECTTCP))))
      == Lone(KS_CONNECTING_FWCHECK, [1], CCS_DIRECTTCP)
  {
    hide Processed;
    StartingTick();
  }

  lemma StartingTick()
    ensures Processed(Lone(KS_QUEUED_FWCHECK, [1], CCS_NONE), TickWith(Started(CCS_DIRECTTCP)))
      == Lone(KS_CONNECTING_FWCHECK, [1], CCS_DIRECTTCP)
  {
    var s, t := Lone(KS_QUEUED_FWCHECK, [1], CCS_NONE), TickWith(Started(CCS_DIRECTTCP));
    var w := VisitClient(s, Disconnected, 1, true, t.visits(0), 0);
    assert w.s == Lone(KS_CONNECTING_FWCHECK, [1], CCS_DIRECTTCP);
    assert KadLoop(w.s, 1, w.flag, true, t.visits, 1, 0) == w;
    KadLoopStep(s, 0, Disconnected, true, t.visits, 0, 0);
  }

  lemma FirstRequestEnds()
    ensures var s3 := Lone(KS_CONNECTED_FWCHECK, [1], CCS_NONE);
      && Step(Lone(KS_CONNECTING_FWCHECK, [1], CCS_DIRECTTCP), Event.ConnectionEstablished(1, true)) == s3
      && Step(s3, Event.ConnectionLost(1, false)) == Lone(KS_NONE, [1], CCS_NONE)
  {
    hide Processed;
  }

  lemma SecondRequest()
    ensures Step(Step(Lone(KS_NONE, [1], CCS_NONE), Event.RequestTcp(1, false)), Event.Process(TickWith(Refused(true)))).broken
  {
    hide Processed;
    var s := Lone(KS_QUEUED_FWCHECK, [1, 1], CCS_NONE);
    assert Step(Lone(KS_NONE, [1], CCS_NONE), Event.RequestTcp(1, false)) == s;
    RefusingTick(s);
  }

  /** The first entry's client is deleted with that entry, and the walk goes on to the second. */
  lemma RefusingTick(s: State<nat>)
    requires s == Lone(KS_QUEUED_FWCHECK, [1, 1], CCS_NONE)
    ensures Processed(s, TickWith(Refused(true))).broken
  {
    var t := TickWith(Refused(true));
    var w := VisitClient(s, Disconnected, 1, true, t.visits(0), 0);
    assert w.s.kadList == [1] && 1 !in w.s.kad;
    KadLoopStep(s, 0, Disconnected, true, t.visits, 0, 0);
    assert KadLoop(w.s, 0, w.flag, true, t.visits, 1, 0).s.broken;
  }

  lemma RunUpTo<C>(es: seq<Event<C>>, n: nat)
    requires n < |es|
    ensures Run(es[..n + 1]) == Step(Run(es[..n]), es[n])
  {
    assert es[..n + 1][..n] == es[..n];
  }

  // ----- connected, but without a buddy -----

  /** A client of the given list that is connected as a buddy. */
  ghost predicate SpareBuddy<C>(kad: map<C, KadState>, list: seq<C>) {
    exists c :: c in list && c in kad && kad[c] == KS_CONNECTED_BUDDY
  }

  lemma SpareBuddySplit<C>(kad: map<C, KadState>, kad': map<C, KadState>, list: seq<C>, i: nat)
    requires i < |list| && list[i] in kad
    requires forall d :: d != list[i] ==> (d in kad' <==> d in kad) && (d in kad ==> kad'[d] == kad[d])
    requires list[i] in kad' && kad'[list[i]] == KS_CONNECTED_BUDDY ==> kad[list[i]] == KS_CONNECTED_BUDDY
    ensures SpareBuddy(kad, list[i..]) <==> kad[list[i]] == KS_CONNECTED_BUDDY || SpareBuddy(kad', list[i + 1..])
  {
    var c, rest := list[i], list[i + 1..];
    assert list[i..] == [c] + rest;
    if SpareBuddy(kad', rest) {
      var d :| d in rest && d in kad' && kad'[d] == KS_CONNECTED_BUDDY;
      assert d in list[i..] && kad[d] == KS_CONNECTED_BUDDY;
    }
    if SpareBuddy(kad, list[i..]) && kad[c] != KS_CONNECTED_BUDDY {
      var d :| d in list[i..] && d in kad && kad[d] == KS_CONNECTED_BUDDY;
      assert d in rest && kad'[d] == KS_CONNECTED_BUDDY;
    }
  }

  /** With the status Connected and the buddy gone, the walk neither picks a new buddy nor starts an attempt. */
  lemma {:induction false} LoopWithoutBuddy<C>(s: State<C>, i: nat, flag: BuddyStatus, running: bool, visits: nat -> Visit, k: nat, now: nat)
    requires s.kad.Keys == s.ccs.Keys && i <= |s.kadList|
    requires s.status == Connected && s.buddy == None && (flag == Disconnected || flag == Connected)
    ensures var w := KadLoop(s, i, flag, running, visits, k, now);
      && w.s.status == Connected && w.s.buddy == None
      && (w.flag == Disconnected || w.flag == Connected)
      && (!w.s.broken ==>
           (w.flag == Connected <==> (flag == Connected || (running && SpareBuddy(s.kad, s.kadList[i..])))))
    decreases |s.kadList| - i
  {
    hide VisitClient;
    if i < |s.kadList| && s.kadList[i] in s.kad {
      var c := s.kadList[i];
      var w := VisitClient(s, flag, c, running, visits(k), now);
      KadLoopStep(s, i, flag, running, visits, k, now);
      VisitShape(s, flag, c, running, visits(k), now);
      VisitWithoutBuddy(s, flag, c, running, visits(k), now);
      LoopWithoutBuddy(w.s, NextIndex(s, w.s, i), w.flag, running, visits, k + 1, now);
      assert w.s.kadList[NextIndex(s, w.s, i)..] == s.kadList[i + 1..] by { RemoveFirstTail(s.kadList, i); }
      if running { SpareBuddySplit(s.kad, w.s.kad, s.kadList, i); }
    }
  }

  lemma VisitWithoutBuddy<C>(s: State<C>, flag: BuddyStatus, c: C, running: bool, v: Visit, now: nat)
    requires s.kad.Keys == s.ccs.Keys && c in s.kad
    requires s.status == Connected && s.buddy == None
    ensures var w := VisitClient(s, flag, c, running, v, now);
      && w.s.status == Connected && w.s.buddy == None
      && w.flag == (if running && s.kad[c] == KS_CONNECTED_BUDDY then Connected else flag)
      && (c in w.s.kad && w.s.kad[c] == KS_CONNECTED_BUDDY ==> s.kad[c] == KS_CONNECTED_BUDDY)
      && (forall d :: d != c ==> (d in w.s.kad <==> d in s.kad) && (d in s.kad ==> w.s.kad[d] == s.kad[d]))
  {
    hide Tried, LocalTo, KadAfterTry;
    if running {
      match s.kad[c]
      case KS_QUEUED_FWCHECK => TriedWithoutBuddy(s, c, v.o, now);
      case KS_QUEUED_FWCHECK_UDP => TriedWithoutBuddy(s, c, v.o, now);
      case KS_CONNECTED_FWCHECK => if v.ack.AckViaConnect? { TriedWithoutBuddy(s, c, v.ack.o, now); }
      case _ =>
    }
  }

  lemma TriedWithoutBuddy<C>(s: State<C>, c: C, o: TryOutcome, now: nat)
    requires s.kad.Keys == s.ccs.Keys && c in s.kad && s.buddy == None
    requires s.kad[c] in {KS_QUEUED_FWCHECK, KS_QUEUED_FWCHECK_UDP, KS_CONNECTED_FWCHECK}
    ensures var s' := Tried(s, c, o, now);
      && s'.status == s.status && s'.buddy == None
      && (c in s'.kad ==> s'.kad[c] != KS_CONNECTED_BUDDY)
      && (forall d :: d != c ==> (d in s'.kad <==> d in s.kad) && (d in s.kad ==> s'.kad[d] == s.kad[d]))
  {
    hide Tried;
    TriedLocal(s, c, o, now);
  }

  lemma {:induction false} CleanUpStatus<C>(s: State<C>, unused: seq<C>)
    requires s.buddy == None
    ensures CleanedUp(s, unused).status == s.status && CleanedUp(s, unused).buddy == None
  {
    if unused != [] { CleanUpStatus(s, unused[..|unused| - 1]); }
  }

  lemma {:induction false} TimeoutStatus<C>(s: State<C>, i: nat, deletes: nat -> bool, k: nat, now: nat)
    requires s.buddy == None
    ensures TimedOut(s, i, deletes, k, now).status == s.status && TimedOut(s, i, deletes, k, now).buddy == None
    decreases |s.connecting| - i
  {
    if i < |s.connecting| {
      var e := s.connecting[i];
      if now < e.inserted + CONNECT_TIMEOUT {
        TimeoutStatus(s, i + 1, deletes, k, now);
      } else if e.client in s.ccs {
        var s1 := s.(connecting := RemoveAt(s.connecting, i), asserts := s.asserts && s.ccs[e.client] != CCS_NONE);
        var s2 := AfterDisconnect(s1, e.client, deletes(k));
        RemoveAttemptShrinks(s1.connecting, e.client);
        RemoveAttemptShrinks(RemoveAttempt(s1.connecting, e.client), e.client);
        TimeoutStatus(s2, i, deletes, k + 1, now);
      }
    }
  }

  /**
   The status may say Connected while there is no buddy, after the buddy's client was deleted. A
   Process that comes to its end leaves it that way exactly if Kad runs and some other client of the
   list is connected as a buddy; no Process makes that client the buddy.
   */
  lemma ConnectedWithoutBuddyStays<C>(s: State<C>, t: Tick<C>)
    requires Inv(s) && !s.broken
    requires s.status == Connected && s.buddy == None
    ensures Processed(s, t).buddy == None
    ensures !Processed(s, t).broken ==>
      (Processed(s, t).status == Connected <==> t.running && SpareBuddy(s.kad, s.kadList))
    ensures ListOk(s) ==> !Processed(s, t).broken
  {
    hide KadLoop;
    assert s.kadList[0..] == s.kadList;
    var w := KadLoop(s, 0, Disconnected, t.running, t.visits, 0, t.now);
    LoopWithoutBuddy(s, 0, Disconnected, t.running, t.visits, 0, t.now);
    var s2 := BuddyDropped(LoopEnd(w), t.dropBuddy);
    CleanUpStatus(s2, t.unused);
    TimeoutStatus(CleanedUp(s2, t.unused), 0, t.deletes, 0, t.now);
    if ListOk(s) { ProcessListOk(s, t); }
  }

  function WithKad(kad: map<nat, KadState>, list: seq<nat>, buddy: Option<nat>, status: BuddyStatus): State<nat> {
    State(kad, map c | c in kad :: CCS_NONE, list, [], buddy, status, true, false)
  }

  /** Two clients ask for a buddy before there is one, both connect, and the one that is taken is deleted. */
  function LostBuddyRun(): seq<Event<nat>> {
    [Event.IncomingBuddy(1), Event.IncomingBuddy(2),
     Event.ConnectionEstablished(1, true), Event.ConnectionEstablished(2, true),
     Event.Process(QuietTick()), Event.DeleteClient(1)]
  }

  /** The state in which both are connected and the Kad list is walked. */
  function BothConnected(buddy: Option<nat>, status: BuddyStatus): State<nat> {
    WithKad(map[1 := KS_CONNECTED_BUDDY, 2 := KS_CONNECTED_BUDDY], [1, 2], buddy, status)
  }

  /** So it does happen: this run ends Connected without a buddy, and stays so at every quiet tick. */
  lemma LostBuddyHappens()
    ensures var s := Run(LostBuddyRun());
      !s.broken && ListOk(s) && s.status == Connected && s.buddy == None && SpareBuddy(s.kad, s.kadList)
  {
    hide Step, RunFrom, Run, Inv, BothConnected;
    var es := LostBuddyRun();
    BothConnect(es);
    RunUpTo(es, 4);
    RunUpTo(es, 5);
    assert es[..6] == es;
    BuddyTaken();
    BuddyDeleted();
    SpareIsTwo(Run(es));
  }

  lemma SpareIsTwo(s: State<nat>)
    requires s == WithKad(map[2 := KS_CONNECTED_BUDDY], [2], None, Connected)
    ensures !s.broken && ListOk(s) && s.status == Connected && s.buddy == None && SpareBuddy(s.kad, s.kadList)
  {
    assert 2 in s.kadList && s.kad[2] == KS_CONNECTED_BUDDY;
  }

  lemma BothConnect(es: seq<Event<nat>>)
    requires es == LostBuddyRun()
    ensures Run(es[..4]) == BothConnected(None, Disconnected)
  {
    hide Step, Inv, WithKad, BothConnected;
    assert es[..0] == [] && Run(es[..0]) == Empty();
    RunUpTo(es, 0);
    RunUpTo(es, 1);
    RunUpTo(es, 2);
    RunUpTo(es, 3);
    BothAsk();
    BothAnswer();
  }

  lemma BothAsk()
    ensures Step(Step(Empty<nat>(), Event.IncomingBuddy(1)), Event.IncomingBuddy(2))
      == WithKad(map[1 := KS_INCOMING_BUDDY, 2 := KS_INCOMING_BUDDY], [1, 2], None, Disconnected)
  {
    hide Processed, RequestedTcp, Tried, Deleted;
    var s1 := WithKad(map[1 := KS_INCOMING_BUDDY], [1], None, Disconnected);
    assert Step(Empty<nat>(), Event.IncomingBuddy(1)) == s1;
  }

  lemma BothAnswer()
    ensures var s2 := WithKad(map[1 := KS_INCOMING_BUDDY, 2 := KS_INCOMING_BUDDY], [1, 2], None, Disconnected);
      Step(Step(s2, Event.ConnectionEstablished(1, true)), Event.ConnectionEstablished(2, true)) == BothConnected(None, Disconnected)
  {
    hide Processed, RequestedTcp, Tried, Deleted;
    var s2 := WithKad(map[1 := KS_INCOMING_BUDDY, 2 := KS_INCOMING_BUDDY], [1, 2], None, Disconnected);
    var s3 := WithKad(map[1 := KS_CONNECTED_BUDDY, 2 := KS_INCOMING_BUDDY], [1, 2], None, Disconnected);
    assert Step(s2, Event.ConnectionEstablished(1, true)) == s3;
  }

  /** The walk takes the first client as the buddy and leaves the second as it is. */
  lemma BuddyTaken()
    ensures Step(BothConnected(None, Disconnected), Event.Process(QuietTick())) == BothConnected(Some(1), Connected)
  {
    var s, s', t := BothConnected(None, Disconnected), BothConnected(Some(1), Connected), QuietTick<nat>();
    assert VisitClient(s, Disconnected, 1, true, t.visits(0), 0) == Visited(s', Connected);
    assert VisitClient(s', Connected, 2, true, t.visits(1), 0) == Visited(s', Connected);
    KadLoopStep(s, 0, Disconnected, true, t.visits, 0, 0);
    KadLoopStep(s', 1, Connected, true, t.visits, 1, 0);
    assert KadLoop(s', 2, Connected, true, t.visits, 2, 0) == Visited(s', Connected);
  }

  lemma BuddyDeleted()
    ensures Step(BothConnected(Some(1), Connected), Event.DeleteClient(1)) == WithKad(map[2 := KS_CONNECTED_BUDDY], [2], None, Connected)
  {
    assert RemoveFirst([1, 2], 1) == [2];
  }
}
