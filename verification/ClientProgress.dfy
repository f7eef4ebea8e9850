/** What becomes of a client that waits in the Kad list: requests that are answered get through. */
module ClientProgress {
  import opened Wrappers
  import opened ClientMachine
  import opened BuddyProofs
  import opened ClientRuns
  import Conn = ConnectingProofs

  // ----- what leaves a client alone -----

  /** Client c is the same in both states: its states, its place in the Kad list, its life. */
  ghost predicate Same<C>(s: State<C>, s': State<C>, c: C)
    requires s.kad.Keys == s.ccs.Keys && s'.kad.Keys == s'.ccs.Keys
  {
    && (c in s.kad <==> c in s'.kad)
    && (c in s.kad ==> s'.kad[c] == s.kad[c] && s'.ccs[c] == s.ccs[c])
    && (c in s.kadList <==> c in s'.kadList)
  }

  /** No attempt to connect to c has timed out. */
  ghost predicate Young<C>(list: seq<Attempt<C>>, c: C, now: nat) {
    forall e :: e in list && e.client == c ==> now < e.inserted + 45_000
  }

  lemma {:induction false} RemoveAttemptFrom<C>(list: seq<Attempt<C>>, d: C)
    ensures forall e :: e in RemoveAttempt(list, d) ==> e in list
  {
    if list != [] && list[0].client != d { RemoveAttemptFrom(list[1..], d); }
  }

  /** Nothing happens to c, and none of its attempts times out. */
  ghost predicate Alone<C>(s: State<C>, s': State<C>, c: C, now: nat) {
    && s.kad.Keys == s.ccs.Keys && s'.kad.Keys == s'.ccs.Keys
    && Same(s, s', c) && (Young(s.connecting, c, now) ==> Young(s'.connecting, c, now))
  }

  lemma AloneThrough<C>(s: State<C>, s1: State<C>, s2: State<C>, c: C, now: nat)
    requires Alone(s, s1, c, now) && Alone(s1, s2, c, now)
    ensures Alone(s, s2, c, now)
  {
  }

  lemma AloneSelf<C>(s: State<C>, c: C, now: nat)
    requires s.kad.Keys == s.ccs.Keys
    ensures Alone(s, s, c, now) && Alone(s, s.(broken := true), c, now)
  {
  }

  /** A connected buddy c stays the buddy. */
  ghost predicate BuddyKept<C>(s: State<C>, s': State<C>, c: C) {
    s.status == Connected ==> s'.status == Connected && (s.buddy == Some(c) ==> s'.buddy == Some(c))
  }

  lemma DeletedOther<C>(s: State<C>, d: C, c: C, now: nat)
    requires s.kad.Keys == s.ccs.Keys && c != d
    ensures Alone(s, Deleted(s, d), c, now) && BuddyKept(s, Deleted(s, d), c) && Deleted(s, d).status == s.status
  {
    RemoveAttemptFrom(s.connecting, d);
  }

  lemma DisconnectOther<C>(s: State<C>, d: C, delete: bool, c: C, now: nat)
    requires s.kad.Keys == s.ccs.Keys && c != d && d in s.kad
    ensures var s' := AfterDisconnect(s, d, delete);
      Alone(s, s', c, now) && BuddyKept(s, s', c) && s'.status == s.status
  {
    hide Deleted;
    RemoveAttemptFrom(s.connecting, d);
    var s1 := RemovedConnecting(s.(kad := s.kad[d := KS_NONE], ccs := s.ccs[d := CCS_NONE]), d);
    DeletedOther(s1, d, c, now);
  }

  lemma TriedOther<C>(s: State<C>, d: C, o: TryOutcome, c: C, now: nat)
    requires s.kad.Keys == s.ccs.Keys && c != d && d in s.kad
    ensures var s' := Tried(s, d, o, now);
      Alone(s, s', c, now) && BuddyKept(s, s', c) && s'.status == s.status
  {
    hide AfterDisconnect;
    RemoveAttemptFrom(s.connecting, d);
    var s1 := s.(kad := s.kad[d := KadTrying(s.kad[d])]);
    if o.Refused? && s.ccs[d] == CCS_NONE {
      DisconnectOther(s1.(ccs := s1.ccs[d := CCS_PRECONDITIONS]), d, o.delete, c, now);
    }
  }

  /** Another client's Kad state, the status and the buddy can change without c. */
  lemma ChangedOther<C>(s: State<C>, d: C, k: KadState, status: BuddyStatus, buddy: Option<C>, asserts: bool, c: C, now: nat)
    requires s.kad.Keys == s.ccs.Keys && c != d && d in s.kad
    ensures Alone(s, s.(kad := s.kad[d := k], status := status, buddy := buddy, asserts := asserts), c, now)
    ensures Alone(s, RemovedFromKadList(s, d), c, now)
  {
  }

  /** The visit to another client. */
  lemma VisitLeavesAlone<C>(s: State<C>, flag: BuddyStatus, d: C, running: bool, v: Visit, c: C, now: nat)
    requires s.kad.Keys == s.ccs.Keys && c != d && d in s.kad
    ensures Alone(s, VisitClient(s, flag, d, running, v, now).s, c, now)
  {
    var s0 := if running then s else s.(kad := s.kad[d := KS_NONE]);
    ChangedOther(s, d, s0.kad[d], s.status, s.buddy, s.asserts, c, now);
    RunningVisitLeavesAlone(s0, flag, d, v, c, now);
    AloneThrough(s, s0, VisitRunning(s0, flag, d, v, now).s, c, now);
  }

  lemma RunningVisitLeavesAlone<C>(s: State<C>, flag: BuddyStatus, d: C, v: Visit, c: C, now: nat)
    requires s.kad.Keys == s.ccs.Keys && c != d && d in s.kad
    ensures Alone(s, VisitRunning(s, flag, d, v, now).s, c, now)
  {
    hide Tried, Young, Same, RemovedFromKadList;
    ChangedOther(s, d, KS_NONE, s.status, s.buddy, s.asserts, c, now);
    ChangedOther(s, d, s.kad[d], Connected, Some(d), s.asserts, c, now);
    ChangedOther(s, d, s.kad[d], s.status, s.buddy, s.asserts, c, now);
    ChangedOther(s, d, s.kad[d], s.status, s.buddy, s.asserts && s.status == Connecting, c, now);
    assert s.(kad := s.kad[d := s.kad[d]]) == s;
    match s.kad[d]
    case KS_QUEUED_FWCHECK => TriedOther(s, d, v.o, c, now);
    case KS_QUEUED_FWCHECK_UDP => TriedOther(s, d, v.o, c, now);
    case KS_CONNECTED_FWCHECK =>
      if v.ack.AckViaConnect? {
        var s1 := Tried(s, d, v.ack.o, now);
        TriedOther(s, d, v.ack.o, c, now);
        if d in s1.kad {
          ChangedOther(s1, d, KS_NONE, s1.status, s1.buddy, s1.asserts, c, now);
          AloneThrough(s, s1, s1.(kad := s1.kad[d := KS_NONE]), c, now);
        }
      }
    case KS_QUEUED_BUDDY =>
      var s1 := s.(status := Connecting, kad := s.kad[d := KS_CONNECTING_BUDDY]);
      ChangedOther(s, d, KS_CONNECTING_BUDDY, Connecting, s.buddy, s.asserts, c, now);
      TriedOther(s1, d, v.o, c, now);
      AloneThrough(s, s1, Tried(s1, d, v.o, now), c, now);
    case _ =>
  }

  lemma VisitKeepsBuddy<C>(s: State<C>, flag: BuddyStatus, d: C, running: bool, v: Visit, c: C, now: nat)
    requires s.kad.Keys == s.ccs.Keys && c != d && d in s.kad
    ensures var w := VisitClient(s, flag, d, running, v, now);
      BuddyKept(s, w.s, c) && (w.flag == Disconnected ==> flag == Disconnected)
  {
    hide Tried, Young, Same;
    var s0 := if running then s else s.(kad := s.kad[d := KS_NONE]);
    match s0.kad[d]
    case KS_QUEUED_FWCHECK => TriedOther(s0, d, v.o, c, now);
    case KS_QUEUED_FWCHECK_UDP => TriedOther(s0, d, v.o, c, now);
    case KS_CONNECTED_FWCHECK => if v.ack.AckViaConnect? { TriedOther(s0, d, v.ack.o, c, now); }
    case _ =>
  }

  // ----- the walk comes by -----

  /** There is no buddy, and c is the only one that is connected as one or, before any attempt, queued to be one. */
  ghost predicate OnlyCandidate<C>(s: State<C>, c: C) {
    && s.status != Connected
    && forall d :: d in s.kad && d != c ==>
         s.kad[d] != KS_CONNECTED_BUDDY && (s.status == Disconnected ==> s.kad[d] != KS_QUEUED_BUDDY)
  }

  /** As long as that is so, the status waits for c. */
  ghost predicate Waits<C>(s: State<C>, s': State<C>, c: C) {
    OnlyCandidate(s, c) ==> OnlyCandidate(s', c) && s'.status == s.status
  }

  lemma VisitWaits<C>(s: State<C>, flag: BuddyStatus, d: C, running: bool, v: Visit, c: C, now: nat)
    requires s.kad.Keys == s.ccs.Keys && c != d && d in s.kad
    ensures Waits(s, VisitClient(s, flag, d, running, v, now).s, c)
  {
    hide Tried, KadAfterTry;
    var s0 := if running then s else s.(kad := s.kad[d := KS_NONE]);
    match s0.kad[d]
    case KS_QUEUED_FWCHECK => TriedIsNoBuddy(s0, d, v.o, now);
    case KS_QUEUED_FWCHECK_UDP => TriedIsNoBuddy(s0, d, v.o, now);
    case KS_CONNECTED_FWCHECK => if v.ack.AckViaConnect? { TriedIsNoBuddy(s0, d, v.ack.o, now); }
    case _ =>
  }

  lemma TriedIsNoBuddy<C>(s: State<C>, d: C, o: TryOutcome, now: nat)
    requires s.kad.Keys == s.ccs.Keys && d in s.kad
    requires s.kad[d] in {KS_QUEUED_FWCHECK, KS_QUEUED_FWCHECK_UDP, KS_CONNECTED_FWCHECK}
    ensures var s' := Tried(s, d, o, now);
      && s'.status == s.status
      && (forall e :: e in s'.kad ==> e in s.kad && (e != d ==> s'.kad[e] == s.kad[e]))
      && (d in s'.kad ==> s'.kad[d] != KS_CONNECTED_BUDDY && s'.kad[d] != KS_QUEUED_BUDDY)
  {
    hide Tried;
    TriedLocal(s, d, o, now);
  }

  /** The walk goes on behind c. */
  lemma {:induction false} LoopBehind<C>(s: State<C>, i: nat, flag: BuddyStatus, running: bool, visits: nat -> Visit, k: nat, now: nat, c: C)
    requires s.kad.Keys == s.ccs.Keys && i <= |s.kadList| && c !in s.kadList[i..]
    ensures var w := KadLoop(s, i, flag, running, visits, k, now);
      Alone(s, w.s, c, now) && BuddyKept(s, w.s, c) && Waits(s, w.s, c) && (w.flag == Disconnected ==> flag == Disconnected)
    decreases |s.kadList| - i
  {
    hide VisitClient, Young, Same;
    AloneSelf(s, c, now);
    if i < |s.kadList| && s.kadList[i] in s.kad {
      var d := s.kadList[i];
      assert d in s.kadList[i..];
      var w := VisitClient(s, flag, d, running, visits(k), now);
      VisitLeavesAlone(s, flag, d, running, visits(k), c, now);
      VisitKeepsBuddy(s, flag, d, running, visits(k), c, now);
      VisitWaits(s, flag, d, running, visits(k), c, now);
      KadLoopStep(s, i, flag, running, visits, k, now);
      VisitShape(s, flag, d, running, visits(k), now);
      RestOfWalk(s, w.s, i);
      LoopBehind(w.s, NextIndex(s, w.s, i), w.flag, running, visits, k + 1, now, c);
      AloneThrough(s, w.s, KadLoop(s, i, flag, running, visits, k, now).s, c, now);
    }
  }

  /** What is ahead of the walk after a visit is what was ahead of it before, less the entry visited. */
  lemma RestOfWalk<C>(s: State<C>, s': State<C>, i: nat)
    requires i < |s.kadList| && (s'.kadList == s.kadList || s'.kadList == RemoveFirst(s.kadList, s.kadList[i]))
    ensures NextIndex(s, s', i) <= |s'.kadList| && s'.kadList[NextIndex(s, s', i)..] == s.kadList[i + 1..]
  {
    RemoveFirstTail(s.kadList, i);
  }

  /** c is visited in s1, which finds it as it was in s, and after that w leaves it as the visit does. */
  ghost predicate Reached<C>(s: State<C>, s1: State<C>, w1: Visited<C>, w: Visited<C>, c: C, now: nat) {
    && Alone(s, s1, c, now) && Waits(s, s1, c) && (s.status == Connected ==> s1.status == Connected)
    && Alone(w1.s, w.s, c, now) && BuddyKept(w1.s, w.s, c) && Waits(w1.s, w.s, c) && (w.flag == Disconnected ==> w1.flag == Disconnected)
  }

  lemma OccursOnce<C>(s: State<C>, i: nat)
    requires ListOk(s) && i < |s.kadList|
    ensures s.kadList[i] in s.kad && s.kadList[i] !in s.kadList[i + 1..]
  {
  }

  /** The entry at j, seen in the rest of the list. */
  lemma EntryOfRest<C>(list: seq<C>, rest: seq<C>, next: nat, i: nat, j: nat)
    requires i < j < |list| && next <= |rest| && rest[next..] == list[i + 1..]
    ensures next + (j - i - 1) < |rest| && rest[next + (j - i - 1)] == list[j] && list[j] in list[i + 1..]
  {
    assert rest[next + (j - i - 1)] == rest[next..][j - i - 1] == list[i + 1..][j - i - 1];
  }

  /** The walk reaches the client at place j. */
  lemma {:induction false} LoopReaches<C>(s: State<C>, i: nat, flag: BuddyStatus, running: bool, visits: nat -> Visit, k: nat, now: nat, j: nat)
    returns (s1: State<C>, flag1: BuddyStatus)
    requires s.kad.Keys == s.ccs.Keys && ListOk(s) && i <= j < |s.kadList|
    ensures s.kadList[j] in s1.kad && s1.kad.Keys == s1.ccs.Keys && ListOk(s1) && s.kadList[j] in s1.kadList
    ensures Reached(s, s1, VisitClient(s1, flag1, s.kadList[j], running, visits(k + (j - i)), now),
                    KadLoop(s, i, flag, running, visits, k, now), s.kadList[j], now)
    decreases j - i
  {
    hide VisitClient, Young, Same, OnlyCandidate, ListOk, RemoveFirst, KadLoop;
    OccursOnce(s, i);
    OccursOnce(s, j);
    var c, d := s.kadList[j], s.kadList[i];
    var w := VisitClient(s, flag, d, running, visits(k), now);
    KadLoopStep(s, i, flag, running, visits, k, now);
    VisitShape(s, flag, d, running, visits(k), now);
    RestOfWalk(s, w.s, i);
    var next := NextIndex(s, w.s, i);
    if i == j {
      s1, flag1 := s, flag;
      AloneSelf(s, c, now);
      LoopBehind(w.s, next, w.flag, running, visits, k + 1, now, c);
    } else {
      VisitListOk(s, flag, d, running, visits(k), now);
      var j' := next + (j - i - 1);
      EntryOfRest(s.kadList, w.s.kadList, next, i, j);
      s1, flag1 := LoopReaches(w.s, next, w.flag, running, visits, k + 1, now, j');
      VisitLeavesAlone(s, flag, d, running, visits(k), c, now);
      AloneThrough(s, w.s, s1, c, now);
      VisitWaits(s, flag, d, running, visits(k), c, now);
      VisitKeepsBuddy(s, flag, d, running, visits(k), c, now);
    }
  }

  // ----- the rest of a tick -----

  lemma {:induction false} CleanUpSpares<C>(s: State<C>, unused: seq<C>, c: C, now: nat)
    requires s.kad.Keys == s.ccs.Keys && c in s.kad && s.kad[c] != KS_NONE
    ensures var s' := CleanedUp(s, unused); Alone(s, s', c, now) && BuddyKept(s, s', c) && s'.status == s.status
  {
    hide Deleted, Young;
    if unused != [] {
      var d := unused[|unused| - 1];
      CleanUpSpares(s, unused[..|unused| - 1], c, now);
      var s1 := CleanedUp(s, unused[..|unused| - 1]);
      if d in s1.kad && s1.kad[d] == KS_NONE { DeletedOther(s1, d, c, now); }
    }
  }

  lemma {:induction false} TimeoutsSpare<C>(s: State<C>, i: nat, deletes: nat -> bool, k: nat, now: nat, c: C)
    requires s.kad.Keys == s.ccs.Keys && Young(s.connecting, c, now)
    ensures var s' := TimedOut(s, i, deletes, k, now); Alone(s, s', c, now) && BuddyKept(s, s', c) && s'.status == s.status
    decreases |s.connecting| - i
  {
    hide AfterDisconnect;
    if i < |s.connecting| {
      var e := s.connecting[i];
      if now < e.inserted + CONNECT_TIMEOUT {
        TimeoutsSpare(s, i + 1, deletes, k, now, c);
      } else if e.client in s.ccs {
        assert e in s.connecting && e.client != c;
        var s1 := s.(connecting := RemoveAt(s.connecting, i), asserts := s.asserts && s.ccs[e.client] != CCS_NONE);
        var s2 := AfterDisconnect(s1, e.client, deletes(k));
        TimedOutStep(s, i, deletes, k, now);
        DisconnectOther(s1, e.client, deletes(k), c, now);
        TimeoutsSpare(s2, i, deletes, k + 1, now, c);
      }
    }
  }

  /** What is gone or cleared by the end of the walk does not come back in the same tick. */
  ghost predicate Fallen<C>(s: State<C>, s': State<C>, c: C) {
    && (c !in s.kad ==> c !in s'.kad)
    && (c in s'.kad && s.kad[c] == KS_NONE ==> s'.kad[c] == KS_NONE)
    && (c !in s.kadList ==> c !in s'.kadList)
  }

  lemma {:induction false} CleanUpFalls<C>(s: State<C>, unused: seq<C>, c: C)
    requires s.kad.Keys == s.ccs.Keys
    ensures var s' := CleanedUp(s, unused); s'.kad.Keys == s'.ccs.Keys && Fallen(s, s', c)
  {
    if unused != [] {
      CleanUpFalls(s, unused[..|unused| - 1], c);
      DeletedLocal(CleanedUp(s, unused[..|unused| - 1]), unused[|unused| - 1]);
    }
  }

  lemma {:induction false} TimeoutsFall<C>(s: State<C>, i: nat, deletes: nat -> bool, k: nat, now: nat, c: C)
    requires s.kad.Keys == s.ccs.Keys
    ensures var s' := TimedOut(s, i, deletes, k, now); s'.kad.Keys == s'.ccs.Keys && Fallen(s, s', c)
    decreases |s.connecting| - i
  {
    hide AfterDisconnect;
    if i < |s.connecting| {
      var e := s.connecting[i];
      if now < e.inserted + CONNECT_TIMEOUT {
        TimeoutsFall(s, i + 1, deletes, k, now, c);
      } else if e.client in s.ccs {
        var s1 := s.(connecting := RemoveAt(s.connecting, i), asserts := s.asserts && s.ccs[e.client] != CCS_NONE);
        var s2 := AfterDisconnect(s1, e.client, deletes(k));
        TimedOutStep(s, i, deletes, k, now);
        DisconnectLocal(s1, e.client, deletes(k));
        TimeoutsFall(s2, i, deletes, k + 1, now, c);
      }
    }
  }

  // ----- a tick -----

  lemma InvKeys<C>(s: State<C>)
    requires Inv(s)
    ensures s.kad.Keys == s.ccs.Keys
  {
  }

  /**
   A tick that drops no buddy, as the client at place j of the Kad list sees it: the walk visits it
   once, with the outcome for that place, and the rest of the tick leaves a client alone that has a
   Kad state and no attempt of 45 seconds.
   */
  lemma TickVisits<C>(s: State<C>, t: Tick<C>, j: nat) returns (s1: State<C>, flag1: BuddyStatus)
    requires Inv(s) && ListOk(s) && !s.broken && !t.dropBuddy && j < |s.kadList|
    ensures s.kadList[j] in s1.kad && s1.kad.Keys == s1.ccs.Keys && ListOk(s1) && s.kadList[j] in s1.kadList
    ensures s.kad.Keys == s.ccs.Keys && !Processed(s, t).broken
    ensures var c := s.kadList[j];
      var s', w1 := Processed(s, t), VisitClient(s1, flag1, c, t.running, t.visits(j), t.now);
      && Alone(s, s1, c, t.now) && Waits(s, s1, c) && (s.status == Connected ==> s1.status == Connected)
      && w1.s.kad.Keys == w1.s.ccs.Keys && Fallen(w1.s, s', c)
      && (c in w1.s.kad && w1.s.kad[c] != KS_NONE && Young(w1.s.connecting, c, t.now) ==>
           && Alone(w1.s, s', c, t.now)
           && (w1.flag != Disconnected ==>
                BuddyKept(w1.s, s', c) && (OnlyCandidate(w1.s, c) ==> s'.status == w1.s.status)))
  {
    hide Young, OnlyCandidate, Inv, KadLoop, CleanedUp, TimedOut, VisitClient;
    InvKeys(s);
    assert !Processed(s, t).broken by { ProcessListOk(s, t); }
    var c := s.kadList[j];
    var w := KadLoop(s, 0, Disconnected, t.running, t.visits, 0, t.now);
    s1, flag1 := LoopReaches(s, 0, Disconnected, t.running, t.visits, 0, t.now, j);
    var s2 := LoopEnd(w);
    CleanUpFalls(s2, t.unused, c);
    var s3 := CleanedUp(s2, t.unused);
    TimeoutsFall(s3, 0, t.deletes, 0, t.now, c);
    if c in w.s.kad && w.s.kad[c] != KS_NONE && Young(w.s.connecting, c, t.now) {
      CleanUpSpares(s2, t.unused, c, t.now);
      TimeoutsSpare(s3, 0, t.deletes, 0, t.now, c);
    }
  }

  // ----- getting a buddy -----

  /** Client c gets the same answer wherever it stands in the Kad list. */
  ghost predicate Answers<C>(s: State<C>, t: Tick<C>, c: C, o: TryOutcome) {
    t.running && !t.dropBuddy && forall j :: 0 <= j < |s.kadList| && s.kadList[j] == c ==> t.visits(j) == Visit(o, AckSent)
  }

  lemma PlaceOf<C>(s: State<C>, c: C) returns (j: nat)
    requires Inv(s) && c in s.kad && s.kad[c] != KS_NONE
    ensures j < |s.kadList| && s.kadList[j] == c
  {
    j :| 0 <= j < |s.kadList| && s.kadList[j] == c;
  }

  /** With no buddy and nobody else asking, a queued buddy is tried at the next tick. */
  lemma BuddyIsTried<C>(s: State<C>, c: C, t: Tick<C>, way: ConnectingState)
    requires Inv(s) && ListOk(s) && !s.broken && s.status == Disconnected
    requires c in s.kad && s.kad[c] == KS_QUEUED_BUDDY && s.ccs[c] == CCS_NONE
    requires forall d :: d in s.kad && d != c ==> s.kad[d] != KS_QUEUED_BUDDY && s.kad[d] != KS_CONNECTED_BUDDY
    requires Answers(s, t, c, Started(way))
    ensures var s' := Processed(s, t);
      c in s'.kad && s'.kad[c] == KS_CONNECTING_BUDDY && s'.status == Connecting && c in s'.kadList
  {
    hide Inv, Processed, ListOk;
    var j := PlaceOf(s, c);
    var s1, flag1 := TickVisits(s, t, j);
    NoAttempt(s, c, t.now);
    var w1 := VisitClient(s1, flag1, c, true, t.visits(j), t.now);
    assert w1.s.kad[c] == KS_CONNECTING_BUDDY && Young(w1.s.connecting, c, t.now) && w1.flag == Connecting;
    assert OnlyCandidate(w1.s, c);
  }

  lemma NoAttempt<C>(s: State<C>, c: C, now: nat)
    requires Inv(s) && c in s.kad && s.ccs[c] == CCS_NONE
    ensures Young(s.connecting, c, now)
  {
  }

  /**
   The connection to the buddy that was asked is there, and nobody else is connected as one: the next
   tick makes it the buddy, wherever the others stand and whatever they are answered.
   */
  lemma BuddyIsTaken<C>(s: State<C>, c: C, udp: bool, t: Tick<C>)
    requires Inv(s) && ListOk(s) && !s.broken && s.status == Connecting
    requires c in s.kad && s.kad[c] == KS_CONNECTING_BUDDY
    requires forall d :: d in s.kad ==> s.kad[d] != KS_CONNECTED_BUDDY
    requires t.running && !t.dropBuddy
    ensures var s' := RunFrom(s, [ConnectionEstablished(c, udp), Process(t)]);
      s'.status == Connected && s'.buddy == Some(c) && c in s'.kad && s'.kad[c] == KS_CONNECTED_BUDDY && c in s'.kadList
  {
    hide Inv, Processed, ListOk, RunFrom, Step;
    InvKeys(s);
    var s0 := Step(s, ConnectionEstablished(c, udp));
    TwoSteps(s, ConnectionEstablished(c, udp), Process(t));
    AfterConnection(s, c, udp);
    TakenAtTick(s0, c, t);
  }

  lemma TwoSteps<C>(s: State<C>, e: Event<C>, f: Event<C>)
    requires Inv(s)
    ensures Inv(Step(s, e)) && RunFrom(s, [e, f]) == Step(Step(s, e), f)
  {
    hide Inv, Step;
    InvKeys(s);
    StepKeeps(s, e);
    InvKeys(Step(s, e));
    assert [e, f][..1] == [e] && [e][..0] == [];
    assert RunFrom(s, [e]) == Step(s, e);
  }

  /** What a connection makes of the Kad state: the buddy that was asked for, or that asked, is connected as one. */
  lemma AfterConnection<C>(s: State<C>, c: C, udp: bool)
    requires Inv(s) && ListOk(s) && !s.broken && c in s.kad
    ensures var s' := Step(s, ConnectionEstablished(c, udp));
      && Inv(s') && ListOk(s') && !s'.broken && s'.status == s.status && s'.buddy == s.buddy && s'.kadList == s.kadList
      && s'.kad.Keys == s.kad.Keys && (forall d :: d in s.kad && d != c ==> s'.kad[d] == s.kad[d])
      && s'.ccs[c] == CCS_NONE
      && (s.kad[c] == KS_CONNECTING_BUDDY || s.kad[c] == KS_INCOMING_BUDDY ==> s'.kad[c] == KS_CONNECTED_BUDDY)
      && (s.kad[c] == KS_CONNECTING_FWCHECK ==> s'.kad[c] == KS_CONNECTED_FWCHECK)
      && (s.kad[c] == KS_CONNECTING_FWCHECK_UDP ==> s'.kad[c] == if udp then KS_FWCHECK_UDP else KS_NONE)
      && (s.kad[c] !in {KS_CONNECTING_BUDDY, KS_INCOMING_BUDDY, KS_CONNECTING_FWCHECK, KS_CONNECTING_FWCHECK_UDP} ==>
           s'.kad[c] == s.kad[c])
  {
    hide Inv, ListOk, RemoveAttempt;
    InvKeys(s);
    StepKeeps(s, ConnectionEstablished(c, udp));
    StepListOk(s, ConnectionEstablished(c, udp));
  }

  lemma TakenAtTick<C>(s: State<C>, c: C, t: Tick<C>)
    requires Inv(s) && ListOk(s) && !s.broken && s.status == Connecting && t.running && !t.dropBuddy
    requires c in s.kad && s.kad[c] == KS_CONNECTED_BUDDY && s.ccs[c] == CCS_NONE
    requires forall d :: d in s.kad && d != c ==> s.kad[d] != KS_CONNECTED_BUDDY
    ensures var s' := Step(s, Process(t));
      s'.status == Connected && s'.buddy == Some(c) && c in s'.kad && s'.kad[c] == KS_CONNECTED_BUDDY && c in s'.kadList
  {
    hide Inv, Processed, ListOk, Tried;
    var j := PlaceOf(s, c);
    var s1, flag1 := TickVisits(s, t, j);
    NoAttempt(s, c, t.now);
    assert OnlyCandidate(s, c);
    var w1 := VisitClient(s1, flag1, c, true, t.visits(j), t.now);
    assert w1 == Visited(s1.(buddy := Some(c), status := Connected), Connected);
  }

  /** While there is a buddy, whoever else is on the way to become one is let go at the next tick. */
  lemma LateOnesGo<C>(s: State<C>, c: C, t: Tick<C>)
    requires Inv(s) && ListOk(s) && !s.broken && s.status == Connected && t.running && !t.dropBuddy
    requires c in s.kad && s.kad[c] in {KS_QUEUED_BUDDY, KS_INCOMING_BUDDY, KS_CONNECTING_BUDDY}
    ensures var s' := Processed(s, t); c in s'.kad ==> s'.kad[c] == KS_NONE
  {
    hide Inv, Processed, ListOk, Tried;
    var j := PlaceOf(s, c);
    var s1, flag1 := TickVisits(s, t, j);
  }

  // ----- firewall checks -----

  /** Off the Kad list: a listed client without a Kad state is taken off at the next tick. */
  lemma IdleOnesLeave<C>(s: State<C>, c: C, t: Tick<C>)
    requires Inv(s) && ListOk(s) && !s.broken && !t.dropBuddy
    requires c in s.kad && s.kad[c] == KS_NONE
    ensures c !in Processed(s, t).kadList
  {
    hide Inv, Processed, ListOk, Tried;
    if c in s.kadList {
      var j :| 0 <= j < |s.kadList| && s.kadList[j] == c;
      var s1, flag1 := TickVisits(s, t, j);
      var w1 := VisitClient(s1, flag1, c, t.running, t.visits(j), t.now);
      assert c !in w1.s.kadList by { ClearedLeaves(s1, flag1, c, t.running, t.visits(j), t.now); }
    } else {
      StaysOff(s, c, t);
    }
  }

  lemma ClearedLeaves<C>(s: State<C>, flag: BuddyStatus, c: C, running: bool, v: Visit, now: nat)
    requires s.kad.Keys == s.ccs.Keys && ListOk(s) && c in s.kad && c in s.kadList
    requires s.kad[c] == KS_NONE || !running
    ensures c !in VisitClient(s, flag, c, running, v, now).s.kadList
  {
    hide Tried;
    RemoveFirstNoDuplicates(s.kadList, c);
  }

  lemma StaysOff<C>(s: State<C>, c: C, t: Tick<C>)
    requires Inv(s) && c !in s.kadList
    ensures c !in Processed(s, t).kadList
  {
    hide Inv, KadLoop, CleanedUp, TimedOut;
    InvKeys(s);
    var w := KadLoop(s, 0, Disconnected, t.running, t.visits, 0, t.now);
    LoopBehind(s, 0, Disconnected, t.running, t.visits, 0, t.now, c);
    var s2 := BuddyDropped(LoopEnd(w), t.dropBuddy);
    CleanUpFalls(s2, t.unused, c);
    TimeoutsFall(CleanedUp(s2, t.unused), 0, t.deletes, 0, t.now, c);
  }

  /** A queued check, over TCP or UDP, whose attempt starts, is connecting after the tick. */
  lemma CheckStarts<C>(s: State<C>, c: C, t: Tick<C>, way: ConnectingState)
    requires Inv(s) && ListOk(s) && !s.broken && Answers(s, t, c, Started(way))
    requires c in s.kad && s.kad[c] in {KS_QUEUED_FWCHECK, KS_QUEUED_FWCHECK_UDP} && s.ccs[c] == CCS_NONE
    ensures var s' := Processed(s, t);
      && s'.kad.Keys == s'.ccs.Keys && c in s'.kad && c in s'.kadList && s'.ccs[c] != CCS_NONE
      && s'.kad[c] == if s.kad[c] == KS_QUEUED_FWCHECK then KS_CONNECTING_FWCHECK else KS_CONNECTING_FWCHECK_UDP
  {
    hide Inv, Processed, ListOk;
    var j := PlaceOf(s, c);
    var s1, flag1 := TickVisits(s, t, j);
    NoAttempt(s, c, t.now);
    var w1 := VisitClient(s1, flag1, c, true, t.visits(j), t.now);
    assert Young(w1.s.connecting, c, t.now);
  }

  /** A connected TCP check is acknowledged at the next tick and is over with that. */
  lemma CheckAcknowledged<C>(s: State<C>, c: C, t: Tick<C>)
    requires Inv(s) && ListOk(s) && !s.broken && t.running && !t.dropBuddy
    requires c in s.kad && s.kad[c] == KS_CONNECTED_FWCHECK
    ensures var s' := Processed(s, t); c in s'.kad ==> s'.kad[c] == KS_NONE
  {
    hide Inv, Processed, ListOk, Tried;
    var j := PlaceOf(s, c);
    var s1, flag1 := TickVisits(s, t, j);
  }

  /** A UDP check whose request was sent stays as it is until it is answered or the connection is lost. */
  lemma UdpCheckStays<C>(s: State<C>, c: C, t: Tick<C>)
    requires Inv(s) && ListOk(s) && !s.broken && t.running && !t.dropBuddy
    requires c in s.kad && s.kad[c] == KS_FWCHECK_UDP && s.ccs[c] == CCS_NONE
    ensures var s' := Processed(s, t); c in s'.kad && s'.kad[c] == KS_FWCHECK_UDP && c in s'.kadList
  {
    hide Inv, Processed, ListOk, Tried;
    var j := PlaceOf(s, c);
    var s1, flag1 := TickVisits(s, t, j);
    NoAttempt(s, c, t.now);
  }

  /** A state of a run over which the invariants hold. */
  ghost predicate Sound<C>(s: State<C>) { Inv(s) && ListOk(s) && !s.broken }

  lemma TickKeepsSound<C>(s: State<C>, t: Tick<C>)
    requires Sound(s)
    ensures Sound(Step(s, Process(t)))
  {
    hide Inv, ListOk, Processed;
    StepKeeps(s, Process(t));
    SoundAfterTick(s, t);
  }

  lemma SoundAfterTick<C>(s: State<C>, t: Tick<C>)
    requires Sound(s)
    ensures ListOk(Processed(s, t)) && !Processed(s, t).broken
  {
    hide ListOk, Processed;
    ProcessListOk(s, t);
  }

  /**
   A TCP check from its queue to its end: connecting after the first tick, connected with the
   connection, done after the second tick and off the Kad list after the third, whatever happens to
   all the other clients in those ticks.
   */
  lemma TcpCheckGetsThrough<C>(s: State<C>, c: C, t1: Tick<C>, way: ConnectingState, udp: bool, t2: Tick<C>, t3: Tick<C>)
    requires Sound(s) && c in s.kad && s.kad[c] == KS_QUEUED_FWCHECK && s.ccs[c] == CCS_NONE
    requires Answers(s, t1, c, Started(way))
    ensures var s1 := Step(s, Process(t1));
      && Sound(s1) && c in s1.kad && s1.kad[c] == KS_CONNECTING_FWCHECK
      && var s2 := Step(s1, ConnectionEstablished(c, udp));
      && Sound(s2) && c in s2.kad && s2.kad[c] == KS_CONNECTED_FWCHECK
      && (t2.running && !t2.dropBuddy ==>
           var s3 := Step(s2, Process(t2));
           && Sound(s3) && (c in s3.kad ==> s3.kad[c] == KS_NONE)
           && (!t3.dropBuddy ==> c !in Step(s3, Process(t3)).kadList))
  {
    hide Inv, Processed, ListOk, Tried, Answers;
    InvKeys(s);
    CheckStarts(s, c, t1, way);
    TickKeepsSound(s, t1);
    var s1 := Step(s, Process(t1));
    InvKeys(s1);
    var s2 := Step(s1, ConnectionEstablished(c, udp));
    AfterConnection(s1, c, udp);
    InvKeys(s2);
    if t2.running && !t2.dropBuddy {
      CheckAcknowledged(s2, c, t2);
      TickKeepsSound(s2, t2);
      var s3 := Step(s2, Process(t2));
      if !t3.dropBuddy { GoneOnesLeave(s3, c, t3); }
    }
  }

  lemma GoneOnesLeave<C>(s: State<C>, c: C, t: Tick<C>)
    requires Sound(s) && !t.dropBuddy && (c in s.kad ==> s.kad[c] == KS_NONE)
    ensures c !in Step(s, Process(t)).kadList
  {
    hide Inv, Processed;
    if c in s.kad { IdleOnesLeave(s, c, t); } else { StaysOff(s, c, t); }
  }

  /**
   A UDP check from its queue to its end: connecting after the first tick; with the connection either
   under way or, when its request cannot be sent, over; over when the connection is lost; and off the
   Kad list at the tick after that.
   */
  lemma UdpCheckGetsThrough<C>(s: State<C>, c: C, t1: Tick<C>, way: ConnectingState, udp: bool, delete: bool, t2: Tick<C>)
    requires Sound(s) && c in s.kad && s.kad[c] == KS_QUEUED_FWCHECK_UDP && s.ccs[c] == CCS_NONE
    requires Answers(s, t1, c, Started(way)) && !t2.dropBuddy
    ensures var s1 := Step(s, Process(t1));
      && Sound(s1) && c in s1.kad && s1.kad[c] == KS_CONNECTING_FWCHECK_UDP
      && var s2 := Step(s1, ConnectionEstablished(c, udp));
      && Sound(s2) && c in s2.kad && s2.kad[c] == (if udp then KS_FWCHECK_UDP else KS_NONE)
      && (!udp ==> c !in Step(s2, Process(t2)).kadList)
      && var s3 := Step(s2, ConnectionLost(c, delete));
      && Sound(s3) && c !in Step(s3, Process(t2)).kadList
  {
    hide Inv, Processed, ListOk, Tried, Answers;
    InvKeys(s);
    CheckStarts(s, c, t1, way);
    TickKeepsSound(s, t1);
    var s1 := Step(s, Process(t1));
    InvKeys(s1);
    var s2 := Step(s1, ConnectionEstablished(c, udp));
    AfterConnection(s1, c, udp);
    InvKeys(s2);
    if !udp { GoneOnesLeave(s2, c, t2); }
    LostConnection(s2, c, delete);
    GoneOnesLeave(Step(s2, ConnectionLost(c, delete)), c, t2);
  }

  lemma LostConnection<C>(s: State<C>, c: C, delete: bool)
    requires Sound(s) && c in s.kad
    ensures var s' := Step(s, ConnectionLost(c, delete));
      Sound(s') && (c in s'.kad <==> !delete) && (c in s'.kad ==> s'.kad[c] == KS_NONE && s'.ccs[c] == CCS_NONE)
  {
    StepKeeps(s, ConnectionLost(c, delete));
    StepListOk(s, ConnectionLost(c, delete));
  }

  // ----- letting go -----

  /** With Kad down every visit takes its client off the list. */
  lemma {:induction false} LoopDown<C>(s: State<C>, visits: nat -> Visit, k: nat, now: nat)
    requires s.kad.Keys == s.ccs.Keys && forall c :: c in s.kadList ==> c in s.kad
    ensures var w := KadLoop(s, 0, Disconnected, false, visits, k, now);
      w.s.kadList == [] && w.flag == Disconnected && w.s.broken == s.broken
    decreases |s.kadList|
  {
    if s.kadList != [] {
      KadLoopStep(s, 0, Disconnected, false, visits, k, now);
      var w := VisitClient(s, Disconnected, s.kadList[0], false, visits(k), now);
      assert w.s.kadList == s.kadList[1..];
      LoopDown(w.s, visits, k + 1, now);
    }
  }

  /** So one tick with Kad down leaves an empty list, no buddy and the status Disconnected. */
  lemma KadDownEmptiesList<C>(s: State<C>, t: Tick<C>)
    requires Sound(s) && !t.running
    ensures var s' := Processed(s, t); s'.kadList == [] && s'.buddy == None && s'.status == Disconnected
  {
    hide KadLoop, CleanedUp, TimedOut;
    LoopDown(s, t.visits, 0, t.now);
    LoopIsSound(s, t);
    var s1 := LoopEnd(KadLoop(s, 0, Disconnected, t.running, t.visits, 0, t.now));
    CleanUpStatus(s1, t.unused);
    TimeoutStatus(CleanedUp(s1, t.unused), 0, t.deletes, 0, t.now);
    var l := Processed(s, t).kadList;
    if l != [] {
      NothingListed(s1, t.unused, t.deletes, t.now, l[0]);
    }
  }

  lemma NothingListed<C>(s: State<C>, unused: seq<C>, deletes: nat -> bool, now: nat, c: C)
    requires s.kad.Keys == s.ccs.Keys && s.kadList == []
    ensures c !in TimedOut(CleanedUp(s, unused), 0, deletes, 0, now).kadList
  {
    hide CleanedUp, TimedOut;
    CleanUpFalls(s, unused, c);
    TimeoutsFall(CleanedUp(s, unused), 0, deletes, 0, now, c);
  }

  /** The buddy, if there is one, has lost its Kad state. */
  ghost predicate BuddyIdle<C>(s: State<C>) {
    s.buddy.Some? ==> s.buddy.value in s.kad && s.kad[s.buddy.value] == KS_NONE
  }

  /** A buddy that is not needed any more loses its Kad state in that tick and its place and its role at the next. */
  lemma DroppedBuddyLeaves<C>(s: State<C>, t: Tick<C>, t2: Tick<C>)
    requires Sound(s) && t.dropBuddy && !t2.dropBuddy
    ensures var s1 := Step(s, Process(t));
      && Sound(s1) && BuddyIdle(s1)
      && var s2 := Step(s1, Process(t2));
      s1.buddy.Some? ==> s1.buddy.value !in s2.kadList && s2.buddy != s1.buddy
  {
    hide Inv, ListOk, Processed;
    InvKeys(s);
    TickKeepsSound(s, t);
    var s1 := Step(s, Process(t));
    InvKeys(s1);
    DropIdles(s, t);
    TickKeepsSound(s1, t2);
    if s1.buddy.Some? {
      IdleOnesLeave(s1, s1.buddy.value, t2);
      BuddyIsListed(Step(s1, Process(t2)));
    }
  }

  lemma BuddyIsListed<C>(s: State<C>)
    requires Inv(s)
    ensures s.buddy.Some? ==> s.buddy.value in s.kadList
  {
  }

  lemma DropIdles<C>(s: State<C>, t: Tick<C>)
    requires Sound(s) && t.dropBuddy
    ensures BuddyIdle(Processed(s, t))
  {
    hide KadLoop, CleanedUp, TimedOut, ListOk, Inv;
    InvKeys(s);
    var w := KadLoop(s, 0, Disconnected, t.running, t.visits, 0, t.now);
    LoopIsSound(s, t);
    var s2 := BuddyDropped(LoopEnd(w), true);
    assert BuddyIdle(s2);
    CleanUpKeepsIdle(s2, t.unused);
    TimeoutsKeepIdle(CleanedUp(s2, t.unused), 0, t.deletes, 0, t.now);
  }

  lemma LoopIsSound<C>(s: State<C>, t: Tick<C>)
    requires Sound(s)
    ensures var w := KadLoop(s, 0, Disconnected, t.running, t.visits, 0, t.now);
      && w.s.kad.Keys == w.s.ccs.Keys && !w.s.broken
      && (w.s.buddy.Some? ==> w.s.buddy.value in w.s.kad && w.s.buddy.value in w.s.kadList)
  {
    hide KadLoop;
    assert s.kadList[0..] == s.kadList;
    LoopKeeps(s, 0, Disconnected, t.running, t.visits, 0, t.now);
    LoopListOk(s, 0, Disconnected, t.running, t.visits, 0, t.now);
  }

  /** Deleting or disconnecting any client leaves a listed idle buddy idle, or takes it away. */
  ghost predicate IdleListed<C>(s: State<C>) {
    s.kad.Keys == s.ccs.Keys && BuddyIdle(s) && (s.buddy.Some? ==> s.buddy.value in s.kadList)
  }

  lemma {:induction false} CleanUpKeepsIdle<C>(s: State<C>, unused: seq<C>)
    requires IdleListed(s)
    ensures IdleListed(CleanedUp(s, unused))
  {
    if unused != [] { CleanUpKeepsIdle(s, unused[..|unused| - 1]); }
  }

  lemma {:induction false} TimeoutsKeepIdle<C>(s: State<C>, i: nat, deletes: nat -> bool, k: nat, now: nat)
    requires IdleListed(s)
    ensures IdleListed(TimedOut(s, i, deletes, k, now))
    decreases |s.connecting| - i
  {
    hide AfterDisconnect;
    if i < |s.connecting| {
      var e := s.connecting[i];
      if now < e.inserted + CONNECT_TIMEOUT {
        TimeoutsKeepIdle(s, i + 1, deletes, k, now);
      } else if e.client in s.ccs {
        var s1 := s.(connecting := RemoveAt(s.connecting, i), asserts := s.asserts && s.ccs[e.client] != CCS_NONE);
        var s2 := AfterDisconnect(s1, e.client, deletes(k));
        TimedOutStep(s, i, deletes, k, now);
        DisconnectLocal(s1, e.client, deletes(k));
        TimeoutsKeepIdle(s2, i, deletes, k + 1, now);
      }
    }
  }

  // ----- requests and attempts -----

  /** A request for a client that is not known yet is queued at once. */
  lemma NewClientsAreQueued<C>(s: State<C>, c: C, hasSocket: bool)
    requires Inv(s) && !s.broken && c !in s.kad
    ensures Queued(s, Step(s, RequestTcp(c, hasSocket)), c, KS_QUEUED_FWCHECK)
    ensures Queued(s, Step(s, RequestBuddy(c)), c, KS_QUEUED_BUDDY)
    ensures Queued(s, Step(s, IncomingBuddy(c)), c, KS_INCOMING_BUDDY)
    ensures Queued(s, Step(s, RequestUdpCheck(c)), c, KS_QUEUED_FWCHECK_UDP)
  {
    hide Processed, Tried, Established, Deleted, AfterDisconnect, Queued;
    var list := AddedToKadList(s, c).kadList;
    IsQueued(s, c, KS_QUEUED_FWCHECK, s.kadList + [c]);
    IsQueued(s, c, KS_QUEUED_BUDDY, list);
    IsQueued(s, c, KS_INCOMING_BUDDY, list);
    IsQueued(s, c, KS_QUEUED_FWCHECK_UDP, list);
  }

  lemma IsQueued<C>(s: State<C>, c: C, k: KadState, list: seq<C>)
    requires s.kad.Keys == s.ccs.Keys && (list == s.kadList + [c] || (list == s.kadList && c in list))
    ensures var s1 := Known(s, c); Queued(s, s1.(kad := s1.kad[c := k], kadList := list), c, k)
  {
  }

  /** So are, for a known client without a Kad state, a buddy request and, if it has no socket, a TCP check. */
  lemma IdleClientsAreQueued<C>(s: State<C>, c: C)
    requires Inv(s) && !s.broken && c in s.kad && s.kad[c] == KS_NONE
    ensures Queued(s, Step(s, RequestTcp(c, false)), c, KS_QUEUED_FWCHECK) && Step(s, RequestTcp(c, true)) == s
    ensures Queued(s, Step(s, RequestBuddy(c)), c, KS_QUEUED_BUDDY)
    ensures Step(s, IncomingBuddy(c)) == s && Step(s, RequestUdpCheck(c)) == s
  {
    hide Processed, Tried, Established, Deleted, AfterDisconnect, Queued;
    IsQueued(s, c, KS_QUEUED_FWCHECK, s.kadList + [c]);
    IsQueued(s, c, KS_QUEUED_BUDDY, AddedToKadList(s, c).kadList);
  }

  /** A client that has a Kad state already is left as it is. */
  lemma BusyClientsAreLeft<C>(s: State<C>, c: C, hasSocket: bool)
    requires Inv(s) && !s.broken && c in s.kad && s.kad[c] != KS_NONE
    ensures Step(s, RequestTcp(c, hasSocket)) == s && Step(s, RequestBuddy(c)) == s
    ensures Step(s, IncomingBuddy(c)) == s && Step(s, RequestUdpCheck(c)) == s
  {
    hide Processed, Tried, Established, Deleted, AfterDisconnect;
  }

  ghost predicate Queued<C>(s: State<C>, s': State<C>, c: C, k: KadState) {
    && c in s'.kad && s'.kad[c] == k && c in s'.kadList
    && (forall d :: d in s.kad && d != c ==> d in s'.kad && s'.kad[d] == s.kad[d])
    && (forall d :: d in s.kadList ==> d in s'.kadList)
  }

  /**
   What an attempt comes to. While one is running nothing is tried. Otherwise a refusal leaves a
   client without any state, or deletes it; an attempt that starts is listed with its time, and the
   client is connecting in the way that was found.
   */
  lemma AttemptEnds<C>(s: State<C>, c: C, o: TryOutcome, now: nat)
    requires Inv(s) && c in s.kad
    ensures var s' := Tried(s, c, o, now);
      && s'.kad.Keys == s'.ccs.Keys
      && (s.ccs[c] != CCS_NONE ==> s'.connecting == s.connecting && s'.ccs == s.ccs && c in s'.kad)
      && (s.ccs[c] == CCS_NONE && o == Refused(true) ==> c !in s'.kad)
      && (s.ccs[c] == CCS_NONE && o == Refused(false) ==>
           c in s'.kad && s'.kad[c] == KS_NONE && s'.ccs[c] == CCS_NONE && s'.connecting == s.connecting)
      && (s.ccs[c] == CCS_NONE && o.Started? ==>
           && c in s'.kad && s'.connecting == s.connecting + [Attempt(c, now)]
           && s'.ccs[c] == (if o.way == CCS_NONE then CCS_PRECONDITIONS else o.way))
      && (s.ccs[c] == CCS_NONE && (o.AlreadyConnected? || o.HandshakeOpen?) ==>
           c in s'.kad && s'.ccs[c] == CCS_NONE && s'.connecting == s.connecting)
  {
    hide BuddyInv;
    InvKeys(s);
    if s.ccs[c] == CCS_NONE {
      NotListed(s, c);
      RemoveAttemptNone(s.connecting, c);
    }
  }

  lemma NotListed<C>(s: State<C>, c: C)
    requires Inv(s) && c in s.kad && s.ccs[c] == CCS_NONE
    ensures !Attempting(s.connecting, c) && forall k :: 0 <= k < |s.connecting| ==> s.connecting[k].client != c
  {
  }

  /** A download that is given up ends the attempt, and nothing else. */
  lemma DropEndsAttempt<C>(s: State<C>, c: C)
    requires Inv(s) && c in s.kad
    ensures var s' := DownloadDropped(s, c);
      && c in s'.ccs && s'.ccs[c] == CCS_NONE && !Attempting(s'.connecting, c)
      && s'.kad == s.kad && s'.kadList == s.kadList && s'.buddy == s.buddy && s'.status == s.status
  {
    InvKeys(s);
    Conn.DroppedKeeps(s, c);
  }

  /** The cleanup deletes every unused client that has no Kad state, and no other. */
  lemma {:induction false} UnusedAreDeleted<C>(s: State<C>, unused: seq<C>, c: C)
    requires s.kad.Keys == s.ccs.Keys && c in s.kad
    ensures c in CleanedUp(s, unused).kad <==> !(c in unused && s.kad[c] == KS_NONE)
    ensures c in CleanedUp(s, unused).kad ==> CleanedUp(s, unused).kad[c] == s.kad[c]
    ensures CleanedUp(s, unused).kad.Keys == CleanedUp(s, unused).ccs.Keys
  {
    if unused != [] {
      var n := |unused| - 1;
      UnusedAreDeleted(s, unused[..n], c);
      assert c in unused <==> c in unused[..n] || c == unused[n];
    }
  }

  /** What the recorded ASSERTs say: each of these calls would fire one. */
  lemma AssertsAreRecorded<C>(s: State<C>, c: C, v: Visit, flag: BuddyStatus, deletes: nat -> bool, now: nat)
    requires s.kad.Keys == s.ccs.Keys && c in s.kad
    ensures s.kad[c] == KS_CONNECTING_BUDDY && s.status == Disconnected ==> !VisitRunning(s, flag, c, v, now).s.asserts
    ensures Attempting(s.connecting, c) || s.ccs[c] == CCS_NONE ==> !AddedConnecting(s, c, now).asserts
    ensures s.connecting == [Attempt(c, 0)] && s.ccs[c] == CCS_NONE && now >= 45_000 ==> !TimedOut(s, 0, deletes, 0, now).asserts
  {
    hide AfterDisconnect;
    if s.connecting == [Attempt(c, 0)] && s.ccs[c] == CCS_NONE && now >= 45_000 {
      var s1 := s.(connecting := RemoveAt(s.connecting, 0), asserts := false);
      TimedOutStep(s, 0, deletes, 0, now);
      AfterOne(s1, c, deletes(0));
    }
  }

  lemma AfterOne<C>(s: State<C>, c: C, delete: bool)
    requires s.connecting == []
    ensures var s' := AfterDisconnect(s, c, delete); s'.connecting == [] && s'.asserts == s.asserts
  {
  }
}
