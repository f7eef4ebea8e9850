/** The buddy machine over every run: srchybrid/ClientList.cpp. */
module BuddyProofs {
  import opened Wrappers
  import opened ClientMachine

  // ----- the invariant -----

  ghost predicate InKadList<C>(s: State<C>) {
    forall c :: c in s.kad && s.kad[c] != KS_NONE ==> c in s.kadList
  }

  /** At most one client is being connected to as a buddy, and none while the status is Disconnected. */
  ghost predicate OneConnecting<C>(s: State<C>) {
    && (forall c, d :: c in s.kad && d in s.kad && s.kad[c] == KS_CONNECTING_BUDDY && s.kad[d] == KS_CONNECTING_BUDDY ==> c == d)
    && (s.status == Disconnected ==> forall c :: c in s.kad ==> s.kad[c] != KS_CONNECTING_BUDDY)
  }

  /** The buddy is a live client of the Kad list, and the status says Connected. */
  ghost predicate BuddyOk<C>(s: State<C>) {
    s.buddy.Some? ==> s.buddy.value in s.kad && s.buddy.value in s.kadList && s.status == Connected
  }

  ghost predicate BuddyInv<C>(s: State<C>) {
    s.kad.Keys == s.ccs.Keys && InKadList(s) && OneConnecting(s) && BuddyOk(s)
  }

  /** What an operation may do to its own client without upsetting the buddy machine. */
  predicate Tame(k: KadState, k': KadState) {
    (k' == KS_NONE || k != KS_NONE) && (k' == KS_CONNECTING_BUDDY ==> k == KS_CONNECTING_BUDDY)
  }

  lemma LocalKeeps<C>(s: State<C>, s': State<C>, c: C)
    requires BuddyInv(s) && LocalTo(s, s', c)
    requires c in s'.kad ==> Tame(s.kad[c], s'.kad[c])
    ensures BuddyInv(s')
  {
  }

  lemma TryIsTame(k: KadState, k': KadState)
    requires KadAfterTry(k, k')
    ensures Tame(k, k')
  {
  }

  lemma NoneIsTame(k: KadState)
    ensures Tame(k, KS_NONE) && Tame(k, k)
  {
  }

  lemma EstablishIsTame(k: KadState, udp: bool)
    ensures Tame(k, KadEstablished(k, udp))
  {
  }

  // ----- the walk over the Kad list -----

  /** While the walk stands at i, an unseen buddy attempt lies ahead if the flag is still down. */
  ghost predicate WalkOk<C>(s: State<C>, i: nat, flag: BuddyStatus) {
    && BuddyInv(s) && i <= |s.kadList|
    && (flag == Disconnected ==>
         forall c :: c in s.kad && s.kad[c] == KS_CONNECTING_BUDDY ==> c in s.kadList[i..])
  }

  /** Dropping the first occurrence of the current entry shifts the rest up by one. */
  lemma {:induction false} RemoveFirstTail<C>(list: seq<C>, i: nat)
    requires i < |list|
    ensures RemoveFirst(list, list[i])[i..] == list[i + 1..]
  {
    var c := list[i];
    if list[0] == c {
      if i > 0 { assert list[1..][i..] == list[i + 1..]; }
    } else {
      assert list[1..][i - 1] == c;
      RemoveFirstTail(list[1..], i - 1);
      assert list[1..][i..] == list[i + 1..];
      assert RemoveFirst(list, c)[i..] == RemoveFirst(list[1..], c)[i - 1..];
    }
  }

  /** One entry later the walk is still in order. */
  lemma WalkStep<C>(s: State<C>, s': State<C>, i: nat, flag: BuddyStatus, flag': BuddyStatus)
    requires WalkOk(s, i, flag) && i < |s.kadList| && BuddyInv(s')
    requires s'.kadList == s.kadList || s'.kadList == RemoveFirst(s.kadList, s.kadList[i])
    requires flag' == Disconnected ==> flag == Disconnected
    requires flag' == Disconnected ==>
      forall c :: c in s'.kad && s'.kad[c] == KS_CONNECTING_BUDDY ==>
        c in s.kad && s.kad[c] == KS_CONNECTING_BUDDY && c != s.kadList[i]
    ensures WalkOk(s', if |s'.kadList| < |s.kadList| then i else i + 1, flag')
  {
    assert s.kadList[i..] == [s.kadList[i]] + s.kadList[i + 1..];
    if |s'.kadList| < |s.kadList| {
      RemoveFirstTail(s.kadList, i);
    }
  }

  /** The client's own operations, seen by the walk. */
  lemma WalkLocal<C>(s: State<C>, s': State<C>, i: nat, flag: BuddyStatus)
    requires WalkOk(s, i, flag) && i < |s.kadList| && s.kadList[i] in s.kad
    requires LocalTo(s, s', s.kadList[i])
    requires s.kadList[i] in s'.kad ==>
      Tame(s.kad[s.kadList[i]], s'.kad[s.kadList[i]]) && s'.kad[s.kadList[i]] != KS_CONNECTING_BUDDY
    ensures WalkOk(s', if |s'.kadList| < |s.kadList| then i else i + 1, flag)
  {
    LocalKeeps(s, s', s.kadList[i]);
    WalkStep(s, s', i, flag, flag);
  }

  function NextIndex<C>(s: State<C>, s': State<C>, i: nat): nat {
    if |s'.kadList| < |s.kadList| then i else i + 1
  }

  lemma VisitCleared<C>(s: State<C>, i: nat, flag: BuddyStatus)
    requires WalkOk(s, i, flag) && i < |s.kadList| && s.kadList[i] in s.kad
    ensures var s' := s.(kad := s.kad[s.kadList[i] := KS_NONE]);
      WalkOk(s', i + 1, flag) && WalkOk(s', i, flag)
  {
    var s' := s.(kad := s.kad[s.kadList[i] := KS_NONE]);
    WalkLocal(s, s', i, flag);
  }

  lemma VisitNone<C>(s: State<C>, i: nat, flag: BuddyStatus)
    requires WalkOk(s, i, flag) && i < |s.kadList| && s.kadList[i] in s.kad
    requires s.kad[s.kadList[i]] == KS_NONE
    ensures var s' := RemovedFromKadList(s, s.kadList[i]); WalkOk(s', i, flag) && |s'.kadList| < |s.kadList|
  {
    var c := s.kadList[i];
    var s' := RemovedFromKadList(s, c);
    assert InKadList(s');
    WalkStep(s, s', i, flag, flag);
  }

  lemma VisitTry<C>(s: State<C>, i: nat, flag: BuddyStatus, o: TryOutcome, now: nat)
    requires WalkOk(s, i, flag) && i < |s.kadList| && s.kadList[i] in s.kad
    requires s.kad[s.kadList[i]] != KS_CONNECTING_BUDDY
    ensures var s' := Tried(s, s.kadList[i], o, now);
      WalkOk(s', NextIndex(s, s', i), flag) && LocalTo(s, s', s.kadList[i])
  {
    var c := s.kadList[i];
    TriedLocal(s, c, o, now);
    var s' := Tried(s, c, o, now);
    if c in s'.kad { TryIsTame(s.kad[c], s'.kad[c]); }
    WalkLocal(s, s', i, flag);
  }

  /** A queued buddy is tried only while no other buddy attempt is running. */
  lemma VisitQueuedBuddy<C>(s: State<C>, i: nat, flag: BuddyStatus, o: TryOutcome, now: nat)
    requires WalkOk(s, i, flag) && i < |s.kadList| && s.kadList[i] in s.kad
    requires s.status == Disconnected
    ensures var c := s.kadList[i];
      var s1 := s.(status := Connecting, kad := s.kad[c := KS_CONNECTING_BUDDY]);
      var s' := Tried(s1, c, o, now);
      WalkOk(s', NextIndex(s, s', i), Connecting)
  {
    var c := s.kadList[i];
    var s1 := s.(status := Connecting, kad := s.kad[c := KS_CONNECTING_BUDDY]);
    assert BuddyInv(s1);
    TriedLocal(s1, c, o, now);
    var s' := Tried(s1, c, o, now);
    if c in s'.kad { TryIsTame(KS_CONNECTING_BUDDY, s'.kad[c]); }
    LocalKeeps(s1, s', c);
  }

  lemma VisitConnected<C>(s: State<C>, i: nat, flag: BuddyStatus)
    requires WalkOk(s, i, flag) && i < |s.kadList| && s.kadList[i] in s.kad
    ensures WalkOk(if s.status != Connected then s.(buddy := Some(s.kadList[i]), status := Connected) else s, i + 1, Connected)
  {
  }

  /** One entry of the Kad list, whatever its state and whatever the network answers. */
  lemma VisitKeeps<C>(s: State<C>, i: nat, flag: BuddyStatus, running: bool, v: Visit, now: nat)
    requires WalkOk(s, i, flag) && i < |s.kadList| && s.kadList[i] in s.kad
    ensures var w := VisitClient(s, flag, s.kadList[i], running, v, now);
      && WalkOk(w.s, NextIndex(s, w.s, i), w.flag) && w.s.broken == s.broken
  {
    if running {
      VisitRunningKeeps(s, i, flag, v, now);
    } else {
      VisitCleared(s, i, flag);
      VisitRunningKeeps(s.(kad := s.kad[s.kadList[i] := KS_NONE]), i, flag, v, now);
    }
  }

  lemma VisitRunningKeeps<C>(s: State<C>, i: nat, flag: BuddyStatus, v: Visit, now: nat)
    requires WalkOk(s, i, flag) && i < |s.kadList| && s.kadList[i] in s.kad
    ensures var w := VisitRunning(s, flag, s.kadList[i], v, now);
      && WalkOk(w.s, NextIndex(s, w.s, i), w.flag) && w.s.broken == s.broken
  {
    hide Tried, InKadList, OneConnecting, BuddyOk, RemoveFirst;
    match s.kad[s.kadList[i]]
    case KS_NONE => VisitNone(s, i, flag);
    case KS_QUEUED_FWCHECK => VisitTry(s, i, flag, v.o, now);
    case KS_QUEUED_FWCHECK_UDP => VisitTry(s, i, flag, v.o, now);
    case KS_CONNECTED_FWCHECK => VisitAck(s, i, flag, v.ack, now);
    case KS_QUEUED_BUDDY => VisitQueued(s, i, flag, v, now);
    case KS_CONNECTED_BUDDY => VisitConnected(s, i, flag);
    case KS_INCOMING_BUDDY => VisitOther(s, i, flag);
    case KS_CONNECTING_BUDDY => VisitOther(s, i, flag);
    case _ => VisitOther(s, i, flag);
  }

  lemma VisitOther<C>(s: State<C>, i: nat, flag: BuddyStatus)
    requires WalkOk(s, i, flag) && i < |s.kadList| && s.kadList[i] in s.kad
    ensures WalkOk(s.(kad := s.kad[s.kadList[i] := KS_NONE]), i + 1, flag)
    ensures s.kad[s.kadList[i]] != KS_CONNECTING_BUDDY ==> WalkOk(s, i + 1, flag)
    ensures forall a: bool :: WalkOk(s.(asserts := a), i + 1, Connecting)
  {
    VisitCleared(s, i, flag);
    if s.kad[s.kadList[i]] != KS_CONNECTING_BUDDY { WalkStep(s, s, i, flag, flag); }
  }

  lemma VisitQueued<C>(s: State<C>, i: nat, flag: BuddyStatus, v: Visit, now: nat)
    requires WalkOk(s, i, flag) && i < |s.kadList| && s.kadList[i] in s.kad
    requires s.kad[s.kadList[i]] == KS_QUEUED_BUDDY
    ensures var w := VisitRunning(s, flag, s.kadList[i], v, now);
      WalkOk(w.s, NextIndex(s, w.s, i), w.flag) && w.s.broken == s.broken
  {
    var c := s.kadList[i];
    if s.status == Disconnected {
      VisitQueuedBuddy(s, i, flag, v.o, now);
      TriedLocal(s.(status := Connecting, kad := s.kad[c := KS_CONNECTING_BUDDY]), c, v.o, now);
    } else if s.status == Connected {
      VisitCleared(s, i, flag);
    } else {
      WalkStep(s, s, i, flag, flag);
    }
  }

  lemma VisitAck<C>(s: State<C>, i: nat, flag: BuddyStatus, ack: AckWay, now: nat)
    requires WalkOk(s, i, flag) && i < |s.kadList| && s.kadList[i] in s.kad
    requires s.kad[s.kadList[i]] == KS_CONNECTED_FWCHECK
    ensures var c := s.kadList[i];
      var s1 := match ack case AckSent => s case AckViaConnect(o) => Tried(s, c, o, now);
      var s' := if c in s1.kad then s1.(kad := s1.kad[c := KS_NONE]) else s1;
      && s1.kad.Keys == s1.ccs.Keys
      && WalkOk(s', NextIndex(s, s', i), flag) && s'.broken == s.broken
  {
    var c := s.kadList[i];
    match ack
    case AckSent => VisitCleared(s, i, flag);
    case AckViaConnect(o) =>
      VisitTry(s, i, flag, o, now);
      var s1 := Tried(s, c, o, now);
      if c in s1.kad {
        WalkLocal(s, s1.(kad := s1.kad[c := KS_NONE]), i, flag);
      }
  }

  /** The whole walk keeps the machine in order, and ends with the flag up if an attempt is running. */
  lemma {:induction false} LoopKeeps<C>(s: State<C>, i: nat, flag: BuddyStatus, running: bool, visits: nat -> Visit, k: nat, now: nat)
    requires WalkOk(s, i, flag)
    ensures var w := KadLoop(s, i, flag, running, visits, k, now);
      && BuddyInv(w.s)
      && (!w.s.broken && w.flag == Disconnected ==> forall c :: c in w.s.kad ==> w.s.kad[c] != KS_CONNECTING_BUDDY)
    decreases |s.kadList| - i
  {
    if i < |s.kadList| && s.kadList[i] in s.kad {
      var c := s.kadList[i];
      var w := VisitClient(s, flag, c, running, visits(k), now);
      VisitKeeps(s, i, flag, running, visits(k), now);
      VisitShape(s, flag, c, running, visits(k), now);
      LoopKeeps(w.s, NextIndex(s, w.s, i), w.flag, running, visits, k + 1, now);
    }
  }
}
