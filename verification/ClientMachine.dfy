/**
 The life of a client in CClientList, on values: its Kad state, its connecting state, the Kad list
 with the buddy, and the list of connection attempts. Clients are named by values of any type C.
 */
module ClientMachine {
  import opened Wrappers

  datatype KadState =
    | KS_NONE
    | KS_QUEUED_FWCHECK
    | KS_CONNECTING_FWCHECK
    | KS_CONNECTED_FWCHECK
    | KS_QUEUED_BUDDY
    | KS_INCOMING_BUDDY
    | KS_CONNECTING_BUDDY
    | KS_CONNECTED_BUDDY
    | KS_QUEUED_FWCHECK_UDP
    | KS_FWCHECK_UDP
    | KS_CONNECTING_FWCHECK_UDP

  datatype ConnectingState =
    | CCS_NONE
    | CCS_DIRECTTCP
    | CCS_DIRECTCALLBACK
    | CCS_KADCALLBACK
    | CCS_SERVERCALLBACK
    | CCS_PRECONDITIONS

  datatype BuddyStatus = Disconnected | Connecting | Connected

  /** SEC2MS(45) */
  const CONNECT_TIMEOUT: nat := 45_000

  datatype Attempt<C> = Attempt(client: C, inserted: nat)

  /**
   kad and ccs have the live clients as keys. asserts turns false when one of the ASSERTs on these
   lists and states would fire (srchybrid/ClientList.cpp:549, 869, 873 and 885), broken turns true
   when the code would touch a deleted client.
   */
  datatype State<C(==)> = State(
    kad: map<C, KadState>, ccs: map<C, ConnectingState>,
    kadList: seq<C>, connecting: seq<Attempt<C>>,
    buddy: Option<C>, status: BuddyStatus,
    asserts: bool, broken: bool)

  // ----- lists -----

  /** POSITION of the first occurrence, and the list without it. */
  function RemoveFirst<C(==)>(list: seq<C>, c: C): (r: seq<C>)
    ensures |r| == |list| - if c in list then 1 else 0
    ensures forall d :: d in r ==> d in list
    ensures forall d :: d in list && d != c ==> d in r
  {
    if list == [] then [] else
    if list[0] == c then list[1..] else [list[0]] + RemoveFirst(list[1..], c)
  }

  function RemoveAttempt<C(==)>(list: seq<Attempt<C>>, c: C): seq<Attempt<C>> {
    if list == [] then [] else
    if list[0].client == c then list[1..] else [list[0]] + RemoveAttempt(list[1..], c)
  }

  lemma {:induction false} RemoveAttemptFirst<C>(list: seq<Attempt<C>>, i: nat, c: C)
    requires i < |list| && list[i].client == c
    requires forall k :: 0 <= k < i ==> list[k].client != c
    ensures RemoveAttempt(list, c) == list[..i] + list[i + 1..]
  {
    if i > 0 {
      var t := list[1..];
      assert forall k :: 0 <= k < |t| ==> t[k] == list[k + 1];
      RemoveAttemptFirst(t, i - 1, c);
      assert list[..i] == [list[0]] + t[..i - 1];
    }
  }

  lemma {:induction false} RemoveAttemptNone<C>(list: seq<Attempt<C>>, c: C)
    requires forall k :: 0 <= k < |list| ==> list[k].client != c
    ensures RemoveAttempt(list, c) == list
  {
    if list != [] {
      var t := list[1..];
      assert forall k :: 0 <= k < |t| ==> t[k] == list[k + 1];
      RemoveAttemptNone(t, c);
      assert [list[0]] + t == list;
    }
  }

  predicate Attempting<C(==)>(list: seq<Attempt<C>>, c: C) {
    exists i :: 0 <= i < |list| && list[i].client == c
  }

  // ----- single operations -----

  function RemovedFromKadList<C(==)>(s: State<C>, c: C): State<C> {
    if c !in s.kadList then s else
    s.(kadList := RemoveFirst(s.kadList, c), buddy := if s.buddy == Some(c) then None else s.buddy)
  }

  function AddedToKadList<C(==)>(s: State<C>, c: C): State<C> {
    if c in s.kadList then s else s.(kadList := s.kadList + [c])
  }

  function RemovedConnecting<C(==)>(s: State<C>, c: C): State<C> {
    s.(connecting := RemoveAttempt(s.connecting, c))
  }

  /** The destructor of a client, with the list entries CClientList::RemoveClient takes away. */
  function Deleted<C(==)>(s: State<C>, c: C): State<C> {
    var s1 := RemovedConnecting(RemovedFromKadList(s, c), c);
    s1.(kad := s1.kad - {c}, ccs := s1.ccs - {c})
  }

  /** CUpDownClient::Disconnected and, when it says so, the deletion by its caller. */
  function AfterDisconnect<C(==)>(s: State<C>, c: C, delete: bool): State<C> {
    var s1 := RemovedConnecting(s.(kad := s.kad[c := KS_NONE], ccs := s.ccs[c := CCS_NONE]), c);
    if delete then Deleted(s1, c) else s1
  }

  /** The Kad state after a connection is there; a UDP check request can end the check at once. */
  function KadEstablished(k: KadState, udpRequestSent: bool): KadState {
    match k
    case KS_CONNECTING_FWCHECK => KS_CONNECTED_FWCHECK
    case KS_CONNECTING_BUDDY => KS_CONNECTED_BUDDY
    case KS_INCOMING_BUDDY => KS_CONNECTED_BUDDY
    case KS_CONNECTING_FWCHECK_UDP => if udpRequestSent then KS_FWCHECK_UDP else KS_NONE
    case _ => k
  }

  function Established<C(==)>(s: State<C>, c: C, udpRequestSent: bool): State<C>
    requires c in s.kad
  {
    RemovedConnecting(s.(ccs := s.ccs[c := CCS_NONE], kad := s.kad[c := KadEstablished(s.kad[c], udpRequestSent)]), c)
  }

  /** CUpDownClient::SetDownloadState to DS_NONE or DS_ERROR. */
  function DownloadDropped<C(==)>(s: State<C>, c: C): State<C>
    requires c in s.ccs
  {
    if s.ccs[c] == CCS_NONE then s else RemovedConnecting(s.(ccs := s.ccs[c := CCS_NONE]), c)
  }

  function AddedConnecting<C(==)>(s: State<C>, c: C, now: nat): State<C>
    requires c in s.ccs
  {
    if Attempting(s.connecting, c) then s.(asserts := false)
    else s.(connecting := s.connecting + [Attempt(c, now)], asserts := s.asserts && s.ccs[c] != CCS_NONE)
  }

  /** What TryToConnect meets, past the check for a running attempt. */
  datatype TryOutcome =
    | AlreadyConnected(udpRequestSent: bool)
    | HandshakeOpen
    | Refused(delete: bool)
    | Started(way: ConnectingState)

  function KadTrying(k: KadState): KadState {
    match k
    case KS_QUEUED_FWCHECK => KS_CONNECTING_FWCHECK
    case KS_QUEUED_FWCHECK_UDP => KS_CONNECTING_FWCHECK_UDP
    case _ => k
  }

  /** Past the prechecks: into the list, then the way; where none is taken CCS_PRECONDITIONS stays. */
  function StartedTry<C(==)>(s: State<C>, c: C, way: ConnectingState, now: nat): State<C>
    requires c in s.ccs
  {
    var s2 := AddedConnecting(s.(ccs := s.ccs[c := CCS_PRECONDITIONS]), c, now);
    s2.(ccs := s2.ccs[c := if way == CCS_NONE then CCS_PRECONDITIONS else way])
  }

  function Tried<C(==)>(s: State<C>, c: C, o: TryOutcome, now: nat): State<C>
    requires c in s.kad && c in s.ccs
  {
    var s1 := s.(kad := s.kad[c := KadTrying(s.kad[c])]);
    if s.ccs[c] != CCS_NONE then s1 else
    match o
    case AlreadyConnected(udp) => Established(s1, c, udp)
    case HandshakeOpen => s1
    case Refused(delete) => AfterDisconnect(s1.(ccs := s1.ccs[c := CCS_PRECONDITIONS]), c, delete)
    case Started(way) => StartedTry(s1, c, way, now)
  }

  // ----- the Kad list part of Process -----

  /** How one visited client's acknowledgement of a firewall check goes out. */
  datatype AckWay = AckSent | AckViaConnect(o: TryOutcome)

  datatype Visit = Visit(o: TryOutcome, ack: AckWay)

  /** State and the local variable buddy after one list entry. */
  datatype Visited<C(==)> = Visited(s: State<C>, flag: BuddyStatus)

  function VisitClient<C(==)>(s: State<C>, flag: BuddyStatus, c: C, running: bool, v: Visit, now: nat): Visited<C>
    requires c in s.kad && c in s.ccs
  {
    VisitRunning(if running then s else s.(kad := s.kad[c := KS_NONE]), flag, c, v, now)
  }

  function VisitRunning<C(==)>(s: State<C>, flag: BuddyStatus, c: C, v: Visit, now: nat): Visited<C>
    requires c in s.kad && c in s.ccs
  {
    match s.kad[c]
    case KS_QUEUED_FWCHECK => Visited(Tried(s, c, v.o, now), flag)
    case KS_QUEUED_FWCHECK_UDP => Visited(Tried(s, c, v.o, now), flag)
    case KS_CONNECTING_FWCHECK => Visited(s, flag)
    case KS_FWCHECK_UDP => Visited(s, flag)
    case KS_CONNECTING_FWCHECK_UDP => Visited(s, flag)
    case KS_CONNECTED_FWCHECK =>
      var s1 := match v.ack case AckSent => s case AckViaConnect(o) => Tried(s, c, o, now);
      Visited(if c in s1.kad then s1.(kad := s1.kad[c := KS_NONE]) else s1, flag)
    case KS_INCOMING_BUDDY =>
      Visited(if s.status == Connected then s.(kad := s.kad[c := KS_NONE]) else s, flag)
    case KS_QUEUED_BUDDY =>
      if s.status == Disconnected then
        Visited(Tried(s.(status := Connecting, kad := s.kad[c := KS_CONNECTING_BUDDY]), c, v.o, now), Connecting)
      else if s.status == Connected then Visited(s.(kad := s.kad[c := KS_NONE]), flag)
      else Visited(s, flag)
    case KS_CONNECTING_BUDDY =>
      if s.status == Connected then Visited(s.(kad := s.kad[c := KS_NONE]), flag)
      else Visited(s.(asserts := s.asserts && s.status == Connecting), Connecting)
    case KS_CONNECTED_BUDDY =>
      Visited(if s.status != Connected then s.(buddy := Some(c), status := Connected) else s, Connected)
    case KS_NONE => Visited(RemovedFromKadList(s, c), flag)
  }

  /**
   The walk over m_KadList from position i. An entry that went away was the current one or an
   earlier one, so the rest has moved up and the next entry is again at i.
   */
  function KadLoop<C(==)>(s: State<C>, i: nat, flag: BuddyStatus, running: bool, visits: nat -> Visit, k: nat, now: nat): Visited<C>
    requires s.kad.Keys == s.ccs.Keys && i <= |s.kadList|
    decreases |s.kadList| - i
  {
    if i == |s.kadList| then Visited(s, flag)
    else if s.kadList[i] !in s.kad then Visited(s.(broken := true), flag)
    else
      var c := s.kadList[i];
      var w := VisitClient(s, flag, c, running, visits(k), now);
      assert c in s.kadList;
      VisitShape(s, flag, c, running, visits(k), now);
      KadLoop(w.s, if |w.s.kadList| < |s.kadList| then i else i + 1, w.flag, running, visits, k + 1, now)
  }

  lemma KadLoopStep<C>(s: State<C>, i: nat, flag: BuddyStatus, running: bool, visits: nat -> Visit, k: nat, now: nat)
    requires s.kad.Keys == s.ccs.Keys && i < |s.kadList| && s.kadList[i] in s.kad
    ensures var w := VisitClient(s, flag, s.kadList[i], running, visits(k), now);
      var j := if |w.s.kadList| < |s.kadList| then i else i + 1;
      && w.s.kad.Keys == w.s.ccs.Keys && j <= |w.s.kadList| <= |s.kadList| && |w.s.kadList| - j < |s.kadList| - i
      && KadLoop(s, i, flag, running, visits, k, now) == KadLoop(w.s, j, w.flag, running, visits, k + 1, now)
  {
    VisitShape(s, flag, s.kadList[i], running, visits(k), now);
  }

  /** Without an entry that is connecting or connected the buddy is given up. */
  function LoopEnd<C(==)>(w: Visited<C>): State<C> {
    if w.flag == Disconnected then w.s.(buddy := None, status := Disconnected) else w.s
  }

  /** Kad is down, or open while the buddy is open too: the buddy is to go at the next walk. */
  function BuddyDropped<C(==)>(s: State<C>, drop: bool): State<C> {
    if drop && s.buddy.Some? then
      if s.buddy.value in s.kad then s.(kad := s.kad[s.buddy.value := KS_NONE]) else s.(broken := true)
    else s
  }

  /** CleanUpClientList: those of the given clients that have no Kad state are deleted. */
  function CleanedUp<C(==)>(s: State<C>, unused: seq<C>): State<C> {
    if unused == [] then s else
    var s1 := CleanedUp(s, unused[..|unused| - 1]);
    var c := unused[|unused| - 1];
    if c in s1.kad && s1.kad[c] == KS_NONE then Deleted(s1, c) else s1
  }

  function RemoveAt<T>(list: seq<T>, i: nat): (r: seq<T>)
    requires i < |list|
    ensures |r| == |list| - 1
  {
    list[..i] + list[i + 1..]
  }

  lemma RemoveAttemptShrinks<C>(list: seq<Attempt<C>>, c: C)
    ensures |RemoveAttempt(list, c)| <= |list|
  {
  }

  /** ProcessConnectingClientsList from position i. */
  function TimedOut<C(==)>(s: State<C>, i: nat, deletes: nat -> bool, k: nat, now: nat): State<C>
    decreases |s.connecting| - i
  {
    if i >= |s.connecting| then s else
    var e := s.connecting[i];
    if now < e.inserted + CONNECT_TIMEOUT then TimedOut(s, i + 1, deletes, k, now)
    else if e.client !in s.ccs then s.(broken := true)
    else
      var s1 := s.(connecting := RemoveAt(s.connecting, i), asserts := s.asserts && s.ccs[e.client] != CCS_NONE);
      var s2 := AfterDisconnect(s1, e.client, deletes(k));
      RemoveAttemptShrinks(s1.connecting, e.client);
      RemoveAttemptShrinks(RemoveAttempt(s1.connecting, e.client), e.client);
      TimedOut(s2, i, deletes, k + 1, now)
  }

  lemma TimedOutStep<C>(s: State<C>, i: nat, deletes: nat -> bool, k: nat, now: nat)
    requires i < |s.connecting| && now >= s.connecting[i].inserted + CONNECT_TIMEOUT && s.connecting[i].client in s.ccs
    ensures var e := s.connecting[i];
      var s1 := s.(connecting := RemoveAt(s.connecting, i), asserts := s.asserts && s.ccs[e.client] != CCS_NONE);
      var s2 := AfterDisconnect(s1, e.client, deletes(k));
      && |s2.connecting| < |s.connecting|
      && TimedOut(s, i, deletes, k, now) == TimedOut(s2, i, deletes, k + 1, now)
  {
    var e := s.connecting[i];
    var l := RemoveAt(s.connecting, i);
    RemoveAttemptShrinks(l, e.client);
    RemoveAttemptShrinks(RemoveAttempt(l, e.client), e.client);
  }

  /** What one call of Process meets: the parameters of its four parts. */
  datatype Tick<C> = Tick(
    running: bool, visits: nat -> Visit, dropBuddy: bool, unused: seq<C>, deletes: nat -> bool, now: nat)

  function Processed<C(==)>(s: State<C>, t: Tick<C>): State<C>
    requires s.kad.Keys == s.ccs.Keys
  {
    var w := KadLoop(s, 0, Disconnected, t.running, t.visits, 0, t.now);
    if w.s.broken then w.s else
    var s2 := BuddyDropped(LoopEnd(w), t.dropBuddy);
    if s2.broken then s2 else
    TimedOut(CleanedUp(s2, t.unused), 0, t.deletes, 0, t.now)
  }

  // ----- requests -----

  /** The client, created when it is not known yet. */
  function Known<C(==)>(s: State<C>, c: C): State<C> {
    if c in s.kad then s else s.(kad := s.kad[c := KS_NONE], ccs := s.ccs[c := CCS_NONE])
  }

  /** RequestTCP: appends to the Kad list without looking whether the client is in it. */
  function RequestedTcp<C(==)>(s: State<C>, c: C, hasSocket: bool): State<C> {
    if c in s.kad && (s.kad[c] != KS_NONE || hasSocket) then s else
    var s1 := Known(s, c);
    s1.(kad := s1.kad[c := KS_QUEUED_FWCHECK], kadList := s1.kadList + [c])
  }

  function RequestedBuddy<C(==)>(s: State<C>, c: C): State<C> {
    if c in s.kad && s.kad[c] != KS_NONE then s else
    var s1 := Known(s, c);
    AddedToKadList(s1.(kad := s1.kad[c := KS_QUEUED_BUDDY]), c)
  }

  /** IncomingBuddy and DoRequestFirewallCheckUDP: only for a client not known yet. */
  function NewInKadList<C(==)>(s: State<C>, c: C, k: KadState): State<C> {
    if c in s.kad then s else
    var s1 := Known(s, c);
    AddedToKadList(s1.(kad := s1.kad[c := k]), c)
  }

  /** What the operations on one client c can do to the rest: nothing. */
  ghost predicate LocalTo<C>(s: State<C>, s': State<C>, c: C)
    requires s.kad.Keys == s.ccs.Keys
  {
    && s'.kad.Keys == s'.ccs.Keys
    && (c in s'.kad ==> s'.kad.Keys == s.kad.Keys && s'.kadList == s.kadList && s'.buddy == s.buddy)
    && (c !in s'.kad ==>
         && s'.kad.Keys == s.kad.Keys - {c}
         && s'.kadList == (if c in s.kadList then RemoveFirst(s.kadList, c) else s.kadList)
         && s'.buddy == (if c in s.kadList && s.buddy == Some(c) then None else s.buddy))
    && (forall d :: d in s'.kad && d != c ==> s'.kad[d] == s.kad[d] && s'.ccs[d] == s.ccs[d])
    && s'.status == s.status && s'.broken == s.broken
  }

  lemma DeletedLocal<C>(s: State<C>, c: C)
    requires s.kad.Keys == s.ccs.Keys
    ensures LocalTo(s, Deleted(s, c), c) && c !in Deleted(s, c).kad
  {
  }

  lemma DisconnectLocal<C>(s: State<C>, c: C, delete: bool)
    requires s.kad.Keys == s.ccs.Keys && c in s.kad
    ensures var s' := AfterDisconnect(s, c, delete);
      LocalTo(s, s', c) && (c in s'.kad ==> s'.kad[c] == KS_NONE)
  {
    var s1 := RemovedConnecting(s.(kad := s.kad[c := KS_NONE], ccs := s.ccs[c := CCS_NONE]), c);
    if delete { DeletedLocal(s1, c); }
  }

  lemma EstablishedLocal<C>(s: State<C>, c: C, udp: bool)
    requires s.kad.Keys == s.ccs.Keys && c in s.kad
    ensures var s' := Established(s, c, udp);
      LocalTo(s, s', c) && c in s'.kad && s'.kad[c] == KadEstablished(s.kad[c], udp)
  {
  }

  /** What an attempt can make of the client's own Kad state. */
  lemma DroppedLocal<C>(s: State<C>, c: C)
    requires s.kad.Keys == s.ccs.Keys && c in s.kad
    ensures var s' := DownloadDropped(s, c); LocalTo(s, s', c) && s'.kad == s.kad
  {
  }

  predicate KadAfterTry(k: KadState, k': KadState) {
    k' == KS_NONE || k' == KadTrying(k) || k' == KadEstablished(KadTrying(k), true)
  }

  lemma TriedLocal<C>(s: State<C>, c: C, o: TryOutcome, now: nat)
    requires s.kad.Keys == s.ccs.Keys && c in s.kad
    ensures var s' := Tried(s, c, o, now);
      LocalTo(s, s', c) && (c in s'.kad ==> KadAfterTry(s.kad[c], s'.kad[c]))
  {
    hide AfterDisconnect, Established, StartedTry, LocalTo;
    var s1 := s.(kad := s.kad[c := KadTrying(s.kad[c])]);
    ChangedLocal(s, c, KadTrying(s.kad[c]), s.ccs[c]);
    match o
    case AlreadyConnected(udp) =>
      EstablishedLocal(s1, c, udp);
      LocalThrough(s, s1, Established(s1, c, udp), c);
    case HandshakeOpen =>
    case Refused(delete) =>
      var s2 := s1.(ccs := s1.ccs[c := CCS_PRECONDITIONS]);
      ChangedLocal(s, c, KadTrying(s.kad[c]), CCS_PRECONDITIONS);
      DisconnectLocal(s2, c, delete);
      LocalThrough(s, s2, AfterDisconnect(s2, c, delete), c);
    case Started(way) =>
      StartedLocal(s1, c, way, now);
      LocalThrough(s, s1, StartedTry(s1, c, way, now), c);
  }

  lemma LocalThrough<C>(s: State<C>, s1: State<C>, s2: State<C>, c: C)
    requires s.kad.Keys == s.ccs.Keys && s1.kad.Keys == s1.ccs.Keys && c in s1.kad
    requires LocalTo(s, s1, c) && LocalTo(s1, s2, c)
    ensures LocalTo(s, s2, c)
  {
  }

  lemma ChangedLocal<C>(s: State<C>, c: C, k: KadState, way: ConnectingState)
    requires s.kad.Keys == s.ccs.Keys && c in s.kad
    ensures LocalTo(s, s.(kad := s.kad[c := k], ccs := s.ccs[c := way]), c)
    ensures LocalTo(s, s.(kad := s.kad[c := k]), c)
  {
  }

  lemma StartedLocal<C>(s: State<C>, c: C, way: ConnectingState, now: nat)
    requires s.kad.Keys == s.ccs.Keys && c in s.kad
    ensures LocalTo(s, StartedTry(s, c, way, now), c)
    ensures StartedTry(s, c, way, now).kad == s.kad
  {
  }

  /** A visit takes at most the first occurrence of its client from the list. */
  lemma VisitShape<C>(s: State<C>, flag: BuddyStatus, c: C, running: bool, v: Visit, now: nat)
    requires s.kad.Keys == s.ccs.Keys && c in s.kad && c in s.kadList
    ensures ShapeKept(s, VisitClient(s, flag, c, running, v, now).s, c)
  {
    VisitRunningShape(if running then s else s.(kad := s.kad[c := KS_NONE]), flag, c, v, now);
  }

  ghost predicate ShapeKept<C>(s: State<C>, s': State<C>, c: C) {
    s'.kad.Keys == s'.ccs.Keys && (s'.kadList == s.kadList || s'.kadList == RemoveFirst(s.kadList, c))
  }

  lemma VisitRunningShape<C>(s: State<C>, flag: BuddyStatus, c: C, v: Visit, now: nat)
    requires s.kad.Keys == s.ccs.Keys && c in s.kad && c in s.kadList
    ensures ShapeKept(s, VisitRunning(s, flag, c, v, now).s, c)
  {
    match s.kad[c]
    case KS_QUEUED_FWCHECK => TriedShape(s, c, v.o, now);
    case KS_QUEUED_FWCHECK_UDP => TriedShape(s, c, v.o, now);
    case KS_CONNECTED_FWCHECK => if v.ack.AckViaConnect? { TriedShape(s, c, v.ack.o, now); }
    case KS_QUEUED_BUDDY => TriedShape(s.(status := Connecting, kad := s.kad[c := KS_CONNECTING_BUDDY]), c, v.o, now);
    case _ =>
  }

  lemma TriedShape<C>(s: State<C>, c: C, o: TryOutcome, now: nat)
    requires s.kad.Keys == s.ccs.Keys && c in s.kad && c in s.kadList
    ensures ShapeKept(s, Tried(s, c, o, now), c)
  {
    TriedLocal(s, c, o, now);
  }
}
