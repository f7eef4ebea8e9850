/** The list of connection attempts agrees with the clients' connecting states. */
module ConnectingProofs {
  import opened ClientMachine

  ghost predicate Distinct<C>(list: seq<Attempt<C>>) {
    forall i, j :: 0 <= i < j < |list| ==> list[i].client != list[j].client
  }

  /** A client is in the list exactly once while it is connecting and not at all otherwise. */
  ghost predicate ConnInv<C>(s: State<C>) {
    && s.kad.Keys == s.ccs.Keys
    && Distinct(s.connecting)
    && (forall i :: 0 <= i < |s.connecting| ==>
         s.connecting[i].client in s.ccs && s.ccs[s.connecting[i].client] != CCS_NONE)
    && (forall c :: c in s.ccs && s.ccs[c] != CCS_NONE ==> Attempting(s.connecting, c))
  }

  /** How often a client is listed, to put the invariant as a count. */
  function Listed<C(==)>(list: seq<Attempt<C>>, c: C): nat {
    if list == [] then 0 else Listed(list[..|list| - 1], c) + if list[|list| - 1].client == c then 1 else 0
  }

  lemma {:induction false} ListedOfDistinct<C>(list: seq<Attempt<C>>, c: C)
    requires Distinct(list)
    ensures Listed(list, c) == if Attempting(list, c) then 1 else 0
  {
    if list != [] {
      var n := |list| - 1;
      var front := list[..n];
      ListedOfDistinct(front, c);
      if Attempting(front, c) {
        var i :| 0 <= i < n && front[i].client == c;
        assert list[i].client == c;
      }
      if Attempting(list, c) && list[n].client != c {
        var i :| 0 <= i < |list| && list[i].client == c;
        assert front[i].client == c;
      }
    }
  }

  /** The invariant as it is meant: connecting once, not connecting never. */
  lemma ListedOnceIffConnecting<C>(s: State<C>, c: C)
    requires ConnInv(s) && c in s.ccs
    ensures Listed(s.connecting, c) == if s.ccs[c] != CCS_NONE then 1 else 0
  {
    ListedOfDistinct(s.connecting, c);
  }

  // ----- taking a client off the list -----

  lemma {:induction false} RemoveAttemptSubset<C>(list: seq<Attempt<C>>, c: C)
    ensures var r := RemoveAttempt(list, c); forall i :: 0 <= i < |r| ==> r[i] in list
  {
    if list != [] {
      RemoveAttemptSubset(list[1..], c);
      var r := RemoveAttempt(list, c);
      forall i | 0 <= i < |r| ensures r[i] in list {
        if list[0].client != c && i > 0 {
          assert r[i] == RemoveAttempt(list[1..], c)[i - 1];
          assert r[i] in list[1..];
        }
      }
    }
  }

  lemma {:induction false} RemoveAttemptDistinct<C>(list: seq<Attempt<C>>, c: C)
    requires Distinct(list)
    ensures var r := RemoveAttempt(list, c);
      Distinct(r) && forall i :: 0 <= i < |r| ==> r[i].client != c
  {
    if list != [] && list[0].client != c {
      RemoveAttemptDistinct(list[1..], c);
      RemoveAttemptSubset(list[1..], c);
      var rt := RemoveAttempt(list[1..], c);
      forall i | 0 <= i < |rt| ensures rt[i].client != list[0].client {
        var j :| 0 <= j < |list[1..]| && list[1..][j] == rt[i];
        assert list[j + 1] == rt[i];
      }
    }
  }

  lemma {:induction false} RemoveAttemptOthers<C>(list: seq<Attempt<C>>, c: C, d: C)
    requires d != c && Attempting(list, d)
    ensures Attempting(RemoveAttempt(list, c), d)
  {
    var r := RemoveAttempt(list, c);
    var i :| 0 <= i < |list| && list[i].client == d;
    if i == 0 {
      assert r[0].client == d;
    } else {
      assert list[1..][i - 1].client == d;
      if list[0].client != c {
        RemoveAttemptOthers(list[1..], c, d);
        var rt := RemoveAttempt(list[1..], c);
        var j :| 0 <= j < |rt| && rt[j].client == d;
        assert r[j + 1].client == d;
      }
    }
  }

  lemma RemoveAttemptFacts<C>(list: seq<Attempt<C>>, c: C)
    requires Distinct(list)
    ensures var r := RemoveAttempt(list, c);
      && Distinct(r) && !Attempting(r, c)
      && (forall i :: 0 <= i < |r| ==> r[i] in list)
  {
    RemoveAttemptSubset(list, c);
    RemoveAttemptDistinct(list, c);
  }

  /** c leaves the list and stops connecting, or ceases to exist; the others stay as they were. */
  lemma LeavesKeeps<C>(s: State<C>, s': State<C>, c: C)
    requires Distinct(s.connecting) && s'.kad.Keys == s'.ccs.Keys
    requires s'.connecting == RemoveAttempt(s.connecting, c)
    requires forall i :: 0 <= i < |s.connecting| ==>
      s.connecting[i].client in s.ccs && (s.connecting[i].client != c ==> s.ccs[s.connecting[i].client] != CCS_NONE)
    requires forall d :: d in s.ccs && d != c && s.ccs[d] != CCS_NONE ==> Attempting(s.connecting, d)
    requires forall d :: d != c ==> (d in s'.ccs <==> d in s.ccs) && (d in s.ccs ==> s'.ccs[d] == s.ccs[d])
    requires c in s'.ccs ==> s'.ccs[c] == CCS_NONE
    ensures ConnInv(s')
  {
    RemoveAttemptFacts(s.connecting, c);
    forall d | d != c && d in s'.ccs && s'.ccs[d] != CCS_NONE ensures Attempting(s'.connecting, d) {
      RemoveAttemptOthers(s.connecting, c, d);
    }
    forall i | 0 <= i < |s'.connecting|
      ensures s'.connecting[i].client in s'.ccs && s'.ccs[s'.connecting[i].client] != CCS_NONE
    {
      assert s'.connecting[i] in s.connecting;
    }
  }

  lemma DeletedKeeps<C>(s: State<C>, c: C)
    requires ConnInv(s)
    ensures ConnInv(Deleted(s, c)) && Deleted(s, c).asserts == s.asserts
  {
    LeavesKeeps(s, Deleted(s, c), c);
  }

  lemma DisconnectKeeps<C>(s: State<C>, c: C, delete: bool)
    requires ConnInv(s) && c in s.kad
    ensures var s' := AfterDisconnect(s, c, delete); ConnInv(s') && s'.asserts == s.asserts
  {
    var s1 := AfterDisconnect(s, c, false);
    LeavesKeeps(s, s1, c);
    DeletedKeeps(s1, c);
  }

  lemma EstablishedKeeps<C>(s: State<C>, c: C, udp: bool)
    requires ConnInv(s) && c in s.kad
    ensures var s' := Established(s, c, udp); ConnInv(s') && s'.asserts == s.asserts
  {
    LeavesKeeps(s, Established(s, c, udp), c);
  }

  lemma DroppedKeeps<C>(s: State<C>, c: C)
    requires ConnInv(s) && c in s.kad
    ensures var s' := DownloadDropped(s, c); ConnInv(s') && s'.asserts == s.asserts
  {
    if s.ccs[c] != CCS_NONE {
      LeavesKeeps(s, DownloadDropped(s, c), c);
    }
  }

  /** A new attempt: the code's two ASSERTs on entering the list hold. */
  lemma StartedKeeps<C>(s: State<C>, c: C, way: ConnectingState, now: nat)
    requires ConnInv(s) && c in s.kad && s.ccs[c] == CCS_NONE
    ensures var s' := StartedTry(s, c, way, now);
      && ConnInv(s') && s'.asserts == s.asserts
      && s'.connecting == s.connecting + [Attempt(c, now)]
  {
    var l := s.connecting + [Attempt(c, now)];
    assert l[|s.connecting|].client == c;
    forall d | Attempting(s.connecting, d) ensures Attempting(l, d) {
      var i :| 0 <= i < |s.connecting| && s.connecting[i].client == d;
      assert l[i].client == d;
    }
  }

  lemma RefusedKeeps<C>(s: State<C>, c: C, delete: bool)
    requires ConnInv(s) && c in s.kad && s.ccs[c] == CCS_NONE
    ensures var s' := AfterDisconnect(s.(ccs := s.ccs[c := CCS_PRECONDITIONS]), c, delete);
      ConnInv(s') && s'.asserts == s.asserts
  {
    var s1 := AfterDisconnect(s.(ccs := s.ccs[c := CCS_PRECONDITIONS]), c, false);
    LeavesKeeps(s, s1, c);
    DeletedKeeps(s1, c);
  }

  lemma TriedKeeps<C>(s: State<C>, c: C, o: TryOutcome, now: nat)
    requires ConnInv(s) && c in s.kad
    ensures var s' := Tried(s, c, o, now); ConnInv(s') && s'.asserts == s.asserts
  {
    var s1 := s.(kad := s.kad[c := KadTrying(s.kad[c])]);
    assert ConnInv(s1);
    if s.ccs[c] == CCS_NONE {
      match o
      case AlreadyConnected(udp) => EstablishedKeeps(s1, c, udp);
      case HandshakeOpen =>
      case Refused(delete) => RefusedKeeps(s1, c, delete);
      case Started(way) => StartedKeeps(s1, c, way, now);
    }
  }

  // ----- the parts of Process -----

  /** Changing Kad states and the Kad list does not touch the attempts. */
  lemma KadOnlyKeeps<C>(s: State<C>, s': State<C>)
    requires ConnInv(s) && s'.kad.Keys == s.kad.Keys && s'.ccs == s.ccs && s'.connecting == s.connecting
    ensures ConnInv(s')
  {
  }

  lemma VisitKeeps<C>(s: State<C>, flag: BuddyStatus, c: C, running: bool, v: Visit, now: nat)
    requires ConnInv(s) && c in s.kad && s.asserts
    requires s.status == Disconnected ==> s.kad[c] != KS_CONNECTING_BUDDY
    ensures var w := VisitClient(s, flag, c, running, v, now); ConnInv(w.s) && w.s.asserts
  {
    var s0 := if running then s else s.(kad := s.kad[c := KS_NONE]);
    var w := VisitClient(s, flag, c, running, v, now);
    KadOnlyKeeps(s, s0);
    match s0.kad[c]
    case KS_QUEUED_FWCHECK => TriedKeeps(s0, c, v.o, now);
    case KS_QUEUED_FWCHECK_UDP => TriedKeeps(s0, c, v.o, now);
    case KS_CONNECTED_FWCHECK =>
      if v.ack.AckViaConnect? {
        TriedKeeps(s0, c, v.ack.o, now);
        var s1 := Tried(s0, c, v.ack.o, now);
        if c in s1.kad { KadOnlyKeeps(s1, w.s); }
      } else {
        KadOnlyKeeps(s0, w.s);
      }
    case KS_QUEUED_BUDDY =>
      if s0.status == Disconnected {
        var s1 := s0.(status := Connecting, kad := s0.kad[c := KS_CONNECTING_BUDDY]);
        KadOnlyKeeps(s0, s1);
        TriedKeeps(s1, c, v.o, now);
      } else {
        KadOnlyKeeps(s0, w.s);
      }
    case _ => KadOnlyKeeps(s0, w.s);
  }

  lemma {:induction false} CleanUpKeeps<C>(s: State<C>, unused: seq<C>)
    requires ConnInv(s)
    ensures ConnInv(CleanedUp(s, unused)) && CleanedUp(s, unused).asserts == s.asserts
  {
    if unused != [] {
      var front, c := unused[..|unused| - 1], unused[|unused| - 1];
      CleanUpKeeps(s, front);
      DeletedKeeps(CleanedUp(s, front), c);
    }
  }

  lemma RemoveAtIsRemove<C>(list: seq<Attempt<C>>, i: nat)
    requires Distinct(list) && i < |list|
    ensures RemoveAttempt(list, list[i].client) == RemoveAt(list, i)
  {
    RemoveAttemptFirst(list, i, list[i].client);
  }

  /** One timed-out attempt: exactly its own entry goes, and its ASSERT holds. */
  lemma TimeoutStep<C>(s: State<C>, i: nat, delete: bool)
    requires ConnInv(s) && i < |s.connecting|
    ensures var c := s.connecting[i].client;
      var s1 := s.(connecting := RemoveAt(s.connecting, i), asserts := s.asserts && s.ccs[c] != CCS_NONE);
      var s2 := AfterDisconnect(s1, c, delete);
      && c in s.ccs && ConnInv(s2) && s2.asserts == s.asserts && s2.broken == s.broken
      && s2.connecting == RemoveAt(s.connecting, i)
  {
    var c := s.connecting[i].client;
    var s1 := s.(connecting := RemoveAt(s.connecting, i), asserts := s.asserts && s.ccs[c] != CCS_NONE);
    RemoveAtIsRemove(s.connecting, i);
    RemoveAttemptFacts(s.connecting, c);
    RemoveAttemptNone(s1.connecting, c);
    var s2 := AfterDisconnect(s1, c, false);
    LeavesKeeps(s, s2, c);
    DeletedKeeps(s2, c);
  }

  /** Entries before i are young; the sweep keeps them and leaves only young ones. */
  ghost predicate YoungUpTo<C>(list: seq<Attempt<C>>, i: nat, now: nat) {
    forall k :: 0 <= k < i && k < |list| ==> now < list[k].inserted + CONNECT_TIMEOUT
  }

  lemma {:induction false} TimeoutsKeep<C>(s: State<C>, i: nat, deletes: nat -> bool, k: nat, now: nat)
    requires ConnInv(s) && YoungUpTo(s.connecting, i, now)
    ensures var s' := TimedOut(s, i, deletes, k, now);
      && ConnInv(s') && s'.asserts == s.asserts && s'.broken == s.broken
      && YoungUpTo(s'.connecting, |s'.connecting|, now)
    decreases |s.connecting| - i
  {
    if i < |s.connecting| {
      var e := s.connecting[i];
      if now < e.inserted + CONNECT_TIMEOUT {
        TimeoutsKeep(s, i + 1, deletes, k, now);
      } else {
        TimeoutStep(s, i, deletes(k));
        var s1 := s.(connecting := RemoveAt(s.connecting, i), asserts := s.asserts && s.ccs[e.client] != CCS_NONE);
        var s2 := AfterDisconnect(s1, e.client, deletes(k));
        TimeoutsKeep(s2, i, deletes, k + 1, now);
      }
    }
  }
}
