/**
 CClientList and CUpDownClient as objects: Kad list, buddy and connection attempts, each method
 proved to do what the client machine on values says. Answers of the network, the preferences and
 the rest of the program come in as parameters.
 */
module ClientList {
  import opened Wrappers
  import opened ClientMachine

  class UpDownClient {
    var kadState: KadState
    var connectingState: ConnectingState

    constructor ()
      ensures kadState == KS_NONE && connectingState == CCS_NONE
    {
      kadState, connectingState := KS_NONE, CCS_NONE;
    }
  }

  class CClientList {
    /** The clients that exist. */
    var list: set<UpDownClient>
    var kadList: seq<UpDownClient>
    var connectingClients: seq<Attempt<UpDownClient>>
    var buddy: Option<UpDownClient>
    var buddyStatus: BuddyStatus
    /** No ASSERT has failed so far; no deleted client has been touched so far. */
    ghost var asserts: bool
    ghost var broken: bool

    ghost function View(): (s: State<UpDownClient>)
      reads this, list
      ensures s.kad.Keys == s.ccs.Keys == list
    {
      State(map c | c in list :: c.kadState, map c | c in list :: c.connectingState,
            kadList, connectingClients, buddy, buddyStatus, asserts, broken)
    }

    constructor ()
      ensures View() == State(map[], map[], [], [], None, Disconnected, true, false)
    {
      list, kadList, connectingClients, buddy, buddyStatus := {}, [], [], None, Disconnected;
      asserts, broken := true, false;
    }

    // ----- the lists -----

    method RemoveFromKadList(torem: UpDownClient)
      modifies this`kadList, this`buddy
      ensures View() == RemovedFromKadList(old(View()), torem)
    {
      if torem in kadList {
        if buddy == Some(torem) {
          buddy := None;
        }
        kadList := RemoveFirst(kadList, torem);
      }
    }

    method AddToKadList(toadd: UpDownClient)
      modifies this`kadList
      ensures View() == AddedToKadList(old(View()), toadd)
    {
      if toadd !in kadList {
        kadList := kadList + [toadd];
      }
    }

    method AddConnectingClient(toAdd: UpDownClient, now: nat)
      requires toAdd in list
      modifies this`connectingClients, this`asserts
      ensures View() == AddedConnecting(old(View()), toAdd, now)
    {
      for i := 0 to |connectingClients|
        invariant forall k :: 0 <= k < i ==> connectingClients[k].client != toAdd
        invariant connectingClients == old(connectingClients) && asserts == old(asserts)
      {
        if connectingClients[i].client == toAdd {
          asserts := false;
          return;
        }
      }
      asserts := asserts && toAdd.connectingState != CCS_NONE;
      connectingClients := connectingClients + [Attempt(toAdd, now)];
    }

    method RemoveConnectingClient(toRemove: UpDownClient)
      modifies this`connectingClients
      ensures View() == RemovedConnecting(old(View()), toRemove)
    {
      hide RemoveAttempt;
      for i := 0 to |connectingClients|
        invariant connectingClients == old(connectingClients)
        invariant forall k :: 0 <= k < i ==> connectingClients[k].client != toRemove
      {
        if connectingClients[i].client == toRemove {
          RemoveAttemptFirst(connectingClients, i, toRemove);
          connectingClients := connectingClients[..i] + connectingClients[i + 1..];
          return;
        }
      }
      RemoveAttemptNone(connectingClients, toRemove);
    }

    /** delete: the destructor and CClientList::RemoveClient. */
    method DeleteClient(c: UpDownClient)
      modifies this`list, this`kadList, this`buddy, this`connectingClients
      ensures View() == Deleted(old(View()), c)
      ensures list <= old(list)
    {
      RemoveFromKadList(c);
      RemoveConnectingClient(c);
      list := list - {c};
    }

    // ----- the clients -----

    method SetKadState(c: UpDownClient, k: KadState)
      requires c in list
      modifies c`kadState
      ensures c.kadState == k
      ensures View() == old(View()).(kad := old(View()).kad[c := k])
    {
      c.kadState := k;
    }

    method SetConnectingState(c: UpDownClient, k: ConnectingState)
      requires c in list
      modifies c`connectingState
      ensures c.connectingState == k
      ensures View() == old(View()).(ccs := old(View()).ccs[c := k])
    {
      c.connectingState := k;
    }

    /** CUpDownClient::Disconnected, with the deletion its caller does when it returns true. */
    method Disconnect(c: UpDownClient, delete: bool)
      requires c in list
      modifies this`list, this`kadList, this`buddy, this`connectingClients, c
      ensures View() == AfterDisconnect(old(View()), c, delete)
      ensures list <= old(list)
    {
      SetKadState(c, KS_NONE);
      SetConnectingState(c, CCS_NONE);
      RemoveConnectingClient(c);
      if delete {
        DeleteClient(c);
      }
    }

    /** CUpDownClient::ConnectionEstablished */
    method ConnectionEstablished(c: UpDownClient, udpRequestSent: bool)
      requires c in list
      modifies this`connectingClients, c
      ensures View() == Established(old(View()), c, udpRequestSent)
    {
      SetConnectingState(c, CCS_NONE);
      RemoveConnectingClient(c);
      var k := StateWhenConnected(c.kadState, udpRequestSent);
      SetKadState(c, k);
    }

    /** The switch over the Kad state in ConnectionEstablished. */
    static method StateWhenConnected(old_: KadState, udpRequestSent: bool) returns (k: KadState)
      ensures k == KadEstablished(old_, udpRequestSent)
    {
      k := old_;
      match old_ {
        case KS_CONNECTING_FWCHECK =>
          k := KS_CONNECTED_FWCHECK;
        case KS_CONNECTING_BUDDY =>
          k := KS_CONNECTED_BUDDY;
        case KS_INCOMING_BUDDY =>
          k := KS_CONNECTED_BUDDY;
        case KS_CONNECTING_FWCHECK_UDP =>
          // SendFirewallCheckUDPRequest may give the check up
          k := if udpRequestSent then KS_FWCHECK_UDP else KS_NONE;
        case _ =>
      }
    }

    /** The part of CUpDownClient::SetDownloadState that gives up a connection attempt. */
    method DropDownload(c: UpDownClient)
      requires c in list
      modifies this`connectingClients, c`connectingState
      ensures View() == DownloadDropped(old(View()), c)
    {
      if c.connectingState != CCS_NONE {
        SetConnectingState(c, CCS_NONE);
        RemoveConnectingClient(c);
      }
    }

    /** CUpDownClient::TryToConnect */
    method TryToConnect(c: UpDownClient, o: TryOutcome, now: nat)
      requires c in list
      modifies this`list, this`kadList, this`buddy, this`connectingClients, this`asserts, c
      ensures View() == Tried(old(View()), c, o, now)
      ensures list <= old(list)
    {
      SetKadState(c, KadTrying(c.kadState));
      if c.connectingState != CCS_NONE {
        return;
      }
      match o {
        case AlreadyConnected(udpRequestSent) =>
          ConnectionEstablished(c, udpRequestSent);
        case HandshakeOpen =>
        case Refused(delete) =>
          SetConnectingState(c, CCS_PRECONDITIONS);
          Disconnect(c, delete);
        case Started(way) =>
          SetConnectingState(c, CCS_PRECONDITIONS);
          AddConnectingClient(c, now);
          SetConnectingState(c, if way == CCS_NONE then CCS_PRECONDITIONS else way);
      }
    }

    // ----- requests from Kad -----
    // own: the contact is ourselves; found: the client known at the contact's address, if any;
    // checking: a firewall check with that address is going on

    method RequestTCP(own: bool, found: UpDownClient?, hasSocket: bool) returns (ok: bool, c: UpDownClient?)
      requires found != null ==> found in list
      modifies this`list, this`kadList, found
      ensures own ==> !ok && View() == old(View())
      ensures !own ==>
        && c != null && (if found != null then c == found else fresh(c))
        && View() == RequestedTcp(old(View()), c, hasSocket)
        && (ok <==> found == null || (old(found.kadState) == KS_NONE && !hasSocket))
    {
      ok, c := false, found;
      if own {
        return;
      }
      if c == null {
        c := AddNewClient();
      } else if c.kadState != KS_NONE || hasSocket {
        return;
      }
      SetKadState(c, KS_QUEUED_FWCHECK);
      kadList := kadList + [c];
      ok := true;
    }

    method RequestBuddy(own: bool, checking: bool, found: UpDownClient?) returns (c: UpDownClient?)
      requires found != null ==> found in list
      modifies this`list, this`kadList, found
      ensures own || checking ==> View() == old(View())
      ensures !own && !checking ==>
        && c != null && (if found != null then c == found else fresh(c))
        && View() == RequestedBuddy(old(View()), c)
    {
      c := found;
      if own || checking {
        return;
      }
      if c == null {
        c := AddNewClient();
      } else if c.kadState != KS_NONE {
        return;
      }
      SetKadState(c, KS_QUEUED_BUDDY);
      AddToKadList(c);
    }

    method IncomingBuddy(own: bool, checking: bool, found: UpDownClient?) returns (c: UpDownClient?)
      requires found != null ==> found in list
      modifies this`list, this`kadList
      ensures own || checking || found != null ==> c == null && View() == old(View())
      ensures !own && !checking && found == null ==>
        c != null && fresh(c) && View() == NewInKadList(old(View()), c, KS_INCOMING_BUDDY)
    {
      c := null;
      if found != null || checking || own {
        return;
      }
      c := AddNewClient();
      SetKadState(c, KS_INCOMING_BUDDY);
      AddToKadList(c);
    }

    method DoRequestFirewallCheckUDP(found: UpDownClient?) returns (c: UpDownClient?)
      requires found != null ==> found in list
      modifies this`list, this`kadList
      ensures found != null ==> c == null && View() == old(View())
      ensures found == null ==>
        c != null && fresh(c) && View() == NewInKadList(old(View()), c, KS_QUEUED_FWCHECK_UDP)
    {
      c := null;
      if found != null {
        return;
      }
      c := AddNewClient();
      SetKadState(c, KS_QUEUED_FWCHECK_UDP);
      AddToKadList(c);
    }

    /** new CUpDownClient and AddClient */
    method AddNewClient() returns (c: UpDownClient)
      modifies this`list
      ensures fresh(c) && c in list && View() == Known(old(View()), c)
      ensures old(View()).kad.Keys == list - {c}
    {
      c := new UpDownClient();
      list := list + {c};
    }

    // ----- Process -----

    /** One turn of the loop over the Kad list; flag is the local variable buddy. */
    method VisitKadClient(c: UpDownClient, flagIn: BuddyStatus, running: bool, v: Visit, now: nat)
      returns (flag: BuddyStatus)
      requires c in list
      modifies this`list, this`kadList, this`buddy, this`buddyStatus, this`connectingClients, this`asserts, c
      ensures Visited(View(), flag) == VisitClient(old(View()), flagIn, c, running, v, now)
      ensures list <= old(list) && broken == old(broken)
    {
      if !running {
        SetKadState(c, KS_NONE);
      }
      flag := VisitRunningClient(c, flagIn, v, now);
    }

    method VisitRunningClient(c: UpDownClient, flagIn: BuddyStatus, v: Visit, now: nat)
      returns (flag: BuddyStatus)
      requires c in list
      modifies this`list, this`kadList, this`buddy, this`buddyStatus, this`connectingClients, this`asserts, c
      ensures Visited(View(), flag) == VisitRunning(old(View()), flagIn, c, v, now)
      ensures list <= old(list)
    {
      hide Tried;
      flag := flagIn;
      match c.kadState {
        case KS_QUEUED_FWCHECK =>
          TryToConnect(c, v.o, now);
        case KS_QUEUED_FWCHECK_UDP =>
          TryToConnect(c, v.o, now);
        case KS_CONNECTED_FWCHECK =>
          AcknowledgeCheck(c, v.ack, now);
        case KS_INCOMING_BUDDY =>
          if buddyStatus == Connected {
            SetKadState(c, KS_NONE);
          }
        case KS_QUEUED_BUDDY =>
          if buddyStatus == Disconnected {
            flag := Connecting;
            TryBuddy(c, v.o, now);
          } else if buddyStatus == Connected {
            SetKadState(c, KS_NONE);
          }
        case KS_CONNECTING_BUDDY =>
          if buddyStatus == Connected {
            SetKadState(c, KS_NONE);
          } else {
            asserts := asserts && buddyStatus == Connecting;
            flag := Connecting;
          }
        case KS_CONNECTED_BUDDY =>
          flag := Connected;
          if buddyStatus != Connected {
            buddy := Some(c);
            buddyStatus := Connected;
          }
        case KS_NONE =>
          RemoveFromKadList(c);
        case _ =>
          // waiting for the result of a firewall check
      }
    }

    method TryBuddy(c: UpDownClient, o: TryOutcome, now: nat)
      requires c in list
      modifies this`list, this`kadList, this`buddy, this`buddyStatus, this`connectingClients, this`asserts, c
      ensures View() == Tried(old(View()).(status := Connecting, kad := old(View()).kad[c := KS_CONNECTING_BUDDY]), c, o, now)
      ensures list <= old(list)
    {
      ghost var s := View();
      buddyStatus := Connecting;
      SetKadState(c, KS_CONNECTING_BUDDY);
      assert View() == s.(status := Connecting, kad := s.kad[c := KS_CONNECTING_BUDDY]);
      TryToConnect(c, o, now);
    }

    /** The acknowledgement of a firewall check, which may have to connect first. */
    method AcknowledgeCheck(c: UpDownClient, ack: AckWay, now: nat)
      requires c in list
      modifies this`list, this`kadList, this`buddy, this`connectingClients, this`asserts, c
      ensures var s := old(View());
        var s1 := match ack case AckSent => s case AckViaConnect(o) => Tried(s, c, o, now);
        View() == if c in s1.kad && c in s1.ccs then s1.(kad := s1.kad[c := KS_NONE]) else s1
      ensures list <= old(list)
    {
      if ack.AckViaConnect? {
        TryToConnect(c, ack.o, now);
      }
      if c in list {
        SetKadState(c, KS_NONE);
      }
    }

    /** The loop over the Kad list. */
    method ProcessKadList(running: bool, visits: nat -> Visit, now: nat) returns (flag: BuddyStatus, ok: bool)
      requires !broken
      modifies this, list
      ensures list <= old(list) && (ok <==> !broken)
      ensures Visited(View(), flag) == KadLoop(old(View()), 0, Disconnected, running, visits, 0, now)
    {
      flag := Disconnected;
      var i, k := 0, 0;
      while i < |kadList|
        invariant i <= |kadList| && list <= old(list) && !broken
        invariant KadLoop(View(), i, flag, running, visits, k, now) == KadLoop(old(View()), 0, Disconnected, running, visits, 0, now)
        decreases |kadList| - i
      {
        var c := kadList[i];
        if c !in list {
          broken := true;
          return flag, false;
        }
        KadLoopStep(View(), i, flag, running, visits, k, now);
        var size := |kadList|;
        flag := VisitKadClient(c, flag, running, visits(k), now);
        i, k := if |kadList| < size then i else i + 1, k + 1;
      }
      ok := true;
    }

    /** After the loop: no sign of a buddy ends the search, and an unneeded buddy is let go. */
    method FinishKad(flag: BuddyStatus, dropBuddy: bool) returns (ok: bool)
      requires !broken
      modifies this`buddy, this`buddyStatus, this`broken, list
      ensures View() == BuddyDropped(LoopEnd(Visited(old(View()), flag)), dropBuddy)
      ensures list == old(list)
      ensures ok <==> !broken
    {
      if flag == Disconnected {
        buddy := None;
        buddyStatus := Disconnected;
      }
      if dropBuddy && buddy != None {
        if buddy.value !in list {
          broken := true;
          return false;
        }
        SetKadState(buddy.value, KS_NONE);
      }
      ok := true;
    }

    /** CleanUpClientList, for the clients found unused otherwise. */
    method CleanUpClientList(unused: seq<UpDownClient>)
      modifies this`list, this`kadList, this`buddy, this`connectingClients
      ensures View() == CleanedUp(old(View()), unused)
      ensures list <= old(list)
    {
      for i := 0 to |unused|
        invariant View() == CleanedUp(old(View()), unused[..i])
        invariant list <= old(list) && forall c :: c in list ==> c.kadState == old(c.kadState)
      {
        assert unused[..i + 1][..i] == unused[..i];
        if unused[i] in list && unused[i].kadState == KS_NONE {
          DeleteClient(unused[i]);
        }
      }
      assert unused[..|unused|] == unused;
    }

    method TimeOutClient(i: nat, delete: bool)
      requires i < |connectingClients| && connectingClients[i].client in list
      modifies this`list, this`kadList, this`buddy, this`connectingClients, this`asserts, connectingClients[i].client
      ensures var s, c := old(View()), old(connectingClients[i].client);
        View() == AfterDisconnect(s.(connecting := RemoveAt(s.connecting, i), asserts := s.asserts && s.ccs[c] != CCS_NONE), c, delete)
      ensures list <= old(list)
    {
      var c := connectingClients[i].client;
      ghost var s := View();
      asserts := asserts && c.connectingState != CCS_NONE;
      connectingClients := RemoveAt(connectingClients, i);
      assert View() == s.(connecting := RemoveAt(s.connecting, i), asserts := s.asserts && s.ccs[c] != CCS_NONE);
      Disconnect(c, delete);
    }

    /** ProcessConnectingClientsList */
    method ProcessConnectingClientsList(deletes: nat -> bool, now: nat)
      modifies this, list
      ensures View() == TimedOut(old(View()), 0, deletes, 0, now)
    {
      var i, k := 0, 0;
      while i < |connectingClients|
        invariant list <= old(list)
        invariant TimedOut(View(), i, deletes, k, now) == TimedOut(old(View()), 0, deletes, 0, now)
        decreases |connectingClients| - i
      {
        var cc := connectingClients[i];
        if now >= cc.inserted + CONNECT_TIMEOUT {
          if cc.client !in list {
            broken := true;
            return;
          }
          TimedOutStep(View(), i, deletes, k, now);
          TimeOutClient(i, deletes(k));
          k := k + 1;
        } else {
          i := i + 1;
        }
      }
    }

    /** Process, from the Kad client list on. */
    method Process(t: Tick<UpDownClient>)
      requires !broken
      modifies this, list
      ensures View() == Processed(old(View()), t)
    {
      var flag, ok := ProcessKadList(t.running, t.visits, t.now);
      if !ok {
        return;
      }
      ok := FinishKad(flag, t.dropBuddy);
      if !ok {
        return;
      }
      CleanUpClientList(t.unused);
      ProcessConnectingClientsList(t.deletes, t.now);
    }
  }
}
