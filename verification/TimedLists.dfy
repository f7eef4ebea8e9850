/**
 The lists of CClientList that forget with time: bans, Kad firewall check requests and direct
 callback requests. Ticks are milliseconds; the clock does not run backwards.
 */
module TimedLists {

  const REQUEST_WINDOW: nat := 180_000
  const CLIENTBANTIME: nat := 7_200_000
  const BAN_CLEANUP_TIME: nat := 1_200_000

  datatype IpTick = IpTick(ip: nat, tick: nat)

  // ----- requests remembered for three minutes -----

  predicate Expired(e: IpTick, now: nat) { now >= e.tick + REQUEST_WINDOW }

  /** A request from ip within the window, in a log that forgets nothing. */
  predicate Recent(log: seq<IpTick>, ip: nat, now: nat) {
    exists i :: 0 <= i < |log| && log[i].ip == ip && !Expired(log[i], now)
  }

  /** The log's ticks do not decrease, and none lies after the last call. */
  predicate Ordered(log: seq<IpTick>, last: nat) {
    && (forall i, j :: 0 <= i < j < |log| ==> log[i].tick <= log[j].tick)
    && (forall i :: 0 <= i < |log| ==> log[i].tick <= last)
  }

  /** The kept list is the end of the log, newest first, and what it lacks has expired. */
  predicate Remembers(kept: seq<IpTick>, log: seq<IpTick>, last: nat) {
    && |kept| <= |log|
    && (forall i :: 0 <= i < |kept| ==> kept[i] == log[|log| - 1 - i])
    && (forall i :: 0 <= i < |log| - |kept| ==> Expired(log[i], last))
  }

  lemma Added(kept: seq<IpTick>, log: seq<IpTick>, last: nat, e: IpTick)
    requires Ordered(log, last) && Remembers(kept, log, last) && last <= e.tick
    ensures Ordered(log + [e], e.tick) && Remembers([e] + kept, log + [e], e.tick)
  {
  }

  lemma TailDropped(kept: seq<IpTick>, log: seq<IpTick>, last: nat)
    requires Remembers(kept, log, last) && kept != [] && Expired(kept[|kept| - 1], last)
    ensures Remembers(kept[..|kept| - 1], log, last)
  {
  }

  lemma RestIsFresh(kept: seq<IpTick>, log: seq<IpTick>, last: nat)
    requires Ordered(log, last) && Remembers(kept, log, last)
    requires kept != [] ==> !Expired(kept[|kept| - 1], last)
    ensures forall i :: 0 <= i < |kept| ==> !Expired(kept[i], last)
  {
    forall i | 0 <= i < |kept| ensures !Expired(kept[i], last) {
      assert kept[|kept| - 1].tick <= kept[i].tick;
    }
  }

  class RequestList {
    var entries: seq<IpTick>
    /** Every request there ever was, oldest first, and the tick of the last one. */
    ghost var log: seq<IpTick>
    ghost var last: nat

    ghost predicate Valid()
      reads this
    {
      Ordered(log, last) && Remembers(entries, log, last)
    }

    constructor ()
      ensures Valid() && log == [] && last == 0
    {
      entries, log, last := [], [], 0;
    }

    /** AddKadFirewallRequest and AddTrackCallbackRequests: add in front, drop the expired tail. */
    method Add(ip: nat, now: nat)
      requires Valid() && now >= last
      modifies this
      ensures Valid()
      ensures log == old(log) + [IpTick(ip, now)] && last == now
      ensures forall i :: 0 <= i < |entries| ==> !Expired(entries[i], now)
    {
      Added(entries, log, last, IpTick(ip, now));
      entries := [IpTick(ip, now)] + entries;
      log, last := log + [IpTick(ip, now)], now;
      while entries != [] && Expired(entries[|entries| - 1], now)
        invariant log == old(log) + [IpTick(ip, now)] && last == now
        invariant Valid()
        decreases |entries|
      {
        TailDropped(entries, log, last);
        entries := entries[..|entries| - 1];
      }
      RestIsFresh(entries, log, last);
    }

    /** AllowCalbackRequest: looks through the whole list. */
    method AllowCallbackRequest(ip: nat, now: nat) returns (allow: bool)
      requires Valid() && now >= last
      ensures allow <==> !Recent(log, ip, now)
    {
      for i := 0 to |entries|
        invariant forall k :: 0 <= k < i ==> !(entries[k].ip == ip && !Expired(entries[k], now))
      {
        if entries[i].ip == ip && now < entries[i].tick + REQUEST_WINDOW {
          assert log[|log| - 1 - i] == entries[i];
          return false;
        }
      }
      NothingRecent(entries, log, last, ip, now);
      allow := true;
    }

    /** IsKadFirewallCheckIP: stops at the first expired entry. */
    method IsKadFirewallCheckIP(ip: nat, now: nat) returns (found: bool)
      requires Valid() && now >= last
      ensures found <==> Recent(log, ip, now)
    {
      for i := 0 to |entries|
        invariant forall k :: 0 <= k < i ==> !(entries[k].ip == ip && !Expired(entries[k], now))
      {
        if now >= entries[i].tick + REQUEST_WINDOW {
          forall k | i <= k < |entries| ensures Expired(entries[k], now) {
            assert entries[k].tick <= entries[i].tick;
          }
          break;
        }
        if entries[i].ip == ip {
          assert log[|log| - 1 - i] == entries[i];
          return true;
        }
      }
      NothingRecent(entries, log, last, ip, now);
      found := false;
    }
  }

  /** What the pruned list does not show, the full log does not show either. */
  lemma NothingRecent(kept: seq<IpTick>, log: seq<IpTick>, last: nat, ip: nat, now: nat)
    requires Remembers(kept, log, last) && now >= last
    requires forall k :: 0 <= k < |kept| ==> !(kept[k].ip == ip && !Expired(kept[k], now))
    ensures !Recent(log, ip, now)
  {
    forall i | 0 <= i < |log| ensures !(log[i].ip == ip && !Expired(log[i], now)) {
      if i >= |log| - |kept| {
        assert kept[|log| - 1 - i] == log[i];
      }
    }
  }

  // ----- bans -----

  datatype BanEvent = Ban(ip: nat, tick: nat) | Unban(ip: nat) | UnbanAll

  predicate Banned(bans: map<nat, nat>, ip: nat, now: nat) {
    ip in bans && now < bans[ip] + CLIENTBANTIME
  }

  /** Whether ip is banned, by the whole history of bans and pardons. */
  predicate BannedByHistory(events: seq<BanEvent>, ip: nat, now: nat) {
    if events == [] then false else
    match events[|events| - 1]
    case Ban(p, t) => if p == ip then now < t + CLIENTBANTIME else BannedByHistory(events[..|events| - 1], ip, now)
    case Unban(p) => p != ip && BannedByHistory(events[..|events| - 1], ip, now)
    case UnbanAll => false
  }

  /** The table without the bans that are over. */
  function Cleaned(bans: map<nat, nat>, now: nat): map<nat, nat> {
    map ip | ip in bans && now < bans[ip] + CLIENTBANTIME :: bans[ip]
  }

  /** A cleaned table gives the same answers from then on. */
  lemma CleanedAnswersAlike(bans: map<nat, nat>, now: nat, ip: nat, later: nat)
    requires later >= now
    ensures Banned(Cleaned(bans, now), ip, later) <==> Banned(bans, ip, later)
  {
  }

  class BanList {
    var bannedList: map<nat, nat>
    var lastBanCleanUp: nat
    ghost var events: seq<BanEvent>
    ghost var last: nat

    /** From now on the table answers as the history does. */
    ghost predicate Valid()
      reads this
    {
      forall ip, now :: now >= last ==> (Banned(bannedList, ip, now) <==> BannedByHistory(events, ip, now))
    }

    constructor (now: nat)
      ensures Valid() && events == [] && last == now
    {
      bannedList, lastBanCleanUp := map[], now;
      events, last := [], now;
    }

    method AddBannedClient(ip: nat, now: nat)
      requires Valid() && now >= last
      modifies this`bannedList, this`events, this`last
      ensures Valid() && events == old(events) + [Ban(ip, now)] && last == now
    {
      bannedList := bannedList[ip := now];
      events, last := events + [Ban(ip, now)], now;
      assert events[..|events| - 1] == old(events);
    }

    method IsBannedClient(ip: nat, now: nat) returns (banned: bool)
      requires Valid() && now >= last
      ensures banned <==> BannedByHistory(events, ip, now)
    {
      banned := ip in bannedList && now < bannedList[ip] + CLIENTBANTIME;
      assert banned <==> Banned(bannedList, ip, now);
    }

    method RemoveBannedClient(ip: nat)
      requires Valid()
      modifies this`bannedList, this`events
      ensures Valid() && events == old(events) + [Unban(ip)]
    {
      bannedList := bannedList - {ip};
      events := events + [Unban(ip)];
      assert events[..|events| - 1] == old(events);
    }

    method RemoveAllBannedClients()
      requires Valid()
      modifies this`bannedList, this`events
      ensures Valid() && events == old(events) + [UnbanAll]
    {
      bannedList := map[];
      events := events + [UnbanAll];
    }

    /** The ban part of CClientList::Process: no event, and no answer changes. */
    method CleanUp(now: nat)
      requires Valid() && now >= last
      modifies this`bannedList, this`lastBanCleanUp, this`last
      ensures Valid() && last == now
      ensures if now >= old(lastBanCleanUp) + BAN_CLEANUP_TIME
        then bannedList == Cleaned(old(bannedList), now) && lastBanCleanUp == now
        else bannedList == old(bannedList) && lastBanCleanUp == old(lastBanCleanUp)
    {
      if now >= lastBanCleanUp + BAN_CLEANUP_TIME {
        lastBanCleanUp := now;
        var todo := bannedList.Keys;
        while todo != {}
          invariant lastBanCleanUp == now && last == old(last)
          invariant todo <= bannedList.Keys <= old(bannedList).Keys
          invariant forall k :: k in bannedList ==> bannedList[k] == old(bannedList)[k]
          invariant forall k :: k in old(bannedList) ==>
            if k in todo then k in bannedList else k in bannedList <==> now < old(bannedList)[k] + CLIENTBANTIME
          decreases |todo|
        {
          var key :| key in todo;
          if now >= bannedList[key] + CLIENTBANTIME {
            bannedList := bannedList - {key};
          }
          todo := todo - {key};
        }
        assert bannedList == Cleaned(old(bannedList), now);
        forall ip, later | later >= now
          ensures Banned(bannedList, ip, later) <==> BannedByHistory(events, ip, later)
        {
          CleanedAnswersAlike(old(bannedList), now, ip, later);
        }
      }
      last := now;
    }
  }

  /** Three minutes: a request counts as recent while less than that has passed since. */
  lemma RecentMeans(log: seq<IpTick>, ip: nat, now: nat)
    ensures Recent(log, ip, now) <==> exists e :: e in log && e.ip == ip && now - e.tick < 3 * 60 * 1000
  {
    if e :| e in log && e.ip == ip && now - e.tick < 3 * 60 * 1000 {
      var i :| 0 <= i < |log| && log[i] == e;
    }
  }

  /** Event i bans ip, and nothing behind it in the history speaks of ip. */
  ghost predicate LastBan(events: seq<BanEvent>, i: nat, ip: nat, tick: nat) {
    && i < |events| && events[i] == Ban(ip, tick)
    && forall j :: i < j < |events| ==> events[j] != Unban(ip) && events[j] != UnbanAll && !(events[j].Ban? && events[j].ip == ip)
  }

  /** Two hours: an address is banned if its last ban is less than that ago and no pardon came after it. */
  lemma {:induction false} BannedMeans(events: seq<BanEvent>, ip: nat, now: nat)
    ensures BannedByHistory(events, ip, now) <==>
      exists i, tick :: LastBan(events, i, ip, tick) && now - tick < 2 * 60 * 60 * 1000
  {
    if events != [] {
      var n := |events| - 1;
      BannedMeans(events[..n], ip, now);
      var e := events[n];
      if e == Unban(ip) || e == UnbanAll || (e.Ban? && e.ip == ip) {
        assert forall i, tick :: LastBan(events, i, ip, tick) ==> i == n;
        if e.Ban? { assert LastBan(events, n, ip, e.tick); }
      } else {
        forall i: nat, tick: nat
          ensures LastBan(events, i, ip, tick) <==> LastBan(events[..n], i, ip, tick)
        {
          if LastBan(events[..n], i, ip, tick) { assert events[..n][i] == events[i]; }
        }
      }
    }
  }

  /** A cleaned table holds exactly the bans that are not over. */
  lemma CleanedHolds(bans: map<nat, nat>, now: nat, ip: nat)
    ensures ip in Cleaned(bans, now) <==> ip in bans && now - bans[ip] < 2 * 60 * 60 * 1000
    ensures ip in Cleaned(bans, now) ==> Cleaned(bans, now)[ip] == bans[ip]
  {
  }
}
