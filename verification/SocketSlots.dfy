/** The slot table of CAsyncSocketExHelperWindow, which maps window messages to sockets. */
module SocketSlots {

  /** 0xBFFF - WM_SOCKETEX_NOTIFY + 1 */
  const MAX_SOCKETS: nat := 0xBAFC
  const GROWTH: nat := 512

  class AsyncSocket {
    /** Slot of an attached socket, negative when detached. */
    var nSocketIndex: int

    constructor ()
      ensures nSocketIndex == -1
    {
      nSocketIndex := -1;
    }
  }

  type Slots = seq<AsyncSocket?>

  function Used(s: Slots): (n: nat)
    ensures n <= |s|
  {
    if s == [] then 0 else
    Used(s[..|s| - 1]) + if s[|s| - 1] == null then 0 else 1
  }

  /** The slot reached after going k steps round from the cursor. */
  function Around(pos: nat, k: nat, size: nat): nat
    requires size > 0
  {
    (pos + k) % size
  }

  /** A table with fewer sockets than slots has a free slot. */
  lemma {:induction false} SomeSlotFree(s: Slots)
    requires Used(s) < |s|
    ensures exists i :: 0 <= i < |s| && s[i] == null
  {
    var n := |s| - 1;
    if s[n] != null {
      SomeSlotFree(s[..n]);
      var i :| 0 <= i < n && s[..n][i] == null;
      assert s[i] == null;
    }
  }

  lemma {:induction false} UsedAfterSet(s: Slots, i: nat, v: AsyncSocket?)
    requires i < |s|
    ensures Used(s[i := v]) == Used(s) - (if s[i] == null then 0 else 1) + (if v == null then 0 else 1)
  {
    var n := |s| - 1;
    if i < n {
      assert s[i := v][..n] == s[..n][i := v];
      UsedAfterSet(s[..n], i, v);
    } else {
      assert s[i := v][..n] == s[..n];
    }
  }

  lemma {:induction false} UsedOfGrown(s: Slots, t: Slots)
    requires forall i :: 0 <= i < |t| ==> t[i] == null
    ensures Used(s + t) == Used(s)
  {
    if t == [] {
      assert s + t == s;
    } else {
      var n := |t| - 1;
      assert (s + t)[..|s| + n] == s + t[..n];
      UsedOfGrown(s, t[..n]);
    }
  }

  /** A full turn from any cursor passes every slot. */
  lemma TurnPassesAll(pos: nat, size: nat, i: nat) returns (k: nat)
    requires i < size
    ensures k < size && Around(pos, k, size) == i
  {
    var p := pos % size;
    k := if i >= p then i - p else size - p + i;
    var q := pos / size;
    assert pos == q * size + p;
    if i >= p {
      ModOf(q, size, i);
      assert pos + k == q * size + i;
    } else {
      ModOf(q + 1, size, i);
      assert (q + 1) * size == q * size + size;
      assert pos + k == (q + 1) * size + i;
    }
  }

  lemma MulGap(a: nat, b: nat, size: nat)
    requires a > b
    ensures a * size >= b * size + size
  {
    assert a * size == (b + 1) * size + (a - b - 1) * size;
  }

  lemma ModOf(q: nat, size: nat, i: nat)
    requires i < size
    ensures (q * size + i) % size == i
  {
    var y := q * size + i;
    var p := y / size;
    assert y == p * size + y % size;
    if q > p { MulGap(q, p, size); }
    if p > q { MulGap(p, q, size); }
  }

  function Smaller(a: nat, b: nat): nat { if a <= b then a else b }

  /** Size of the table once AddSocket has made room for one more than count sockets. */
  function SizeFor(size: nat, count: nat): (n: nat)
    requires count <= size <= MAX_SOCKETS
    ensures size <= n <= MAX_SOCKETS && (count < MAX_SOCKETS ==> count < n)
  {
    var s := if size == 0 then GROWTH else size;
    if count >= s - 10 then Smaller(s + GROWTH, MAX_SOCKETS) else s
  }

  /** The table with free slots added up to the given size. */
  function Extended(s: Slots, size: nat): Slots {
    if size <= |s| then s else s + seq(size - |s|, _ => null)
  }

  lemma NoGrowth(s: Slots, count: nat)
    requires |s| <= MAX_SOCKETS && count + 10 < |s|
    ensures Extended(s, SizeFor(|s|, count)) == s
  {
  }

  lemma UsedOfExtended(s: Slots, size: nat)
    ensures Used(Extended(s, size)) == Used(s)
  {
    if size > |s| {
      UsedOfGrown(s, seq(size - |s|, _ => null));
    }
  }

  lemma {:induction false} NotAllUsed(s: Slots, i: nat)
    requires i < |s| && s[i] == null
    ensures Used(s) < |s|
  {
    if i < |s| - 1 {
      NotAllUsed(s[..|s| - 1], i);
    }
  }

  /** Slot i is the first free one met going round from the cursor. */
  ghost predicate FirstFree(s: Slots, pos: nat, i: nat) {
    && i < |s| && s[i] == null
    && exists k :: 0 <= k < |s| && TakenUpTo(s, pos, k) && Around(pos, k, |s|) == i
  }

  /** The first k slots met going round from the cursor are taken. */
  ghost predicate TakenUpTo(s: Slots, pos: nat, k: nat) {
    forall j :: 0 <= j < k && |s| > 0 ==> s[Around(pos, j, |s|)] != null
  }

  /** A full turn over taken slots has seen the whole table. */
  lemma AllTaken(s: Slots, pos: nat)
    requires TakenUpTo(s, pos, |s|)
    ensures Used(s) == |s|
  {
    if Used(s) < |s| {
      SomeSlotFree(s);
      var f :| 0 <= f < |s| && s[f] == null;
      var k := TurnPassesAll(pos, |s|, f);
    }
  }

  class HelperWindow {
    var slots: array<AsyncSocket?>
    var windowDataPos: nat
    var socketCount: nat

    /** Every slot's socket knows its slot, and the counter is the number of used slots. */
    ghost predicate Valid()
      reads this, slots, slots[..]
    {
      && slots.Length <= MAX_SOCKETS
      && socketCount == Used(slots[..])
      && forall i :: 0 <= i < slots.Length ==> var s := slots[i]; s != null ==> s.nSocketIndex == i
    }

    /** The socket's index, when it has one, names the slot that holds it. */
    ghost predicate Placed(s: AsyncSocket)
      reads this, slots, s
    {
      s.nSocketIndex >= 0 ==> s.nSocketIndex < slots.Length && slots[s.nSocketIndex] == s
    }

    constructor ()
      ensures Valid() && fresh(slots)
      ensures slots[..] == seq(GROWTH, _ => null)
      ensures windowDataPos == 0 && socketCount == 0
    {
      slots := new AsyncSocket?[GROWTH](_ => null);
      windowDataPos, socketCount := 0, 0;
      new;
      assert slots[..] == [] + slots[..];
      UsedOfGrown([], slots[..]);
    }

    /** A larger table with the old slots where they were. */
    method Resize(size: nat)
      requires Valid() && slots.Length <= size <= MAX_SOCKETS
      modifies this`slots
      ensures Valid() && fresh(slots)
      ensures slots.Length == size && slots[..] == Extended(old(slots[..]), size)
      ensures forall i :: 0 <= i < old(slots.Length) ==> slots[i] == old(slots[i])
    {
      var tmp := slots;
      var grown := new AsyncSocket?[size](_ => null);
      for i := 0 to tmp.Length
        invariant forall k :: 0 <= k < i ==> grown[k] == tmp[k]
        invariant forall k :: i <= k < size ==> grown[k] == null
      {
        grown[i] := tmp[i];
      }
      assert grown[..] == Extended(tmp[..], size);
      UsedOfExtended(tmp[..], size);
      slots := grown;
    }

    /** Looks for a free slot, once round from the cursor. */
    method FindFree() returns (found: bool, idx: nat, step: nat)
      requires Valid() && slots.Length > 0
      ensures found <==> socketCount < slots.Length
      ensures found ==> idx < slots.Length && slots[idx] == null && FirstFree(slots[..], windowDataPos, idx)
      ensures found ==> (windowDataPos + step + 1) % slots.Length == (idx + 1) % slots.Length
    {
      var size := slots.Length;
      var i := windowDataPos;
      while i < size + windowDataPos
        invariant windowDataPos <= i <= size + windowDataPos
        invariant TakenUpTo(slots[..], windowDataPos, i - windowDataPos)
      {
        idx := i % size;
        if slots[idx] == null {
          step := i - windowDataPos;
          NextOf(i, size);
          NotAllUsed(slots[..], idx);
          assert Around(windowDataPos, step, size) == idx;
          return true, idx, step;
        }
        i := i + 1;
      }
      found, idx, step := false, 0, 0;
      AllTaken(slots[..], windowDataPos);
    }

    /**
     Attaches a socket. It gets the first free slot at or after the cursor, going round, and the
     cursor moves behind it. It fails only when all MAX_SOCKETS slots are taken.
     */
    method AddSocket(sock: AsyncSocket?) returns (ok: bool)
      requires Valid()
      requires sock != null ==> Placed(sock)
      modifies this, slots, sock
      ensures Valid() && (sock != null ==> Placed(sock))
      ensures ok <==> sock != null && (old(sock.nSocketIndex) >= 0 || old(socketCount) < MAX_SOCKETS)
      ensures sock == null || old(sock.nSocketIndex) >= 0 ==>
        && slots == old(slots) && slots[..] == old(slots[..])
        && socketCount == old(socketCount) && windowDataPos == old(windowDataPos)
        && (sock != null ==> sock.nSocketIndex == old(sock.nSocketIndex))
      ensures sock != null && old(sock.nSocketIndex) < 0 ==>
        var s := Extended(old(slots[..]), SizeFor(old(slots.Length), old(socketCount)));
        if ok then
          && sock.nSocketIndex >= 0
          && FirstFree(s, old(windowDataPos), sock.nSocketIndex)
          && slots[..] == s[sock.nSocketIndex := sock]
          && socketCount == old(socketCount) + 1
          && windowDataPos == (sock.nSocketIndex + 1) % slots.Length
        else
          && slots[..] == s && sock.nSocketIndex == old(sock.nSocketIndex)
          && socketCount == old(socketCount) && windowDataPos == old(windowDataPos)
      ensures slots == old(slots) || fresh(slots)
      ensures forall t: AsyncSocket | old(allocated(t)) && old(Placed(t)) :: Placed(t)
    {
      hide FirstFree, Around, TakenUpTo, Extended, SizeFor;
      if sock == null {
        return false;
      }
      if sock.nSocketIndex >= 0 {
        return true;
      }
      if slots.Length == 0 || socketCount >= slots.Length - 10 {
        // the code's ASSERT that the table can still grow
        assert socketCount < MAX_SOCKETS - 10 ==> slots.Length < MAX_SOCKETS;
        Resize(SizeFor(slots.Length, socketCount));
      } else {
        NoGrowth(slots[..], socketCount);
      }
      var found, idx, step := FindFree();
      if !found {
        return false;
      }
      AttachAt(sock, idx, step);
      ok := true;
    }

    /** Puts a socket into the free slot that the search found, and moves the cursor behind it. */
    method AttachAt(sock: AsyncSocket, idx: nat, step: nat)
      requires Valid() && sock.nSocketIndex < 0
      requires idx < slots.Length && slots[idx] == null
      modifies this`windowDataPos, this`socketCount, slots, sock
      ensures Valid() && sock.nSocketIndex == idx
      ensures slots[..] == old(slots[..])[idx := sock] && socketCount == old(socketCount) + 1
      ensures windowDataPos == (old(windowDataPos) + step + 1) % slots.Length
      ensures forall t: AsyncSocket | old(allocated(t)) && old(Placed(t)) :: Placed(t)
    {
      ghost var before := slots[..];
      slots[idx] := sock;
      sock.nSocketIndex := idx;
      windowDataPos := (windowDataPos + step + 1) % slots.Length;
      socketCount := socketCount + 1;
      assert slots[..] == before[idx := sock];
      UsedAfterSet(before, idx, sock);
    }

    /** Detaches a socket; one without a slot stays as it is. */
    method RemoveSocket(sock: AsyncSocket?) returns (ok: bool)
      requires Valid()
      requires sock != null ==> Placed(sock)
      modifies this`socketCount, slots, sock
      ensures Valid()
      ensures ok <==> sock != null
      ensures sock != null ==> sock.nSocketIndex < 0
      ensures sock != null && old(sock.nSocketIndex) >= 0 ==>
        && slots[..] == old(slots[..])[old(sock.nSocketIndex) := null]
        && socketCount == old(socketCount) - 1
      ensures sock == null || old(sock.nSocketIndex) < 0 ==>
        slots[..] == old(slots[..]) && socketCount == old(socketCount)
      ensures forall t: AsyncSocket | old(allocated(t)) && old(Placed(t)) :: Placed(t)
    {
      if sock == null {
        return false;
      }
      if sock.nSocketIndex >= 0 {
        ghost var before, idx := slots[..], sock.nSocketIndex;
        UsedAfterSet(before, idx, null);
        slots[sock.nSocketIndex] := null;
        assert slots[..] == before[idx := null];
        sock.nSocketIndex := -1;
        socketCount := socketCount - 1;
      }
      ok := true;
    }
  }

  lemma NextOf(i: nat, size: nat)
    requires size > 0
    ensures (i + 1) % size == (i % size + 1) % size
  {
    var q, r := i / size, i % size;
    assert i == q * size + r;
    if r + 1 < size {
      ModOf(q, size, r + 1);
      ModOf(0, size, r + 1);
    } else {
      assert (q + 1) * size == q * size + size;
      ModOf(q + 1, size, 0);
      ModOf(1, size, 0);
    }
  }

  /** The counter counts what the name says: the slots that are not free. */
  lemma {:induction false} UsedCounts(s: Slots)
    ensures Used(s) == |set i | 0 <= i < |s| && s[i] != null|
  {
    if s != [] {
      var n := |s| - 1;
      UsedCounts(s[..n]);
      var all, front := set i | 0 <= i < |s| && s[i] != null, set i | 0 <= i < n && s[..n][i] != null;
      assert all == if s[n] != null then front + {n} else front;
    }
  }

  /** The table grows by 512 slots, as far as the limit allows, when fewer than eleven are left, and else not at all. */
  lemma GrowsWhenNearlyFull(size: nat, count: nat)
    requires count <= size <= 0xBAFC
    ensures size > 0 && size - count > 10 ==> SizeFor(size, count) == size
    ensures size > 0 && size - count <= 10 ==> SizeFor(size, count) == if size + 512 <= 0xBAFC then size + 512 else 0xBAFC
    ensures SizeFor(0, 0) == 512
  {
  }
}
