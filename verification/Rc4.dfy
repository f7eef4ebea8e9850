/** The RC4 stream cipher of the server probe. */
module Rc4 {
  import opened BitOps
  import opened Bytes

  // ----- the cipher on values -----

  /** A permutation of 0..255 and the two indices that walk over it. */
  datatype State = State(s: seq<byte>, x: byte, y: byte)

  /** list(range(256)) */
  function Identity(): (s: seq<byte>)
    ensures |s| == 256 && forall i :: 0 <= i < 256 ==> s[i] == i
  {
    seq(256, i requires 0 <= i < 256 => i)
  }

  /** Every byte value occurs exactly once. */
  ghost predicate IsPermutation(s: seq<byte>) {
    |s| == 256 && forall v: byte :: multiset(s)[v] == 1
  }

  lemma {:induction false} CountedUpTo(s: seq<byte>, n: nat, v: byte)
    requires n <= |s| && forall i :: 0 <= i < |s| ==> s[i] == i
    ensures multiset(s[..n])[v] == if v < n then 1 else 0
  {
    if n > 0 {
      CountedUpTo(s, n - 1, v);
      assert s[..n] == s[..n - 1] + [s[n - 1]];
    }
  }

  lemma IdentityPermutes()
    ensures IsPermutation(Identity())
  {
    var s := Identity();
    assert s[..256] == s;
    forall v: byte ensures multiset(s)[v] == 1 {
      CountedUpTo(s, 256, v);
    }
  }

  ghost predicate Valid(st: State) { IsPermutation(st.s) }

  function Swap(s: seq<byte>, i: byte, j: byte): (t: seq<byte>)
    requires |s| == 256
    ensures |t| == 256
  {
    s[i := s[j]][j := s[i]]
  }

  /** The two assignments of a swap, seen element by element. */
  lemma Swapped(s: seq<byte>, t: seq<byte>, i: byte, j: byte)
    requires |s| == |t| == 256 && t[i] == s[j] && t[j] == s[i]
    requires forall k :: 0 <= k < 256 && k != i && k != j ==> t[k] == s[k]
    ensures t == Swap(s, i, j)
  {
  }

  lemma SwapPermutes(s: seq<byte>, i: byte, j: byte)
    requires |s| == 256
    ensures multiset(Swap(s, i, j)) == multiset(s)
  {
  }

  lemma ValidLength(st: State)
    requires Valid(st)
    ensures |st.s| == 256
  {
  }

  /** Advances both indices and swaps what they point at. */
  function Step(st: State): (st': State)
    requires Valid(st)
    ensures Valid(st')
  {
    var x := (st.x as int + 1) % 256;
    var y := (st.y as int + st.s[x] as int) % 256;
    SwapPermutes(st.s, x, y);
    State(Swap(st.s, x, y), x, y)
  }

  function KeyByte(st: State): byte
    requires Valid(st)
  {
    st.s[(st.s[st.x] as int + st.s[st.y] as int) % 256]
  }

  function Skip(st: State, n: nat): (st': State)
    requires Valid(st)
    ensures Valid(st')
    decreases n
  {
    if n == 0 then st else Skip(Step(st), n - 1)
  }

  function Crypt(st: State, data: seq<byte>): (out: seq<byte>)
    requires Valid(st)
    ensures |out| == |data|
    decreases data
  {
    if data == [] then [] else
    [XorByte(data[0], KeyByte(Step(st)))] + Crypt(Step(st), data[1..])
  }

  lemma {:induction false} SkipSkip(st: State, a: nat, b: nat)
    requires Valid(st)
    ensures Skip(Skip(st, a), b) == Skip(st, a + b)
    decreases a
  {
    hide Step, IsPermutation;
    if a > 0 {
      SkipSkip(Step(st), a - 1, b);
    }
  }

  /** Enciphering a stream in pieces is enciphering it whole. */
  lemma {:induction false} CryptConcat(st: State, a: seq<byte>, b: seq<byte>)
    requires Valid(st)
    ensures Crypt(st, a + b) == Crypt(st, a) + Crypt(Skip(st, |a|), b)
    decreases a
  {
    hide Step, IsPermutation, KeyByte, XorByte;
    if a == [] {
      assert a + b == b;
    } else {
      assert (a + b)[1..] == a[1..] + b;
      CryptConcat(Step(st), a[1..], b);
    }
  }

  /** Enciphering twice from one state gives the plain text back. */
  lemma {:induction false} CryptTwice(st: State, data: seq<byte>)
    requires Valid(st)
    ensures Crypt(st, Crypt(st, data)) == data
    decreases data
  {
    if data != [] {
      CryptTwice(Step(st), data[1..]);
      XorTwice(data[0], KeyByte(Step(st)));
      assert Crypt(st, data)[1..] == Crypt(Step(st), data[1..]);
    }
  }

  // ----- key setup -----

  datatype Setup = Setup(s: seq<byte>, j: byte)

  /** The permutation after the first i rounds of key setup. */
  function KeyRounds(key: seq<byte>, i: nat): (k: Setup)
    requires key != [] && i <= 256
    ensures |k.s| == 256 && IsPermutation(k.s)
  {
    if i == 0 then
      IdentityPermutes();
      Setup(Identity(), 0)
    else
    var k := KeyRounds(key, i - 1);
    var j := (k.j as int + k.s[i - 1] as int + key[(i - 1) % |key|] as int) % 256;
    SwapPermutes(k.s, i - 1, j);
    Setup(Swap(k.s, i - 1, j), j)
  }

  lemma KeySetupStarts(key: seq<byte>)
    requires key != []
    ensures KeyRounds(key, 0) == Setup(Identity(), 0)
  {
  }

  lemma KeyRoundsStep(key: seq<byte>, i: nat, before: seq<byte>, j: byte)
    requires key != [] && i < 256 && Setup(before, j) == KeyRounds(key, i)
    ensures var j' := (j as int + before[i] as int + key[i % |key|] as int) % 256;
      KeyRounds(key, i + 1) == Setup(Swap(before, i, j'), j')
  {
    hide Swap, IsPermutation, Identity;
  }

  function KeyState(key: seq<byte>): (st: State)
    requires key != []
    ensures Valid(st)
  {
    State(KeyRounds(key, 256).s, 0, 0)
  }

  /** The state a new cipher object starts in; the TCP side throws 1024 bytes away first. */
  function StartState(key: seq<byte>, skipDiscard: bool): (st: State)
    requires key != []
    ensures Valid(st)
  {
    if skipDiscard then KeyState(key) else Skip(KeyState(key), 1024)
  }

  /** One step, by the two elements that it exchanges. */
  lemma StepBy(st: State, x: byte, y: byte, a: byte, b: byte)
    requires Valid(st) && x == (st.x + 1) % 256 && st.s[x] == a && y == (st.y + a) % 256 && st.s[y] == b
    ensures Step(st) == State(st.s[x := b][y := a], x, y) && KeyByte(Step(st)) == st.s[x := b][y := a][(a + b) % 256]
  {
  }

  /** Three steps from the identity. */
  lemma StepsFromIdentity()
    ensures Valid(State(Identity(), 0, 0))
    ensures var s1 := Step(State(Identity(), 0, 0));
      var s2 := Step(s1);
      var s3 := Step(s2);
      KeyByte(s1) == 2 && KeyByte(s2) == 5 && KeyByte(s3) == 7
  {
    hide IsPermutation, Step, KeyByte;
    IdentityPermutes();
    var s0 := State(Identity(), 0, 0);
    StepBy(s0, 1, 1, 1, 1);
    StepBy(Step(s0), 2, 3, 2, 3);
    StepBy(Step(Step(s0)), 3, 5, 2, 5);
  }

  /** The first bytes of the key stream from the identity: what the swaps make of it is 2, 5 and 7. */
  lemma KeyStreamStarts()
    ensures Valid(State(Identity(), 0, 0)) && Crypt(State(Identity(), 0, 0), [0, 0, 0]) == [2, 5, 7]
  {
    hide Step, KeyByte, IsPermutation, Identity, XorByte;
    StepsFromIdentity();
    var s0 := State(Identity(), 0, 0);
    var s1 := Step(s0);
    var s2 := Step(s1);
    XorFromZero(2);
    XorFromZero(5);
    XorFromZero(7);
    assert [0, 0, 0][1..] == [0, 0] && [0, 0][1..] == [0] && [0][1..] == [];
    assert Crypt(s2, [0]) == [7];
    assert Crypt(s1, [0, 0]) == [5, 7];
  }

  lemma XorFromZero(k: byte)
    ensures XorByte(0, k) == k
  {
    XorCommutes(0, k);
    XorZero(k);
  }

  /** The first rounds of key setup, which draw on the key's bytes in turn and then on the first again. */
  lemma KeySetupBegins(a: byte, b: byte)
    requires 1 < a < 100 && 1 < b < 50
    ensures var k := KeyRounds([a, b], 2);
      k.j == a + 1 + b && k.s[0] == a && k.s[1] == a + 1 + b && k.s[a] == 0 && k.s[a + 1 + b] == 1
    ensures KeyRounds([a, b], 3).j == (a + 1 + b + KeyRounds([a, b], 2).s[2] + a) % 256
  {
    var k0 := KeyRounds([a, b], 0);
    var k1 := KeyRounds([a, b], 1);
    assert k1.j == a && k1.s == Identity()[0 := a][a := 0];
  }

  /** The TCP side starts where 1024 enciphered bytes have led. */
  lemma DiscardSkips(key: seq<byte>, zeros: seq<byte>, data: seq<byte>)
    requires key != [] && |zeros| == 1024
    ensures StartState(key, true) == KeyState(key)
    ensures Crypt(StartState(key, true), zeros + data)[1024..] == Crypt(StartState(key, false), data)
  {
    hide Crypt, KeyState;
    CryptConcat(KeyState(key), zeros, data);
  }

  // ----- the cipher object -----

  class RC4 {
    var s: array<byte>
    var x: byte
    var y: byte

    ghost predicate Good()
      reads this, s
    {
      Valid(View())
    }

    ghost function View(): State
      reads this, s
    {
      State(s[..], x, y)
    }

    constructor (keyData: seq<byte>, skipDiscard: bool)
      requires keyData != []
      ensures Good() && fresh(s)
      ensures View() == StartState(keyData, skipDiscard)
    {
      s := new byte[256](i requires 0 <= i < 256 => i);
      x, y := 0, 0;
      new;
      assert s[..] == Identity();
      MixIn(keyData);
      if !skipDiscard {
        var out := Encrypt(seq(1024, _ => 0));
      }
    }

    /** The loop of key setup. */
    method MixIn(keyData: seq<byte>)
      requires keyData != [] && s[..] == Identity()
      modifies s
      ensures s[..] == KeyRounds(keyData, 256).s
    {
      hide Swap, IsPermutation, KeyRounds;
      var j: byte := 0;
      KeySetupStarts(keyData);
      for i := 0 to 256
        invariant s.Length == 256
        invariant Setup(s[..], j) == KeyRounds(keyData, i)
      {
        ghost var before, j0 := s[..], j;
        j := (j as int + s[i] as int + keyData[i % |keyData|] as int) % 256;
        s[i], s[j] := s[j], s[i];
        KeyRoundsStep(keyData, i, before, j0);
        Swapped(before, s[..], i, j);
      }
    }

    /** Advances the generator by one byte. */
    method Advance()
      requires Good()
      modifies this, s
      ensures Good() && s == old(s)
      ensures View() == Step(old(View()))
    {
      hide Identity, Swap, IsPermutation;
      ValidLength(View());
      ghost var start := View();
      x := (x as int + 1) % 256;
      y := (y as int + s[x] as int) % 256;
      s[x], s[y] := s[y], s[x];
      Swapped(start.s, s[..], x, y);
      assert View() == Step(start);
    }

    method NextKeyByte() returns (k: byte)
      requires Good()
      modifies this, s
      ensures Good() && s == old(s)
      ensures View() == Step(old(View())) && k == KeyByte(View())
    {
      Advance();
      k := s[(s[x] as int + s[y] as int) % 256];
    }

    /** RC4.crypt */
    method Encrypt(data: seq<byte>) returns (out: seq<byte>)
      requires Good()
      modifies this, s
      ensures Good() && s == old(s)
      ensures out == Crypt(old(View()), data)
      ensures View() == Skip(old(View()), |data|)
    {
      hide Step, IsPermutation, KeyByte, XorByte;
      ghost var start := View();
      out := [];
      assert data[0..] == data;
      for i := 0 to |data|
        invariant Good() && s == old(s)
        invariant out + Crypt(View(), data[i..]) == Crypt(start, data)
        invariant Skip(View(), |data| - i) == Skip(start, |data|)
      {
        assert data[i..][1..] == data[i + 1..];
        var k := NextKeyByte();
        out := out + [XorByte(data[i], k)];
      }
    }

    /** RC4.skip: leaves the state that enciphering n bytes leaves. */
    method SkipBytes(n: nat)
      requires Good()
      modifies this, s
      ensures Good() && s == old(s)
      ensures View() == Skip(old(View()), n)
    {
      for i := 0 to n
        invariant Good() && s == old(s)
        invariant Skip(View(), n - i) == Skip(old(View()), n)
      {
        Advance();
      }
    }
  }
}
