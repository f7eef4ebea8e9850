/**
 Two honest clients identifying each other over two first-in first-out channels, in every
 interleaving and over any number of connections. The network is written from the point of view
 of one client, x; the other's steps are the same ones seen in the mirror.
 */
module SecIdentPair {
  import opened Bytes
  import opened Credits
  import opened SecIdent

  datatype Net = Net(x: Session, y: Session, out: seq<Packet>, inn: seq<Packet>, askedX: bool, askedY: bool)

  function Mirror(n: Net): Net { Net(n.y, n.x, n.inn, n.out, n.askedY, n.askedX) }

  /**
   A step of client x: its one request of the connection, or taking in the next packet. The request
   goes out when the peer's hello is handled (InfoPacketsReceived), so before any packet of this
   exchange is taken in.
   */
  datatype Move = Ask(random: Uint32) | Deliver

  type Address = n: int | 0 < n < TWO_32 witness 1

  /** The client object of the next connection: the one that was kept, or a new one over the same credits. */
  datatype Client = Kept | New(ip: Address, support: nat)

  datatype Step = AtX(m: Move) | AtY(m: Move) | Reconnect(x: Client, y: Client)

  predicate SaneNet(n: Net) { Sane(n.x) && Sane(n.y) }

  function MoveX(mx: Me, n: Net, m: Move): (n': Net)
    requires SaneNet(n)
    ensures SaneNet(n')
  {
    match m
    case Ask(random) =>
      if n.askedX || random + 1 >= TWO_32 then n else
      var o := if n.x.support == 0 then Outcome(n.x, []) else SendState(mx, n.x, random);
      n.(x := o.s, out := n.out + o.sent, askedX := true)
    case Deliver =>
      if n.inn == [] || !n.askedX then n else
      var o := OnPacket(mx, n.x, n.inn[0]);
      n.(x := o.s, out := n.out + o.sent, inn := n.inn[1..])
  }

  /** A new object starts as Init leaves it; a kept one keeps its state and its last signature address. */
  function Again(s: Session, c: Client): Session {
    match c
    case Kept => s
    case New(ip, support) => Session(ip, support, IS_UNAVAILABLE, 0, s.credit)
  }

  /** The connection breaks, with whatever is still on the way, and another one is made. */
  function Reconnected(n: Net, cx: Client, cy: Client): Net {
    Net(Again(n.x, cx), Again(n.y, cy), [], [], false, false)
  }

  function NetStep(mx: Me, my: Me, n: Net, s: Step): (n': Net)
    requires SaneNet(n)
    ensures SaneNet(n')
  {
    match s
    case AtX(m) => MoveX(mx, n, m)
    case AtY(m) => Mirror(MoveX(my, Mirror(n), m))
    case Reconnect(cx, cy) => if Agree(mx, Again(n.x, cx), my, Again(n.y, cy)) then Reconnected(n, cx, cy) else n
  }

  function NetRun(mx: Me, my: Me, n: Net, steps: seq<Step>): (n': Net)
    requires SaneNet(n)
    ensures SaneNet(n')
  {
    if steps == [] then n else
    NetStep(mx, my, NetRun(mx, my, n, steps[..|steps| - 1]), steps[|steps| - 1])
  }

  // ----- what the two sides must agree on -----

  /** Our ID is the address the world sees: there is one, and it is not a low one. */
  predicate KnownPublicly(me: Me) { me.clientID != 0 && !me.lowID }

  /**
   x and y see each other right, as far as y's signature depends on it: a y that knows its public
   address is seen by x at that address; any other y sees x at x's public address, or at x's local
   one when x does not know better.
   */
  predicate SeenRight(mx: Me, sx: Session, my: Me, sy: Session) {
    if KnownPublicly(my) then sx.peerIP == my.clientID
    else sy.peerIP == if KnownPublicly(mx) then mx.clientID else mx.localIP
  }

  /**
   y signs in version 1, which names no address, whenever x is known to take it; for version 2 x has
   to know that y makes it, and the two have to see each other right.
   */
  predicate AgreeOneWay(mx: Me, sx: Session, my: Me, sy: Session) {
    sy.support % 2 == 1 || (sx.support / 2 % 2 == 1 && SeenRight(mx, sx, my, sy))
  }

  /** Both take part, with keys that fit the packets, and sign and check the same addresses. */
  predicate Agree(mx: Me, sx: Session, my: Me, sy: Session) {
    && mx.crypto && my.crypto && sx.support != 0 && sy.support != 0
    && 9 <= |mx.key| <= MAXPUBKEYSIZE && 9 <= |my.key| <= MAXPUBKEYSIZE
    && AgreeOneWay(mx, sx, my, sy) && AgreeOneWay(my, sy, mx, sx)
  }

  /** The first connection has just been made: nothing asked, and only the peer's true key known, if any. */
  predicate FreshSide(s: Session, peerKey: seq<byte>) {
    && Sane(s) && s.state == IS_UNAVAILABLE
    && s.lastSignatureIP != s.peerIP
    && (s.credit.working == [] || s.credit.working == peerKey)
    && (s.credit.stored == [] || s.credit.stored == s.credit.working)
  }

  predicate Fresh(mx: Me, my: Me, n: Net) {
    && FreshSide(n.x, my.key) && FreshSide(n.y, mx.key)
    && n.out == [] && n.inn == [] && !n.askedX && !n.askedY
    && Agree(mx, n.x, my, n.y)
  }

  // ----- the invariant, for x authenticating y -----

  predicate HasKey(s: Session) { s.credit.working != [] }

  predicate Done(my: Me, s: Session) {
    && s.lastSignatureIP == s.peerIP
    && s.credit.ident == Identified && s.credit.identIP == s.peerIP
    && s.credit.stored == s.credit.working == my.key
  }

  /** The signature y owes x. */
  function Owed(mx: Me, my: Me, n: Net): Packet
    requires SaneNet(n)
  {
    SignaturePacket(Signed(my.key, SignedBytes(mx.key, n.x.credit.challengeFor, SendIP(my, n.y), SendKind(my, n.y))),
                    KindField(SendKind(my, n.y)))
  }

  /** Every signature in the channel has a key packet somewhere before it. */
  predicate KeyBeforeSignature(ch: seq<Packet>) {
    ch == [] || ch[0].PublicKey? || (!ch[0].SignaturePacket? && KeyBeforeSignature(ch[1..]))
  }

  /** Packets on their way to x are y's own: its request, its key and the signature it owes. */
  predicate IncomingHonest(mx: Me, my: Me, n: Net)
    requires SaneNet(n)
  {
    forall i :: 0 <= i < |n.inn| ==>
      match n.inn[i]
      case SecIdentState(v, c) => n.askedY && 1 <= v <= 2 && c == n.y.credit.challengeFor && (v == 1 ==> HasKey(n.y))
      case PublicKey(key) => key == my.key
      case SignaturePacket(_, _) => n.askedX && n.inn[i] == Owed(mx, my, n) && n.y.state == 0 && !Open(n)
  }

  /** x's request has not arrived yet. */
  predicate Open(n: Net) { n.out != [] && n.out[0].SecIdentState? }

  /** x sends nothing before its request, and no second one. */
  predicate RequestFirst(n: Net) {
    && (!n.askedX ==> n.out == [])
    && forall i :: 0 < i < |n.out| ==> !n.out[i].SecIdentState?
  }

  predicate Request(n: Net, v: byte)
    requires SaneNet(n)
  {
    SecIdentState(v, n.x.credit.challengeFor) in n.out
  }

  predicate SideOk(mx: Me, my: Me, n: Net)
    requires SaneNet(n)
  {
    && (n.x.credit.working == [] || n.x.credit.working == my.key)
    && (n.x.credit.stored == [] || n.x.credit.stored == n.x.credit.working)
    && (n.askedX ==> n.x.credit.challengeFor != 0)
    && (n.x.lastSignatureIP == n.x.peerIP ==>
         Done(my, n.x) && n.x.credit.challengeFor != 0 && n.y.state == 0 && !Open(n))
  }

  /**
   y waits for x's key before it can sign. A client kept from a broken connection may still wait for
   the key with the challenge of that connection, but not after x's new request has arrived.
   */
  predicate WaitingOk(my: Me, n: Net)
    requires SaneNet(n)
  {
    && n.y.state <= 1
    && (n.y.state == 1 ==>
         && !HasKey(n.y)
         && (n.askedX && !Open(n) ==>
              && n.y.credit.challengeFrom == n.x.credit.challengeFor
              && (HasKey(n.x) || PublicKey(my.key) in n.inn)))
  }

  /** Once x has asked, either it is done or something on the way will get it there. */
  predicate Progress(mx: Me, my: Me, n: Net)
    requires SaneNet(n)
  {
    n.askedX ==>
      && (Done(my, n.x) || Owed(mx, my, n) in n.inn || (n.y.state == 1 && !Open(n)) || Request(n, 1) || Request(n, 2))
      && (HasKey(n.x) || Request(n, 2) || PublicKey(my.key) in n.inn)
  }

  predicate Half(mx: Me, my: Me, n: Net)
    requires SaneNet(n)
  {
    && SideOk(mx, my, n)
    && RequestFirst(n)
    && IncomingHonest(mx, my, n)
    && (HasKey(n.x) || KeyBeforeSignature(n.inn))
    && WaitingOk(my, n)
    && Progress(mx, my, n)
  }

  predicate Invariant(mx: Me, my: Me, n: Net)
    requires SaneNet(n)
  {
    Agree(mx, n.x, my, n.y) && Half(mx, my, n) && Half(my, mx, Mirror(n))
  }

  lemma FreshIsInvariant(mx: Me, my: Me, n: Net)
    requires Fresh(mx, my, n)
    ensures Invariant(mx, my, n)
  {
  }

  lemma {:induction false} KeyBeforeAppend(ch: seq<Packet>, key: seq<byte>, p: Packet)
    requires KeyBeforeSignature(ch) && (!p.SignaturePacket? || PublicKey(key) in ch)
    ensures KeyBeforeSignature(ch + [p])
  {
    if ch != [] && !ch[0].PublicKey? {
      KeyBeforeAppend(ch[1..], key, p);
      assert (ch + [p])[1..] == ch[1..] + [p];
    }
  }

  /** Adding a packet to a channel keeps what is in it. */
  lemma InAppend(ch: seq<Packet>, ps: seq<Packet>, q: Packet)
    ensures q in ch + ps <==> q in ch || q in ps
  {
  }

  /** Taking the first packet off keeps every other kind of packet that was in the channel. */
  lemma InTail(ch: seq<Packet>, q: Packet)
    requires ch != [] && q != ch[0]
    ensures q in ch <==> q in ch[1..]
  {
    assert ch == [ch[0]] + ch[1..];
  }

  // ----- asking -----

  /** The network after x asks; a kept client that has identified y at this address sends nothing. */
  function Asked(n: Net, random: Uint32): Net
    requires random + 1 < TWO_32
  {
    if n.x.lastSignatureIP == n.x.peerIP then n.(askedX := true) else
    n.(x := n.x.(credit := n.x.credit.(challengeFor := random + 1)),
       out := n.out + [SecIdentState(if HasKey(n.x) then 1 else 2, random + 1)], askedX := true)
  }

  lemma AskEffect(mx: Me, my: Me, n: Net, random: Uint32)
    requires SaneNet(n) && Invariant(mx, my, n) && !n.askedX && random + 1 < TWO_32
    ensures MoveX(mx, n, Ask(random)) == Asked(n, random)
  {
    hide IncomingHonest, WaitingOk, Progress;
  }

  lemma NewRequestKeeps(mx: Me, my: Me, n: Net, random: Uint32)
    requires SaneNet(n) && Half(mx, my, n) && !n.askedX && random + 1 < TWO_32
    requires n.x.lastSignatureIP != n.x.peerIP
    ensures Half(mx, my, Asked(n, random))
  {
    hide Owed;
    var n' := Asked(n, random);
    var v := if HasKey(n.x) then 1 else 2;
    assert n'.out == [SecIdentState(v, random + 1)];
    assert n'.out[0] in n'.out && Request(n', v) && Open(n');
  }

  lemma NothingToAsk(mx: Me, my: Me, n: Net, random: Uint32)
    requires SaneNet(n) && Half(mx, my, n) && my.key != [] && !n.askedX && random + 1 < TWO_32
    requires n.x.lastSignatureIP == n.x.peerIP
    ensures Half(mx, my, Asked(n, random))
  {
    hide Owed;
    assert Done(my, n.x);
  }

  lemma AskKeepsY(mx: Me, my: Me, n: Net, random: Uint32)
    requires SaneNet(n) && Half(my, mx, Mirror(n)) && !n.askedX && random + 1 < TWO_32
    ensures Half(my, mx, Mirror(Asked(n, random)))
  {
    var n' := Asked(n, random);
    var p := SecIdentState(if HasKey(n.x) then 1 else 2, random + 1);
    assert Owed(my, mx, Mirror(n')) == Owed(my, mx, Mirror(n));
    if !HasKey(n.y) {
      KeyBeforeAppend(n.out, [], p);
    }
    InAppend(n.out, [p], Owed(my, mx, Mirror(n)));
    InAppend(n.out, [p], PublicKey(mx.key));
  }

  lemma AskKeeps(mx: Me, my: Me, n: Net, random: Uint32)
    requires SaneNet(n) && Invariant(mx, my, n)
    ensures Invariant(mx, my, MoveX(mx, n, Ask(random)))
  {
    hide Half, Asked, AgreeOneWay, MoveX;
    if !n.askedX && random + 1 < TWO_32 {
      AskEffect(mx, my, n, random);
      if n.x.lastSignatureIP != n.x.peerIP {
        NewRequestKeeps(mx, my, n, random);
      } else {
        NothingToAsk(mx, my, n, random);
      }
      AskKeepsY(mx, my, n, random);
      AgreeKept(mx, my, n, Ask(random));
    } else {
      NoAsk(mx, n, random);
    }
  }

  lemma NoAsk(mx: Me, n: Net, random: Uint32)
    requires SaneNet(n) && (n.askedX || random + 1 >= TWO_32)
    ensures MoveX(mx, n, Ask(random)) == n
  {
  }

  // ----- taking in a request -----

  /** The network after x takes in the request at the head of its channel. */
  lemma StateEffect(mx: Me, my: Me, n: Net)
    requires SaneNet(n) && Invariant(mx, my, n)
    requires n.askedX && n.inn != [] && n.inn[0].SecIdentState?
    ensures var n' := MoveX(mx, n, Deliver);
      var v := n.inn[0].value;
      && 1 <= v <= 2 && n.askedY && n.inn[0].challenge == n.y.credit.challengeFor != 0
      && (v == 1 ==> HasKey(n.y))
      && n' == n.(x := n.x.(state := if HasKey(n.x) then 0 else 1,
                            credit := n.x.credit.(challengeFrom := n.y.credit.challengeFor)),
                  inn := n.inn[1..],
                  out := n.out + (if v == 2 then [PublicKey(mx.key)] else [])
                               + (if HasKey(n.x) then [Owed(my, mx, Mirror(n))] else []))
  {
    assert n.inn[0] in n.inn;
    var s1 := n.x.(state := NewState(n.x.state, n.inn[0].value),
                   credit := n.x.credit.(challengeFrom := n.inn[0].challenge));
    if HasKey(n.x) {
      assert MySignature(mx, s1) == Owed(my, mx, Mirror(n)).sig;
    }
    assert n.out + [] + [] == n.out;
    assert n.out + ([PublicKey(mx.key)] + []) == n.out + [PublicKey(mx.key)] + [];
    assert n.out + ([PublicKey(mx.key)] + [Owed(my, mx, Mirror(n))]) == n.out + [PublicKey(mx.key)] + [Owed(my, mx, Mirror(n))];
  }

  lemma StateKeepsX(mx: Me, my: Me, n: Net)
    requires SaneNet(n) && Invariant(mx, my, n)
    requires n.askedX && n.inn != [] && n.inn[0].SecIdentState?
    ensures Half(mx, my, MoveX(mx, n, Deliver))
  {
    StateEffect(mx, my, n);
    var n' := MoveX(mx, n, Deliver);
    InTail(n.inn, Owed(mx, my, n));
    InTail(n.inn, PublicKey(my.key));
    forall v: byte ensures Request(n, v) ==> Request(n', v) {
    }
  }

  lemma StateKeepsY(mx: Me, my: Me, n: Net)
    requires SaneNet(n) && Invariant(mx, my, n)
    requires n.askedX && n.inn != [] && n.inn[0].SecIdentState?
    ensures Half(my, mx, Mirror(MoveX(mx, n, Deliver)))
  {
    StateEffect(mx, my, n);
    var n' := MoveX(mx, n, Deliver);
    var key, sig := PublicKey(mx.key), Owed(my, mx, Mirror(n));
    assert HasKey(n.y) || KeyBeforeSignature(n'.out) by {
      if !HasKey(n.y) { KeyThenSignature(n.out, mx.key, sig); }
    }
    assert IncomingHonest(my, mx, Mirror(n')) by { StateKeepsHonest(mx, my, n); }
    assert n.inn[0].value == 2 ==> key in n'.out;
    assert HasKey(n.x) ==> sig in n'.out;
    assert forall q :: q in n.out ==> q in n'.out;
  }

  lemma StateKeepsHonest(mx: Me, my: Me, n: Net)
    requires SaneNet(n) && Invariant(mx, my, n)
    requires n.askedX && n.inn != [] && n.inn[0].SecIdentState?
    ensures IncomingHonest(my, mx, Mirror(MoveX(mx, n, Deliver)))
  {
    StateEffect(mx, my, n);
    var n' := MoveX(mx, n, Deliver);
    var key, sig := PublicKey(mx.key), Owed(my, mx, Mirror(n));
    assert sig == Owed(my, mx, Mirror(n'));
    forall i | |n.out| <= i < |n'.out| ensures n'.out[i] == key || n'.out[i] == sig {
    }
  }

  lemma KeyThenSignature(ch: seq<Packet>, key: seq<byte>, sig: Packet)
    requires KeyBeforeSignature(ch)
    ensures KeyBeforeSignature(ch + [PublicKey(key)] + [sig])
    ensures KeyBeforeSignature(ch + [PublicKey(key)] + [])
  {
    var mid := ch + [PublicKey(key)];
    KeyBeforeAppend(ch, key, PublicKey(key));
    assert mid[|ch|] == PublicKey(key);
    KeyBeforeAppend(mid, key, sig);
    assert mid + [] == mid;
  }

  // ----- taking in the key -----

  lemma KeyEffect(mx: Me, my: Me, n: Net)
    requires SaneNet(n) && Invariant(mx, my, n)
    requires n.askedX && n.inn != [] && n.inn[0].PublicKey?
    ensures var n' := MoveX(mx, n, Deliver);
      && n' == n.(x := n'.x, inn := n.inn[1..],
                  out := n.out + if n.x.state == 1 then [Owed(my, mx, Mirror(n))] else [])
      && n'.x == n.x.(state := 0, credit := n'.x.credit)
      && n'.x.credit == n.x.credit.(working := my.key, ident := n'.x.credit.ident)
      && (n'.x.credit.ident == n.x.credit.ident || (n'.x.credit.ident == IdNeeded && n.x.credit.stored == []))
  {
    assert n.inn[0] in n.inn;
    if n.x.state == 1 {
      var s1 := n.x.(credit := KeySet(n.x.credit, my.key));
      assert MySignature(mx, s1) == Owed(my, mx, Mirror(n)).sig;
    }
  }

  lemma KeyKeepsX(mx: Me, my: Me, n: Net)
    requires SaneNet(n) && Invariant(mx, my, n)
    requires n.askedX && n.inn != [] && n.inn[0].PublicKey?
    ensures Half(mx, my, MoveX(mx, n, Deliver))
  {
    KeyEffect(mx, my, n);
    var n' := MoveX(mx, n, Deliver);
    InTail(n.inn, Owed(mx, my, n));
    assert Owed(mx, my, n') == Owed(mx, my, n);
    forall v: byte ensures Request(n, v) ==> Request(n', v) {
    }
  }

  lemma KeyKeepsY(mx: Me, my: Me, n: Net)
    requires SaneNet(n) && Invariant(mx, my, n)
    requires n.askedX && n.inn != [] && n.inn[0].PublicKey?
    ensures Half(my, mx, Mirror(MoveX(mx, n, Deliver)))
  {
    KeyEffect(mx, my, n);
    var n' := MoveX(mx, n, Deliver);
    var sig := Owed(my, mx, Mirror(n));
    assert sig == Owed(my, mx, Mirror(n'));
    assert HasKey(n.y) || KeyBeforeSignature(n'.out) by {
      if !HasKey(n.y) && n.x.state == 1 { KeyBeforeAppend(n.out, mx.key, sig); }
      assert n.out + [] == n.out;
    }
    assert n.x.state == 1 ==> sig in n'.out;
    assert forall q :: q in n'.out ==> q in n.out || q == sig;
    assert forall q :: q in n.out ==> q in n'.out;
    forall c: Uint32, v: byte ensures SecIdentState(v, c) in n.inn ==> SecIdentState(v, c) in n'.inn {
      InTail(n.inn, SecIdentState(v, c));
    }
  }

  // ----- taking in the signature -----

  /** The signature y owes verifies: x and y put the same bytes together. */
  lemma OwedVerifies(mx: Me, my: Me, n: Net)
    requires SaneNet(n) && Invariant(mx, my, n) && n.askedX && HasKey(n.x)
    ensures var p := Owed(mx, my, n);
      SignatureGood(mx, n.x, p.sig, p.kind) && (SignatureWelcome(mx, n.x, p.kind) || Done(my, n.x))
  {
  }

  lemma SignatureEffect(mx: Me, my: Me, n: Net)
    requires SaneNet(n) && Invariant(mx, my, n)
    requires n.askedX && n.inn != [] && n.inn[0].SignaturePacket?
    ensures var n' := MoveX(mx, n, Deliver);
      && n' == n.(x := n'.x, inn := n.inn[1..])
      && Done(my, n'.x)
      && n'.x == n.x.(lastSignatureIP := n.x.peerIP, credit := n'.x.credit)
      && n'.x.credit.challengeFor == n.x.credit.challengeFor && n'.x.credit.challengeFrom == n.x.credit.challengeFrom
      && HasKey(n.x)
  {
    assert n.inn[0] in n.inn;
    assert HasKey(n.x);
    OwedVerifies(mx, my, n);
    assert n.out + [] == n.out;
  }

  lemma SignatureKeeps(mx: Me, my: Me, n: Net)
    requires SaneNet(n) && Invariant(mx, my, n)
    requires n.askedX && n.inn != [] && n.inn[0].SignaturePacket?
    ensures Half(mx, my, MoveX(mx, n, Deliver)) && Half(my, mx, Mirror(MoveX(mx, n, Deliver)))
  {
    SignatureEffect(mx, my, n);
    var n' := MoveX(mx, n, Deliver);
    assert Owed(mx, my, n') == Owed(mx, my, n);
    assert Owed(my, mx, Mirror(n')) == Owed(my, mx, Mirror(n));
    forall c: Uint32, v: byte ensures SecIdentState(v, c) in n.inn ==> SecIdentState(v, c) in n'.inn {
      InTail(n.inn, SecIdentState(v, c));
    }
  }

  // ----- every interleaving -----

  lemma AgreeKept(mx: Me, my: Me, n: Net, m: Move)
    requires SaneNet(n)
    ensures var n' := MoveX(mx, n, m); Agree(mx, n'.x, my, n'.y) <==> Agree(mx, n.x, my, n.y)
  {
  }

  lemma MoveKeeps(mx: Me, my: Me, n: Net, m: Move)
    requires SaneNet(n) && Invariant(mx, my, n)
    ensures Invariant(mx, my, MoveX(mx, n, m))
  {
    AgreeKept(mx, my, n, m);
    match m
    case Ask(random) => AskKeeps(mx, my, n, random);
    case Deliver =>
      if n.inn != [] && n.askedX {
        match n.inn[0]
        case SecIdentState(_, _) =>
          StateKeepsX(mx, my, n);
          StateKeepsY(mx, my, n);
        case PublicKey(_) =>
          KeyKeepsX(mx, my, n);
          KeyKeepsY(mx, my, n);
        case SignaturePacket(_, _) =>
          SignatureKeeps(mx, my, n);
      }
  }

  lemma MirrorKeeps(mx: Me, my: Me, n: Net)
    requires SaneNet(n) && Invariant(mx, my, n)
    ensures Invariant(my, mx, Mirror(n))
  {
    assert Mirror(Mirror(n)) == n;
  }

  /** A new connection over the same credits starts with the invariant, whichever objects were kept. */
  lemma ReconnectKeeps(mx: Me, my: Me, n: Net, cx: Client, cy: Client)
    requires SaneNet(n) && Invariant(mx, my, n)
    ensures Invariant(mx, my, NetStep(mx, my, n, Reconnect(cx, cy)))
  {
  }

  lemma {:induction false} RunKeeps(mx: Me, my: Me, n: Net, steps: seq<Step>)
    requires SaneNet(n) && Invariant(mx, my, n)
    ensures Invariant(mx, my, NetRun(mx, my, n, steps))
  {
    if steps != [] {
      var front, last := steps[..|steps| - 1], steps[|steps| - 1];
      RunKeeps(mx, my, n, front);
      var n1 := NetRun(mx, my, n, front);
      match last
      case AtX(m) => MoveKeeps(mx, my, n1, m);
      case AtY(m) =>
        MirrorKeeps(mx, my, n1);
        MoveKeeps(my, mx, Mirror(n1), m);
        MirrorKeeps(my, mx, MoveX(my, Mirror(n1), m));
      case Reconnect(cx, cy) => ReconnectKeeps(mx, my, n1, cx, cy);
    }
  }

  /** A signature that is next in x's channel passes the verification, whatever x thought of y before. */
  predicate NextSignatureGood(mx: Me, n: Net)
    requires SaneNet(n)
  {
    n.inn != [] && n.inn[0].SignaturePacket? ==> SignatureGood(mx, n.x, n.inn[0].sig, n.inn[0].kind)
  }

  lemma ArrivingVerifies(mx: Me, my: Me, n: Net)
    requires SaneNet(n) && Invariant(mx, my, n)
    ensures NextSignatureGood(mx, n)
  {
    if n.inn != [] && n.inn[0].SignaturePacket? {
      assert n.inn[0] in n.inn && n.askedX;
      SignatureEffect(mx, my, n);
      OwedVerifies(mx, my, n);
    }
  }

  /** One step never turns a client that had not failed into one that has. */
  lemma StepFailsNobody(mx: Me, my: Me, n: Net, s: Step)
    requires SaneNet(n) && Invariant(mx, my, n)
    ensures var n' := NetStep(mx, my, n, s);
      && (n.x.credit.ident != IdFailed ==> n'.x.credit.ident != IdFailed)
      && (n.y.credit.ident != IdFailed ==> n'.y.credit.ident != IdFailed)
  {
    hide Half;
    ArrivingVerifies(mx, my, n);
    MirrorKeeps(mx, my, n);
    ArrivingVerifies(my, mx, Mirror(n));
  }

  lemma {:induction false} RunFailsNobody(mx: Me, my: Me, n: Net, steps: seq<Step>)
    requires SaneNet(n) && Invariant(mx, my, n)
    ensures var n' := NetRun(mx, my, n, steps);
      && (n.x.credit.ident != IdFailed ==> n'.x.credit.ident != IdFailed)
      && (n.y.credit.ident != IdFailed ==> n'.y.credit.ident != IdFailed)
  {
    if steps != [] {
      var front, last := steps[..|steps| - 1], steps[|steps| - 1];
      RunFailsNobody(mx, my, n, front);
      RunKeeps(mx, my, n, front);
      StepFailsNobody(mx, my, NetRun(mx, my, n, front), last);
    }
  }

  /**
   Two honest clients never fail each other, in any interleaving and over any connections of a
   session: every signature that arrives at either side verifies, and no step marks the other as
   failed. Once both have asked in a connection and its channels have drained, both have identified
   the other under its true key.
   */
  lemma HonestPeersIdentify(mx: Me, my: Me, n: Net, steps: seq<Step>)
    requires Fresh(mx, my, n)
    ensures var n' := NetRun(mx, my, n, steps);
      && NextSignatureGood(mx, n') && NextSignatureGood(my, Mirror(n'))
      && (n.x.credit.ident != IdFailed ==> n'.x.credit.ident != IdFailed)
      && (n.y.credit.ident != IdFailed ==> n'.y.credit.ident != IdFailed)
      && (n'.askedX && n'.askedY && n'.out == [] && n'.inn == [] ==> Done(my, n'.x) && Done(mx, n'.y))
  {
    FreshIsInvariant(mx, my, n);
    RunKeeps(mx, my, n, steps);
    RunFailsNobody(mx, my, n, steps);
    var n' := NetRun(mx, my, n, steps);
    ArrivingVerifies(mx, my, n');
    MirrorKeeps(mx, my, n');
    ArrivingVerifies(my, mx, Mirror(n'));
  }

  /** For version 2 the two have to see each other right: exactly then the signature y owes verifies at x. */
  lemma VerifiesIffSeenRight(mx: Me, my: Me, n: Net)
    requires SaneNet(n) && |mx.key| <= MAXPUBKEYSIZE
    requires n.x.credit.working == my.key
    ensures var p := Owed(mx, my, n);
      SignatureGood(mx, n.x, p.sig, p.kind) <==> n.y.support % 2 == 1 || SeenRight(mx, n.x, my, n.y)
  {
    var kind, c := SendKind(my, n.y), n.x.credit.challengeFor;
    var a, b := SendIP(my, n.y), VerifyIP(mx, n.x, kind);
    var k := mx.key + Le32(c);
    if kind != 0 && SignedBytes(mx.key, c, a, kind) == SignedBytes(mx.key, c, b, kind) {
      assert (k + (Le32(a) + [kind]))[|k|..|k| + 4] == Le32(a);
      assert (k + (Le32(b) + [kind]))[|k|..|k| + 4] == Le32(b);
      assert a == Val32(Le32(a)) && b == Val32(Le32(b));
    }
  }

  // ----- the exchange comes to an end -----

  function Weight(p: Packet): nat {
    match p
    case SecIdentState(_, _) => 4
    case PublicKey(_) => 2
    case SignaturePacket(_, _) => 1
  }

  function Load(ch: seq<Packet>): nat {
    if ch == [] then 0 else Weight(ch[0]) + Load(ch[1..])
  }

  lemma {:induction false} LoadAppend(a: seq<Packet>, b: seq<Packet>)
    ensures Load(a + b) == Load(a) + Load(b)
  {
    if a == [] {
      assert a + b == b;
    } else {
      assert (a + b)[1..] == a[1..] + b;
      LoadAppend(a[1..], b);
    }
  }

  /** Every packet sets off less than it weighed, so deliveries cannot go on for ever. */
  lemma DeliveryLightens(mx: Me, n: Net)
    requires SaneNet(n) && n.askedX && n.inn != []
    ensures var n' := MoveX(mx, n, Deliver); Load(n'.inn) + Load(n'.out) < Load(n.inn) + Load(n.out)
  {
    var o := OnPacket(mx, n.x, n.inn[0]);
    LoadAppend(n.out, o.sent);
    SentIsLight(mx, n.x, n.inn[0]);
  }

  lemma SentIsLight(me: Me, s: Session, p: Packet)
    requires Sane(s)
    ensures Load(OnPacket(me, s, p).sent) < Weight(p)
  {
    if p.SecIdentState? {
      var s1 := s.(state := NewState(s.state, p.value), credit := s.credit.(challengeFrom := p.challenge));
      var o := SendPublicKey(me, s1);
      LoadAppend(o.sent, SendSignature(me, o.s).sent);
    }
  }

  lemma {:induction false} RunCons(mx: Me, my: Me, n: Net, s: Step, steps: seq<Step>)
    requires SaneNet(n)
    ensures NetRun(mx, my, n, [s] + steps) == NetRun(mx, my, NetStep(mx, my, n, s), steps)
  {
    if steps == [] {
      assert [s] + steps == [s] && [s][..0] == [];
    } else {
      var k := |steps| - 1;
      assert ([s] + steps)[..k + 1] == [s] + steps[..k];
      RunCons(mx, my, n, s, steps[..k]);
    }
  }

  /** Once both have asked, delivering what is on the way drains both channels. */
  lemma {:induction false} Drain(mx: Me, my: Me, n: Net) returns (steps: seq<Step>)
    requires SaneNet(n) && n.askedX && n.askedY
    ensures var n' := NetRun(mx, my, n, steps);
      n'.out == [] && n'.inn == [] && n'.askedX && n'.askedY
    ensures forall i :: 0 <= i < |steps| ==> !steps[i].Reconnect?
    decreases Load(n.inn) + Load(n.out)
  {
    if n.inn != [] {
      DeliveryLightens(mx, n);
      steps := Drain(mx, my, NetStep(mx, my, n, AtX(Deliver)));
      RunCons(mx, my, n, AtX(Deliver), steps);
      steps := [AtX(Deliver)] + steps;
    } else if n.out != [] {
      DeliveryLightens(my, Mirror(n));
      steps := Drain(mx, my, NetStep(mx, my, n, AtY(Deliver)));
      RunCons(mx, my, n, AtY(Deliver), steps);
      steps := [AtY(Deliver)] + steps;
    } else {
      steps := [];
    }
  }

  /** So whatever has happened in a session, its present connection can still identify both. */
  lemma IdentificationCompletes(mx: Me, my: Me, n: Net, steps: seq<Step>) returns (more: seq<Step>)
    requires Fresh(mx, my, n)
    ensures var n' := NetRun(mx, my, NetRun(mx, my, n, steps), more);
      Done(my, n'.x) && Done(mx, n'.y)
    ensures forall i :: 0 <= i < |more| ==> !more[i].Reconnect?
  {
    hide Half, AgreeOneWay;
    var n1 := NetRun(mx, my, n, steps);
    FreshIsInvariant(mx, my, n);
    RunKeeps(mx, my, n, steps);
    var n2 := NetStep(mx, my, n1, AtX(Ask(0)));
    var n3 := NetStep(mx, my, n2, AtY(Ask(0)));
    more := Drain(mx, my, n3);
    RunCons(mx, my, n2, AtY(Ask(0)), more);
    RunCons(mx, my, n1, AtX(Ask(0)), [AtY(Ask(0))] + more);
    more := [AtX(Ask(0))] + ([AtY(Ask(0))] + more);
    RunKeeps(mx, my, n1, more);
    DrainedIsDone(mx, my, NetRun(mx, my, n1, more));
  }

  /** With both requests made and nothing on the way, the invariant leaves only identification. */
  lemma DrainedIsDone(mx: Me, my: Me, n: Net)
    requires SaneNet(n) && Invariant(mx, my, n) && n.askedX && n.askedY && n.out == [] && n.inn == []
    ensures Done(my, n.x) && Done(mx, n.y)
  {
  }
}
