/** What the secure identification exchange guarantees, to a lone client and between two honest ones. */
module SecIdentProofs {
  import opened Bytes
  import opened Credits
  import opened SecIdent

  // ----- the signed bytes -----

  /** Among keys of one length the signed bytes determine key, challenge, version and address. */
  lemma SignedBytesInjective(k1: seq<byte>, c1: Uint32, ip1: Uint32, kind1: byte,
                             k2: seq<byte>, c2: Uint32, ip2: Uint32, kind2: byte)
    requires |k1| == |k2|
    ensures SignedBytes(k1, c1, ip1, kind1) == SignedBytes(k2, c2, ip2, kind2) <==>
      k1 == k2 && c1 == c2 && kind1 == kind2 && (kind1 != 0 ==> ip1 == ip2)
  {
    hide Le32, Val32;
    if SignedBytes(k1, c1, ip1, kind1) == SignedBytes(k2, c2, ip2, kind2) {
      var t1 := if kind1 != 0 then Le32(ip1) + [kind1] else [];
      var t2 := if kind2 != 0 then Le32(ip2) + [kind2] else [];
      assert SignedBytes(k1, c1, ip1, kind1) == k1 + (Le32(c1) + t1);
      assert SignedBytes(k2, c2, ip2, kind2) == k2 + (Le32(c2) + t2);
      SameFront(k1, Le32(c1) + t1, k2, Le32(c2) + t2);
      SameFront(Le32(c1), t1, Le32(c2), t2);
      assert Val32(Le32(c1)) == c1 && Val32(Le32(c2)) == c2;
      if kind1 != 0 && kind2 != 0 {
        SameFront(Le32(ip1), [kind1], Le32(ip2), [kind2]);
        assert Val32(Le32(ip1)) == ip1 && Val32(Le32(ip2)) == ip2;
        assert [kind1][0] == [kind2][0];
      }
    }
  }

  lemma SameFront<T>(a: seq<T>, x: seq<T>, b: seq<T>, y: seq<T>)
    requires a + x == b + y && |a| == |b|
    ensures a == b && x == y
  {
    assert a == (a + x)[..|a|] && b == (b + y)[..|a|];
    assert x == (a + x)[|a|..] && y == (b + y)[|a|..];
  }

  // ----- one client against any network -----

  /**
   A packet arrives, we ask for identification, the peer turns up under another address (SetIP), or
   a new client object, as Init leaves it, takes over the credits.
   */
  datatype Event = Deliver(p: Packet) | Ask(random: Uint32) | SetIP(ip: Uint32) | Reconnect(ip: Uint32, support: nat)

  function Next(me: Me, s: Session, e: Event): (s': Session)
    requires Sane(s)
    ensures Sane(s')
  {
    match e
    case Deliver(p) => OnPacket(me, s, p).s
    case Ask(random) => if random + 1 < TWO_32 then SendState(me, s, random).s else s
    case SetIP(ip) => s.(peerIP := ip)
    case Reconnect(ip, support) => Session(ip, support, IS_UNAVAILABLE, 0, s.credit)
  }

  function RunOf(me: Me, s: Session, es: seq<Event>): (s': Session)
    requires Sane(s)
    ensures Sane(s')
  {
    if es == [] then s else Next(me, RunOf(me, s, es[..|es| - 1]), es[|es| - 1])
  }

  predicate Accepts(me: Me, s: Session, e: Event)
    requires Sane(s)
  {
    e.Deliver? && e.p.SignaturePacket? && SignatureWelcome(me, s, e.p.kind) && SignatureGood(me, s, e.p.sig, e.p.kind)
  }

  /** A challenge is outstanding only if we drew it. */
  lemma {:induction false} ChallengeWasDrawn(me: Me, s: Session, es: seq<Event>)
    requires Sane(s) && s.credit.challengeFor == 0
    ensures RunOf(me, s, es).credit.challengeFor != 0 ==>
      exists j :: 0 <= j < |es| && es[j].Ask? && es[j].random + 1 == RunOf(me, s, es).credit.challengeFor
  {
    if es != [] {
      var n := |es| - 1;
      ChallengeWasDrawn(me, s, es[..n]);
      var s1, s2 := RunOf(me, s, es[..n]), RunOf(me, s, es);
      if s2.credit.challengeFor == s1.credit.challengeFor && s1.credit.challengeFor != 0 {
        var j :| 0 <= j < n && es[..n][j].Ask? && es[..n][j].random + 1 == s1.credit.challengeFor;
        assert es[j] == es[..n][j];
      } else if s2.credit.challengeFor != 0 {
        assert es[n].Ask? && es[n].random + 1 == s2.credit.challengeFor;
      }
    }
  }

  /**
   Event i of the run is a signature made with key, over our own key and a challenge we had drawn,
   that arrived while the peer was at address ip.
   */
  ghost predicate ProofAt(me: Me, s: Session, es: seq<Event>, i: nat, key: seq<byte>, ip: nat)
    requires Sane(s)
  {
    && i < |es|
    && var s1 := RunOf(me, s, es[..i]);
       && Accepts(me, s1, es[i])
       && s1.peerIP == ip
       && es[i].p.sig.key == key
       && es[i].p.sig.message == SignedBytes(me.key, s1.credit.challengeFor,
            VerifyIP(me, s1, KindByte(es[i].p.kind)), KindByte(es[i].p.kind))
       && exists j :: 0 <= j < i && es[j].Ask? && es[j].random + 1 == s1.credit.challengeFor
  }

  /**
   Whatever packets arrive, however often the peer changes its address or connects again, it counts
   as identified only after a signature over our key and one of our challenges, made with the key
   that is stored for it now, and for no other address than the one it had then.
   */
  lemma {:induction false} IdentifiedOnlyByProof(me: Me, s: Session, es: seq<Event>)
    requires Sane(s) && KeysAgree(s.credit)
    requires s.credit.ident != Identified && s.credit.challengeFor == 0
    ensures KeysAgree(RunOf(me, s, es).credit)
    ensures var c := RunOf(me, s, es).credit;
      c.ident == Identified ==> c.stored != [] && exists i :: ProofAt(me, s, es, i, c.stored, c.identIP)
  {
    if es != [] {
      var n := |es| - 1;
      IdentifiedOnlyByProof(me, s, es[..n]);
      ChallengeWasDrawn(me, s, es[..n]);
      var s1, c := RunOf(me, s, es[..n]), RunOf(me, s, es).credit;
      NextKeepsProof(me, s1, es[n]);
      if Accepts(me, s1, es[n]) {
        AcceptedIsProof(me, s, es);
      } else if c.ident == Identified {
        var i :| ProofAt(me, s, es[..n], i, c.stored, c.identIP);
        ProofStays(me, s, es, n, i, c.stored, c.identIP);
      }
    }
  }

  /** Only an accepted signature identifies; every other event leaves a peer's identification as it was or takes it away. */
  lemma NextKeepsProof(me: Me, s: Session, e: Event)
    requires Sane(s) && KeysAgree(s.credit)
    ensures var c, c' := s.credit, Next(me, s, e).credit;
      && KeysAgree(c')
      && (Accepts(me, s, e) ==> c'.ident == Identified && c'.identIP == s.peerIP && c'.stored == c.working != [])
      && (!Accepts(me, s, e) && c'.ident == Identified ==>
           c.ident == Identified && c'.stored == c.stored && c'.identIP == c.identIP)
  {
    hide SignedBytes;
  }

  lemma AcceptedIsProof(me: Me, s: Session, es: seq<Event>)
    requires Sane(s) && s.credit.challengeFor == 0 && es != []
    requires Accepts(me, RunOf(me, s, es[..|es| - 1]), es[|es| - 1])
    ensures var s1 := RunOf(me, s, es[..|es| - 1]);
      ProofAt(me, s, es, |es| - 1, s1.credit.working, s1.peerIP)
  {
    hide SignedBytes, Next, VerifyIP;
    var n := |es| - 1;
    ChallengeWasDrawn(me, s, es[..n]);
    var s1 := RunOf(me, s, es[..n]);
    var j :| 0 <= j < n && es[..n][j].Ask? && es[..n][j].random + 1 == s1.credit.challengeFor;
    assert es[j] == es[..n][j];
  }

  lemma ProofStays(me: Me, s: Session, es: seq<Event>, n: nat, i: nat, key: seq<byte>, ip: nat)
    requires Sane(s) && n <= |es| && ProofAt(me, s, es[..n], i, key, ip)
    ensures ProofAt(me, s, es, i, key, ip)
  {
    hide SignedBytes, Next, VerifyIP, Accepts;
    assert es[..n][..i] == es[..i];
    var s1 := RunOf(me, s, es[..i]);
    var j :| 0 <= j < i && es[..n][j].Ask? && es[..n][j].random + 1 == s1.credit.challengeFor;
    assert es[j] == es[..n][j];
  }

  // ----- what is not looked at -----

  /** The peer stays at its address and the client object is not replaced. */
  predicate Staying(es: seq<Event>) { forall e :: e in es ==> e.Deliver? || e.Ask? }

  /** Once a signature has been looked at, good or bad, no other one from that address changes anything. */
  lemma {:induction false} OneSignatureAnAddress(me: Me, s: Session, first: Event, es: seq<Event>, sig: Signature, kind: Kind)
    requires Sane(s) && first.Deliver? && first.p.SignaturePacket? && Staying(es)
    requires Next(me, s, first) != s
    ensures var s1 := RunOf(me, Next(me, s, first), es);
      s1.lastSignatureIP == s1.peerIP && Next(me, s1, Deliver(SignaturePacket(sig, kind))) == s1
  {
    if es != [] {
      OneSignatureAnAddress(me, s, first, es[..|es| - 1], sig, kind);
    }
  }

  /** A first signature under a key we know, and that we asked for, is looked at: the state says how it went. */
  lemma WelcomeSignatureIsJudged(me: Me, s: Session, sig: Signature, kind: Kind)
    requires Sane(s) && me.crypto && s.lastSignatureIP != s.peerIP && s.credit.working != [] && s.credit.challengeFor != 0
    requires kind.NoKind? || s.support in {2, 3}
    ensures var s' := Next(me, s, Deliver(SignaturePacket(sig, kind)));
      && s'.lastSignatureIP == s.peerIP
      && (SignatureGood(me, s, sig, kind) ==> s'.credit.ident == Identified && s'.credit.identIP == s.peerIP)
      && (!SignatureGood(me, s, sig, kind) ==>
           s'.credit == s.credit.(ident := if s.credit.ident == IdNeeded then IdFailed else s.credit.ident))
  {
  }

  /** Signatures nobody asked for, of an unknown key, or of a version the peer has not announced change nothing. */
  lemma UnwelcomeSignatureIsIgnored(me: Me, s: Session, sig: Signature, kind: Kind)
    requires Sane(s)
    requires s.credit.working == [] || s.credit.challengeFor == 0 || (kind.WithKind? && s.support in {0, 1}) || !me.crypto
    ensures OnPacket(me, s, SignaturePacket(sig, kind)) == Outcome(s, [])
  {
  }

  /** Without crypto nothing is sent, whatever arrives, and no key and no identification changes. */
  lemma SilentWithoutCrypto(me: Me, s: Session, p: Packet)
    requires Sane(s) && !me.crypto
    ensures OnPacket(me, s, p).sent == []
    ensures OnPacket(me, s, p).s.credit == s.credit.(challengeFrom := OnPacket(me, s, p).s.credit.challengeFrom)
    ensures forall r: nat :: r + 1 < TWO_32 ==> SendState(me, s, r) == Outcome(s, [])
  {
  }

  /** What a request is answered with: the key exactly if it was asked for, a signature exactly if the peer's key is known. */
  lemma RequestIsAnswered(me: Me, s: Session, value: byte, challenge: Uint32)
    requires Sane(s) && me.crypto && challenge != 0
    ensures var o := OnPacket(me, s, SecIdentState(value, challenge));
      && (value == 0 ==> o.sent == [] && o.s.state == 0)
      && (value == 1 && s.credit.working == [] ==> o.sent == [] && o.s.state == 1)
      && (value == 1 && s.credit.working != [] ==> |o.sent| == 1 && o.sent[0].SignaturePacket? && o.s.state == 0)
      && (value == 2 ==> o.sent != [] && o.sent[0] == PublicKey(me.key))
      && (value == 2 && s.credit.working == [] ==> |o.sent| == 1 && o.s.state == 1)
      && (value == 2 && s.credit.working != [] ==> |o.sent| == 2 && o.sent[1].SignaturePacket? && o.s.state == 0)
  {
    hide SignedBytes;
  }

  /**
   The signature in an answer is ours over the peer's key and challenge. In version 2, used when the
   peer does not know version 1, it also covers an address and says whose: our public one (20) or,
   if we have none, the peer's (10).
   */
  lemma AnswerIsSigned(me: Me, s: Session, value: byte, challenge: Uint32)
    requires Sane(s) && me.crypto && challenge != 0 && s.credit.working != [] && (value == 1 || value == 2)
    ensures var sent := OnPacket(me, s, SecIdentState(value, challenge)).sent;
      var both := s.credit.working + Le32(challenge);
      && sent != []
      && sent[|sent| - 1] ==
        if s.support % 2 == 1 then SignaturePacket(Signed(me.key, both + []), NoKind)
        else if me.clientID != 0 && !me.lowID then
          SignaturePacket(Signed(me.key, both + (Le32(me.clientID) + [20])), WithKind(20))
        else SignaturePacket(Signed(me.key, both + (Le32(s.peerIP) + [10])), WithKind(10))
  {
    hide Le32;
  }
}
