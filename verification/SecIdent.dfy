/**
 Secure identification: CUpDownClient's key and signature packets with CClientCreditsList's
 CreateSignature and VerifyIdent. A signature is symbolic: it names the key it was made with and
 the bytes it covers, and only that pair verifies.
 */
module SecIdent {
  import opened Bytes
  import opened Credits

  const CRYPT_CIP_REMOTECLIENT: byte := 10
  const CRYPT_CIP_LOCALCLIENT: byte := 20

  const IS_UNAVAILABLE: nat := 0
  const IS_SIGNATURENEEDED: nat := 1
  const IS_KEYANDSIGNEEDED: nat := 2

  /** What signing and checking share: the key pair is named by its public key. */
  datatype Signature = Signed(key: seq<byte>, message: seq<byte>) | Forged

  predicate Verifies(key: seq<byte>, message: seq<byte>, sig: Signature) {
    sig == Signed(key, message)
  }

  type Uint32 = n: int | 0 <= n < TWO_32

  /** Our own side: key, server connection and addresses. */
  datatype Me = Me(key: seq<byte>, crypto: bool, clientID: Uint32, lowID: bool, localIP: Uint32)

  /** What we keep about one peer while connected; support is the peer's m_bySupportSecIdent. */
  datatype Session = Session(peerIP: Uint32, support: nat, state: nat, lastSignatureIP: nat, credit: Credit)

  /** The three packets; their length bytes are dropped, kind is the trailing byte of version 2. */
  datatype Packet =
    | SecIdentState(value: byte, challenge: Uint32)
    | PublicKey(key: seq<byte>)
    | SignaturePacket(sig: Signature, kind: Kind)

  datatype Kind = NoKind | WithKind(kind: byte)

  // ----- the bytes that are signed -----

  /** The peer's key, the challenge and, for version 2, an address and how it was chosen. */
  function SignedBytes(key: seq<byte>, challenge: Uint32, chaIP: Uint32, kind: byte): seq<byte> {
    key + Le32(challenge) + (if kind == 0 then [] else Le32(chaIP) + [kind])
  }

  predicate IpUnknown(me: Me) { me.clientID == 0 || me.lowID }

  predicate UsesV2(s: Session) { s.support % 2 == 0 }

  /** byChaIPKind as SendSignaturePacket picks it. */
  function SendKind(me: Me, s: Session): byte {
    if !UsesV2(s) then 0 else if IpUnknown(me) then CRYPT_CIP_REMOTECLIENT else CRYPT_CIP_LOCALCLIENT
  }

  function SendIP(me: Me, s: Session): Uint32 {
    if !UsesV2(s) then 0 else if IpUnknown(me) then s.peerIP else me.clientID
  }

  /** The address VerifyIdent puts into the bytes for a kind; CRYPT_CIP_NONECLIENT (30) and unknown kinds mean none. */
  function VerifyIP(me: Me, s: Session, kind: byte): Uint32 {
    if kind == CRYPT_CIP_LOCALCLIENT then s.peerIP
    else if kind == CRYPT_CIP_REMOTECLIENT then (if IpUnknown(me) then me.localIP else me.clientID)
    else 0
  }

  // ----- the operations on values -----

  datatype Outcome = Outcome(s: Session, sent: seq<Packet>)

  function SendPublicKey(me: Me, s: Session): Outcome {
    if s.state != IS_KEYANDSIGNEEDED || !me.crypto then Outcome(s, [])
    else Outcome(s.(state := IS_SIGNATURENEEDED), [PublicKey(me.key)])
  }

  function KindField(kind: byte): Kind { if kind == 0 then NoKind else WithKind(kind) }

  function MySignature(me: Me, s: Session): Signature
    requires s.credit.challengeFrom < TWO_32
  {
    Signed(me.key, SignedBytes(s.credit.working, s.credit.challengeFrom, SendIP(me, s), SendKind(me, s)))
  }

  function SendSignature(me: Me, s: Session): Outcome
    requires s.credit.challengeFrom < TWO_32
  {
    if s.state == 0 || !me.crypto || s.credit.working == [] || s.credit.challengeFrom == 0 then Outcome(s, [])
    else Outcome(s.(state := IS_UNAVAILABLE), [SignaturePacket(MySignature(me, s), KindField(SendKind(me, s)))])
  }

  /** SendSecIdentStatePacket; random is rand(), so the challenge is never 0. */
  function SendState(me: Me, s: Session, random: nat): Outcome
    requires random + 1 < TWO_32
  {
    if !me.crypto then Outcome(s, [])
    else if s.credit.working == [] then
      Outcome(s.(credit := s.credit.(challengeFor := random + 1)), [SecIdentState(2, random + 1)])
    else if s.lastSignatureIP != s.peerIP then
      Outcome(s.(credit := s.credit.(challengeFor := random + 1)), [SecIdentState(1, random + 1)])
    else Outcome(s, [])
  }

  function NewState(old_: nat, value: byte): nat {
    if value <= 2 then value else old_
  }

  /** OP_SECIDENTSTATE with the dispatcher's reply to it. */
  function OnState(me: Me, s: Session, value: byte, challenge: Uint32): Outcome {
    var s1 := s.(state := NewState(s.state, value), credit := s.credit.(challengeFrom := challenge));
    if s1.state == IS_SIGNATURENEEDED then SendSignature(me, s1)
    else if s1.state == IS_KEYANDSIGNEEDED then
      var o := SendPublicKey(me, s1);
      var o2 := SendSignature(me, o.s);
      Outcome(o2.s, o.sent + o2.sent)
    else Outcome(s1, [])
  }

  /** Packets of 10 to 250 bytes: a length byte and the key. */
  predicate KeyFitsPacket(key: seq<byte>) { 9 <= |key| <= 249 }

  function OnPublicKey(me: Me, s: Session, key: seq<byte>): Outcome
    requires s.credit.challengeFrom < TWO_32
  {
    if !KeyFitsPacket(key) || !me.crypto then Outcome(s, []) else
    var s1 := s.(credit := KeySet(s.credit, key));
    if AcceptsKey(s.credit, key) && s.state == IS_SIGNATURENEEDED then SendSignature(me, s1)
    else Outcome(s1, [])
  }

  function KindByte(kind: Kind): byte { match kind case NoKind => 0 case WithKind(k) => k }

  /** The checks of ProcessSignaturePacket that come before the cryptography. */
  predicate SignatureWelcome(me: Me, s: Session, kind: Kind) {
    && (kind.WithKind? ==> s.support / 2 % 2 == 1)
    && me.crypto
    && s.lastSignatureIP != s.peerIP
    && s.credit.working != []
    && s.credit.challengeFor != 0
  }

  predicate SignatureGood(me: Me, s: Session, sig: Signature, kind: Kind)
    requires s.credit.challengeFor < TWO_32
  {
    var k := KindByte(kind);
    Verifies(s.credit.working, SignedBytes(me.key, s.credit.challengeFor, VerifyIP(me, s, k), k), sig)
  }

  function OnSignature(me: Me, s: Session, sig: Signature, kind: Kind): Outcome
    requires s.credit.challengeFor < TWO_32
  {
    if !SignatureWelcome(me, s, kind) then Outcome(s, [])
    else Outcome(s.(credit := Judged(s.credit, SignatureGood(me, s, sig, kind), s.peerIP), lastSignatureIP := s.peerIP), [])
  }

  predicate Sane(s: Session) { s.credit.challengeFrom < TWO_32 && s.credit.challengeFor < TWO_32 && s.state <= 2 }

  function OnPacket(me: Me, s: Session, p: Packet): (o: Outcome)
    requires Sane(s)
    ensures Sane(o.s)
  {
    match p
    case SecIdentState(value, challenge) => OnState(me, s, value, challenge)
    case PublicKey(key) => OnPublicKey(me, s, key)
    case SignaturePacket(sig, kind) => OnSignature(me, s, sig, kind)
  }

  // ----- the object -----

  class UpDownClient {
    const me: Me
    var credits: ClientCredits
    var ip: Uint32
    var supportSecIdent: nat
    var secureIdentState: nat
    var lastSignatureIP: nat
    /** What SendPacket has sent. */
    var sent: seq<Packet>

    ghost predicate Valid()
      reads this, credits
    {
      credits.Valid() && Sane(View())
    }

    ghost function View(): Session
      reads this, credits
    {
      Session(ip, supportSecIdent, secureIdentState, lastSignatureIP, credits.View())
    }

    constructor (me: Me, credits: ClientCredits, ip: Uint32, support: nat)
      requires credits.Valid() && credits.challengeFor < TWO_32 && credits.challengeFrom < TWO_32
      ensures Valid() && sent == [] && this.me == me && this.credits == credits
      ensures View() == Session(ip, support, IS_UNAVAILABLE, 0, credits.View())
    {
      this.me, this.credits, this.ip, supportSecIdent := me, credits, ip, support;
      secureIdentState, lastSignatureIP, sent := IS_UNAVAILABLE, 0, [];
    }

    method SendPublicKeyPacket()
      requires Valid()
      modifies this`secureIdentState, this`sent
      ensures Valid()
      ensures Outcome(View(), sent) == Outcome(SendPublicKey(me, old(View())).s, old(sent) + SendPublicKey(me, old(View())).sent)
    {
      if secureIdentState != IS_KEYANDSIGNEEDED {
        return;
      }
      if !me.crypto {
        return;
      }
      sent := sent + [PublicKey(me.key)];
      secureIdentState := IS_SIGNATURENEEDED;
    }

    method SendSignaturePacket()
      requires Valid()
      modifies this`secureIdentState, this`sent
      ensures Valid()
      ensures Outcome(View(), sent) == Outcome(SendSignature(me, old(View())).s, old(sent) + SendSignature(me, old(View())).sent)
    {
      if secureIdentState == 0 || !me.crypto {
        return;
      }
      if credits.abyPublicKey == [] {
        return;
      }
      if credits.challengeFrom == 0 {
        return;
      }
      var useV2 := supportSecIdent % 2 == 0;
      var kind: byte, challengeIP: Uint32 := 0, 0;
      if useV2 {
        if me.clientID == 0 || me.lowID {
          challengeIP, kind := ip, CRYPT_CIP_REMOTECLIENT;
        } else {
          challengeIP, kind := me.clientID, CRYPT_CIP_LOCALCLIENT;
        }
      }
      var message := CreateSignature(challengeIP, kind);
      sent := sent + [SignaturePacket(Signed(me.key, message), if useV2 then WithKind(kind) else NoKind)];
      secureIdentState := IS_UNAVAILABLE;
    }

    /** CreateSignature's buffer. */
    method CreateSignature(challengeIP: Uint32, kind: byte) returns (buffer: seq<byte>)
      requires Valid()
      ensures buffer == SignedBytes(credits.abyPublicKey, credits.challengeFrom, challengeIP, kind)
    {
      buffer := credits.abyPublicKey + Le32(credits.challengeFrom);
      if kind != 0 {
        buffer := buffer + Le32(challengeIP) + [kind];
      }
      assert buffer == SignedBytes(credits.abyPublicKey, credits.challengeFrom, challengeIP, kind);
    }

    /** VerifyIdent's buffer and check. */
    method VerifyIdent(sig: Signature, kind: byte) returns (ok: bool)
      requires Valid()
      modifies credits
      ensures Valid() && credits.challengeFor == old(credits.challengeFor)
      ensures ok <==> me.crypto && Verifies(old(credits.abyPublicKey), SignedBytes(me.key, old(credits.challengeFor), VerifyIP(me, old(View()), kind), kind), sig)
      ensures credits.View() ==
        if me.crypto then Judged(old(credits.View()), ok, ip) else old(credits.View()).(ident := NotAvailable)
    {
      if !me.crypto {
        credits.identState := NotAvailable;
        return false;
      }
      var buffer := me.key + Le32(credits.challengeFor);
      if kind != 0 {
        var challengeIP: Uint32 := 0;
        if kind == CRYPT_CIP_LOCALCLIENT {
          challengeIP := ip;
        } else if kind == CRYPT_CIP_REMOTECLIENT {
          challengeIP := if me.clientID == 0 || me.lowID then me.localIP else me.clientID;
        }
        buffer := buffer + Le32(challengeIP) + [kind];
        assert buffer == me.key + Le32(credits.challengeFor) + (Le32(challengeIP) + [kind]);
      } else {
        assert buffer == buffer + [];
      }
      ok := Verifies(credits.abyPublicKey, buffer, sig);
      if !ok {
        if credits.identState == IdNeeded {
          credits.identState := IdFailed;
        }
      } else {
        credits.MarkVerified(ip);
      }
    }

    method ProcessPublicKeyPacket(key: seq<byte>)
      requires Valid()
      modifies this`secureIdentState, this`sent, credits
      ensures Valid()
      ensures Outcome(View(), sent) == Outcome(OnPublicKey(me, old(View()), key).s, old(sent) + OnPublicKey(me, old(View()), key).sent)
    {
      if !(9 <= |key| <= 249) || !me.crypto {
        return;
      }
      var ok := credits.SetSecureIdent(key);
      if ok {
        if secureIdentState == IS_SIGNATURENEEDED {
          SendSignaturePacket();
        }
      }
    }

    method ProcessSignaturePacket(sig: Signature, kind: Kind)
      requires Valid()
      modifies this`lastSignatureIP, credits
      ensures Valid()
      ensures View() == OnSignature(me, old(View()), sig, kind).s
    {
      if kind.WithKind? && supportSecIdent / 2 % 2 == 0 {
        return;
      }
      if !me.crypto || lastSignatureIP == ip || credits.abyPublicKey == [] || credits.challengeFor == 0 {
        return;
      }
      var ok := VerifyIdent(sig, KindByte(kind));
      lastSignatureIP := ip;
    }

    method SendSecIdentStatePacket(random: nat)
      requires Valid() && random + 1 < TWO_32
      modifies this`sent, credits`challengeFor
      ensures Valid()
      ensures Outcome(View(), sent) == Outcome(SendState(me, old(View()), random).s, old(sent) + SendState(me, old(View()), random).sent)
    {
      if !me.crypto {
        return;
      }
      var value: byte;
      if credits.abyPublicKey == [] {
        value := 2;
      } else if lastSignatureIP != ip {
        value := 1;
      } else {
        return;
      }
      credits.challengeFor := random + 1;
      sent := sent + [SecIdentState(value, random + 1)];
    }

    /** ProcessSecIdentStatePacket and the packet dispatcher's answer. */
    method ProcessSecIdentState(value: byte, challenge: Uint32)
      requires Valid()
      modifies this`secureIdentState, this`sent, credits`challengeFrom
      ensures Valid()
      ensures Outcome(View(), sent) == Outcome(OnState(me, old(View()), value, challenge).s, old(sent) + OnState(me, old(View()), value, challenge).sent)
    {
      match value {
        case 0 => secureIdentState := IS_UNAVAILABLE;
        case 1 => secureIdentState := IS_SIGNATURENEEDED;
        case 2 => secureIdentState := IS_KEYANDSIGNEEDED;
        case _ =>
      }
      credits.challengeFrom := challenge;
      if secureIdentState == IS_SIGNATURENEEDED {
        SendSignaturePacket();
      } else if secureIdentState == IS_KEYANDSIGNEEDED {
        SendPublicKeyPacket();
        SendSignaturePacket();
      }
    }
  }
}
