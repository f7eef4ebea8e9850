/** CClientCredits: what one peer has earned, the key it proved and since when it waits. */
module Credits {
  import opened Bytes

  const MAXPUBKEYSIZE: nat := 80
  const TWO_64: nat := TWO_32 * TWO_32

  datatype IdentState = NotAvailable | IdNeeded | Identified | IdFailed | IdBadGuy

  /**
   One credit record. A key is the byte string in use, so the empty string is a key size of 0;
   stored is the verified key of the saved structure, working the key last received.
   */
  datatype Credit = Credit(
    uploaded: nat, downloaded: nat,
    stored: seq<byte>, working: seq<byte>,
    ident: IdentState, identIP: nat,
    challengeFor: nat, challengeFrom: nat,
    secureWait: nat, unSecureWait: nat, waitTimeIP: nat)

  // ----- the operations on values -----

  /** GetCurrentIdentState: a verified client under another address is a bad guy. */
  function CurrentIdent(c: Credit, ip: nat): IdentState {
    if c.ident == Identified && ip != c.identIP then IdBadGuy else c.ident
  }

  predicate Blocked(c: Credit, ip: nat, crypto: bool) {
    crypto && CurrentIdent(c, ip) in {IdFailed, IdBadGuy, IdNeeded}
  }

  function AddedDownload(c: Credit, bytes: nat, ip: nat, crypto: bool): Credit {
    if Blocked(c, ip, crypto) then c else c.(downloaded := (c.downloaded + bytes) % TWO_64)
  }

  function AddedUpload(c: Credit, bytes: nat, ip: nat, crypto: bool): Credit {
    if Blocked(c, ip, crypto) then c else c.(uploaded := (c.uploaded + bytes) % TWO_64)
  }

  /** Verified: remembers the key at the first proof, which costs the credits earned before it. */
  function Verified(c: Credit, ip: nat): Credit {
    var c1 := if c.stored != [] then c else
      var c0 := c.(stored := c.working);
      if c.downloaded > 0 then c0.(downloaded := 1, uploaded := 1) else c0;
    c1.(identIP := ip, ident := Identified)
  }

  /** The end of VerifyIdent. */
  function Judged(c: Credit, ok: bool, ip: nat): Credit {
    if ok then Verified(c, ip)
    else if c.ident == IdNeeded then c.(ident := IdFailed)
    else c
  }

  predicate AcceptsKey(c: Credit, key: seq<byte>) { |key| <= MAXPUBKEYSIZE && c.stored == [] }

  function KeySet(c: Credit, key: seq<byte>): Credit {
    if AcceptsKey(c, key) then c.(working := key, ident := IdNeeded) else c
  }

  /** GetSecureWaitStartTime at tick now: the answer and the record it leaves. */
  function WaitStart(c: Credit, ip: nat, now: nat): (r: (nat, Credit))
    requires now >= 1
  {
    var c1 := if c.unSecureWait == 0 || c.secureWait == 0
      then c.(unSecureWait := now - 1, secureWait := now - 1, waitTimeIP := ip) else c;
    if c1.stored != [] then
      if CurrentIdent(c1, ip) == Identified then (c1.secureWait, c1)
      else if ip == c1.waitTimeIP then (c1.unSecureWait, c1)
      else (now, c1.(unSecureWait := now, waitTimeIP := ip))
    else (c1.unSecureWait, c1)
  }

  // ----- the object -----

  function Total(hi: nat, lo: nat): nat { hi * TWO_32 + lo }

  class ClientCredits {
    // m_Credits
    var nUploadedLo: nat
    var nUploadedHi: nat
    var nDownloadedLo: nat
    var nDownloadedHi: nat
    var abySecureIdent: seq<byte>
    // the rest of CClientCredits
    var abyPublicKey: seq<byte>
    var identState: IdentState
    var identIP: nat
    var challengeFor: nat
    var challengeFrom: nat
    var secureWaitTime: nat
    var unSecureWaitTime: nat
    var waitTimeIP: nat

    ghost predicate Valid()
      reads this
    {
      nUploadedLo < TWO_32 && nUploadedHi < TWO_32 && nDownloadedLo < TWO_32 && nDownloadedHi < TWO_32
    }

    ghost function View(): Credit
      reads this
    {
      Credit(Total(nUploadedHi, nUploadedLo), Total(nDownloadedHi, nDownloadedLo),
             abySecureIdent, abyPublicKey, identState, identIP, challengeFor, challengeFrom,
             secureWaitTime, unSecureWaitTime, waitTimeIP)
    }

    /** From a saved record: a known key still has to be proved. */
    constructor (uploadedLo: nat, uploadedHi: nat, downloadedLo: nat, downloadedHi: nat, secureIdent: seq<byte>)
      requires uploadedLo < TWO_32 && uploadedHi < TWO_32 && downloadedLo < TWO_32 && downloadedHi < TWO_32
      ensures Valid()
      ensures View() == Credit(Total(uploadedHi, uploadedLo), Total(downloadedHi, downloadedLo), secureIdent, secureIdent,
                               if secureIdent == [] then NotAvailable else IdNeeded, 0, 0, 0, 0, 0, 0)
    {
      nUploadedLo, nUploadedHi, nDownloadedLo, nDownloadedHi := uploadedLo, uploadedHi, downloadedLo, downloadedHi;
      abySecureIdent := secureIdent;
      // InitalizeIdent
      abyPublicKey := secureIdent;
      identState := if secureIdent == [] then NotAvailable else IdNeeded;
      identIP, challengeFor, challengeFrom := 0, 0, 0;
      secureWaitTime, unSecureWaitTime, waitTimeIP := 0, 0, 0;
    }

    method GetCurrentIdentState(forIP: nat) returns (r: IdentState)
      ensures r == CurrentIdent(View(), forIP)
    {
      if identState != Identified {
        return identState;
      }
      if forIP == identIP {
        return Identified;
      }
      r := IdBadGuy;
    }

    method AddDownloaded(bytes: nat, forIP: nat, cryptoAvailable: bool)
      requires Valid() && bytes < TWO_32
      modifies this`nDownloadedLo, this`nDownloadedHi
      ensures Valid() && View() == AddedDownload(old(View()), bytes, forIP, cryptoAvailable)
    {
      var state := GetCurrentIdentState(forIP);
      if state in {IdFailed, IdBadGuy, IdNeeded} && cryptoAvailable {
        return;
      }
      var current := (Total(nDownloadedHi, nDownloadedLo) + bytes) % TWO_64;
      nDownloadedLo := current % TWO_32;
      nDownloadedHi := current / TWO_32;
    }

    method AddUploaded(bytes: nat, forIP: nat, cryptoAvailable: bool)
      requires Valid() && bytes < TWO_32
      modifies this`nUploadedLo, this`nUploadedHi
      ensures Valid() && View() == AddedUpload(old(View()), bytes, forIP, cryptoAvailable)
    {
      var state := GetCurrentIdentState(forIP);
      if state in {IdFailed, IdBadGuy, IdNeeded} && cryptoAvailable {
        return;
      }
      var current := (Total(nUploadedHi, nUploadedLo) + bytes) % TWO_64;
      nUploadedLo := current % TWO_32;
      nUploadedHi := current / TWO_32;
    }

    method MarkVerified(forIP: nat)
      requires Valid()
      modifies this
      ensures Valid() && View() == Verified(old(View()), forIP)
    {
      identIP := forIP;
      if abySecureIdent == [] {
        abySecureIdent := abyPublicKey;
        if Total(nDownloadedHi, nDownloadedLo) > 0 {
          nDownloadedHi, nDownloadedLo := 0, 1;
          nUploadedHi, nUploadedLo := 0, 1;
        }
      }
      identState := Identified;
    }

    /** A verified key cannot change, so a new one is taken only while there is none. */
    method SetSecureIdent(ident: seq<byte>) returns (ok: bool)
      requires Valid()
      modifies this`abyPublicKey, this`identState
      ensures Valid() && View() == KeySet(old(View()), ident)
      ensures ok <==> AcceptsKey(old(View()), ident)
    {
      if MAXPUBKEYSIZE < |ident| || abySecureIdent != [] {
        return false;
      }
      abyPublicKey := ident;
      identState := IdNeeded;
      ok := true;
    }

    method GetSecureWaitStartTime(forIP: nat, now: nat) returns (t: nat)
      requires Valid() && now >= 1
      modifies this`secureWaitTime, this`unSecureWaitTime, this`waitTimeIP
      ensures Valid() && (t, View()) == WaitStart(old(View()), forIP, now)
    {
      if unSecureWaitTime == 0 || secureWaitTime == 0 {
        SetSecWaitStartTime(forIP, now);
      }
      if abySecureIdent != [] {
        var state := GetCurrentIdentState(forIP);
        if state == Identified {
          return secureWaitTime;
        }
        if forIP == waitTimeIP {
          return unSecureWaitTime;
        }
        unSecureWaitTime := now;
        waitTimeIP := forIP;
      }
      t := unSecureWaitTime;
    }

    method SetSecWaitStartTime(forIP: nat, now: nat)
      requires Valid() && now >= 1
      modifies this`secureWaitTime, this`unSecureWaitTime, this`waitTimeIP
      ensures Valid()
      ensures View() == old(View()).(unSecureWait := now - 1, secureWait := now - 1, waitTimeIP := forIP)
    {
      unSecureWaitTime := now - 1;
      secureWaitTime := unSecureWaitTime;
      waitTimeIP := forIP;
    }
  }

  // ----- runs -----

  datatype Event =
    | Download(bytes: nat, ip: nat, crypto: bool)
    | Upload(bytes: nat, ip: nat, crypto: bool)
    | ReceiveKey(key: seq<byte>)
    | Judge(ok: bool, ip: nat)
    | AskWait(ip: nat, now: nat)

  /** A proof of identity presupposes a key to prove it under; ticks start at 2 after system start. */
  predicate Possible(c: Credit, e: Event) {
    && (e.Judge? && e.ok ==> c.working != [])
    && (e.AskWait? ==> e.now >= 2)
  }

  function Step(c: Credit, e: Event): Credit {
    match e
    case Download(bytes, ip, crypto) => AddedDownload(c, bytes, ip, crypto)
    case Upload(bytes, ip, crypto) => AddedUpload(c, bytes, ip, crypto)
    case ReceiveKey(key) => KeySet(c, key)
    case Judge(ok, ip) => Judged(c, ok, ip)
    case AskWait(ip, now) => if now >= 1 then WaitStart(c, ip, now).1 else c
  }

  function Run(c: Credit, es: seq<Event>): Credit {
    if es == [] then c else Step(Run(c, es[..|es| - 1]), es[|es| - 1])
  }

  predicate PossibleRun(c: Credit, es: seq<Event>) {
    es == [] || (PossibleRun(c, es[..|es| - 1]) && Possible(Run(c, es[..|es| - 1]), es[|es| - 1]))
  }

  /** A stored key is the working key. */
  predicate KeysAgree(c: Credit) { c.stored != [] ==> c.stored == c.working }

  /** Once a key is proved and stored it is the key in use for good. */
  lemma {:induction false} StoredKeyIsFixed(c: Credit, es: seq<Event>)
    requires KeysAgree(c)
    ensures KeysAgree(Run(c, es))
    ensures c.stored != [] ==> Run(c, es).stored == c.stored
  {
    if es != [] {
      StoredKeyIsFixed(c, es[..|es| - 1]);
    }
  }

  /** With crypto available, only a client without a key, or one proved for this very address, earns anything. */
  lemma CreditNeedsProof(c: Credit, bytes: nat, ip: nat)
    requires c.uploaded < TWO_64 && c.downloaded < TWO_64 && 0 < bytes < TWO_32
    ensures Step(c, Download(bytes, ip, true)) != c <==>
      c.ident == NotAvailable || (c.ident == Identified && c.identIP == ip)
    ensures Step(c, Upload(bytes, ip, true)) != c <==>
      c.ident == NotAvailable || (c.ident == Identified && c.identIP == ip)
    ensures Step(c, Download(bytes, ip, false)) != c && Step(c, Upload(bytes, ip, false)) != c
  {
    assert (c.downloaded + bytes) % TWO_64 != c.downloaded && (c.uploaded + bytes) % TWO_64 != c.uploaded by {
      ShortStep(c.downloaded, bytes);
      ShortStep(c.uploaded, bytes);
    }
  }

  lemma ShortStep(a: nat, b: nat)
    requires a < TWO_64 && 0 < b < TWO_32
    ensures (a + b) % TWO_64 != a
  {
    if a + b >= TWO_64 {
      assert (a + b) % TWO_64 == a + b - TWO_64;
    }
  }

  /** The bytes that one event credits in state c: those not blocked at the moment they arrive. */
  function NewDown(c: Credit, e: Event): nat {
    if e.Download? && !Blocked(c, e.ip, e.crypto) then e.bytes else 0
  }

  function NewUp(c: Credit, e: Event): nat {
    if e.Upload? && !Blocked(c, e.ip, e.crypto) then e.bytes else 0
  }

  lemma StepTotals(c: Credit, e: Event)
    requires c.uploaded < TWO_64 && c.downloaded < TWO_64 && Step(c, e).stored == c.stored
    requires Possible(c, e)
    ensures Step(c, e).downloaded == (c.downloaded + NewDown(c, e)) % TWO_64
    ensures Step(c, e).uploaded == (c.uploaded + NewUp(c, e)) % TWO_64
  {
  }

  function CreditedDown(c: Credit, es: seq<Event>): nat {
    if es == [] then 0 else
    var n := |es| - 1;
    CreditedDown(c, es[..n]) + NewDown(Run(c, es[..n]), es[n])
  }

  function CreditedUp(c: Credit, es: seq<Event>): nat {
    if es == [] then 0 else
    var n := |es| - 1;
    CreditedUp(c, es[..n]) + NewUp(Run(c, es[..n]), es[n])
  }

  lemma ModAdd(a: nat, b: nat)
    ensures (a % TWO_64 + b) % TWO_64 == (a + b) % TWO_64
  {
  }

  lemma {:induction false} StoredBefore(c: Credit, es: seq<Event>)
    requires KeysAgree(c) && es != [] && Run(c, es).stored == c.stored
    ensures Run(c, es[..|es| - 1]).stored == c.stored
  {
    StoredKeyIsFixed(c, es[..|es| - 1]);
  }

  /**
   The books balance: over a run during which no key gets stored, the totals are the starting
   totals and every credited byte, counted in 64 bits, and nothing else.
   */
  lemma {:induction false} TotalsAreCreditedBytes(c: Credit, es: seq<Event>)
    requires c.uploaded < TWO_64 && c.downloaded < TWO_64
    requires PossibleRun(c, es) && KeysAgree(c) && Run(c, es).stored == c.stored
    ensures Run(c, es).downloaded == (c.downloaded + CreditedDown(c, es)) % TWO_64
    ensures Run(c, es).uploaded == (c.uploaded + CreditedUp(c, es)) % TWO_64
  {
    hide NewDown, NewUp, Step, Possible;
    if es != [] {
      var n := |es| - 1;
      var c1 := Run(c, es[..n]);
      StoredBefore(c, es);
      TotalsBelow64(c, es[..n]);
      TotalsAreCreditedBytes(c, es[..n]);
      StepTotals(c1, es[n]);
      ModAdd(c.downloaded + CreditedDown(c, es[..n]), NewDown(c1, es[n]));
      ModAdd(c.uploaded + CreditedUp(c, es[..n]), NewUp(c1, es[n]));
    }
  }

  lemma {:induction false} RunSplit(c: Credit, es: seq<Event>, i: nat)
    requires i <= |es|
    ensures Run(c, es) == Run(Run(c, es[..i]), es[i..])
    ensures PossibleRun(c, es) ==> PossibleRun(c, es[..i]) && PossibleRun(Run(c, es[..i]), es[i..])
  {
    hide Step, Possible;
    if i == |es| {
      assert es[..i] == es && es[i..] == [];
    } else {
      var n := |es| - 1;
      var front, t := es[..n], es[i..];
      assert front[..i] == es[..i] && t[..|t| - 1] == front[i..] && t[|t| - 1] == es[n];
      RunSplit(c, front, i);
    }
  }

  /** The event that stored the key, in a run during which one got stored. */
  lemma {:induction false} FirstProof(c: Credit, es: seq<Event>) returns (i: nat)
    requires PossibleRun(c, es) && KeysAgree(c) && Run(c, es).stored != c.stored
    ensures i < |es| && es[i].Judge? && es[i].ok && c.stored == []
    ensures Run(c, es[..i]).stored == [] && Run(c, es[..i + 1]).stored == Run(c, es).stored != []
  {
    var n := |es| - 1;
    StoredKeyIsFixed(c, es);
    if Run(c, es[..n]).stored == c.stored {
      i := n;
      assert es[..n + 1] == es;
    } else {
      i := FirstProof(c, es[..n]);
      StoredKeyIsFixed(c, es[..n]);
      StoredKeyIsFixed(Run(c, es[..n]), [es[n]]);
      assert [es[n]][..0] == [];
      assert es[..n][..i] == es[..i] && es[..n][..i + 1] == es[..i + 1];
    }
  }

  lemma TotalsBelow64(c: Credit, es: seq<Event>)
    requires c.uploaded < TWO_64 && c.downloaded < TWO_64
    ensures Run(c, es).uploaded < TWO_64 && Run(c, es).downloaded < TWO_64
  {
  }

  /**
   The books over a run that includes the first proof, which happens once: up to it they balance as
   above; it sets both totals to 1 if anything had been downloaded and else leaves them; and from
   there on the totals are that and every byte credited since.
   */
  lemma TotalsSinceFirstProof(c: Credit, es: seq<Event>) returns (i: nat)
    requires c.uploaded < TWO_64 && c.downloaded < TWO_64
    requires PossibleRun(c, es) && KeysAgree(c) && Run(c, es).stored != c.stored
    ensures i < |es| && es[i].Judge? && es[i].ok
    ensures var c1, c2, rest := Run(c, es[..i]), Run(c, es[..i + 1]), es[i + 1..];
      var reset := c1.downloaded > 0;
      && c1.downloaded == (c.downloaded + CreditedDown(c, es[..i])) % TWO_64
      && c1.uploaded == (c.uploaded + CreditedUp(c, es[..i])) % TWO_64
      && Run(c, es).downloaded == ((if reset then 1 else 0) + CreditedDown(c2, rest)) % TWO_64
      && Run(c, es).uploaded == ((if reset then 1 else c1.uploaded) + CreditedUp(c2, rest)) % TWO_64
  {
    hide Run, Step, Possible, PossibleRun, CreditedDown, CreditedUp;
    i := FirstProof(c, es);
    var c1, c2, rest := Run(c, es[..i]), Run(c, es[..i + 1]), es[i + 1..];
    RunSplit(c, es, i);
    RunSplit(c, es, i + 1);
    TotalsBelow64(c, es[..i]);
    TotalsBelow64(c, es[..i + 1]);
    TotalsAreCreditedBytes(c, es[..i]);
    StoredKeyIsFixed(c, es[..i + 1]);
    TotalsAreCreditedBytes(c2, rest);
    ProofStep(c, es, i);
  }

  lemma ProofStep(c: Credit, es: seq<Event>, i: nat)
    requires i < |es| && es[i].Judge? && es[i].ok && Run(c, es[..i]).stored == []
    ensures var c1, c2 := Run(c, es[..i]), Run(c, es[..i + 1]);
      if c1.downloaded > 0 then c2.downloaded == 1 && c2.uploaded == 1
      else c2.downloaded == 0 && c2.uploaded == c1.uploaded
  {
    assert es[..i + 1][..i] == es[..i];
  }

  /** A key is stored only by the first proof, and only that step can throw credits away. */
  lemma OnlyFirstProofResets(c: Credit, e: Event)
    requires Possible(c, e) && c.uploaded < TWO_64 && c.downloaded < TWO_64
    ensures Step(c, e).stored != c.stored <==> e.Judge? && e.ok && c.stored == []
    ensures Step(c, e).downloaded < c.downloaded || Step(c, e).uploaded < c.uploaded ==>
      || (e.Judge? && e.ok && c.stored == [] && c.downloaded > 0)
      || (e.Download? && c.downloaded + e.bytes >= TWO_64)
      || (e.Upload? && c.uploaded + e.bytes >= TWO_64)
    ensures Step(c, e).stored != c.stored && c.downloaded > 0 ==>
      Step(c, e).downloaded == 1 && Step(c, e).uploaded == 1
  {
  }

  /** However often and from whatever address the wait time is asked for, a started secure one stays. */
  lemma {:induction false} SecureWaitIsFixed(c: Credit, es: seq<Event>)
    requires PossibleRun(c, es) && c.secureWait != 0 && c.unSecureWait != 0
    ensures Run(c, es).secureWait == c.secureWait && Run(c, es).unSecureWait != 0
  {
    if es != [] {
      SecureWaitIsFixed(c, es[..|es| - 1]);
    }
  }

  /**
   What a waiting client is told, case by case. A wait that was not started starts now; a client that
   has proved itself at this address has its secure time; one that owns a proved key but has not
   proved it here starts over whenever the address is a new one; all others have the unsecure time.
   */
  lemma WaitAnswers(c: Credit, ip: nat, now: nat)
    requires now >= 1
    ensures var (t, c') := WaitStart(c, ip, now);
      var started := c.secureWait != 0 && c.unSecureWait != 0;
      var proved := c.ident == Identified && c.identIP == ip;
      && (!started ==> t == c'.secureWait == c'.unSecureWait == now - 1 && c'.waitTimeIP == ip)
      && (started && c.stored != [] && proved ==> t == c.secureWait && c' == c)
      && (started && (c.stored == [] || (!proved && ip == c.waitTimeIP)) ==> t == c.unSecureWait && c' == c)
      && (started && c.stored != [] && !proved && ip != c.waitTimeIP ==>
           t == now && c' == c.(unSecureWait := now, waitTimeIP := ip))
  {
  }

  /**
   Whatever happens in between, and whoever asks from other addresses, a client with a stored key
   that is proved at its address is told the secure time it had at the start.
   */
  lemma ProvedClientKeepsItsWait(c: Credit, es: seq<Event>, ip: nat, now: nat)
    requires PossibleRun(c, es) && c.secureWait != 0 && c.unSecureWait != 0 && KeysAgree(c) && c.stored != [] && now >= 1
    requires Run(c, es).ident == Identified && Run(c, es).identIP == ip
    ensures WaitStart(Run(c, es), ip, now).0 == c.secureWait
  {
    SecureWaitIsFixed(c, es);
    StoredKeyIsFixed(c, es);
    WaitAnswers(Run(c, es), ip, now);
  }

  /**
   And one that is not proved there waits from its first request at that address, for as long as it
   alone asks: the time it is told is the tick of that request, whatever else happens.
   */
  lemma {:induction false} ImpostorStartsOver(c: Credit, ip: nat, now: nat, es: seq<Event>, later: nat)
    requires c.secureWait != 0 && c.unSecureWait != 0 && c.stored != [] && KeysAgree(c) && now >= 2 && later >= 1
    requires ip != c.waitTimeIP && !(c.ident == Identified && c.identIP == ip)
    requires forall e :: e in es ==> (e.Judge? ==> !e.ok) && (e.AskWait? ==> e.ip == ip && e.now >= 2)
    ensures var c1 := Run(WaitStart(c, ip, now).1, es);
      WaitStart(c1, ip, later) == (now, c1)
      && c1.secureWait != 0 && c1.unSecureWait == now && c1.waitTimeIP == ip && c1.stored == c.stored
      && !(c1.ident == Identified && c1.identIP == ip)
  {
    if es != [] { ImpostorStartsOver(c, ip, now, es[..|es| - 1], later); }
  }

  /** A received key is taken exactly while none is stored and if it fits, and then it has to be proved. */
  lemma KeyIsTaken(c: Credit, key: seq<byte>)
    ensures var c' := Step(c, ReceiveKey(key));
      if c.stored == [] && |key| <= 80 then c' == c.(working := key, ident := IdNeeded) else c' == c
  {
  }

  /** From a key that is taken to its proof nothing is earned as long as crypto is available, whatever else happens. */
  lemma {:induction false} UnprovedKeyEarnsNothing(c: Credit, key: seq<byte>, es: seq<Event>)
    requires c.stored == [] && |key| <= MAXPUBKEYSIZE
    requires forall e :: e in es ==>
      (e.Judge? ==> !e.ok) && (e.Download? ==> e.crypto) && (e.Upload? ==> e.crypto)
    ensures var c' := Run(Step(c, ReceiveKey(key)), es);
      c'.downloaded == c.downloaded && c'.uploaded == c.uploaded && c'.stored == [] && c'.ident in {IdNeeded, IdFailed}
  {
    if es != [] { UnprovedKeyEarnsNothing(c, key, es[..|es| - 1]); }
  }

  /** A failed proof is remembered until a good one or a new key. */
  lemma {:induction false} FailureIsRemembered(c: Credit, ip: nat, es: seq<Event>)
    requires c.ident == IdNeeded || c.ident == IdFailed
    requires forall e :: e in es ==> !e.ReceiveKey? && (e.Judge? ==> !e.ok)
    ensures Run(Step(c, Judge(false, ip)), es).ident == IdFailed
  {
    if es != [] { FailureIsRemembered(c, ip, es[..|es| - 1]); }
  }

  /** A proof counts for the address it came from, and a failure does not take it away. */
  lemma ProofCounts(c: Credit, ip: nat, other: nat)
    ensures var c' := Step(c, Judge(true, ip));
      && CurrentIdent(c', ip) == Identified && (other != ip ==> CurrentIdent(c', other) == IdBadGuy)
      && Step(c', Judge(false, other)) == c'
  {
  }
}
