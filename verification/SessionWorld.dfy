/** One step of the local transport over a hostile network, and what every step keeps.

    Any number of clients and hosts that hold the same durable identity take steps in any order.
    The network is the environment: each `open`, `ready` and frame that reaches an end is an
    arbitrary value, so messages can be dropped, replayed, reordered, redirected or forged.

    Cryptography is ideal: a signature verifies only if the identity signed that message, and a
    ciphertext decrypts only to a plaintext that some end sealed under that key, nonce and
    associated data.  Random nonces are fresh.  Keys need not be distinct: the argument never uses
    that two sessions, or the two directions of one session, have different keys.
 */
module SessionWorld {
  import opened Bytes
  import opened Decimals
  import opened WireFormats
  import opened LocalTransport

  /** What the proofs use about the primitives. */
  ghost predicate Ideal(c: Crypto) {
    && |c.signingKey| == 32
    && (forall m :: |c.sign(m)| == 64)
    && (forall s :: |c.publicKey(s)| == 32)
    && (forall a, b :: c.agree(a, c.publicKey(b)) == c.agree(b, c.publicKey(a)))
    && (forall x, y :: c.hash(x) == c.hash(y) ==> x == y)
    && (forall k, n, a, p :: |c.encrypt(k, n, a, p)| == |p| + 16)
    && (forall x :: c.decode64(c.encode64(x)) == Some(x))
  }

  datatype Sealing = Sealing(key: bytes, nonce: bytes, aad: bytes, plaintext: bytes)

  /** One end of a session: what it agreed to, its counters, what it sealed and what it opened. */
  datatype Endpoint = Endpoint(handshake: Handshake, session: Session, sealed: seq<bytes>, received: seq<bytes>)

  datatype World = World(
    signed: set<bytes>,
    starts: set<(bytes, bytes)>,
    pending: set<Pending>,
    clientNonces: set<bytes>,
    hostNonces: set<bytes>,
    ends: map<(Role, bytes), Endpoint>,
    sealings: set<Sealing>)

  datatype Event =
    | ClientStart(nonce: bytes, secret: bytes)
    | HostAccept(open: SessionOpen, nonce: bytes, secret: bytes)
    | ExtensionAccept(origin: bytes, extensionNonce: bytes, extensionKey: bytes, nonce: bytes, secret: bytes)
    | ExtensionSeal(key: bytes, frameNonce: bytes, sessionId: bytes, direction: Direction, sequence: u64,
                    message: bytes)
    | ClientFinish(pending: Pending, ready: SessionReady)
    | SealAt(role: Role, id: bytes, plaintext: bytes)
    | OpenAt(role: Role, id: bytes, frame: Frame, decodes: bool)

  const EMPTY := World({}, {}, {}, {}, {}, map[], {})

  ghost function Verifier(c: Crypto, signed: set<bytes>): Verify {
    (message, signature) => message in signed && signature == c.sign(message)
  }

  ghost predicate Decrypts(c: Crypto, log: set<Sealing>, key: bytes, nonce: bytes, aad: bytes, ciphertext: bytes,
                           r: Sealing) {
    r in log && r.key == key && r.nonce == nonce && r.aad == aad
      && c.encrypt(key, nonce, aad, r.plaintext) == ciphertext
  }

  ghost function Decryption(c: Crypto, log: set<Sealing>, key: bytes, nonce: bytes, aad: bytes, ciphertext: bytes)
    : (p: Option<bytes>)
    ensures p.Some? ==> Sealing(key, nonce, aad, p.value) in log && c.encrypt(key, nonce, aad, p.value) == ciphertext
  {
    if exists r :: Decrypts(c, log, key, nonce, aad, ciphertext, r)
    then var r :| Decrypts(c, log, key, nonce, aad, ciphertext, r); Some(r.plaintext)
    else None
  }

  /** Random bytes are new and of the right size; an end takes a step only if it exists. */
  ghost predicate Allowed(w: World, e: Event) {
    match e
    case ClientStart(nonce, _) => |nonce| == 32 && nonce !in w.clientNonces
    case HostAccept(_, nonce, _) => |nonce| == 32 && nonce !in w.hostNonces
    case ExtensionAccept(_, _, _, _, _) => true
    case ExtensionSeal(_, _, _, _, _, _) => true
    case ClientFinish(p, _) => p in w.pending
    case SealAt(role, id, _) => (role, id) in w.ends
    case OpenAt(role, id, _, _) => (role, id) in w.ends
  }

  // ----- Steps -----

  ghost function DoStart(c: Crypto, w: World, nonce: bytes, secret: bytes): World {
    var key := c.publicKey(secret);
    w.(signed := w.signed + {ClientOpenTranscript(nonce, key, c.signingKey)},
       starts := w.starts + {(nonce, key)},
       pending := w.pending + {Pending(nonce, secret)},
       clientNonces := w.clientNonces + {nonce})
  }

  /** The host signs before it checks the shared secret, so a failing accept still leaves a signature. */
  ghost function DoAccept(c: Crypto, w: World, open: SessionOpen, nonce: bytes, secret: bytes): World
  {
    match CheckOpen(c, Verifier(c, w.signed), open)
    case Failure(_) => w.(hostNonces := w.hostNonces + {nonce})
    case Success(client) =>
      var h := HostHandshake(c, client, nonce, secret);
      var signing := w.(signed := w.signed + {SessionTranscript(h)}, hostNonces := w.hostNonces + {nonce});
      match AcceptWith(c, open, h, secret)
      case Failure(_) => signing
      case Success((_, session)) =>
        signing.(ends := w.ends[(Host, session.id) := Endpoint(h, session, [], [])])
  }

  ghost function DoFinish(c: Crypto, w: World, p: Pending, ready: SessionReady): World
  {
    var rest := w.(pending := w.pending - {p});
    match Finish(c, Verifier(c, w.signed), p, ready)
    case Failure(_) => rest
    case Success((h, session)) => rest.(ends := w.ends[(Client, session.id) := Endpoint(h, session, [], [])])
  }

  ghost function DoSeal(c: Crypto, w: World, role: Role, id: bytes, plaintext: bytes): World
    requires (role, id) in w.ends
  {
    var end := w.ends[(role, id)];
    var s := end.session;
    var (next, r) := Seal(c, s, plaintext);
    if r.Failure? then w
    else
      w.(ends := w.ends[(role, id) := end.(session := next, sealed := end.sealed + [plaintext])],
         sealings := w.sealings + {Sealing(s.sendKey, FrameNonce(s.sendNonceBase, s.sendSequence),
                                           FrameAad(Local, s.id, s.sendDirection, s.sendSequence), plaintext)})
  }

  ghost function DoOpen(c: Crypto, w: World, role: Role, id: bytes, frame: Frame, decodes: bool): World
    requires (role, id) in w.ends
  {
    var end := w.ends[(role, id)];
    var decrypt: Decrypt := (k, n, a, x) => Decryption(c, w.sealings, k, n, a, x);
    match Open(c, end.session, frame, decrypt, p => decodes)
    case (_, Failure(_)) => w
    case (next, Success(plaintext)) =>
      w.(ends := w.ends[(role, id) := end.(session := next, received := end.received + [plaintext])])
  }

  ghost function Step(c: Crypto, w: World, e: Event): World
    requires Allowed(w, e)
  {
    match e
    case ClientStart(nonce, secret) => DoStart(c, w, nonce, secret)
    case HostAccept(open, nonce, secret) => DoAccept(c, w, open, nonce, secret)
    case ExtensionAccept(origin, extensionNonce, extensionKey, nonce, secret) =>
      w.(signed := w.signed + {ExtensionTranscript(origin, extensionNonce, extensionKey, nonce,
                                                   c.publicKey(secret), c.signingKey)})
    case ExtensionSeal(key, nonce, id, direction, n, message) =>
      w.(sealings := w.sealings + {Sealing(key, nonce, FrameAad(Extension, id, direction, n), message)})
    case ClientFinish(p, ready) => DoFinish(c, w, p, ready)
    case SealAt(role, id, plaintext) => DoSeal(c, w, role, id, plaintext)
    case OpenAt(role, id, frame, decodes) => DoOpen(c, w, role, id, frame, decodes)
  }

  // ----- The invariant -----

  ghost function IdOf(c: Crypto, h: Handshake): bytes {
    SessionId(c, SessionTranscript(h), c.sign(SessionTranscript(h)))
  }

  /** The session that a host with this ephemeral secret holds after handshake `h`. */
  ghost predicate HostHolds(c: Crypto, w: World, h: Handshake, secret: bytes)
  {
    var shared := c.agree(secret, h.clientKey);
    && c.publicKey(secret) == h.hostKey
    && (!ZeroShared(shared) ==>
          && (Host, IdOf(c, h)) in w.ends
          && w.ends[(Host, IdOf(c, h))].handshake == h
          && SameKeys(w.ends[(Host, IdOf(c, h))].session,
                      FromMaterial(IdOf(c, h), c.derive(shared, SessionTranscript(h)), Host)))
  }

  /** Equal but for the counters. */
  ghost predicate SameKeys(a: Session, b: Session) {
    a.(sendSequence := 0, receiveSequence := 0) == b.(sendSequence := 0, receiveSequence := 0)
  }

  /** Every session transcript the identity signed belongs to an accept. */
  ghost predicate SignedSessions(c: Crypto, w: World)
  {
    forall h: Handshake :: h.Sized() && SessionTranscript(h) in w.signed ==> exists secret :: HostHolds(c, w, h, secret)
  }

  /** Every client-open transcript the identity signed belongs to a start. */
  ghost predicate SignedStarts(c: Crypto, w: World) {
    forall n: bytes, k: bytes {:trigger ClientOpenTranscript(n, k, c.signingKey)} ::
      |n| == |k| == 32 && ClientOpenTranscript(n, k, c.signingKey) in w.signed ==> (n, k) in w.starts
  }

  ghost predicate Fresh(w: World) {
    && (forall p :: p in w.pending ==> |p.clientNonce| == 32 && p.clientNonce in w.clientNonces)
    && (forall p, q :: p in w.pending && q in w.pending && p.clientNonce == q.clientNonce ==> p == q)
  }

  /** What holds of one end by itself. */
  ghost predicate GoodEnd(c: Crypto, w: World, role: Role, id: bytes, end: Endpoint)
  {
    var s, h := end.session, end.handshake;
    && h.Sized() && id == s.id == IdOf(c, h)
    && s.sendDirection == SendDirection(role) && s.receiveDirection == SendDirection(Other(role))
    && |end.sealed| == s.sendSequence && |end.received| == s.receiveSequence
    && (forall i :: 0 <= i < |end.sealed| ==> Sealable(end.sealed[i]))
    && (h.clientNonce, h.clientKey) in w.starts
    && (role.Host? ==> h.hostNonce in w.hostNonces)
    && (role.Client? ==>
          h.clientNonce in w.clientNonces && forall p :: p in w.pending ==> p.clientNonce != h.clientNonce)
  }

  /** What an end opened is what its peer sealed, in order, without gaps. */
  ghost predicate InOrder(w: World, role: Role, id: bytes, end: Endpoint) {
    if (Other(role), id) in w.ends then end.received <= w.ends[(Other(role), id)].sealed else end.received == []
  }

  ghost predicate GoodEnds(c: Crypto, w: World)
  {
    forall role: Role, id: bytes :: (role, id) in w.ends ==>
      GoodEnd(c, w, role, id, w.ends[(role, id)]) && InOrder(w, role, id, w.ends[(role, id)])
  }

  /** Every client session has a host session with the same handshake and mirrored material. */
  ghost predicate Paired(w: World) {
    forall id: bytes :: (Client, id) in w.ends ==>
      && (Host, id) in w.ends
      && w.ends[(Client, id)].handshake == w.ends[(Host, id)].handshake
      && Mirrored(w.ends[(Client, id)].session, w.ends[(Host, id)].session)
  }

  ghost predicate SealedBy(w: World, r: Sealing, role: Role, id: bytes, n: u64) {
    && (role, id) in w.ends
    && var end := w.ends[(role, id)];
    && n < |end.sealed|
    && r == SealingAt(end, role, id, n)
  }

  ghost predicate SealingsKnown(w: World) {
    forall r :: r in w.sealings && !OfExtension(r) ==> exists role, id, n :: SealedBy(w, r, role, id, n)
  }

  /** Sealed by the other transport. */
  ghost predicate OfExtension(r: Sealing) { AadDomain(Extension) <= r.aad }

  /** Everything an end sealed is in the record of sealings. */
  ghost predicate SealingsComplete(w: World) {
    forall role: Role, id: bytes, n: u64 ::
      (role, id) in w.ends && n < |w.ends[(role, id)].sealed| ==>
        SealingAt(w.ends[(role, id)], role, id, n) in w.sealings
  }

  ghost function SealingAt(end: Endpoint, role: Role, id: bytes, n: u64): Sealing
    requires n < |end.sealed|
  {
    Sealing(end.session.sendKey, FrameNonce(end.session.sendNonceBase, n),
            FrameAad(Local, id, SendDirection(role), n), end.sealed[n])
  }

  ghost predicate Inv(c: Crypto, w: World)
  {
    SignedSessions(c, w) && SignedStarts(c, w) && Fresh(w) && GoodEnds(c, w) && Paired(w)
    && SealingsKnown(w) && SealingsComplete(w)
  }

  // ----- Session ids -----

  lemma Encode64Injective(c: Crypto, x: bytes, y: bytes)
    requires Ideal(c) && c.encode64(x) == c.encode64(y)
    ensures x == y
  {
    assert c.decode64(c.encode64(x)) == Some(x) && c.decode64(c.encode64(y)) == Some(y);
  }

  /** Two handshakes with the same session id are the same handshake. */
  lemma IdInjective(c: Crypto, h: Handshake, g: Handshake)
    requires Ideal(c) && h.Sized() && g.Sized() && IdOf(c, h) == IdOf(c, g)
    ensures h == g
  {
    var t, u := SessionTranscript(h), SessionTranscript(g);
    Encode64Injective(c, c.hash(SESSION_ID_DOMAIN + t + c.sign(t)), c.hash(SESSION_ID_DOMAIN + u + c.sign(u)));
    SplitEnd(SESSION_ID_DOMAIN + t, SESSION_ID_DOMAIN + u, c.sign(t), c.sign(u));
    assert (SESSION_ID_DOMAIN + t)[|SESSION_ID_DOMAIN|..] == t;
    assert (SESSION_ID_DOMAIN + u)[|SESSION_ID_DOMAIN|..] == u;
    SessionTranscriptInjective(h, g);
  }

  lemma IdsDiffer(c: Crypto, h: Handshake, g: Handshake)
    requires Ideal(c) && h.Sized() && g.Sized() && h != g
    ensures IdOf(c, h) != IdOf(c, g)
  {
    if IdOf(c, h) == IdOf(c, g) { IdInjective(c, h, g); }
  }

  lemma SessionTranscriptsDiffer(h: Handshake, g: Handshake)
    requires h.Sized() && g.Sized() && h != g
    ensures SessionTranscript(h) != SessionTranscript(g)
  {
    if SessionTranscript(h) == SessionTranscript(g) { SessionTranscriptInjective(h, g); }
  }

  // ----- Which signatures a step adds -----

  lemma OpenIsNotSession(c: Crypto, n: bytes, k: bytes, h: Handshake)
    ensures ClientOpenTranscript(n, k, c.signingKey) != SessionTranscript(h)
  {
    TranscriptKindsDisjoint([n, k, c.signingKey], h.Parts(), []);
  }

  lemma ExtensionIsNeither(c: Crypto, m: bytes, parts: seq<bytes>)
    requires m == EXTENSION_DOMAIN + Fields(parts)
    ensures forall n: bytes, k: bytes :: ClientOpenTranscript(n, k, c.signingKey) != m
    ensures forall h: Handshake :: SessionTranscript(h) != m
  {
    forall n: bytes, k: bytes ensures ClientOpenTranscript(n, k, c.signingKey) != m {
      TranscriptKindsDisjoint([n, k, c.signingKey], [], parts);
    }
    forall h: Handshake ensures SessionTranscript(h) != m {
      TranscriptKindsDisjoint([], h.Parts(), parts);
    }
  }

  // ----- Start -----

  lemma StartKeepsSignatures(c: Crypto, w: World, nonce: bytes, secret: bytes)
    requires Ideal(c) && SignedSessions(c, w) && SignedStarts(c, w) && |nonce| == 32
    ensures var v := DoStart(c, w, nonce, secret); SignedSessions(c, v) && SignedStarts(c, v)
  {
    var v := DoStart(c, w, nonce, secret);
    var key := c.publicKey(secret);
    forall h: Handshake | h.Sized() && SessionTranscript(h) in v.signed
      ensures exists s :: HostHolds(c, v, h, s)
    {
      OpenIsNotSession(c, nonce, key, h);
      var s :| HostHolds(c, w, h, s);
      assert HostHolds(c, v, h, s);
    }
    forall n: bytes, k: bytes | |n| == |k| == 32 && ClientOpenTranscript(n, k, c.signingKey) in v.signed
      ensures (n, k) in v.starts
    {
      if ClientOpenTranscript(n, k, c.signingKey) == ClientOpenTranscript(nonce, key, c.signingKey) {
        ClientOpenTranscriptInjective(n, k, c.signingKey, nonce, key, c.signingKey);
      }
    }
  }

  lemma StartKeepsInv(c: Crypto, w: World, nonce: bytes, secret: bytes)
    requires Ideal(c) && Inv(c, w) && |nonce| == 32 && nonce !in w.clientNonces
    ensures Inv(c, DoStart(c, w, nonce, secret))
  {
    var v := DoStart(c, w, nonce, secret);
    StartKeepsSignatures(c, w, nonce, secret);
    SameEnds(c, w, v);
  }

  /** A step that leaves the ends alone keeps what is said about them. */
  lemma SameEnds(c: Crypto, w: World, v: World)
    requires Ideal(c) && GoodEnds(c, w) && Paired(w) && SealingsKnown(w) && SealingsComplete(w)
    requires v.ends == w.ends && v.sealings == w.sealings
    requires w.starts <= v.starts && w.hostNonces <= v.hostNonces && w.clientNonces <= v.clientNonces
    requires forall p :: p in v.pending && p !in w.pending ==> p.clientNonce !in w.clientNonces
    ensures GoodEnds(c, v) && Paired(v) && SealingsKnown(v) && SealingsComplete(v)
  {
    forall role: Role, id: bytes | (role, id) in v.ends
      ensures GoodEnd(c, v, role, id, v.ends[(role, id)]) && InOrder(v, role, id, v.ends[(role, id)])
    {
      assert GoodEnd(c, w, role, id, w.ends[(role, id)]) && InOrder(w, role, id, w.ends[(role, id)]);
    }
    forall r | r in v.sealings && !OfExtension(r) ensures exists role, id, n :: SealedBy(v, r, role, id, n) {
      var role, id, n :| SealedBy(w, r, role, id, n);
      assert SealedBy(v, r, role, id, n);
    }
  }

  // ----- The extension's signatures -----

  lemma ExtensionKeepsInv(c: Crypto, w: World, v: World, m: bytes, parts: seq<bytes>)
    requires Ideal(c) && Inv(c, w)
    requires m == EXTENSION_DOMAIN + Fields(parts) && v == w.(signed := w.signed + {m})
    ensures Inv(c, v)
  {
    ExtensionIsNeither(c, m, parts);
    forall h: Handshake | h.Sized() && SessionTranscript(h) in v.signed
      ensures exists s :: HostHolds(c, v, h, s)
    {
      var s :| HostHolds(c, w, h, s);
      assert HostHolds(c, v, h, s);
    }
    SameEnds(c, w, v);
  }

  /** A frame of the other transport, under any key and nonce at all. */
  lemma ExtensionSealKeepsInv(c: Crypto, w: World, r: Sealing)
    requires Ideal(c) && Inv(c, w) && OfExtension(r)
    ensures Inv(c, w.(sealings := w.sealings + {r}))
  {
    var v := w.(sealings := w.sealings + {r});
    forall h: Handshake | h.Sized() && SessionTranscript(h) in v.signed
      ensures exists s :: HostHolds(c, v, h, s)
    {
      var s :| HostHolds(c, w, h, s);
      assert HostHolds(c, v, h, s);
    }
    MoreSealings(c, w, v);
  }

  lemma MoreSealings(c: Crypto, w: World, v: World)
    requires Ideal(c) && GoodEnds(c, w) && SealingsKnown(w) && SealingsComplete(w)
    requires v == w.(sealings := v.sealings) && w.sealings <= v.sealings
    requires forall r :: r in v.sealings && r !in w.sealings ==> OfExtension(r)
    ensures GoodEnds(c, v) && SealingsKnown(v) && SealingsComplete(v)
  {
    forall r': Role, id: bytes | (r', id) in v.ends
      ensures GoodEnd(c, v, r', id, v.ends[(r', id)]) && InOrder(v, r', id, v.ends[(r', id)])
    {
      assert GoodEnd(c, w, r', id, w.ends[(r', id)]) && InOrder(w, r', id, w.ends[(r', id)]);
    }
    forall r | r in v.sealings && !OfExtension(r) ensures exists r', id, n :: SealedBy(v, r, r', id, n) {
      var r', id, n :| SealedBy(w, r, r', id, n);
      assert SealedBy(v, r, r', id, n);
    }
  }

  // ----- A new end -----

  /** Adding an end with a new id keeps what is said about the others. */
  lemma NewEnd(c: Crypto, w: World, v: World, role: Role, end: Endpoint)
    requires Ideal(c) && GoodEnds(c, w) && SealingsKnown(w) && SealingsComplete(w)
    requires (role, end.session.id) !in w.ends
    requires v.ends == w.ends[(role, end.session.id) := end] && v.sealings == w.sealings
    requires w.starts <= v.starts && w.hostNonces <= v.hostNonces && w.clientNonces <= v.clientNonces
    requires v.pending <= w.pending
    requires end.sealed == [] && end.received == [] && GoodEnd(c, v, role, end.session.id, end)
    ensures GoodEnds(c, v) && SealingsKnown(v) && SealingsComplete(v)
  {
    forall r': Role, id: bytes | (r', id) in v.ends
      ensures GoodEnd(c, v, r', id, v.ends[(r', id)]) && InOrder(v, r', id, v.ends[(r', id)])
    {
      if (r', id) != (role, end.session.id) {
        assert GoodEnd(c, w, r', id, w.ends[(r', id)]) && InOrder(w, r', id, w.ends[(r', id)]);
      }
    }
    forall r | r in v.sealings && !OfExtension(r) ensures exists r', id, n :: SealedBy(v, r, r', id, n) {
      var r', id, n :| SealedBy(w, r, r', id, n);
      assert SealedBy(v, r, r', id, n);
    }
  }

  // ----- Accept -----

  /** A fresh host nonce gives a session id that no end uses yet. */
  lemma FreshId(c: Crypto, w: World, h: Handshake)
    requires Ideal(c) && GoodEnds(c, w) && Paired(w) && h.Sized() && h.hostNonce !in w.hostNonces
    ensures (Host, IdOf(c, h)) !in w.ends && (Client, IdOf(c, h)) !in w.ends
  {
    var id := IdOf(c, h);
    if (Host, id) in w.ends {
      var end := w.ends[(Host, id)];
      assert GoodEnd(c, w, Host, id, end);
      IdInjective(c, end.handshake, h);
    }
  }

  /** At most the host end of handshake `h` is new. */
  ghost predicate OnlyHostEnd(c: Crypto, w: World, v: World, h: Handshake) {
    v.ends == w.ends || ((Host, IdOf(c, h)) in v.ends
                         && v.ends == w.ends[(Host, IdOf(c, h)) := v.ends[(Host, IdOf(c, h))]])
  }

  lemma AcceptKeepsOthers(c: Crypto, w: World, v: World, h: Handshake, g: Handshake, s: bytes)
    requires Ideal(c) && h.Sized() && g.Sized() && g != h && OnlyHostEnd(c, w, v, h) && HostHolds(c, w, g, s)
    ensures HostHolds(c, v, g, s)
  {
    IdsDiffer(c, g, h);
  }

  lemma AcceptKeepsSessions(c: Crypto, w: World, v: World, h: Handshake, secret: bytes)
    requires Ideal(c) && SignedSessions(c, w) && h.Sized() && OnlyHostEnd(c, w, v, h)
    requires v.signed == w.signed + {SessionTranscript(h)} && HostHolds(c, v, h, secret)
    ensures SignedSessions(c, v)
  {
    forall g: Handshake | g.Sized() && SessionTranscript(g) in v.signed
      ensures exists s :: HostHolds(c, v, g, s)
    {
      if g != h {
        SessionTranscriptsDiffer(g, h);
        var s :| HostHolds(c, w, g, s);
        AcceptKeepsOthers(c, w, v, h, g, s);
      }
    }
  }

  lemma AcceptKeepsStarts(c: Crypto, w: World, v: World, h: Handshake)
    requires SignedStarts(c, w) && v.signed == w.signed + {SessionTranscript(h)} && v.starts == w.starts
    ensures SignedStarts(c, v)
  {
    forall n: bytes, k: bytes | |n| == |k| == 32 && ClientOpenTranscript(n, k, c.signingKey) in v.signed
      ensures (n, k) in v.starts
    {
      OpenIsNotSession(c, n, k, h);
    }
  }

  lemma AcceptKeepsInv(c: Crypto, w: World, open: SessionOpen, nonce: bytes, secret: bytes)
    requires Ideal(c) && Inv(c, w) && |nonce| == 32 && nonce !in w.hostNonces
    ensures Inv(c, DoAccept(c, w, open, nonce, secret))
  {
    var v := DoAccept(c, w, open, nonce, secret);
    var checked := CheckOpen(c, Verifier(c, w.signed), open);
    if checked.Failure? {
      SameSignatures(c, w, v);
      SameEnds(c, w, v);
    } else {
      var h := HostHandshake(c, checked.value, nonce, secret);
      FreshId(c, w, h);
      AcceptKeepsSessions(c, w, v, h, secret);
      AcceptKeepsStarts(c, w, v, h);
      var r := AcceptWith(c, open, h, secret);
      if r.Failure? {
        SameEnds(c, w, v);
      } else {
        NewEnd(c, w, v, Host, Endpoint(h, r.value.1, [], []));
      }
    }
  }

  lemma SameSignatures(c: Crypto, w: World, v: World)
    requires Ideal(c) && SignedSessions(c, w) && v.signed == w.signed && v.ends == w.ends
    ensures SignedSessions(c, v)
  {
    forall h: Handshake | h.Sized() && SessionTranscript(h) in v.signed
      ensures exists s :: HostHolds(c, v, h, s)
    {
      var s :| HostHolds(c, w, h, s);
      assert HostHolds(c, v, h, s);
    }
  }

  // ----- Finish -----

  /** A finish that succeeds belongs to an accept of the same handshake, with mirrored material. */
  lemma FinishMatchesAccept(c: Crypto, w: World, p: Pending, ready: SessionReady)
    requires Ideal(c) && Inv(c, w) && p in w.pending
    requires Finish(c, Verifier(c, w.signed), p, ready).Success?
    ensures var (h, session) := Finish(c, Verifier(c, w.signed), p, ready).value;
            && h.Sized() && h.clientNonce == p.clientNonce && session.id == IdOf(c, h)
            && (Host, session.id) in w.ends
            && w.ends[(Host, session.id)].handshake == h
            && Mirrored(session, w.ends[(Host, session.id)].session)
  {
    var (h, session) := Finish(c, Verifier(c, w.signed), p, ready).value;
    assert SessionTranscript(h) in w.signed;
    var secret :| HostHolds(c, w, h, secret);
    assert c.agree(p.clientSecret, c.publicKey(secret)) == c.agree(secret, c.publicKey(p.clientSecret));
  }

  lemma FinishKeepsInv(c: Crypto, w: World, p: Pending, ready: SessionReady)
    requires Ideal(c) && Inv(c, w) && p in w.pending
    ensures Inv(c, DoFinish(c, w, p, ready))
  {
    var v := DoFinish(c, w, p, ready);
    var r := Finish(c, Verifier(c, w.signed), p, ready);
    if r.Failure? {
      SameSignatures(c, w, v);
      SameEnds(c, w, v);
    } else {
      FinishMatchesAccept(c, w, p, ready);
      var (h, session) := r.value;
      assert (Client, session.id) !in w.ends;
      assert GoodEnd(c, w, Host, session.id, w.ends[(Host, session.id)]);
      FinishEnds(c, w, v, p, Endpoint(h, session, [], []));
      ClientEndKeepsSignatures(c, w, v, session.id);
    }
  }

  lemma FinishEnds(c: Crypto, w: World, v: World, p: Pending, end: Endpoint)
    requires Ideal(c) && Inv(c, w) && p in w.pending
    requires (Client, end.session.id) !in w.ends
    requires v == w.(pending := w.pending - {p}, ends := w.ends[(Client, end.session.id) := end])
    requires end.sealed == [] && end.received == []
    requires end.session == end.session.(sendSequence := 0, receiveSequence := 0)
    requires end.handshake.clientNonce == p.clientNonce && (Host, end.session.id) in w.ends
    requires w.ends[(Host, end.session.id)].handshake == end.handshake
    requires end.session.sendDirection == ToHost && end.session.receiveDirection == FromHost
    requires Mirrored(end.session, w.ends[(Host, end.session.id)].session)
    ensures GoodEnds(c, v) && SealingsKnown(v) && SealingsComplete(v) && Paired(v) && Fresh(v)
  {
    assert GoodEnd(c, w, Host, end.session.id, w.ends[(Host, end.session.id)]);
    NewEnd(c, w, v, Client, end);
  }

  lemma ClientEndKeepsSignatures(c: Crypto, w: World, v: World, id: bytes)
    requires Ideal(c) && SignedSessions(c, w) && v.signed == w.signed
    requires (Client, id) in v.ends && v.ends == w.ends[(Client, id) := v.ends[(Client, id)]]
    ensures SignedSessions(c, v)
  {
    forall h: Handshake | h.Sized() && SessionTranscript(h) in v.signed
      ensures exists s :: HostHolds(c, v, h, s)
    {
      var s :| HostHolds(c, w, h, s);
      assert HostHolds(c, v, h, s);
    }
  }

  // ----- Traffic -----

  /** Traffic at one end: the counters and logs move, the agreed values do not. */
  ghost predicate Advanced(w: World, v: World, role: Role, id: bytes) {
    && (role, id) in w.ends && (role, id) in v.ends
    && v == w.(ends := w.ends[(role, id) := v.ends[(role, id)]], sealings := v.sealings)
    && var a, b := w.ends[(role, id)], v.ends[(role, id)];
    && a.handshake == b.handshake && SameKeys(a.session, b.session)
  }

  lemma TrafficKeepsHandshakes(c: Crypto, w: World, v: World, role: Role, id: bytes)
    requires Ideal(c) && Inv(c, w) && Advanced(w, v, role, id)
    ensures SignedSessions(c, v) && SignedStarts(c, v) && Fresh(v) && Paired(v)
  {
    forall h: Handshake | h.Sized() && SessionTranscript(h) in v.signed
      ensures exists s :: HostHolds(c, v, h, s)
    {
      var s :| HostHolds(c, w, h, s);
      assert HostHolds(c, v, h, s);
    }
  }

  lemma SealKeepsInv(c: Crypto, w: World, role: Role, id: bytes, plaintext: bytes)
    requires Ideal(c) && Inv(c, w) && (role, id) in w.ends
    ensures Inv(c, DoSeal(c, w, role, id, plaintext))
  {
    var v := DoSeal(c, w, role, id, plaintext);
    var end := w.ends[(role, id)];
    assert GoodEnd(c, w, role, id, end);
    if v != w {
      TrafficKeepsHandshakes(c, w, v, role, id);
      SealKeepsEnds(c, w, v, role, id, plaintext);
      SealKeepsSealings(w, v, role, id);
    }
  }

  lemma SealKeepsEnds(c: Crypto, w: World, v: World, role: Role, id: bytes, plaintext: bytes)
    requires Ideal(c) && GoodEnds(c, w) && Advanced(w, v, role, id)
    requires var a, b := w.ends[(role, id)], v.ends[(role, id)];
             && Sealable(plaintext) && b.sealed == a.sealed + [plaintext] && b.received == a.received
             && a.session.sendSequence + 1 == b.session.sendSequence
             && a.session.receiveSequence == b.session.receiveSequence
    ensures GoodEnds(c, v)
  {
    forall r: Role, i: bytes | (r, i) in v.ends
      ensures GoodEnd(c, v, r, i, v.ends[(r, i)]) && InOrder(v, r, i, v.ends[(r, i)])
    {
      assert GoodEnd(c, w, r, i, w.ends[(r, i)]) && InOrder(w, r, i, w.ends[(r, i)]);
    }
  }

  /** One more sealed message, recorded. */
  ghost predicate SealedOneMore(w: World, v: World, role: Role, id: bytes) {
    && Advanced(w, v, role, id)
    && var a, b := w.ends[(role, id)], v.ends[(role, id)];
    && |a.sealed| + 1 == |b.sealed| < U64_LIMIT && a.sealed <= b.sealed
    && v.sealings == w.sealings + {SealingAt(b, role, id, |a.sealed|)}
  }

  lemma SealKeepsSealings(w: World, v: World, role: Role, id: bytes)
    requires SealingsKnown(w) && SealingsComplete(w) && SealedOneMore(w, v, role, id)
    ensures SealingsKnown(v) && SealingsComplete(v)
  {
    forall r | r in v.sealings && !OfExtension(r) ensures exists r', i, n :: SealedBy(v, r, r', i, n) {
      if r in w.sealings {
        var r', i, n :| SealedBy(w, r, r', i, n);
        assert SealedBy(v, r, r', i, n);
      } else {
        assert SealedBy(v, r, role, id, |w.ends[(role, id)].sealed|);
      }
    }
    forall r: Role, i: bytes, n: u64 | (r, i) in v.ends && n < |v.ends[(r, i)].sealed|
      ensures SealingAt(v.ends[(r, i)], r, i, n) in v.sealings
    {
      SealKeepsOne(w, v, role, id, r, i, n);
    }
  }

  lemma SealKeepsOne(w: World, v: World, role: Role, id: bytes, r: Role, i: bytes, n: u64)
    requires SealingsComplete(w) && SealedOneMore(w, v, role, id)
    requires (r, i) in v.ends && n < |v.ends[(r, i)].sealed|
    ensures SealingAt(v.ends[(r, i)], r, i, n) in v.sealings
  {
    var a, b := w.ends[(r, i)], v.ends[(r, i)];
    if n < |a.sealed| {
      assert SealingAt(b, r, i, n) == SealingAt(a, r, i, n);
      assert SealingAt(a, r, i, n) in w.sealings;
    }
  }

  /** No frame of the other transport carries the associated data of this one. */
  lemma LocalIsNotExtension(s: Session, r: Sealing)
    requires r.aad == ReceiveAad(s)
    ensures !OfExtension(r)
  {
    AadDomainsDiffer(r.aad[|AadDomain(Local)|..]);
    assert r.aad == AadDomain(Local) + r.aad[|AadDomain(Local)|..];
  }

  /** Whatever decrypts at an end is the next message its peer sealed for it. */
  lemma DecryptedIsNext(c: Crypto, w: World, role: Role, id: bytes, plaintext: bytes)
    requires Ideal(c) && Inv(c, w) && (role, id) in w.ends
    requires var s := w.ends[(role, id)].session;
             Sealing(s.receiveKey, ReceiveNonce(s), ReceiveAad(s), plaintext) in w.sealings
    ensures (Other(role), id) in w.ends
    ensures var n, peer := |w.ends[(role, id)].received|, w.ends[(Other(role), id)];
            n < |peer.sealed| && plaintext == peer.sealed[n]
  {
    var end := w.ends[(role, id)];
    var s := end.session;
    assert GoodEnd(c, w, role, id, end);
    var r := Sealing(s.receiveKey, ReceiveNonce(s), ReceiveAad(s), plaintext);
    LocalIsNotExtension(s, r);
    var r', i, n :| SealedBy(w, r, r', i, n);
    FrameAadInjective(Local, s.id, s.receiveDirection, s.receiveSequence, Local, i, SendDirection(r'), n);
    assert r' == Other(role);
  }

  lemma OpenKeepsInv(c: Crypto, w: World, role: Role, id: bytes, frame: Frame, decodes: bool)
    requires Ideal(c) && Inv(c, w) && (role, id) in w.ends
    ensures Inv(c, DoOpen(c, w, role, id, frame, decodes))
  {
    var v := DoOpen(c, w, role, id, frame, decodes);
    var end := w.ends[(role, id)];
    if v != w {
      var decrypt: Decrypt := (k, n, a, x) => Decryption(c, w.sealings, k, n, a, x);
      var (next, r) := Open(c, end.session, frame, decrypt, p => decodes);
      assert GoodEnd(c, w, role, id, end) && InOrder(w, role, id, end);
      DecryptedIsNext(c, w, role, id, r.value);
      TrafficKeepsHandshakes(c, w, v, role, id);
      OpenKeepsEnds(c, w, v, role, id, r.value);
      OpenKeepsSealings(w, v, role, id);
    }
  }

  /** Nothing but one more received message, the peer's next one. */
  ghost predicate ReceivedOneMore(w: World, v: World, role: Role, id: bytes, plaintext: bytes) {
    && Advanced(w, v, role, id)
    && var a, b := w.ends[(role, id)], v.ends[(role, id)];
    && b.received == a.received + [plaintext] && b.sealed == a.sealed
    && a.session.receiveSequence + 1 == b.session.receiveSequence
    && a.session.sendSequence == b.session.sendSequence
    && (Other(role), id) in w.ends && |a.received| < |w.ends[(Other(role), id)].sealed|
    && plaintext == w.ends[(Other(role), id)].sealed[|a.received|]
  }

  lemma OpenKeepsEnds(c: Crypto, w: World, v: World, role: Role, id: bytes, plaintext: bytes)
    requires Ideal(c) && GoodEnds(c, w) && ReceivedOneMore(w, v, role, id, plaintext)
    ensures GoodEnds(c, v)
  {
    forall r: Role, i: bytes | (r, i) in v.ends
      ensures GoodEnd(c, v, r, i, v.ends[(r, i)]) && InOrder(v, r, i, v.ends[(r, i)])
    {
      assert GoodEnd(c, w, r, i, w.ends[(r, i)]) && InOrder(w, r, i, w.ends[(r, i)]);
      OpenKeepsGood(c, w, v, role, id, plaintext, r, i);
      OpenKeepsOrder(w, v, role, id, plaintext, r, i);
    }
  }

  lemma OpenKeepsGood(c: Crypto, w: World, v: World, role: Role, id: bytes, plaintext: bytes, r: Role, i: bytes)
    requires Ideal(c) && ReceivedOneMore(w, v, role, id, plaintext)
    requires (r, i) in v.ends && GoodEnd(c, w, r, i, w.ends[(r, i)])
    ensures GoodEnd(c, v, r, i, v.ends[(r, i)])
  {
  }

  lemma OpenKeepsOrder(w: World, v: World, role: Role, id: bytes, plaintext: bytes, r: Role, i: bytes)
    requires ReceivedOneMore(w, v, role, id, plaintext)
    requires (r, i) in v.ends && InOrder(w, r, i, w.ends[(r, i)])
    ensures InOrder(v, r, i, v.ends[(r, i)])
  {
  }

  lemma OpenKeepsSealings(w: World, v: World, role: Role, id: bytes)
    requires SealingsKnown(w) && SealingsComplete(w) && Advanced(w, v, role, id)
    requires v.ends[(role, id)].sealed == w.ends[(role, id)].sealed && v.sealings == w.sealings
    ensures SealingsKnown(v) && SealingsComplete(v)
  {
    forall r | r in v.sealings && !OfExtension(r) ensures exists r', i, n :: SealedBy(v, r, r', i, n) {
      var r', i, n :| SealedBy(w, r, r', i, n);
      assert SealedBy(v, r, r', i, n);
    }
    forall r: Role, i: bytes, n: u64 | (r, i) in v.ends && n < |v.ends[(r, i)].sealed|
      ensures SealingAt(v.ends[(r, i)], r, i, n) in v.sealings
    {
      assert SealingAt(v.ends[(r, i)], r, i, n) == SealingAt(w.ends[(r, i)], r, i, n);
    }
  }

  // ----- Every step -----

  lemma StepKeepsInv(c: Crypto, w: World, e: Event)
    requires Ideal(c) && Inv(c, w) && Allowed(w, e)
    ensures Inv(c, Step(c, w, e))
  {
    match e
    case ClientStart(nonce, secret) => StartKeepsInv(c, w, nonce, secret);
    case HostAccept(open, nonce, secret) => AcceptKeepsInv(c, w, open, nonce, secret);
    case ExtensionAccept(origin, n, k, nonce, secret) =>
      ExtensionKeepsInv(c, w, Step(c, w, e),
                        ExtensionTranscript(origin, n, k, nonce, c.publicKey(secret), c.signingKey),
                        [origin, n, k, nonce, c.publicKey(secret), c.signingKey]);
    case ExtensionSeal(key, nonce, id, direction, n, message) =>
      ExtensionSealKeepsInv(c, w, Sealing(key, nonce, FrameAad(Extension, id, direction, n), message));
    case ClientFinish(p, ready) => FinishKeepsInv(c, w, p, ready);
    case SealAt(role, id, plaintext) => SealKeepsInv(c, w, role, id, plaintext);
    case OpenAt(role, id, frame, decodes) => OpenKeepsInv(c, w, role, id, frame, decodes);
  }

  /** The laws are not contradictory: a toy instance has all of them. */
  lemma IdealExists() returns (c: Crypto)
    ensures Ideal(c)
  {
    var zeros: nat -> bytes := (n: nat) => seq(n, i => 0);
    c := Crypto(zeros(32), m => zeros(64), s => zeros(32), (a, b) => [1], x => x,
                (s, t) => zeros(112), (k, n, a, p) => p + zeros(16), x => x, x => Some(x));
  }
}
