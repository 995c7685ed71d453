/** Whole runs of the local transport over a hostile network: what is true in every run, and that sessions
    do come about.
 */
module SessionRuns {
  import opened Bytes
  import opened Decimals
  import opened WireFormats
  import opened LocalTransport
  import opened SessionWorld

  /** A run: every world follows from the one before by an allowed event. */
  ghost predicate Run(c: Crypto, events: seq<Event>, worlds: seq<World>) {
    && |worlds| == |events| + 1 && worlds[0] == EMPTY
    && forall i: nat :: i < |events| ==> LeadsAt(c, events, worlds, i)
  }

  ghost predicate Reaches(c: Crypto, events: seq<Event>, w: World) {
    exists worlds :: Run(c, events, worlds) && worlds[|events|] == w
  }

  ghost predicate LeadsAt(c: Crypto, events: seq<Event>, worlds: seq<World>, i: nat) {
    i < |events| && i + 1 < |worlds| && Leads(c, worlds[i], events[i], worlds[i + 1])
  }

  ghost predicate Leads(c: Crypto, u: World, e: Event, w: World) {
    Allowed(u, e) && w == Step(c, u, e)
  }

  lemma EmptyInv(c: Crypto)
    ensures Inv(c, EMPTY)
  {
  }

  lemma {:induction false} RunKeepsInv(c: Crypto, events: seq<Event>, worlds: seq<World>, i: nat)
    requires Ideal(c) && Run(c, events, worlds) && i <= |events|
    ensures Inv(c, worlds[i])
    decreases i
  {
    if i == 0 {
      EmptyInv(c);
    } else {
      RunKeepsInv(c, events, worlds, i - 1);
      assert LeadsAt(c, events, worlds, i - 1);
      StepKeepsInv(c, worlds[i - 1], events[i - 1]);
    }
  }

  lemma ReachableInv(c: Crypto, events: seq<Event>, w: World)
    requires Ideal(c) && Reaches(c, events, w)
    ensures Inv(c, w)
  {
    var worlds :| Run(c, events, worlds) && worlds[|events|] == w;
    RunKeepsInv(c, events, worlds, |events|);
  }

  // ----- Ends persist -----

  /** The same end later: what it agreed to is unchanged, its logs are only extended. */
  ghost predicate Continues(a: Endpoint, b: Endpoint) {
    && a.handshake == b.handshake && SameKeys(a.session, b.session)
    && a.sealed <= b.sealed && a.received <= b.received
    && a.session.sendSequence <= b.session.sendSequence && a.session.receiveSequence <= b.session.receiveSequence
  }

  lemma ContinuesJoin(a: Endpoint, b: Endpoint, d: Endpoint)
    requires Continues(a, b) && Continues(b, d)
    ensures Continues(a, d)
  {
  }

  lemma AcceptKeepsEnd(c: Crypto, w: World, open: SessionOpen, nonce: bytes, secret: bytes, role: Role, id: bytes)
    requires Ideal(c) && Inv(c, w) && |nonce| == 32 && nonce !in w.hostNonces && (role, id) in w.ends
    ensures var v := DoAccept(c, w, open, nonce, secret);
            (role, id) in v.ends && v.ends[(role, id)] == w.ends[(role, id)]
  {
    var checked := CheckOpen(c, Verifier(c, w.signed), open);
    if checked.Success? {
      FreshId(c, w, HostHandshake(c, checked.value, nonce, secret));
    }
  }

  lemma FinishKeepsEnd(c: Crypto, w: World, p: Pending, ready: SessionReady, role: Role, id: bytes)
    requires Ideal(c) && Inv(c, w) && p in w.pending && (role, id) in w.ends
    ensures var v := DoFinish(c, w, p, ready); (role, id) in v.ends && v.ends[(role, id)] == w.ends[(role, id)]
  {
    if Finish(c, Verifier(c, w.signed), p, ready).Success? {
      FinishMatchesAccept(c, w, p, ready);
      assert GoodEnd(c, w, role, id, w.ends[(role, id)]);
    }
  }

  /** Traffic at one end leaves every other end as it is. */
  lemma SealContinues(c: Crypto, w: World, at: (Role, bytes), plaintext: bytes, role: Role, id: bytes)
    requires at in w.ends && (role, id) in w.ends
    ensures var v := DoSeal(c, w, at.0, at.1, plaintext);
            (role, id) in v.ends && Continues(w.ends[(role, id)], v.ends[(role, id)])
  {
  }

  lemma OpenContinues(c: Crypto, w: World, at: (Role, bytes), frame: Frame, decodes: bool, role: Role, id: bytes)
    requires at in w.ends && (role, id) in w.ends
    ensures var v := DoOpen(c, w, at.0, at.1, frame, decodes);
            (role, id) in v.ends && Continues(w.ends[(role, id)], v.ends[(role, id)])
  {
  }

  lemma StepContinues(c: Crypto, w: World, e: Event, role: Role, id: bytes)
    requires Ideal(c) && Inv(c, w) && Allowed(w, e) && (role, id) in w.ends
    ensures var v := Step(c, w, e); (role, id) in v.ends && Continues(w.ends[(role, id)], v.ends[(role, id)])
  {
    match e
    case HostAccept(open, nonce, secret) => AcceptKeepsEnd(c, w, open, nonce, secret, role, id);
    case ClientFinish(p, ready) => FinishKeepsEnd(c, w, p, ready, role, id);
    case SealAt(r, i, plaintext) => SealContinues(c, w, (r, i), plaintext, role, id);
    case OpenAt(r, i, frame, decodes) => OpenContinues(c, w, (r, i), frame, decodes, role, id);
    case ClientStart(_, _) =>
    case ExtensionAccept(_, _, _, _, _) =>
    case ExtensionSeal(_, _, _, _, _, _) =>
  }

  lemma NextContinues(c: Crypto, events: seq<Event>, worlds: seq<World>, i: nat, role: Role, id: bytes)
    requires Ideal(c) && Run(c, events, worlds) && i < |events| && (role, id) in worlds[i].ends
    ensures (role, id) in worlds[i + 1].ends && Continues(worlds[i].ends[(role, id)], worlds[i + 1].ends[(role, id)])
  {
    RunKeepsInv(c, events, worlds, i);
    assert LeadsAt(c, events, worlds, i);
    StepContinues(c, worlds[i], events[i], role, id);
  }

  /** In every run an end, once there, stays: it keeps its handshake and keys, its logs only grow and its
      counters never go back. */
  lemma {:induction false} EndPersists(c: Crypto, events: seq<Event>, worlds: seq<World>, i: nat, j: nat,
                                       role: Role, id: bytes)
    requires Ideal(c) && Run(c, events, worlds) && i <= j <= |events| && (role, id) in worlds[i].ends
    ensures (role, id) in worlds[j].ends && Continues(worlds[i].ends[(role, id)], worlds[j].ends[(role, id)])
    decreases j
  {
    if i == j {
    } else {
      EndPersists(c, events, worlds, i, j - 1, role, id);
      NextContinues(c, events, worlds, j - 1, role, id);
      ContinuesJoin(worlds[i].ends[(role, id)], worlds[j - 1].ends[(role, id)], worlds[j].ends[(role, id)]);
    }
  }

  // ----- What every run keeps -----

  /** In every run, whatever the network does, from the moment an end exists: its logs are never reset,
      the messages it has opened are an in-order prefix of the messages the other end of the same session
      has sealed, and the counters count them. */
  lemma MessagesArriveInOrder(c: Crypto, events: seq<Event>, worlds: seq<World>, i: nat, j: nat, role: Role, id: bytes)
    requires Ideal(c) && Run(c, events, worlds) && i <= j <= |events| && (role, id) in worlds[i].ends
    ensures (role, id) in worlds[j].ends
    ensures var was, end := worlds[i].ends[(role, id)], worlds[j].ends[(role, id)];
            && was.received <= end.received && was.sealed <= end.sealed
            && |end.received| == end.session.receiveSequence && |end.sealed| == end.session.sendSequence
            && (if (Other(role), id) in worlds[j].ends then end.received <= worlds[j].ends[(Other(role), id)].sealed
                else end.received == [])
  {
    EndPersists(c, events, worlds, i, j, role, id);
    RunKeepsInv(c, events, worlds, j);
    var end := worlds[j].ends[(role, id)];
    assert GoodEnd(c, worlds[j], role, id, end) && InOrder(worlds[j], role, id, end);
  }

  /** The nonce under which an end seals next. */
  ghost function SealNonce(w: World, role: Role, id: bytes): nonce24
    requires (role, id) in w.ends
  {
    var s := w.ends[(role, id)].session;
    FrameNonce(s.sendNonceBase, s.sendSequence)
  }

  /** The event is a `seal` at this end that returns a frame. */
  ghost predicate SealsAt(c: Crypto, w: World, e: Event, role: Role, id: bytes) {
    && e.SealAt? && e.role == role && e.id == id && (role, id) in w.ends
    && Seal(c, w.ends[(role, id)].session, e.plaintext).1.Success?
  }

  /** In every run, no two frames that `seal` returned at one end were sealed under the same nonce. */
  lemma NoncesNeverRepeat(c: Crypto, events: seq<Event>, worlds: seq<World>, i: nat, j: nat, role: Role, id: bytes)
    requires Ideal(c) && Run(c, events, worlds) && i < j < |events|
    requires SealsAt(c, worlds[i], events[i], role, id) && SealsAt(c, worlds[j], events[j], role, id)
    ensures SealNonce(worlds[i], role, id) != SealNonce(worlds[j], role, id)
    ensures Seal(c, worlds[i].ends[(role, id)].session, events[i].plaintext).1.value.sequence
         != Seal(c, worlds[j].ends[(role, id)].session, events[j].plaintext).1.value.sequence
  {
    assert LeadsAt(c, events, worlds, i);
    EndPersists(c, events, worlds, i + 1, j, role, id);
    var s, t := worlds[i].ends[(role, id)].session, worlds[j].ends[(role, id)].session;
    assert s.sendSequence < t.sendSequence && s.sendNonceBase == t.sendNonceBase;
    if SealNonce(worlds[i], role, id) == SealNonce(worlds[j], role, id) {
      FrameNonceInjective(s.sendNonceBase, s.sendSequence, t.sendSequence);
    }
    DecimalRoundTrip(s.sendSequence);
    DecimalRoundTrip(t.sendSequence);
  }

  /** In every run, a frame that an end has opened is refused there ever after. */
  lemma ReplayIsRefused(c: Crypto, events: seq<Event>, worlds: seq<World>, i: nat, j: nat, role: Role, id: bytes,
                        frame: Frame, decodes: bool)
    requires Ideal(c) && Run(c, events, worlds) && i < j <= |events|
    requires events[i] == OpenAt(role, id, frame, decodes) && worlds[i + 1] != worlds[i]
    ensures (role, id) in worlds[j].ends
    ensures forall again :: DoOpen(c, worlds[j], role, id, frame, again) == worlds[j]
  {
    assert LeadsAt(c, events, worlds, i);
    EndPersists(c, events, worlds, i + 1, j, role, id);
    var s, t := worlds[i].ends[(role, id)].session, worlds[j].ends[(role, id)].session;
    OpenedSequence(c, worlds[i], role, id, frame, decodes);
    forall again ensures DoOpen(c, worlds[j], role, id, frame, again) == worlds[j] {
      OtherSequenceFails(c, worlds[j], role, id, frame, again, s.receiveSequence);
    }
  }

  lemma OpenedSequence(c: Crypto, w: World, role: Role, id: bytes, frame: Frame, decodes: bool)
    requires (role, id) in w.ends && DoOpen(c, w, role, id, frame, decodes) != w
    ensures var n := w.ends[(role, id)].session.receiveSequence;
            && ParseSequence(frame.sequence) == Some(n)
            && n < DoOpen(c, w, role, id, frame, decodes).ends[(role, id)].session.receiveSequence
  {
  }

  lemma OtherSequenceFails(c: Crypto, w: World, role: Role, id: bytes, frame: Frame, decodes: bool, n: u64)
    requires (role, id) in w.ends && ParseSequence(frame.sequence) == Some(n)
    requires n != w.ends[(role, id)].session.receiveSequence
    ensures DoOpen(c, w, role, id, frame, decodes) == w
  {
  }

  /** In every run, a client that finishes, on any answer at all, agrees with a host session on both
      nonces, both ephemeral keys, the session id and mirrored keys. */
  lemma FinishIsAuthenticated(c: Crypto, events: seq<Event>, w: World, p: Pending, ready: SessionReady)
    requires Ideal(c) && Reaches(c, events, w) && p in w.pending
    requires Finish(c, Verifier(c, w.signed), p, ready).Success?
    ensures var (h, session) := Finish(c, Verifier(c, w.signed), p, ready).value;
            && h.clientNonce == p.clientNonce && h.clientKey == c.publicKey(p.clientSecret)
            && (Host, session.id) in w.ends && w.ends[(Host, session.id)].handshake == h
            && Mirrored(session, w.ends[(Host, session.id)].session)
  {
    ReachableInv(c, events, w);
    FinishMatchesAccept(c, w, p, ready);
  }

  /** In every run, each host session answers a client that started with that nonce and key, and
      each client session keeps a host session with mirrored keys. */
  lemma SessionsArePaired(c: Crypto, events: seq<Event>, w: World, role: Role, id: bytes)
    requires Ideal(c) && Reaches(c, events, w) && (role, id) in w.ends
    ensures var end := w.ends[(role, id)];
            && (end.handshake.clientNonce, end.handshake.clientKey) in w.starts
            && (role.Client? ==> (Host, id) in w.ends && end.handshake == w.ends[(Host, id)].handshake
                                 && Mirrored(end.session, w.ends[(Host, id)].session))
  {
    ReachableInv(c, events, w);
    assert GoodEnd(c, w, role, id, w.ends[(role, id)]);
  }

  // ----- One opening, one session -----

  /** No two client ends come from one start. */
  ghost predicate ClientsDiffer(w: World) {
    forall a: bytes, b: bytes :: (Client, a) in w.ends && (Client, b) in w.ends ==>
      w.ends[(Client, a)].handshake.clientNonce == w.ends[(Client, b)].handshake.clientNonce ==> a == b
  }

  /** No client end is new, and those that are there keep their handshake. */
  ghost predicate KeepsClients(w: World, v: World) {
    forall a: bytes :: (Client, a) in v.ends ==>
      (Client, a) in w.ends && v.ends[(Client, a)].handshake == w.ends[(Client, a)].handshake
  }

  lemma SameClients(w: World, v: World)
    requires ClientsDiffer(w) && KeepsClients(w, v)
    ensures ClientsDiffer(v)
  {
  }

  lemma OnlyFinishAddsClients(c: Crypto, w: World, e: Event)
    requires Allowed(w, e) && !e.ClientFinish?
    ensures KeepsClients(w, Step(c, w, e))
  {
  }

  lemma FinishKeepsClients(c: Crypto, w: World, p: Pending, ready: SessionReady)
    requires Ideal(c) && Inv(c, w) && p in w.pending && ClientsDiffer(w)
    ensures ClientsDiffer(DoFinish(c, w, p, ready))
  {
    if Finish(c, Verifier(c, w.signed), p, ready).Success? {
      FinishMatchesAccept(c, w, p, ready);
      forall a: bytes | (Client, a) in w.ends ensures w.ends[(Client, a)].handshake.clientNonce != p.clientNonce {
        assert GoodEnd(c, w, Client, a, w.ends[(Client, a)]);
      }
    }
  }

  lemma StepKeepsClients(c: Crypto, w: World, e: Event)
    requires Ideal(c) && Inv(c, w) && Allowed(w, e) && ClientsDiffer(w)
    ensures ClientsDiffer(Step(c, w, e))
  {
    if e.ClientFinish? {
      FinishKeepsClients(c, w, e.pending, e.ready);
    } else {
      OnlyFinishAddsClients(c, w, e);
      SameClients(w, Step(c, w, e));
    }
  }

  lemma NextKeepsClients(c: Crypto, events: seq<Event>, worlds: seq<World>, i: nat)
    requires Ideal(c) && Run(c, events, worlds) && i < |events| && ClientsDiffer(worlds[i])
    ensures ClientsDiffer(worlds[i + 1])
  {
    RunKeepsInv(c, events, worlds, i);
    assert LeadsAt(c, events, worlds, i);
    StepKeepsClients(c, worlds[i], events[i]);
  }

  lemma {:induction false} RunKeepsClients(c: Crypto, events: seq<Event>, worlds: seq<World>, i: nat)
    requires Ideal(c) && Run(c, events, worlds) && i <= |events|
    ensures ClientsDiffer(worlds[i])
    decreases i
  {
    if i == 0 {
    } else {
      RunKeepsClients(c, events, worlds, i - 1);
      NextKeepsClients(c, events, worlds, i - 1);
    }
  }

  /** In every run two client sessions with the same client nonce are the same session.  Hence, of all host
      sessions that answer one opening, which the network may have replayed, at most one opens a message. */
  lemma AgreementIsInjective(c: Crypto, events: seq<Event>, w: World, role: Role, a: bytes, b: bytes)
    requires Ideal(c) && Reaches(c, events, w) && (role, a) in w.ends && (role, b) in w.ends
    requires w.ends[(role, a)].handshake.clientNonce == w.ends[(role, b)].handshake.clientNonce
    requires role.Client? || (w.ends[(role, a)].received != [] && w.ends[(role, b)].received != [])
    ensures a == b
  {
    var worlds :| Run(c, events, worlds) && worlds[|events|] == w;
    RunKeepsClients(c, events, worlds, |events|);
    ReachableInv(c, events, w);
    assert InOrder(w, role, a, w.ends[(role, a)]) && InOrder(w, role, b, w.ends[(role, b)]);
  }

  /** In every run two sealed frames of this transport with the same associated data are the same frame:
      key, nonce and message included. */
  lemma SealingsAreUnique(c: Crypto, events: seq<Event>, w: World, r: Sealing, q: Sealing)
    requires Ideal(c) && Reaches(c, events, w) && r in w.sealings && q in w.sealings
    requires r.aad == q.aad && !OfExtension(r)
    ensures r == q
  {
    ReachableInv(c, events, w);
    var r1, i, n :| SealedBy(w, r, r1, i, n);
    var r2, k, m :| SealedBy(w, q, r2, k, m);
    FrameAadInjective(Local, i, SendDirection(r1), n, Local, k, SendDirection(r2), m);
    assert r1 == r2;
  }

  // ----- Delivery works -----

  /** The frame that carries the peer's next message to this end. */
  ghost function NextFrame(c: Crypto, w: World, role: Role, id: bytes): Frame
    requires Awaiting(w, role, id)
  {
    var end, peer := w.ends[(role, id)], w.ends[(Other(role), id)];
    FrameFor(c, peer.session, end.session.receiveSequence, peer.sealed[|end.received|])
  }

  /** The peer has sealed a message that this end has not opened yet. */
  ghost predicate Awaiting(w: World, role: Role, id: bytes) {
    && (role, id) in w.ends && (Other(role), id) in w.ends
    && |w.ends[(role, id)].received| < |w.ends[(Other(role), id)].sealed|
  }

  lemma PeersMirror(w: World, role: Role, id: bytes)
    requires Paired(w) && (role, id) in w.ends && (Other(role), id) in w.ends
    ensures Mirrored(w.ends[(role, id)].session, w.ends[(Other(role), id)].session)
  {
    assert Mirrored(w.ends[(Client, id)].session, w.ends[(Host, id)].session);
  }

  lemma NextFrameReceived(c: Crypto, w: World, role: Role, id: bytes)
    requires Ideal(c) && Inv(c, w) && Awaiting(w, role, id)
    ensures var end, peer := w.ends[(role, id)], w.ends[(Other(role), id)];
            && Received(c, end.session, NextFrame(c, w, role, id))
                 == Success(c.encrypt(end.session.receiveKey, ReceiveNonce(end.session), ReceiveAad(end.session),
                                      peer.sealed[|end.received|]))
  {
    var end, peer := w.ends[(role, id)], w.ends[(Other(role), id)];
    assert GoodEnd(c, w, role, id, end) && GoodEnd(c, w, Other(role), id, peer);
    PeersMirror(w, role, id);
    var n := |end.received|;
    ParseSequenceExact(Decimal(n), n);
    assert Sealable(peer.sealed[n]);
  }

  lemma NextFrameDecrypts(c: Crypto, w: World, role: Role, id: bytes)
    requires Ideal(c) && Inv(c, w) && Awaiting(w, role, id)
    ensures var end, peer := w.ends[(role, id)], w.ends[(Other(role), id)];
            var s, m := end.session, peer.sealed[|end.received|];
            && Decryption(c, w.sealings, s.receiveKey, ReceiveNonce(s), ReceiveAad(s),
                          c.encrypt(s.receiveKey, ReceiveNonce(s), ReceiveAad(s), m)) == Some(m)
  {
    var end, peer := w.ends[(role, id)], w.ends[(Other(role), id)];
    var s, m := end.session, peer.sealed[|end.received|];
    assert GoodEnd(c, w, role, id, end) && GoodEnd(c, w, Other(role), id, peer);
    PeersMirror(w, role, id);
    var r := SealingAt(peer, Other(role), id, |end.received|);
    var ct := c.encrypt(s.receiveKey, ReceiveNonce(s), ReceiveAad(s), m);
    assert Decrypts(c, w.sealings, s.receiveKey, ReceiveNonce(s), ReceiveAad(s), ct, r);
    var p := Decryption(c, w.sealings, s.receiveKey, ReceiveNonce(s), ReceiveAad(s), ct);
    DecryptedIsNext(c, w, role, id, p.value);
  }

  /** In every run, if the network delivers the peer's next frame unchanged and its JSON decodes,
      `open` succeeds and returns exactly the message that was sealed. */
  lemma NextFrameOpens(c: Crypto, events: seq<Event>, w: World, role: Role, id: bytes)
    requires Ideal(c) && Reaches(c, events, w) && Awaiting(w, role, id)
    ensures Inv(c, w) && Allowed(w, OpenAt(role, id, NextFrame(c, w, role, id), true))
    ensures var v := Step(c, w, OpenAt(role, id, NextFrame(c, w, role, id), true));
            && (role, id) in v.ends
            && v.ends[(role, id)].received
                 == w.ends[(role, id)].received + [w.ends[(Other(role), id)].sealed[|w.ends[(role, id)].received|]]
  {
    ReachableInv(c, events, w);
    assert GoodEnd(c, w, role, id, w.ends[(role, id)]);
    assert GoodEnd(c, w, Other(role), id, w.ends[(Other(role), id)]);
    NextFrameReceived(c, w, role, id);
    NextFrameDecrypts(c, w, role, id);
  }

  /** The frame says what the other one says: the same fields, and a ciphertext that decodes alike. */
  ghost predicate SaysTheSame(c: Crypto, f: Frame, g: Frame) {
    && f.protocol == g.protocol && f.messageType == g.messageType && f.sessionId == g.sessionId
    && f.sequence == g.sequence && c.decode64(f.ciphertext) == c.decode64(g.ciphertext)
  }

  lemma OpenedIsNext(c: Crypto, w: World, role: Role, id: bytes, frame: Frame, decodes: bool)
    requires Ideal(c) && Inv(c, w) && (role, id) in w.ends && DoOpen(c, w, role, id, frame, decodes) != w
    ensures Awaiting(w, role, id) && SaysTheSame(c, frame, NextFrame(c, w, role, id))
  {
    var end := w.ends[(role, id)];
    var s := end.session;
    assert GoodEnd(c, w, role, id, end);
    var ciphertext := Received(c, s, frame).value;
    var p := Decryption(c, w.sealings, s.receiveKey, ReceiveNonce(s), ReceiveAad(s), ciphertext);
    DecryptedIsNext(c, w, role, id, p.value);
    ParseSequenceExact(frame.sequence, s.receiveSequence);
    PeersMirror(w, role, id);
    NextFrameFields(c, w, role, id);
  }

  /** The fields of the next frame, in terms of the end that is to open it. */
  lemma NextFrameFields(c: Crypto, w: World, role: Role, id: bytes)
    requires Ideal(c) && Inv(c, w) && Awaiting(w, role, id)
    ensures var end, peer, f := w.ends[(role, id)], w.ends[(Other(role), id)], NextFrame(c, w, role, id);
            var s := end.session;
            && f.protocol == PROTOCOL && f.messageType == SECURE && f.sessionId == s.id
            && f.sequence == Decimal(s.receiveSequence)
            && c.decode64(f.ciphertext)
                 == Some(c.encrypt(s.receiveKey, ReceiveNonce(s), ReceiveAad(s), peer.sealed[|end.received|]))
  {
    assert GoodEnd(c, w, role, id, w.ends[(role, id)]);
    assert GoodEnd(c, w, Other(role), id, w.ends[(Other(role), id)]);
    PeersMirror(w, role, id);
  }

  /** In every run, an end opens exactly the frame that says what its peer's next frame says, in every field,
      if its plaintext decodes and the counter is not exhausted; every other frame leaves the world as it is. */
  lemma OpensExactly(c: Crypto, events: seq<Event>, w: World, role: Role, id: bytes, frame: Frame, decodes: bool)
    requires Ideal(c) && Reaches(c, events, w) && (role, id) in w.ends
    ensures DoOpen(c, w, role, id, frame, decodes) != w
       <==> && Awaiting(w, role, id) && SaysTheSame(c, frame, NextFrame(c, w, role, id)) && decodes
            && w.ends[(role, id)].session.receiveSequence + 1 < U64_LIMIT
  {
    ReachableInv(c, events, w);
    if DoOpen(c, w, role, id, frame, decodes) != w {
      OpenedIsNext(c, w, role, id, frame, decodes);
      OpeningNeeds(c, w, role, id, frame, decodes);
    }
    if && Awaiting(w, role, id) && SaysTheSame(c, frame, NextFrame(c, w, role, id)) && decodes
       && w.ends[(role, id)].session.receiveSequence + 1 < U64_LIMIT
    {
      SameFrameReceived(c, w, role, id, frame);
      SameFrameOpens(c, w, role, id, frame);
    }
  }

  lemma OpeningNeeds(c: Crypto, w: World, role: Role, id: bytes, frame: Frame, decodes: bool)
    requires (role, id) in w.ends && DoOpen(c, w, role, id, frame, decodes) != w
    ensures decodes && w.ends[(role, id)].session.receiveSequence + 1 < U64_LIMIT
  {
  }

  lemma SameFrameReceived(c: Crypto, w: World, role: Role, id: bytes, frame: Frame)
    requires Ideal(c) && Inv(c, w) && Awaiting(w, role, id) && SaysTheSame(c, frame, NextFrame(c, w, role, id))
    ensures Received(c, w.ends[(role, id)].session, frame)
         == Received(c, w.ends[(role, id)].session, NextFrame(c, w, role, id))
  {
  }

  lemma SameFrameOpens(c: Crypto, w: World, role: Role, id: bytes, frame: Frame)
    requires Ideal(c) && Inv(c, w) && Awaiting(w, role, id)
    requires Received(c, w.ends[(role, id)].session, frame)
          == Received(c, w.ends[(role, id)].session, NextFrame(c, w, role, id))
    requires w.ends[(role, id)].session.receiveSequence + 1 < U64_LIMIT
    ensures DoOpen(c, w, role, id, frame, true) != w
  {
    NextFrameReceived(c, w, role, id);
    NextFrameDecrypts(c, w, role, id);
    var v := DoOpen(c, w, role, id, frame, true);
    assert (role, id) in v.ends && |v.ends[(role, id)].received| == |w.ends[(role, id)].received| + 1;
  }

  /** Why a frame is refused, in every run: a field that is not the expected one or a ciphertext of impossible
      size is an invalid frame; anything but the peer's next ciphertext fails authentication; a plaintext
      that does not decode is an invalid message; and at the last counter the sequence is exhausted. */
  lemma RefusalIsExact(c: Crypto, events: seq<Event>, w: World, role: Role, id: bytes, frame: Frame, decodes: bool)
    requires Ideal(c) && Reaches(c, events, w) && (role, id) in w.ends
    ensures var s := w.ends[(role, id)].session;
            var text := c.decode64(frame.ciphertext);
            var expected := && frame.protocol == PROTOCOL && frame.messageType == SECURE && frame.sessionId == id
                            && frame.sequence == Decimal(s.receiveSequence)
                            && text.Some? && 16 < |text.value| <= MAX_PLAINTEXT_BYTES + 16;
            var genuine := Awaiting(w, role, id) && text == c.decode64(NextFrame(c, w, role, id).ciphertext);
            Answer(c, w, role, id, frame, decodes)
              == if !expected then Failure(InvalidFrame)
                 else if !genuine then Failure(Authentication)
                 else if !decodes then Failure(InvalidMessage)
                 else if s.receiveSequence + 1 == U64_LIMIT then Failure(SequenceExhausted)
                 else Success(w.ends[(Other(role), id)].sealed[|w.ends[(role, id)].received|])
  {
    ReachableInv(c, events, w);
    var end := w.ends[(role, id)];
    var s := end.session;
    assert GoodEnd(c, w, role, id, end);
    ParseSequenceExact(frame.sequence, s.receiveSequence);
    if Received(c, s, frame).Success? {
      GenuineExactly(c, w, role, id, Received(c, s, frame).value);
    }
  }

  /** The answer of `open` in this world. */
  ghost function Answer(c: Crypto, w: World, role: Role, id: bytes, frame: Frame, decodes: bool): Result<bytes, Error>
    requires (role, id) in w.ends
  {
    Open(c, w.ends[(role, id)].session, frame, (k, n, a, x) => Decryption(c, w.sealings, k, n, a, x), p => decodes).1
  }

  lemma GenuineExactly(c: Crypto, w: World, role: Role, id: bytes, ciphertext: bytes)
    requires Ideal(c) && Inv(c, w) && (role, id) in w.ends
    ensures var s := w.ends[(role, id)].session;
            var p := Decryption(c, w.sealings, s.receiveKey, ReceiveNonce(s), ReceiveAad(s), ciphertext);
            p == if Awaiting(w, role, id) && Some(ciphertext) == c.decode64(NextFrame(c, w, role, id).ciphertext)
                 then Some(w.ends[(Other(role), id)].sealed[|w.ends[(role, id)].received|]) else None
  {
    var s := w.ends[(role, id)].session;
    var p := Decryption(c, w.sealings, s.receiveKey, ReceiveNonce(s), ReceiveAad(s), ciphertext);
    if p.Some? { DecryptedIsNext(c, w, role, id, p.value); }
    if Awaiting(w, role, id) {
      NextFrameFields(c, w, role, id);
      NextFrameDecrypts(c, w, role, id);
    }
  }

  lemma SealReturns(c: Crypto, w: World, role: Role, id: bytes, plaintext: bytes)
    requires Inv(c, w) && (role, id) in w.ends && Sealable(plaintext) && |w.ends[(role, id)].sealed| + 1 < U64_LIMIT
    ensures var end := w.ends[(role, id)];
            var v := DoSeal(c, w, role, id, plaintext);
            && Seal(c, end.session, plaintext).1
               == Success(FrameFor(c, end.session, end.session.sendSequence, plaintext))
            && |end.sealed| == end.session.sendSequence
            && (role, id) in v.ends && v.ends[(role, id)].sealed == end.sealed + [plaintext]
  {
    assert GoodEnd(c, w, role, id, w.ends[(role, id)]);
  }

  /** In every run, for every message within the limits while the counter lasts, the frame that `seal`
      returned is the one its peer accepts next in every later world in which the peer has opened exactly
      the messages sealed before it. */
  lemma SealedFrameIsNext(c: Crypto, events: seq<Event>, worlds: seq<World>, i: nat, j: nat, role: Role, id: bytes,
                          plaintext: bytes)
    requires Ideal(c) && Run(c, events, worlds) && i < j <= |events|
    requires events[i] == SealAt(Other(role), id, plaintext) && Sealable(plaintext)
    requires (Other(role), id) in worlds[i].ends && |worlds[i].ends[(Other(role), id)].sealed| + 1 < U64_LIMIT
    requires (role, id) in worlds[j].ends
    requires |worlds[j].ends[(role, id)].received| == |worlds[i].ends[(Other(role), id)].sealed|
    ensures Awaiting(worlds[j], role, id)
    ensures Seal(c, worlds[i].ends[(Other(role), id)].session, plaintext).1
            == Success(NextFrame(c, worlds[j], role, id))
  {
    var was := worlds[i].ends[(Other(role), id)];
    StaysSealed(c, events, worlds, i, j, Other(role), id, plaintext);
    CountsReceived(c, events, worlds, j, role, id);
    StillNext(c, was.session, worlds[j], role, id, plaintext);
  }

  lemma StaysSealed(c: Crypto, events: seq<Event>, worlds: seq<World>, i: nat, j: nat, role: Role, id: bytes,
                    plaintext: bytes)
    requires Ideal(c) && Run(c, events, worlds) && i < j <= |events|
    requires events[i] == SealAt(role, id, plaintext) && Sealable(plaintext)
    requires (role, id) in worlds[i].ends && |worlds[i].ends[(role, id)].sealed| + 1 < U64_LIMIT
    ensures (role, id) in worlds[j].ends
    ensures var was, now := worlds[i].ends[(role, id)], worlds[j].ends[(role, id)];
            && Seal(c, was.session, plaintext).1
               == Success(FrameFor(c, was.session, was.session.sendSequence, plaintext))
            && |was.sealed| == was.session.sendSequence < |now.sealed|
            && now.sealed[was.session.sendSequence] == plaintext && SameKeys(was.session, now.session)
  {
    RunKeepsInv(c, events, worlds, i);
    assert LeadsAt(c, events, worlds, i);
    SealReturns(c, worlds[i], role, id, plaintext);
    EndPersists(c, events, worlds, i, i + 1, role, id);
    EndPersists(c, events, worlds, i + 1, j, role, id);
  }

  lemma CountsReceived(c: Crypto, events: seq<Event>, worlds: seq<World>, j: nat, role: Role, id: bytes)
    requires Ideal(c) && Run(c, events, worlds) && j <= |events| && (role, id) in worlds[j].ends
    ensures |worlds[j].ends[(role, id)].received| == worlds[j].ends[(role, id)].session.receiveSequence
  {
    RunKeepsInv(c, events, worlds, j);
    assert GoodEnd(c, worlds[j], role, id, worlds[j].ends[(role, id)]);
  }

  lemma StillNext(c: Crypto, s: Session, w: World, role: Role, id: bytes, plaintext: bytes)
    requires (role, id) in w.ends && (Other(role), id) in w.ends && SameKeys(s, w.ends[(Other(role), id)].session)
    requires var end, peer := w.ends[(role, id)], w.ends[(Other(role), id)];
             && |end.received| == end.session.receiveSequence == s.sendSequence < |peer.sealed|
             && peer.sealed[s.sendSequence] == plaintext
    ensures Awaiting(w, role, id)
    ensures FrameFor(c, s, s.sendSequence, plaintext) == NextFrame(c, w, role, id)
  {
  }

  // ----- Exactly which handshake messages are accepted -----

  /** The one opening that announces this nonce and key. */
  ghost function OpenFor(c: Crypto, nonce: bytes, key: bytes): SessionOpen {
    SessionOpen(protocol := PROTOCOL, messageType := SESSION_OPEN, clientNonce := c.encode64(nonce),
                clientKey := c.encode64(key),
                clientSignature := c.encode64(c.sign(ClientOpenTranscript(nonce, key, c.signingKey))))
  }

  /** The one answer that completes this handshake. */
  ghost function ReadyFor(c: Crypto, h: Handshake): SessionReady {
    var t := SessionTranscript(h);
    SessionReady(protocol := PROTOCOL, messageType := SESSION_READY, clientNonce := c.encode64(h.clientNonce),
                 hostNonce := c.encode64(h.hostNonce), hostKey := c.encode64(h.hostKey),
                 hostSignature := c.encode64(c.sign(t)),
                 sessionId := c.encode64(c.hash(SESSION_ID_DOMAIN + t + c.sign(t))))
  }

  /** The host takes an opening exactly when it is, byte for byte, the one for a nonce and key that the
      identity signed. */
  lemma OpeningIsExact(c: Crypto, signed: set<bytes>, open: SessionOpen, nonce: bytes, key: bytes)
    requires Ideal(c)
    ensures CheckOpen(c, Verifier(c, signed), open) == Success((nonce, key))
       <==> && |nonce| == |key| == 32 && ClientOpenTranscript(nonce, key, c.signingKey) in signed
            && open == OpenFor(c, nonce, key)
  {
  }

  /** The host's answer to it is the one for their handshake, and its session holds what both derive. */
  lemma AcceptIsExact(c: Crypto, signed: set<bytes>, open: SessionOpen, hostNonce: bytes, hostSecret: bytes,
                      nonce: bytes, key: bytes)
    requires Ideal(c) && CheckOpen(c, Verifier(c, signed), open) == Success((nonce, key))
    ensures var h := Handshake(nonce, key, hostNonce, c.publicKey(hostSecret), c.signingKey);
            var shared := c.agree(hostSecret, key);
            Accept(c, Verifier(c, signed), open, hostNonce, hostSecret)
              == if ZeroShared(shared) then Failure(InvalidHandshake)
                 else Success((ReadyFor(c, h),
                               FromMaterial(ReadyFor(c, h).sessionId, c.derive(shared, SessionTranscript(h)), Host)))
  {
    OpeningIsExact(c, signed, open, nonce, key);
  }

  /** The client takes an answer exactly when it is, byte for byte, the one for a handshake with its own nonce
      and key that the identity signed, with a shared secret that is not zero. */
  lemma FinishIsExact(c: Crypto, signed: set<bytes>, p: Pending, ready: SessionReady, h: Handshake, s: Session)
    requires Ideal(c)
    ensures Finish(c, Verifier(c, signed), p, ready) == Success((h, s))
       <==> && |h.hostNonce| == |h.hostKey| == 32 && h.clientNonce == p.clientNonce
            && h.clientKey == c.publicKey(p.clientSecret) && h.signingKey == c.signingKey
            && SessionTranscript(h) in signed && ready == ReadyFor(c, h)
            && !ZeroShared(c.agree(p.clientSecret, h.hostKey))
            && s == FromMaterial(ready.sessionId,
                                 c.derive(c.agree(p.clientSecret, h.hostKey), SessionTranscript(h)), Client)
  {
  }

  // ----- Handshakes complete -----

  /** An undisturbed handshake completes: the client accepts the host's answer to its own opening, with
      any check that accepts the two signatures made. */
  lemma UndisturbedHandshakeCompletes(c: Crypto, verify: Verify, p: Pending, hostNonce: bytes, hostSecret: bytes)
    requires Ideal(c) && |p.clientNonce| == |hostNonce| == 32
    requires var t := ClientOpenTranscript(p.clientNonce, c.publicKey(p.clientSecret), c.signingKey);
             verify(t, c.sign(t))
    requires !ZeroShared(c.agree(hostSecret, c.publicKey(p.clientSecret)))
    ensures var h := HostHandshake(c, (p.clientNonce, c.publicKey(p.clientSecret)), hostNonce, hostSecret);
            var accepted := Accept(c, verify, Start(c, p), hostNonce, hostSecret);
            && CheckOpen(c, verify, Start(c, p)) == Success((p.clientNonce, c.publicKey(p.clientSecret)))
            && accepted.Success? && accepted == AcceptWith(c, Start(c, p), h, hostSecret)
            && accepted.value.1.id == IdOf(c, h)
            && forall later: Verify :: later(SessionTranscript(h), c.sign(SessionTranscript(h))) ==>
                 var finished := Finish(c, later, p, accepted.value.0);
                 finished.Success? && finished.value.0 == h && finished.value.1.id == IdOf(c, h)
                 && Mirrored(finished.value.1, accepted.value.1)
  {
    var open := Start(c, p);
    var key := c.publicKey(p.clientSecret);
    assert CheckOpen(c, verify, open) == Success((p.clientNonce, key));
    assert c.agree(p.clientSecret, c.publicKey(hostSecret)) == c.agree(hostSecret, key);
  }

  /** From any world, starting, accepting that opening and finishing on that answer leads to a world with
      both ends of one session, holding mirrored material, unless the shared secret is zero. */
  lemma HandshakeReachesBothEnds(c: Crypto, w: World, p: Pending, hostNonce: bytes, hostSecret: bytes)
    returns (ready: SessionReady, id: bytes)
    requires Ideal(c) && |p.clientNonce| == |hostNonce| == 32 && p.clientNonce !in w.clientNonces
             && hostNonce !in w.hostNonces
    requires !ZeroShared(c.agree(hostSecret, c.publicKey(p.clientSecret)))
    ensures Allowed(w, ClientStart(p.clientNonce, p.clientSecret))
    ensures var w1 := Step(c, w, ClientStart(p.clientNonce, p.clientSecret));
            && Allowed(w1, HostAccept(Start(c, p), hostNonce, hostSecret))
            && var w2 := Step(c, w1, HostAccept(Start(c, p), hostNonce, hostSecret));
            && Allowed(w2, ClientFinish(p, ready))
            && var w3 := Step(c, w2, ClientFinish(p, ready));
            && (Host, id) in w3.ends && (Client, id) in w3.ends
            && w3.ends[(Host, id)].handshake == w3.ends[(Client, id)].handshake
                 == HostHandshake(c, (p.clientNonce, c.publicKey(p.clientSecret)), hostNonce, hostSecret)
            && Mirrored(w3.ends[(Client, id)].session, w3.ends[(Host, id)].session)
  {
    var w1 := Step(c, w, ClientStart(p.clientNonce, p.clientSecret));
    UndisturbedHandshakeCompletes(c, Verifier(c, w1.signed), p, hostNonce, hostSecret);
    var accepted := Accept(c, Verifier(c, w1.signed), Start(c, p), hostNonce, hostSecret);
    ready, id := accepted.value.0, accepted.value.1.id;
    var w2 := Step(c, w1, HostAccept(Start(c, p), hostNonce, hostSecret));
    var h := HostHandshake(c, (p.clientNonce, c.publicKey(p.clientSecret)), hostNonce, hostSecret);
    assert SessionTranscript(h) in w2.signed;
    assert Verifier(c, w2.signed)(SessionTranscript(h), c.sign(SessionTranscript(h)));
  }

  /** With a zero shared secret the host refuses, and no session comes about. */
  lemma ZeroSecretStopsHandshake(c: Crypto, w: World, p: Pending, hostNonce: bytes, hostSecret: bytes)
    requires Ideal(c) && Allowed(w, HostAccept(Start(c, p), hostNonce, hostSecret))
    requires ZeroShared(c.agree(hostSecret, c.publicKey(p.clientSecret)))
    ensures Step(c, w, HostAccept(Start(c, p), hostNonce, hostSecret)).ends == w.ends
  {
    var key := c.publicKey(p.clientSecret);
    assert DecodeExact(c, Start(c, p).clientKey, 32) == Some(key);
  }

  lemma ReachesNext(c: Crypto, events: seq<Event>, w: World, e: Event)
    requires Ideal(c) && Reaches(c, events, w) && Allowed(w, e)
    ensures Reaches(c, events + [e], Step(c, w, e))
  {
    var worlds :| Run(c, events, worlds) && worlds[|events|] == w;
    var more, next := worlds + [Step(c, w, e)], events + [e];
    forall i: nat | i < |next| ensures LeadsAt(c, next, more, i) {
      if i < |events| { assert LeadsAt(c, events, worlds, i); }
    }
    assert Run(c, next, more);
  }

  /** Hence every run can be continued to one in which both ends of a new session exist. */
  lemma EveryRunCanOpenASession(c: Crypto, events: seq<Event>, w: World, p: Pending, hostNonce: bytes,
                                hostSecret: bytes)
    returns (more: seq<Event>, v: World, id: bytes)
    requires Ideal(c) && Reaches(c, events, w)
    requires |p.clientNonce| == |hostNonce| == 32 && p.clientNonce !in w.clientNonces && hostNonce !in w.hostNonces
    requires !ZeroShared(c.agree(hostSecret, c.publicKey(p.clientSecret)))
    ensures Reaches(c, events + more, v) && (Host, id) in v.ends && (Client, id) in v.ends
    ensures Mirrored(v.ends[(Client, id)].session, v.ends[(Host, id)].session)
  {
    var ready: SessionReady;
    ready, id := HandshakeReachesBothEnds(c, w, p, hostNonce, hostSecret);
    var e1, e2 := ClientStart(p.clientNonce, p.clientSecret), HostAccept(Start(c, p), hostNonce, hostSecret);
    var e3 := ClientFinish(p, ready);
    var w1 := Step(c, w, e1);
    var w2 := Step(c, w1, e2);
    ReachesNext(c, events, w, e1);
    ReachesNext(c, events + [e1], w1, e2);
    ReachesNext(c, events + [e1] + [e2], w2, e3);
    more, v := [e1, e2, e3], Step(c, w2, e3);
    assert events + [e1] + [e2] + [e3] == events + more;
  }
}
