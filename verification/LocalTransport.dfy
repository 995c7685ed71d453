/** The mutually authenticated local transport (`local_transport.rs`): handshake and directional
    sealed frames.

    Cryptography is a record of functions.  Random bytes, the signature check, decryption and the
    JSON decoding of a plaintext are arguments, so nothing here depends on what they compute.
 */
module LocalTransport {
  import opened Bytes
  import opened Decimals
  import opened WireFormats

  const PROTOCOL := Ascii("palladin.browser-host-ipc.v1")
  const SESSION_OPEN := Ascii("session.open")
  const SESSION_READY := Ascii("session.ready")
  const SECURE := Ascii("secure")
  const MAX_PLAINTEXT_BYTES := 768 * 1024

  datatype Error = InvalidHandshake | InvalidSignature | InvalidMessage | InvalidFrame
                 | Authentication | SequenceExhausted

  /** X25519, SHA-256, HKDF, Ed25519 signing with the durable host identity, the AEAD and URL-safe
      Base64. */
  datatype Crypto = Crypto(
    signingKey: bytes,
    sign: bytes -> bytes,
    publicKey: bytes -> bytes,
    agree: (bytes, bytes) -> bytes,
    hash: bytes -> bytes,
    derive: (bytes, bytes) -> material,
    encrypt: (bytes, bytes, bytes, bytes) -> bytes,
    encode64: bytes -> bytes,
    decode64: bytes -> Option<bytes>)

  // ----- Sessions -----

  datatype Role = Host | Client

  function SendDirection(role: Role): Direction {
    match role case Host => FromHost case Client => ToHost
  }

  function Other(role: Role): Role {
    match role case Host => Client case Client => Host
  }

  datatype Frame = Frame(protocol: bytes, messageType: bytes, sessionId: bytes, sequence: string, ciphertext: bytes)

  datatype Session = Session(
    id: bytes,
    sendKey: bytes, receiveKey: bytes,
    sendNonceBase: nonce24, receiveNonceBase: nonce24,
    sendDirection: Direction, receiveDirection: Direction,
    sendSequence: u64, receiveSequence: u64)

  /** The 112 derived bytes: two keys and two nonce bases. */
  type material = b: bytes | |b| == 112 witness seq(112, i => 0)

  /** `from_material`: which slice serves which purpose. */
  function FromMaterial(id: bytes, m: material, role: Role): (s: Session)
    ensures s.id == id && s.sendSequence == s.receiveSequence == 0
    ensures s.sendDirection == SendDirection(role) && s.receiveDirection == SendDirection(Other(role))
    ensures m == if role.Host? then s.sendKey + s.receiveKey + s.sendNonceBase + s.receiveNonceBase
                 else s.receiveKey + s.sendKey + s.receiveNonceBase + s.sendNonceBase
    ensures |s.sendKey| == |s.receiveKey| == 32
  {
    match role
    case Host =>
      Session(id, m[0..32], m[32..64], m[64..88], m[88..112], FromHost, ToHost, 0, 0)
    case Client =>
      Session(id, m[32..64], m[0..32], m[88..112], m[64..88], ToHost, FromHost, 0, 0)
  }

  /** One end's sending side is the other end's receiving side. */
  ghost predicate Mirrored(a: Session, b: Session) {
    && a.id == b.id
    && a.sendKey == b.receiveKey && a.receiveKey == b.sendKey
    && a.sendNonceBase == b.receiveNonceBase && a.receiveNonceBase == b.sendNonceBase
    && a.sendDirection == b.receiveDirection && a.receiveDirection == b.sendDirection
  }

  predicate Sealable(plaintext: bytes) {
    0 < |plaintext| <= MAX_PLAINTEXT_BYTES
  }

  /** The frame that carries `plaintext` under counter `n`. */
  function FrameFor(c: Crypto, s: Session, n: u64, plaintext: bytes): Frame
  {
    var ciphertext := c.encrypt(s.sendKey, FrameNonce(s.sendNonceBase, n),
                                FrameAad(Local, s.id, s.sendDirection, n), plaintext);
    Frame(PROTOCOL, SECURE, s.id, Decimal(n), c.encode64(ciphertext))
  }

  /** `seal`, with the message already serialised.  The counter is checked after encrypting, and a
      frame sealed under an exhausted counter is never returned. */
  function Seal(c: Crypto, s: Session, plaintext: bytes): (r: (Session, Result<Frame, Error>))
    ensures r.1.Success? <==> Sealable(plaintext) && s.sendSequence + 1 < U64_LIMIT
    ensures r.1.Failure? ==> r.0 == s
  {
    if !Sealable(plaintext) then (s, Failure(InvalidMessage))
    else if s.sendSequence + 1 == U64_LIMIT then (s, Failure(SequenceExhausted))
    else (s.(sendSequence := s.sendSequence + 1), Success(FrameFor(c, s, s.sendSequence, plaintext)))
  }

  /** The checks of `open` up to decryption: the ciphertext to decrypt, if all of them pass. */
  function Received(c: Crypto, s: Session, f: Frame): Result<bytes, Error> {
    if || f.protocol != PROTOCOL || f.messageType != SECURE || f.sessionId != s.id
       || ParseSequence(f.sequence) != Some(s.receiveSequence) then Failure(InvalidFrame)
    else
      match c.decode64(f.ciphertext)
      case None => Failure(InvalidFrame)
      case Some(ciphertext) =>
        if |ciphertext| <= 16 || |ciphertext| > MAX_PLAINTEXT_BYTES + 16 then Failure(InvalidFrame)
        else Success(ciphertext)
  }

  /** The rest of `open`, given what decryption answered and whether the plaintext decodes. */
  function Accepted(s: Session, decrypted: Option<bytes>, decodes: bool): (Session, Result<bytes, Error>) {
    match decrypted
    case None => (s, Failure(Authentication))
    case Some(plaintext) =>
      if !decodes then (s, Failure(InvalidMessage))
      else if s.receiveSequence + 1 == U64_LIMIT then (s, Failure(SequenceExhausted))
      else (s.(receiveSequence := s.receiveSequence + 1), Success(plaintext))
  }

  /** The nonce and the associated data under which the next incoming frame is decrypted. */
  function ReceiveNonce(s: Session): bytes
  {
    FrameNonce(s.receiveNonceBase, s.receiveSequence)
  }

  function ReceiveAad(s: Session): bytes {
    FrameAad(Local, s.id, s.receiveDirection, s.receiveSequence)
  }

  type Decrypt = (bytes, bytes, bytes, bytes) -> Option<bytes>

  function Open(c: Crypto, s: Session, f: Frame, decrypt: Decrypt, decodes: bytes -> bool)
    : (r: (Session, Result<bytes, Error>))
    ensures r.1.Failure? ==> r.0 == s
    ensures r.1.Success? ==> s.receiveSequence + 1 < U64_LIMIT && r.0 == s.(receiveSequence := s.receiveSequence + 1)
  {
    match Received(c, s, f)
    case Failure(e) => (s, Failure(e))
    case Success(ciphertext) =>
      var decrypted := decrypt(s.receiveKey, ReceiveNonce(s), ReceiveAad(s), ciphertext);
      Accepted(s, decrypted, decrypted.Some? && decodes(decrypted.value))
  }

  /** A frame that was opened is refused at every other counter, whatever the keys: no replay. */
  lemma NoFrameOpensTwice(c: Crypto, s: Session, t: Session, f: Frame, decrypt: Decrypt, decodes: bytes -> bool)
    requires Open(c, s, f, decrypt, decodes).1.Success? && t.receiveSequence != s.receiveSequence
    ensures Open(c, t, f, decrypt, decodes) == (t, Failure(InvalidFrame)) && f.sequence == Decimal(s.receiveSequence)
  {
    ParseSequenceExact(f.sequence, s.receiveSequence);
  }

  /** The session object; its methods update the two counters in place. */
  class LocalSecureSession {
    const crypto: Crypto
    const sessionId: bytes
    const sendKey: bytes
    const receiveKey: bytes
    const sendNonceBase: nonce24
    const receiveNonceBase: nonce24
    const sendDirection: Direction
    const receiveDirection: Direction
    var sendSequence: u64
    var receiveSequence: u64

    ghost function View(): Session
      reads this
    {
      Session(sessionId, sendKey, receiveKey, sendNonceBase, receiveNonceBase,
              sendDirection, receiveDirection, sendSequence, receiveSequence)
    }

    constructor (crypto: Crypto, id: bytes, m: material, role: Role)
      ensures this.crypto == crypto && View() == FromMaterial(id, m, role)
    {
      this.crypto, sessionId := crypto, id;
      match role {
        case Host =>
          sendKey, receiveKey := m[0..32], m[32..64];
          sendNonceBase, receiveNonceBase := m[64..88], m[88..112];
          sendDirection, receiveDirection := FromHost, ToHost;
        case Client =>
          sendKey, receiveKey := m[32..64], m[0..32];
          sendNonceBase, receiveNonceBase := m[88..112], m[64..88];
          sendDirection, receiveDirection := ToHost, FromHost;
      }
      sendSequence, receiveSequence := 0, 0;
    }

    method SealMessage(plaintext: bytes) returns (r: Result<Frame, Error>)
      modifies this`sendSequence
      ensures (View(), r) == Seal(crypto, old(View()), plaintext)
    {
      if |plaintext| == 0 || |plaintext| > MAX_PLAINTEXT_BYTES { return Failure(InvalidMessage); }
      var sequence := sendSequence;
      var ciphertext := crypto.encrypt(sendKey, FrameNonce(sendNonceBase, sequence),
                                       FrameAad(Local, sessionId, sendDirection, sequence), plaintext);
      if sendSequence + 1 == U64_LIMIT { return Failure(SequenceExhausted); }
      sendSequence := sendSequence + 1;
      r := Success(Frame(PROTOCOL, SECURE, sessionId, Decimal(sequence), crypto.encode64(ciphertext)));
    }

    method OpenFrame(f: Frame, decrypt: Decrypt, decodes: bytes -> bool) returns (r: Result<bytes, Error>)
      modifies this`receiveSequence
      ensures (View(), r) == Open(crypto, old(View()), f, decrypt, decodes)
    {
      if f.protocol != PROTOCOL || f.messageType != SECURE || f.sessionId != sessionId {
        return Failure(InvalidFrame);
      }
      var parsed := ParseSequence(f.sequence);
      if parsed != Some(receiveSequence) { return Failure(InvalidFrame); }
      var ciphertext := crypto.decode64(f.ciphertext);
      if ciphertext.None? || |ciphertext.value| <= 16 || |ciphertext.value| > MAX_PLAINTEXT_BYTES + 16 {
        return Failure(InvalidFrame);
      }
      var plaintext := decrypt(receiveKey, FrameNonce(receiveNonceBase, receiveSequence),
                               FrameAad(Local, sessionId, receiveDirection, receiveSequence), ciphertext.value);
      if plaintext.None? { return Failure(Authentication); }
      if !decodes(plaintext.value) { return Failure(InvalidMessage); }
      if receiveSequence + 1 == U64_LIMIT { return Failure(SequenceExhausted); }
      receiveSequence := receiveSequence + 1;
      r := Success(plaintext.value);
    }
  }

  // ----- Handshake -----

  datatype SessionOpen = SessionOpen(protocol: bytes, messageType: bytes, clientNonce: bytes,
                                     clientKey: bytes, clientSignature: bytes)
  datatype SessionReady = SessionReady(protocol: bytes, messageType: bytes, clientNonce: bytes, hostNonce: bytes,
                                       hostKey: bytes, hostSignature: bytes, sessionId: bytes)

  /** The client's state between `start` and `finish`. */
  datatype Pending = Pending(clientNonce: bytes, clientSecret: bytes)

  type Verify = (bytes, bytes) -> bool

  /** `decode_exact`: canonical Base64 of exactly `n` bytes. */
  function DecodeExact(c: Crypto, text: bytes, n: nat): Option<bytes> {
    match c.decode64(text)
    case None => None
    case Some(value) => if c.encode64(value) == text && |value| == n then Some(value) else None
  }

  function SessionId(c: Crypto, transcript: bytes, signature: bytes): bytes {
    c.encode64(c.hash(SESSION_ID_DOMAIN + transcript + signature))
  }

  predicate ZeroShared(shared: bytes) {
    forall i :: 0 <= i < |shared| ==> shared[i] == 0
  }

  function Start(c: Crypto, p: Pending): SessionOpen {
    var key := c.publicKey(p.clientSecret);
    SessionOpen(PROTOCOL, SESSION_OPEN, c.encode64(p.clientNonce), c.encode64(key),
                c.encode64(c.sign(ClientOpenTranscript(p.clientNonce, key, c.signingKey))))
  }

  /** The first half of `accept`: the client's nonce and key, once its signature verifies. */
  function CheckOpen(c: Crypto, verify: Verify, open: SessionOpen): (r: Result<(bytes, bytes), Error>)
    ensures r.Success? ==> |r.value.0| == |r.value.1| == 32
  {
    if open.protocol != PROTOCOL || open.messageType != SESSION_OPEN then Failure(InvalidHandshake)
    else
      match (DecodeExact(c, open.clientNonce, 32), DecodeExact(c, open.clientKey, 32),
             DecodeExact(c, open.clientSignature, 64))
      case (Some(nonce), Some(key), Some(signature)) =>
        if verify(ClientOpenTranscript(nonce, key, c.signingKey), signature) then Success((nonce, key))
        else Failure(InvalidSignature)
      case _ => Failure(InvalidHandshake)
  }

  /** The second half: sign the session transcript, derive the keys, answer. */
  function AcceptWith(c: Crypto, open: SessionOpen, h: Handshake, hostSecret: bytes)
    : Result<(SessionReady, Session), Error>
  {
    var transcript := SessionTranscript(h);
    var signature := c.sign(transcript);
    var id := SessionId(c, transcript, signature);
    var shared := c.agree(hostSecret, h.clientKey);
    if ZeroShared(shared) then Failure(InvalidHandshake)
    else Success((SessionReady(PROTOCOL, SESSION_READY, open.clientNonce, c.encode64(h.hostNonce),
                               c.encode64(h.hostKey), c.encode64(signature), id),
                  FromMaterial(id, c.derive(shared, transcript), Host)))
  }

  function HostHandshake(c: Crypto, client: (bytes, bytes), hostNonce: bytes, hostSecret: bytes): Handshake {
    Handshake(client.0, client.1, hostNonce, c.publicKey(hostSecret), c.signingKey)
  }

  /** `accept_local_client_with_material` */
  function Accept(c: Crypto, verify: Verify, open: SessionOpen, hostNonce: bytes, hostSecret: bytes)
    : Result<(SessionReady, Session), Error>
  {
    match CheckOpen(c, verify, open)
    case Failure(e) => Failure(e)
    case Success(client) => AcceptWith(c, open, HostHandshake(c, client, hostNonce, hostSecret), hostSecret)
  }

  /** `finish` consumes the pending handshake; it reports the handshake it agreed to. */
  function Finish(c: Crypto, verify: Verify, p: Pending, ready: SessionReady): (r: Result<(Handshake, Session), Error>)
  {
    if ready.protocol != PROTOCOL || ready.messageType != SESSION_READY
      || ready.clientNonce != c.encode64(p.clientNonce)
    then Failure(InvalidHandshake)
    else
      match (DecodeExact(c, ready.hostNonce, 32), DecodeExact(c, ready.hostKey, 32),
             DecodeExact(c, ready.hostSignature, 64))
      case (Some(nonce), Some(key), Some(signature)) =>
        var h := Handshake(p.clientNonce, c.publicKey(p.clientSecret), nonce, key, c.signingKey);
        var transcript := SessionTranscript(h);
        if !verify(transcript, signature) then Failure(InvalidSignature)
        else if ready.sessionId != SessionId(c, transcript, signature) then Failure(InvalidHandshake)
        else
          var shared := c.agree(p.clientSecret, key);
          if ZeroShared(shared) then Failure(InvalidHandshake)
          else Success((h, FromMaterial(ready.sessionId, c.derive(shared, transcript), Client)))
      case _ => Failure(InvalidHandshake)
  }
}
