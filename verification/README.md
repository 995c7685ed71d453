# Palladin runtime: verified models

Palladin hands credentials to command-line tools and browsers without showing them. This project
models the parts of its runtime where that promise depends on a protocol, a stream transformer, a
codec or a scheduler, and proves what every run of them keeps.

| module | what it models |
|---|---|
| `SessionRuns`, `SessionWorld`, `LocalTransport`, `WireFormats` | the mutually authenticated transport between a client and the browser host: signed ephemeral handshake, directional sealed frames with exact counters, transcripts, nonces and associated data. The network is arbitrary |
| `OutputMask`, `SecretOrder` | the chunked masking of a child process's output, and the order in which several secrets are masked |
| `LiveLogin` | the multi-stage login flow on a pinned origin |
| `WindowsArguments` | command-line quoting and the Microsoft C runtime's splitting rules |
| `Base32`, `Base32Coders` | the Base32 coders whose accumulator wraps at 32 bits, the masked coder, and the canonical form check |
| `VersionPolicy`, `ManifestReader` | the signed release manifest: validation, canonical text, choice of an artifact, and a reader that goes by key names |
| `FrameChannels`, `FrameAnswers` | the incremental frame channels and the length-prefixed framing |
| `GrantWait`, `GrantReports` | the wait loop for a pending grant, the second form of its schedule, and what the loop reports on the way |
| `RuntimeCache`, `LeaseLifetimes` | the runtime cache shared by many launchers: leases, hand-off to the child, collection |
| `ElfInterpreter` | detection of an executable's C library |
| `InjectForms`, `FormSubmissions` | acceptance of field values, the fill-and-submit loop with its clean-up, and what the page receives from it |
| `Bytes`, `Decimals` | bytes, fixed-width integers, small result types, decimal text |

`dafny verify dfyconfig.toml` checks everything.

Code that updates fields or buffers is a class or a method with loops, proved against a function;
the theorems are about that function, over every input, every run or every reachable state.

## What is assumed

- Cryptography is ideal and abstract (`SessionWorld.Ideal`): the hash is injective, key agreement
  commutes, a signature verifies only if the shared identity signed that message, a ciphertext
  decrypts only to a plaintext sealed under the same key, nonce and associated data. Random nonces are
  fresh. Keys are not assumed distinct. `SessionWorld.IdealExists` shows that the laws have a model.
- Every client and host in `SessionWorld` holds the same durable identity, as in the source, where the
  client handshake signs with it too. The identity also signs extension handshakes, and extension frames
  are sealed under any key and nonce, at any time.
- In `RuntimeCache` a collection pass is one step, random lease ids are fresh, a running process never
  looks dead to a collector, a process id is not reused while an unreleased launch names it, and a hand-off
  starts while the process that the current lease names is running.
- The wall clock, the backend's answers, cancellation, page behaviour, URL and JSON parsing, SHA-256
  and upper-casing are arguments, so every theorem holds for all of them.

## What the proofs found

- Masking is safe for more secrets than those without a star: a secret may hold stars as long as it
  neither starts nor ends with one and holds no triple of stars. For one secret this condition is exact
  (`HiddenExactlyWhenStarSafe`). Chunking can change the result exactly for the secrets named in
  `ChunkingIgnoredExactly`.
- Masking the longest secret first, as the source does, masks a secret that contains others as a whole in any
  complete text (`WholeSecretIsMasked`), but not in the stream: a chunk that ends inside a password, behind the
  user name it begins with, shows the password's end (`PasswordEndShows`). A secret alone on the stream is one
  mask under every chunking exactly when no secret ends before its last character (`WholeInStreamExactly`).
  Where two secrets overlap, the end of the second stays (`OverlapLeavesTheEnd`).
- The program path at the front of a Windows command line is quoted like an argument but parsed by
  other rules: the round trip holds exactly for paths without a quote that do not end in a backslash
  while needing quotes (`CommandLineRoundTrip`; `FinalBackslashIsDoubled` is a path that changes).
- A frame channel that has failed keeps appending incoming bytes: it holds exactly what arrived after the
  first failure (`FailedChannelKeepsLaterBytes`), so its buffer is within the limit exactly when that is
  (`BufferIsBoundedExactly`). When a channel fails is `ChannelFailsExactly`, for every sequence of events.
- A collection pass of another launcher between installing a cache entry and leasing it can remove the
  entry (`PassBeforeLeaseLosesEntry`). The launch has its entry exactly when no pass in between removed
  it (`LaunchHasItsEntryExactly`).
- The hand-off can leave an unreleased launch without a lease: if the child has already exited, a pass deletes
  its lease, and the launcher deletes its own (`HandOffCanLoseLease`). A lease is in place exactly as long as
  no pass has met it while its process looked dead (`LeaseIsThereExactly`), so never lost while it runs.
- A form field whose fill itself fails is not cleared (`FailedFillIsNotCleared` is such a run). A field
  is cleared exactly when it is sensitive and one of its fills succeeded (`ClearedExactly`).
- What the .NET Base32 decoder accepts, the other one accepts with the same bytes, except where .NET trimmed
  a next-line character (`DecodersAgreeExactly`; `NextLineTellsDecodersApart` is such an input).

## Model

| member | source | states |
|---|---|---|
| `SessionRuns.MessagesArriveInOrder` | runtime/crates/palladin-browser-bridge/src/local_transport.rs:278-350 | In every run over a network that drops, replays, reorders and forges, from the moment an end exists: its logs are never reset, what it opened is an in-order prefix of what its peer sealed, and both counters count exactly these messages |
| `SessionRuns.EndPersists` | runtime/crates/palladin-browser-bridge/src/local_transport.rs:230-350 | In every run an end stays once it is there: same handshake and keys, logs only extended, counters never back |
| `SessionRuns.ReplayIsRefused` | runtime/crates/palladin-browser-bridge/src/local_transport.rs:312-350 | In every run a frame that an end has opened is refused there ever after, and changes nothing |
| `SessionRuns.FinishIsAuthenticated` | runtime/crates/palladin-browser-bridge/src/local_transport.rs:111-154 | In every run a client that finishes, on any answer, agrees with a host session on both nonces, both ephemeral keys, the session id and mirrored send and receive material |
| `SessionRuns.SessionsArePaired` | runtime/crates/palladin-browser-bridge/src/local_transport.rs:111-228 | In every run each host session answers a client that started with that nonce and key, and each client session keeps its host session with mirrored material |
| `SessionRuns.AgreementIsInjective` | runtime/crates/palladin-browser-bridge/src/local_transport.rs:111-228 | In every run two client sessions with one client nonce are one session; so of all host sessions that answer one opening, replayed or not, at most one opens a message |
| `SessionRuns.SealingsAreUnique` | runtime/crates/palladin-browser-bridge/src/local_transport.rs:278-310 | In every run associated data determines the sealed frame: key, nonce and message |
| `SessionRuns.NoncesNeverRepeat` | runtime/crates/palladin-browser-bridge/src/local_transport.rs:278-310 | In every run any two seals at one end that return frames, up to counter exhaustion, use different nonces and sequence texts |
| `SessionWorld.StepKeepsInv` | runtime/crates/palladin-browser-bridge/src/local_transport.rs:111-350 | Each start, accept, finish, seal and open, on arbitrary incoming values, keeps the protocol invariant |
| `SessionWorld.FinishMatchesAccept` | runtime/crates/palladin-browser-bridge/src/local_transport.rs:111-228 | A successful finish belongs to a signed accept of the same handshake |
| `SessionWorld.DecryptedIsNext` | runtime/crates/palladin-browser-bridge/src/local_transport.rs:312-350 | Whatever decrypts at an end is the next message that its peer sealed for it |
| `SessionWorld.LocalIsNotExtension` | runtime/crates/palladin-browser-bridge/src/secure_transport.rs:424-433 | No extension frame, whatever its key, carries the associated data that a local end expects |
| `SessionRuns.NextFrameOpens` | runtime/crates/palladin-browser-bridge/src/local_transport.rs:312-350 | If the peer's next frame arrives unchanged, opening it succeeds with exactly the sealed message |
| `SessionRuns.OpensExactly` | runtime/crates/palladin-browser-bridge/src/local_transport.rs:312-350 | In every run an end opens exactly the frames that agree with its peer's next frame in protocol, type, session id, sequence text and decoded ciphertext, if the plaintext decodes and the counter is not exhausted; every other frame leaves the world as it is |
| `SessionRuns.RefusalIsExact` | runtime/crates/palladin-browser-bridge/src/local_transport.rs:312-350 | In every run the answer to any frame: an invalid frame for a wrong field or size, an authentication error for any ciphertext but the peer's next, an invalid message, exhaustion, or the sealed message |
| `SessionRuns.OpeningIsExact` | runtime/crates/palladin-browser-bridge/src/local_transport.rs:170-195 | The host takes an opening exactly when it is, byte for byte, the one for a nonce and key that the identity signed |
| `SessionRuns.AcceptIsExact` | runtime/crates/palladin-browser-bridge/src/local_transport.rs:170-228 | Its answer is the one for the handshake of both ends, and its session is made of the material they derive |
| `SessionRuns.FinishIsExact` | runtime/crates/palladin-browser-bridge/src/local_transport.rs:111-154 | The client takes an answer exactly when it is, byte for byte, the one for a signed handshake with its own nonce and key and a shared secret that is not zero |
| `SessionRuns.SealedFrameIsNext` | runtime/crates/palladin-browser-bridge/src/local_transport.rs:278-310 | In every run, for every message within the size limits while the counter lasts, the frame that seal returns is the one its peer accepts next in every later world in which the peer has opened exactly the messages before it |
| `SessionRuns.HandshakeReachesBothEnds` | runtime/crates/palladin-browser-bridge/src/local_transport.rs:74-228 | From any world, start, accept of that opening and finish on that answer lead to both ends of one session with the same handshake and mirrored material, unless the shared secret is zero |
| `SessionRuns.EveryRunCanOpenASession` | runtime/crates/palladin-browser-bridge/src/local_transport.rs:74-228 | Every run can be continued to one that holds both ends of a new session |
| `SessionRuns.ZeroSecretStopsHandshake` | runtime/crates/palladin-browser-bridge/src/local_transport.rs:450-456 | With a zero shared secret the host refuses and no session comes about |
| `SessionRuns.UndisturbedHandshakeCompletes` | runtime/crates/palladin-browser-bridge/src/local_transport.rs:111-228 | The client accepts the host's answer to its own opening under any check that accepts the two signatures made |
| `SessionWorld.IdInjective` | runtime/crates/palladin-browser-bridge/src/local_transport.rs:430-436 | The session id determines the handshake |
| `SessionWorld.FreshId` | runtime/crates/palladin-browser-bridge/src/local_transport.rs:170-228 | A fresh host nonce gives a session id that no end uses |
| `LocalTransport.LocalSecureSession.constructor` | runtime/crates/palladin-browser-bridge/src/local_transport.rs:243-276 | The session object starts as the specified split of the derived bytes for its role |
| `LocalTransport.LocalSecureSession.SealMessage` | runtime/crates/palladin-browser-bridge/src/local_transport.rs:278-310 | Updates the send counter and returns a frame as the specification says, with its size and exhaustion errors |
| `LocalTransport.LocalSecureSession.OpenFrame` | runtime/crates/palladin-browser-bridge/src/local_transport.rs:312-350 | Updates only the receive counter, as the specification says, with the same error for each refused frame |
| `LocalTransport.Open` | runtime/crates/palladin-browser-bridge/src/local_transport.rs:312-350 | A failed open leaves the session unchanged; a successful one advances the receive counter by one and nothing else |
| `LocalTransport.FromMaterial` | runtime/crates/palladin-browser-bridge/src/local_transport.rs:243-276 | The derived bytes are used completely: both keys, then both nonce bases, the host's sending one first; both counters start at zero |
| `LocalTransport.NoFrameOpensTwice` | runtime/crates/palladin-browser-bridge/src/local_transport.rs:312-350 | A frame that was opened is refused at every other counter, whatever the keys |
| `WireFormats.FieldSplits` | runtime/crates/palladin-browser-bridge/src/local_transport.rs:424-428 | A length-prefixed field can be split off the front of a transcript in one way only |
| `WireFormats.FieldsInjective` | runtime/crates/palladin-browser-bridge/src/secure_transport.rs:370-395 | A list of length-prefixed fields determines the fields |
| `WireFormats.SessionTranscriptInjective` | runtime/crates/palladin-browser-bridge/src/local_transport.rs:407-422 | The session transcript determines nonces, ephemeral keys and identity |
| `WireFormats.ClientOpenTranscriptInjective` | runtime/crates/palladin-browser-bridge/src/local_transport.rs:394-405 | The client-open transcript determines nonce, key and identity |
| `WireFormats.SessionTranscriptReads` | runtime/crates/palladin-browser-bridge/src/local_transport.rs:407-428 | A reader of length-prefixed fields finds, behind the domain, client nonce and key, host nonce and key, and identity, in this order and nothing else |
| `WireFormats.ClientOpenTranscriptReads` | runtime/crates/palladin-browser-bridge/src/local_transport.rs:394-405 | The same for client nonce, key and identity |
| `WireFormats.ExtensionTranscriptReads` | runtime/crates/palladin-browser-bridge/src/secure_transport.rs:370-395 | The same for origin, nonces, keys and identity of the extension handshake |
| `WireFormats.TranscriptKindsDisjoint` | runtime/crates/palladin-browser-bridge/src/secure_transport.rs:24-24 | Client-open, session and extension transcripts never coincide as byte strings |
| `WireFormats.ComputeFrameNonce` | runtime/crates/palladin-browser-bridge/src/local_transport.rs:458-463 | The in-place loop folds the big-endian counter into the last eight bytes of the nonce base |
| `WireFormats.FrameNonceInjective` | runtime/crates/palladin-browser-bridge/src/secure_transport.rs:417-422 | Under one nonce base distinct counters give distinct nonces |
| `WireFormats.FrameNonceReads` | runtime/crates/palladin-browser-bridge/src/local_transport.rs:458-463 | A nonce is its base but for the last eight bytes, whose difference to the base reads as the counter, most significant byte first |
| `WireFormats.FrameAadInjective` | runtime/crates/palladin-browser-bridge/src/secure_transport.rs:424-433 | Associated data determines transport, session, direction and counter |
| `WireFormats.FrameAadLayout` | runtime/crates/palladin-browser-bridge/src/local_transport.rs:465-475 | Associated data is the domain, the session id, a zero byte, the direction, a zero byte and eight bytes that read as the counter |
| `WireFormats.ParseSequenceExact` | runtime/crates/palladin-browser-bridge/src/local_transport.rs:488-499 | The parser accepts exactly the text that printing the number gives |
| `OutputMask.Masker.constructor` | src/exec/run-exec.ts:234-238 | A new mask has nothing held back and nothing emitted |
| `OutputMask.Masker.RedactText` | src/exec/run-exec.ts:240-246 | The replacement loop is the secret-by-secret redaction of the whole text |
| `OutputMask.Masker.HeldBackLength` | src/exec/run-exec.ts:250-262 | The nested loops find the longest tail that is a strict prefix of some secret |
| `OutputMask.Masker.Transform` | src/exec/run-exec.ts:265-270 | One chunk extends the emitted text and keeps the carry that the specification of all chunks so far gives |
| `OutputMask.Masker.Flush` | src/exec/run-exec.ts:271-273 | After the flush everything emitted is the specified output of all chunks |
| `OutputMask.NoSecretInOutput` | src/exec/run-exec.ts:234-275 | For every list of star-safe secrets and every chunking, the whole output contains no secret |
| `OutputMask.StepKeepsSealed` | src/exec/run-exec.ts:250-270 | Each chunk keeps: emitted text and carry hold no secret, and no tail longer than the carry is a strict prefix of one |
| `OutputMask.RedactRemoves` | src/exec/run-exec.ts:240-246 | Redacting a whole text removes every secret, although later replacements follow earlier ones |
| `OutputMask.OutputIgnoresChunking` | src/exec/run-exec.ts:240-273 | For one secret the output is the redaction of the whole text, however it was cut, also if the secret overlaps itself |
| `OutputMask.HiddenExactlyWhenStarSafe` | src/exec/run-exec.ts:234-275 | One secret is hidden on every input exactly when it is star-safe |
| `OutputMask.UnsafeSecretLeaks` | src/exec/run-exec.ts:240-246 | A secret that is not star-safe comes out of the redaction of some text |
| `OutputMask.SafetyIsNotNecessaryForSeveral` | src/exec/run-exec.ts:240-246 | With several secrets the condition is not necessary: one mask can hide another's leak |
| `OutputMask.ChunkingIgnoredExactly` | src/exec/run-exec.ts:240-273 | The single secrets whose output never depends on chunking, exactly |
| `OutputMask.TripleBreaksChunking` | src/exec/run-exec.ts:265-270 | A triple of stars inside a secret lets a second chunk complete a secret that the text does not hold |
| `OutputMask.LeadingStarBreaksChunking` | src/exec/run-exec.ts:265-270 | A secret that starts with a star depends on chunking, except one or three stars alone |
| `SecretOrder.PreparedIs` | src/exec/run-exec.ts:83-86 | The masked list holds exactly the non-empty values, each once, longest first |
| `SecretOrder.PreparedIsStable` | src/exec/run-exec.ts:83-86 | Values of equal length stay in the order in which they first appear |
| `SecretOrder.MaskedInOrder` | src/exec/run-exec.ts:240-246 | Masking a list of secrets is masking its front and then its rest |
| `SecretOrder.WholeSecretIsMasked` | src/exec/run-exec.ts:83-86 | For every list of safe, distinct secrets, longest first, and every text: an occurrence of a secret that others meet only inside it becomes one mask, and its surroundings are redacted by themselves |
| `SecretOrder.SecretItselfIsMasked` | src/exec/run-exec.ts:83-86 | A text that is a secret becomes one mask, whatever other secrets it contains |
| `SecretOrder.OverlapLeavesTheEnd` | src/exec/run-exec.ts:240-246 | Two overlapping secrets: the end of the second stays |
| `SecretOrder.WholeInStreamExactly` | src/exec/run-exec.ts:250-273 | A secret alone on the stream becomes one mask under every chunking exactly when no secret ends before its last character |
| `SecretOrder.PasswordEndShows` | src/exec/run-exec.ts:250-273 | For every user name and every password that continues it by two characters, a cut before the last one shows both |
| `LiveLogin.OriginIsPinned` | runtime/crates/palladin-browser-bridge/src/live_login.rs:60-132 | In every reachable state the current URL has the origin fixed at creation and the form is a valid live form |
| `LiveLogin.NoStageIsReplayed` | runtime/crates/palladin-browser-bridge/src/live_login.rs:86-132 | In every run password and one-time code are submitted at most once each, and a username again only with the first password |
| `LiveLogin.UsernameAtMostTwice` | runtime/crates/palladin-browser-bridge/src/live_login.rs:86-102 | In every run the username is in at most two submitted stages |
| `LiveLogin.AtMostThreeStages` | runtime/crates/palladin-browser-bridge/src/live_login.rs:86-132 | In every run at most three stages are submitted, each with a field id that is in no earlier stage, so the cap of eight never stops one |
| `LiveLogin.SubmittedOnlyOnce` | runtime/crates/palladin-browser-bridge/src/live_login.rs:86-102 | After a submission every other call than a successful advance leaves the flow unchanged, and a second submission fails |
| `LiveLogin.SubmitExactly` | runtime/crates/palladin-browser-bridge/src/live_login.rs:86-102 | A stage is submitted exactly when the limit is not reached and its ids are all new, or only the username is not and a password comes with it |
| `LiveLogin.AdvanceExactly` | runtime/crates/palladin-browser-bridge/src/live_login.rs:106-132 | A flow moves on exactly after a submission, below the limit, to a live form on its origin with a well-formed document id whose ids may follow; every other continuation fails or ends it |
| `LiveLogin.ThreeStagesHappen` | runtime/crates/palladin-browser-bridge/src/live_login.rs:86-132 | Username, then the password with or without the carried username, then the one-time code: all three stages are submitted, for all such forms |
| `LiveLogin.NewFlow` | runtime/crates/palladin-browser-bridge/src/live_login.rs:60-70 | A flow is created exactly for a valid live form at a parsable origin |
| `LiveLogin.LiveLoginFlow.constructor` | runtime/crates/palladin-browser-bridge/src/live_login.rs:60-70 | The object starts in the specified state |
| `LiveLogin.LiveLoginFlow.Submitted` | runtime/crates/palladin-browser-bridge/src/live_login.rs:86-94 | Records the stage, or fails and changes nothing |
| `LiveLogin.LiveLoginFlow.AdvanceTo` | runtime/crates/palladin-browser-bridge/src/live_login.rs:106-132 | Moves to the next form, reports the end, or fails and changes nothing |
| `LiveLogin.ValidateLiveForm` | runtime/crates/palladin-browser-bridge/src/live_login.rs:134-198 | The checking loops accept exactly the live forms: one snapshot, distinct selectors or ids, credential shapes, a one-time code only alone |
| `LiveLogin.StoredLiveExactly` | runtime/crates/palladin-browser-bridge/src/live_login.rs:168-198 | A stored form is live exactly when its one step clicks, does not wait, lies in one snapshot and asks for a username, a password, both, or a one-time code alone, each in its own control |
| `LiveLogin.LiveSnapshotExactly` | runtime/crates/palladin-browser-bridge/src/live_login.rs:283-295 | A selector is live exactly when it is the prefix, a snapshot handle, a colon and an element handle |
| `LiveLogin.CheckSelectors` | runtime/crates/palladin-browser-bridge/src/live_login.rs:157-166 | The deferred branch accepts exactly one snapshot and pairwise distinct selectors |
| `LiveLogin.CollectIds` | runtime/crates/palladin-browser-bridge/src/live_login.rs:177-192 | The stored branch collects the ids exactly when they are distinct credential fields of one snapshot |
| `WindowsArguments.QuoteArgument` | src/runtime/windows-runtime-cache.ts:555-575 | The loop is the recursive quoting; a NUL character is refused |
| `WindowsArguments.ArgumentsRoundTrip` | src/runtime/windows-runtime-cache.ts:312-312 | Splitting the joined quoted arguments by the Microsoft C runtime rules returns the same list, for every list |
| `WindowsArguments.CommandLineRoundTrip` | src/runtime/windows-runtime-cache.ts:312-312 | Program and arguments come back exactly when the path is safe for the program-name rules |
| `WindowsArguments.FinalBackslashIsDoubled` | src/runtime/windows-runtime-cache.ts:555-575 | The path `C:\a b\` does not come back, with any arguments |
| `WindowsArguments.ParseQuoted` | src/runtime/windows-runtime-cache.ts:555-575 | One quoted argument is parsed back whatever follows it |
| `WindowsArguments.ParseBody` | src/runtime/windows-runtime-cache.ts:560-574 | Inside quotes every run of backslashes is read back in full, before a quote, before the end and elsewhere |
| `WindowsArguments.ProgramName` | src/runtime/windows-runtime-cache.ts:312-312 | The program-name rules return the path exactly when it is safe, and leave the arguments whole |
| `WindowsArguments.QuotedExactly` | src/runtime/windows-runtime-cache.ts:555-575 | An argument is passed as it is exactly when it is not empty and holds neither a space nor a quote; every other one is enclosed in quotes |
| `WindowsArguments.OnlySlashesAreAdded` | src/runtime/windows-runtime-cache.ts:560-574 | Between the quotes nothing but backslashes is added |
| `Base32.DecodeEncode` | src/credential/totp.ts:166-204 | Decoding undoes encoding for every byte sequence |
| `Base32.CanonicalExactly` | runtime/crates/palladin-crypto/src/runtime_totp.rs:27-45 | The length-class and unused-bit check accepts exactly the sequences that encode their own decoding, section 3.5 of RFC 4648 |
| `Base32Coders.AcceptedSecretsAreEncodings` | runtime/crates/palladin-crypto/src/runtime_totp.rs:27-45 | A secret text passes the form check exactly when encoding its decoding gives the text back |
| `Base32Coders.ValidateSecret` | runtime/crates/palladin-crypto/src/runtime_totp.rs:27-45 | The loop and the match accept exactly canonical alphabet texts of 26 to 1024 characters |
| `Base32Coders.DecodeText` | src/credential/totp.ts:166-186 | The unmasked accumulator, wrapping at 32 bits, yields the complete octets of the text's bit string, or an error outside the alphabet |
| `Base32Coders.DecodeMasked` | runtime/contracts/dotnet/Palladin.ContractGate/SemanticVectors.cs:797-811 | The loop with the masked accumulator yields the same bytes on every text |
| `Base32Coders.DecodeNormalised` | runtime/contracts/dotnet/Palladin.ContractGate/SemanticVectors.cs:793-812 | The whole decoder: trimming, padding and upper-casing, then the masked loop |
| `Base32Coders.DecodersAgreeExactly` | src/credential/totp.ts:166-185 | What the .NET decoder accepts, the other accepts with the same bytes, exactly when the input holds no next-line character |
| `Base32Coders.NextLineTellsDecodersApart` | src/credential/totp.ts:166-176 | A next-line character behind a secret: .NET decodes the secret and the other decoder refuses |
| `Base32Coders.EncodeBytes` | src/credential/totp.ts:188-204 | The unmasked encoder yields the five-bit groups of the bytes, zero-padded |
| `Base32Coders.TextRoundTrip` | src/credential/totp.ts:166-204 | Every byte sequence survives encoding to text, cleaning and decoding |
| `Base32Coders.ShiftInHolds` | src/credential/totp.ts:172-183 | Bits that a 32-bit shift loses were already written |
| `Base32Coders.ShiftOutHolds` | src/credential/totp.ts:172-183 | The next group is read off above the remaining bits |
| `Base32.AlphabetExactly` | src/credential/totp.ts:163-163 | A symbol's value is its position in the alphabet |
| `VersionPolicy.CanonicalInjective` | src/runtime/version-policy.ts:131-150 | The signed text determines the payload, for all validated payloads |
| `VersionPolicy.EnvelopeInjective` | src/runtime/version-policy.ts:125-129 | The envelope text determines signature and payload |
| `ManifestReader.ReadsPayload` | src/runtime/version-policy.ts:131-150 | A reader that assigns each member by its key name gives back every valid payload from its signed text |
| `ManifestReader.ReadsEnvelope` | src/runtime/version-policy.ts:125-129 | The same for the envelope, for every signature text |
| `ManifestReader.ReadsItem` | src/runtime/version-policy.ts:133-145 | The same for one artifact, whatever follows it |
| `ManifestReader.MembersAreTheArtifact` | src/runtime/version-policy.ts:133-145 | The printed members are the values of the artifact, each under its own key |
| `ManifestReader.KeysAscend` | src/runtime/version-policy.ts:133-145 | The keys of each printed artifact are in ascending order |
| `ManifestReader.ReadsString` | src/runtime/version-policy.ts:131-150 | Reading undoes printing, for every string |
| `VersionPolicy.CanonicalSplits` | src/runtime/version-policy.ts:131-150 | A canonical text can be split off the front of any text in one way only |
| `VersionPolicy.ItemSplits` | src/runtime/version-policy.ts:131-150 | The same for one artifact, with and without the optional publisher keys |
| `VersionPolicy.EscapeSplits` | src/runtime/version-policy.ts:131-150 | The same for one escaped character, section 7 of RFC 8259 |
| `VersionPolicy.SelectIsExact` | src/runtime/version-policy.ts:152-162 | In a valid payload the choice succeeds exactly when a matching artifact exists, and returns the only one |
| `VersionPolicy.IdentitiesIncrease` | src/runtime/version-policy.ts:209-247 | The neighbour-by-neighbour order check makes all identities increase |
| `VersionPolicy.ValidatePayload` | src/runtime/version-policy.ts:209-247 | The method accepts exactly the valid payloads |
| `VersionPolicy.CheckArtifacts` | src/runtime/version-policy.ts:214-245 | The loop accepts exactly lists of valid artifacts in strictly increasing order |
| `FrameChannels.RunIsSplit` | src/browser-host/channel.ts:36-62 | For every interleaving of chunks and reads that does not fail the channel, the i-th read settles with the i-th frame of the byte stream, the buffer is the rest, and nobody waits for a buffered frame |
| `FrameChannels.NothingIsLost` | src/browser-host/channel.ts:84-119 | Delivered frames, encoded again, and the buffer are all the bytes received |
| `FrameChannels.WrittenMessagesAreRead` | src/browser-host/channel.ts:84-119 | Messages written by a peer reach the readers in order, however bytes and reads are interleaved |
| `FrameChannels.SplitConserves` | src/browser-host/channel.ts:98-111 | Splitting a stream into frames loses nothing |
| `FrameChannels.SplitContinues` | src/browser-host/channel.ts:98-111 | Splitting now and continuing later with more bytes and readers is splitting at once |
| `FrameChannels.NativeIsLawful` | src/browser-host/channel.ts:84-111 | Length-prefixed frames, with their size bounds, can be read incrementally and undo the writer |
| `FrameChannels.NativeLayout` | src/browser-host/channel.ts:84-90 | On the wire a message is four bytes of length, the least significant first, and the payload |
| `FrameChannels.LinesAreLawful` | src/browser-host/channel.ts:27-54 | The same for newline-terminated frames |
| `FrameChannels.ChannelFailsExactly` | src/browser-host/channel.ts:92-119 | For every sequence of events the channel is alive exactly when none was the end, no chunk left more undelivered bytes than the limit, and no reader waited for an impossible frame |
| `FrameChannels.WrittenTrafficFailsExactly` | src/browser-host/channel.ts:84-119 | On a stream of written messages, possibly cut off, the channel fails exactly at its end or at a chunk that leaves too much undelivered |
| `FrameChannels.WrittenTrafficArrives` | src/browser-host/channel.ts:84-119 | All written messages reach the readers in order, on a condition about the traffic alone |
| `FrameChannels.FailedChannelKeepsLaterBytes` | src/browser-host/channel.ts:36-62 | In every run a channel whose first failure is the k-th event holds exactly the bytes that arrived after it, and nobody waits |
| `FrameAnswers.EveryReadIsAnswered` | src/browser-host/channel.ts:76-119 | In every run that fails nobody is left waiting: the reads settle, in order, with the frames delivered before the failure, and all others, earlier and later, are rejected with exactly that failure |
| `FrameChannels.LiveChannelIsBounded` | src/browser-host/channel.ts:92-111 | In every run a channel that has not failed holds no more bytes than the limit |
| `FrameChannels.BufferIsBoundedExactly` | src/browser-host/channel.ts:92-119 | A run's buffer is within the limit exactly when the channel is alive or no more than that arrived after its first failure; any amount can |
| `FrameChannels.FrameChannel.constructor` | src/browser-host/channel.ts:65-74 | A new channel is empty |
| `FrameChannels.FrameChannel.OnData` | src/browser-host/channel.ts:92-96 | Appends the chunk and drains, as specified, on a shared byte store |
| `FrameChannels.FrameChannel.ReadNext` | src/browser-host/channel.ts:76-82 | Queues a reader and drains, or rejects it on a failed channel |
| `FrameChannels.FrameChannel.DrainFrames` | src/browser-host/channel.ts:98-111 | The loop delivers as many frames as there are readers and complete frames |
| `FrameChannels.FrameChannel.DeliverFrame` | src/browser-host/channel.ts:103-109 | The delivered region is zeroed in place and no undelivered byte changes |
| `FrameChannels.FrameChannel.FailWith` | src/browser-host/channel.ts:113-119 | The first failure rejects every waiting reader and zeroes the buffered bytes |
| `FrameChannels.Wipe` | src/browser-host/channel.ts:103-109 | Zeroes exactly one region of the store |
| `FrameChannels.ReadMessage` | runtime/crates/palladin-browser-bridge/src/framing.rs:10-27 | Accepts exactly the frames that the channel accepts, and leaves the rest of the stream |
| `FrameChannels.WriteMessage` | runtime/crates/palladin-browser-bridge/src/framing.rs:29-48 | Appends the encoded frame, or refuses an empty or oversized message and writes nothing |
| `GrantWait.WaitKeepsSchedule` | src/credential/await-grant.ts:124-170 | For every sound policy and every environment the sleeps fit the budget, the i-th poll is at i poll intervals, there are at most sixty, the i-th scheduled heartbeat is at i heartbeat intervals, and no heartbeat is overdue at the end; without a wall-clock cutoff no poll is overdue either, and a pending result means that the whole budget was slept |
| `GrantWait.WaitLasts` | src/credential/await-grant.ts:136-170 | The wall clock cuts off only at a due poll, with a pending result; no turn that slept was cancelled, and a cancelled wait was cancelled in the very next turn, before its budget was spent |
| `GrantWait.FollowLasts` | src/credential/await-grant.ts:136-170 | The same from every state on the grid |
| `GrantWait.FirstAnswerIsReturned` | src/credential/await-grant.ts:148-166 | The first answer that is not pending is returned and no poll follows it |
| `GrantWait.WaitMatchesReplay` | runtime/contracts/dotnet/Palladin.ContractGate/SemanticVectors.cs:599-660 | Without cutoff or cancellation, if the replies to the polls that can happen are alike, the loop sleeps and beats exactly as the .NET schedule, and ends alike |
| `GrantWait.PendingBackendMatches` | runtime/contracts/dotnet/Palladin.ContractGate/SemanticVectors.cs:599-660 | A backend that stays pending is covered by the scenario that lists a pending response for every poll within the budget, and its wait sleeps the whole budget |
| `GrantReports.WaitReports` | src/credential/await-grant.ts:124-170 | Each heartbeat names the newest grant known by then, an extra one follows exactly the polls that time out, each poll is given as long as its limit, the budget and the wall clock allow, and a wait that ends pending returns the newest pending answer |
| `GrantWait.AwaitGrant` | src/credential/await-grant.ts:124-170 | The while loop terminates, produces the specified trace and outcome, and its sleeps sum to `waited` |
| `GrantWait.OneTurn` | src/credential/await-grant.ts:136-167 | The loop body, with its cancellation, heartbeat, cutoff, timeout and reply branches, is one specified turn |
| `GrantWait.ReplaySchedule` | runtime/contracts/dotnet/Palladin.ContractGate/SemanticVectors.cs:599-660 | The second loop produces the sleeps and heartbeats of the specified trace for its scenario |
| `GrantWait.ReplayTurn` | runtime/contracts/dotnet/Palladin.ContractGate/SemanticVectors.cs:619-648 | Its body agrees with one specified turn |
| `GrantWait.ResolvePolicy` | src/credential/await-grant.ts:50-62 | A policy is accepted exactly within the wait limit, and every accepted one is sound |
| `GrantWait.PolicyIsChosen` | src/credential/await-grant.ts:50-62 | Command line before hint before default, for both durations; the poll interval is raised to five seconds only, heartbeats come every ten seconds or with the polls, and a poll may not outlast a heartbeat |
| `GrantWait.FollowOnSchedule` | src/credential/await-grant.ts:124-170 | From every state on the grid the rest of the wait stays on it |
| `GrantWait.FollowStopsAtFirstAnswer` | src/credential/await-grant.ts:148-166 | From every state only the last poll can end the wait |
| `GrantWait.SameFollow` | src/credential/await-grant.ts:124-170 | The schedule depends only on the kind of the replies to polls that happen |
| `RuntimeCache.LiveLaunchIsProtected` | src/runtime/windows-runtime-cache.ts:98-157 | At every moment of every run an unreleased launch whose lease names a running process has that lease in place, before, during and after the hand-off, and its entry if it was there when leased |
| `LeaseLifetimes.LeaseIsThereExactly` | src/runtime/windows-runtime-cache.ts:698-779 | In every run a lease that a launch has kept since creating it, unreleased, is in place exactly when no pass has examined its directory while its process looked dead |
| `LeaseLifetimes.GivenUpLeaseIsGone` | src/runtime/windows-runtime-cache.ts:139-156 | In every run a lease that its launch gives up, by a release or in the hand-off, is gone at every later moment unless someone places a file of its name |
| `LeaseLifetimes.HandOffCanLoseLease` | src/runtime/windows-runtime-cache.ts:139-150 | A run in which the hand-off to a child that has exited leaves an unreleased launch, whose launcher runs, without a lease and without its entry |
| `RuntimeCache.GuardedEntrySurvives` | src/runtime/windows-runtime-cache.ts:758-779 | An entry with an unrecognised lease file survives every run |
| `RuntimeCache.StepKeepsInv` | src/runtime/windows-runtime-cache.ts:98-157 | Each step of any launcher, any pass and any process start or exit keeps the invariant |
| `RuntimeCache.PassKeepsLease` | src/runtime/windows-runtime-cache.ts:723-779 | A pass keeps the leases of running processes and the entries they protect |
| `RuntimeCache.PassBeforeLeaseLosesEntry` | src/runtime/windows-runtime-cache.ts:96-121 | A run in which a pass between installing and leasing removes the entry |
| `RuntimeCache.EntryIsThereExactly` | src/runtime/windows-runtime-cache.ts:723-756 | In every run an installed entry that is not installed again is there exactly as long as no pass has removed it: not the collector's own, no active lease, not locked |
| `RuntimeCache.LaunchHasItsEntryExactly` | src/runtime/windows-runtime-cache.ts:96-121 | A launch whose entry was installed and then leased has it at every later moment at which its holder runs, exactly when no pass between installing and leasing removed it |
| `RuntimeCache.CacheDirectory.CollectInactive` | src/runtime/windows-runtime-cache.ts:723-756 | The nested loops are the specified pass |
| `RuntimeCache.CacheDirectory.HasActiveLease` | src/runtime/windows-runtime-cache.ts:758-779 | Answers whether a live or unrecognised lease exists, deletes only leases of dead processes, and touches no other directory |
| `RuntimeCache.IdentitiesAgree` | src/runtime/windows-runtime-cache.ts:656-667 | The collector recomputes the identity under which the launcher leases |
| `RuntimeCache.LeaseIsRecognised` | src/runtime/windows-runtime-cache.ts:698-711 | A created lease's name is recognised with the process id it was created for |
| `RuntimeCache.ParseLeaseExactly` | src/runtime/windows-runtime-cache.ts:36-36 | A file name is recognised exactly when it is a kind, digits and a random id in the form of a lease, with the number it carries |
| `RuntimeCache.LeaseNamesDiffer` | src/runtime/windows-runtime-cache.ts:698-711 | Leases with different random ids never share a name |
| `ElfInterpreter.Detect` | src/runtime/native-dispatch.ts:463-512 | For every byte string and architecture all reads are in bounds and the answer is a C library exactly when the header checks hold and the only interpreter entry names that loader with one final NUL |
| `ElfInterpreter.FindInterpreter` | src/runtime/native-dispatch.ts:487-512 | The header loop finds a loader exactly when one entry is an interpreter entry and it names it |
| `ElfInterpreter.ReadInterpreter` | src/runtime/native-dispatch.ts:492-505 | One entry's checks succeed exactly when its in-range bytes are a path and a single final NUL |
| `InjectForms.ParseValues` | src/inject-contract.ts:135-152 | The loop accepts exactly the value lists in bijection with the form's distinct field ids |
| `InjectForms.AcceptedValuesAreComplete` | src/inject-contract.ts:135-152 | Accepted values give each required field its own value |
| `InjectForms.AcceptedValuesNeverMissing` | packages/playwright-mcp/src/server.ts:327-338 | With accepted values no run meets the missing-value error |
| `InjectForms.MissingValueExactly` | packages/playwright-mcp/src/server.ts:337-338 | The missing-value error is on the way exactly when a required field has no value |
| `InjectForms.FillsFollowPassingChecks` | packages/playwright-mcp/src/server.ts:336-343 | In every run each fill directly follows a domain check that passed |
| `InjectForms.FillAndSubmit` | packages/playwright-mcp/src/server.ts:323-374 | Whatever the page answers, the attempts follow the form up to the first failure; then, and only then, exactly the sensitive filled fields are cleared, last first, each attempted regardless of the others |
| `FormSubmissions.SubmitsTheForm` | packages/playwright-mcp/src/server.ts:334-365 | Whatever the page does, the submissions of a run are the submit actions of the first steps, in order, and each finds every input of its step holding that field's own value; a run without a failure submits every step and waits after each for what it names, with its timeout or twenty seconds |
| `FormSubmissions.SubmissionsFollowPassingChecks` | packages/playwright-mcp/src/server.ts:345-356 | In every run a submission directly follows the lookup of its own control, which follows a passed domain check |
| `FormSubmissions.SuccessIsCheckedLast` | packages/playwright-mcp/src/server.ts:339-364 | In a run without a failure a passed domain check follows every fill and every submission, with at most the wait in between |
| `FormSubmissions.ControlAtIs` | packages/playwright-mcp/src/server.ts:350-355 | Enter is pressed in the control of the first field with that selector, or in a text input |
| `FormSubmissions.ContainsWordExactly` | packages/playwright-mcp/src/server.ts:376-379 | A field name is found sensitive by a word exactly when the lower-cased name contains it |
| `InjectForms.ClearedExactly` | packages/playwright-mcp/src/server.ts:341-371 | After a failure a field is cleared exactly when it is sensitive and one of its fills succeeded |
| `InjectForms.FailedFillIsNotCleared` | packages/playwright-mcp/src/server.ts:339-371 | A run of a one-password form whose fill fails leaves nothing to clear |
| `InjectForms.SensitiveFillsAreCleared` | packages/playwright-mcp/src/server.ts:367-371 | After a failure every completed sensitive fill has a clearing attempt, behind those of all sensitive fields filled later |
| `InjectForms.EverySensitiveFillIsCleared` | packages/playwright-mcp/src/server.ts:367-371 | Clearing attempts each sensitive field once, in the reverse of the order of filling |
| `InjectForms.FillSteps` | packages/playwright-mcp/src/server.ts:334-365 | The loop over steps is the execution of the form's script |
| `InjectForms.FillFields` | packages/playwright-mcp/src/server.ts:336-344 | The loop over fields is the execution of their script, and `filled` grows by each completed fill |
| `InjectForms.ExecIsRun` | packages/playwright-mcp/src/server.ts:334-365 | An execution is a run of its script that stops at the first failure, and its filled fields are those whose fill succeeded |
| `InjectForms.ClearFilled` | packages/playwright-mcp/src/server.ts:367-371 | The reversed loop is the specified clearing |

## Left out

- Real cryptography (Ed25519, X25519, HKDF, XChaCha20-Poly1305, SHA-256, HMAC), hence one-time codes themselves.
- The extension's secure session object and `verify_host_ready`: only its transcripts, nonces and associated data are modelled, and its signatures and sealed frames are events of `SessionWorld`; its seal and open repeat the local ones.
- Serialisation: messages are byte strings, and whether a plaintext decodes is an argument. `Encryption` errors, which the ideal cipher never raises, are not modelled.
- UTF-8 decoding at chunk boundaries: the mask is proved over decoded characters. Lengths are counted in characters, where the source counts UTF-16 code units.
- NoSecretInOutput: for several secrets the condition is sufficient and not necessary; `SafetyIsNotNecessaryForSeveral` is the counterexample.
- DecodeText: the two upper-casings are arguments; where the .NET one gives a letter of the alphabet they are taken to agree.
- Signature verification, general JSON parsing and Base64 of the release manifest: payloads are already typed, and `ManifestReader` reads canonical texts only.
- WholeSecretIsMasked: secrets that overlap an occurrence without lying inside it are excluded; `OverlapLeavesTheEnd` shows that the text then keeps an end.
- ResolvePolicy: durations are whole numbers; fractional and not-a-number inputs are not modelled. Progress text is left out.
- CollectInactive: check and delete of one pass are one step, so interleaving inside a pass is not modelled.
- The two channel classes differ only in their format, which is a parameter; JSON decoding of a frame is a function of its bytes.
- LiveLogin: URL parsing and the character checks of selectors and field ids are arguments; the status strings of continuations are left out.
- `parseInjectForm`, selectors, locators, waiting for the page and outcome classification: each page interaction is one attempt that succeeds or fails.
- HTTP client, pairing, keychain, profile files, packaging, PowerShell and C# process launch, terminal output: I/O around the modelled logic.
