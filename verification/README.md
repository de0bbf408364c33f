# buh: a verified model of sessions, wire format, invites and mailbox

buh is an end-to-end encrypted messenger. Two devices meet through a signed invite, agree on a root key with a
post-quantum handshake (PQXDH), talk over a Double Ratchet session kept as an opaque blob, and exchange envelopes through
a relay that stores them blindly. This project models those parts in Dafny and proves what they promise.

`dafny verify dfyconfig.toml` checks everything.

| file | what it holds |
|---|---|
| `Octets.dfy`, `Crypto.dfy`, `Chains.dfy` | byte strings with symbolic cryptography; key chains as terms |
| `Varint.dfy`, `Frames.dfy` | LEB128 varints, the reader, tag-length-value frames |
| `Ratchet.dfy` | one end of a session: what each operation does (functions) and the operations in place (class) |
| `Joint.dfy`, `Delivery.dfy`, `Soundness.dfy` | the invariant the two ends share, and one delivery at one end |
| `SessionBlob.dfy`, `BlobGrammar.dfy`, `Facade.dfy` | sessions as blobs, the blob as a grammar, the blob-to-blob calls, one event of a two-party run |
| `Effects.dfy` | what encrypt and decrypt do to any session, on every path, in closed form |
| `Runs.dfy` | whole runs through the facade, against a network that delivers anything |
| `RawRuns.dfy`, `Refinement.dfy` | whole runs in memory, where failures leave their mark; how the two relate |
| `Failures.dfy`, `MemoryRuns.dfy` | what exactly a failing decrypt leaves behind; honest runs in memory |
| `Prekeys.dfy`, `Handshake.dfy`, `Invites.dfy` | signed bundles, the handshake and its hand-off to the ratchet, invites |
| `Network.dfy` | what a network can put together: unforgeability and hybrid secrecy of the root, derived |
| `Mailbox.dfy`, `MailboxRuns.dfy`, `MailboxClients.dfy` | the relay's tables, whole runs of requests, sweeps and draining |

## Assumptions

Cryptography is symbolic. A byte string is a sequence of octets; an octet is a literal byte, or the i-th octet of the output
of a named function on given arguments. Codec, blobs, handshake and ratchet all run on these strings, so a key travels
through the wire format like any other octets. All idealisations are definitions in `Crypto.dfy`; nothing is assumed by axiom.

- HKDF, X25519, ML-KEM, ML-DSA and the AEAD are free: equal outputs come from equal functions and arguments. HKDF labels
  are represented by distinct function names.
- X25519 depends on the unordered pair of public keys; an AEAD ciphertext opens under exactly its own key, nonce and
  additional data; a KEM ciphertext decapsulates to its secret under its own key and to an unrelated one otherwise; a
  signature verifies for exactly its key and message.
- Where code needs the value of an octet that is not a literal byte (a varint, a counter, a flag), the model answers the
  error `OpaqueOctet`, which the source does not have. On strings of literal bytes it never occurs, and there the codec is
  the source's own.
- Randomness (generated keys, encapsulation, signing), the clock and new envelope ids are parameters.
- Theorems about what a network can make an end accept speak of runs in which ciphertexts under message keys of the session
  come from its two ends (`Joint.Unforged`, `RawRuns.RawUnforged`). Delivered octets are otherwise arbitrary: replays,
  reflections, re-framings, altered headers, junk. That condition is itself a theorem for a network that composes its
  octets from what it knows and has seen (`Network.NetworkRunAllowed`, `Network.RawNetworkRunAllowed`); what is assumed
  there is that the root, and what derives from it, has not come out, and for a root agreed on by handshake that one
  half of the hybrid has not (`Network.HandshakeRootUnreachable`).
- Runs through the facade assume that generated ratchet keys are new, that a chain carries fewer than 2^32 messages
  and that plaintexts are shorter than 2^64 octets (`Facade.Allowed`). Runs in memory (`RawRuns`) assume none of these: `u32`
  counters wrap there, as in a release build.
- A table of the mailbox is a sequence of rows in ascending row id; a new row gets the id after the largest present, so an
  id may be used again after a sweep. Theorems about whole runs assume that every push carries an envelope id of its own.

## Where code and documentation disagree

The model follows the code.

- `read_varint` says it rejects overlong encodings (`crates/buh-crypto/src/wire/codec.rs:61`); it accepts zero-padded ones such
  as `80 00`. An accepted varint is the one written for its value exactly if it has one octet or its last octet is not zero
  (`Varint.VarintCanonical`), and re-encoding a frame gives back the input exactly if that holds of every varint in it, flags,
  tags and lengths (`Frames.FrameCanonical`).
- `ack` is documented to answer `false` for an expired envelope (`crates/buh-core/src/ports.rs:38`); the statement does not look
  at the expiry. The exact condition is in `MailboxRuns.AckExact`, a witness in `MailboxClients.ExpiredAckSucceeds`.
- `decrypt` may change the session even when it fails. The facade drops that change, which is what makes delivery after
  failures provable there (`Runs.SentOpensLater`). In memory it is false (`Refinement.JunkBreaksMemory`). The exact condition:
  a failing call changes nothing if and only if its octets do not parse or its header is turned away by the gap limit, or by
  a missing chain, before anything is touched (`Failures.FailureHarmless`); sessions in memory go the way of the blobs for
  exactly as long as every failure is of that kind (`Failures.MemoryMatches`), and then deliver as they do
  (`Failures.MemoryDelivers`).
- A full skipped-key store is reported after the chain has moved but before its counter has (`Failures.FullStore`). Each such
  error puts the chain one step further ahead of its counter, and only a turn of the ratchet brings them together again
  (`Failures.DecryptLeads`); with the store still full, a turn succeeds exactly if the old chain has nothing left to bank
  (`Failures.FullTurns`). `RawRuns.RawExactlyOnce` and `RawRuns.NoKeyReuse` hold throughout.
- `Invite::decode` checks a signature over the bundle octets that arrived, `encode` encodes the bundle anew. A decoded invite
  survives being sent on exactly when the two agree (`Invites.DecodedInviteRedecodes`).
- A skipped-key slot that is passed over again, as when a peer returns to an earlier ratchet key, gets the new chain's key. So a
  banked key is kept exactly outside the slots a header passes over (`Effects.DecryptBank`, `Effects.PassedOverwritten`), and
  in an honest session none is ever passed over twice (`Effects.AlignedKept`).
- `clamp_ttl` is documented to clamp to `[1, max]`; the default that replaces a non-positive request is not clamped
  (`Mailbox.ClampTtlRange`).
- A time to live that carries the expiry out of the calendar is stored (`Mailbox.PushedDated`), and then fails every pull that
  would reach the row (`Mailbox.PullRefused`).

## Model

| member | source | states |
|---|---|---|
| `Runs.SentOpensLater` | crates/buh-crypto/src/ffi.rs:328-369 | Send a message, then let any calls follow, failing ones included: as long as the peer has not read it, its octets open at the peer to its plaintext exactly when gap and bank limits allow |
| `Runs.ExactlyOnce` | crates/buh-crypto/src/ffi.rs:362-369 | In every run with arbitrary octets delivered, each plaintext an end gets belongs to a different message its peer sent earlier |
| `Runs.StepReceived` | crates/buh-crypto/src/ratchet/mod.rs:237-268 | One successful delivery yields the plaintext of a message sent before and not read before |
| `Runs.RunKeepsInv` | crates/buh-crypto/src/ratchet/mod.rs:209-313 | The joint invariant (keys, chains and counters of both ends on one root chain; bank = passed and unread) holds after every run |
| `Runs.RunKept` | crates/buh-crypto/src/ratchet/mod.rs:209-233 | A message once sent keeps its plaintext and its wire octets through every later event |
| `Runs.HonestAllowed` | crates/buh-crypto/src/ratchet/mod.rs:237-268 | Messages of the session meet the theorems' assumptions on what may be delivered, at any time, any number of times |
| `Runs.EndsInStep` | crates/buh-crypto/src/ratchet/mod.rs:297-312 | Stated on the two states: one end is one root step ahead and receives in exactly the chain the other sends in; both root keys are on the session's root chain, at depths 2t + 1 (initiator) and 2t (responder), and the turns t so read off satisfy initiator <= responder <= initiator + 1 |
| `Runs.TurnsUnique` | crates/buh-crypto/src/ratchet/mod.rs:297-312 | A root key determines how many times its end has turned |
| `Runs.Exchange` | crates/buh-crypto/src/ffi.rs:328-369 | A message delivered right after it was sent meets all assumptions on runs, and the peer gets exactly its plaintext if it fits |
| `Runs.FirstMessageRead` | crates/buh-crypto/src/ratchet/mod.rs:68-104 | From any root and prekey: the initiator's first message is read by the responder, in a run that meets all assumptions |
| `Facade.InitialInv` | crates/buh-crypto/src/ratchet/mod.rs:68-104 | Ends seeded with one root and the responder's prekey start in the joint invariant |
| `Facade.SendStep` | crates/buh-crypto/src/ffi.rs:328-335 | Encrypting succeeds exactly for an end with a sending chain, emits the next message of that chain and keeps the joint invariant |
| `Facade.DeliverStep` | crates/buh-crypto/src/ffi.rs:362-369 | Any delivery that succeeds opened an unread message of the peer to its plaintext, marks just that one read and keeps the joint invariant |
| `Facade.AwaitedOpens` | crates/buh-crypto/src/ratchet/mod.rs:237-293 | In the invariant, an unread message of the peer opens if and only if it fits the limits, and then to its plaintext |
| `Facade.StepKeepsInv` | crates/buh-crypto/src/ratchet/mod.rs:209-313 | Every event of either end, successful or not, keeps the joint invariant |
| `Facade.RunEncrypt` | crates/buh-crypto/src/ffi.rs:328-335 | Load, encrypt in place, save: equals the blob-to-blob function of the theorems |
| `Facade.RunDecrypt` | crates/buh-crypto/src/ffi.rs:362-369 | Load, decrypt in place, save on success only: equals the blob-to-blob function of the theorems |
| `Runs.FailuresInvisible` | crates/buh-crypto/src/ffi.rs:362-369 | Removing every failing call from a run gives the same run |
| `Refinement.FacadeRefines` | crates/buh-crypto/src/ffi.rs:328-369 | After any run the blobs stand for the in-memory sessions that the successful calls alone would have led to |
| `Failures.FailureUnchanged` | crates/buh-crypto/src/ratchet/mod.rs:247-293 | A failing decrypt leaves the session unchanged if and only if the key is not banked and the header is turned away by a missing chain or the gap limit before anything is touched |
| `Failures.FailureHarmless` | crates/buh-crypto/src/ratchet/mod.rs:237-293 | The same for whole messages: unchanged if and only if the octets do not parse or their header is so turned away |
| `Failures.MemoryMatches` | crates/buh-crypto/src/ffi.rs:328-369 | Over every run: in-memory sessions equal the blobs' sessions after every event if and only if every failing delivery is harmless |
| `Failures.MemoryDelivers` | crates/buh-crypto/src/ratchet/mod.rs:209-313 | In memory, after any run whose failures are harmless, an unread message opens to its plaintext exactly when it fits |
| `Failures.FullStore` | crates/buh-crypto/src/ratchet/mod.rs:282-292 | The state a full store leaves: the bank full of the right keys, the counter at the first message that did not fit, the chain one step past it |
| `Failures.DecryptLeads` | crates/buh-crypto/src/ratchet/mod.rs:237-312 | The lead of the chain over its counter grows by one with each full store, and is reset by a turn and by nothing else, while counters stay below 2^32 - 1 |
| `Failures.FullTurns` | crates/buh-crypto/src/ratchet/mod.rs:252-257 | With a full store a new key turns the ratchet if and only if the old chain has nothing left to bank; chain and counter then agree |
| `MemoryRuns.RefusedAligned` | crates/buh-crypto/src/ratchet/mod.rs:237-293 | An unread honest message that neither opens nor fills the store is refused for the gap; the session is unchanged, exactly if the guards say so, or turned and aligned |
| `MemoryRuns.HonestRunAligned` | crates/buh-crypto/src/ratchet/mod.rs:209-313 | Every honest in-memory run without a full store, refusals included, keeps both ends aligned |
| `MemoryRuns.HandedFits` | crates/buh-crypto/src/ratchet/mod.rs:237-293 | In such a run a message handed over opens if and only if it fits |
| `MemoryRuns.ReadMemory` | crates/buh-crypto/src/ratchet/mod.rs:237-268 | A message that opens in such a run opens to its plaintext |
| `MemoryRuns.RefuseMemory` | crates/buh-crypto/src/ratchet/mod.rs:272-281 | A message that does not open in such a run is refused with too many skipped messages, and both ends stay aligned |
| `MemoryRuns.NewMemory` | crates/buh-crypto/src/ratchet/mod.rs:68-104 | A new session in memory is aligned |
| `MemoryRuns.Positions` | crates/buh-crypto/src/ratchet/mod.rs:209-293 | In every state so reached: sending chain at ns, receiving chain at nr, each banked key the key of its number in the chain its ratchet key heads, and each message below nr either read or banked |
| `Refinement.JunkBreaksMemory` | crates/buh-crypto/src/ratchet/mod.rs:252-267 | In memory, any message under a foreign ratchet key ahead of the honest first message makes that message fail, which on its own opens |
| `RawRuns.RawExactlyOnce` | crates/buh-crypto/src/ratchet/mod.rs:237-293 | In memory, on every path including errors, wrapped counters and a full store: each plaintext is that of a different encrypt call of the peer |
| `RawRuns.NoKeyReuse` | crates/buh-crypto/src/ratchet/chain.rs:27-63 | Whatever is delivered, forgeries included, no two encrypt calls of a session, by either end, ever use the same AEAD key or the same nonce |
| `RawRuns.DecryptOk` | crates/buh-crypto/src/ratchet/mod.rs:237-293 | One decrypt, on every path: read, banked and derivable message keys stay pairwise different, what opens does so with a key not read with before, and the sending side with its counters is untouched or starts anew |
| `Effects.DecryptSending` | crates/buh-crypto/src/ratchet/mod.rs:237-312 | For every session and all octets, errors included: while the root key stays, everything the session sends with stays, counters too; when it moves, the session has adopted the header's key, with ns 0 and pn the old ns |
| `Effects.TakenEffect` | crates/buh-crypto/src/ratchet/mod.rs:247-250 | A banked key is used and removed, and nothing else changes, whether or not it opens |
| `Effects.CurrentEffect` | crates/buh-crypto/src/ratchet/mod.rs:259-293 | A message of the current chain moves only that chain: not at all past the gap limit, to where the store was full, or just past the key it is opened with |
| `Effects.TurnEffect` | crates/buh-crypto/src/ratchet/mod.rs:252-312 | A message under a new key closes the old chain, and unless that fails adopts the key and moves the new chain on from its start |
| `Effects.BankUntilEffect` | crates/buh-crypto/src/ratchet/mod.rs:282-292 | Skipping in closed form for every state: as many chain steps as numbers, one more on a full store, the keys passed banked in order |
| `Effects.DecryptBank` | crates/buh-crypto/src/ratchet/mod.rs:247-293 | No banked key but the one taken is ever lost; keys change only in the slots the header passes over, and only those are added |
| `Effects.PassedOverwritten` | crates/buh-crypto/src/ratchet/mod.rs:289-289 | A slot passed over that is already banked gets the chain's key |
| `Effects.AlignedKept` | crates/buh-crypto/src/ratchet/mod.rs:272-293 | At an aligned end a message of the peer passes over no banked slot, so every other banked key is kept with its value |
| `Effects.EncryptEffect` | crates/buh-crypto/src/ratchet/mod.rs:209-233 | For every session: refused exactly without a sending chain and then unchanged; otherwise one chain step, one count, and a message with the session's key, counters and sealed plaintext |
| `Effects.EncryptMessageExact` | crates/buh-crypto/src/ffi.rs:328-335 | A blob encrypts exactly if its octets stand for a session that does, and the new blob is that session's |
| `Effects.DecryptMessageExact` | crates/buh-crypto/src/ffi.rs:362-369 | A blob decrypts exactly if its octets stand for a session that does, and the new blob is that session's |
| `RawRuns.RawInitial` | crates/buh-crypto/src/ratchet/mod.rs:68-104 | New ends satisfy the in-memory invariant, with no assumption on their keys |
| `RawRuns.RawSend` | crates/buh-crypto/src/ratchet/mod.rs:209-233 | One encrypt keeps the in-memory invariant and its logged key, header and plaintext are those of the emitted message |
| `RawRuns.RawDeliver` | crates/buh-crypto/src/ratchet/mod.rs:237-293 | One decrypt of anything keeps the in-memory invariant; a success names an encrypt call of the peer with an unread key |
| `RawRuns.RawDeliverKeepsInv` | crates/buh-crypto/src/ratchet/mod.rs:237-293 | One decrypt of anything at all, with no assumption on who sealed it, keeps the in-memory invariant |
| `Delivery.HonestDelivery` | crates/buh-crypto/src/ratchet/mod.rs:237-313 | At an aligned end an unread message of the peer, from any chain and in any order, opens if and only if it fits, to its plaintext, and the end is aligned again |
| `Delivery.TurnAligned` | crates/buh-crypto/src/ratchet/mod.rs:252-257 | Turning the ratchet on the peer's next key succeeds exactly if the rest of the old chain fits, and aligns the end two epochs on |
| `Joint.BankUntilExact` | crates/buh-crypto/src/ratchet/mod.rs:272-293 | Skipping succeeds exactly when there is room; it banks the i-th message key of the chain for each position skipped, and nothing else |
| `Joint.OpenedWasSent` | crates/buh-crypto/src/ratchet/mod.rs:316-319 | What opens under a message key of the session is a message of the session, with its own number, header and plaintext |
| `Soundness.OkIsHonest` | crates/buh-crypto/src/ratchet/mod.rs:237-268 | With any header and ciphertext, what opens at an aligned end is an unread message of the peer, header and ciphertext its own |
| `Soundness.SendAligned` | crates/buh-crypto/src/ratchet/mod.rs:209-233 | Sending puts the next message of the end's chain on the wire and keeps the end aligned |
| `Soundness.OpenKeepsPeer` | crates/buh-crypto/src/ratchet/mod.rs:297-312 | The other end stays aligned when its peer opens one of its messages, turning the ratchet or not |
| `Ratchet.RatchetSession.AsInitiator` | crates/buh-crypto/src/ratchet/mod.rs:68-84 | The new session is the initiator's state of the specification |
| `Ratchet.RatchetSession.AsResponder` | crates/buh-crypto/src/ratchet/mod.rs:90-104 | The new session is the responder's state of the specification |
| `Ratchet.RatchetSession.EncryptMessage` | crates/buh-crypto/src/ratchet/mod.rs:209-233 | New state and result are those of the specification function |
| `Ratchet.RatchetSession.SkipKeys` | crates/buh-crypto/src/ratchet/mod.rs:272-293 | The loop does what the recursive specification says, errors included, in at most MAX_SKIP chain steps |
| `Ratchet.RatchetSession.TurnRatchet` | crates/buh-crypto/src/ratchet/mod.rs:297-312 | The updates, made one after the other, amount to the specification's turn |
| `Ratchet.RatchetSession.DecryptMessage` | crates/buh-crypto/src/ratchet/mod.rs:237-268 | New state and result are those of the specification on every path, in at most 2 * MAX_SKIP + 1 chain steps for any header |
| `Ratchet.AadInjective` | crates/buh-crypto/src/ratchet/header.rs:25-31 | Headers with the same additional data are the same header |
| `Ratchet.MessageRoundTrip` | crates/buh-crypto/src/ratchet/mod.rs:227-245 | A wire message parses to exactly the header and ciphertext it was made of |
| `Ratchet.U32RoundTrip` | crates/buh-crypto/src/ratchet/header.rs:35-40 | A counter written in four octets is read back |
| `Ratchet.U32Exact` | crates/buh-crypto/src/ratchet/header.rs:35-40 | Octets are read as a counter exactly if they are the four octets of it |
| `Ratchet.U32BigEndian` | crates/buh-crypto/src/ratchet/mod.rs:135-137 | Counters are written most significant octet first |
| `Ratchet.ParseExact` | crates/buh-crypto/src/ratchet/mod.rs:238-244 | Octets parse to a header and ciphertext if and only if they are a frame whose first fields with the four tags carry them |
| `Ratchet.AadLayout` | crates/buh-crypto/src/ratchet/header.rs:25-31 | The additional data is the frame of key, previous count and number, in that order and under those tags |
| `Chains.MessageKeyPlace` | crates/buh-crypto/src/ratchet/chain.rs:41-49 | Message keys of two chains agree only at the same position of the same chain |
| `Chains.SealKeyInjective` | crates/buh-crypto/src/ratchet/chain.rs:53-63 | Equal AEAD keys come from equal message keys |
| `Chains.SealNonceInjective` | crates/buh-crypto/src/ratchet/chain.rs:53-63 | Equal nonces come from equal message keys |
| `Crypto.DiffieHellmanSymmetric` | crates/buh-crypto/src/pqxdh.rs:115-115 | Both sides of an X25519 exchange get the same secret |
| `Crypto.OpenExact` | crates/buh-crypto/src/ratchet/mod.rs:316-319 | Opening gives a plaintext if and only if the ciphertext is what sealing it under the same key, nonce and data gives |
| `SessionBlob.SessionRoundTrip` | crates/buh-crypto/src/ratchet/mod.rs:110-204 | Every well-formed session is restored from its blob unchanged, bank included |
| `SessionBlob.AscendingUnique` | crates/buh-crypto/src/ratchet/mod.rs:140-142 | There is one ascending order of a set of slots, so equal sessions have equal blobs |
| `SessionBlob.SortSlots` | crates/buh-crypto/src/ratchet/mod.rs:141-142 | Taken from the map in any order, the slots end up in that one order |
| `SessionBlob.Save` | crates/buh-crypto/src/ratchet/mod.rs:110-149 | Writing field by field gives the blob of the specification, whatever the map's iteration order |
| `SessionBlob.Load` | crates/buh-crypto/src/ratchet/mod.rs:152-204 | Reading with a cursor gives the specification's result on every input, errors included |
| `BlobGrammar.BlobExact` | crates/buh-crypto/src/ratchet/mod.rs:152-204 | Octets restore to a session if and only if they are in a declarative grammar: version 1, keys by flag bit, counters, a count within the cap, entries of which the last for a slot counts, then anything |
| `BlobGrammar.SavedExact` | crates/buh-crypto/src/ratchet/mod.rs:110-149 | What is written is in that grammar with no spare flag bit, an unpadded count, each slot once in ascending order, and nothing after |
| `SessionBlob.InitialFormed` | crates/buh-crypto/src/ratchet/mod.rs:68-104 | New sessions are well formed |
| `SessionBlob.EncryptFormed` | crates/buh-crypto/src/ratchet/mod.rs:209-233 | Encrypting keeps a session well formed |
| `SessionBlob.DecryptFormed` | crates/buh-crypto/src/ratchet/mod.rs:237-293 | Decrypting any octets keeps a session well formed on every path: the bank never exceeds MAX_STORED_SKIPPED |
| `SessionBlob.RestoredFormed` | crates/buh-crypto/src/ratchet/mod.rs:180-190 | A session restored from any octets is well formed, its bank within the cap |
| `Varint.VarintReadExact` | crates/buh-crypto/src/wire/codec.rs:63-80 | The reader accepts exactly the strings of a declarative definition and returns their base-128 sum and length |
| `Varint.VarintRefused` | crates/buh-crypto/src/wire/codec.rs:63-80 | Refused as truncated if and only if the octets end, short of ten, where another is announced; as too large if and only if nine such are followed by one above 1 |
| `Varint.AcceptedFitsU64` | crates/buh-crypto/src/wire/codec.rs:69-72 | Every accepted value is below 2^64 |
| `Varint.TenthGroup` | crates/buh-crypto/src/wire/codec.rs:69-72 | Ten groups fit in 64 bits if and only if the last holds a single bit |
| `Varint.VarintRoundTrip` | crates/buh-crypto/src/wire/codec.rs:15-80 | Every u64, whatever follows it, is read back, consuming exactly its own one to ten octets |
| `Varint.VarintShortest` | crates/buh-crypto/src/wire/codec.rs:15-27 | The written form is the unique shortest accepted encoding |
| `Varint.VarintCanonical` | crates/buh-crypto/src/wire/codec.rs:61-80 | An accepted encoding is the written one if and only if it is a single octet or does not end in a zero octet |
| `Varint.PaddedFormAccepted` | crates/buh-crypto/src/wire/codec.rs:61-80 | `80 00` is accepted as zero, and is not what is written for zero |
| `Varint.WriteVarint` | crates/buh-crypto/src/wire/codec.rs:15-27 | The loop appends exactly the recursive encoding |
| `Varint.AccumulateIsParse` | crates/buh-crypto/src/wire/codec.rs:63-80 | Shifting and or-ing groups into a 64-bit accumulator loses no bit: it computes the base-128 sum |
| `Varint.Reader.ReadU8` | crates/buh-crypto/src/wire/codec.rs:55-59 | Reads the next octet, or reports the end and stays |
| `Varint.Reader.ReadBytes` | crates/buh-crypto/src/wire/codec.rs:83-91 | Reads exactly the octets asked for, or reports the end and stays |
| `Varint.Reader.ReadVarint` | crates/buh-crypto/src/wire/codec.rs:63-80 | Value, position and error are those of the declarative parse of what is left |
| `Frames.FrameDecodeExact` | crates/buh-crypto/src/wire/v1.rs:195-219 | Decoding yields a frame if and only if the string is one of that frame's in a declarative grammar |
| `Frames.FrameRoundTrip` | crates/buh-crypto/src/wire/v1.rs:180-219 | Decoding inverts encoding on every frame |
| `Frames.FrameReencode` | crates/buh-crypto/src/wire/v1.rs:180-219 | The re-encoding of accepted input decodes to the same frame, is never longer, and is the input if and only if none of its varints is padded |
| `Frames.FrameCanonical` | crates/buh-crypto/src/wire/v1.rs:180-219 | Accepted input equals its re-encoding if and only if flags, every tag and every length are unpadded |
| `Frames.EncodeInjective` | crates/buh-crypto/src/wire/v1.rs:180-191 | Distinct frames have distinct encodings |
| `Frames.PaddedFrameAccepted` | crates/buh-crypto/src/wire/v1.rs:195-219 | A frame with a padded flags varint is accepted, and differs from its re-encoding |
| `Frames.Encode` | crates/buh-crypto/src/wire/v1.rs:180-191 | The loop over fields gives the specification's encoding |
| `Frames.Decode` | crates/buh-crypto/src/wire/v1.rs:195-219 | The reader loop gives the specification's result on every input, errors included |
| `Frames.GetAt` | crates/buh-crypto/src/wire/v1.rs:144-154 | A field is found by its tag if no earlier field carries that tag |
| `Frames.GetExact` | crates/buh-crypto/src/wire/v1.rs:144-154 | Looking up a tag gives a value if and only if the first field with that tag has it, and none if and only if no field has the tag |
| `Frames.PreludeRefused` | crates/buh-crypto/src/wire/v1.rs:195-204 | Which error a bad prelude gets |
| `Frames.TruncatedRefused` | crates/buh-crypto/src/wire/v1.rs:208-214 | A field is refused as truncated if and only if its announced length exceeds what is left |
| `Prekeys.SigningBodyInjective` | crates/buh-crypto/src/prekey.rs:97-112 | The signed octets determine every key, and whether there is a one-time prekey |
| `Prekeys.BundleRoundTrip` | crates/buh-crypto/src/prekey.rs:148-193 | A well-formed bundle decodes back to itself exactly if its signature covers its keys, else with BadSignature |
| `Prekeys.BundleExact` | crates/buh-crypto/src/prekey.rs:164-193 | Octets decode to a bundle if and only if they are a frame with its label and fields, of the right lengths, signed over its keys by the identity it names |
| `Prekeys.SigningBodyLayout` | crates/buh-crypto/src/prekey.rs:97-112 | What is signed, field by field and tag by tag |
| `Prekeys.DecodedAuthentic` | crates/buh-crypto/src/prekey.rs:164-193 | Whatever decodes is signed by the identity it names over the keys it carries |
| `Prekeys.DecodedRedecodes` | crates/buh-crypto/src/prekey.rs:148-193 | Every decoded bundle re-decodes to itself |
| `Prekeys.GeneratedRoundTrip` | crates/buh-crypto/src/prekey.rs:118-144 | Every generated bundle decodes back to itself, names the identity of its seed and offers the public halves of the secrets kept, a one-time prekey exactly if one was kept |
| `Prekeys.SecretsRoundTrip` | crates/buh-crypto/src/prekey.rs:46-79 | Kept secrets are restored from their blob unchanged |
| `Prekeys.SecretsExact` | crates/buh-crypto/src/prekey.rs:62-79 | Octets restore to secrets if and only if they carry them at the right positions under version 1 |
| `Prekeys.SecretsLayout` | crates/buh-crypto/src/prekey.rs:46-59 | What is written does, with nothing after |
| `Handshake.Agreement` | crates/buh-crypto/src/pqxdh.rs:110-176 | For all identities and draws, with or without a one-time prekey, the responder decodes the first flight, which names the initiator's identity and ephemeral key and is signed over the transcript, and derives the initiator's root |
| `Handshake.InitialRoundTrip` | crates/buh-crypto/src/pqxdh.rs:181-204 | The first flight decodes back to itself |
| `Handshake.InitialExact` | crates/buh-crypto/src/pqxdh.rs:193-204 | Octets decode to a first flight if and only if they are a frame with its label and fields, of the right lengths |
| `Handshake.RespondExact` | crates/buh-crypto/src/pqxdh.rs:148-176 | A root is derived if and only if the transcript's signature verifies and the ciphertext has the right length |
| `Handshake.RootBindsTranscript` | crates/buh-crypto/src/pqxdh.rs:97-104 | Two sides that hold one root have seen the same bundle, identities, ephemeral key and ciphertext |
| `Handshake.TranscriptLayout` | crates/buh-crypto/src/pqxdh.rs:51-75 | The transcript, field by field and tag by tag |
| `Handshake.TranscriptInjective` | crates/buh-crypto/src/pqxdh.rs:51-75 | The transcript determines every value of both sides, although both identities share one tag |
| `Handshake.TranscriptApart` | crates/buh-crypto/src/pqxdh.rs:28-30 | No transcript is a prekey body |
| `Handshake.SignatureBinds` | crates/buh-crypto/src/pqxdh.rs:148-163 | An initiator's signature is accepted only with the bundle, identity, ephemeral key and ciphertext it was made for |
| `Handshake.HandOff` | crates/buh-crypto/src/ffi.rs:275-301 | From published bundle and kept secrets, passed as octets, both sides get session blobs in the ratchet's joint invariant; the initiator exactly if its identity seed has 32 octets |
| `Handshake.InitiateExact` | crates/buh-crypto/src/ffi.rs:275-284 | For all octets a session starts if and only if the seed has 32 octets and the bundle is well formed and signed by the identity it names |
| `Handshake.InitiatedSession` | crates/buh-crypto/src/ffi.rs:275-284 | The session started and its first flight, in terms of the bundle: root, prekey, identity, ephemeral key, signature |
| `Handshake.AcceptExact` | crates/buh-crypto/src/ffi.rs:290-301 | For all octets a session is accepted if and only if secrets and bundle are good and the first flight is signed over the transcript with that bundle |
| `Handshake.AcceptedSession` | crates/buh-crypto/src/ffi.rs:290-301 | The session accepted waits under the prekey of the secrets, at the root of the shared secrets and the transcript |
| `Invites.CreatedRoundTrip` | crates/buh-crypto/src/invite.rs:113-209 | A created invite decodes, exactly if its bundle is signed and names the signing identity, to the queue, bundle, nonce and expiry passed in, signed by that identity; else BadSignature |
| `Invites.InviteRoundTrip` | crates/buh-crypto/src/invite.rs:140-209 | A well-formed invite decodes back to itself exactly if its bundle is signed and its signature covers the claim it encodes to |
| `Invites.InviteExact` | crates/buh-crypto/src/invite.rs:173-209 | Octets decode to an invite if and only if they are a frame with its label and fields, its bundle good and naming the invite's identity, which signed all of it |
| `Invites.InviteBodyLayout` | crates/buh-crypto/src/invite.rs:92-107 | What is signed, field by field and tag by tag |
| `Invites.DecodedInviteAuthentic` | crates/buh-crypto/src/invite.rs:173-209 | Whatever decodes is signed, queue, nonce, expiry and the bundle as it arrived, by the identity its bundle names |
| `Invites.DecodedInviteRedecodes` | crates/buh-crypto/src/invite.rs:140-209 | A decoded invite re-decodes to itself if and only if its bundle arrived in the bundle's own encoding, else with BadSignature |
| `Invites.ExtendedInviteLost` | crates/buh-crypto/src/invite.rs:145-199 | For every inviter: an invite over a bundle with one unknown field more is accepted, and refused once sent on |
| `Invites.InviteSignatureBinds` | crates/buh-crypto/src/invite.rs:199-200 | The signature of a created invite is accepted only with the queue, bundle, nonce and expiry passed in |
| `Invites.InviteBodyInjective` | crates/buh-crypto/src/invite.rs:92-107 | The signed octets determine queue, identity, bundle octets, nonce and expiry |
| `Invites.InviteBodyApart` | crates/buh-crypto/src/invite.rs:32-32 | No invite body is a prekey body or a handshake transcript |
| `Invites.QueueRoundTrip` | crates/buh-crypto/src/invite.rs:48-74 | A queue descriptor decodes back to itself |
| `Invites.QueueExact` | crates/buh-crypto/src/invite.rs:56-74 | Octets decode to a queue descriptor if and only if they are a frame with its fields, of the right lengths, the address in UTF-8 |
| `Invites.U64Exact` | crates/buh-crypto/src/invite.rs:185-189 | Octets are read as an expiry exactly if they are the eight octets of it |
| `Invites.U64BigEndian` | crates/buh-crypto/src/invite.rs:105-105 | An expiry is written most significant half first |
| `Network.NetworkRunAllowed` | crates/buh-crypto/src/ratchet/header.rs:1-4 | A network that composes octets from what it knows and has seen, without the root or anything derived from it, forges nothing: every run of it is one the run theorems speak about |
| `Network.RawNetworkRunAllowed` | crates/buh-crypto/src/ratchet/header.rs:1-4 | The same for runs in memory |
| `Network.ComposedUnforged` | crates/buh-crypto/src/ratchet/mod.rs:316-319 | A composed ciphertext that opens under a key of the session is one that was sent |
| `Network.SecretsHidden` | crates/buh-crypto/src/ratchet/chain.rs:27-63 | Without the root, no root, chain, message or AEAD key of the session can be composed |
| `Network.RootNeedsBoth` | crates/buh-crypto/src/pqxdh.rs:4-7 | Whoever composes the handshake root holds an X25519 secret and a KEM secret of the handshake |
| `Network.HandshakeRootUnreachable` | crates/buh-crypto/src/pqxdh.rs:4-7 | One unbroken half of the hybrid keeps the root out of reach, however much goes on the wire |
| `Network.SessionExactlyOnce` | crates/buh-crypto/src/ffi.rs:275-369 | From handshake to plaintext, over such a network: each plaintext is that of a different message of the peer |
| `Network.SentComposable` | crates/buh-crypto/src/ratchet/mod.rs:227-232 | Every message of the session is among what such a network can deliver |
| `MailboxRuns.StoreIsHistory` | crates/buh-data/src/turso_mailbox.rs:48-144 | After any run the table is exactly, in push order, the accepted envelopes not swept, each with the queue, id and payload of its request, the time it came and when its time to live is over, and marked delivered if and when it was acknowledged |
| `MailboxRuns.FateGone` | crates/buh-data/src/turso_mailbox.rs:134-144 | An envelope is gone if and only if a sweep after its push came at or after its expiry |
| `MailboxRuns.FateOffered` | crates/buh-data/src/turso_mailbox.rs:101-144 | An envelope is undelivered if and only if nothing after its push acknowledged or swept it |
| `MailboxRuns.FateDelivered` | crates/buh-data/src/turso_mailbox.rs:101-132 | An envelope is marked delivered at a time if and only if its first acknowledgement was served then and no sweep reached its expiry |
| `MailboxRuns.AckExact` | crates/buh-data/src/turso_mailbox.rs:101-132 | An acknowledgement answers true if and only if that envelope was pushed to that queue before and neither acknowledged nor swept since |
| `MailboxRuns.AckOnce` | crates/buh-data/src/turso_mailbox.rs:110-121 | After one success every later acknowledgement of the same envelope answers false |
| `MailboxRuns.ReceiptsExact` | crates/buh-data/src/turso_mailbox.rs:123-131 | A receipt is in the table if and only if an acknowledgement of that envelope at that time succeeded |
| `MailboxRuns.ReceiptsUnique` | crates/buh-data/migrations/0001_init.sql:32-37 | No envelope ever has two receipts |
| `MailboxRuns.PullExact` | crates/buh-data/src/turso_mailbox.rs:78-99 | In any run a pull is refused if and only if a live undated row is in reach of its limit; otherwise it answers only with unexpired, unacknowledged, unswept envelopes of its queue, and leaves one out only for older ones and a reached limit |
| `MailboxRuns.PullAnswered` | crates/buh-data/src/turso_mailbox.rs:161-175 | While every accepted push arrives and expires within the calendar, every pull of the run is answered |
| `MailboxRuns.PulledAsPushed` | crates/buh-data/src/turso_mailbox.rs:54-99 | An envelope pulled has the id and payload of a push request to that queue, was received at the push's clock, and expires a thousand times its seconds to live later, saturated |
| `MailboxRuns.PushAnswered` | crates/buh-core/src/mailbox.rs:18-36 | A push is answered with its envelope id if and only if its payload is neither empty nor too large, else with the reason |
| `MailboxRuns.SweepAnswered` | crates/buh-data/src/turso_mailbox.rs:134-144 | A sweep is answered with the number of rows whose expiry has come |
| `MailboxClients.SweepsInvisible` | crates/buh-data/src/turso_mailbox.rs:78-144 | With a clock that does not run backwards, a pull answers as if every sweep before it had been left out |
| `MailboxClients.SweepsAnywhere` | crates/buh-data/src/turso_mailbox.rs:78-144 | Runs that differ only in their sweeps answer their last pull alike |
| `MailboxClients.DrainIsScan` | crates/buh-data/src/turso_mailbox.rs:78-132 | Pulling and acknowledging in turn against the changing table is one pass over the queue as it stood, cut off before the first batch with a date out of range |
| `MailboxClients.Drained` | crates/buh-core/src/mailbox.rs:39-55 | For every requested limit draining ends; it yields each envelope at most once and in order, each unexpired in its round, until all that is left has expired or the next batch holds a date out of range |
| `MailboxClients.LineInPushOrder` | crates/buh-data/src/turso_mailbox.rs:84-90 | After a run whose clock does not run backwards, delivery order is push order |
| `MailboxClients.ExpiredAckSucceeds` | crates/buh-core/src/ports.rs:37-44 | An expired envelope is acknowledged with true before a sweep and false after |
| `Mailbox.SelectExact` | crates/buh-data/src/turso_mailbox.rs:82-90 | The query selects live rows of the queue, sorted by arrival then id, at most the limit, and whatever qualifies but is left out comes after all of them |
| `Mailbox.PullRefused` | crates/buh-data/src/turso_mailbox.rs:94-98 | A pull is refused if and only if some live row of the queue has a date out of range and fewer live rows before it than the limit |
| `Mailbox.PushedDated` | crates/buh-data/src/turso_mailbox.rs:55-56 | A push makes a row with dates in range exactly if its arrival and its arrival plus its time to live are in range |
| `Mailbox.ClampTtlRange` | crates/buh-core/src/mailbox.rs:62-69 | The clamped time to live lies in [1, max] if and only if the request is positive or the default lies there |
| `Mailbox.ClampTtlExact` | crates/buh-core/src/mailbox.rs:62-69 | A positive request is granted up to the maximum; any other gets the default |
| `Mailbox.ExpiryExact` | crates/buh-data/src/turso_mailbox.rs:56-56 | Expiry is arrival plus a thousand times the seconds to live wherever that fits in 64 bits, and the largest value where it is too large |
| `Mailbox.InsertExact` | crates/buh-data/src/turso_mailbox.rs:48-76 | An insert is refused, changing nothing, exactly if the queue holds that id; else one row is added with what was passed in and the highest id |
| `Mailbox.ExpireExact` | crates/buh-data/src/turso_mailbox.rs:134-144 | A sweep keeps exactly the rows that expire later and answers the number of the others |
| `Mailbox.MailboxRepo.PushRow` | crates/buh-data/src/turso_mailbox.rs:48-76 | Inserts one row with saturated expiry, or is refused by the unique index; ids ascend and keys stay unique |
| `Mailbox.MailboxRepo.PullRows` | crates/buh-data/src/turso_mailbox.rs:78-99 | The row loop answers the selected envelopes in order, or fails on a date out of range |
| `Mailbox.MailboxRepo.AckRow` | crates/buh-data/src/turso_mailbox.rs:101-132 | Marks the undelivered row of that key and adds a receipt, or changes nothing |
| `Mailbox.MailboxRepo.ExpireRows` | crates/buh-data/src/turso_mailbox.rs:134-144 | Removes exactly the rows whose expiry has come, and counts them |
| `Mailbox.MailboxRepo.PushEnvelope` | crates/buh-core/src/mailbox.rs:18-36 | Refuses empty and oversized payloads, otherwise pushes with the clamped time to live |
| `Mailbox.MailboxRepo.PullEnvelopes` | crates/buh-core/src/mailbox.rs:39-46 | Pulls with the limit clamped to [1, maximum] |

## Left out

- The internals of X25519 (clamping, low-order points), ML-KEM, ML-DSA, HKDF and XChaCha20-Poly1305, and structural checks on their
  keys beyond length: symbolic functions stand for them.
- `aead::seal` failing on a plaintext too long for the cipher: plaintexts in runs are shorter than 2^64 octets.
- `WireError::FieldTooLong`, which only a 32-bit target can return.
- `Frame::aad`, `with_flags`, `has_flag` and `reject_reserved_pq`: one-step helpers outside the modelled protocols.
- `Prekeys.SecretsRoundTrip`: secrets blobs are modelled on values, since their buffer is written without a loop; the reader that
  parses them is the one verified for frames and sessions.
- The `buh1:` base64url wrapper of invites, and the `expiry_ms as f64` conversion of the parsed invite view.
- Overflow checks of debug builds: counters wrap.
- `Mailbox.MailboxRepo.PushRow`: row ids are unbounded integers, and storage errors of the SQL engine other than the unique index
  are not modelled.
- `Mailbox.MailboxRepo.AckRow`: storage errors are not modelled, so neither is a receipt that fails to be written after its row
  was marked.
- The long-poll notifier, the HTTP handlers, TLS and node trust, the peer registry, blob stores, media sealing, configuration,
  settlement, the web client and deployment: outside the modelled protocols or without a hard property of their own.
