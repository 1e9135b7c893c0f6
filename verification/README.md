# Verified model of keycard-rs

A Dafny model of the parts of keycard-rs, the Rust library for the Status Keycard, that carry
its protocol and data formats, with proofs of what they promise. `dafny verify dfyconfig.toml`
checks the whole project.

- `SecureChannelV2.dfy`, `NonceSafety.dfy`, `DecryptionSafety.dfy`: the version 2 secure channel
  as an object with its counter array, and every interleaving of its operations against any
  channel.
- `LockstepV2.dfy`, `SessionsV2.dfy`, `ReplaysV2.dfy`: a mirror card at the end of a line that
  delivers or loses commands and replies, or puts something else in place of a reply; runs that
  open the channel again and again; a line that replays. Commands are not altered on the line.
- `Cbc.dfy`, `SecureChannelV1.dfy`, `SafetyV1.dfy`: the version 1 secure channel, whose
  initialisation vector is also its authentication code, against any channel.
- `LockstepV1.dfy`, `SessionsV1.dfy`, `ReplaysV1.dfy`: its mirror card over the same lines. Here
  lockstep holds up to the first accepted reply that is not the card's own, and a replayed one
  can be accepted; when it is, and what follows, is stated exactly.
- `BerLength.dfy`, `TlvCodec.dfy`, `OptionalFields.dfy`: BER lengths (ITU-T X.690, section
  8.1.3), the TLV reader and writer, and optional fields in a fixed order.
- `Utf8.dfy`, `Ranges.dfy`, `Metadata.dfy`, `MetadataLaws.dfy`: the metadata blob, with a name in
  UTF-8 and wallet ids as runs.
- `Keycard.dfy`, `NdefLaws.dfy`: the protected send over either version and the chunked NDEF
  write, down to the card's memory.
- `KeyPaths.dfy`, `Bip32.dfy`, `ApplicationInfos.dfy`: derivation paths, key pairs and the
  reply to SELECT.
- `Bytes.dfy`, `Apdu.dfy`, `Channel.dfy`, `Link.dfy`, `SuiteInstances.dfy`: what they share.

Each object is a class with the source's fields, whose methods are proved to compute a function
of the old state; the theorems about whole runs are lemmas about those functions.

## Assumptions

- The cryptographic primitives are arbitrary functions in a `Suite`. The laws used are
  `LawfulAead` (decryption undoes encryption, and the tag adds eight bytes), `LawfulHandshake`
  (key agreement commutes, points decode, signatures verify), `LawfulCipher` (a block
  permutation has an inverse) and `LawfulAgreement` (key agreement commutes, points decode). Each
  has an instance: `ToySuiteIsLawful`, `ToySuiteHandshakes`, `ToySuiteV1IsLawful`.
- The transport's answer is an arbitrary function of everything sent so far.
- The lockstep theorems of version 2 assume that the run considered is not forged (`UnforgedRun`,
  `UnforgedSteps`): data that the line puts in place of a reply does not decrypt under the card's
  current key and nonce, unless it is the card's own reply, and a signature that the card's key
  accepts, over a transcript with the salt and point of this opening, is over the point that the
  card sent in answer to it (`UnforgedOpening`).
  For a line that answers requests with earlier replies (`ReplayedSteps`) the first part is
  proved instead, from two assumptions on the replies that the card has sealed so far: its
  sessions do not share a key (`FreshKey`), and a reply sealed under another key or nonce is
  rejected under those of now (`RejectsEarlier`). `AssumptionsHoldTogether` shows an instance of
  all of these together with the laws, across two sessions.
- The lockstep theorems of version 1 hold on any line up to the first reply that verifies without
  being the card's own (`TrueReply`). That none comes is a stronger assumption than that no code
  is forged, because a code does not cover the command it answers; for earlier replies it is
  neither proved nor true in general (`ReplaysV1`). The answer to an opening has no code at all:
  the theorem over many sessions assumes that a session is not opened on another (`TrueOpening`).
- A request that goes out unprotected, before the first opening, is not a protected command that
  the card executes (`PlainIsPlain`).
- Random values, salts and ephemeral keys are inputs, and drawing them may fail.
- Numbers are unbounded; every cast the source makes to 8, 16 or 32 bits is written out, and the
  64-bit sum in the range loop is proved not to overflow.

## Where the code differs from what is said about it

- A comment in `transmit` (src/secure_channel/v2.rs:289-290) says that a nonce is never handed to
  decryption again. It can be, when a handshake completes between a command and its exchange,
  because the handshake keeps the pending nonce: `StaleNonceIsDecryptedTwice`. After a handshake
  no nonce can be decrypted with twice if and only if none was pending or the last one was:
  `DecryptionSafety.HandshakeKeepsDecryption`.
- The comment on `established` (src/secure_channel/v1.rs:44-49) says that it guards a session that
  has carried protected traffic. A mutual authentication that fails has carried some, but leaves
  the flag clear, and the next request goes out as it is: `SafetyV1.PlaintextAfterProtected`. The
  exact rule is `SafetyV1.PlaintextExactly`.
- The comments in `transmit` (src/secure_channel/v1.rs:355-361, 400-407) close the session when a
  reply is lost or its code does not match, as host and card may then be out of step. They can be
  so when a code does match: `update_iv` (src/secure_channel/v1.rs:503-532) starts from a zero
  block and covers only the length and ciphertext of a reply. An earlier reply of the session matches as
  well, and is accepted if and only if its plaintext has at least 16 bytes or its one block still
  unpads: `ReplaysV1.ReplayedReply`. The host can then be open and out of step
  (`ReplayBreaksStep`), a write acknowledged and not executed (`NdefLaws.ReplayedAcknowledgement`),
  and the next command executed with another payload (`MisalignedExchange`). Nor does a
  successful opening depend on the challenge: `OpeningIgnoresChallenge`.
- `protected_command` of version 2 accepts 255 bytes, but a payload above 242 gives a frame whose
  length byte is wrong: `LockstepV2.CardReceives`.
- STORE DATA carries the offset in words in one byte, so an NDEF write of more than 1100 bytes
  can be acknowledged throughout without being stored: `LongWriteIsAcknowledged`.
- Reading a SELECT reply is not confined to its template, so bytes after it that begin with the
  tag of an absent last field are taken for that field: `ApplicationInfos.InfoRecovered`.
- The metadata name is documented as ASCII; the code accepts UTF-8. A name of more than 31 bytes,
  more than 100,000 ids, or a run that starts above the 32-bit range is written but not read back
  as it was: `MetadataLaws.RoundTrip`.

## Model

| member | source | states |
|---|---|---|
| Apdu.Serialize | src/apdu.rs:34-54 | writes exactly the frame of the command: header, one length byte, data, expected-length byte |
| Apdu.FrameRoundTrip | src/apdu.rs:31-54 | a short-APDU receiver recovers the command exactly when its data has at most 255 bytes; a longer one gives a frame it refuses; the expected length is always 0 |
| Apdu.ResponseRoundTrip | src/apdu.rs:105-118 | splitting raw bytes into data and status loses nothing, and fails exactly below two bytes |
| BerLength.DecodeBerLength | src/tlv.rs:75-106 | the accumulating loop reads the big-endian value of the field, with every error case |
| BerLength.LengthRoundTrip | src/tlv.rs:58-106 | in any surroundings a written length is read back with the exact next offset if and only if it is below 2^32, and otherwise modulo 2^32 |
| BerLength.DecodedExactly | src/tlv.rs:75-106 | what is decoded, wherever it stands, is exactly a short-form byte or a count of one to four and as many bytes; all else is refused with one error |
| BerLength.DecodedFieldIsBounded | src/tlv.rs:75-106 | an accepted field lies in the data, denotes less than 2^32, and is no shorter than the encoder's field for its value |
| BerLength.LengthSizeSubadditive | src/tlv.rs:58-70 | joining two counts never takes more length bytes than both |
| Ranges.InOrder | src/metadata.rs:145 | ordered iteration yields every element once, increasing |
| Ranges.RunsNormal | src/metadata.rs:140-154 | the runs found from left to right are sorted, separated by gaps, and their union is the set |
| Ranges.NormalUnique | src/metadata.rs:140-154 | a set has only one such list, so the ranges written are its maximal runs |
| Ranges.CanonicalRuns | src/metadata.rs:140-154 | the maximal runs of a set: sorted, gaps between them, union the set, sizes adding up to its size |
| Ranges.InsertCost | src/metadata.rs:61-85 | merging one more parsed range into maximal runs never costs more bytes than that range |
| Metadata.Metadata.constructor | src/metadata.rs:91-96 | new metadata has the name and no wallets |
| Metadata.Metadata.SetCardName | src/metadata.rs:104-110 | replaces the name if it has at most 20 bytes, else errs and changes nothing |
| Metadata.Metadata.AddWallet | src/metadata.rs:118-120 | adds exactly that id |
| Metadata.Metadata.RemoveWallet | src/metadata.rs:123-125 | removes exactly that id |
| Metadata.Metadata.Serialize | src/metadata.rs:128-163 | writes header, name and the maximal runs of the wallet set |
| Metadata.Compress | src/metadata.rs:140-154 | the one-pass loop yields the runs of the ordered ids, without 64-bit overflow |
| Metadata.WriteRanges | src/metadata.rs:156-160 | writes start and count of each range, cut to 32 bits |
| Metadata.Parse | src/metadata.rs:37-88 | the loops compute the parse of the blob: every error case, both caps, and the inserted ids |
| Utf8.Utf8Exactly | src/metadata.rs:54-56 | the well-formed names are exactly the encodings of sequences of Unicode scalar values |
| MetadataLaws.AcceptedExactly | src/metadata.rs:37-88 | a blob is accepted, and as these contents, if and only if it is version 1 over the length of the name, an encoding of Unicode scalar values, and fields that spell ranges of at most 100,000 ids in all, whose union are the ids; all else gives one error |
| MetadataLaws.ParseWritten | src/metadata.rs:61-85 | written ranges are accepted exactly when their total is within the cap, and yield exactly their union |
| MetadataLaws.ParsedRunsAreCheap | src/metadata.rs:61-85 | the maximal runs of what is parsed cost at most the bytes read |
| MetadataLaws.WrittenFormIsShortest | src/metadata.rs:37-163 | no accepted blob is shorter than the written form of its contents |
| MetadataLaws.RoundTrip | src/metadata.rs:37-163 | contents come back from being written if and only if the name has at most 31 bytes, there are at most 100,000 ids, and no id of 2^32 or more lacks its predecessor |
| MetadataLaws.CanonicalisationIsLossless | src/metadata.rs:37-163 | every accepted blob, read, written and read again, gives the same contents |
| MetadataLaws.CanonicalFormDecidesEquality | src/metadata.rs:37-163 | two accepted blobs are rewritten alike exactly when they mean the same |
| Channel.CardChannel.Send | src/channel.rs:8-17 | appends the command to what was sent and answers with an arbitrary function of it |
| SecureChannelV2.IncrementCounts | src/secure_channel/v2.rs:498-507 | the counter is at its limit exactly at its greatest value, and else goes up by one |
| SecureChannelV2.IncrementIsAddition | src/secure_channel/v2.rs:498-507 | counting up is big-endian addition modulo 256 to the length |
| SecureChannelV2.SecureChannelV2.constructor | src/secure_channel/v2.rs:78-93 | a new session is closed, without keys, with a zero counter and the given trust lists |
| SecureChannelV2.SecureChannelV2.SetCardCertificate | src/secure_channel/v2.rs:97-124 | given what parsing yields: accepts exactly a trusted authority or a whitelisted card, and records the identity key of a parsed certificate even if it refuses it |
| SecureChannelV2.SecureChannelV2.IncrementNonce | src/secure_channel/v2.rs:498-507 | the in-place carry loop computes the increment and closes the session exactly on wrap-around |
| SecureChannelV2.SecureChannelV2.EncryptCcm | src/secure_channel/v2.rs:463-476 | seals under the host key and current nonce, and traces that use |
| SecureChannelV2.SecureChannelV2.DecryptCcm | src/secure_channel/v2.rs:482-495 | opens under the card key and the given nonce, and traces that use |
| SecureChannelV2.SecureChannelV2.Protect | src/secure_channel/v2.rs:238-282 | keeps open implies keys and established; full new state and result of each branch |
| SecureChannelV2.SecureChannelV2.TransmitCommand | src/secure_channel/v2.rs:284-334 | sends once, consumes the pending nonce, and ends in the state of the branch taken |
| SecureChannelV2.SecureChannelV2.OpenSecureChannel | src/secure_channel/v2.rs:190-199 | closes the session and sends the opening request |
| SecureChannelV2.SecureChannelV2.HandleHandshakeResponse | src/secure_channel/v2.rs:375-421 | replaces the keys before the signature is checked, and opens only after it verifies |
| SecureChannelV2.SecureChannelV2.Open | src/secure_channel/v2.rs:145-171 | the whole opening, including failure of randomness before anything is touched |
| SecureChannelV2.SecureChannelV2.Reset | src/secure_channel/v2.rs:344-358 | back to a new session; the trace stays |
| NonceSafety.RunKeepsInvariant | src/secure_channel/v2.rs:238-421 | every interleaving keeps: open implies keys and established, the counter is the number of encryptions of this session, one key per session |
| NonceSafety.NonceNeverReused | src/secure_channel/v2.rs:238-282 | in every run the k-th encryption of a session uses nonce k - 1, and two of one session share the key and never the nonce (RFC 3610, section 2.1) |
| NonceSafety.KeyAndNonceNeverReused | src/secure_channel/v2.rs:238-282 | if different handshakes give different keys, no key is used twice with one nonce over the whole run |
| NonceSafety.SessionsAreBounded | src/secure_channel/v2.rs:498-507 | no session encrypts more than 2^104 times, and one that did is closed |
| NonceSafety.ClosedRefuses | src/secure_channel/v2.rs:246-250 | a closed, once established session refuses every command until it is opened or reset |
| NonceSafety.NoPlaintextFallback | src/secure_channel/v2.rs:246-282 | after a successful opening, on every run without reset, a yielded command is the encryption of the request under a recorded use |
| NonceSafety.PlaintextExactly | src/secure_channel/v2.rs:246-253 | a command goes out as it is exactly when the session is closed and no opening succeeded since the last reset |
| NonceSafety.OpenExactlyOnSuccess | src/secure_channel/v2.rs:145-171 | once the request is sent, the session is open afterwards exactly if the opening succeeded; before, nothing changes |
| NonceSafety.OpeningExactly | src/secure_channel/v2.rs:375-421 | for every session, draw and outcome, an opening succeeds if and only if the answer is OK with 67 bytes, its point decodes, and the key of the certificate accepts its signature over label, salt and both points; the whole state after success and after failure |
| NonceSafety.TransportIsReported | src/secure_channel/v2.rs:284-313 | a failure, a status that is not OK, and any reply to a closed session reach the caller as they are |
| NonceSafety.ResetStartsAnew | src/secure_channel/v2.rs:344-358 | after a reset every run goes as from a new session |
| DecryptionSafety.HandshakeKeepsDecryption | src/secure_channel/v2.rs:412-420 | after any run and one more completed handshake: no continuation without a further stale handshake decrypts with a nonce twice, if and only if no nonce was pending or the last one was |
| DecryptionSafety.StaleNonceIsReused | src/secure_channel/v2.rs:284-334 | from any handshake with a stale nonce pending, commands and proper replies lead to a second decryption with it |
| DecryptionSafety.DecryptionNonceUsedOnce | src/secure_channel/v2.rs:284-334 | over all runs: no handshake completes on a stale nonce exactly when after no step a nonce has been or can be decrypted with twice in a session |
| DecryptionSafety.StaleNonceIsDecryptedTwice | src/secure_channel/v2.rs:289-291 | a concrete run in which one session decrypts twice with nonce zero |
| LockstepV2.CardReceives | src/secure_channel/v2.rs:255-281 | a card in step executes exactly the request, if and only if the payload has at most 242 bytes |
| LockstepV2.ExchangeKeepsStep | src/keycard.rs:292-295 | over an unforged lossy line an exchange keeps host and card in step; a host still open had its request executed and returns the card's reply, and a lost message closes it |
| LockstepV2.UnforgedExactly | src/keycard.rs:292-295 | nothing is forged in an exchange if and only if a host still open had its request executed and holds the card's own reply |
| LockstepV2.DeliveredExchange | src/secure_channel/v2.rs:284-334 | on delivery: executed exactly up to 242 bytes, still open exactly short of the last nonce, and then the reply is the card's; at the last nonce it is returned sealed |
| LockstepV2.Lockstep | src/keycard.rs:292-295 | in every run the card executes a prefix of the accepted requests, in order and once each, and all of them if the host is still open |
| LockstepV2.OpeningKeepsStep | src/secure_channel/v2.rs:145-171 | an opening at any time between exchanges, over a line that forges no signature, keeps host and card in step, and the card executes nothing |
| LockstepV2.HonestHandshake | src/secure_channel/v2.rs:145-171 | a handshake delivered to the holder of the identity key always succeeds and puts both in step if no command is in flight |
| SessionsV2.LockstepAcrossSessions | src/keycard.rs:292-295 | in every run of requests and openings, from a new session on, the card executes what was sent protected in order and at most once each, and everything after which the host was still open, which also got the card's reply |
| SessionsV2.PlainRequestIsAnswered | src/secure_channel/v2.rs:246-253 | before the first opening a request goes out as it is and returns what comes back, on delivery exactly the card's reply |
| ReplaysV2.EarlierCounterIsLower | src/secure_channel/v2.rs:255-281 | in every history, a reply the card sealed earlier in its session was sealed under a lower counter |
| ReplaysV2.ReplayedReplyCloses | src/secure_channel/v2.rs:315-331 | answering a command with any earlier sealed reply of the card forges nothing and closes the host |
| ReplaysV2.AssumptionsHoldTogether | src/secure_channel/v2.rs:315-331 | one instance meets the laws and both assumptions about replays after a history with a request in one session and an opening of another |
| SessionsV2.ReplaysForgeNothing | src/keycard.rs:292-295 | on a line that answers requests with earlier replies at will, every run is unforged, so that lockstep holds |
| Cbc.PadRoundTrip | src/secure_channel/v1.rs:313-320 | removing the padding undoes it for every payload |
| Cbc.UnpadExactly | src/secure_channel/v1.rs:385-395 | what is accepted as padded is exactly data, the marker and at most fifteen zeros |
| Cbc.PaddedRoundTrip | src/secure_channel/v1.rs:385-395 | decryption with padding removal undoes encryption with padding |
| Cbc.MacIsLastBlock | src/secure_channel/v1.rs:506-529 | the code is the last block of the chained encryption of header and data |
| SecureChannelV1.SecureChannelV1.constructor | src/secure_channel/v1.rs:54-65 | a new session is closed, without keys, with a zero block |
| SecureChannelV1.SecureChannelV1.GenerateSecret | src/secure_channel/v1.rs:69-92 | the public key of the drawn private key, and the secret it agrees on with the card's point |
| SecureChannelV1.SecureChannelV1.SetPairing | src/secure_channel/v1.rs:420-422 | records the pairing |
| SecureChannelV1.SecureChannelV1.UpdateIv | src/secure_channel/v1.rs:503-532 | the nested in-place loops compute the recursive code of header and data, over whole blocks |
| SecureChannelV1.SecureChannelV1.Protect | src/secure_channel/v1.rs:293-346 | keys of an open session are there, so no step can fail; full new state of each branch |
| SecureChannelV1.SecureChannelV1.TransmitCommand | src/secure_channel/v1.rs:348-414 | sends once; the state after each of its error and success branches |
| SecureChannelV1.SecureChannelV1.OpenSecureChannel | src/secure_channel/v1.rs:243-252 | closes the session and sends the opening request |
| SecureChannelV1.SecureChannelV1.HandleOpenResponse | src/secure_channel/v1.rs:454-492 | sets block and keys and opens, or errs and changes nothing |
| SecureChannelV1.SecureChannelV1.MutuallyAuthenticate | src/secure_channel/v1.rs:254-271 | sends at most one protected command, after randomness |
| SecureChannelV1.SecureChannelV1.Open | src/secure_channel/v1.rs:139-158 | the whole opening and what it sends; established is set only at its successful end |
| SecureChannelV1.SecureChannelV1.Reset | src/secure_channel/v1.rs:424-437 | clears keys, block and flags; secret and pairing stay |
| SafetyV1.Run | src/secure_channel/v1.rs:310-311 | in every interleaving the keys of an open session are present |
| SafetyV1.ProtectedFrame | src/secure_channel/v1.rs:310-345 | a payload is accepted exactly up to 223 bytes and else the chain is untouched; an accepted frame authenticates its header and decrypts to the payload, and fits a short APDU |
| SafetyV1.CodeIsLastBlock | src/secure_channel/v1.rs:503-532 | the code of header and ciphertext is the last block of their chained encryption from a zero block |
| SafetyV1.HeaderIsAuthenticated | src/secure_channel/v1.rs:326-338 | over one ciphertext two commands share a code only if class, instruction, parameters and length agree, two replies only if their lengths do |
| SafetyV1.TransportIsReported | src/secure_channel/v1.rs:348-414 | a closed session passes on every outcome and stays as it was; an open one passes on a failure and the status 0x6982, and closes |
| SafetyV1.RefusedReply | src/secure_channel/v1.rs:370-411 | what an open session makes of any data: too little, not unpadding, or a wrong code closes it with one error, and only a wrong code has moved the block |
| SafetyV1.AnswerExactly | src/secure_channel/v1.rs:454-492 | the answer to an opening is accepted if and only if it is OK with 48 bytes and secret and pairing are known; the keys and block it gives |
| SafetyV1.OpeningExactly | src/secure_channel/v1.rs:139-158 | an opening succeeds if and only if key, secret and pairing are known, the answer is accepted, and the reply to the authentication has the right code and 32 bytes with status OK |
| SafetyV1.ResetStartsAnew | src/secure_channel/v1.rs:424-437 | after a reset every run goes as from a new session with the same secret and pairing |
| SafetyV1.NoPlaintextFallback | src/secure_channel/v1.rs:301-345 | after a successful opening, on every run without reset, a yielded command is protected |
| SafetyV1.PlaintextExactly | src/secure_channel/v1.rs:301-308 | a command goes out as it is exactly when the session is closed and no opening succeeded since the last reset |
| SafetyV1.FailedAuthentication | src/secure_channel/v1.rs:151-156 | an opening that fails while authenticating has sent a protected command, and falls back to plaintext exactly if it leaves the session closed |
| SafetyV1.PlaintextAfterProtected | src/secure_channel/v1.rs:139-158 | from a new session: a protected command goes out, its reply is lost, and the next request goes out as it is |
| LockstepV1.UnverifiedCloses | src/secure_channel/v1.rs:365-407 | an open host closes on any response that does not verify under the code of its command |
| LockstepV1.ReplyOpens | src/secure_channel/v1.rs:377-410 | a reply sealed under the command's code opens to its plaintext and leaves both blocks equal |
| LockstepV1.ExchangeKeepsStep | src/keycard.rs:292-295 | on any line the card executes the request at most once, and the host is closed or at the code of a response that verified; only the card's own reply verifies if and only if a host still open had the request executed and holds that reply, and then both are in step |
| LockstepV1.DeliveredExchange | src/secure_channel/v1.rs:293-414 | on delivery a request is executed exactly up to 223 bytes, the host stays open and returns the card's reply |
| LockstepV1.Lockstep | src/keycard.rs:292-295 | in every run on any line, up to the first reply that verifies without being the card's own, the card executes a prefix of the accepted requests, in order and once each, and all of them if the host is still open |
| SessionsV1.OpeningImplies | src/secure_channel/v1.rs:139-158 | what a successful opening implies: open and established on any line; in step with a card that executed the authentication, if both replies were the card's own |
| SessionsV1.HonestOpening | src/secure_channel/v1.rs:139-158 | an opening delivered to the paired card, at any time, succeeds and puts both in step |
| SessionsV1.FirstOpening | src/secure_channel/v1.rs:69-158 | a new host that agrees a secret with the card's key and holds the key of one of its pairing slots opens the channel: the request names that slot and carries its key |
| SessionsV1.PlainRequestIsAnswered | src/secure_channel/v1.rs:301-308 | before the first opening a request goes out as it is and returns what comes back, on delivery exactly the card's reply |
| SessionsV1.LockstepAcrossSessions | src/keycard.rs:292-295 | in every run of requests and openings, from a new session on, in which only the card's own replies are accepted, the card executes what was sent protected in order and at most once each, and everything after which the host was still open |
| ReplaysV1.ReplayedReply | src/secure_channel/v1.rs:365-410 | an earlier reply of the session is accepted if and only if its plaintext has 16 bytes or its block, mixed with both codes, still unpads; the host is then at its code, in step exactly if the card is too, and returns what it opens to |
| ReplaysV1.ReplayBreaksStep | src/secure_channel/v1.rs:365-410 | for every suite, session and pair of requests there is a card whose first reply in place of its second leaves the host open and out of step |
| ReplaysV1.MisalignedExchange | src/secure_channel/v1.rs:310-345 | what a card at another block makes of a command: it executes a payload of 16 bytes or more, the one requested exactly if the blocks were equal, and a shorter one exactly if it unpads; then both are in step, else both closed |
| ReplaysV1.RejectedReplaysKeepLockstep | src/keycard.rs:292-295 | on a line that replays only what is not accepted, lockstep holds over the whole run |
| ReplaysV1.OpeningIgnoresChallenge | src/secure_channel/v1.rs:139-158 | whether an opening succeeds is decided by the two replies alone, for every challenge |
| Keycard.KeycardCommandSet.Send | src/keycard.rs:292-295 | protects and transmits over either version, with class 0x80 |
| Keycard.KeycardCommandSet.StoreDataWithOffset | src/keycard.rs:820-827 | sends the offset in words, cut to a byte |
| Keycard.KeycardCommandSet.StoreChunks | src/keycard.rs:851-873 | the loop sends the chunks in order up to the first that is not acknowledged, and always has a response or an error to return |
| Keycard.KeycardCommandSet.WriteNdef | src/keycard.rs:833-877 | prefixes and chunks for major versions above 2, else one command |
| NdefLaws.PrefixIdempotent | src/keycard.rs:841-849 | the payload is kept; the prefix is right, and prefixing again changes nothing, exactly for data already prefixed or of at most 65535 bytes |
| NdefLaws.ChunksAddressedExactly | src/keycard.rs:820-827 | every chunk goes to its own offset if and only if there are at most 1100 bytes |
| NdefLaws.ChunkExchange | src/keycard.rs:856-862 | a 220-byte chunk fits under both versions; on any line, only the card's own reply is accepted if and only if a host still open had the chunk executed and holds that reply |
| NdefLaws.WriteProgress | src/keycard.rs:855-869 | a write of any length on any line, up to the first accepted reply that is not the card's own, leaves exactly the chunks the host knows of executed and acknowledged, and at most one more executed |
| NdefLaws.RoomForAll | src/keycard.rs:855-869 | with enough nonces before the call, always under version 1, an OK result comes with the session open |
| NdefLaws.NdefWritten | src/keycard.rs:833-873 | up to 1100 prefixed bytes, on any line up to the first accepted reply that is not the card's own: the card acknowledged exactly the chunks the host received OK replies for; its memory is written with these, or with one more chunk, and is otherwise unchanged; a write without such a reply is OK exactly if it is all the data |
| NdefLaws.AcknowledgedWriteIsExact | src/keycard.rs:820-873 | a write with an OK result to a card without NDEF data, with only the card's own replies accepted, has stored the data if and only if it has at most 1100 bytes |
| NdefLaws.ReplayedAcknowledgement | src/keycard.rs:855-869 | that premise is needed: under version 1 an earlier OK reply in place of the last one acknowledges a chunk that was not executed |
| NdefLaws.LongWriteIsAcknowledged | src/keycard.rs:820-873 | on a line and card on which nothing fails, a write of any length returns OK, and has stored the data if and only if it has at most 1100 bytes |
| NdefLaws.OldCardWritten | src/keycard.rs:833-877 | a card of major version 2 or less, or unknown, has exactly the command with the given data executed on delivery if and only if it has at most 223 bytes, or 242 under version 2, and its reply is returned |
| NdefLaws.OldCardWriteOnce | src/keycard.rs:833-877 | where only the card's own reply is accepted, that command is executed at most once |
| NdefLaws.OldCardWrittenPlain | src/keycard.rs:833-877 | before the first opening it goes out as it is |
| TlvCodec.BerTlvReader.constructor | src/tlv.rs:119-121 | the cursor starts at the beginning |
| TlvCodec.BerTlvReader.ReadTag | src/tlv.rs:124-131 | the next byte, or an error at the end |
| TlvCodec.BerTlvReader.ReadLength | src/tlv.rs:145-149 | the length, and the cursor after it only on success |
| TlvCodec.BerTlvReader.EnterConstructed | src/tlv.rs:152-161 | tag and length; a wrong tag is consumed, and later reads are not confined |
| TlvCodec.BerTlvReader.ReadPrimitive | src/tlv.rs:164-183 | the value, and where the cursor stands after each error |
| TlvCodec.BerTlvReader.ReadBoolean | src/tlv.rs:186-195 | one byte, true exactly for 0xFF |
| TlvCodec.BerTlvReader.ReadInteger | src/tlv.rs:198-211 | the shifting loop is the two's complement reading of one to four bytes |
| TlvCodec.BerTlvWriter.WritePrimitive | src/tlv.rs:275-279 | appends tag, length and value |
| TlvCodec.BerTlvWriter.WriteBoolean | src/tlv.rs:298-300 | appends 0xFF or 0x00 |
| TlvCodec.BerTlvWriter.WriteInteger | src/tlv.rs:303-310 | appends the bytes without leading zeros, all four if negative |
| TlvCodec.BerTlvWriter.WriteTree | src/tlv.rs:282-295 | nested constructed elements, each through a temporary writer, append the encoding of the tree |
| TlvCodec.ReadTree | src/tlv.rs:152-183 | walking known tags with the reader computes the walk of the bytes |
| TlvCodec.PrimitiveRoundTrip | src/tlv.rs:164-183 | a written primitive is read back, ending at its end, if and only if its value is below 2^32 bytes |
| TlvCodec.PrimitiveExactly | src/tlv.rs:164-183 | a primitive is read if and only if the bytes up to the new position are its tag, a length field and the value |
| TlvCodec.WrongTagIsRefused | src/tlv.rs:124-183 | a wrong tag is consumed and refused; at the end nothing moves |
| TlvCodec.RefusedCursor | src/tlv.rs:145-211 | where the cursor stands after a length or value that is refused, and that there is one error |
| TlvCodec.BooleanExactly | src/tlv.rs:186-195 | a boolean is read if and only if its element has one byte, and is true exactly for 0xFF |
| TlvCodec.BooleanRoundTrip | src/tlv.rs:186-300 | a written boolean is read back |
| TlvCodec.IntegerExactly | src/tlv.rs:198-211 | an integer is read if and only if its element has one to four bytes, which denote it modulo 2^32 |
| TlvCodec.TreeRoundTrip | src/tlv.rs:152-295 | a tree is read back with its tags and values, ending at its end whatever follows, if and only if every primitive value is below 2^32 bytes |
| TlvCodec.IntegerBytesValue | src/tlv.rs:303-310 | the written bytes denote the integer and have no superfluous leading byte |
| TlvCodec.IntegerRoundTrip | src/tlv.rs:198-310 | writing then reading an integer is the identity on all 32-bit integers |
| OptionalFields.ReadOptional | src/parsing/bip32.rs:72-78 | reads a field exactly when the next tag is its own |
| OptionalFields.OptionalExactly | src/parsing/bip32.rs:72-78 | a field is read if and only if its element stands there, or absent if and only if its tag does not |
| KeyPaths.FromString | src/parsing/key_path.rs:36-70 | the vector steps compute the parse of the path |
| KeyPaths.ToString | src/parsing/key_path.rs:99-119 | the chunk loop prints the source and every whole component |
| KeyPaths.ComponentRoundTrip | src/parsing/key_path.rs:107-147 | a printed component parses to its own four bytes, hardened or not |
| KeyPaths.ParsePrinted | src/parsing/key_path.rs:36-119 | what parsing any printed path gives, including unknown sources, partial groups and too many components |
| KeyPaths.PathRoundTrip | src/parsing/key_path.rs:36-119 | a path survives printing and parsing if and only if its source is one of three and its data is at most ten whole components |
| KeyPaths.AcceptedTextRoundTrip | src/parsing/key_path.rs:36-119 | every accepted text, printed and parsed again, gives the same path |
| KeyPaths.SplitExactly | src/parsing/key_path.rs:37 | the pieces are the only texts without slashes that join to the text |
| KeyPaths.TrimExactly | src/parsing/key_path.rs:39 | trimming takes off white space at both ends, as much as there is |
| KeyPaths.ComponentExactly | src/parsing/key_path.rs:122-148 | a component is exactly decimal digits below 2^31, with an apostrophe for 2^31 more |
| KeyPaths.PathExactly | src/parsing/key_path.rs:36-70 | a text is accepted, and as this path, if and only if its pieces are one of three sources and at most ten components, or one to ten components that start at the current key |
| Bip32.StrippedKeyDenotesSame | src/parsing/bip32.rs:22-28 | stripping keeps the number, is done at most once up to 33 bytes, and leaves 32 bytes of a padded 33 |
| Bip32.ToTlv | src/parsing/bip32.rs:132-148 | writes the template of the present fields in order |
| Bip32.FromTlv | src/parsing/bip32.rs:61-97 | reads the optional fields in order, with every error |
| Bip32.DecodeEncoded | src/parsing/bip32.rs:61-148 | for every presence of fields, what reading a written pair gives |
| Bip32.KeyPairRoundTrip | src/parsing/bip32.rs:61-148 | a pair is restored up to its padding byte if and only if its public key is included or is the derived one |
| Bip32.PublicKeyExactly | src/parsing/bip32.rs:99-128 | the public key is the given one, or that of the 32 bytes of the private key with or without a zero in front, or empty |
| Bip32.PublicKeyIsDerived | src/parsing/bip32.rs:61-148 | a pair written without its public key comes back with that of the same 32 bytes |
| Bip32.AcceptedExactly | src/parsing/bip32.rs:61-97 | bytes are accepted, and as this pair, if and only if they spell the template tag and the fields in order as far as they are there |
| Bip32.ConsistentKeyPairRestored | src/parsing/bip32.rs:99-148 | a pair built from a private key of at most 33 bytes is restored with or without its public key |
| ApplicationInfos.FromTlv | src/parsing/application_info.rs:33-145 | the cursor steps compute the decoding of the reply |
| ApplicationInfos.InfoRecovered | src/parsing/application_info.rs:60-145 | with any bytes after the template, every combination of optional fields is recovered, the two INTEGER fields told apart, if and only if these bytes are not taken for an absent last field; exactly an empty status or capability field is refused |
| ApplicationInfos.FieldsMean | src/parsing/application_info.rs:60-145 | what status, capabilities, slots and version say, and their defaults |
| ApplicationInfos.AcceptedExactly | src/parsing/application_info.rs:33-145 | a reply is accepted, and as this information, if and only if it spells a bare key or a template of fields in order |
| ApplicationInfos.UninitializedRecovered | src/parsing/application_info.rs:36-58 | a bare public key is recovered, whatever follows it, with the capabilities its presence gives |

## Left out

- The PC/SC transport and the trait plumbing (src/pcsc.rs, src/channel.rs): I/O; the channel is an arbitrary function of the commands sent.
- The insides of AES, CCM, SHA-2, HKDF, secp256k1, ECDSA: library code not part of this model; functions with the laws above.
- Failure of CCM encryption and of HKDF expansion as such: they fail only for inputs longer than any the code passes.
- Certificate parsing, signature recovery, Ethereum addresses, mnemonics, LEE keys, application status, pairing bytes and base64: straight-line code over primitives that are not modelled.
- Pairing and unpairing (src/secure_channel/v1.rs:160-241): hashes around `transmit`; their effect on the session is covered by the operations `Exchange` and `Pair` of `SafetyV1`.
- The one-line command wrappers and SELECT in src/keycard.rs: settled by one branch; the version of the selected applet is an input of the NDEF write.
- Zeroizing on drop, error texts and accessors: no effect on the results modelled.
- The raw bytes kept inside a response: they are the data followed by the status word.
- Commands altered on the line: a command arrives as it was sent or not at all.
- SecureChannelV1.SecureChannelV1.GenerateSecret: takes the drawn private key and requires a card key that is a point; the panics otherwise are not part of this model.
- Aliasing between a reader and its buffer: the buffer is a value.
