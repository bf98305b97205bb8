# Cantil, modelled and verified

Cantil is an offline certificate authority on a microcontroller, with a C library for the host.
This project models the parts of it whose correctness is hardest to see from the code, and proves
what they promise: over every input for the codecs and the path builder, over every run and every
interleaving for the session, the gesture machine, the certificate store and the dispatcher.

`dafny verify dfyconfig.toml` checks everything.

| file | what it models |
|---|---|
| `Cbor`, `CborEmit`, `CborDecode` | the CBOR grammar of requests and responses (RFC 8949), the encoder, and what decoding means |
| `CborWritten`, `DecodeWritten` | the reading code with its own bound tests, and where it keeps to the grammar |
| `Der` | the right-to-left DER writer and the TLV length reader (X.690) |
| `Calendar`, `IssuedMeta`, `Crl`, `CrlReader` | dates, the issued-certificate record, the CRL encoder, and a CRL reader written from section 5.1 of RFC 5280 |
| `PathBuilder` | certificate path building over intermediates in any order |
| `NoiseCrypto`, `NoisePattern`, `NoiseHandshake` | Noise_XX: both implementations, against one interpreter of the Noise message patterns |
| `KeySchedule`, `NoiseNonces` | which AEAD keys and nonces are used, and that none repeats |
| `Transcript` | transcript binding: what an end that accepts a message knows of the other's conversation |
| `Channel`, `SessionOpens` | framing and the nonce-counted channel on a network that may do anything; whole sessions from handshake to channel |
| `ChainPayload` | the certificate chains carried by the handshake |
| `GestureInput`, `Gesture`, `GestureMachine` | taps, digits, and the gesture state machine: a step function, and a class that updates its variables in place |
| `GestureRuns`, `GestureSafety`, `GestureRules`, `GestureTyping` | what holds over every run of it |
| `Revocation`, `RevocationCrl`, `ChainWalk`, `KeySlots` | the issued-certificate store and the CRLs of its runs, the chain walk, the key slots |
| `Dispatcher` | the dispatcher's gates and confirmations over the gesture machine and the key slots |
| `Octets` | octet strings and counting |

Hashes, HMAC, Diffie-Hellman, AEAD, signatures, certificate parsing and the random sources are
function values or parameters. What is asked of them is written down where it is used: `Lawful`
(decryption inverts encryption, Diffie-Hellman commutes, lengths), `NoCollision` (the key
derivation outputs of the runs in question differ) `Unforged` (a frame that opens was
sealed), and for the handshake `Ideal` (no collision of the key derivation or the hash among the
handshakes considered) and `Genuine` (what opens was sealed by one of them, under the same key,
nonce and associated data).

A run of the gesture machine is a boot followed by any sequence of events: taps, silences, timer
fires, host requests, clock advances, reboots. Timers may fire at any moment, also stale ones. The
stretch of `deliver_confirm` in which the mutex is dropped is a state of its own (`Window`): other
threads act in it, timer handlers, which share one work queue with it, do not.

Where the code and its comments differ the model follows the code:

- `decode_map` skips unknown keys; the comment above it says that they are rejected.
- Signing writes issued metadata of version 1; the next rewrite of the record makes it version 2.
- A stored CRL number of 0 is emitted as 1, so an empty CRL and the one after the first revocation share a number.
- The bound tests of the CBOR reader add a 64-bit length to the offset, modulo 2^64. At a string head that claims nearly 2^64 octets the sum wraps, the test passes and the offset moves back. `skip_item` then succeeds where no item stands (`AcceptedWithoutItem`) or never returns (`NeverReturns`); `decode_map` hands out data that is not there (`FalseLengthDecoded`) or never returns (`UnknownKeyNeverReturns`); the chain parsers copy from beyond the payload (`OverrunExample`). `SkipWrittenExact`, `DecodeWrittenExact` and `TakeChainExact` say on exactly which inputs each of the reads is right. A wrap can also end in a refusal (`RefusedAfterWrap`), which is why the first two speak of every call made and not only of the last answer.
- The device decrypts message 3 into 2048 octets, so the limit on a client's chain is on its payload and not only on its certificates; a client with a payload of 2049 to 3000 octets finishes the handshake and the device does not (`CertTooLongByItsHead`). The client builds its payload in 3000 octets, so with a longer one it sends no message 3 and opens no session (`CertTooLongForClient`). `ExchangeChains` says which ends open when.
- `cantil_session_recv_to` compares the caller's buffer with the length of the tag only and not with the payload; a payload longer than the buffer is not modelled (`Recv`).
- `sizeof(msg2)` in `session_open` is the size of a pointer, so its bound test never refuses; that message 2 fits is proved from the limit on the chain instead (`DeviceReply`).
- `chain_walk` also answers "loop" when every slot was walked and the last one names an issuer out of range (`LoopExact`, `OutOfRangeExample`). Signing refuses such issuers, so it takes a volume written by a build with more slots.
- A tap made under a prompt during a lockout survives the prompt's timeout, and the sequence it completes is then evaluated inside the lockout (`PromptOpensLockout`); without a prompt the lockout holds (`EvaluationsAreSpaced`), and inside it nothing but a sequence with taps made while not locked is evaluated (`EvaluatedInLockout`).
- `write_time` writes a five-digit year from the year 10000 on, which no reader of the format accepts (`TimeReadsBack`).
- `unix_to_ymdhms` counts years in an `int`. From second 67767976233532800 on, the first of the year 2147483648, that count overflows (`IntYears`, `IntYearsExample`); what is proved of dates is about the code below that second.
- `write_serial_int` does not strip leading zeros; the CRL is strict DER exactly when stored serials have none to strip (`CrlReadsBack`), and generated serials never do (`GeneratedIsCanonical`).

## Model

| member | source | states |
|---|---|---|
| `Cbor.ReadHeadOctets` | common/cbor/cantil_cbor.c:162-208 | the octet-by-octet reader returns the major type and the argument as a big-endian number, or fails on exactly the truncated and reserved heads |
| `Cbor.ReadHeadOf` | common/cbor/cantil_cbor.c:162-208 | every head of every legal width reads back to its major type and argument |
| `Cbor.ReadHeadInv` | common/cbor/cantil_cbor.c:162-208 | whatever reads as a head is one of those encodings, and never shorter than the preferred one |
| `Cbor.HeadRoundTripShortest` | common/cbor/cantil_cbor.c:26-69 | the emitted head reads back exactly, and no shorter octet string reads to the same value |
| `Cbor.SkipComplete` | common/cbor/cantil_cbor.c:278-321 | with truthful bound tests, every well-formed item, however nested, is skipped by exactly its length |
| `Cbor.SkipSound` | common/cbor/cantil_cbor.c:278-321 | with truthful bound tests, whatever is skipped is a well-formed item, which the lemma produces |
| `Cbor.SkipExact` | common/cbor/cantil_cbor.c:278-321 | the two together: success exactly on inputs that begin with a well-formed item, moving by its length |
| `CborWritten.BoundTestExact` | common/cbor/cantil_cbor.c:289-295 | the test `*off + v > len` tells the truth if and only if the 64-bit sum does not wrap |
| `CborWritten.SkipItemLoop` | common/cbor/cantil_cbor.c:278-321 | the recursion with its counting loops and its own 64-bit bound test and size_t offset, for either width of size_t, against the function that lets the sum wrap; the depth parameter bounds the calls open at once |
| `CborWritten.SkipAgrees` | common/cbor/cantil_cbor.c:278-321 | where no sum wraps, the code does what the grammar says, and returns with at most one open call per octet left, whatever counts the heads claim |
| `CborWritten.WrapAccepted` | common/cbor/cantil_cbor.c:289-295 | a call at a wrapping head succeeds, moves the offset back, and no item stands there |
| `CborWritten.SkipWrittenExact` | common/cbor/cantil_cbor.c:278-321 | every call skip_item makes returns, succeeds exactly on a well-formed item and moves by its length, if and only if none is made at a wrapping head |
| `CborWritten.SkipRightEverywhere` | common/cbor/cantil_cbor.c:278-321 | skipping is right at every offset of an input if and only if no offset of it starts a wrapping head |
| `CborWritten.AcceptedWithoutItem` | common/cbor/cantil_cbor.c:289-295 | nine octets that are accepted without an item |
| `CborWritten.NeverReturns` | common/cbor/cantil_cbor.c:305-313 | ten octets on which no depth of recursion is enough |
| `CborWritten.RefusedAfterWrap` | common/cbor/cantil_cbor.c:289-295 | ten octets on which the sum wraps and the input is refused all the same |
| `Cbor.ItemLengthUnique` | common/cbor/cantil_cbor.c:278-321 | the grammar is prefix-free: two items at one place have one length |
| `CborEmit.EmitHead` | common/cbor/cantil_cbor.c:26-69 | writes the shortest head at the offset and nothing else, or refuses exactly when it does not fit |
| `CborEmit.EmitStr` | common/cbor/cantil_cbor.c:71-99 | the same for byte and text strings |
| `CborEmit.EncodeMap` | common/cbor/cantil_cbor.c:101-142 | the buffer holds exactly the two- or three-entry map, or the call fails because it does not fit |
| `DecodeWritten.ReadBstrView` | common/cbor/cantil_cbor.c:256-275 | read_bstr with its own bound test: the start and the claimed length |
| `DecodeWritten.DecodeMapLoop` | common/cbor/cantil_cbor.c:402-472 | the decoding loop computes, on every input, the function that lets sums wrap |
| `DecodeWritten.MapAgrees` | common/cbor/cantil_cbor.c:402-472 | where no sum wraps the code returns, with the fields or the error the grammar gives |
| `DecodeWritten.DecodeWrittenExact` | common/cbor/cantil_cbor.c:402-472 | every read decode_map makes is right if and only if none is made at a wrapping head; then its answer is the grammar's |
| `DecodeWritten.MapArrives` | common/cbor/cantil_cbor.c:144-158 | what one end encodes, the code at the other end decodes to the same fields |
| `DecodeWritten.FalseLengthDecoded` | common/cbor/cantil_cbor.c:446-454 | a request decoded with data of 2^64 - 1 octets that are not there |
| `DecodeWritten.UnknownKeyNeverReturns` | common/cbor/cantil_cbor.c:456-465 | a request whose unknown key is skipped forever |
| `CborDecode.DecodesToItsEntries` | common/cbor/cantil_cbor.c:402-472 | a map of any valid entries, known or unknown and of any head widths, decodes to those entries applied in order |
| `CborDecode.DecodeSound` | common/cbor/cantil_cbor.c:402-472 | whatever is accepted is a map of valid entries, which the lemma produces, and the result is those entries applied in order |
| `CborDecode.DecodesByMeaning` | common/cbor/cantil_cbor.c:402-472 | a map of two or three well-formed pairs is refused with the error of its first unfit value (wrong kind or too large), or as incomplete; otherwise it gives exactly the fields its values mean, whatever their head widths |
| `CborDecode.OrderIrrelevant` | common/cbor/cantil_cbor.c:402-472 | of two maps whose pairs mean the same under distinct keys, in any order and with any head widths, one is accepted if and only if the other is, with the same fields |
| `CborDecode.MapRoundTrip` | common/cbor/cantil_cbor.c:101-142 | decoding an encoded map returns its fields |
| `CborDecode.RequestRoundTrip` | common/cbor/cantil_cbor.c:474-495 | decode(encode(request)) is the request |
| `CborDecode.RequestExample` | common/cbor/cantil_cbor.c:101-142 | a request octet by octet |
| `CborDecode.ResponseExample` | common/cbor/cantil_cbor.c:101-142 | a response with data octet by octet |
| `CborDecode.ResponseRoundTrip` | common/cbor/cantil_cbor.c:497-518 | decode(encode(response)) is the response |
| `Der.Raw` | firmware/src/ca/der_write.c:8-16 | writes the octets left of the pointer, leaves everything right of it and left of `start` alone, returns the distance moved |
| `Der.Length` | firmware/src/ca/der_write.c:18-69 | writes the minimal DER length, or refuses |
| `Der.Tag` | firmware/src/ca/der_write.c:71-78 | writes one octet, or refuses |
| `Der.Int` | firmware/src/ca/der_write.c:80-109 | writes the minimal positive INTEGER of the value |
| `Der.Mpint` | firmware/src/ca/der_write.c:111-135 | writes the INTEGER of a magnitude, stripped and padded; a length of zero is taken as one |
| `Der.Oid` | firmware/src/ca/der_write.c:137-145 | writes the OBJECT IDENTIFIER element |
| `Der.IntRoundTripMinimal` | firmware/src/ca/der_write.c:80-109 | an INTEGER reads back to its value, and no other minimal content does |
| `Der.MpintRoundTrip` | firmware/src/ca/der_write.c:111-135 | a magnitude reads back to the same number, without superfluous octets |
| `Der.TlvLen` | firmware/src/ca/der_write.c:149-181 | the reading loop computes the measure function |
| `Der.MeasureOf` | firmware/src/ca/der_write.c:149-181 | every element the writers build is measured exactly, whatever follows it |
| `Der.StrictIsMeasured` | firmware/src/ca/der_write.c:149-181 | whatever a strict DER reader accepts is measured to the same length |
| `Der.MeasureExact` | firmware/src/ca/der_write.c:149-181 | what is measured is a whole element under the tag with its length in at most that many octets, and every such element is |
| `Der.SplitLoop` | firmware/src/session/session.c:396-417 | the loop that cuts a blob into elements computes the split function |
| `Der.SplitExact` | firmware/src/session/session.c:396-417 | the parts stand in the blob in order, and splitting stops only at the end, at the limit, or where nothing measures |
| `Der.SplitConcat` | firmware/src/session/session.c:396-417 | concatenated elements split back into exactly those elements, up to the limit |
| `Calendar.UnixToCivil` | firmware/src/ca/ca.c:2393-2427 | the year and month loops return a valid Gregorian date and time whose second count is the input; the year fits the source's `int` if and only if the input is below 67767976233532800, and from there on the loops are not the code's |
| `Calendar.IntYears` | firmware/src/ca/ca.c:2402-2411 | a date's year fits an `int` if and only if its second is before that bound |
| `Calendar.IntYearsExample` | firmware/src/ca/ca.c:2402-2411 | the bound is the first second of the year 2147483648 and fits a 64-bit time |
| `Calendar.CivilUnique` | firmware/src/ca/ca.c:2393-2427 | no other valid date has that second count |
| `Calendar.WriteTime` | firmware/src/ca/ca.c:2431-2456 | writes the Time element for the instant, UTCTime for 1950 to 2049 and GeneralizedTime otherwise |
| `Calendar.TimeReadsBack` | firmware/src/ca/ca.c:2431-2456 | a reader of section 5.1.2.4 of RFC 5280 gets the same instant back if and only if the year is before 10000; about the code for seconds below 67767976233532800 |
| `Calendar.Year10000Example` | firmware/src/ca/ca.c:2431-2456 | the first instant that does not read back |
| `IssuedMeta.ReadPack` | firmware/src/ca/ca.c:91-124 | a version 2 record reads back unchanged, a version 1 record without reason and revocation time |
| `IssuedMeta.With` | firmware/src/ca/ca.c:82-84 | setting a flag sets it and no other |
| `Crl.Collect` | firmware/src/ca/ca.c:2365-2389 | collects the first 64 revoked certificates of the slot in store order and says whether there were more |
| `Crl.EntriesExact` | firmware/src/ca/ca.c:2365-2389 | an entry is listed if and only if a stored record reads as one of that slot, marked revoked, under the entry's serial, and the entry's date is the recorded one, or thisUpdate where none is recorded |
| `Revocation.ListedInOrder` | firmware/src/ca/ca.c:2365-2389 | a revoked record is listed exactly behind the revoked records of its slot before it in the store |
| `Crl.WriteSerialInt` | firmware/src/ca/ca.c:2461-2481 | writes the serial as an INTEGER element |
| `Crl.WriteRevokedEntry` | firmware/src/ca/ca.c:2485-2495 | writes one entry |
| `Crl.WriteExtensions` | firmware/src/ca/ca.c:2498-2532 | writes the cRLNumber extension |
| `Crl.WriteTbs` | firmware/src/ca/ca.c:2551-2600 | writes the whole TBSCertList or refuses when it does not fit |
| `Crl.BuildCrl` | firmware/src/ca/ca.c:2602-2775 | the finished list is at the front of the buffer exactly when everything fits and the signature succeeds |
| `CrlReader.CrlReadsBack` | firmware/src/ca/ca.c:2551-2600 | the independent reader returns exactly version, issuer, dates, entries, number and signature if and only if the dates are before 10000 and the serials canonical |
| `CrlReader.ContentsReadable` | firmware/src/ca/ca.c:2602-2640 | for a store with canonical serials the contents are readable: the first 64 entries in order, number at least 1 |
| `CrlReader.BuiltCrlReadsBack` | firmware/src/ca/ca.c:2602-2775 | from store to reader: a verifier reads exactly the slot's revoked serials with their dates, signed over the TBS octets |
| `PathBuilder.TryPromote` | firmware/src/ca/certparse_wolfssl.c:440-463 | an intermediate is promoted if and only if the anchor or another trusted intermediate signed it, and then has a path |
| `PathBuilder.Promote` | firmware/src/ca/certparse_wolfssl.c:438-467 | a round keeps trust sound, reports progress exactly when it grew, and without progress the set is closed |
| `PathBuilder.BuildPath` | firmware/src/ca/certparse_wolfssl.c:413-468 | the promotion rounds succeed if and only if a path of signatures runs from the leaf to the anchor; n + 1 rounds always suffice |
| `PathBuilder.VerifyChain` | firmware/src/ca/certparse_wolfssl.c:376-476 | returns 0 exactly for parsed leaf and anchor, few enough intermediates, and such a path |
| `PathBuilder.AcceptedMeans` | firmware/src/ca/certparse_wolfssl.c:349-476 | that condition written out: a chain from leaf to anchor through given intermediates, each a CA named as issuer by the one before it whose key verifies its signature |
| `PathBuilder.ClosedIsComplete` | firmware/src/ca/certparse_wolfssl.c:419-468 | a closed trusted set holds every intermediate that has a path |
| `PathBuilder.MoreNeverHurts` | firmware/src/ca/certparse_wolfssl.c:376-476 | an accepted chain given with more intermediates is accepted if and only if they are within the limit |
| `PathBuilder.OrderNeverMatters` | firmware/src/ca/certparse_wolfssl.c:376-476 | permuting the intermediates never changes whether the chain is accepted |
| `PathBuilder.NoAnchorNoTrust` | firmware/src/ca/certparse_wolfssl.c:376-476 | intermediates vouching only for each other get no leaf accepted |
| `NoiseCrypto.NonceInjective` | firmware/src/session/noise_crypto_wolfssl.c:36-42 | different counters below 2^64 give different nonce octets |
| `NoiseCrypto.NonceOctets` | firmware/src/session/noise_crypto_wolfssl.c:36-42 | four zero octets, then the counter, least significant octet first |
| `NoiseCrypto.HkdfFormsAgree` | firmware/src/session/noise_crypto_wolfssl.c:200-233 | the device's RFC 5869 HKDF cut in half equals the client's chained HMACs |
| `NoiseHandshake.SymState.MixHash` | firmware/src/session/session.c:94-97 | the hash absorbs the data and nothing else changes |
| `NoiseHandshake.SymState.MixKey` | firmware/src/session/session.c:99-113 | chaining key and key are replaced, the nonce restarts, at either end |
| `NoiseHandshake.SymState.EncryptAndHash` | firmware/src/session/session.c:119-140 | the state and ciphertext of section 5.2 of the Noise framework, keyed or not; without room nothing changes; the key and nonce used are recorded |
| `NoiseHandshake.SymState.DecryptAndHash` | firmware/src/session/session.c:147-168 | the plaintext or a failure, keyed or not, and the state after it |
| `NoiseHandshake.SymState.Split` | libcantil/src/session.c:155-158 | the two transport keys |
| `NoisePattern.SealOpens` | firmware/src/session/session.c:119-168 | from equal states what one end seals the other opens, and the states are equal again |
| `NoisePattern.MessageAgrees` | firmware/src/session/session.c:539-801 | for any pattern message between mirrored ends, reading succeeds, returns the payload, and the ends mirror each other again |
| `NoiseHandshake.DeviceRead` | firmware/src/session/session.c:577-610 | message 1 is accepted exactly when it has 32 octets, and leaves the pattern's state |
| `NoiseHandshake.DeviceReply` | firmware/src/session/session.c:612-700 | message 2 is the pattern's message with the chain as payload, and always fits its buffer |
| `NoiseHandshake.DeviceFinish` | firmware/src/session/session.c:708-801 | message 3 is accepted exactly when the pattern accepts it, it is within limits and the key is the expected one |
| `NoiseHandshake.ClientHello` | libcantil/src/session.c:395-439 | message 1 as the pattern writes it |
| `NoiseHandshake.ClientRead` | libcantil/src/session.c:440-500 | message 2 is accepted exactly when it has 96 to 4096 octets and the pattern accepts it; the device's keys and payload are returned |
| `NoiseHandshake.ClientReply` | libcantil/src/session.c:601-640 | message 3 as the pattern writes it |
| `NoiseHandshake.RunAgrees` | firmware/src/session/session.c:539-801 | in every run the two symmetric states agree after each message and nothing is lost |
| `NoiseHandshake.HonestRun` | libcantil/src/session.c:395-666 | both implementations driven against each other: the client finishes exactly when no Diffie-Hellman refuses, the device exactly when also the client's payload fits 2048 octets and its key is the expected one, if one is; each that finishes holds the other's static key and payload, and the transport keys are crossed; the payload, here arbitrary, is what the client's buffer yields in `ExchangeChains` |
| `NoiseNonces.DeviceRunUses` | firmware/src/session/session.c:577-770 | whatever arrives and however far it gets, the device encrypts under exactly these keys and nonces, and after message 3 its chaining key is three steps along the schedule |
| `NoiseNonces.ClientRunUses` | libcantil/src/session.c:428-640 | the same of the client |
| `NoiseNonces.TransportKeys` | firmware/src/session/session.c:171-175 | the transport keys are the last step of the key schedule |
| `KeySchedule.CipherKeysDiffer` | firmware/src/session/session.c:99-113 | keys of different steps, of either end, differ |
| `KeySchedule.PairsDistinct` | firmware/src/session/session.c:99-140 | all key and nonce pairs of two schedules, however far each has come and with any number of transport messages, are distinct |
| `Channel.RunUses` | libcantil/src/session.c:694-713 | over every run and network, each end's transport encryptions are its key with the counters 0, 1, and so on |
| `NoiseNonces.NoNonceReuse` | libcantil/src/session.c:694-713 | of all that a device run and a client run encrypt, in handshake messages and in any run of the channel, against any network and however far each gets, no two share key and nonce octets |
| `Transcript.SameTranscript` | firmware/src/session/session.c:94-97 | equal handshake hashes mean equal transcripts |
| `Transcript.SealsAreUses` | firmware/src/session/session.c:119-140 | the AEAD calls the theorems below speak of are all the calls the two handshakes are recorded to make |
| `Transcript.DeviceWriting` | firmware/src/session/session.c:603-699 | message 2 consists of the two sealings, each with the hash of everything before it as associated data |
| `Transcript.ClientWriting` | libcantil/src/session.c:607-639 | the same of message 3 |
| `Transcript.ClientBinds` | libcantil/src/session.c:440-500 | against any network and among any number of handshakes: the client accepts message 2 only if some device wrote it in answer to the very message 1 this client sent |
| `Transcript.DeviceBinds` | firmware/src/session/session.c:701-801 | the device accepts message 3 only if some client wrote it after the very messages 1 and 2 the device saw |
| `Transcript.MetIsRun` | firmware/src/session/session.c:539-801 | the two are then one honest run: each end holds the static key and payload of the other |
| `Channel.RecvExact` | firmware/src/session/session.c:224-261 | however the octets arrive in pieces, exactly the next `len` octets of the stream are returned, or a failure |
| `Channel.RecvFrame` | firmware/src/session/session.c:276-295 | whatever the chunking, a frame is returned only if it is next on the stream and not too long; and then it is, if the stream neither fails nor stalls |
| `Channel.FrameLength` | firmware/src/session/session.c:263-273 | the two octets before a frame are its length, most significant first |
| `Channel.FrameUnique` | firmware/src/session/session.c:264-295 | a stream begins with at most one frame |
| `Channel.Session.Send` | firmware/src/session/session.c:811-829 | the frame is the payload sealed under the current nonce, which is recorded and used up; too long a payload changes nothing |
| `Channel.Session.Recv` | firmware/src/session/session.c:831-857 | a payload is returned, and the nonce advances, exactly when the frame opens under the current nonce; a frame that is there is read from a steady stream, and the device's buffer is never overrun |
| `Channel.StepKeeps` | libcantil/src/session.c:694-743 | every send and every frame the network hands over keeps the channel invariant |
| `Channel.AcceptedIsPrefix` | firmware/src/session/session.c:811-857 | over every run and network, what each end has accepted is a prefix of what the other has sent |
| `Channel.NextFrameArrives` | libcantil/src/session.c:715-743 | the next frame in line is always accepted and is the next payload |
| `SessionOpens.DeviceOpen` | firmware/src/session/session.c:539-801 | the device's handshake as one method, on whatever arrives: what it has encrypted is what its run writes; it opens a session exactly when it accepts message 3, within its buffers and from the expected client if one is; and that session sends under the run's key from counter zero |
| `SessionOpens.ClientOpen` | libcantil/src/session.c:395-666 | the same of the client |
| `SessionOpens.ChannelStartsFresh` | firmware/src/session/session.c:765-801 | the keys an honest run splits off are the same at both ends and differ by direction |
| `SessionOpens.SessionDelivers` | libcantil/src/session.c:640-743 | so over every run of the session an honest handshake opens, each end has accepted a prefix of what the other sent |
| `SessionOpens.AuthenticSession` | firmware/src/session/session.c:539-857 | the whole way on any network: a device that accepts message 3 shares keys, static keys and payloads with one client, and over every run of their session each has accepted a prefix of what the other sent |
| `SessionOpens.ExchangeChains` | libcantil/src/session.c:491-600 | the client opens, with the device's chain stored whole, if and only if no Diffie-Hellman refuses and its own payload fits 3000 octets; the device opens if and only if the payload also fits 2048, and stores the client's chain whole if and only if it then has at most four certificates |
| `SessionOpens.ClientPayload` | libcantil/src/session.c:518-605 | the client's payload is the chain of its certificate and its issuers, or the empty map without a certificate, or nothing exactly when it does not fit 3000 octets |
| `SessionOpens.CertTooLongByItsHead` | firmware/src/session/session.c:751-763 | a certificate within the store's limit whose payload fits the client's buffer and not the device's |
| `SessionOpens.CertTooLongForClient` | libcantil/src/session.c:518-605 | a certificate whose payload does not fit the client's buffer |
| `ChainPayload.EncodeChain` | firmware/src/session/session.c:427-452 | the buffer holds exactly the chain payload of the certificates, or the call fails because it does not fit |
| `ChainPayload.ChainStore.Append` | firmware/src/session/session.c:497-520 | a certificate is kept when count and space allow it, and every earlier one stays readable |
| `ChainPayload.ChainStore.Parse` | firmware/src/session/session.c:460-523 | the store holds exactly what the loop with its own size_t tests takes, and the method says when the code would copy from beyond the payload |
| `ChainPayload.TakeChainExact` | firmware/src/session/session.c:460-523 | the code stores exactly the certificates the grammar finds within its limits, and copies from beyond the payload if and only if it reaches a wrapping string claiming 2^64 - k octets with k or more stored |
| `ChainPayload.OverrunExample` | firmware/src/session/session.c:500-517 | a payload on which it does |
| `ChainPayload.ChainStore.Get` | firmware/src/session/session.c:877-889 | returns the certificate at an index, or nothing past the end |
| `ChainPayload.ChainRoundTrip` | firmware/src/session/session.c:427-523 | a chain payload parses to the same leaf-first list, cut only where the receiver's limits cut it |
| `ChainPayload.WithinLimitsLongest` | firmware/src/session/session.c:502-520 | what the limits leave is a prefix within both, and the next certificate would break one |
| `ChainPayload.PayloadHead` | firmware/src/session/session.c:460-500 | a nonempty map whose first key is 1 with an array is read as a chain, in any head widths |
| `ChainPayload.PayloadHeadInv` | firmware/src/session/session.c:460-500 | and nothing else is |
| `ChainPayload.DeviceChainArrives` | libcantil/src/session.c:300-349 | every chain the device can send reaches the client whole |
| `ChainPayload.ClientChainStored` | firmware/src/session/session.c:460-523 | of the payloads that fit its buffer, the device stores exactly those chains whole that have at most four certificates |
| `ChainPayload.DeviceIdentityArrives` | firmware/src/session/session.c:362-420 | from a leaf and a stored issuer blob the client receives the leaf and the first three issuers, in order |
| `ChainPayload.ClientMeasures` | libcantil/src/session.c:533-552 | the client's own length parse measures every DER certificate exactly |
| `ChainPayload.ClientMeasureExact` | libcantil/src/session.c:533-552 | exactly what it measures, and the length octet 0x80 that it takes for an empty content |
| `ChainPayload.ClientSplitConcat` | libcantil/src/session.c:573-600 | concatenated certificates split back into themselves |
| `ChainPayload.CountCerts` | libcantil/src/session.c:528-556 | the counting pass counts exactly the certificates the emitting pass will find |
| `ChainPayload.BuildClientChain` | libcantil/src/session.c:521-600 | the payload is exactly the chain of the leaf and the parts of the blob, with a true count, or does not fit |
| `GestureInput.SeqHasInvalid` | firmware/src/gesture/gesture.c:197-205 | true exactly when some digit is invalid |
| `GestureInput.CloseBinary` | firmware/src/gesture/gesture.c:306-328 | the loop turns bits into triplet digits, an incomplete triplet into an invalid one |
| `GestureInput.TripletsExact` | firmware/src/gesture/gesture.c:306-328 | each digit from its three bits, the first the highest; 7 and an incomplete triplet are invalid |
| `GestureInput.TypedDigits` | firmware/src/gesture/gesture.c:292-302 | counting taps in groups gives exactly those counts as digits, counts beyond the palette as invalid |
| `GestureInput.DoubleIsTwo` | firmware/src/gesture/gesture.c:580-636 | a double tap counts as two taps |
| `GestureInput.FoldFits` | firmware/src/gesture/gesture.c:580-636 | whatever is tapped, no buffer is overrun |
| `GestureMachine.Machine.constructor` | firmware/src/gesture/gesture.c:516-578 | boots locked with the stored sequence and failure count, or the defaults when they cannot be read |
| `GestureMachine.Machine.ReportTap` | firmware/src/gesture/gesture.c:580-636 | the tap step of the machine, for each alphabet, dropped in a lockout |
| `GestureMachine.Machine.NoteUnlockFailure` | firmware/src/gesture/gesture.c:137-148 | counts modulo 2^32, persists, and past the threshold locks out for 10, 30, 120, 600 and then 3600 seconds |
| `GestureMachine.Machine.NoteUnlockSuccess` | firmware/src/gesture/gesture.c:150-157 | clears count and lockout when there were failures |
| `GestureMachine.Machine.DeliverConfirm` | firmware/src/gesture/gesture.c:238-250 | takes the pending callback and opens its window with the result |
| `GestureMachine.Machine.ProcessSequence` | firmware/src/gesture/gesture.c:367-514 | the processing step of every state |
| `GestureMachine.Machine.SilenceTimeout` | firmware/src/gesture/gesture.c:331-365 | the silence step: closes a digit, or processes a sequence and clears the accumulator |
| `GestureMachine.Machine.RequestTimeout` | firmware/src/gesture/gesture.c:252-289 | the expiry step of each kind of request |
| `GestureMachine.Machine.CallbackReturned` | firmware/src/gesture/gesture.c:238-250 | closes the window, clearing the accumulator where the silence handler goes on to |
| `GestureMachine.Machine.RequestFromHost` | firmware/src/gesture/gesture.c:709-785 | the request step of each kind and its return code |
| `GestureMachine.Machine.SetUnlockSequence` | firmware/src/gesture/gesture.c:675-707 | the step and the return code, including a write that fails |
| `GestureMachine.Machine.ReadState` | firmware/src/gesture/gesture.c:646-666 | locks an idle device first, so that it never reports one as unlocked |
| `GestureMachine.Machine.ResetInactivityTimer` | firmware/src/gesture/gesture.c:668-673 | the activity step |
| `GestureRuns.RunSound` | firmware/src/gesture/gesture.c:238-289 | in every run a callback is pending exactly while the machine awaits the user, and returns to locked or unlocked |
| `GestureRuns.ExactlyOnce` | firmware/src/gesture/gesture.c:709-785 | since the last reboot, the accepted requests are those whose callback has run, in order and once each, and the pending one |
| `GestureRuns.RequestExact` | firmware/src/gesture/gesture.c:718-721 | in every run a request is accepted exactly when the device is unlocked, or locked and asked to pair, or to reset where that is allowed; it is never refused for another being pending |
| `GestureRuns.AccIsEntered` | firmware/src/gesture/gesture.c:331-365 | the accumulator always holds exactly what was entered since it was last cleared |
| `GestureSafety.PendingHeld` | firmware/src/gesture/gesture.c:709-785 | a pending callback belongs to one accepted request, held in its awaiting state ever since, with the accumulator cleared after it |
| `GestureSafety.DeliveryAnswers` | firmware/src/gesture/gesture.c:470-509 | a callback gets Ok if and only if what was entered after its own request is the right sequence, and TimedOut if and only if its timer fired |
| `GestureSafety.OpenOnlyByEntry` | firmware/src/gesture/gesture.c:378-394 | whenever the device is open, the unlock sequence was entered since it was last locked |
| `GestureSafety.UnlockSeqIsStored` | firmware/src/gesture/gesture.c:516-536 | with storage working that sequence is the stored one, or the alphabet's default when none is stored |
| `GestureSafety.DefaultMustChange` | firmware/src/gesture/gesture.c:434-468 | after a factory-default unlock the device is unlocked only once one valid sequence was entered twice in a row |
| `GestureSafety.CountIsWrongs` | firmware/src/gesture/gesture.c:137-157 | with storage working the count in memory, the stored count and the wrong sequences since the last right one agree, across reboots |
| `GestureSafety.EvaluationsAreSpaced` | firmware/src/gesture/gesture.c:113-148 | without reboot or prompt, the next sequence is evaluated no sooner than 10, 30, 120, 600 seconds after the last wrong one for the first four counts past the threshold, and an hour for every later one |
| `GestureSafety.LockoutSchedule` | firmware/src/gesture/gesture.c:113-130 | the schedule in numbers, and that it never falls as the count grows |
| `GestureSafety.DeadlineExact` | firmware/src/gesture/gesture.c:137-148 | the deadline a wrong sequence sets, to the millisecond |
| `GestureSafety.TapsAfterDeadline` | firmware/src/gesture/gesture.c:580-594 | from the deadline on taps count again |
| `GestureSafety.PromptOpensLockout` | firmware/src/gesture/gesture.c:580-594 | a concrete run with a prompt in which one is |
| `GestureSafety.EvaluatedInLockout` | firmware/src/gesture/gesture.c:580-594 | while locked and in lockout a sequence is evaluated if and only if a silence closes one that holds a tap made, since the accumulator was last cleared, while the device was not locked |
| `GestureRules.PromptReturns` | firmware/src/gesture/gesture.c:252-290 | however a prompt ends, the device is then in the state in which it was opened |
| `GestureRules.LocksWhenIdle` | firmware/src/gesture/gesture.c:646-673 | asking for the state locks an unlocked device exactly when the host has been inactive for the configured time |
| `GestureRules.LeavesUnlocked` | firmware/src/gesture/gesture.c:396-433 | an unlocked device stays so until a reboot, a prompt, inactivity, or one of three sequences entered on it |
| `GestureRules.SequenceChangedBy` | firmware/src/gesture/gesture.c:434-470 | short of a reboot the unlock sequence changes only by the host on an unlocked device, or by the user entering a valid one twice in a row |
| `GestureTyping.TappingWorks` | firmware/src/gesture/gesture.c:378-482 | tapping a sequence out has the documented effect in every state: unlocking, locking, pairing, starting and completing a change, answering a prompt |
| `GestureTyping.KnockingWorks` | firmware/src/gesture/gesture.c:378-510 | the same on the two alphabets of single and double taps |
| `GestureTyping.BootListens` | firmware/src/gesture/gesture.c:516-578 | a booted machine is locked and listens, whatever lockout was under way |
| `Revocation.Certs.Sign` | firmware/src/ca/ca.c:981-1016 | under a generated serial, adds one unflagged version 1 record anywhere in the listing or replaces the one there; a failing write changes nothing |
| `Revocation.PutRecords` | firmware/src/ca/ca.c:981-1016 | what is written under a serial is read there, and every other record is left alone |
| `Revocation.Certs.RevokeCert` | firmware/src/ca/ca.c:1604-1647 | refuses bad, unknown, unreadable, protected and revoked certificates; otherwise marks the record and bumps the slot's number, each as far as it can be written |
| `Revocation.RevokeExact` | firmware/src/ca/ca.c:1604-1647 | success, unknown serial and protected certificate, each as one condition on the record |
| `RevocationCrl.RevokeRecords` | firmware/src/ca/ca.c:1604-1647 | a successful revocation records the flag, the time and no reason |
| `Revocation.Certs.AutoExpire` | firmware/src/ca/ca.c:1655-1704 | marks exactly the records whose time has come, up to the first that cannot be written, and returns their number if there is none |
| `Revocation.ExpireMarks` | firmware/src/ca/ca.c:1655-1681 | a record is marked expired exactly when its certificate has an end that is not in the future; nothing else changes |
| `Revocation.ExpiringIsMarked` | firmware/src/ca/ca.c:1683-1704 | the number returned is the number of records newly marked |
| `Revocation.Certs.ProtectIssued` | firmware/src/ca/ca.c:1963-1982 | protects exactly the certificates the slot issued whose records can be written |
| `Revocation.ProtectMarks` | firmware/src/ca/ca.c:1963-1982 | a record is marked protected exactly when the slot issued it; nothing else changes |
| `Revocation.StepKeeps` | firmware/src/ca/ca.c:1604-1704 | each operation, with any writes failing, keeps the record under every serial: flags, revocation time and reason, and protection against revocation |
| `Revocation.RunKeeps` | firmware/src/ca/ca.c:91-124 | so over every run and wherever records come to be listed: no flag clears, a recorded revocation time survives the upgrade and every rewrite, what was protected unrevoked is never revoked |
| `Revocation.FlagSetBy` | firmware/src/ca/ca.c:1604-1704 | over every run, a flag a record has gained was set by one event for that event's own reason: its revocation, its expiry, or its issuer's protection |
| `Revocation.NumberIsCount` | firmware/src/ca/ca.c:1633-1641 | while a slot is not deleted and its number can be written, its stored CRL number is the count of its revoked certificates |
| `Revocation.CountIsListed` | firmware/src/ca/ca.c:2365-2389 | that count is the number of entries its CRL would list |
| `Revocation.EmittedNeverFalls` | firmware/src/ca/ca.c:2623-2630 | the emitted number is that count, or 1, and never falls |
| `Revocation.DeletedForgets` | firmware/src/ca/ca.c:1928-1956 | deleting a slot forgets its number and no other |
| `RevocationCrl.GeneratedIsCanonical` | firmware/src/ca/ca.c:381-391 | a generated serial is an INTEGER without superfluous octets |
| `RevocationCrl.CrlOfRun` | firmware/src/ca/ca.c:2602-2775 | whatever was signed, revoked, expired and protected since the store was empty, a slot's CRL reads back to exactly its revoked serials in store order (the first 64), numbered by their count |
| `RevocationCrl.RevocationListed` | firmware/src/ca/ca.c:2365-2389 | a certificate revoked with success is from then on in every list of its issuer, once, with its serial and the date of its revocation, whatever happens in between |
| `RevocationCrl.RevocationRead` | firmware/src/ca/ca.c:2365-2389 | and so a verifier reads it, when it is among the first 64 |
| `ChainWalk.Append` | firmware/src/ca/ca.c:1310-1364 | the recursion appends exactly what the walk function returns, after what the buffer held |
| `ChainWalk.WalkFollows` | firmware/src/ca/ca.c:1310-1382 | with readable certificates and room: success exactly when the links recorded on the volume lead, within as many slots as there are, to a pushed chain or a root; "loop" exactly when they lead further |
| `ChainWalk.NextLinks` | firmware/src/ca/ca.c:1344-1363 | the walk goes on exactly where the certificate's serial is on record as issued by another slot, and ends exactly at a pushed chain, a serial without a record, or one that names its own slot |
| `ChainWalk.WalkReturns` | firmware/src/ca/ca.c:1310-1382 | the certificates along the links, leaf first, and the chain pushed for the last slot |
| `ChainWalk.WalkStops` | firmware/src/ca/ca.c:1310-1325 | links to no slot of the device and to a slot without certificate are told apart |
| `ChainWalk.DepthBoundExact` | firmware/src/ca/ca.c:1310-1316 | that many links can be followed exactly for a cycle, or when the last issuer is out of range, never both |
| `ChainWalk.LoopIsCycle` | firmware/src/ca/ca.c:1310-1382 | with recorded issuers in range, "loop" is answered if and only if the links enter a cycle |
| `ChainWalk.LoopExact` | firmware/src/ca/ca.c:1310-1382 | in general, if and only if they do or every slot was walked and the last names an issuer out of range, never both |
| `ChainWalk.OutOfRangeExample` | firmware/src/ca/ca.c:1310-1320 | a volume on which "loop" is answered without a cycle |
| `KeySlots.Slots.ProvisionCa` | firmware/src/ca/ca.c:730-822 | creates the CA key, protected, only in an empty slot 0 of a volume that may mint; which refusal is given when, and that it changes nothing |
| `KeySlots.Slots.GenerateKey` | firmware/src/ca/ca.c:1836-1926 | creates an unprotected key in the lowest free slot from 1 on; which refusal is given when |
| `KeySlots.Slots.DeleteKey` | firmware/src/ca/ca.c:1928-1956 | deletes an unprotected slot other than 0 and no other; a protected one is refused as such; a deletion that fails half-way leaves garbage for a key |
| `KeySlots.Slots.SetProtection` | firmware/src/ca/ca.c:1984-2043 | success means that the slot is now protected, or not, as asked, and every other slot as before; without metadata, or when it cannot be written, nothing changes |
| `Dispatcher.GateExact` | firmware/src/protocol/protocol.c:297-374 | which commands reach their handlers, as one condition |
| `Dispatcher.JobPassedGates` | firmware/src/protocol/protocol.c:297-374 | a command waits for the user only after every gate, and provisioning only on a marked volume without a CA key |
| `Dispatcher.NextKeys` | firmware/src/ca/ca.c:1928-1956 | no step but the deletion of an unprotected slot, complete or not, touches a key that is there |
| `Dispatcher.CaKeyForever` | firmware/src/ca/ca.c:730-822 | over every run without a wipe the CA key once present never changes |
| `Dispatcher.KeyGoneWasDeleted` | firmware/src/ca/ca.c:1928-1956 | over every run, a key that is gone or changed was deleted while its slot was unprotected |
| `Dispatcher.ProtectionNeedsUser` | firmware/src/protocol/protocol.c:714-735 | over every run a protected slot keeps its key and protection up to a removal of that protection whose own request the user answered, after it was made, with the confirm sequence |
| `Dispatcher.ProtectedKeyGone` | firmware/src/ca/ca.c:1928-1956 | so a key whose slot was once protected is gone or changed only by a deletion after such a removal |
| `Dispatcher.NextProtects` | firmware/src/ca/ca.c:1984-2043 | a confirmed change of protection leaves the slot as asked, every other as it was, and every key alone |
| `Dispatcher.ProtectingProtects` | firmware/src/protocol/protocol.c:691-735 | over every run a slot the user had protected keeps its key and its deletion is refused, up to a removal the user answered |
| `Dispatcher.RemovingRemoves` | firmware/src/protocol/protocol.c:714-735 | after a confirmed removal the slot is unprotected and can be deleted |
| `Dispatcher.NextNewKey` | firmware/src/ca/ca.c:1836-1926 | a key appears only on a volume that may mint, by generation in the lowest free slot or by a confirmed provisioning |
| `Dispatcher.NextGated` | firmware/src/protocol/protocol.c:297-374 | without a confirmation keys change only on an unlocked device, on a volume that is not foreign and outside recovery |
| `Dispatcher.CommandsRun` | firmware/src/protocol/protocol.c:297-374 | key generation and deletion, let through by the gates, do what they say |
| `Dispatcher.ProvisioningProvisions` | firmware/src/ca/ca.c:730-822 | a confirmed provisioning puts the key into slot 0, protected |
| `Dispatcher.AllPaired` | firmware/src/protocol/protocol.c:161-190 | in every run the waiting host has exactly one request pending, callback running or answer ready, and an idle host none |
| `Dispatcher.WaitedSince` | firmware/src/protocol/protocol.c:173-190 | the answer the host reads is the one its own request was given |
| `Dispatcher.CaKeyNeedsUser` | firmware/src/protocol/protocol.c:963-1009 | the CA key is created only while the slot is empty, on a volume that may mint, after the user tapped the confirm sequence in answer to that very request |
| `Dispatcher.ConfirmedJobRuns` | firmware/src/protocol/protocol.c:173-190 | and nothing stands in the way: on a ready device a command whose prompt the user answers by tapping the confirm sequence is carried out (on the colour-counting alphabet) |

## Left out

- CrlReadsBack: lists longer than 2^32 octets are not considered; the source's buffers are far smaller.
- UnixToCivil: the model counts years on where the source's `int` overflows, from second 67767976233532800 on; the same bound applies to the CRL results that use dates.
- EvaluationsAreSpaced: a tap is one step, while the source checks the lockout and records the tap in two critical sections.
- EvaluatedInLockout: likewise.
- Sign: certificate assembly and the CSR are not modelled, only the record that is stored.
- Recv: the client's buffer is taken as large enough for the payload, since the source does not compare them; numeric error codes are not modelled.
- Parse: what happens after a copy from beyond the payload is not modelled.
- SetProtection: the stored `protect_issued` flag is not modelled; only the key listing reads it back.
- NumberIsCount: serials are fresh, which the source leaves to chance; a failing write leaves the old contents.
- Numeric error codes of the CA functions: outcomes are told apart by name where the caller can tell them apart.
- SHA-256, HMAC, X25519, ChaCha20-Poly1305, ECDSA and the random source: function values with the laws stated.
- X.509 and CSR parsing and certificate writing: library calls; decoded fields and the signature relation are kept.
- LittleFS, the volume marker and the session slot: a map, and three booleans or an enumeration.
- The secure wipe: runs are without one.
- The client's trust policy and pinned-key check after the handshake.
- USB and BLE transport, discovery, key files, command line.
- LED patterns and tap drivers.
- Pairing methods and the bond store: thin sequencing over storage.
- Rehearsal builds, which enter the reset prompt without saving the prior state.
- The PAIRING state has no exit in the modelled file, and none in the model.
- `compute_not_after`, the names list, key zeroing and timing.
