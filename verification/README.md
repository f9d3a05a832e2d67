# A verified model of the DSoftBus authentication and discovery core

This Dafny project models six parts of the Go implementation of the DSoftBus device authentication
and discovery stack, and proves what they are for.

- **CoAP codec** (`CoapWire`, `CoapFormat`, `Coap`). Messages are printed and parsed in two layers:
  raw options with the delta that is on the wire, and options with the number the deltas add up to
  modulo 2^16. Printing and parsing raw options are mutually inverse; from that follow the exact
  conditions under which decode-after-encode and encode-after-decode are the identity. `CoapFormat`
  writes the format of RFC 7252 down as a relation between bytes and messages that neither reads nor
  prints, and the decoder accepts exactly that relation. The encoder writes into a bounded buffer
  object, the decoder fills a packet object that may be reused.
- **Stream framing** (`Framing`). `Parse` says in one go what a byte stream means to a receiver with
  a 1536-byte buffer. The read loop, with its buffer, its in-place shift and any sequence of reads,
  delivers what `Parse` delivers and ends as `Parse` ends.
- **Elligator 2** (`Residues`, `Elligator`). Congruences modulo a prime are developed up to Fermat's
  little theorem, the quadratic character of 2 and Euler's criterion, all proved. The map of
  `pake_v1_ec.go`, with every intermediate reduction, always ends on a point of the curve and never
  divides by zero. That 2^255 - 19 is prime is the only hypothesis of `ElligatorCurve25519`. Where
  the first candidate's right-hand side is zero the code takes the second candidate, while RFC 9380,
  section 6.7.1, counts zero as a square and keeps the first; the model follows the code,
  `SameAsRfc` says when that makes a difference, and on the curve of the code it never does
  (`ElligatorCurve25519`).
- **HiChain PAKE handshake** (`Pake`, `Answers`, `Agreement`, `KeyStores`, `HiChain`). `Pake` gives
  the outcome of every handle state and every message. Primitives are functions of which only
  correctness laws (`Lawful`) are used: commuting X25519, lengths of derived keys, decryption of
  what was encrypted, verification of what was signed, and decoding of an encoded identity.
  `Answers` says of each kind of message what the server sends, reports and remembers, with the
  primitives and literal texts alone; the client of `Agreement` has formulas of its own and knows
  only what the server sends. `KeyStores` lets any number of handles be called in any order over the
  store of long-term keys that they share. `HiChain` is the handle object; each of its calls reaches
  the stated outcome. `hichain_test.go` and the README of that package describe an older
  challenge-response flow; the model follows `protocol.go`.
- **Connections, managers, sessions** (`ConnIds`, `Fds`, `Bookkeeping`, `Effects`, `AuthService`,
  `Sessions`). Every section that the code runs under a lock is one atomic step; runs are arbitrary
  sequences of steps whose assumptions on callers and network are written out in `Orderly` and
  `Allowed`. That descriptors are fresh, which `Allowed` adds, is discharged from the descriptor
  counters of `Fds`. `Effects` tells what each step does by what can be looked up before and after
  it.
- **Session keys** (`SessionKeys`). Key lists with int32 indices that wrap, rotation, removal, and
  ciphertexts that name their key.

Objects that the source updates in place are classes whose methods are proved against functions of
their old state; the properties of runs are lemmas about those functions.

Where an expected property does not hold of the code for all inputs, the exact condition is proved,
and in most cases an input that fails is given:

| property | exact condition | failing input |
|---|---|---|
| decode after encode is the identity | `CoapWire.DecodeEncode` | any message out of range |
| encode after decode is the identity | `CoapWire.EncodeDecode` | `CoapWire.MarkerWithoutPayload`, `CoapWire.DeltaAbove16Bits` |
| a packet object holds what was decoded last | `Coap.HoldsMessage` | `Coap.StalePacket` |
| a response decodes to itself | `Coap.ResponseDecodes` | `Coap.LongToken` |
| every post arrives | `Framing.ParseStream` | a post of no byte or of more than 1512 |
| key lists stay increasing | `SessionKeys.StepKeepsOrder` | `SessionKeys.IndicesRunOut` |
| an index names one key, and a ciphertext opens, at every moment of a run | `SessionKeys.NamesExactly`, `SessionKeys.DecryptOverRun` | `SessionKeys.RemovalReusesIndex` |
| salt, key pair and challenge are drawn together | `Pake.OneRequest` | `Pake.StuckRequest` |
| success comes after the key was reported | `Pake.ExchangeKeyTold`, `Pake.NothingTold` | `Agreement.UnconfirmedSuccess` |
| stored key pairs stay together | `KeyStores.StepKeepsTogether`, `KeyStores.RunKeepsTogether` | `KeyStores.OwnIdHandshake` |
| descriptors are never reused | `Fds.IssuedDistinct` | 1001 server connections and a client one |
| a failed dial leaves the maps in agreement | `Bookkeeping.FailureReportExact`, `Bookkeeping.OpenFailedExact` | `Bookkeeping.StolenRequest` |
| a successful dial does | `Bookkeeping.SuccessReportExact` | `Bookkeeping.ReusedRequest` |

A stale packet needs an object that is decoded into twice; the one caller in the repository,
`pkg/discovery/coap/coap_discover.go:129`, uses a new object for every packet. A response with a
long token needs a request packet that a caller made up: the decoder never yields such a token
(`Coap.RequestAnswered`).

The comments of `session_key_manager.go` and its test call encryption "not implemented"; the code
encrypts, and the model follows the code.

## Model

| member | source | states |
|---|---|---|
| CoapWire.ParsePrinted | pkg/discovery/coap/coap_adapter.go:118-199 | Options printed in the encoder's format, at most 16 of them and each delta and length at most 65804, are read back one for one, with the marker and what follows it. |
| CoapWire.PrintParsed | pkg/discovery/coap/coap_adapter.go:118-199 | Whatever the option loop accepts is, byte for byte, the printed form of the options and the tail it returns; never more than 16 options. |
| CoapWire.HeaderIsNotMarker | pkg/discovery/coap/coap_adapter.go:278-282 | No option header the encoder can emit equals the payload marker 0xFF. |
| CoapWire.NumberedDeltas | pkg/discovery/coap/coap_adapter.go:240-304 | Option numbers in any order survive the encoder's wrapping subtraction and the decoder's wrapping addition. |
| CoapWire.DecodeWireOfRepresentable | pkg/discovery/coap/coap_adapter.go:83-318 | Decoding the encoding of a message with token at most 8, at most 16 options and option lengths at most 65804 gives the same type, code, id, token, options and payload. |
| CoapWire.DecodedIsRepresentable | pkg/discovery/coap/coap_adapter.go:83-199 | Everything the decoder accepts has a token of at most 8 bytes, at most 16 options and option values of at most 65804 bytes. |
| CoapWire.DecodeEncode | pkg/discovery/coap/coap_adapter.go:83-318 | Decode after encode is the identity exactly for those messages. |
| CoapWire.DecodePartitions | pkg/discovery/coap/coap_adapter.go:83-199 | Header, token, options, marker and payload of an accepted input are consecutive windows that make up the whole input. |
| CoapWire.EncodeDecode | pkg/discovery/coap/coap_adapter.go:118-318 | Re-encoding an accepted input gives its bytes back exactly when no delta exceeds 65535 and a marker is followed by a payload; otherwise the result is shorter. |
| CoapWire.DecodeInjective | pkg/discovery/coap/coap_adapter.go:83-199 | Two canonical inputs that decode to the same message are equal. |
| CoapWire.MarkerWithoutPayload | pkg/discovery/coap/coap_adapter.go:126-131 | An accepted input whose marker is followed by nothing, and its shorter re-encoding. |
| CoapWire.DeltaAbove16Bits | pkg/discovery/coap/coap_adapter.go:152-182 | An accepted input with a delta of 65804, which wraps to option number 268 and is re-encoded shorter. |
| CoapWire.WireSize | pkg/discovery/coap/coap_adapter.go:202-318 | The encoded length is 4 + token + per option a header byte, extensions and value + a marked payload. |
| CoapFormat.DecodeExactly | pkg/discovery/coap/coap_adapter.go:83-199 | The decoder accepts a byte string as a message exactly if header, token, options with their 13 and 14 extensions (269 + 256 hi + lo), marker and payload stand there as RFC 7252, sections 3 and 3.1, has them, with option numbers modulo 2^16 and at most 16 options. |
| CoapFormat.WireIsMessage | pkg/discovery/coap/coap_adapter.go:202-318 | What the encoder writes for a message in range stands in that format for that message. |
| CoapFormat.HeaderVerdict | pkg/discovery/coap/coap_adapter.go:83-115 | The error code for each defect of the header, in the order of the tests: 1 too short, 2 version, 3 token. |
| CoapFormat.OptionVerdict | pkg/discovery/coap/coap_adapter.go:138-188 | The error code for each defect of an option: 7 for a nibble 15, 5 for missing extension or value bytes, the delta first. |
| CoapFormat.OptionsVerdict | pkg/discovery/coap/coap_adapter.go:126-136 | A seventeenth option is error 4, and there is no error but 4, 5 and 7. |
| Coap.ReadWriteBuffer.WriteByte | pkg/discovery/coap/coap_adapter.go:39-46 | Appends one byte exactly when it fits, and changes nothing otherwise. |
| Coap.ReadWriteBuffer.WriteBytes | pkg/discovery/coap/coap_adapter.go:49-56 | Appends all of the data exactly when all of it fits, and changes nothing otherwise. |
| Coap.Encode | pkg/discovery/coap/coap_adapter.go:202-318 | Succeeds exactly when the token length modulo 256 is at most 8 and the closed-form size fits behind what the buffer holds; then appends exactly the message's bytes; a failure leaves a prefix of them. |
| Coap.WriteOptions | pkg/discovery/coap/coap_adapter.go:239-304 | The option loop appends the printed options, or stops because the whole packet does not fit. |
| Coap.WriteOption | pkg/discovery/coap/coap_adapter.go:246-301 | Header nibbles, extensions and value of one option, in that order. |
| Coap.ReadExtended | pkg/discovery/coap/coap_adapter.go:143-179 | The value of a nibble with its extension and the next offset, or the error code for a missing extension or the reserved nibble 15. |
| Coap.ReadOptionAt | pkg/discovery/coap/coap_adapter.go:138-188 | One option is read from the bytes below bufLen, or the code the option grammar gives. |
| Coap.ParseOptionsAndPayload | pkg/discovery/coap/coap_adapter.go:118-199 | The loop with its moving offset stores the options and payload of the one-shot parse, keeps stale ones where it stores none, or returns that parse's error code. |
| Coap.DecodePacket | pkg/discovery/coap/coap_adapter.go:83-115 | Return code and packet object agree with decoding the first bufLen bytes alone, for every input. |
| Coap.HoldsMessage | pkg/discovery/coap/coap_adapter.go:118-199 | What an object holds after a decode is the decoded message exactly if it held no options while the body is empty and no payload while the payload is empty. |
| Coap.ShowsLast | pkg/discovery/coap/coap_adapter.go:118-199 | After any number of decodes into one object, its options are those of the last input with a body and its payload that of the last input with a payload. |
| Coap.DecodeTwice | pkg/discovery/coap/coap_adapter.go:83-199 | Two inputs decoded into one new object leave what the second one replaces of the first, and the second message itself exactly under that condition. |
| Coap.StalePacket | pkg/discovery/coap/coap_adapter.go:118-124 | A packet with an option and a payload and then one of four bytes: option and payload of the first still show. |
| Coap.BuildSendPkt | pkg/discovery/coap/coap_adapter.go:347-454 | Succeeds exactly when address and payload are not empty, the token is accepted and the size is at most the buffer, at most 1024 and below the capacity, with lengths and capacity taken modulo 2^32; then a receiver decodes type 1, code, id and token of the request, option 3 with the address, option 11 with "device_discover", and the payload with a zero byte after it; otherwise the length is 0 or unchanged. |
| Coap.ResponseDecodes | pkg/discovery/coap/coap_adapter.go:347-418 | What is sent has at most 1023 bytes and decodes to the same response exactly when the request's token has at most 8 bytes. |
| Coap.RequestAnswered | pkg/discovery/coap/coap_adapter.go:83-454 | The response to any decoded request decodes to itself. |
| Coap.LongToken | pkg/discovery/coap/coap_adapter.go:217-237 | A token of 256 bytes passes the length check as 0 and is sent; the response fits and does not decode to itself. |
| Coap.MsgIdGenerator.Next | pkg/discovery/coap/coap_adapter.go:71-80 | The counter skips 0 and issues the id that belongs to the number of calls. |
| Coap.IdClosedForm | pkg/discovery/coap/coap_adapter.go:64-80 | The k-th id after initialisation is ((k-1) mod 65535) + 1. |
| Coap.IdsDistinct | pkg/discovery/coap/coap_adapter.go:64-80 | Id 0 is never issued, and two calls get the same id exactly when they are a multiple of 65535 calls apart. |
| Framing.ReadHeadBytes | pkg/authentication/auth_tcp_connection.go:52-96 | A header is read back from its 24 bytes whatever follows, for every signed module, sequence number and flag. |
| Framing.HeadLayout | pkg/authentication/auth_tcp_connection.go:52-66 | Byte by byte: the five fields of a packet, least significant byte first and in two's complement, and the data from byte 24. |
| Framing.ReadHeadLayout | pkg/authentication/auth_tcp_connection.go:82-94 | Each field that is read is the sum of its bytes by their places, the signed ones modulo 2^32 and 2^64. |
| Framing.ParseFirst | pkg/authentication/auth_tcp_connection.go:171-209 | A whole header closes the connection exactly for another magic than 0xBABEFACE or a length that is 0 or above 65536; with more than 1512 bytes announced the full buffer does; otherwise the packet is delivered when its bytes are there. |
| Framing.PackSocketPkt | pkg/authentication/auth_tcp_connection.go:37-68 | Packs exactly when the length field matches the data, into the packet of that layout. |
| Framing.SocketPostBytes | pkg/authentication/auth_tcp_connection.go:402-420 | A post goes out exactly if the length in its head is that of its data, in that layout and starting with the bytes CE FA BE BA. |
| Framing.ParseAppend | pkg/utils/tcp_connection/server.go:146-214 | More bytes extend a parse at its unfinished tail and change nothing once the connection is closed. |
| Framing.ParseBounds | pkg/authentication/auth_tcp_connection.go:166-214 | Only packets with 24 + Len at most 1536 are delivered; the leftover is shorter than the buffer and a strict prefix of one packet; the overflow close needs a packet that does not fit. |
| Framing.ParsePost | pkg/authentication/auth_tcp_connection.go:166-214 | One post followed by anything is delivered when it has 1 to 1512 bytes, closes the connection at its header when it has none or more than 64 KiB, and fills the buffer otherwise. |
| Framing.ParseStream | pkg/authentication/auth_tcp_connection.go:37-214 | Any sequence of posts is received as posted up to the first one that has no data or more than 1512 bytes, and how the connection ends there. |
| Framing.OnTcpDataReceived | pkg/authentication/auth_tcp_connection.go:166-214 | Delivers what the one-shot parse of the used bytes delivers, returns how many bytes those packets took, or -1 at the same bad header. |
| Framing.ReadAndHandle | pkg/utils/tcp_connection/server.go:185-213 | One read: the parse so far is extended by the chunk, the new leftover is at the front of the buffer, and the loop goes on exactly while the parse is waiting. |
| Framing.HandleDataEvents | pkg/utils/tcp_connection/server.go:146-215 | For every stream and every script of reads the loop delivers what the one-shot parse delivers and ends the same way, with one disconnect callback, and reads everything if reads keep offering bytes. |
| Framing.Deliver | pkg/utils/tcp_connection/server.go:146-215 | Posts that fit, cut into reads in any way, arrive as posted. |
| Residues.Fermat | pkg/device_auth/hichain/pake_v1_ec.go:139-141 | Fermat's little theorem, from primality. |
| Residues.TwoIsNonResidue | pkg/device_auth/hichain/pake_v1_ec.go:139-141 | For a prime p with p % 8 = 5, 2 to the power (p-1)/2 is -1. |
| Residues.RootFromPower | pkg/device_auth/hichain/pake_v1_ec.go:183-187 | A residue whose power to (p-1)/2 is 1 has a square root. |
| Residues.Euler | pkg/device_auth/hichain/pake_v1_ec.go:183-187 | The power test the code uses decides squareness, both ways. |
| Elligator.DenominatorNotZero | pkg/device_auth/hichain/pake_v1_ec.go:159-167 | 1 + 2r^2 is never 0, so the division-by-zero branch is dead. |
| Elligator.SecondRhs | pkg/device_auth/hichain/pake_v1_ec.go:186-193 | The second candidate's right-hand side is 2r^2 times the first's. |
| Elligator.SecondIsSquare | pkg/device_auth/hichain/pake_v1_ec.go:183-193 | When the power test fails, also for a zero right-hand side or r = 0, the second candidate's right-hand side is a square. |
| Elligator.MappedOnCurve | pkg/device_auth/hichain/pake_v1_ec.go:130-196 | Every value of the map is the u-coordinate of a point of the curve. |
| Elligator.MappedUnique | pkg/device_auth/hichain/pake_v1_ec.go:152-193 | The map is a function of r, with the same value at -r. |
| Elligator.SameAsRfc | pkg/device_auth/hichain/pake_v1_ec.go:183-193 | The candidate chosen is the one of RFC 9380, section 6.7.1, exactly if the first right-hand side is not zero or both candidates are the same; always, unless A is zero or A^2 - 4 is a square in the field. |
| Elligator.CertifiedSameAsRfc | pkg/device_auth/hichain/pake_v1_ec.go:183-193 | Given a square root of 2(A^2 - 4), a number not zero, the candidate chosen is that of the RFC for every input. |
| Elligator.ReverseBytes | pkg/device_auth/hichain/pake_v1_ec.go:198-204 | The loop returns the bytes in reverse order in a new slice. |
| Elligator.BytesToFieldElement | pkg/device_auth/hichain/pake_v1_ec.go:206-210 | Bytes are read little-endian and reduced. |
| Elligator.FieldElementToBytes | pkg/device_auth/hichain/pake_v1_ec.go:212-220 | A number below 2^256 becomes exactly 32 bytes that decode back to it. |
| Elligator.MapField | pkg/device_auth/hichain/pake_v1_ec.go:155-193 | The arithmetic with all its reductions computes the map: the first candidate if its right-hand side is a nonzero square, else the second; it never fails. |
| Elligator.MapBytes | pkg/device_auth/hichain/pake_v1_ec.go:130-196 | Over any prime p with p % 8 = 5: 32 bytes in, read as a number with byte i counting 256^i and taken modulo 2^255 and p; 32 bytes out that decode to a mapped value of it on the curve. |
| Elligator.MaskedTopBit | pkg/device_auth/hichain/pake_v1_ec.go:147-153 | Clearing the top bit of the last byte takes the number modulo half of 256^n. |
| Elligator.SameElement | pkg/device_auth/hichain/pake_v1_ec.go:147-155 | Two inputs are the same field element exactly if their numbers without the top bit agree modulo p. |
| Bytes.FromLEIsSum | pkg/device_auth/hichain/pake_v1_ec.go:198-210 | The little-endian reading is the sum of the bytes times 256^i. |
| Elligator.ElligatorCurve25519 | pkg/device_auth/hichain/pake_v1_ec.go:130-196 | The same for 2^255 - 19 and A = 486662, and the value is that of the map of RFC 9380, section 6.7.1; only a wrong length is an error. |
| SessionKeys.SessionKeyManager.SetSessionKey | pkg/authentication/session_key_manager.go:72-119 | A 16-byte key is appended under the next index of its list; any other length changes nothing and returns -1. |
| SessionKeys.SessionKeyManager.GetSessionKey | pkg/authentication/session_key_manager.go:131-151 | The search loop returns the first key of that index, or none. |
| SessionKeys.SessionKeyManager.GetLatestSessionKey | pkg/authentication/session_key_manager.go:162-177 | The last key of the list, or none. |
| SessionKeys.SessionKeyManager.RemoveSessionKey | pkg/authentication/session_key_manager.go:184-209 | Splices out the first key of that index and nothing else. |
| SessionKeys.SessionKeyManager.RemoveAllSessionKeys | pkg/authentication/session_key_manager.go:215-228 | Forgets the list of one id. |
| SessionKeys.SessionKeyManager.Encrypt | pkg/authentication/session_key_manager.go:271-293 | Seals under the latest key and prefixes its index. |
| SessionKeys.SessionKeyManager.Decrypt | pkg/authentication/session_key_manager.go:308-330 | Opens with the key the prefix names, with every error case. |
| SessionKeys.IndexRoundTrip | pkg/authentication/session_key_manager.go:286-314 | The four prefix bytes give back every int32 index, negative ones included. |
| SessionKeys.EncryptLayout | pkg/authentication/session_key_manager.go:271-293 | A ciphertext is the index of the latest key, most significant byte first, then the 12 bytes of iv, then the sealed text. |
| SessionKeys.DecryptLayout | pkg/authentication/session_key_manager.go:308-330 | What is opened is the text behind byte 16 under the iv before it and the first key of the index in front; nothing is opened below 32 bytes or without such a key. |
| SessionKeys.StepKeepsOrder | pkg/authentication/session_key_manager.go:72-228 | Lists stay strictly increasing through every operation, except exactly when a key is set after index 2^31-1. |
| SessionKeys.IndicesRunOut | pkg/authentication/session_key_manager.go:86-90 | After 2^31 keys the next one gets index -2^31, and its list is no longer increasing. |
| SessionKeys.WithoutFirstKeeps | pkg/authentication/session_key_manager.go:184-209 | Removal from an increasing list keeps it increasing and removes exactly the keys of that index. |
| SessionKeys.FindIsLookup | pkg/authentication/session_key_manager.go:131-151 | In an increasing list the linear search is a lookup by index. |
| SessionKeys.LatestIsMaximum | pkg/authentication/session_key_manager.go:162-177 | In an increasing list the latest key has the largest live index and is found under it. |
| SessionKeys.RunLookups | pkg/authentication/session_key_manager.go:72-228 | After any run from an empty manager: increasing lists, search is lookup, latest is maximum. |
| SessionKeys.NamesExactly | pkg/authentication/session_key_manager.go:72-228 | In a run without index overflow an index leads to the same key at every moment exactly if no operation removes that index or the whole list. |
| SessionKeys.NamesUntilDropped | pkg/authentication/session_key_manager.go:72-228 | That direction of it which keeps the key holds in any run, also when indices wrap around. |
| SessionKeys.DecryptAfterRotation | pkg/authentication/session_key_manager.go:271-330 | A ciphertext opens to its plaintext after any operations that do not remove the index of its key, for lists in any order, if the key was the first of its index. |
| SessionKeys.DecryptOverRun | pkg/authentication/session_key_manager.go:72-330 | Over the life of a manager: after any run an encryption succeeds if there is a key; its ciphertext opens after any operations that do not remove that key's index or list, and opens all the time exactly if none does. |
| SessionKeys.RemovalReusesIndex | pkg/authentication/session_key_manager.go:86-90 | Removing the newest key frees its index: set, remove, set gives the second key the same index. |
| Pake.PakeRequestSound | pkg/device_auth/hichain/protocol.go:161-269 | With base and key as their formulas give them from PIN, salt and primitives: a request that passes the checks draws salt and base, one with a public key also key pair and challenge, and any other leaves them; no key and no success is reported. |
| Pake.ClientConfirmSound | pkg/device_auth/hichain/protocol.go:272-394 | A confirmation sets the session key exactly when one can be derived from its key and the handle's, and reports that key exactly when its proof matches. |
| Pake.ExchangeSound | pkg/device_auth/hichain/protocol.go:419-607 | An exchange changes none of these; it is answered, and reported as success, only if it decrypts under the session key and is signed over both challenges. |
| Pake.StepSound | pkg/device_auth/hichain/hichain.go:74-135 | The same for the dispatch of every message kind and for StartAuth. |
| Pake.InvAfter | pkg/device_auth/hichain/protocol.go:161-394 | After any inputs the key pair is the one drawn by the last request that drew any, the salt that of the last request that drew one, and a session key has 16 bytes and a key pair behind it. |
| Pake.RunSafety | pkg/device_auth/hichain/hichain.go:74-135 | Over every message sequence: each reported session key has 16 bytes, follows a matching proof and comes from the key pair and salt drawn last; no confirmation or exchange response precedes a request that drew a key pair; success needs a signed exchange or the peer's word. |
| Pake.OneRequest | pkg/device_auth/hichain/protocol.go:161-269 | The key pair in use comes from the last request that drew one; salt and challenge come from that request too exactly if no later request got stuck without a public key and no later start was carried out, which none is once the request was answered. |
| Pake.StuckRequest | pkg/device_auth/hichain/protocol.go:192-220 | An answered request and then a stuck one: the new salt beside the old key pair and challenge. |
| Pake.ExchangeKeyTold | pkg/device_auth/hichain/protocol.go:315-367 | When success is reported for an exchange, a key was derived before, and the callbacks hold that key exactly if the last confirmation that derived one carried the matching proof or derived the key they held already. |
| Pake.NothingTold | pkg/device_auth/hichain/protocol.go:315-367 | No session key was ever reported exactly if no confirmation carried a matching proof. |
| Pake.CleanExactly | pkg/device_auth/hichain/utils.go:7-13 | A text is cut at its first NUL and nowhere else. |
| Answers.StartAnswer | pkg/device_auth/hichain/protocol.go:115-158 | From the initial state only: message 1 with the own id and a challenge, the fields, and the state if it was sent. |
| Answers.RequestAnswer | pkg/device_auth/hichain/protocol.go:161-269 | A PAKE request is answered, with salt, public key, challenge, request id and version in their places, exactly if it drew a key pair; what it sets of ids and state. |
| Answers.ConfirmAnswer | pkg/device_auth/hichain/protocol.go:272-394 | The server's proof is sent and the key reported exactly if the client's proof matches: formula, message, request id, state. |
| Answers.ExchangeAnswer | pkg/device_auth/hichain/protocol.go:419-607 | An exchange is answered exactly if its text is signed by the key in it over both challenges and the server's secret key has 64 bytes: the sealed answer, the ids, success after sending, and exactly what is saved in the key store. |
| Answers.OtherAnswers | pkg/device_auth/hichain/hichain.go:108-135 | A confirmation message decides by its result from any state, an error message means failure, and everything else is ignored. |
| Agreement.RequestPhase | pkg/device_auth/hichain/protocol.go:161-269 | What a client reads from the transmitted answer is the drawn salt, public key and challenge. |
| Agreement.ConfirmPhase | pkg/device_auth/hichain/protocol.go:272-394 | With the same effective PIN the client's own formulas give the 48 bytes of the server, and each accepts the other's proof. |
| Agreement.ExchangePhase | pkg/device_auth/hichain/protocol.go:419-607 | The server accepts the honest exchange and completes with one success report; the client opens the response and accepts it exactly if the server's signature verifies under the public key it announces; the client's key is saved under its id. |
| Agreement.HonestHandshake | pkg/device_auth/hichain/protocol.go:161-607 | With a client that has its own formulas and only the transmitted messages, from any handle state and any store with secret keys of 64 bytes: proofs accepted, same key on both sides, Completed with exactly one success report, the client's key saved, and the server accepted if the key pair it uses belongs together. |
| Agreement.SameBaseExactly | pkg/device_auth/hichain/protocol.go:178-202 | Where derivation and map keep the two PINs apart, both sides have the same base exactly if their effective PINs are the same, "888888" for none. |
| Agreement.UnconfirmedSuccess | pkg/device_auth/hichain/protocol.go:315-367 | Request, refused confirmation, exchange: accepted and reported as success although no session key was reported. |
| KeyStores.StepKeepsTogether | pkg/device_auth/hichain/protocol.go:502-593 | A step keeps every stored key pair together exactly if it is not an accepted exchange that puts another key beside a secret key; the handle's own pair stays together. |
| KeyStores.RunKeepsTogether | pkg/device_auth/hichain/key_store.go:23-70 | Over calls to any handles in any order: all pairs were together all the time exactly if no call ever was such an exchange. |
| KeyStores.OneHandle | pkg/device_auth/hichain/hichain.go:74-135 | With a single handle these runs are the runs of a handle on an empty store. |
| KeyStores.ReachableHandshake | pkg/device_auth/hichain/protocol.go:161-607 | Agreement in every reachable state of store and handles, with no condition on the store; the client accepts the server if no call overwrote a key. |
| KeyStores.OwnIdHandshake | pkg/device_auth/hichain/key_store.go:23-35 | A handshake with a client that uses the server's own id completes and leaves the server's secret key beside the client's public key. |
| HiChain.HiChainHandle.StartAuth | pkg/device_auth/hichain/protocol.go:115-158 | From the initial state only: fields, challenge, message and state. |
| HiChain.HiChainHandle.HandleAuthStart | pkg/device_auth/hichain/protocol.go:161-269 | The fields, the key store and the callbacks after a PAKE request, with every early return. |
| HiChain.HiChainHandle.HandleAuthChallenge | pkg/device_auth/hichain/protocol.go:272-394 | The same for a client confirmation, with the byte-by-byte comparison. |
| HiChain.HiChainHandle.HandleAuthConfirm | pkg/device_auth/hichain/protocol.go:403-416 | Completed or Failed on the message's result alone, from any state. |
| HiChain.HiChainHandle.HandleExchangeRequest | pkg/device_auth/hichain/protocol.go:419-607 | The same for an exchange request, with the long-term key loaded or made and stored. |
| HiChain.HiChainHandle.ReceiveData | pkg/device_auth/hichain/hichain.go:74-135 | The dispatch reaches the outcome stated for every message kind. |
| HiChain.SameBytes | pkg/device_auth/hichain/protocol.go:338-357 | The comparison loop decides equality of the two proofs. |
| ConnIds.ConnIdBijection | pkg/authentication/types.go:197-216 | The link type stands in the upper and the descriptor in the lower 32 bits, both can be read back from every id, and every 64-bit word is the id of exactly one pair. |
| ConnIds.SameConnId | pkg/authentication/types.go:197-203 | Ids of descriptors of any size are the same exactly if the link types are and the descriptors differ by a multiple of 2^32. |
| Fds.IssuedDistinct | pkg/utils/tcp_connection/manager.go:34-47 | All descriptors ever issued are distinct exactly while at most 1000 server connections were allocated or no client one. |
| Fds.IssuedNumbers | pkg/utils/tcp_connection/manager.go:34-47 | Each descriptor is 1000 or 2000 plus the number of connections of its kind before it. |
| Fds.ConnIdsDistinct | pkg/utils/tcp_connection/manager.go:34-47 | Connection ids inherit that uniqueness whatever the link types, until the counters have gone around 32 bits; with one link type they need it. |
| Fds.ConnectionManager.AllocateFd | pkg/utils/tcp_connection/manager.go:34-47 | Issues the next number of its kind. |
| Fds.ConnectionManager.RegisterConn | pkg/utils/tcp_connection/manager.go:55-62 | Both maps get the new descriptor, which is not live as long as descriptors are distinct. |
| Fds.ConnectionManager.UnregisterConn | pkg/utils/tcp_connection/manager.go:67-75 | Both maps lose the descriptor; their key sets stay equal. |
| Bookkeeping.ConnectionsKept | pkg/authentication/auth_connection.go:290-410 | Every allowed step keeps connections and descriptors mutual inverses. |
| Bookkeeping.AddConnectionExact | pkg/authentication/auth_connection.go:319-331 | A new connection, even under a reused descriptor, keeps them inverse exactly if neither descriptor nor id belongs to another connection. |
| Bookkeeping.ManagersKept | pkg/authentication/auth_manager.go:232-753 | Every allowed step keeps the manager map and the map from connection ids in agreement. |
| Bookkeeping.StepKeepsInv | pkg/authentication/auth_manager.go:232-753 | Every allowed step keeps the whole invariant, including fresh ids, distinct request ids and reserved matches. |
| Bookkeeping.ReachableMapsAgree | pkg/authentication/auth_manager.go:587-603 | In every reachable state both pairs of maps agree, and a lookup by connection id finds a manager exactly when one has that id, and that one. |
| Bookkeeping.AllocatedMapsAgree | pkg/utils/tcp_connection/manager.go:34-47 | The same with descriptors as the connection manager issues them, as long as at most 1000 server connections were allocated, or no client one. |
| Bookkeeping.DataStaysWithConnection | pkg/authentication/auth_manager.go:697-753 | The manager found for received data in the second locked section, if any, still has the connection found in the first. |
| Bookkeeping.FailureReportExact | pkg/authentication/auth_manager.go:658-669 | Removing the manager of a failed dial keeps the maps in agreement exactly when it has no connection. |
| Bookkeeping.OpenFailedExact | pkg/authentication/auth_manager.go:276-282 | The clean-up after a failed call keeps the maps in agreement exactly when the manager that the call created is gone or has no connection. |
| Bookkeeping.SuccessReportExact | pkg/authentication/auth_manager.go:634-638 | Reporting a connection keeps them in agreement exactly when the manager found has none yet. |
| Bookkeeping.StolenRequest | pkg/authentication/auth_connection.go:307-338 | A reachable run with two dials at once after which the failing dial no longer owns its request, and reporting it leaves a mapped id without a manager. |
| Bookkeeping.ReusedRequest | pkg/authentication/auth_manager.go:616-638 | A request id used again while its first manager is connected: the search may find that manager, whose old connection id then stays mapped. |
| Effects.LostConnection | pkg/authentication/auth_manager.go:673-694 | After the loss of a connection its id leads to no manager and no manager has it; every other manager and lookup is as before. |
| Effects.ClosedManager | pkg/authentication/auth_manager.go:286-313 | A closed manager is gone and its connection id unmapped; every other manager and lookup is as before. |
| Effects.ClosedSocket | pkg/authentication/auth_connection.go:381-402 | Neither descriptor nor connection of a closed socket can be looked up; all others can. |
| Effects.DisconnectedDevice | pkg/authentication/auth_connection.go:193-214 | Neither connection nor descriptor of a disconnected device can be looked up; all others can. |
| Effects.ReportedFailure | pkg/authentication/auth_manager.go:658-669 | After the report of a failed dial no manager has that request id; all others are as before. |
| Effects.CleanedUpCall | pkg/authentication/auth_manager.go:276-282 | After the clean-up the manager of the call is gone, and no other one. |
| Effects.WithdrawnRequest | pkg/authentication/auth_connection.go:170-176 | A failed dial withdraws its request and no other one. |
| Effects.BegunCall | pkg/authentication/auth_manager.go:253-271 | A call creates one client manager without connection under the next ids, the only one found by its request id. |
| Effects.StoredRequest | pkg/authentication/auth_connection.go:159-166 | A request is stored under its id with its start time; nothing else changes. |
| Effects.MatchedSocket | pkg/authentication/auth_connection.go:303-338 | A dialled socket: the request is gone and its connection is found by id and by descriptor. |
| Effects.AcceptedSocket | pkg/authentication/auth_connection.go:348-377 | An accepted socket: a server connection of link type 1 is found by id and by descriptor. |
| Effects.ReportedSuccess | pkg/authentication/auth_manager.go:634-638 | The reported id leads to the manager of the call, otherwise as before. |
| Effects.IgnoredData | pkg/authentication/auth_manager.go:697-744 | Data of another module, or from a connection whose manager is known, changes no map. |
| Effects.FirstData | pkg/authentication/auth_manager.go:697-744 | The first data of module 3 makes a server manager that is found by the connection id; all other lookups are as before. |
| Effects.ConnectedUntilLost | pkg/authentication/auth_manager.go:610-694 | From the matched socket and its report to the loss of the connection the manager of the call is found by the connection id, and afterwards none is. |
| AuthService.Service.CreateManager | pkg/authentication/auth_manager.go:253-271 | One step: a client manager without connection under the next ids. |
| AuthService.Service.OpenFailed | pkg/authentication/auth_manager.go:276-282 | One step: after an error of the dial the manager that the call created is removed. |
| AuthService.Service.FindManager | pkg/authentication/auth_manager.go:616-624 | The search by request id finds a manager with it exactly when there is one, in any visiting order. |
| AuthService.Service.OnConnectSucceeded | pkg/authentication/auth_manager.go:610-638 | One step: the found manager gets the connection id and the id is mapped to it. |
| AuthService.Service.OnConnectFailed | pkg/authentication/auth_manager.go:658-661 | One step: the found manager is removed. |
| AuthService.Service.CloseConn | pkg/authentication/auth_manager.go:290-313 | One step: manager and mapping are removed, and the id to disconnect is returned. |
| AuthService.Service.OnAuthDisconnected | pkg/authentication/auth_manager.go:673-694 | One step: a mapped id loses its manager and its mapping. |
| AuthService.Service.OnAuthDataReceived | pkg/authentication/auth_manager.go:697-744 | First locked section, one step: a server's first authentication data creates and maps a manager; the mapped authentication id is passed on. |
| AuthService.Service.ManagerForData | pkg/authentication/auth_manager.go:744-750 | Second locked section: the manager with that authentication id, or none. |
| AuthService.Service.OldestRequest | pkg/authentication/auth_connection.go:307-320 | The search loop returns a pending request with the least start time exactly when there is one. |
| AuthService.Service.OnClientConnected | pkg/authentication/auth_connection.go:303-338 | One step: the oldest request is withdrawn and its connection recorded under both keys. |
| AuthService.Service.OnServerConnected | pkg/authentication/auth_connection.go:348-377 | One step: a server connection of link type WiFi is recorded under both keys. |
| AuthService.Service.OnSocketDisconnected | pkg/authentication/auth_connection.go:381-402 | One step: both keys are removed; the connection that is looked up exists. |
| AuthService.Service.DisconnectAuthDevice | pkg/authentication/auth_connection.go:193-214 | One step: both keys are removed. |
| AuthService.Service.GetAuthManagerByConnId | pkg/authentication/auth_manager.go:587-603 | The lookup through both maps. |
| Sessions.PotentialNeverGrows | pkg/authentication/auth_session.go:155-421 | No event lets a session start HiChain more often than it still could before. |
| Sessions.StartsExactly | pkg/authentication/auth_session.go:155-421 | A waiting server that gets a device id, or authentication data and its launch, and a client's state machine have called AuthDevice once more if the service exists; nothing else calls it; and the state each leaves. |
| Sessions.StartedAtMostOnce | pkg/authentication/auth_session.go:95-421 | Over every interleaving of messages, callbacks and state machines of any sessions, with the manager shut down and started at any time and handlers that keep a session across that, AuthDevice is called at most once for each session. |
| Sessions.RunKeepsTable | pkg/authentication/auth_session.go:95-141 | In every run different sequence numbers in the table lead to different sessions. |
| Sessions.AuthSessionManager.CreateSession | pkg/authentication/auth_session.go:114-145 | A session is created only if the manager is initialised and the sequence number is new; it is a new object in the initial state. |
| Sessions.AuthSessionManager.Deinit | pkg/authentication/auth_session.go:95-111 | Empties the tables of an initialised manager and touches no session. |
| Sessions.AuthSession.StartStateMachine | pkg/authentication/auth_session.go:155-174 | Servers wait for a device id, clients start HiChain. |
| Sessions.AuthSessionManager.ProcessDevIdData | pkg/authentication/auth_session.go:322-347 | The session of that number, and no other, handles a device id: a waiting server starts HiChain under the lock; anything else is ignored. |
| Sessions.AuthSessionManager.ProcessAuthData | pkg/authentication/auth_session.go:351-373 | The lookup and the locked decision: exactly a waiting server leaves the state and has to launch; the caller keeps the session. |
| Sessions.AuthSession.LaunchForAuthData | pkg/authentication/auth_session.go:368-370 | The launch outside the lock. |
| Sessions.AuthSessionManager.HandleAuthFinish | pkg/authentication/auth_session.go:386-402 | An existing session is done. |
| Sessions.AuthSessionManager.HandleAuthError | pkg/authentication/auth_session.go:405-421 | An existing session has failed. |

## Left out

- Coap.DecodePacket: the partly filled fields of a packet object after a failed decode are not specified, only the return code and that nothing outside the object changes.
- Coap.Encode: message types outside the four that the type enumerates, and lengths that differ from the buffers they describe, are not modelled; nil arguments are not modelled anywhere.
- Elligator.ElligatorCurve25519: assumes that 2^255 - 19 is prime; modular inverse and power of the big-integer library are modelled by their results.
- HiChain.HiChainHandle.HandleAuthStart: the random source and the callbacks' answers are parameters; a failing random source is not modelled.
- Agreement.HonestHandshake: assumes that the two public keys exist (the base point is not of low order).
- Pake.OneRequest: assumes that the random source does not give the same salt twice.
- AuthService.Service.OnAuthDataReceived: starting the session between its two locked sections is in `Sessions`.
- AuthService.Service.CloseConn: the flag that tells whether the service is initialised, and shutting the service down, are not modelled.
- Framing.HandleDataEvents: routing of delivered packets to channels, listeners and callbacks by module id.
- The bodies of AES-GCM, HKDF, HMAC, SHA-256, Ed25519 and X25519, and key clamping: only their laws are used.
- JSON: messages are datatypes, hexadecimal fields are decoded or malformed, the exchanged identity is an invertible encoding.
- The registry of handles by session id, and the layer that destroys a handle when a result is reported.
- The client's copy of the read loop, keep-alive, timeouts, listeners and goroutine start and stop.
- Persistence of session keys and all timestamps except the start time of a request.
- Discovery service slots, device information, group management, the bus centre and the transmission sessions: single-map wrappers or I/O.
