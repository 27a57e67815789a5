# A verified model of the agent's protocol stack

This project models the hand-written protocol stack of the agent's core library
and proves what it promises: the WebSocket engine (RFC 6455), the JSON parser and
writer (RFC 8259), the relay listener built on both, streaming SHA-256 and HMAC
(FIPS 180-4, RFC 2104), the logger's masking and file rotation, the chunked
transfer coding (section 7.1 of RFC 9112), base64 (RFC 4648) and the INI store.

Code that works step by step is modelled step by step: `WebSocketEngine.WebSocket`,
`JsonEngine.Parser`, `Relay.Listener`, `Sha256Engine.Hasher`, `LogFiles.Log` and
`Ini.Store` are classes whose methods have the loops and fields of the C++ code,
and the codecs are methods with its loops. Each is proved against a specification
function, and the theorems are about those functions, over all inputs and all runs. What the smallest functions compute is stated apart from
them as well, in bits, octets, alphabets and texts, so that the theorems stand on the
standards and not on the definitions.

| files | contents |
|---|---|
| `Common` | octets, results, big-endian numbers, exclusive or and bits, case folding |
| `Framing`, `Messages`, `Grouping`, `Receiving`, `Timeouts`, `WebSocket`, `WebSocketRuns` | frames; fragmentation and an ideal decoder; which frames stand for which messages; what `recv` does over any script of reads and timeouts; exactly which timeouts lose messages; the engine; whole uses of it |
| `Bits`, `Utf8`, `Json`, `JsonText`, `JsonRoundTrip`, `JsonUtf8`, `JsonNotation`, `JsonGrammar`, `JsonEngine` | shifts and masks; RFC 3629; values and their canonical text; the grammar; round trips; encodings and escapes; numbers and punctuation by their characters; documents as syntax trees; the cursor parser and the writer |
| `RelayWorld`, `RelaySpec`, `RelayMonitors`, `RelayRuns`, `RelayTokens`, `RelayLapse`, `RelayAnswers`, `RelayOrder`, `RelayStream`, `RelayTurns`, `RelayHandler`, `RelayRequests`, `Relay` | the listener's surroundings; its operations; automata over traces; what handlers leave alone and the shape of runs; token freshness and the wall-clock trigger; a run in which that trigger fails; responses; order of service in a session; the same from the octets on the connection; order of service over runs; what the handler said is what is answered; requests and responses by the names in them; the listener |
| `Sha256Spec`, `Sha256Standard`, `Sha256` | the pure definitions; what they do to bits, where their constants come from and a published digest; the streaming hasher |
| `Sanitiser`, `QuotedSecrets`, `LogFiles`, `LogText` | escaping, masking and bounding a message; exactly when the quoted form hides its value; lines, files and rotation; all of these by the names and characters they go by |
| `Base64`, `Base64Standard`, `Chunked`, `Ini`, `IniText` | the smaller codecs and the store, and the same by their alphabets, bits and characters |

How the surroundings appear in the model:

- The transport of the WebSocket is `Wire`: a script of answers to reads (at most
  8192 octets, an orderly close, or an error), a list of send refusals, and every
  octet written. `Fault(Timeout)` stands both for a read that timed out and for a
  deadline found expired before reading. Past the end of a script the peer has closed.
- Random masks come from a pool in which an entry may be a failure. Masks are
  arbitrary.
- The listener's `World` lists the clock readings, answers to "stop?", tokens,
  addresses, dial results, channels and handler answers to come, and records a trace
  of every action. Runs are finite: past the last answer, a stop is asked for.
- A run of the listener is judged by automata that read its trace: `PhaseOf` (the
  shape of runs and the backoff), `AuditOf` (which token was minted, shown and told, token
  freshness and the wall-clock trigger) and `OwedOf` (requests received, handled and
  answered, and offers taken up). The trace also records what
  only an observer inside sees: the expiry watched at each loop head, and a renewal given
  up for want of a token.

Three behaviours of the code shape the statements. The state of a fragmented message
is local to one `recv` call (`core/src/vc_ws.cpp:271-273`), so a timeout between
fragments drops what was read; `Timeouts` proves that these timeouts, and no
others, lose messages, and `Receiving.TimeoutBetweenFragmentsLosesMessage` shows what
happens at every fragment boundary. `make_token` overwrites the expiry that the
wall-clock trigger watches for every token, also for rendezvous dials and renewals
that then fail (`core/src/vc_relay.cpp:147`), so the trigger can stay silent although
the control token is due. `RelayTokens.TriggerOverRuns` proves, for every run, that it
watches the latest token minted and so tracks the control token exactly while the two
are of one second; `RelayLapse.TriggerCanMiss` is a run in which a renewal is missed;
and `RelayTokens.TokenAlwaysFresh` does not rely on it. `send_close` does not
mark the connection closed (`core/src/vc_ws.cpp:206-212`), as the contract of
`WebSocketEngine.WebSocket.SendClose` says.

## Model

| member | source | states |
|---|---|---|
| Framing.MaskedTwice | core/src/vc_ws.cpp:167-168 | masking twice with one mask restores the payload, so the receiver's unmasking inverts the sender's masking |
| Common.XorBit | core/src/vc_ws.cpp:167-168 | each bit of an exclusive or of octets is one if and only if theirs differ |
| Framing.ParsePrefixStable | core/src/vc_ws.cpp:218-263 | a frame or an error found on a prefix is found unchanged, with the same size, whatever octets follow |
| Framing.ParseInvertsEncode | core/src/vc_ws.cpp:127-175 | for all three length forms and any mask, parsing an encoded frame followed by anything gives that frame and its exact size if the payload is at most 64 MiB, and a protocol error otherwise |
| Framing.ParseLayout | core/src/vc_ws.cpp:218-263 | what any octets are read as: the header by its bits and place values, refused above 64 MiB before the rest is there, and the payload bit by bit, exclusive-or the mask if there is one |
| Framing.FrameLayout | core/src/vc_ws.cpp:127-175 | an encoded frame octet by octet, in the numbers of sections 5.2 and 5.3 of RFC 6455: the final bit and opcode, the mask bit, the three length forms in place values, the mask, and each octet of the payload, bit by bit exclusive-or the mask octet of its place modulo 4 |
| Messages.DecodeSplit | core/src/vc_ws.cpp:278-337 | decoding may stop at any octet and resume from the state reached, with the same messages, replies and end |
| Messages.DecodeEncoded | core/src/vc_ws.cpp:303-336 | decoding the octets of any frames, under any masks, is decoding the frames: no octet boundary matters |
| Messages.FragmentsAcceptable | core/src/vc_ws.cpp:183-196 | a message is sent in the least number of frames of at most 60 KB, and at least one, each small enough for the receiver |
| Messages.FragmentsOnTheWire | core/src/vc_ws.cpp:177-198 | the i-th fragment has opcode 1 or 2 if it is the first and 0 otherwise, carries the octets from 61440 i on, as many as 61440 of them, and alone is final if it is the last |
| Messages.RepliesOnTheWire | core/src/vc_ws.cpp:306-316 | opcode 9 is answered by opcode 10 with its payload, opcode 8 by opcode 8 with its status code, and nothing else is answered |
| Messages.FragmentsReassemble | core/src/vc_ws.cpp:181-197 | the fragments of a text or binary message of any size reassemble to exactly that message, leaving nothing pending |
| Grouping.StreamGrammar | core/src/vc_ws.cpp:303-336 | frames are read without a violation or a close if and only if, but for pings and pongs, they are the pieces of some messages one after the other, each cut in any way, and perhaps the first pieces of one more; and exactly those messages are then delivered |
| Grouping.CloseGrammar | core/src/vc_ws.cpp:303-336 | frames are read up to a close if and only if a close frame stands behind such frames; whatever else is a violation |
| Messages.SentStreamDecodes | core/src/vc_ws.cpp:127-198 | what is written for a list of messages, under any masks, decodes to those messages in order and no replies |
| Messages.PingPongInvisible | core/src/vc_ws.cpp:306-310 | removing pings and pongs from anywhere in a list of frames, fragments included, changes neither the messages nor the end state |
| Messages.RepliesExplained | core/src/vc_ws.cpp:306-316 | the replies to any frames at all are one pong per ping read, with its payload, in order, and then, if a close frame was read, a close with its status code; frames behind a close or a violation are not read and not answered |
| Messages.CutFragmentsStillPartial | core/src/vc_ws.cpp:318-333 | at every fragment boundary the first part delivers nothing, and the second part read afresh is a violation |
| Receiving.RecvExplained | core/src/vc_ws.cpp:266-338 | one `recv` call, over any reads, does what the ideal decoder does with the stream still to come, and leaves the rest for the next call |
| Receiving.DrainDecodes | core/src/vc_ws.cpp:266-338 | repeated `recv` calls deliver exactly the ideal decoder's messages and send exactly its replies, however the octets are cut into reads, if no timeout falls inside a fragmented message |
| Receiving.SendRecvRoundTrip | core/src/vc_ws.cpp:177-338 | every list of text and binary messages of any size, sent under any masks and read in any pieces, comes back as those messages in order with their kinds, and causes no replies |
| Receiving.PingPongOnTheWire | core/src/vc_ws.cpp:278-337 | over any stream, also one that a close frame or a violation ends, the messages delivered are those without the pings and pongs, wherever these stand, and the replies are a pong for each ping read and a close for the close |
| Receiving.PingsInvisibleOnTheWire | core/src/vc_ws.cpp:278-337 | in particular, what was sent arrives whole through any pings and pongs inserted on the way, also between fragments |
| Messages.MaskBitsOfEncoded | core/src/vc_ws.cpp:131-154 | every frame written under a mask has its mask bit set, and no other |
| Receiving.AnswersOnTheWire | core/src/vc_ws.cpp:306-316 | over any stream these replies, written under masks that were drawn, read back as themselves in order, every one with its mask bit set |
| Receiving.TimeoutsHarmlessWithoutFragments | core/src/vc_ws.cpp:283-300 | over a stream of unfragmented messages no timeout, wherever it falls, changes the messages delivered |
| Receiving.TimeoutBetweenFragmentsLosesMessage | core/src/vc_ws.cpp:271-300 | a timeout at any fragment boundary of any fragmented message loses the part read, and the next call reports a violation |
| Timeouts.FreshCallStumbles | core/src/vc_ws.cpp:317-318 | a call that starts afresh in the middle of a message reports a violation, or times out no better off |
| Timeouts.DeliversAllExactlyWhenCalm | core/src/vc_ws.cpp:266-338 | over any stream that ends between messages, by a close frame or because it runs out, calls with a deadline deliver all its messages if and only if no timeout falls inside a fragmented message |
| Timeouts.NothingLeftToLose | core/src/vc_ws.cpp:271-300 | a stream that ends inside a message is different: a timeout there loses nothing, whichever fragment it follows |
| Timeouts.SentComesBackExactlyWhenCalm | core/src/vc_ws.cpp:177-338 | what was sent comes back whole if and only if no timeout falls inside a fragmented message |
| WebSocketEngine.WebSocket.SendFrame | core/src/vc_ws.cpp:127-175 | writes exactly the encoded frame under the next mask; nothing if no mask can be drawn; a proper prefix of it if the transport refuses |
| WebSocketEngine.WebSocket.SendMasked | core/src/vc_ws.cpp:159-173 | the loop over pieces of 8 KB writes the masked payload, or stops at a refusal with a proper prefix |
| WebSocketEngine.WebSocket.BuildHeader | core/src/vc_ws.cpp:131-150 | the header buffer holds the opcode octet and the right one of the three length forms, with room for the mask |
| WebSocketEngine.WebSocket.Send | core/src/vc_ws.cpp:177-198 | writes the frames of the message's fragments in order under successive masks, all of them on success; refused when closed |
| WebSocketEngine.WebSocket.SendPing | core/src/vc_ws.cpp:200-204 | one empty ping: on the wire under the next mask, or nothing if none can be drawn, or a proper prefix if the transport refuses, and no other failure; refused when closed, with nothing written or drawn |
| WebSocketEngine.WebSocket.SendClose | core/src/vc_ws.cpp:206-212 | the same for a close frame with the code, most significant octet first; the connection stays open |
| WebSocketEngine.WebSocket.ParseFrame | core/src/vc_ws.cpp:218-263 | cuts exactly one parsed frame off the front of the buffer, and touches nothing if more octets are needed or the frame is refused |
| WebSocketEngine.WebSocket.ReadMore | core/src/vc_ws.cpp:62-70 | appends what one read delivers to the buffer; an empty read is a closed connection |
| WebSocketEngine.WebSocket.Recv | core/src/vc_ws.cpp:266-338 | one call has the result, the remaining buffer and input, the replies on the wire and the closed flag that the specification gives, and always terminates |
| WebSocketEngine.WebSocket.Take | core/src/vc_ws.cpp:303-336 | one frame does to a call what the reassembly automaton says: it ends it, extends the message collected, or leaves it, and is answered if it is a ping or close |
| WebSocketEngine.WebSocket.Close | core/src/vc_ws.cpp:340-345 | closes the transport, empties the buffer and marks the connection closed |
| WebSocketRuns.SendAll | core/src/vc_ws.cpp:177-198 | consecutive sends write exactly the fragments of all the messages, in order under successive masks, or one of them failed |
| WebSocketRuns.RecvAll | core/src/vc_ws.cpp:266-338 | consecutive calls return the specified results, and what they wrote is the specified replies |
| WebSocketRuns.Convey | core/src/vc_ws.cpp:127-338 | messages sent by one engine and read by another, in pieces of any sizes, come back as those messages, in order and with their kinds |
| WebSocketRuns.Listen | core/src/vc_ws.cpp:278-337 | an engine that receives any stream delivers what it holds without pings and pongs, and the octets it wrote read back as one masked pong per ping read and a close for a close |
| Utf8.EncodeValid | core/src/vc_json.cpp:168-192 | the encoding of every scalar value is valid UTF-8 (section 4 of RFC 3629) |
| Utf8.EncodeDenotes | core/src/vc_json.cpp:168-192 | an encoding decodes to its scalar value and nothing else |
| Utf8.EncodeLayout | core/src/vc_json.cpp:168-192 | one to four octets by the ranges of section 3 of RFC 3629, with its leading bits, and the code point in place values of 64 |
| Utf8.ValidIffEncoded | core/src/vc_json.cpp:168-192 | a string is valid UTF-8 if and only if it is the concatenation of encodings of scalar values |
| JsonRoundTrip.QuotedReads | core/src/vc_json.cpp:465-507 | a quoted string of any octets reads back as itself, before any text |
| JsonRoundTrip.IntegerReads | core/src/vc_json.cpp:518-532 | every integer within 2^53 of zero is written so that the number scanner reads it back and stops at its end |
| JsonRoundTrip.DumpReads | core/src/vc_json.cpp:535-572 | at any depth and before any delimiter, the text of a value reads back as it and leaves the rest, if the depth suffices, and is refused otherwise |
| JsonRoundTrip.DocumentRoundTrip | core/src/vc_json.cpp:449-459 | parsing the text of a value gives the value if and only if its nesting is at most 128, and fails otherwise, for arbitrary octet strings, duplicate keys and integers within 2^53 |
| JsonRoundTrip.AcceptedIsShallow | core/src/vc_json.cpp:369-378 | whatever is accepted is nested no deeper than 128 levels |
| JsonRoundTrip.DumpIsNormalForm | core/src/vc_json.cpp:535-572 | parsing the text written for any accepted document gives the same value again |
| JsonRoundTrip.DumpIsCanonical | core/src/vc_json.cpp:535-572 | two accepted documents have the same value if and only if they are rewritten alike, whatever their spacing and escapes |
| JsonGrammar.DocumentGrammar | core/src/vc_json.cpp:153-459 | a text is accepted as a value if and only if it is the text of some syntax tree with that value, of at most 128 levels, between white space: with white space around every token, octets and escapes in strings, and numbers in decimal notation |
| JsonGrammar.TreeReads | core/src/vc_json.cpp:369-446 | every tree is read as its value before whatever does not go on a number, at any depth that leaves it room |
| JsonGrammar.TreeFound | core/src/vc_json.cpp:369-446 | whatever is read is such a tree |
| JsonUtf8.DocumentStringsValid | core/src/vc_json.cpp:217-297 | in a document of valid UTF-8 every key and string parsed is valid UTF-8 |
| JsonUtf8.DumpValid | core/src/vc_json.cpp:465-507 | a value whose strings are valid UTF-8 is written as valid UTF-8 |
| JsonUtf8.EscapesDenote | core/src/vc_json.cpp:230-283 | an escape is accepted if and only if it spells a scalar value, as a letter, four hexadecimal digits in place values, or two such for a surrogate pair, and then gives octets that are valid UTF-8 and decode to exactly that value; lone surrogates of either kind are refused |
| JsonUtf8.HexDigits | core/src/vc_json.cpp:194-214 | an octet has a value as a digit if and only if it is the character at that place of 0123456789abcdef or of 0123456789ABCDEF |
| JsonNotation.NumberReads | core/src/vc_json.cpp:417-442 | a number with any whole digits, fraction and exponent, signed or not, is read as its digits without the point, scaled by ten to the exponent less the length of the fraction, up to its last character |
| JsonNotation.SpacesAre | core/src/vc_json.cpp:161-165 | white space is the space, the tab, the line feed and the carriage return |
| JsonNotation.DumpLooks | core/src/vc_json.cpp:535-572 | the words, quotes and brackets values are written with |
| JsonNotation.ItemsLook | core/src/vc_json.cpp:551-558 | the items of an array are written one by one between commas |
| JsonNotation.MembersLook | core/src/vc_json.cpp:560-569 | the members of an object likewise, each as its quoted name, a colon and its value |
| JsonNotation.StringLooks | core/src/vc_json.cpp:465-507 | the octets of a string are written one by one, as themselves or as the escape the standard names for them |
| JsonNotation.NumberLooks | core/src/vc_json.cpp:518-532 | a whole number is written with its decimal digits, without leading zeros, behind a minus sign if it is negative |
| JsonEngine.Parser.SkipWs | core/src/vc_json.cpp:161-165 | the cursor skips exactly the white space and stays in bounds |
| JsonEngine.Parser.ParseHex4 | core/src/vc_json.cpp:194-214 | four digits give their number, in place values; otherwise the cursor has not moved |
| JsonEngine.Parser.ParseString | core/src/vc_json.cpp:217-297 | the cursor loop accepts what the grammar does, with the same octets and the same rest |
| JsonEngine.Parser.AppendUtf8 | core/src/vc_json.cpp:168-192 | for every scalar value, the octets made by shifts, masks and ors are valid UTF-8 that decodes to it and nothing else |
| JsonEngine.Parser.ParseNumber | core/src/vc_json.cpp:417-442 | the token scan and the longest numeric prefix of it, as specified |
| JsonEngine.Parser.ParseValue | core/src/vc_json.cpp:369-446 | agrees with the grammar at the current depth, keeps the cursor in bounds, restores the depth on every exit, and advances on success |
| JsonEngine.Parser.ParseObject | core/src/vc_json.cpp:301-336 | reads an object, empty or not, as the grammar does and restores the depth |
| JsonEngine.Parser.ParseMembers | core/src/vc_json.cpp:310-335 | the member loop accepts what the grammar's recursive member list does, with the same members in order and the same rest |
| JsonEngine.Parser.ParseArray | core/src/vc_json.cpp:338-367 | reads an array, empty or not, as the grammar does and restores the depth |
| JsonEngine.Parser.ParseItems | core/src/vc_json.cpp:348-366 | the item loop accepts what the grammar's recursive item list does, with the same items in order and the same rest |
| JsonEngine.Parse | core/src/vc_json.cpp:449-459 | a whole document, and nothing after it but white space |
| JsonEngine.EscapeTo | core/src/vc_json.cpp:465-507 | appends the quoted string |
| JsonEngine.DumpTo | core/src/vc_json.cpp:535-572 | appends the text of the value, by recursion through both loops |
| Sha256Spec.AbsorbConcat | core/src/vc_sha256.cpp:94-114 | absorbing whole blocks may be split anywhere between blocks |
| Sha256Standard.RotrBit | core/src/vc_sha256.cpp:32-35 | bit j of a rotation by n is bit j + n of the word, modulo 32 |
| Sha256Standard.ShiftBit | core/src/vc_sha256.cpp:47-48 | bit j of a shift by n is bit j + n, or nothing beyond the word |
| Sha256Standard.ChBit | core/src/vc_sha256.cpp:56 | bit by bit, the first word chooses between the other two |
| Sha256Standard.MajBit | core/src/vc_sha256.cpp:59 | bit by bit, the majority of three |
| Sha256Standard.BigSigma0Bit | core/src/vc_sha256.cpp:58 | each bit is the parity of those 2, 13 and 22 places up |
| Sha256Standard.BigSigma1Bit | core/src/vc_sha256.cpp:55 | each bit is the parity of those 6, 11 and 25 places up |
| Sha256Standard.SmallSigma0Bit | core/src/vc_sha256.cpp:47 | each bit is the parity of those 7 and 18 places up around the word and 3 places up within it |
| Sha256Standard.SmallSigma1Bit | core/src/vc_sha256.cpp:48 | each bit is the parity of those 17 and 19 places up around the word and 10 places up within it |
| Sha256Standard.InitialIsSquareRoots | core/src/vc_sha256.cpp:80-92 | the initial words are the first 32 fractional bits of the square roots of the first eight primes, as inequalities between integers |
| Sha256Standard.FirstCubeRoots | core/src/vc_sha256.cpp:20-30 | constants 0 to 15 are the first 32 fractional bits of the cube roots of the first sixteen primes |
| Sha256Standard.SecondCubeRoots | core/src/vc_sha256.cpp:20-30 | constants 16 to 31 are the first 32 fractional bits of the cube roots of the next sixteen primes |
| Sha256Standard.ThirdCubeRoots | core/src/vc_sha256.cpp:20-30 | constants 32 to 47 are the first 32 fractional bits of the cube roots of the next sixteen primes |
| Sha256Standard.FourthCubeRoots | core/src/vc_sha256.cpp:20-30 | constants 48 to 63 are the first 32 fractional bits of the cube roots of the next sixteen primes |
| Sha256Standard.PackPlaces | core/src/vc_sha256.cpp:41-44 | a word read from four octets weighs each 256 times as heavy as the next, and its octets are those |
| Sha256Standard.PaddingLayout | core/src/vc_sha256.cpp:122-137 | padding is the octet 0x80, fewer than 64 zeros up to a whole block, and the length in bits in place values of eight octets |
| Sha256Standard.AbcDigest | core/src/vc_sha256.cpp:150-158 | the digest of "abc" is the published one, ba7816bf to f20015ad |
| Sha256Standard.HmacIs | core/src/vc_sha256.cpp:160-188 | for every key and text, HMAC is the digest of the outer pad and the digest of the inner pad and the text, for any pads that are the key, or its digest if it is longer than 64 octets, filled with zeros and turned over where 0x36 and 0x5C have ones |
| Sha256Standard.PadsExist | core/src/vc_sha256.cpp:162-179 | and every key has such pads |
| Sha256Engine.Hasher.Schedule | core/src/vc_sha256.cpp:40-51 | the loop fills the 64 schedule words of section 6.2.2 of FIPS 180-4 |
| Sha256Engine.Hasher.Rounded | core/src/vc_sha256.cpp:52-69 | the eight working variables after 64 rounds are those of the definition |
| Sha256Engine.Hasher.Block | core/src/vc_sha256.cpp:38-78 | the state becomes the compression of the old state with the block |
| Sha256Engine.Hasher.Update | core/src/vc_sha256.cpp:94-114 | whatever the lengths of earlier calls, the hasher then stands for everything fed so far, with the 64-bit count wrapped |
| Sha256Engine.Hasher.Finish | core/src/vc_sha256.cpp:122-148 | for fewer than 2^61 octets in all, the digest is the pure SHA-256 of everything fed |
| Sha256Engine.HashPieces | core/src/vc_sha256.cpp:94-148 | for every way of cutting a message into `update` calls, the digest is that of the concatenation |
| Sha256Engine.HashOf | core/src/vc_sha256.cpp:150-158 | the one-call form gives the same digest |
| Sha256Engine.FillKeyBlock | core/src/vc_sha256.cpp:162-172 | keys longer than a block are hashed, all are filled up with zeros (section 2 of RFC 2104) |
| Sha256Engine.HmacOf | core/src/vc_sha256.cpp:160-188 | for keys of every length, the result is the HMAC of section 2 of RFC 2104 |
| RelayRuns.RunShape | core/src/vc_relay.cpp:425-491 | every run alternates attempts to connect with sessions and ends with one STOPPED; only a requested stop ends a session without DISCONNECTED; after the k-th failure in a row the backoff is min(1000 * 2^k, 64000) ms |
| RelayRuns.BudgetGrows | core/src/vc_relay.cpp:436-438 | doubling below 60000 gives exactly those backoffs |
| RelayRuns.PingsPaced | core/src/vc_relay.cpp:455-463 | a ping is sent at a loop head if and only if half a minute has passed since the last one or the connection, and the next is due half a minute from then |
| RelayTokens.TokenAlwaysFresh | core/src/vc_relay.cpp:178-218 | with clocks on one time line, and the delay from minting to setting the deadline and the gap between loop heads fitting in a quarter of the lifetime less a second: over every run that stays within those bounds and in which no renewal fails, whichever other sends fail, the token the service holds is unexpired at every loop head |
| RelayTokens.TokensShown | core/src/vc_relay.cpp:142-281 | over every run, every control dial shows the token minted just before it, every renewal message tells the service, which parses it, the token minted just before it, and a rendezvous dial shows no other token |
| RelayTokens.RenewalReadsBack | core/src/vc_relay.cpp:208-212 | for any octets in a token, parsing the text of its renewal gives an object whose renewToken has exactly that token |
| RelayTokens.RenewedIsNotDue | core/src/vc_relay.cpp:199-218 | after a pass that sent a renewal, the next is due exactly three quarters of a lifetime after the deadline was set or a quarter before the new expiry; at readings up to those of the renewal the next pass only reads the clocks |
| RelayTokens.DeadlineMovesWithRenewal | core/src/vc_relay.cpp:199-218 | a pass of the renewal check moves the deadline if and only if a renewal was sent, and the trigger then tracks the control token |
| RelayTokens.TriggerOverRuns | core/src/vc_relay.cpp:142-150 | over every run, whatever the clocks do and whichever sends fail, the wall-clock trigger watches the latest token minted at every loop head; it has tracked the control token at all of them if and only if the two were always of one second, as they are while no rendezvous dial or failed renewal has minted one since; and while it has, it has missed no renewal |
| RelayTokens.DeliveryTracks | core/src/vc_relay.cpp:142-218 | a connection made or a renewal sent puts the trigger on the control token, wherever it was |
| RelayTokens.RendezvousMovesWallTrigger | core/src/vc_relay.cpp:253-281 | after a rendezvous dial, from any state with a token held, the trigger is on the control token if and only if it was and no token was minted, or the one minted is of its second |
| RelayTokens.RenewalMovesWallTrigger | core/src/vc_relay.cpp:199-218 | after a renewal attempt, from any such state, it is there if and only if the new token was sent, or is of its second |
| RelayLapse.TriggerCanMiss | core/src/vc_relay.cpp:253-281 | a run in which it fails: a rendezvous a second after connecting, then a wall clock within a quarter lifetime of the held token's expiry, and no renewal is attempted at that loop head |
| RelayRuns.HandleControlKeeps | core/src/vc_relay.cpp:397-423 | handling a control message never changes the session, the renewal deadline or the token held |
| RelayAnswers.RunAnswers | core/src/vc_relay.cpp:240-423 | over every run, each method-carrying request received on the control channel, and each request received on a rendezvous, is handled before anything else happens on any channel, with its own fields and the binary message received right after it if it announces a body, or refused if that does not come; nothing else is handled; and each request handled is followed by exactly one response text with its id on the right channel and, if that was sent, at once by its body if and only if it has one; it is reported as sent if and only if each of these sends succeeded; each offer without a method is taken up at once by a rendezvous dial of the address in it; at the end nothing is owed |
| RelayHandler.RunHeeds | core/src/vc_relay.cpp:316-327 | over every run, with a handler, the responses to the requests handled are, in order, the answers it gave, each asked for once, and 500 Internal Server Error where it declined; without one each is 501 Not Implemented |
| RelayHandler.ServeHeeds | core/src/vc_relay.cpp:349-395 | the same for one request, whose handler is asked only if its body can be read |
| RelayAnswers.OfferAnswers | core/src/vc_relay.cpp:292-314 | an offer dials the address it was made with, and leaves nothing owed |
| RelayAnswers.DeliverAnswers | core/src/vc_relay.cpp:329-347 | delivering a response leaves only its outcome to be reported, whichever sends fail |
| RelayAnswers.ServeAnswers | core/src/vc_relay.cpp:349-395 | serving a request that was just received, on control or over a rendezvous, handles it as it came in and leaves nothing owed |
| RelayAnswers.RendezvousForAnswer | core/src/vc_relay.cpp:253-281 | the rendezvous a big response needs is recorded as reached exactly when the dial succeeds, with or without a token signed |
| RelayRequests.FindIs | core/src/vc_json.cpp:102-108 | looking a name up finds the value of the first member of that name up to the case of ASCII letters, and nothing else |
| RelayRequests.RequestFields | core/src/vc_relay.cpp:349-395 | the id, method, target, headers, address and body flag of a request are those of its members id, method, requestTarget, requestHeaders, address and body; a missing or wrongly typed text is empty, or the root for the target |
| RelayRequests.RequestNamed | core/src/vc_relay.cpp:397-423 | a text holds a request if and only if it is a document with a member of that name, and asks for it to be served here if that has a method |
| RelayRequests.ControlDispatches | core/src/vc_relay.cpp:397-423 | a request with a method is served, one without is an offer of its address or an error, and any other text is only reported, by kind |
| RelayRequests.ResponseReadsBack | core/src/vc_relay.cpp:220-238 | the peer that parses a response text finds the id, the status, its description if there is one, the content type or application/json, and whether a body follows, for any octets in them |
| RelayOrder.HandleControlServes | core/src/vc_relay.cpp:349-423 | a control message with its announced body next in the channel is handled with exactly that body, and the body is not left to be taken for a control message |
| RelayOrder.SessionServesInOrder | core/src/vc_relay.cpp:455-481 | over a well-formed control stream, with timeouts between items and after them and then the peer's close or the loss of the channel, the handler gets one request per method-carrying message, in order, each with its own fields and body: those of a prefix, and of the whole stream unless a stop was asked for |
| RelayStream.SessionServesStream | core/src/vc_relay.cpp:455-481 | the same from the octets on the control connection, ended by a close frame or not, in any pieces, with timeouts that fall neither inside a fragmented message nor between a request and its body |
| RelayStream.SessionServesSent | core/src/vc_relay.cpp:455-481 | what a peer's engine sends for a control stream, with or without a close frame at its end, under any masks, is served in order |
| RelayTurns.RunServesInTurn | core/src/vc_relay.cpp:425-491 | over every run, on every control channel it had, the requests handled are exactly the method-carrying ones the channel delivered, in the order of delivery, each with its own fields and the body received right after it; only one whose announced body did not come next is left out |
| RelayTurns.ArrivalsWanted | core/src/vc_relay.cpp:397-423 | for a well-formed stream these are the requests expected of its items |
| RelayOrder.ServeElsewhere | core/src/vc_relay.cpp:292-314 | serving a request over a rendezvous takes nothing from the control channel and counts nothing for it |
| Relay.Listener.MakeToken | core/src/vc_relay.cpp:142-150 | whoever asked for it, the expiry watched is then that of the token just minted |
| Relay.Listener.CtrlConnect | core/src/vc_relay.cpp:178-197 | on success the control channel is a new one and the trigger tracks the token sent on it; on failure the fields of the session are as before |
| Relay.Listener.RenewTokenIfDue | core/src/vc_relay.cpp:199-218 | the deadline moves if and only if a renewal was sent, to three quarters of a lifetime from now, and the trigger then tracks the control token |
| Relay.Listener.SendResponseOver | core/src/vc_relay.cpp:240-251 | on the channel the response must take, its text and then its body are no longer owed, and what is left is to report whether the sends succeeded |
| Relay.Listener.RendezvousConnect | core/src/vc_relay.cpp:253-281 | a channel returned is a new one; a response that needs a rendezvous has then reached it, or been refused it |
| Relay.Listener.ReadBody | core/src/vc_relay.cpp:283-290 | succeeds if and only if no body is expected or the next result of the channel is a binary message, which is then the body; only that result is consumed |
| Relay.Listener.DeliverResponse | core/src/vc_relay.cpp:329-347 | from a response owed to one that only has to be reported, with the outcome returned, over a rendezvous exactly when one is needed and can be made |
| Relay.Listener.InvokeHandler | core/src/vc_relay.cpp:316-327 | the response is the next answer of the handler, or the error when it declines or there is none, and the handler is asked once |
| Relay.Listener.HandleRequest | core/src/vc_relay.cpp:349-395 | offers go to a rendezvous, incomplete ones are reported, others are served; with `HandleRendezvousOffer` it recurs once and terminates |
| Relay.Listener.HandleRendezvousOffer | core/src/vc_relay.cpp:292-314 | dials, takes one request from the new channel, serves it there and says goodbye |
| Relay.Listener.HandleControlMessage | core/src/vc_relay.cpp:397-423 | dispatch on the parsed text, after which nothing is owed if only what the text calls for was owed before |
| Relay.Listener.Attend | core/src/vc_relay.cpp:455-481 | the session loop is the specified session |
| Relay.Listener.Doze | core/src/vc_relay.cpp:436-437 | the backoff loop sleeps out its budget in steps of 100 ms unless a stop is asked for |
| Relay.Listener.Run | core/src/vc_relay.cpp:425-491 | the nested loops are the specified run, which has the proved shape, serves every control channel in turn, leaves no request unanswered, and has the proved trigger |
| Sanitiser.MaskSecrets | core/src/vc_log.cpp:155-208 | the index loop computes the masking of the text |
| Sanitiser.MaskHides | core/src/vc_log.cpp:155-208 | the output is the same for any two non-empty values behind a secret key, in any case, whatever precedes the key (open quotes and other keys included) and follows the value |
| Sanitiser.MaskQuoted | core/src/vc_log.cpp:176-205 | at a key in the quoted form the whole value is starred out, whatever it holds but a quote, and masking goes on behind it |
| LogText.NameIsSecret | core/src/vc_log.cpp:36-37 | a key is secret if and only if it is one of the five names, in any mixture of cases |
| LogText.MaskForm | core/src/vc_log.cpp:155-208 | behind a secret name, a quote or not, blanks, an equals sign or colon and more blanks, a value that is bare, quoted or never closed is written as three stars in the quotes it has, and masking goes on behind it |
| QuotedSecrets.QuotedFormHidesExactly | core/src/vc_log.cpp:155-208 | behind any prefix, the quoted form hides its value, for all values without a quote and whatever follows, if and only if no value of an earlier key is still open where the key begins |
| QuotedSecrets.BothOccur | core/src/vc_log.cpp:155-208 | it does at the start of a text, and does not directly behind any key and an equals sign |
| Sanitiser.MaskKeepsOthers | core/src/vc_log.cpp:170-186 | a text in which no key has a separator is left unchanged |
| LogText.MaskKeeps | core/src/vc_log.cpp:170-186 | a text in which no secret name stands before an equals sign or colon is left unchanged |
| Sanitiser.AppendEscaped | core/src/vc_log.cpp:118-138 | appends the escaped text |
| Sanitiser.EscapeClean | core/src/vc_log.cpp:118-138 | escaped text holds no control character and is at most four times as long |
| LogText.EscapeLooks | core/src/vc_log.cpp:118-138 | the octets of a message are written one by one: three control characters as a backslash and a letter, the others as a backslash, x and two upper-case digits, and all else as itself |
| Sanitiser.Sanitise | core/src/vc_log.cpp:211-224 | escapes, masks and bounds, in this order |
| Sanitiser.SanitisedIsClean | core/src/vc_log.cpp:211-224 | what is written of a message holds no control character, is at most 8192 octets and a short marker, and is the masked message itself if that fits |
| LogText.SanitisedLooks | core/src/vc_log.cpp:211-224 | up to 8192 octets are written whole; of more, those and a marker with the decimal number of the rest |
| Sanitiser.SanitisedHides | core/src/vc_log.cpp:211-224 | what is written is the same for any two values behind a secret key, which may even hold control characters |
| LogText.SecretsHidden | core/src/vc_log.cpp:211-224 | the same in the names and characters themselves |
| LogFiles.ShiftDropsOldest | core/src/vc_log.cpp:91-103 | a rotation loses the oldest file and keeps the order of the rest |
| LogFiles.RunKeepsSuffix | core/src/vc_log.cpp:82-114 | whatever files are found and whatever is logged, reading the files from oldest to current gives a suffix of all that was ever in them, and no file outgrows its bound by more than a line |
| LogFiles.RunFromNothing | core/src/vc_log.cpp:290-328 | starting from no files there are at most n + 1, each below the limit plus a line, which hold everything written or at least n times the limit of the latest of it |
| LogFiles.LineIsOneLine | core/src/vc_log.cpp:318-326 | an entry is one line, with a line feed only at its end, and of bounded length |
| LogText.LineLooks | core/src/vc_log.cpp:318-326 | a line is the time stamp, the five letters of its level in brackets if these are shown, the sanitised message and a line feed |
| LogText.AdmittedAre | core/src/vc_log.cpp:290-304 | the levels written under each configured level, success counting as information |
| LogText.WriteLooks | core/src/vc_log.cpp:82-114 | a message not admitted changes nothing; any other adds its line to the current file, and when that has the configured megabytes every file moves one place back, the last of five, or as many as configured, being lost |
| LogFiles.Log.RotateIfNeeded | core/src/vc_log.cpp:82-114 | the remove-and-rename loop shifts every file by one place, in the order that never overwrites |
| LogFiles.Log.Write | core/src/vc_log.cpp:290-328 | filters by level, appends one line, accounts for it and rotates |
| Base64.Encode | core/src/vc_base64.cpp:29-66 | the loop over groups of three gives the base-64 digits of the data read as one number, with padding |
| Base64.Decode | core/src/vc_base64.cpp:74-106 | the loop with the unmasked 32-bit accumulator gives the specified octets or refusal |
| Base64.OctetsSnoc | core/src/vc_base64.cpp:94-100 | one more character: the accumulator is the whole number modulo 2^32, and its low bits give the next octet |
| Base64.DecodesExactly | core/src/vc_base64.cpp:74-106 | a text is accepted if and only if, without spaces, tabs, carriage returns and line feeds, it is alphabet characters and then padding, with a count not 1 modulo 4, and gives the whole octets of its six-bit values |
| Base64Standard.DecodesBits | core/src/vc_base64.cpp:74-106 | the same in the letters of the alphabet and in bits: the octets are the bits of the letters' places, six each, as many as make whole octets |
| Base64.EncodedIsBare | core/src/vc_base64.cpp:29-66 | the encoded form has no white space, and four characters for each group of three octets begun |
| Base64Standard.EncodedBits | core/src/vc_base64.cpp:29-66 | the letters carry the bits of the data, six each, and zeros in what is left of the last; equals signs fill up to a multiple of four characters |
| Base64.DecodeInvertsEncode | core/src/vc_base64.cpp:74-106 | decoding inverts encoding with spaces, tabs, carriage returns and line feeds inserted anywhere |
| Chunked.Decode | core/src/vc_http.cpp:73-108 | the cursor loop gives what the grammar of chunks does, and terminates |
| Chunked.NumeralReads | core/src/vc_http.cpp:85-92 | a size is read as a number if and only if it is written in base 16 with the digits 0 to 9 and the letters a to f in either case |
| Chunked.DecodedIsShort | core/src/vc_http.cpp:73-108 | the output is no longer than the input |
| Chunked.TruncationGivesPrefix | core/src/vc_http.cpp:73-108 | of any body at all, every truncation decodes to a prefix of what the body does |
| Chunked.DecodeReassembles | core/src/vc_http.cpp:73-108 | chunks of 1 octet to 64 MiB, with any hexadecimal spelling of their sizes and any extensions, decode to the concatenation of their data, before anything |
| Chunked.ChunkedRoundTrip | core/src/vc_http.cpp:73-108 | a chunked body decodes to the data before its last chunk, or before a chunk that announces more than 64 MiB, whatever follows, and cut anywhere to a prefix of it |
| Ini.Trim | core/src/vc_ini.cpp:30-37 | removes white space at both ends |
| Ini.Store.Find | core/src/vc_ini.cpp:40-52 | the first entry equal up to case |
| Ini.Store.Get | core/src/vc_ini.cpp:127-132 | what the map holds for the key |
| Ini.Store.Set | core/src/vc_ini.cpp:152-160 | a map update that keeps entries unique |
| Ini.Store.Load | core/src/vc_ini.cpp:54-92 | the line loop reads the specified entries, unique up to case |
| Ini.Store.Save | core/src/vc_ini.cpp:94-121 | the nested loops write each section once, at its first place, with all its entries |
| Ini.StoresRefineUpdates | core/src/vc_ini.cpp:152-160 | every sequence of `set` calls keeps entries unique and is the same sequence of map updates |
| Ini.PlaceReadsMap | core/src/vc_ini.cpp:127-132 | a lookup finds exactly what the map holds |
| Ini.SavedLoads | core/src/vc_ini.cpp:94-121 | loading a saved store gives its entries grouped by section, in order |
| Ini.MapSurvives | core/src/vc_ini.cpp:54-121 | loading a saved store of unique entries gives the same map, sections spelled in several cases included, if and only if every entry is savable: names and values without blanks at their ends or line feeds, no `]` in a section, no `=` in a key, and no key that is empty or starts with `;`, `#` or `[` |
| Ini.AssignInKeyIsLost | core/src/vc_ini.cpp:94-121 | a key with `=` in it, which `set` takes, is lost |
| Ini.SaveIsStable | core/src/vc_ini.cpp:94-121 | saving again after that gives the same text, octet for octet |
| IniText.FileMeans | core/src/vc_ini.cpp:54-92 | a file of remarks, section headers, entries and other lines, in any white space, is read line by line as what these mean, whether or not its last line is ended |
| IniText.SavedLooks | core/src/vc_ini.cpp:94-121 | what is written for an entry: its section in brackets, its key and value around an equals sign, and an empty line |
| IniText.SameIs | core/src/vc_ini.cpp:20-28 | names are the same if and only if they are up to the case of ASCII letters |

## Left out

- Sockets, TLS, name resolution, clocks and randomness: foreign calls, replaced by the scripts, pools and lists described above.
- The HTTP upgrade and the request and response exchange (`core/src/vc_ws.cpp:73-125`, `core/src/vc_http.cpp:111-200`): header plumbing; the model starts from an upgraded connection.
- Floating point: numbers are reals, and the round trips cover integers within 2^53 of zero; the `%.17g` branch, the rounding of `strtod`, NaN, infinities and negative zero are not modelled.
- JSON getters, `url_encode`, `url_parse` and the assembly of the SAS string: easy members beside the cores above. Whether an address is usable, and whether it carries a token, are inputs of the listener's model.
- Error detail texts and event descriptions: the events are modelled, not their wording; the debug line with a control payload (`core/src/vc_relay.cpp:421-422`) is left out.
- Relay.Listener.RenewTokenIfDue: C++ leaves the order of the two clock readings open; the model reads the monotonic clock first.
- Relay.Listener.Run: the guard for a channel that vanished right after connecting (`core/src/vc_relay.cpp:447-452`) cannot be reached and is left out.
- Relay.Listener.HandleRequest: the handler is given the header node of the request, where the code gives it that node's text.
- Relay.Listener.Recv: a channel is given as the list of results its calls return; `RelayStream` connects it with the octets for the control channel.
- JsonEngine.DumpTo: covers the numbers just named; others are not written by the model.
- LogFiles.Log.Write: the console echo, and output before `init` or with no file path, are left out, as are renames and writes that fail; a reopening that fails is modelled.
- LogFiles.RunKeepsSuffix: the size bound takes the largest file found into account, since the code does not look at the sizes of rotated files.
- Sanitiser.SanitisedIsClean: for messages shorter than 2^32 octets, so that the marker has a bounded length.
- Sha256Engine.Hasher.Finish: the digest is promised for fewer than 2^61 octets, where the 64-bit bit count is exact; reuse without a reset is not described.
- Ini.Store.Load: works on the text of a file; reading and writing the file, and the typed getters, are left out.
- `adapters/`, `vc_fs`, the adapter registry, `apps/` and settings: hosting code around this stack.
