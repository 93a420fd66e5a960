# ReQrypt: a model of its core, with proofs

ReQrypt tunnels packets through encoded channels. This project models, in Dafny 4.11, the parts of the program
where correctness is hard to see, and proves what they promise for all inputs and all runs.

| modules | what they model |
|---|---|
| `Common`, `Arith`, `Squarefree`, `Digits`, `Bytes`, `Buffers` | word sizes and optional values, powers and division, moduli without repeated factors, positional numbers, octets and little-endian strings, edits of byte buffers |
| `Natural`, `NaturalMod`, `NaturalBytes` | the fixed-size big numbers: 19 digits of radix 2^56 in 64-bit words, changed in place |
| `DiffieHellman` | the key agreement over them |
| `Ctr`, `MacChain`, `Sequence`, `KeyStream`, `CryptPacket`, `CryptLayer` | counter mode with an interleaved MAC, what the MAC depends on, the sequence permutation, what the cipher is fed with, packet formats, the crypt layer on buffers |
| `SessionKeys` | the two rotating key generators of the stateless server, as a state machine |
| `Handshake`, `HandshakeClient`, `HandshakeServer` | the client's handshake as a specification over runs, as a class, and against an honest server |
| `Pad`, `Stack`, `Transport`, `ReplyBuffer` | padding, the stack of encodings in a buffer with headroom, pings and tunnelled packets, the server's reply buffer over runs |
| `CrcPoly`, `Crc`, `Checksum` | the CKTP checksum as polynomial division, the Internet checksum |
| `Fragment`, `FragmentBuffer` | splitting at the network and at the transport layer, as values and in a buffer |
| `Cktp`, `CktpConnect` | request writer, request loop, reply readers, connect |
| `HostMatch`, `Dispatch` | the Host scanner and split point, and the split of a request there |
| `Base64`, `Quota` | the program's base 64, the rate limiter |

How the model relates to the code:

- The block cipher with its key expansion, the hash and the cookie generators are parameters: every theorem holds for
  all of them. Random draws, clocks and sequence seeds are parameters of the operations that draw them.
- Numbers are unbounded; where the program's width matters it is written out (64-bit cells and two's complement
  borrows, 16-bit counters, 32-bit sums and sequence numbers, the 8-bit pad length, unsigned 64-bit times).
- Memory the program reads or writes beyond a buffer's end appears as a precondition or as extra bytes: `N_set` with
  a length divisible by 7, `N_cmp` of two zeros, the filler byte of base 64, the byte behind the HTTP data, the bytes
  behind a truncated CKTP reply, a pad longer than its configured value.
- Code and comments disagree in places; the model follows the code. `N_lt2` accepts 3 .. b-2 although its comment says
  2. `N_mod` stops at n <= b, so an odd multiple of b ends at b and not at 0 (`ModResultCorrect`).
- Some properties hold only under a condition, and the condition is proved exact:
  - `N_modexp` returns b^e mod m, for m without a repeated factor, iff b is no multiple of m that the parities let end
    at m (`ModExpExactIff`; inputs in `ModExpMayReturnModulus` and `RepeatedFactorMayReturnModulus`).
  - A session key survives iff, when it is derived, its generator index is current, or the manager is between waking and
    re-arming, or it has re-armed since gen_timeout was read (`KeySurvivesIff`; a run in `StaleIndexReachable`).
  - The server's replies stay inside their buffer iff no handshake reply can move the loop's pointer: no pings, and
    nothing in front of a crypt layer adds bytes (`RepliesStayInsideIff`). Otherwise `StaysInsideIff` and
    `HandshakesThatFit` give the exact number of replies; with pings and default sizes it is three
    (`DefaultPingUnderruns`).
  - A pad is undone iff the 8-bit length does not wrap (`StripUndoesPad`).
  - The server opens a packet iff a client sealed it so (`ServerOpensIff`), and a client's packet iff its id is not
    reserved on the wire and the payload is not empty (`ClientPacketOutcome`).
  - Two sessions share a key iff they are on the same generator and address xor id is the same (`SameKeyIff`).
  - A handshake round with an honest server finishes iff neither public value nor the secret is trivial (`KeyRound`).
  - A request within quota parameters that fit is accepted iff the allowance is not used up (`AcceptedIff`); counters are
    exact if the largest allowance fits 16 bits and unlimited if it does not (`AcceptedSinceReset`, `UnfitOverruns`).

`dafny verify dfyconfig.toml` checks the whole project.

## Model

| member | source | states |
|---|---|---|
| `Natural.Mul` | src/encodings/natural.c:97-134 | the half-digit schoolbook product is exactly value(a) * value(b), every intermediate cell staying within 64 bits |
| `Natural.AccumulateRow` | src/encodings/natural.c:112-115 | one row adds x * b at its position to the value, without a cell leaving 64 bits |
| `Natural.Bits` | src/encodings/natural.c:371-391 | the count is the bit length of the number |
| `Natural.Cmp` | src/encodings/natural.c:341-365 | the result is the sign of the difference |
| `Natural.ShiftRight` | src/encodings/natural.c:209-239 | division by 2^shift in place, and the new bit length |
| `NaturalMod.ShiftLeft` | src/encodings/natural.c:244-268 | multiplication by 2^shift in place; no set bit is dropped |
| `NaturalMod.Sub` | src/encodings/natural.c:273-287 | exact difference through two's complement borrows |
| `NaturalMod.ModStep` | src/encodings/natural.c:190-202 | one turn subtracts exactly b * 2^k <= n, the number shrinks, and the final outcome does not change |
| `NaturalMod.Mod` | src/encodings/natural.c:172-204 | the loop ends with `ModResult`: the remainder, or b for odd multiples of b |
| `NaturalMod.ModResultCorrect` | src/encodings/natural.c:190-203 | the outcome is congruent to a and at most b, and it is a mod b iff a is not an odd multiple of b |
| `NaturalMod.ModExp` | src/encodings/natural.c:139-167 | the right-to-left loop leaves exactly the iterated product of reduced squares |
| `NaturalMod.ModExpCorrect` | src/encodings/natural.c:139-167 | the result is congruent to b^e modulo m, at most m, and equal to b^e mod m unless m divides b^e |
| `NaturalMod.ModExpOfMultiple` | src/encodings/natural.c:139-167 | for a multiple b of m the result is m or 0, and parities of b, m and b/m decide which |
| `NaturalMod.ModExpExactIff` | src/encodings/natural.c:139-167 | for every modulus without a repeated factor the result is b^e mod m iff b is no multiple of m that ends at m |
| `NaturalMod.ModExpMayReturnModulus` | src/encodings/natural.c:190-203 | where m divides b^e the result can be m itself: 3^1 modulo 3 |
| `NaturalMod.RepeatedFactorMayReturnModulus` | src/encodings/natural.c:139-167 | with a repeated factor the result can be m although m does not divide b: 2^2 modulo 4 |
| `Squarefree.DividesBase` | src/encodings/natural.c:139-167 | a modulus without a repeated factor divides a power only if it divides the base |
| `NaturalBytes.Set` | src/encodings/natural.c:54-74 | the digits hold the little-endian number |
| `NaturalBytes.Get` | src/encodings/natural.c:79-90 | the bytes are the low bytes of the number, zero-extended |
| `NaturalBytes.Lt2` | src/encodings/natural.c:292-327 | true iff 3 <= a <= b - 2 |
| `NaturalBytes.Neq1` | src/encodings/natural.c:332-336 | true iff a is not 1 |
| `DiffieHellman.P0IsUsable` | src/encodings/crypt.c:183-196 | the built-in modulus is odd and above 2, which is all the agreement needs |
| `DiffieHellman.OddMissesPowers` | src/encodings/crypt.c:1018-1035 | an odd modulus divides no power of two, so the client's results are true residues |
| `DiffieHellman.PublicKey` | src/encodings/crypt.c:1018-1035 | the client's public bytes denote 2^x mod p, which is not 0 |
| `DiffieHellman.SharedSecret` | src/encodings/crypt.c:1145-1162 | the secret is accepted iff the public value lies in 3 .. p-2 and the power is not 1, and is then its 128 bytes |
| `DiffieHellman.Agreement` | src/encodings/crypt.c:1556-1580 | both modular powers are 2^(xy) mod p, strictly between 0 and p |
| `DiffieHellman.SameSecret` | src/encodings/crypt.c:1145-1160 | the client's own arithmetic and the server's powers reach the same number |
| `Ctr.BlockInit` | src/encodings/crypt.c:2164-2188 | the block is vector, sequence number, zeros and counter 0, without overlap |
| `Ctr.BumpCounter` | src/encodings/crypt.c:2216-2221 | the 16-bit increment moves to the next counter block |
| `Ctr.Encrypt` | src/encodings/crypt.c:2193-2239 | the buffer is masked with the key stream, nothing else changes, and the MAC is that of the plaintext |
| `Ctr.Decrypt` | src/encodings/crypt.c:2244-2290 | the buffer is unmasked and the MAC is that of the recovered plaintext |
| `Ctr.Crypt` | src/encodings/crypt.c:2295-2317 | header scrambling is masking under the expanded certificate hash with a fixed number |
| `Ctr.MaskTwice` | src/encodings/crypt.c:2295-2317 | scrambling is its own inverse |
| `Ctr.DecryptUndoesEncrypt` | src/encodings/crypt.c:2193-2290 | decrypting gives the plaintext back together with the sender's MAC |
| `MacChain.FinalBlockDiffers` | src/encodings/crypt.c:2204-2238 | for an injective cipher, messages of equal length that differ within one block end in different chaining blocks |
| `MacChain.FinalBlockBinds` | src/encodings/crypt.c:2200-2201 | for an injective cipher, one message under different vectors or numbers ends in different blocks |
| `MacChain.LengthIsBound` | src/encodings/crypt.c:2204-2210 | zeros appended within the last block, which fill up to the same blocks, still change the final block |
| `MacChain.MacIsPrefix` | src/encodings/crypt.c:2231-2238 | the MAC is the first eight bytes of the final block |
| `Sequence.CryptSeq` | src/encodings/crypt.c:789-802 | the eight-round loop computes the permutation |
| `Sequence.PermuteBijective` | src/encodings/crypt.c:789-802 | for every key it is a bijection of 32-bit numbers, with the given inverse |
| `Sequence.PermuteIsEightRounds` | src/encodings/crypt.c:789-802 | eight steps of the round relation, with the round constant added up, lead from a number to its image |
| `Sequence.BlockFields` | src/encodings/crypt.c:2164-2188 | equal cipher inputs have equal vectors, sequence numbers and counters |
| `Sequence.CounterBlocksDistinct` | src/encodings/crypt.c:1304-1316 | over any 2^32 consecutive packets of a sender the cipher inputs of different packets differ, and those of one packet up to 2^16 blocks |
| `KeyStream.StreamOfDistinctBlocks` | src/encodings/crypt.c:2213-2225 | up to 2^16 blocks: pairwise distinct cipher inputs, the same for all ciphers and keys, whose encryptions cover every byte |
| `KeyStream.StreamItself` | src/encodings/crypt.c:2216-2224 | masking zeros gives the encrypted counter blocks, each from its last byte down |
| `KeyStream.FedDisjoint` | src/encodings/crypt.c:1304-1316 | packets of one sender less than 2^32 apart feed no block in common |
| `KeyStream.ClientWire` | src/encodings/crypt.c:1293-1323 | a client packet byte for byte: vector, id and number under the certificate hash, MAC, payload under the session key |
| `KeyStream.ServerWire` | src/encodings/crypt.c:1716-1744 | a server packet byte for byte |
| `CryptPacket.ServerOpensClientPacket` | src/encodings/crypt.c:1684-1709 | for every non-empty payload and unreserved wire id the server recovers payload and id |
| `CryptPacket.ClientPacketOutcome` | src/encodings/crypt.c:1395-1411 | all outcomes: reserved wire ids become handshake requests, empty payloads length errors, the rest opens |
| `CryptPacket.ClientOpensServerPacket` | src/encodings/crypt.c:1250-1288 | the client recovers every non-empty payload of the server |
| `CryptPacket.ServerOpensIff` | src/encodings/crypt.c:1684-1709 | the server opens a packet to an id and payload iff it is a client's packet for them under the key of that id |
| `CryptPacket.ClientOpensIff` | src/encodings/crypt.c:1250-1288 | the client opens a packet to a payload iff it is a server's packet for it under the session key |
| `CryptPacket.ForgedTagRefused` | src/encodings/crypt.c:1699-1703 | a packet whose tag alone is changed is refused for its MAC |
| `CryptLayer.Client.Encode` | src/encodings/crypt.c:1293-1323 | header and ciphertext in front of the pointer are exactly the client packet; the sequence number advances |
| `CryptLayer.Client.Decode` | src/encodings/crypt.c:1250-1288 | outcome, new pointer and contents agree with the client's opening of the packet |
| `CryptLayer.Server.Decode` | src/encodings/crypt.c:1376-1411 | outcome, pointer, contents, id and key agree with the server's opening of the packet |
| `CryptLayer.Server.Encode` | src/encodings/crypt.c:1716-1744 | the buffer holds exactly the server packet under the key decoded last |
| `CryptLayer.ClientSendsAll` | src/encodings/crypt.c:1293-1323 | the n-th of successive packets carries the permuted number seed + n; their payloads are covered by encryptions of blocks that are distinct within a packet and disjoint between packets |
| `CryptLayer.ServerSendsAll` | src/encodings/crypt.c:1716-1744 | the same for the packets of a server |
| `SessionKeys.StartReaches` | src/encodings/crypt.c:1809-1829 | the start state has the timing invariant, and so has every state reached from it |
| `SessionKeys.StepKeepsInv` | src/encodings/crypt.c:1809-1829 | every step of the manager and the clock keeps the timing invariant |
| `SessionKeys.Later` | src/encodings/crypt.c:1813-1825 | over every run time goes on, and a changed gen_timeout lies an hour or more ahead of both old values |
| `SessionKeys.TimeoutInRange` | src/encodings/crypt.c:1618-1630 | with clock and gen_timeout read in different states: never too short, accepted by the client iff the sum is at most a day, and so if the reads are less than 22 hours apart |
| `SessionKeys.SafeUntilEarliest` | src/encodings/crypt.c:1816-1825 | over every run a generator slot keeps its contents until the earliest possible overwriting |
| `SessionKeys.KeySurvivesIff` | src/encodings/crypt.c:1614-1635 | index, clock, gen_timeout and key being read one after the other: the key survives its deadline over every run iff at its derivation the index is current, or the manager is not asleep, or it has re-armed since gen_timeout was read |
| `SessionKeys.OverwrittenEarly` | src/encodings/crypt.c:1816-1825 | a stale index under a sleeping manager has a run that loses the key |
| `SessionKeys.StaleIndexReachable` | src/encodings/crypt.c:1614-1635 | from every start state a request can read the index just before the manager turns over, and its key is then lost before the timeout |
| `SessionKeys.WireIdKeepsLowBits` | src/encodings/crypt.c:1948-1959 | cutting the id to its wire size keeps the bits that select generator and key |
| `SessionKeys.SameKeyIff` | src/encodings/crypt.c:1948-1959 | for injective generators two sessions share a key iff generator contents and address xor id agree |
| `SessionKeys.SessionsHaveOwnKeys` | src/encodings/crypt.c:1948-1959 | one source has different keys for ids that differ in their low 32 bits |
| `SessionKeys.SourcesHaveOwnKeys` | src/encodings/crypt.c:1948-1959 | different sources have different keys under one id |
| `SessionKeys.GeneratorsHaveOwnKeys` | src/encodings/crypt.c:1948-1959 | sessions on different generators have different keys |
| `SessionKeys.IssuedKeyOpensPackets` | src/encodings/crypt.c:1693-1709 | from issue until expiry plus margin, every packet sealed with the issued key is opened with the re-derived key |
| `Handshake.ReplyKeepsInv` | src/encodings/crypt.c:1048-1245 | every reply keeps the invariant; a refused one changes at most the id, and that only for a bad timeout |
| `Handshake.RunKeepsInv` | src/encodings/crypt.c:947-1245 | over every run the invariant holds and the accepted replies are bounded below and above by the steps |
| `Handshake.FinishesIff` | src/encodings/crypt.c:1122-1242 | a reply finishes iff at the key step and genuine in every layer, and then with that reply's session |
| `Handshake.HandshakeRuns` | src/encodings/crypt.c:947-1245 | from the start at most three replies are accepted; a finished client has a certificate with the configured hash and uses the session of one genuine reply of the run |
| `HandshakeClient.Client.constructor` | src/encodings/crypt.c:639-641 | a new client starts at the cookie step, with a certificate only if it has the configured hash |
| `HandshakeClient.Client.HandshakeRequest` | src/encodings/crypt.c:947-1043 | a request draws a sequence number, and at the key step a private key, keeps the step, and writes exactly the request packet of that step |
| `HandshakeClient.Client.HandshakeReply` | src/encodings/crypt.c:1048-1245 | the in-place processing of a reply is the specified state change, with the specified code |
| `HandshakeClient.Client.TakeCookie` | src/encodings/crypt.c:1052-1082 | the cookie step alone, with its choice of the next step |
| `HandshakeClient.Client.TakeCertificate` | src/encodings/crypt.c:1083-1121 | the certificate step alone |
| `HandshakeClient.Client.TakeKey` | src/encodings/crypt.c:1122-1242 | the key step alone, the id being replaced before the timeout is checked |
| `HandshakeClient.CheckKeyReply` | src/encodings/crypt.c:1132-1215 | the chain of decryptions and checks on the buffer decides as the specification |
| `HandshakeClient.CheckBlock` | src/encodings/crypt.c:1193-1215 | the checks on the recovered block decide as the specification |
| `HandshakeClient.VerifySignature` | src/encodings/crypt.c:1184-1191 | the recovered bytes are signature^65537 in the client's arithmetic modulo the certificate |
| `HandshakeServer.MaskTwoPasses` | src/encodings/crypt.c:1399-1407 | scrambling a prefix and then the whole opens the rest and restores the prefix |
| `HandshakeServer.RequestRead` | src/encodings/crypt.c:1465-1473 | the server reads back id, sequence number and body of a certificate or key request |
| `HandshakeServer.CookieRequestRead` | src/encodings/crypt.c:1411-1434 | the server reads back id and sequence number of a cookie request |
| `HandshakeServer.CookieAnswered` | src/encodings/crypt.c:1411-1446 | the dispatch on the id answers a cookie request with the cookie |
| `HandshakeServer.CookieAccepted` | src/encodings/crypt.c:1066-1081 | the client takes the cookie of that answer |
| `HandshakeServer.CertificateAnswered` | src/encodings/crypt.c:1447-1493 | the dispatch on the id answers a certificate request iff it carries the cookie |
| `HandshakeServer.CertificateAccepted` | src/encodings/crypt.c:1097-1120 | the client takes the certificate iff it has the configured hash |
| `HandshakeServer.ForeignReplyRefused` | src/encodings/crypt.c:1068-1104 | a reply with another sequence number is refused at the cookie and the certificate step |
| `HandshakeServer.WrongLengthRefused` | src/encodings/crypt.c:773-784 | replies of the wrong length are refused at every step |
| `HandshakeServer.KeyAnswered` | src/encodings/crypt.c:1494-1580 | the dispatch on the id answers a key request iff cookie, quota, public value and secret pass |
| `HandshakeServer.WrongRequestLength` | src/encodings/crypt.c:1395-1513 | requests of the wrong length are not answered |
| `HandshakeServer.DispatchAgrees` | src/encodings/crypt.c:1405-1411 | an id announces a tunnelled packet iff it is none of the request ids |
| `HandshakeServer.AnswerFits` | src/encodings/crypt.c:1411-1683 | every answer fits the reply buffer with room to spare |
| `HandshakeServer.SourceBounded` | src/cktp_server.c:329-352 | so the check on a reply never stops the program |
| `HandshakeServer.SignatureOpens` | src/encodings/crypt.c:1184-1191 | the client's arithmetic opens every signature exactly, zero included |
| `HandshakeServer.BlockRecovered` | src/encodings/crypt.c:1646-1660 | a block with a clear top bit comes back from its signature |
| `HandshakeServer.EnvelopeOpens` | src/encodings/crypt.c:1662-1668 | a sealed text opens to the text with a matching MAC |
| `HandshakeServer.KeyAccepted` | src/encodings/crypt.c:1132-1215 | an honest key reply gives the client exactly the issued session, or a parameter error for refused public values |
| `HandshakeServer.CookieRound` | src/encodings/crypt.c:1048-1081 | request, answer and reply: the client takes the cookie and moves to the key step iff its certificate is cached |
| `HandshakeServer.CertificateRound` | src/encodings/crypt.c:1083-1120 | request, answer and reply: the client takes the server's certificate |
| `HandshakeServer.KeyRound` | src/encodings/crypt.c:1494-1683 | request, answer and reply: the client is in the issued session iff the private keys are compatible, else it stays at the key step |
| `HandshakeServer.KeyRounds` | src/encodings/crypt.c:947-1245 | repeated key rounds finish in the first one with compatible keys |
| `HandshakeServer.HandshakeCompletes` | src/encodings/crypt.c:947-1245 | with or without a cached certificate, the client finishes in the first key round with compatible keys and in no round before |
| `HandshakeServer.IssuedIsValid` | src/encodings/crypt.c:1614-1635 | sessions issued from safe reads are ones the client accepts |
| `HandshakeServer.HandshakeThenTunnel` | src/encodings/crypt.c:1684-1709 | after the rounds every non-empty packet of the client is opened by the server until the deadline |
| `Pad.PadFill` | src/encodings/pad.c:291-305 | the padding is a prefix of the configured value, or the random bytes |
| `Pad.PadCheck` | src/encodings/pad.c:310-325 | true iff the padding is that prefix |
| `Pad.PadEncode` | src/encodings/pad.c:330-360 | the buffer holds exactly the padded packet in front of the old pointer |
| `Pad.PadDecode` | src/encodings/pad.c:365-395 | result, pointer and contents agree with the stripping of the packet, moving at most the declared overhead |
| `Pad.StripUndoesPad` | src/encodings/pad.c:330-395 | stripping undoes padding iff there is a payload and the 8-bit length does not wrap |
| `Pad.StripUndoesEveryPad` | src/encodings/pad.c:379-386 | with or without a configured value, all random lengths are undone iff the maximum is at most 254 |
| `Pad.FixedOpensIff` | src/encodings/pad.c:365-395 | fixed padding is stripped iff the packet is a padded one, the configured value included |
| `Pad.RandomOpens` | src/encodings/pad.c:365-395 | random padding is stripped by the length byte alone |
| `Pad.SealLayout` | src/encodings/pad.c:330-360 | length byte, padding and payload in their places |
| `Pad.OverheadReached` | src/encodings/pad.c:257-260 | the declared overhead is the largest header |
| `Stack.OpenUndoesSeal` | src/encodings/pad.c:330-395 | one layer, crypt in either direction or pad: decoding undoes encoding |
| `Stack.StackRoundTrip` | src/cktp_server.c:318-356 | any stack of layers: the receiver recovers exactly the packet sent |
| `Stack.PrefixOpens` | src/cktp_server.c:318-356 | the first layers are the outermost: removing them leaves what the others sealed |
| `Stack.VerifyIff` | src/cktp_encoding.c:185-221 | the check passes iff there is a packet, grown by at most twice and moved by at most the overhead |
| `Stack.StackSize` | src/cktp_client.c:485-495 | a packet grows by exactly the headers of its layers, which the declared overheads bound |
| `Stack.EncodePacket` | src/cktp_client.c:525-548 | the loop over the layers leaves the sealed packet, drops the pointer by exactly the headers, and the check never stops the program |
| `Stack.DecodePacket` | src/cktp_server.c:318-356 | the loop delivers, answers with the handshake reply, or drops, as the layers do, refused requests included; neither check stops the program |
| `Stack.MtuIsLargest` | src/cktp_client.c:1008-1049 | the effective MTU bounds exactly the packets that, with all overhead and the largest IP header, fit the configured one |
| `Stack.WithinMtu` | src/cktp_client.c:1008-1049 | a packet within the tunnel's MTU never exceeds the configured MTU on the wire |
| `Transport.AddHeader` | src/cktp_client.c:1107-1130 | the ping header with a valid checksum in front of the packet |
| `Transport.EchoChecked` | src/cktp_client.c:1122-1126 | a re-check of the ping's checksum gives 0 |
| `Transport.PingRoundTrip` | src/cktp_server.c:579-667 | the server strips a ping to its payload, and its reply with the same id and number reaches the client |
| `Transport.StripsOnlyEchoes` | src/cktp_server.c:601-633 | only echo packets of the right kind are stripped |
| `Transport.ForeignEchoRefused` | src/cktp_client.c:1151-1218 | pings for another port and answers to another request are refused |
| `Transport.Send` | src/cktp_client.c:828-945 | a packet gets the tunnel's source address, is encoded and given the ping header inside its buffer, and is dropped iff it is too big before or after encoding |
| `Transport.SentPacketArrives` | src/cktp_client.c:828-945 | a packet is dropped iff it is too big with its headers, and else arrives under the tunnel's source address |
| `ReplyBuffer.StaysInsideIff` | src/cktp_server.c:500-569 | for every run of replies: all writes stay inside the buffer iff at each reply the drift so far and its own headers do not exceed the overhead |
| `ReplyBuffer.RepliesStayInsideIff` | src/cktp_server.c:500-569 | all runs stay inside iff no handshake reply can move the pointer: no pings, and nothing in front of a crypt layer adds bytes |
| `ReplyBuffer.HandshakesThatFit` | src/cktp_server.c:500-512 | n handshake replies that move the pointer by d stay inside iff n * d is at most the overhead |
| `ReplyBuffer.PingHandshakes` | src/cktp_server.c:500-512 | pings over one crypt layer: n replies fit iff 8 n is at most the layer's overhead plus 8 |
| `ReplyBuffer.DefaultPingUnderruns` | src/cktp_server.c:500-512 | with default sizes the replies start at 26, 18, 10 and 2, and the fourth leaves the buffer |
| `ReplyBuffer.LayersHeaders` | src/cktp_server.c:288-313 | the layers in place add the headers that the runs count |
| `ReplyBuffer.Loop.constructor` | src/cktp_server.c:455-461 | the buffer and the pointer as the loop sets them up |
| `ReplyBuffer.Loop.SendHandshake` | src/cktp_server.c:500-512 | a handshake reply goes out sealed, and the loop's pointer ends where its header starts |
| `ReplyBuffer.Loop.SendMessage` | src/cktp_server.c:547-569 | a CKTP reply goes out sealed, and the loop's pointer stays |
| `CrcPoly.ShiftByGenerator` | src/cktp_common.c:22-56 | one step of division subtracts 0x1021 when a bit leaves |
| `CrcPoly.FeedIsDivision` | src/cktp_common.c:61-72 | the register form is long division of the message followed by sixteen zeros |
| `CrcPoly.BurstDetected` | src/cktp_common.c:61-72 | bit strings that differ only within sixteen places leave different registers |
| `Crc.TableCorrect` | src/cktp_common.c:25-56 | every table entry is its index times x^16 modulo the generator |
| `Crc.ByteStep` | src/cktp_common.c:65-69 | one table step is eight bits of division |
| `Crc.CalculateChecksum` | src/cktp_common.c:61-72 | the table-driven loop equals bit-by-bit polynomial division for every byte string |
| `Crc.BurstErrorDetected` | src/cktp_common.c:61-72 | messages of equal length that differ only within 16 consecutive bits have different checksums |
| `Checksum.TwoFolds` | src/checksum.c:62-64 | two folds of any 32-bit sum give the one's complement sum |
| `Checksum.Compute` | src/checksum.c:35-67 | up to 128 KB the 32-bit sum does not overflow and the result is the complement of the one's complement sum |
| `Checksum.ByteOrderIndependent` | src/checksum.c:35-67 | host-order computation stores the same bytes as the network-order definition of sections 1 and 2 of RFC 1071 |
| `Checksum.RecheckIsZero` | src/checksum.c:35-67 | storing the checksum in its zeroed aligned field makes a re-check give 0 |
| `Fragment.FragmentFacts` | src/packet_dispatch.c:331-358 | both fragments have consistent lengths, valid header checksums, the right offset and MF flag, and the two parts of the payload |
| `Fragment.FragmentsReassemble` | src/packet_dispatch.c:297-361 | reassembly by section 3.2 of RFC 791 gives the original payload in either order of arrival |
| `Fragment.FragmentsCut` | src/packet_dispatch.c:315-336 | two fragments iff the multiple of 8 above TCP header and split lies inside the payload, which they hold up to and from there |
| `Fragment.FirstSegmentFacts` | src/packet_dispatch.c:390-409 | the first segment has valid checksums, the front of the data, no FIN, no PSH and window 0 |
| `Fragment.SecondSegmentFacts` | src/packet_dispatch.c:411-425 | the second segment has valid checksums, the rest of the data, the advanced sequence number and all flags |
| `Fragment.SegmentsReassemble` | src/packet_dispatch.c:372-428 | in either order the segments leave the receiver's stream as the original would, modulo 2^32 |
| `Fragment.SegmentsCut` | src/packet_dispatch.c:383-425 | two segments iff the split lies inside the data, which they hold up to and from the split |
| `Fragment.PseudoLayout` | src/checksum.c:98-113 | the pseudo header holds both addresses, protocol 6 and the length in network order |
| `FragmentBuffer.IpFragment` | src/packet_dispatch.c:297-361 | the buffer holds exactly the fragments, or the packet is passed on whole |
| `FragmentBuffer.TcpFragment` | src/packet_dispatch.c:372-428 | the buffer holds exactly the segments, or the packet is passed on whole |
| `FragmentBuffer.SealIpAt` | src/checksum.c:72-75 | the IP checksum zeroed, computed and stored in place |
| `FragmentBuffer.TcpChecksumAt` | src/checksum.c:96-121 | the TCP checksum covers the pseudo header and the segment |
| `Fragment.ReaddressFacts` | src/cktp_client.c:879-915 | a packet with a foreign source address gets the tunnel's, with valid checksums, and differs in nothing else |
| `FragmentBuffer.ReaddressAt` | src/cktp_client.c:879-915 | that rewrite in place |
| `Cktp.Request` | src/cktp_server.c:766-860 | a request is answered iff version, size, checksum and length are right, and the buffer then holds exactly the reply, within bounds |
| `Cktp.WriteBodies` | src/cktp_server.c:790-850 | the loop writes one body per message, in order, without leaving the buffer |
| `Cktp.BodiesRead` | src/cktp_client.c:667-781 | the reader recovers one answer per message, in order |
| `Cktp.RequestAnswered` | src/cktp_server.c:766-860 | every request of 1 to 32 messages is answered; the client accepts the reply and reads the right answers, and without the id only the id is answered |
| `Cktp.AnswerTable` | src/cktp_server.c:798-848 | the answers and error codes in the numbers that travel |
| `Cktp.OnlyRequestsAnswered` | src/cktp_server.c:771-776 | nothing else is answered |
| `Cktp.CorruptedRequestRefused` | src/cktp_server.c:771-776 | a request changed within 16 consecutive bits behind its checksum field is refused |
| `Cktp.CorruptedReplyRefused` | src/cktp_client.c:812-819 | so is a reply |
| `Cktp.ForeignReplyRefused` | src/cktp_client.c:800-811 | and a reply to another request |
| `CktpConnect.FieldIsAnswer` | src/cktp.h:191-197 | a field that is loaded whole is the answer in the stream; a load past the end yields none |
| `CktpConnect.Tunnel.ReplyGetAuth` | src/cktp_client.c:667-701 | the handler takes the id, reports a refusal, or asks for another reply, having stored what it loaded from a truncated one |
| `CktpConnect.Tunnel.ReplyGetInfo` | src/cktp_client.c:706-781 | success without error means that flags, address and filter are the reply's three values; on refusal or truncation each field is what the code has stored by then |
| `CktpConnect.Tunnel.CheckConfiguration` | src/cktp_client.c:395-428 | usable iff IPv4 and tunnelling are flagged and the filter lets HTTP and DNS through |
| `CktpConnect.Tunnel.Connect` | src/cktp_client.c:317-431 | against the server's request loop connect succeeds and reads back cookie, flags 0x5, source address and filter 0x0100 |
| `HostMatch.Scan` | src/packet_protocol.c:109-123 | the automaton stops at the first whole header name behind its start, or at the end |
| `HostMatch.LastHost` | src/packet_protocol.c:103-131 | the position found is that of the last header name not followed by CR, as naive search finds it |
| `HostMatch.CaseDoesNotMatter` | src/packet_protocol.c:104-115 | a header name matches iff it is the pattern up to the case of letters |
| `HostMatch.UrlMatch` | src/packet_protocol.c:93-152 | a host is found iff there is one, with its start and reported end |
| `HostMatch.SplitInsideHost` | src/packet_dispatch.c:115-133 | for every packet hash and non-empty host the split lies behind its first byte and not past its end |
| `HostMatch.SplitReaches` | src/packet_dispatch.c:118-123 | every point from behind the first byte to two before the reported end is chosen for some hash byte |
| `HostMatch.SplitHashFolds` | src/packet_dispatch.c:433-442 | the hash byte is the exclusive or of all eight bytes |
| `Dispatch.SplitRequest` | src/packet_dispatch.c:107-160 | a request with a host is cut at the configured point and layer, any other is left alone |
| `Dispatch.HostIsCut` | src/packet_dispatch.c:115-148 | at the transport layer neither segment holds a host of two or more bytes whole |
| `Base64.ReadBitsDigit` | src/base64.c:29-35 | six bits at 6i are digit i of the number in base 64 |
| `Base64.WriteBits` | src/base64.c:40-47 | a group written at 6i adds it at its weight to the number in the buffer |
| `Base64.DigitRoundTrip` | src/base64.c:52-107 | every digit decodes to its value |
| `Base64.AlphabetIs` | src/base64.c:52-79 | the digits in their order |
| `Base64.Encode` | src/base64.c:112-121 | the characters are the base-64 digits, with the length of the closed formula |
| `Base64.Decode` | src/base64.c:126-138 | fails iff a character is outside the alphabet, else gives the bytes of the number, with the length of the closed formula |
| `Base64.RoundTrip` | src/base64.c:112-138 | for every non-empty string and any filler bits, decoding the encoding returns it as a prefix |
| `Quota.KeyRequestsFit` | src/encodings/crypt.c:154-157 | with these parameters a bucket accepts at most 63 requests per window, so counters do not wrap |
| `Quota.CountStep` | src/quota.c:113-131 | one request keeps every counter exact and within its allowance |
| `Quota.AcceptedSinceReset` | src/quota.c:91-133 | over every run the requests accepted since the window opened equal the counter and stay within (rps-1)*elapsed/1024 + window/1024 + 2 |
| `Quota.AcceptedInRun` | src/quota.c:91-133 | over a whole run of many windows one bucket accepts at a bounded rate |
| `Quota.AcceptedIff` | src/quota.c:91-133 | over every run a request is accepted iff fewer of its bucket were accepted since the window opened than the allowance; requests after the reset time open windows of the drawn length |
| `Quota.AllowanceIs` | src/quota.c:121-124 | the allowance is (rps-1)*elapsed/1024 + window/1024 + 2 |
| `Quota.RateRescaled` | src/quota.c:73 | the effective rate is the rate per 1024 ms, rounded down |
| `Quota.UnfitOverruns` | src/quota.c:125-128 | parameters whose allowance exceeds 16 bits let any number of requests through |
| `Quota.Tracker.constructor` | src/quota.c:54-75 | the tracker starts with a reset time in the past |
| `Quota.Tracker.Ask` | src/quota.c:91-133 | window, counters and verdict change as specified |

## Left out

- The exact layout of numbers that GMP exports: the server's public value, secret and signature are taken as 128-byte
  numbers; an export of fewer bytes leaves the rest of the buffer as it was, which the model does not capture.
- The RSA identity: `HandshakeServer.SignsFor` is a hypothesis about the signing exponent, not derived from primes.
- The cipher and hash implementations (AES, XXTEA, and the hash built from a cipher), and the cookie generators.
- NaturalMod.ModExpCorrect: for a modulus with a repeated factor, and b no multiple of it, it gives one direction only;
  which of 0 and m comes out then depends on the parity of intermediate quotients.
- Fragment.SegmentsReassemble: nothing is stated for UDP, whose checksum the program computes with the TCP protocol
  number; `ReaddressFacts` gives validity in that sense only.
- Data races between server threads on the shared sequence number and on quota counters.
- Retries, timeouts and sockets of requests; log, option, configuration and certificate cache files.
- IPv6, the TCP SYN option rewrite, ghost packets, packet tracking, the tunnel list and its threads.
- Windows, packet capture and firewall code, the web interface and the HTTP server.
- The bucket choice of the rate limiter and its salt: the bucket is a parameter.
