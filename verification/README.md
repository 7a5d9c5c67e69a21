# FiSH 11: models of the chat encryption and proofs about them

The repository encrypts IRC conversations. Around its ciphers lies code of its own: three hand-written
base64 codecs, block modes and paddings, two key exchanges, counters and ratchets, a two-way map between
TLS contexts and sockets, the rewriting of IRC lines, and the keeping of keys. This project models that
code in Dafny and proves what it is for. `dafny verify dfyconfig.toml` checks everything.

| files | what they model |
|---|---|
| `Wrappers`, `Bytes`, `Counting`, `Modular`, `PowersOfTwo`, `Cbc`, `CStrings`, `Sextets` | shared ground: byte strings and numbers, powers modulo N, block chaining, C buffers, six-bit groups |
| `SrpPrimitives`, `SrpSpec`, `SrpContext`, `SrpAlgebra`, `SrpProtocol`, `SrpChannel`, `SrpMessages` | the IRCSRP2 group chat: its byte helpers, a participant as a class, the algebra, the exchange of many Alices with one Dave, the channel traffic, and what every message carries or is refused for |
| `SslMapping`, `SslThreads`, `SslResults`, `SslTwoCalls` | the map between TLS contexts and sockets, alone, with any number of threads, what calls return there, and two calls at once |
| `StaticB64`, `FishB64`, `Dh1080` | the two C base64 codecs and the 1080-bit Diffie-Hellman exchange with its fixed buffers |
| `Fish10Codec`, `Fish10` | the FiSH 10 text format and the Blowfish modes, in Rust and in C |
| `Nonces`, `MasterCipher`, `Ratchet` | counter nonces with their window, data sealed into blobs, the channel ratchet with late and repeated messages |
| `IrcText`, `Engine`, `EngineRoundTrip`, `EngineCases` | the rewriting of outgoing and incoming lines: round trips, and the lines outside of them |
| `KeyStore`, `ConfigFile` | the store of keys with expiry, and saving and loading the configuration |

Code that changes things in place is modelled by classes, arrays and loops, and each such method is proved
equal to a function of its inputs and the old state; the properties are then proved about those functions
and about runs of them. Ciphers, hashes, key derivation, case folding and the base64 libraries are
functions in a record whose laws (inverse, length) are stated once beside it, with a witness that the laws
can be met. Random values and the time are parameters, and the results hold for all of them.

Where the code does something else than its comments or names suggest, the code is modelled, and a lemma
says exactly when the expectation holds:

- Alice reduces her exponent a + ux modulo N, where the order of the group is called for:
  `SrpProtocol.SecretsAgreeIff`, `SrpProtocol.ReducedExponentFails`.
- New channel keys whose last byte is zero are lost in the zero padding: `SrpChannel.RekeyFollowedIff`.
- The comment on the base64 decoder promises to ignore foreign characters; it counts them, so that every
  later letter is taken for another place in its group unless they come in fours:
  `StaticB64.ForeignCharactersIff`.
- The base64 encoder reads one byte past an input of length 1 modulo 3: `StaticB64.StandardIff` says when it
  shows, `StaticB64.RoundTrip` that decoding never sees it.
- The bit-serial codec loses bytes when the last group is zero: `FishB64.RoundTripIff`.
- Public values that need fewer than 135 bytes arrive multiplied by powers of 256: `Dh1080.RecoveredIff`,
  `Dh1080.ShortSecretsAgreeIff`, `Dh1080.ShortInputsAgreeIff`.
- The nonce window is bounded by 10000 only as long as counters are not set back: `Nonces.FullWindowIff`,
  `Nonces.WindowOverflows`.
- Repairing the two maps once can leave a new orphan (`SslMapping.OneRepairIsNotEnough`):
  `SslMapping.OneRepairSufficesIff` says when it does not. Nor are repaired maps always inverse
  (`SslMapping.CrossedPairsPass`): `SslMapping.RepairedInverseIff` says when they are.
- Two calls at once can leave a half-mapped pair although each map operation is atomic:
  `SslTwoCalls.TwoCallsSettleIff`, `SslTwoCalls.ReassociationRaces`.
- The expiry check forgets the network of a nick with its key, and can take away the entry that lookups in
  another network fall back on: `KeyStore.ExpiryTouchesNetworkIff`.
- A channel name typed with capitals is bound into the text as typed and looked for folded:
  `EngineRoundTrip.LineRoundTripIff`.
- Lifetimes beyond seven days in the configuration file let the expiry check delete keys that lookups
  still return: `KeyStore.ExpirySafeIff`.
- The configuration file does not keep the exchange mark of a key: `ConfigFile.SaveLoadIff`.

## Model

| member | source | states |
|---|---|---|
| SrpPrimitives.IntRoundTrip | docs/IRCSRP/ircsrp2.py:116-134 | reading the minimal big-endian bytes of a number, zero included, gives the number back |
| SrpPrimitives.BytesRoundTripIff | docs/IRCSRP/ircsrp2.py:116-134 | a string comes back from its number if and only if it is a single zero byte or begins with another byte |
| SrpPrimitives.IntToBytes | docs/IRCSRP/ircsrp2.py:116-124 | the loop writes the minimal digits, one byte for zero |
| SrpPrimitives.BytesToInt | docs/IRCSRP/ircsrp2.py:127-133 | the loop computes the big-endian value of strings of any length, leading zeros included |
| ZeroPadding.PadLenIsRemainder | docs/IRCSRP/ircsrp2.py:149-156 | the padding is nothing for whole blocks and otherwise what is missing |
| SrpPrimitives.PadTo | docs/IRCSRP/ircsrp2.py:149-156 | zeros up to the next whole block, none for a whole one |
| SrpPrimitives.XorString | docs/IRCSRP/ircsrp2.py:159-164 | byte by byte over the first block |
| Bytes.XorTwice | docs/IRCSRP/ircsrp2.py:159-164 | combining twice with the same string undoes itself |
| SrpPrimitives.CbcEncrypt | docs/IRCSRP/ircsrp2.py:167-186 | the loop over blocks seals as the recursive chaining does, the first chaining block in front |
| SrpPrimitives.CbcDecrypt | docs/IRCSRP/ircsrp2.py:189-205 | the loop over blocks opens as the recursive unchaining does |
| SrpPrimitives.CbcRoundTrip | docs/IRCSRP/ircsrp2.py:167-215 | opening undoes sealing for every key, first chaining block and padded text |
| SrpPrimitives.SealedBlock | docs/IRCSRP/ircsrp2.py:167-186 | the first chaining block stands in front, and each block is encrypted with the sealed one before it mixed in |
| SrpPrimitives.OpenedBlock | docs/IRCSRP/ircsrp2.py:189-205 | each block comes out of its sealed one and the one before it |
| Cbc.UnchainChain | docs/IRCSRP/ircsrp2.py:167-205 | unchaining undoes chaining for every invertible block function and block length |
| Cbc.UnchainBlock | docs/IRCSRP/ircsrp2.py:189-205 | a decrypted block depends on its own ciphertext block and the one before it only |
| SrpSpec.ParseHonest | docs/IRCSRP/ircsrp2.py:381-386 | a notice built as a command and an argument is read back as that command and that argument |
| SrpContext.IrcSrpCtx.constructor | docs/IRCSRP/ircsrp2.py:271-283 | a participant without keys, with an empty user table only for Dave |
| SrpContext.IrcSrpCtx.Exchange | docs/IRCSRP/ircsrp2.py:371-490 | the handler's new state and answer, for every message, sender and random values, errors and the state they leave behind included |
| SrpContext.IrcSrpCtx.DaveHello | docs/IRCSRP/ircsrp2.py:396-406 | a fresh record per sender, B = 3v + g^b, and the answer with salt and B |
| SrpContext.IrcSrpCtx.AliceProof | docs/IRCSRP/ircsrp2.py:409-430 | all computed values, with the exponent reduced modulo N, and the proof that is sent |
| SrpContext.IrcSrpCtx.DaveVerify | docs/IRCSRP/ircsrp2.py:433-464 | the proof is checked before the record is dropped and the keys are sealed; a wrong one leaves the record |
| SrpContext.IrcSrpCtx.AliceFinish | docs/IRCSRP/ircsrp2.py:467-488 | keys are taken only after the MAC and Dave's answer have been checked |
| SrpContext.IrcSrpCtx.Pack | docs/IRCSRP/ircsrp2.py:306-312 | header, padding, sealing and MAC of a channel text |
| SrpContext.IrcSrpCtx.Unpack | docs/IRCSRP/ircsrp2.py:315-368 | the text or new keys of a packed text, and which error each malformed one raises |
| SrpContext.IrcSrpCtx.SetKey | docs/IRCSRP/ircsrp2.py:285-295 | Dave packs the new keys under the old ones before he takes them |
| SrpAlgebra.DavePower | docs/IRCSRP/ircsrp2.py:446 | (A v^u)^b is g^((a + ux) b) modulo N |
| SrpAlgebra.AlicePower | docs/IRCSRP/ircsrp2.py:404-421 | (B - 3 g^x)^e with B = 3v + g^b is g^(b e) modulo N, the difference being negative or not |
| SrpAlgebra.SharesAgree | docs/IRCSRP/ircsrp2.py:421-446 | the two secrets are equal for all g, a, b, x, u with a + ux below N |
| SrpAlgebra.SharesAgreeIff | docs/IRCSRP/ircsrp2.py:421-446 | for every exponent: they are equal if and only if what the reduction drops is trivial |
| SrpAlgebra.SharesAgreeIffPrime | docs/IRCSRP/ircsrp2.py:421-446 | the same with Fermat's theorem for the modulus: g^(b k) is one, k being how often N is taken off |
| SrpProtocol.HelloReads | docs/IRCSRP/ircsrp2.py:396-406 | what Dave records and answers to +srpa0 of a registered user, through the parsing of the notice |
| SrpProtocol.ProofReads | docs/IRCSRP/ircsrp2.py:409-430 | Alice reads back exactly the salt and the B that were sent, and stops only for B = 0 modulo N |
| SrpProtocol.VerifyReads | docs/IRCSRP/ircsrp2.py:433-464 | Dave reads back A and the proof and rejects exactly when his secret gives another proof |
| SrpProtocol.KeyNoticeOpens | docs/IRCSRP/ircsrp2.py:458-488 | from a notice sealed under her secret Alice takes exactly the keys that were sealed |
| SrpProtocol.NextKeeps | docs/IRCSRP/ircsrp2.py:371-490 | every step of every participant, and every change of the channel keys, keeps the invariant that ties each Alice to her notice and to Dave's record |
| SrpProtocol.RunKeeps | docs/IRCSRP/ircsrp2.py:371-490 | the invariant holds in every run of any number of Alices with one Dave |
| SrpProtocol.Agreement | docs/IRCSRP/ircsrp2.py:371-490 | in every run, an Alice who has accepted with a + ux below N holds exactly the session and MAC keys Dave held when he handled her +srpa2, and her record with him is gone |
| SrpProtocol.NeverRejected | docs/IRCSRP/ircsrp2.py:371-490 | in every run the next notice is answered or accepted, unless B is zero modulo N or the exponent has reached N |
| SrpProtocol.SecretsAgreeIff | docs/IRCSRP/ircsrp2.py:404-446 | the secrets as the two handlers compute them agree if and only if g^(b N k) is one, which is g^(b k) where Fermat's theorem holds; k is zero exactly below N |
| PowersOfTwo.PowerIsNotOne | docs/IRCSRP/ircsrp2.py:421 | 2^N is never one modulo an odd N: raising to the modulus does not act as the reduction of the exponent takes for granted |
| SrpProtocol.ReducedExponentFails | docs/IRCSRP/ircsrp2.py:421 | with a = N - 1 the secrets differ for b = 2 or for b = 3, for all hashes x and u whose product lies between 1 and N; for b = 2 where Fermat's theorem holds |
| SrpMessages.FixedParts | docs/IRCSRP/ircsrp2.py:307-488 | the texts that open each notice and each channel text, and the words that derive the keys |
| SrpMessages.HelloCarries | docs/IRCSRP/ircsrp2.py:396-406 | B is 3v + 2^b modulo N, sent behind the salt |
| SrpMessages.ProofCarries | docs/IRCSRP/ircsrp2.py:409-430 | which strings Alice hashes for x, u, the two keys and the proof, and that she stops for B = 0 modulo N |
| SrpMessages.VerifyReadsAny | docs/IRCSRP/ircsrp2.py:433-464 | Dave refuses an A that is zero modulo N and a proof that is not the hash of A, B and his own secret, and keeps his record; else he drops it and seals his keys and his answer |
| SrpMessages.ProofRefusedIff | docs/IRCSRP/ircsrp2.py:424-451 | the proof of an Alice with another secret, a wrong password for instance, is refused if and only if the hash tells the two secrets apart |
| SrpMessages.StrangersRefused | docs/IRCSRP/ircsrp2.py:396-437 | proofs without a record and unknown users are refused |
| SrpMessages.StartsOnce | docs/IRCSRP/ircsrp2.py:389-393 | the exchange starts with +srpa0 and the name, and only when none is under way |
| SrpMessages.OutOfTurn | docs/IRCSRP/ircsrp2.py:381-492 | notices without a known digit, and +srpa1 and +srpa3 out of turn, are refused and change nothing |
| SrpMessages.KeysRefused | docs/IRCSRP/ircsrp2.py:467-488 | Alice refuses a wrong MAC and a wrong answer and stays as she was; otherwise she takes the two keys in front of it |
| SrpChannel.UnpackReaches | docs/IRCSRP/ircsrp2.py:306-340 | under the packer's keys every packed text passes the MAC and the decryption |
| SrpChannel.SayHeard | docs/IRCSRP/ircsrp2.py:306-368 | every text comes out without its trailing zero bytes, or fails with the time stamp cut |
| SrpChannel.SayExactlyIff | docs/IRCSRP/ircsrp2.py:306-368 | it comes out exactly if and only if its last byte, or for an empty text the stamp's, is not zero |
| SrpChannel.RekeyFollowedIff | docs/IRCSRP/ircsrp2.py:285-366 | members follow a change of keys if and only if the last key byte is not zero, and otherwise keep their keys |
| SrpChannel.MembersFollow | docs/IRCSRP/ircsrp2.py:285-368 | after every run of texts and key changes delivered in order, a member holds the keys Dave holds and has heard every text |
| SrpMessages.TextCarries | docs/IRCSRP/ircsrp2.py:306-312 | what is sealed: M, the length of the name, the name, the time and the text |
| SrpMessages.AlteredMacRefused | docs/IRCSRP/ircsrp2.py:328-332 | a channel text with another MAC is refused and changes nothing |
| SrpMessages.OtherKeyRefused | docs/IRCSRP/ircsrp2.py:328-332 | a text packed under another MAC key is refused unless the two keys give it one MAC |
| SrpMessages.LostRekeyIsNoticed | docs/IRCSRP/ircsrp2.py:285-368 | after a change of keys that got lost, texts under the new keys are refused, not misread |
| SrpMessages.OpenedTexts | docs/IRCSRP/ircsrp2.py:334-368 | with the right MAC: which text, keys or error come out, by what stands between the zero bytes |
| SrpMessages.MalformedTexts | docs/IRCSRP/ircsrp2.py:315-328 | what no packed text is; whatever raises an error changes nothing |
| SrpMessages.MembersSetSilently | docs/IRCSRP/ircsrp2.py:285-295 | only Dave announces new keys |
| SslMapping.SslSocketMapping.Associate | fish_11_inject/src/ssl_mapping.rs:36-54 | one entry in each map, nothing for a null pointer |
| SslMapping.SslSocketMapping.GetSocket | fish_11_inject/src/ssl_mapping.rs:62-69 | the mapped socket, none for a null pointer |
| SslMapping.SslSocketMapping.GetSsl | fish_11_inject/src/ssl_mapping.rs:82-84 | the mapped SSL |
| SslMapping.SslSocketMapping.RemoveSsl | fish_11_inject/src/ssl_mapping.rs:97-170 | with one thread the first attempt decides, and both entries are gone |
| SslMapping.SslSocketMapping.RemoveSocket | fish_11_inject/src/ssl_mapping.rs:183-243 | the same from the other side |
| SslMapping.SslSocketMapping.CheckAndRepairConsistency | fish_11_inject/src/ssl_mapping.rs:294-361 | one repair in whatever order the maps are walked: the result counts the removed entries and is zero exactly when nothing dangled |
| SslMapping.SslSocketMapping.RemoveOrphanSsl | fish_11_inject/src/ssl_mapping.rs:314-333 | the first pass keeps exactly the SSL entries whose socket is mapped |
| SslMapping.SslSocketMapping.RemoveOrphanSockets | fish_11_inject/src/ssl_mapping.rs:335-352 | the second pass keeps exactly the socket entries whose SSL is still mapped |
| SslMapping.AssociateKeepsInverseIff | fish_11_inject/src/ssl_mapping.rs:36-54 | association keeps the maps inverse if and only if neither side was tied to another partner |
| SslMapping.RemoveKeepsInverse | fish_11_inject/src/ssl_mapping.rs:97-170 | removal keeps them inverse |
| SslMapping.RepairedIff | fish_11_inject/src/ssl_mapping.rs:294-361 | a repair changes nothing if and only if nothing dangles |
| SslMapping.RepairSpares | fish_11_inject/src/ssl_mapping.rs:294-361 | a repair touches no entry of any closed pair of sub-maps |
| SslMapping.StableIsGreatestClosed | fish_11_inject/src/ssl_mapping.rs:294-361 | repairing until nothing is found stops, and leaves the greatest pair of sub-maps in which every socket and every SSL is still mapped |
| SslMapping.OneRepairSufficesIff | fish_11_inject/src/ssl_mapping.rs:294-361 | one repair leaves nothing dangling, and repairing on changes nothing, if and only if every SSL entry breaks at its socket or leads on for two more steps |
| SslMapping.RepairedInverseIff | fish_11_inject/src/ssl_mapping.rs:286-361 | a repair leaves inverse maps, for good, if and only if no two entries that lead somewhere contradict each other |
| SslMapping.InverseIsStable | fish_11_inject/src/ssl_mapping.rs:294-361 | repairing leaves inverse maps alone |
| SslMapping.OneRepairIsNotEnough | fish_11_inject/src/ssl_mapping.rs:314-352 | a single repair can create a new orphan |
| SslMapping.CrossedPairsPass | fish_11_inject/src/ssl_mapping.rs:286-361 | maps that are not inverse can pass the check |
| SslThreads.NextKeeps | fish_11_inject/src/ssl_mapping.rs:36-243 | every single map operation of every thread keeps the invariant about half-mapped pairs |
| SslThreads.RunKeeps | fish_11_inject/src/ssl_mapping.rs:36-243 | the invariant holds in every schedule of any number of threads, each making call after call |
| SslThreads.CallsSettle | fish_11_inject/src/ssl_mapping.rs:36-243 | whenever all calls have returned, the maps are inverse and those that the same calls leave one after the other, in the order in which they began |
| SslThreads.TwoAttemptsSuffice | fish_11_inject/src/ssl_mapping.rs:106-170 | no call needs its third attempt, and none meets a value that changed under it |
| SslResults.ReturnedWasHeld | fish_11_inject/src/ssl_mapping.rs:106-243 | a removal that returns a partner names a pair that the calls begun by then, one after the other, held at some point |
| SslResults.UndisputedReturnsPartner | fish_11_inject/src/ssl_mapping.rs:106-243 | a removal of a held pair that no other call removes meanwhile returns the partner, whatever else goes on |
| SslTwoCalls.CallAlone | fish_11_inject/src/ssl_mapping.rs:36-243 | the steps of a call that nothing interrupts make of the maps, and return, what the method does |
| SslTwoCalls.ChangedValueSweeps | fish_11_inject/src/ssl_mapping.rs:117-130 | a removal that finds another socket than it has seen removes both and returns the one it found |
| SslTwoCalls.VanishedIsRetried | fish_11_inject/src/ssl_mapping.rs:150-170 | a removal whose entry vanishes looks again twice and then gives up |
| SslTwoCalls.TwoCallsSettleIff | fish_11_inject/src/ssl_mapping.rs:36-243 | two calls begun at the same time leave inverse maps in every schedule if and only if they are compatible, which can be read off the maps and the arguments |
| SslTwoCalls.ReassociationRaces | fish_11_inject/src/ssl_mapping.rs:36-140 | associating an SSL again while it is removed can leave the maps in contradiction |
| Sextets.SextetBits | docs/znc/b64stuff_static.cpp:48-54 | the groups the codecs cut out of three bytes are the consecutive runs of six bits |
| Sextets.ByteOfSextets | docs/znc/fish.cpp:59-81 | groups determine every byte they cover |
| Sextets.LetterValue | docs/znc/b64stuff_static.cpp:81-98 | the decoding table inverts the alphabet |
| Sextets.Alphabet | docs/znc/b64stuff_static.cpp:81-98 | which letter stands for which value |
| Sextets.LetterOfValue | docs/znc/b64stuff_static.cpp:81-98 | and nothing else is a letter |
| StaticB64.Encode | docs/znc/b64stuff_static.cpp:25-74 | the buffer after encoding: the text, a NUL behind it, nothing else changed |
| StaticB64.RawDecode | docs/znc/b64stuff_static.cpp:100-162 | the written bytes, the count and the error code for every string, strict or not, whatever the stack buffer held |
| StaticB64.Decode | docs/znc/b64stuff_static.cpp:171-194 | the same, with length zero after an error |
| StaticB64.ScanRoom | docs/znc/b64stuff_static.cpp:164-182 | decoding never writes more than three bytes for every four characters begun |
| StaticB64.RoundTrip | docs/znc/b64stuff_static.cpp:25-194 | decoding an encoded string gives it back without error for every byte string, byte behind it and stack content |
| StaticB64.ForeignCharactersIff | docs/znc/b64stuff_static.cpp:100-167 | foreign characters at any place of an encoded string are ignored if and only if they come in fours, or stand behind the first equals sign and do not part it from a second one |
| StaticB64.ErrorsIff | docs/znc/b64stuff_static.cpp:100-162 | which error the first character that is no letter comes to: the end, equals signs, and foreign characters under strictness |
| StaticB64.TrailingCharacter | docs/znc/b64stuff_static.cpp:126-131 | a foreign character behind the text is accepted exactly when the text was padded |
| StaticB64.StandardIff | docs/znc/b64stuff_static.cpp:56-73 | the text is that of section 4 of RFC 4648 if and only if the length is not 1 modulo 3 or the byte behind is below 16 |
| StaticB64.FishText | docs/znc/fish.cpp:89-115 | the bit-serial codec writes the standard text without its padding, with an A behind whole groups |
| FishB64.Htob64 | docs/znc/fish.cpp:89-115 | the buffer after encoding, nothing written for length zero, lengths beyond 2^29 wrapping |
| FishB64.EncodeBits | docs/znc/fish.cpp:96-107 | the bit loop emits the six-bit groups and leaves the started one shifted by one |
| FishB64.LastGroup | docs/znc/fish.cpp:108-113 | what is left when the bits run out becomes the last group, filled with zeros |
| FishB64.B64toh | docs/znc/fish.cpp:48-82 | the bytes of all full groups after dropping trailing zero-valued characters, and their number |
| FishB64.RoundTripPrefix | docs/znc/fish.cpp:48-115 | decoding an encoded string gives its prefix of length floor(6n/8), n being the groups left without the trailing zero ones |
| FishB64.RoundTripIff | docs/znc/fish.cpp:48-115 | it gives the whole string if and only if the last group that carries bits is not zero |
| FishB64.ForeignIsA | docs/znc/fish.cpp:32-66 | a foreign character reads as an A, and at the end counts for nothing |
| Dh1080.PrimeFits | docs/znc/dh1080.cpp:14-22 | the prime fits the 135-byte buffers |
| Dh1080.TextsAre | docs/znc/dh1080.cpp:101-181 | the public text is that of section 4 of RFC 4648 with an A behind it, the key text that of the hash without its equals sign |
| Dh1080.Exchange.GetNewPublicKey | docs/znc/dh1080.cpp:101-131 | the string in the member buffer after a fresh key pair |
| Dh1080.Exchange.ComputeSymetricKey | docs/znc/dh1080.cpp:133-181 | the key text for every string of the peer, through the copies and buffer writes; the key pair is spent |
| Dh1080.PubDecodes | docs/znc/dh1080.cpp:118-153 | the peer decodes exactly the bytes that were encoded |
| Dh1080.RecoveredIff | docs/znc/dh1080.cpp:117-154 | a public value arrives if and only if it needs all 135 bytes |
| Dh1080.InputFromFullPub | docs/znc/dh1080.cpp:153-164 | what is hashed: the secret's bytes and behind them what it does not overwrite of the peer's value |
| Dh1080.RefusedPubIsHashed | docs/znc/dh1080.cpp:153-176 | where the library refuses a public value, or there is no key pair, that value alone is hashed |
| Dh1080.HashInputsAgreeIff | docs/znc/dh1080.cpp:101-164 | both sides hash the same bytes if and only if the public values agree on every byte the secret does not overwrite |
| Dh1080.KeyOfInjective | docs/znc/dh1080.cpp:164-178 | the key text without the equals sign loses nothing of the hash |
| Dh1080.KeysAgreeIff | docs/znc/dh1080.cpp:101-181 | the key texts are equal if and only if the hashes are |
| Dh1080.Agreement | docs/znc/dh1080.cpp:101-181 | both sides get one key text whenever both public values and the secret need all 135 bytes |
| Dh1080.ShortSecretsAgreeIff | docs/znc/dh1080.cpp:101-156 | for short public values the secrets agree if and only if the powers of 256 they pick up agree |
| Dh1080.ShortInputsAgreeIff | docs/znc/dh1080.cpp:101-181 | for short public values that the library uses and secrets of one length, both sides hash the same if and only if those powers agree and the padded public values agree behind the secret |
| Fish10Codec.GroupRoundTrip | fish_11_dll/src/crypto/blowfish.rs:36-101 | twelve characters give back their eight bytes, right word first, low bits first |
| Fish10Codec.DecodedEncoded | fish_11_dll/src/crypto/blowfish.rs:18-102 | decoding inverts encoding on every byte string of whole blocks |
| Fish10Codec.ReencodedIff | fish_11_dll/src/crypto/blowfish.rs:18-102 | encoding what an accepted string decodes to gives it back if and only if every character at place 5 modulo 6 is one of the first four letters |
| Fish10Codec.Alphabet | fish_11_dll/src/crypto/blowfish.rs:14-16 | which character stands for which value; in C every other one stands for zero |
| Fish10Codec.GroupCharacters | fish_11_dll/src/crypto/blowfish.rs:33-56 | which six bits of which word each character holds |
| Fish10.Fish10B64Encode | fish_11_dll/src/crypto/blowfish.rs:18-58 | the text, or an error for broken blocks |
| Fish10.Fish10B64Decode | fish_11_dll/src/crypto/blowfish.rs:61-102 | the bytes, or which error: length first, then characters |
| Fish10.EncryptMessage | fish_11_dll/src/crypto/blowfish.rs:105-130 | the ECB text of the padded message, or an error for a refused key |
| Fish10.DecryptMessage | fish_11_dll/src/crypto/blowfish.rs:133-155 | the decrypted blocks without trailing NULs, or which error |
| Fish10.EncryptMessageCbc | fish_11_dll/src/crypto/blowfish.rs:175-233 | the CBC text, chained from the front of the key |
| Fish10.DecryptMessageCbc | fish_11_dll/src/crypto/blowfish.rs:236-285 | its decryption, or which error; here the text is looked at before the key |
| Fish10.Encrypts | docs/znc/fish.cpp:131-180 | the C loop that stops at a NUL writes the same text as the Rust encryptor for every C string |
| Fish10.Decrypts | docs/znc/fish.cpp:182-213 | the C result buffer for every text of whole groups, foreign characters counting as zero |
| Fish10.MessageOpens | fish_11_dll/src/crypto/blowfish.rs:105-301 | decryption gives back the padded text in both modes, and the text is always accepted |
| Fish10.EcbBlock | fish_11_dll/src/crypto/blowfish.rs:117-130 | every block of an ECB text is the block of the padded message encrypted under the key |
| Fish10.IvIs | fish_11_dll/src/crypto/blowfish.rs:185-196 | the first chaining block is the front of the key, filled up with zeros |
| Fish10.RustReadsRust | fish_11_dll/src/crypto/blowfish.rs:105-301 | every message comes back without its trailing NULs, exactly those without any come back whole |
| Fish10.TextLength | fish_11_dll/src/crypto/blowfish.rs:105-233 | twelve characters for every eight bytes begun |
| Fish10.CReads | docs/znc/fish.cpp:131-213 | the C decryptor gives back every NUL-free message of either encryptor |
| Fish10.CbcBlock | fish_11_dll/src/crypto/blowfish.rs:268-282 | what block k of a CBC text decrypts to |
| Fish10.ChangedGroup | fish_11_dll/src/crypto/blowfish.rs:268-282 | changing one twelve-character group changes only that block and the next, the next in exactly the bits that changed in the decoded group |
| Blobs.NonceInjective | fish_11_core/src/master_key/encryption.rs:126-128 | different counters give different nonces |
| MasterCipher.NoncePlace | fish_11_core/src/master_key/encryption.rs:126-128 | four zero bytes and the counter in eight, high byte first |
| MasterCipher.BlobLayout | fish_11_core/src/master_key/encryption.rs:54-61 | where the fields of a blob stand in its bytes |
| MasterCipher.EncryptData | fish_11_core/src/master_key/encryption.rs:154-178 | a sealed blob with the next counter, or which failure, and what becomes of the counters |
| MasterCipher.DataRoundTrip | fish_11_core/src/master_key/encryption.rs:154-208 | sealed data comes back from the bytes of its blob under the same key |
| Blobs.ToBytes | fish_11_core/src/master_key/encryption.rs:54-61 | version, generation, counter and ciphertext in order |
| Blobs.BlobRoundTrip | fish_11_core/src/master_key/encryption.rs:54-84 | a blob survives its bytes |
| Blobs.BytesRoundTrip | fish_11_core/src/master_key/encryption.rs:54-84 | from 13 bytes on every string is read, and written back the same |
| Nonces.NonceManager.Advance | fish_11_core/src/master_key/encryption.rs:108-112 | the next counter unless it overflows, and a window for the key |
| Nonces.NonceManager.GetNextNonce | fish_11_core/src/master_key/encryption.rs:107-131 | counter, window and answer of the key, collisions and checked arithmetic included; other keys unchanged |
| Nonces.NonceManager.SetCounter | fish_11_core/src/master_key/encryption.rs:134-136 | the counter of one key, its window left alone |
| Nonces.NonceManager.GetCounter | fish_11_core/src/master_key/encryption.rs:139-141 | the counter of a key, zero for one never seen |
| Nonces.TidyNext | fish_11_core/src/master_key/encryption.rs:107-131 | from a window of past counters the next call issues, does not underflow and keeps at most 10000 |
| Nonces.GoingUpIssues | fish_11_core/src/master_key/encryption.rs:107-136 | in every run whose restores never go back, every call issues a nonce, the nonces of a key increase strictly and no window exceeds 10000 |
| Nonces.ReissueIsOutrun | fish_11_core/src/master_key/encryption.rs:107-136 | with arbitrary restores a counter is issued twice only if one at least 10000 higher was issued in between |
| Nonces.CollisionsEnd | fish_11_core/src/master_key/encryption.rs:107-131 | after a collision a fresh nonce comes within one call more than the window's size, exactly if the window is not full or the counter has reached 10000 |
| Nonces.StopsIff | fish_11_core/src/master_key/encryption.rs:107-124 | when a call stops or collides instead of issuing: the 64-bit limit, a remembered counter, a full window and a counter below 10000 |
| Nonces.FullWindowIff | fish_11_core/src/master_key/encryption.rs:117-124 | a full window keeps its bound if and only if something in it is old enough to go, also where the subtraction underflows |
| Nonces.WindowOverflows | fish_11_core/src/master_key/encryption.rs:117-136 | setting a counter back lets a window grow past its bound |
| Ratchet.RatchetState.Advance | fish_11_dll/src/config/models.rs:102-114 | new key, epoch and window of old keys |
| Ratchet.NonceCache.CheckAndAdd | fish_11_dll/src/config/models.rs:128-137 | a repeat is reported and changes nothing; the oldest of a hundred makes room |
| Ratchet.AdvancedAlong | fish_11_dll/src/config/models.rs:102-114 | advancing by the derived key leads to the state of the next epoch, whose old keys are the five before it in order |
| Ratchet.AdvancedKeeps | fish_11_dll/src/config/models.rs:102-114 | the youngest five old keys stay, in order |
| Ratchet.CachedKeeps | fish_11_dll/src/config/models.rs:128-137 | the last hundred nonces stay, in order |
| Ratchet.SentIff | fish_11_dll/src/crypto/chacha20.rs:117-170 | empty messages and those of more than 4096 bytes are refused, every other one is sealed behind its nonce |
| Ratchet.NeverOpened | fish_11_dll/src/crypto/chacha20.rs:180-200 | what is no base64, or too short or too long, is never opened |
| Ratchet.Send | fish_11_dll/src/engine_registration.rs:373-416 | an outgoing message: refused ones leave the state, the others move it on by the nonce read back from the text |
| Ratchet.Receive | fish_11_dll/src/dll_interface/fish11_decryptmsg.rs:91-185 | an incoming message: replay check, current key, old keys newest first, and what each outcome changes |
| Ratchet.NewestFirst | fish_11_dll/src/dll_interface/fish11_decryptmsg.rs:143-160 | of the old keys that open a text the newest is taken |
| Ratchet.RefusedIff | fish_11_dll/src/dll_interface/fish11_decryptmsg.rs:91-185 | which texts are malformed or replays; only opened ones change the receiver |
| Ratchet.SenderFollowsNonces | fish_11_dll/src/engine_registration.rs:373-416 | after any run of outgoing messages, replaying the nonces in front of the emitted texts gives the sender's key, epoch and old keys |
| Ratchet.KeysOpen | fish_11_dll/src/dll_interface/fish11_decryptmsg.rs:119-163 | a state at epoch n opens message e if and only if n - 5 <= e <= n |
| Ratchet.OpenedIsRecent | fish_11_dll/src/config/models.rs:128-137 | whatever could still be opened and was opened before is in the cache of a hundred |
| Ratchet.DeliveredIff | fish_11_dll/src/dll_interface/fish11_decryptmsg.rs:91-185 | a delivered message is opened, to what it was, if and only if it was not opened before and is at most five epochs late; only the current one moves the ratchet on |
| Ratchet.RunsExist | fish_11_dll/src/engine_registration.rs:373-416 | what the results on deliveries ask of a run can be met, by runs of every length below 2^128 - 1 |
| Ratchet.AnyOrder | fish_11_dll/src/dll_interface/fish11_decryptmsg.rs:91-185 | in any order of deliveries with gaps and repeats the receiver stays in step and opens nothing twice |
| Ratchet.InOrder | fish_11_dll/src/dll_interface/fish11_decryptmsg.rs:91-185 | in order everything is opened and the receiver ends in the sender's state |
| Engine.Normalize | fish_11_dll/src/utils.rs:254-288 | the loop strips status marks exactly when only such marks stand before a channel name |
| EngineRoundTrip.TargetOfCommand | fish_11_dll/src/engine_registration.rs:222-248 | the target cut out of a prefixed command is its channel |
| EngineRoundTrip.EncryptedLine | fish_11_dll/src/engine_registration.rs:191-521 | a line encrypted under a channel key becomes its command part, the marker and the ciphertext |
| EngineRoundTrip.MessageOpens | fish_11_dll/src/engine_registration.rs:524-915 | an encrypted message is decrypted to what its ciphertext gives under the folded channel name |
| EngineRoundTrip.TopicOpens | fish_11_dll/src/engine_registration.rs:611-693 | the same for a set topic, which is not taken for one sent on joining |
| EngineRoundTrip.LineRoundTrip | fish_11_dll/src/engine_registration.rs:191-915 | for lower-case channels the original line comes back, ended by CRLF, for every pair of settings of the fixed prefix |
| EngineRoundTrip.LineRoundTripIff | fish_11_dll/src/engine_registration.rs:191-915 | with a cipher that refuses a text under another name it comes back if and only if the channel was typed in lower case |
| EngineRoundTrip.SealedPrivately | fish_11_dll/src/engine_registration.rs:424-480 | a private message is sealed under the nick's key of 32 bytes, bound to no name, and not under another |
| EngineRoundTrip.EncryptedPrivately | fish_11_dll/src/engine_registration.rs:191-521 | an encrypted private message is the command, the marker and the ciphertext |
| EngineRoundTrip.PrivateOpens | fish_11_dll/src/engine_registration.rs:695-933 | it is opened with the key of the folded nick in front of the line |
| EngineRoundTrip.PrivateRoundTrip | fish_11_dll/src/engine_registration.rs:191-933 | private messages and notices come back as the original line, ended by CRLF |
| EngineCases.MarksStripped | fish_11_dll/src/utils.rs:254-288 | all status marks in front of a channel are stripped |
| EngineCases.OthersStay | fish_11_dll/src/utils.rs:254-288 | and nothing is when another character stands in front of the channel |
| EngineCases.LineEndsCut | fish_11_dll/src/engine_registration.rs:201 | all line ends behind a line are cut off, and nothing else |
| EngineCases.Outgoing | fish_11_dll/src/engine_registration.rs:191-521 | messages that are encrypted already go out as they are, the others as their sealing says |
| EngineCases.NoKeyNoChange | fish_11_dll/src/engine_registration.rs:244-480 | without a key a line goes out as it is |
| EngineCases.LegacyLine | fish_11_dll/src/engine_registration.rs:244-521 | with a legacy key only, the line carries the legacy ciphertext behind +OK |
| EngineCases.RatchetLine | fish_11_dll/src/engine_registration.rs:331-416 | with neither, a channel message carries what the ratchet gives |
| EngineCases.ExchangeUntouched | fish_11_dll/src/engine_registration.rs:695-800 | lines of a key exchange are never decrypted |
| EngineCases.LegacyOpens | fish_11_dll/src/engine_registration.rs:728-790 | a legacy message is opened with the legacy key of its channel or sender |
| EngineCases.TopicReplyOpens | fish_11_dll/src/engine_registration.rs:528-610 | the topic sent on joining is opened with the key of the channel it names |
| EngineCases.BareCommands | fish_11_dll/src/engine_registration.rs:224-240 | a command at the start of a line names its target as one in the middle does |
| EngineCases.LegacyTopics | fish_11_dll/src/engine_registration.rs:528-670 | a legacy topic, set or sent on joining, is opened with the legacy key of its channel |
| EngineCases.BrokenTopics | fish_11_dll/src/engine_registration.rs:530-549 | a topic reply that breaks off before the channel is passed on as it came |
| EngineCases.NothingOpens | fish_11_dll/src/engine_registration.rs:695-870 | lines without message, marker, enough words or a key of 32 bytes pass as they came |
| KeyStore.EntryKeyInjective | fish_11_dll/src/config/key_management.rs:137-141 | entries of nicks without an at sign never share a name |
| KeyStore.FishConfig.SetKey | fish_11_dll/src/config/key_management.rs:205-307 | the new configuration, or which error |
| KeyStore.FishConfig.GetKey | fish_11_dll/src/config/key_management.rs:100-196 | one of the answers the fallbacks allow, whatever order the map yields |
| KeyStore.FishConfig.DeleteKey | fish_11_dll/src/config/key_management.rs:315-362 | the new configuration, and whether anything was removed |
| KeyStore.FishConfig.CheckKeyExpiry | fish_11_dll/src/config/key_management.rs:864-911 | what is deleted and when |
| KeyStore.FishConfig.SetConfiguredKeyTtl | fish_11_dll/src/config/key_management.rs:515-559 | only lifetimes from an hour to seven days are taken |
| KeyStore.SetThenGet | fish_11_dll/src/config/key_management.rs:100-307 | after an overwriting set every spelling of the nick finds exactly this key, with that network or none, until it expires; keys that were not exchanged never do |
| KeyStore.SetRefusedIff | fish_11_dll/src/config/key_management.rs:205-307 | which sets are refused and change nothing, and under which network every other key is entered |
| KeyStore.SetLeavesOthers | fish_11_dll/src/config/key_management.rs:100-307 | no lookup of another nick changes, in any network |
| KeyStore.DeletesOnlyExpired | fish_11_dll/src/config/key_management.rs:864-911 | with a lifetime the setter takes, the check deletes no key a lookup would still return |
| KeyStore.ExpiryCheckIff | fish_11_dll/src/config/key_management.rs:864-911 | after a set, the check deletes the entry if and only if the key was exchanged and is older than the lifetime, a day if none is configured and brought between an hour and seven days, and five minutes |
| KeyStore.ExpiryLeavesOthers | fish_11_dll/src/config/key_management.rs:864-911 | the check changes no lookup of another nick |
| KeyStore.ExpiryTouchesNetworkIff | fish_11_dll/src/config/key_management.rs:864-911 | when the check deletes a key, lookups of the nick in another network answer as before if and only if they did not fall back on it; without a network they become lookups in the default one |
| KeyStore.ExpirySafeIff | fish_11_dll/src/config/key_management.rs:453-490 | exactly which lifetimes are safe in this sense |
| KeyStore.DeleteUndoesSet | fish_11_dll/src/config/key_management.rs:205-362 | deleting takes back what setting a fresh key added and nothing else |
| KeyStore.DeletedIsGone | fish_11_dll/src/config/key_management.rs:315-362 | what is deleted, what stays, and when there was nothing to delete |
| ConfigFile.ConfigToIni | fish_11_dll/src/config/ini_helpers.rs:187-195 | which sections hold what |
| ConfigFile.IniToConfig | fish_11_dll/src/config/ini_helpers.rs:197-213 | what is loaded from any sections, found by their folded names |
| ConfigFile.Ini.Set | fish_11_dll/src/config/ini_helpers.rs:32-39 | one value of one section, which is made if needed |
| ConfigFile.SaveEntries | fish_11_dll/src/config/ini_helpers.rs:170-181 | keys and dates of all entries that have them |
| ConfigFile.LoadEntries | fish_11_dll/src/config/ini_helpers.rs:146-168 | every keyed entry, with its date if there is one |
| ConfigFile.BuildSectionCache | fish_11_dll/src/config/ini_helpers.rs:183-185 | of two sections with one folded name the later counts |
| ConfigFile.LastSectionCounts | fish_11_dll/src/config/ini_helpers.rs:183-200 | of the sections with one folded name the last one is looked at |
| ConfigFile.NoSection | fish_11_dll/src/config/ini_helpers.rs:183-200 | a section that is not there holds nothing |
| ConfigFile.Booleans | fish_11_dll/src/config/ini_helpers.rs:7-9 | which values are true, and how truth values are written |
| ConfigFile.Defaults | fish_11_dll/src/config/models.rs:50-70 | what is loaded from an empty file |
| ConfigFile.NumbersCutDown | fish_11_dll/src/config/ini_helpers.rs:70-145 | marks are cut down to a byte, and negative dates wrap around |
| ConfigFile.SaveLoadIff | fish_11_dll/src/config/ini_helpers.rs:7-213 | loading a saved configuration restores it if and only if it has no nickname, no date beyond 63 bits, and only keyed entries without exchange mark |
| ConfigFile.LoadSaveLoadIff | fish_11_dll/src/config/ini_helpers.rs:7-213 | what is loaded from any file survives saving and loading if and only if its startup date is not negative |

## Left out

- SrpProtocol.Agreement: the network delivers notices unchanged and in any order, and each Alice has one notice under way; lost, repeated and forged notices are not modelled. Exponents are arbitrary numbers, of which the source draws 2 to N - 1.
- SrpAlgebra.SharesAgreeIffPrime: takes Fermat's theorem for the modulus as a hypothesis, as do the clauses of `SrpProtocol.SecretsAgreeIff` and `SrpProtocol.ReducedExponentFails` that name it; that the number of RFC 3526 is prime is not proved. Everything else holds for every odd modulus above 4.
- SrpContext.IrcSrpCtx.Exchange: the exchange records are values, so a record that two names refer to is not modelled. AES is used with 32-byte keys; the library also takes 16 and 24 bytes, lengths no key of the exchange has.
- SslThreads.CallsSettle: an association begins only when its pair has no other partner and no unfinished removal deals with either side; `SslTwoCalls.TwoCallsSettleIff` is exact, but for two calls. Waiting between attempts, the locks inside the maps and the repair pass running beside other calls are not modelled.
- SslMapping.SslSocketMapping.CheckAndRepairConsistency: the guard that is alive while the entry under it is removed, and logging, are not modelled; nor are `clear`, `len` and the queries.
- StaticB64.Encode: lines are not wrapped, as in both calls of the repository; a buffer is always passed in. Characters of the decoding table are signed, as on the x86 compilers the module is built with.
- Dh1080.Exchange.ComputeSymetricKey: what the library refuses as a public value is an opaque predicate; bignums are whole numbers and their bytes minimal.
- Fish10.DecryptMessage: gives bytes; the lossy conversion of invalid UTF-8 behind it is not modelled. The same holds for `DecryptMessageCbc`.
- Fish10.Decrypts: texts of whole groups only; for others the source reads past the end of the string.
- Nonces.NonceManager.GetNextNonce: arithmetic is checked, as in a debug build; in a release build the overflow of a counter would wrap.
- Ratchet.AnyOrder: that no key of a run opens a message sealed under another one, and that nonces differ, are hypotheses about the run. Both sides use one spelling of the channel name. Epochs are unbounded.
- EngineRoundTrip.LineRoundTrip: three-token commands under a fixed key, to channels here and to nicks in `PrivateRoundTrip`. What the legacy code recognises and extracts, and what the ratchet answers and changes, are parameters of `Engine`; that the legacy cipher undoes itself is not used.
- KeyStore.FishConfig.GetKey: dates are numbers of seconds, so their text form and clock changes are not modelled; `get_key_ttl` and the warnings before expiry would add only easy members.
- ConfigFile.ConfigToIni: the order of lines and the text form of a file, with its escaping and trimming, are not modelled; keys are unique per section. Channel keys, topics and metrics are not kept in the file.
- The insides of the ciphers, hashes, key derivations and random generators.
- The hooks, the foreign function interface, the buffers of mIRC, the command line, masking of logs, password scoring, key rotation limits and the buffer pool.
