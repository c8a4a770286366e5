# snmptrap-rs, modelled in Dafny

snmptrap-rs is a command line program that sends SNMP traps, optionally from a forged IPv4 source
address. This project models the path from its parsed command line to the octets it puts on the
wire, and proves what a receiver makes of those octets.

- `Bytes`: octets, machine integer ranges, big-endian integers, exclusive or, errors.
- `Ber`: a Basic Encoding Rules codec written to X.690. It stands in for the rasn library, which is
  not part of this model. `Golden` anchors it: on two literal traps it produces the
  Net-SNMP captures that the program's own tests compare with, octet for octet.
- `Pdu`: version 1 and 2c traps, their builders, and decoders written independently of them.
- `Usm`: key localization, truncated HMAC, and AES in cipher feedback mode. Hash, HMAC and block
  cipher are arbitrary functions of which only the output lengths are known (`Usm.Crypto`), so the
  results hold for the real ones and say nothing about their strength.
- `V3`: the version 3 message: sign with a zero placeholder, splice in the tag; and a receiver.
- `Checksum`, `Transport`: the Internet checksum with its 32-bit accumulator, the IPv4 and UDP
  builders, the send loop, and a receiver's view of a packet.
- `Text`, `VarBindText`, `BitString`, `TypedValues`, `Engine`: readers of the textual arguments, each
  with the texts it accepts and what they mean described apart from the reader (`TypedValues.Means`).
- `HexDump`: the debug dump, and a reader of it.
- `Cli`, `Payload`, `Run`: validation, and the way from arguments to a receiver, for each version.

Conventions. Receivers, and the predicates that say what arguments mean, are written with the numbers
and names of the standards and do not share tables with the sender. Where the program has a loop or fills a buffer the model has a method, proved equal to
a function; lemmas are about the function. A failed `assert!` or `expect` is the outcome `Panic`, so
that its absence can be stated. Arithmetic on `u16` and `u32` wraps as in a release build. Vectors
have at most `isize::MAX` octets (`Ber.MAX_LEN`); lemmas about decoding whole messages say so,
because the long form of a length has room for only 126 octets. The first two arcs of an identifier
are merged as natural numbers (X.690, 8.19.4); how wide the library's own sum is cannot be told from
the program, and `Ber.NarrowMergeIff` says what a sum of 32 bits would change. Random numbers, clocks, host facts
and the outcomes of `send_to` are inputs (`Payload.Host`, the parameters of `Transport.SendSpoofed`).
An argument that the program turns into an IP address with the standard library is given as what
the library makes of it (`Cli.AddressLiteral`).

Where code and documentation differ the model follows the code:

- README.md and the help text ask for passwords of at least 8 characters; the code counts octets of
  UTF-8 (src/cli.rs:351, src/usm.rs:165). `Cli.RequirePasswordIff` is the exact condition,
  `Cli.PasswordLength` has a password of 4 characters that passes.
- README.md says that `-A` is required when `-a` is set and `-X` when `-x` is; the code asks by level
  only (src/cli.rs:303-319). `Cli.OmittedPasswordIff` says when each may be missing:
  `-A` exactly at noAuthNoPriv, `-X` exactly below authPriv. `Cli.ProtocolsWithoutPasswordsIff` has an
  accepted command line with both protocols and no password.
- A comment says that an engine time of 2^31 or more would be encoded as a negative number
  (src/lib.rs:263-267); the field is built from an unsigned number (src/v3.rs:239), and
  `V3.UsmRoundTrip` reads every such time back as the positive number it is.
- The wrap-free bound of the checksum accumulator is nowhere stated; it is 131074 octets, and longer
  data is summed wrongly unless the lost carries cancel (`Checksum.ChecksumIsRfc1071Iff`), and then a
  datagram may not even verify by the program's own sum (`Transport.DatagramVerifies`,
  `Transport.SomeDatagramFails`). `send_spoofed` stays below it.

## Model

| member | source | states |
|---|---|---|
| `Ber.DecodeLengthOctets` | src/v3.rs:246-248 | Definite lengths in short and long form are read back, whatever follows, for every length a Rust vector can have (X.690, 8.1.3) |
| `Ber.OctetsLength` | src/v3.rs:246-248 | A number below 256^k takes at most k length octets |
| `Ber.LengthForms` | src/v3.rs:246-248 | One octet below 128, 0x81 and one below 256, 0x82 and two below 65536 (X.690, 8.1.3.4 and 8.1.3.5) |
| `Ber.UnwrapWrap` | src/v3.rs:246-248 | Splitting off a tag and its content undoes wrapping |
| `Ber.DecodeEncode` | src/v3.rs:246-248 | Decoding a whole nested value gives it back together with exactly the octets that follow |
| `Ber.DecodeEncodeAll` | src/v3.rs:246-248 | A concatenation of values is decoded into the same values in the same order |
| `Ber.EncodeInjective` | src/v3.rs:246-248 | No two values share an encoding |
| `Ber.IntRoundTrip` | src/pdu.rs:89-98 | Every integer, negative or with its top bit set, survives two's complement encoding (8.3) |
| `Ber.IntMinimal` | src/pdu.rs:89-98 | Integers are encoded in the fewest octets: the first nine bits are never all equal (8.3.2) |
| `Ber.DecodeArcOfArc` | src/pdu.rs:176-178 | A base-128 subidentifier is read back, whatever follows (8.19.2) |
| `Ber.ArcMinimal` | src/pdu.rs:176-178 | A subidentifier never starts with the padding octet 0x80 |
| `Ber.OidRoundTrip` | src/pdu.rs:176-178 | Any identifier of two or more arcs is decoded as the identifier its merged first subidentifier is taken apart into |
| `Ber.OidFaithfulIff` | src/varbind.rs:96-111 | An identifier comes back unchanged exactly when it passes the X.660 guard of `parse_oid` |
| `Ber.OidInjective` | src/varbind.rs:96-111 | Identifiers that pass the guard have different octets |
| `Ber.InvalidOidCollides` | src/varbind.rs:96-111 | Every identifier the guard refuses has the octets of a different identifier that the guard accepts, so the guard is exact |
| `Ber.NarrowMergeIff` | src/varbind.rs:93-111 | Merging the first two arcs in wrapping 32-bit arithmetic instead gives the same octets, and an identifier that survives, exactly when the root arc is below 2 or the second arc below 2^32 - 80 |
| `Golden.V1MatchesCapture` | tests/golden_bytes.rs:70-97 | Anchor for the codec on one literal input: the version 1 trap of the Net-SNMP capture comes out octet for octet |
| `Golden.V2cMatchesCapture` | tests/golden_bytes.rs:37-67 | Anchor for the codec on one literal input: the version 2c trap of the Net-SNMP capture comes out octet for octet |
| `Pdu.PushV2Bindings` | src/pdu.rs:38-50 | The loop pushes sysUpTime.0, snmpTrapOID.0 and then every varbind of the caller in order |
| `Pdu.BuildV2cTrap` | src/pdu.rs:37-65 | Builds the specified message, or an encoding error for an identifier of fewer than two arcs |
| `Pdu.BuildV1Trap` | src/pdu.rs:67-87 | Builds the specified message; BITS, Counter64 and unencodable identifiers are encoding errors |
| `Pdu.ValueRoundTrip` | src/pdu.rs:89-131 | Every value type is read back, BITS as an octet string |
| `Pdu.VarBindsRoundTrip` | src/pdu.rs:48-50 | A varbind list is read back in order with none lost |
| `Pdu.FaithfulIff` | src/pdu.rs:89-131 | A varbind comes back unchanged exactly when its identifiers are legal and its value is not BITS |
| `Pdu.V2cRoundTrip` | src/pdu.rs:37-65 | A receiver reads back community, request id, zero error fields and every varbind, for every trap |
| `Pdu.V2cFaithfulIff` | src/pdu.rs:37-65 | The whole trap comes back unchanged exactly when all its varbinds are faithful |
| `Pdu.V2cInjective` | src/pdu.rs:37-65 | Two faithful traps with the same octets are the same trap |
| `Pdu.V1RoundTrip` | src/pdu.rs:67-87 | A receiver reads back all seven fields of a version 1 trap |
| `Pdu.V1FaithfulIff` | src/pdu.rs:67-87 | A version 1 trap comes back unchanged exactly when enterprise and varbinds are faithful |
| `Pdu.V1Injective` | src/pdu.rs:67-87 | Two faithful version 1 traps with the same octets are the same trap |
| `Usm.IncrementalDigest` | src/usm.rs:335-344 | The streaming loop equals one hash of exactly `target` octets, octet i being password[i mod len], for every nonempty password |
| `Usm.RepeatedIsPrefixOfCopies` | src/usm.rs:154-156 | Those octets are the password written out any number of times |
| `Usm.PasswordToKey` | src/usm.rs:160-177 | With d the hash of the 1048576 repeated octets, the key is the hash of d, engine id, d; shorter than 8 octets is a usage error |
| `Usm.PasswordToKeySpec` | src/usm.rs:160-177 | A key exists exactly for passwords of 8 or more octets and has the 160, 224, 256, 384 or 512 bits of the hash |
| `Usm.PrivKeyOutcome` | src/usm.rs:186-203 | A short password is reported first; the digest-too-short error occurs exactly for the pairs named; otherwise the key has the 128, 192 or 256 bits of the cipher and is a prefix of the localized key |
| `Usm.AuthSign` | src/usm.rs:215-257 | The assertion fails exactly for a key that is not as long as the hash; otherwise the tag is the first 96, 128, 192, 256 or 384 bits of the HMAC (RFC 3414, section 7; RFC 7860, section 4.2) |
| `Usm.MakeAesIv` | src/usm.rs:312-318 | The 16-octet array holds boots, time and salt big-endian |
| `Usm.IvInjective` | src/usm.rs:312-318 | Different boots, time or salt give different initialization vectors (RFC 3826, section 3.1.2.1) |
| `Usm.CfbRoundTrip` | src/usm.rs:265-301 | Decryption undoes encryption for every block function and every length, partial last block included |
| `Usm.CfbEquation` | src/usm.rs:265-301 | Bit n of octet j of ciphertext block k is set exactly when the plaintext and the enciphered previous ciphertext block differ there, a short last block included (NIST SP 800-38A, section 6.3) |
| `Bytes.XorTests` | src/usm.rs:282-299 | The masking sets exactly the bits in which plaintext and mask differ |
| `Usm.CfbEncryptInPlace` | src/usm.rs:282-299 | Encrypting the buffer block by block where it stands gives the specified ciphertext |
| `Usm.PrivEncryptSpec` | src/usm.rs:265-301 | The assertion fails exactly for a key below the cipher's length; otherwise the ciphertext is as long as the plaintext |
| `Usm.PrivEncrypt` | src/usm.rs:265-301 | The buffer algorithm equals its specification |
| `V3.BuildV3TrapMessage` | src/v3.rs:108-201 | Encode, encrypt, encode with placeholder, sign, encode with tag: equals the specified message |
| `V3.V3PayloadOutcome` | src/v3.rs:171-182 | The build fails an assertion exactly when a key has the wrong length; the tag-length assertion never fails |
| `V3.WrapFill` | src/v3.rs:144-160 | A header over a gap filled with n octets depends only on n |
| `V3.SpliceInPlace` | src/v3.rs:184-192 | Everything around authenticationParameters, all enclosing lengths included, depends on nothing but the length of what is put there |
| `V3.SameLengthIff` | src/v3.rs:172-198 | The message keeps the placeholder message's length exactly when the tag is as long as the placeholder |
| `V3.SignedWindow` | src/v3.rs:138-200 | Signed octets and emitted octets have equal length and agree outside one window of 12, 16, 24, 32 or 48 octets for the five protocols, which holds zeros in one and the truncated HMAC of the signed octets in the other |
| `V3.UsmRoundTrip` | src/v3.rs:231-244 | The USM parameters are read back field by field |
| `V3.MessageRoundTrip` | src/v3.rs:148-160 | Header fields, security parameters and scoped data are read back |
| `V3.OnlyTheTagVerifies` | src/v3.rs:167-192 | Of all octet strings of the right length in the window, a receiver's zero-and-recompute check accepts the sender's tag and no other |
| `V3.ReceiverVerifies` | src/v3.rs:167-192 | The recomputation of a receiver with its own table of tag lengths gives the transmitted tag, for every message, protocol and key (RFC 3414, section 7.3.2; RFC 7860, section 4.2.2) |
| `V3.PrivacyRoundTrip` | src/v3.rs:111-136 | The scoped PDU comes back from boots, time, privacyParameters and ciphertext of the message and the privacy key alone; the ciphertext has its length |
| `V3.EndToEnd` | src/v3.rs:108-201 | A receiver with the user's keys, which expects the literal version, flags and model numbers and empty parameters where the level has none, reads back engine ids, boots, time, user, message id, context and the whole trap, at every security level |
| `V3.V3Injective` | src/v3.rs:108-201 | Under the same keys, equal octets mean equal engine ids, boots, time, user, message id, salt and scoped PDU, and for faithful varbinds the same trap |
| `Checksum.IpChecksum` | src/transport/raw.rs:14-29 | Both loops of the u32 accumulator compute the complement of the canonical residue of the wrapped word sum |
| `Checksum.OnesSumIsCanon` | src/transport/raw.rs:13-29 | Word-by-word addition with end-around carry is that canonical residue |
| `Checksum.OddTailPadded` | src/transport/raw.rs:22-24 | An odd last octet counts as if a zero octet followed it |
| `Checksum.ChecksumIsRfc1071` | src/transport/raw.rs:13-29 | Up to 131074 octets the accumulator cannot wrap and the result is the RFC 1071 checksum |
| `Checksum.ChecksumIsRfc1071Iff` | src/transport/raw.rs:19-23 | For data of any length, the result is the RFC 1071 checksum exactly when the lost carries cancel modulo 65535 |
| `Checksum.AccumulatorBoundTight` | src/transport/raw.rs:19-23 | Every length above 131074 has data for which the result is wrong |
| `Checksum.FoldStep` | src/transport/raw.rs:25-27 | A folding step decreases the sum and keeps its canonical residue |
| `Checksum.ZeroSumIff` | src/transport/raw.rs:25-28 | The folded accumulator is zero exactly when the word sum is a multiple of 2^32; up to 131074 octets, and in RFC 1071 for any length, exactly for data that is all zero |
| `Checksum.InsertedVerifiesIff` | src/transport/raw.rs:75-79 | Data of any length with a value in its checksum field verifies exactly when the value is congruent to the checksum computed over the placeholder and adding it does not wrap the accumulator |
| `Transport.BuildIpv4Header` | src/transport/raw.rs:60-81 | The array is filled, summed and completed as specified, in either byte order of the length and offset fields |
| `Transport.HeaderVerifies` | src/transport/raw.rs:283-284 | The checksum over every header is zero, in either byte order |
| `Transport.BuildUdpDatagram` | src/transport/raw.rs:86-123 | The pushed pseudo-header, header and payload are as specified |
| `Transport.UdpChecksumUnique` | src/transport/raw.rs:110-113 | For payloads of any length the carried checksum is never zero, and a checksum in 1..65535 verifies exactly when it is the carried one and the accumulator does not stand at 2^32 - 1 before it is added |
| `Transport.DatagramVerifies` | src/transport/raw.rs:83-85 | For payloads of any length the checksum over pseudo-header and datagram is zero exactly when the accumulator does not stand at 2^32 - 1, and always up to 131054 octets; odd lengths and the RFC 768 replacement included |
| `Transport.SomeDatagramFails` | src/transport/raw.rs:110-113 | The exception occurs: between any two endpoints some payload gives a datagram that does not verify |
| `Transport.Rfc1071ReceiverAccepts` | src/transport/raw.rs:83-115 | A receiver whose sum cannot wrap accepts a datagram of any length exactly when the number of carries the sender lost is a multiple of 65535; up to 131054 octets none is lost |
| `Transport.SameChecksumIff` | src/transport/raw.rs:287-299 | Datagrams of any length that differ only in source address are equal exactly when the addresses' word sums, each less the carries lost with it, are congruent modulo 65535; up to 131054 octets that is congruence of the word sums |
| `Transport.GuardIsTight` | src/transport/raw.rs:125-128 | The two 16-bit lengths are unwrapped exactly up to 65507 octets of payload |
| `Transport.SendSpoofed` | src/transport/raw.rs:131-184 | Oversized payloads and a refused socket send nothing and are told apart; otherwise one packet per attempt with its own identification, ending at the first success or the last budgeted failure, for all outcomes on which the loop ends at all |
| `Transport.RunUnique` | src/transport/raw.rs:160-183 | The outcomes determine result and number of attempts; at most retries + 1 attempts fail uninterrupted, and exactly that many when an error is reported |
| `Transport.FailuresCount` | src/transport/raw.rs:172-178 | What the budget counts is the calls that fail, not the interrupted ones |
| `Transport.RunExistsIff` | src/transport/raw.rs:147-179 | The loop ends exactly on the outcomes with a success or with more failures than retries |
| `Transport.CalmEnds` | src/transport/raw.rs:160-174 | It ends on every run with finitely many interruptions |
| `Transport.PacketIsSound` | src/transport/raw.rs:166-169 | A packet within the guard is an unfragmented version 4 UDP packet with a 20-octet header, service octet 0, time to live 64, its own lengths, addresses, ports and payload at their places, and both checksums verify, in either order of the header's length and offset fields |
| `VarBindText.ParseOid` | src/varbind.rs:78-113 | The loop over tokens equals the specified reading |
| `VarBindText.AcceptedOid` | src/varbind.rs:78-113 | Whatever is accepted is legal, has 32-bit arcs and survives the wire; with a 32-bit merge of the first two arcs it would survive exactly when its root arc is below 2 or its second below 4294967216 |
| `VarBindText.NarrowMergeLoses` | src/varbind.rs:78-113 | 2.4294967216 is accepted, and a 32-bit merge would turn it into 0.0 |
| `VarBindText.OidTextRoundTrip` | src/varbind.rs:78-113 | Decimal arcs after any number of dots are accepted exactly when the identifier is legal, and mean that identifier |
| `VarBindText.OidTextIff` | src/varbind.rs:78-113 | A text is accepted exactly when it is dots, then 32-bit decimal arcs joined by dots, of an identifier that X.660 allows, and means that identifier |
| `VarBindText.ParseHexString` | src/varbind.rs:115-153 | The loop over digit pairs equals the specified reading |
| `VarBindText.HexTextIff` | src/varbind.rs:115-153 | A text is accepted exactly when it is octets in hex of either case, with any Unicode white space and colons, after at most one prefix, and means those octets |
| `VarBindText.ParseBits` | src/varbind.rs:161-188 | Setting one bit per position in an octet buffer gives the specified octets, at most 8192, with every index in range |
| `VarBindText.BitsTextMeaning` | src/varbind.rs:161-188 | Positions in decimal, possibly none, with any runs of commas and Unicode white space before, between and after them, give exactly those bits, or are refused above 65535 |
| `VarBindText.BitsTextIff` | src/varbind.rs:161-188 | A text is accepted exactly when it is positions up to 65535 among runs of commas and Unicode white space, and means the shortest octets with exactly those bits |
| `VarBindText.BitsTextRoundTrip` | src/varbind.rs:161-188 | Writing out the set positions of a shortest value and parsing them gives it back |
| `BitString.BitsAtIff` | src/varbind.rs:181-186 | Bit p, most significant first, is set exactly when p is listed |
| `BitString.BitsShortest` | src/varbind.rs:174-181 | The last octet is never zero |
| `BitString.ShortestUnique` | src/varbind.rs:180-187 | A shortest octet string is determined by its bits |
| `BitString.BitsOfSameSet` | src/varbind.rs:180-187 | Order and repetition of positions make no difference |
| `BitString.BitsOfPositions` | src/varbind.rs:180-187 | Listing the bits of a shortest value and setting them again is the identity |
| `TypedValues.TypedValueSound` | src/varbind.rs:26-76 | Only expressible values come out: legal identifiers and shortest BITS of at most 8192 octets |
| `TypedValues.TypedValueRoundTrip` | src/varbind.rs:26-76 | Every expressible value of all nine types is the meaning of some letter and text |
| `TypedValues.TypedValueIff` | src/varbind.rs:26-76 | For every letter and text: accepted exactly when they mean a value, and give that one; letter s gives octets that decode as the text in UTF-8 |
| `TypedValues.Ipv4TextIff` | src/varbind.rs:26-76 | An address is read from its dotted quad and from no other text |
| `Text.UnsignedIff` | src/varbind.rs:26-76 | A text is an unsigned number exactly when it is the decimal, perhaps after zeros and one plus sign, of a number that fits |
| `Text.SignedIff` | src/varbind.rs:26-76 | The same for signed numbers, both ends of the range included |
| `Text.Utf8TextIff` | src/varbind.rs:60 | A UTF-8 decoder gives back the text and takes no other octets for it |
| `Text.WhitespaceCodes` | src/varbind.rs:161-170 | White space is what Unicode lists as such |
| `TypedValues.HexRoundTrip` | src/varbind.rs:115-153 | Octets printed in hex are read back |
| `Engine.GeneratedLayout` | src/engine.rs:151-159 | A generated id is the enterprise number with its high bit set, the format octet 1, 3, 4 or 5, and the address, hardware address, or first 27 octets of text or octets |
| `Engine.GenerateInjective` | src/engine.rs:44-80 | Ids of different formats never coincide; within a format they coincide exactly when addresses, or the first 27 octets, do |
| `Engine.GenerateExact` | src/engine.rs:44-80 | Up to 27 octets of payload two generated ids coincide only for the same source, texts included |
| `Engine.ParseUserInput` | src/engine.rs:89-137 | The decoding loop and its five errors are as specified, and every result has 5 to 32 octets |
| `Engine.SecondTooLongUnreachable` | src/engine.rs:105-134 | Every length error for long input comes from the check before decoding |
| `Engine.EngineIdTextIff` | src/engine.rs:89-137 | A text is accepted exactly when it spells 5 to 32 octets in hex of either case, with colons and ASCII white space, perhaps after a prefix, between any Unicode white space, and means those |
| `Engine.RefusalsIff` | src/engine.rs:89-137 | Each of the five errors says what is the matter: nothing left, more than 64 octets, an odd number, the first octet that is no hex digit, or fewer than 5 octets |
| `Engine.ReadersAgree` | src/engine.rs:89-137 | Whatever is accepted as an engine id means the same octets as a hex string |
| `Engine.SpelledRoundTrip` | src/engine.rs:82-137 | Any 5 to 32 octets in hex of either case, with colons and ASCII white space anywhere and an optional prefix, are read back by both parsers |
| `Engine.ParseMacText` | src/engine.rs:253-269 | The loop that fills six octets is as specified |
| `Engine.MacRoundTrip` | src/engine.rs:253-269 | Six octets in hex joined by colons are read back |
| `Engine.MacTextIff` | src/engine.rs:253-269 | A text is a hardware address exactly when it is six octets in hex of either case joined by colons |
| `Engine.ResolveCascade` | src/engine.rs:275-287 | User input verbatim, else the source address in format 1, else the hardware address in format 3, else the first 27 octets of the host name, or of the fixed fallback name, in format 4 |
| `Engine.ResolveCoherent` | src/engine.rs:275-287 | Without user input, equal ids mean equal source addresses, and without those equal hardware addresses |
| `HexDump.WriteLine` | src/debug.rs:50-74 | The loops over octets, padding and ASCII give the specified line with exactly one gap |
| `HexDump.WriteHexDump` | src/debug.rs:48-77 | The dump is the lines of the 16-octet chunks with offsets counting up |
| `HexDump.AsciiColumnAligned` | src/debug.rs:57-72 | The ASCII column starts 52 characters after the offset whatever the chunk's length: at character 60 in exactly the lines below 4 GiB |
| `HexDump.LineShows` | src/debug.rs:50-74 | Every cell and ASCII character of a line: two lower-case hex digits or a blank cell, and the octet itself if it prints, else a dot |
| `HexDump.DumpInvertible` | src/debug.rs:48-77 | Reading the offsets and hex columns gives the payload back, for payloads of every length |
| `Cli.ValidateV3FlagScope` | src/cli.rs:261-292 | Refuses exactly when an SNMPv3 flag is present under an older version |
| `Cli.Validate` | src/cli.rs:212-258 | The checks run in order and the level is defaulted, as specified |
| `Cli.VerdictIff` | src/cli.rs:212-321 | Accepts exactly the acceptable command lines, none of the nine SNMPv3 flags among those of older versions; without a level version 3 runs at noAuthNoPriv and nothing else changes; refuses only with usage errors and fails no `expect` |
| `Cli.V3RequiredIff` | src/cli.rs:295-321 | Passes exactly when user, protocols and passwords the level asks for are there |
| `Cli.NoLevelIff` | src/cli.rs:248-254 | Without `-l` a version 3 command line is accepted exactly when timeout, port, source address and user are in order, whatever its protocols and passwords, and runs at noAuthNoPriv |
| `Cli.OmittedPasswordIff` | src/cli.rs:295-321 | An accepted version 3 command line stays accepted without -A exactly at noAuthNoPriv and without -X exactly below authPriv, whatever protocols it names |
| `Cli.ProtocolsWithoutPasswordsIff` | src/cli.rs:303-307 | An accepted command line that names both protocols and has neither password exists without `-l` and at noAuthNoPriv, and at no other level |
| `Cli.RequirePasswordIff` | src/cli.rs:343-357 | A password passes exactly when it is there and takes at least 8 octets; otherwise a usage error |
| `Cli.PasswordLength` | src/cli.rs:343-357 | Eight characters always pass; a four-character password of eight octets passes too |
| `Payload.ParseTrailingVarBinds` | src/lib.rs:351-384 | The loop over triplets equals the specified reading |
| `Payload.TripletsInOrder` | src/lib.rs:351-384 | The i-th varbind is the i-th triplet |
| `Payload.ReadV2Trap` | src/lib.rs:61-99 | The checks run in order and reserved identifiers are refused, as specified |
| `Payload.BuildV2cPayload` | src/lib.rs:61-101 | The steps together equal the specified command |
| `Payload.BuildV1Payload` | src/lib.rs:277-323 | The steps together equal the specified command |
| `Payload.BuildV3Security` | src/lib.rs:196-229 | Key derivation by level equals its specification, `expect` failures included |
| `Payload.BuildV3Payload` | src/lib.rs:103-193 | The steps together equal the specified command |
| `Payload.BuildPayload` | src/lib.rs:53-59 | The dispatch on the version equals the specified command |
| `Payload.AgentAddrCascade` | src/lib.rs:325-341 | The address is `ip` exactly when the argument is its dotted quad, in no other spelling, or is empty and `ip` is the spoofed source or for want of one the egress address; an I/O error exactly when all three are missing |
| `Payload.V2BindingsCarryArguments` | src/lib.rs:61-99 | The varbind list starts with 1.3.6.1.2.1.1.3.0 and 1.3.6.1.6.3.1.1.4.1.0, has each exactly once, has 2 + triplets entries, and every entry means its arguments: an empty uptime the host's, a text its UTF-8, a number its value |
| `Payload.V2ArgumentsIff` | src/lib.rs:61-99 | Arguments are accepted exactly when they stand for a trap, argument by argument and without the two reserved identifiers, and give that trap |
| `Payload.V1ArgumentsIff` | src/lib.rs:277-323 | The same for version 1, with the default enterprise, the cascade of the agent address, and the ranges of generic and specific |
| `Payload.V2TrapIff` | src/lib.rs:61-99 | Some arguments stand for a trap exactly when its identifiers are legal with 32-bit arcs, its BITS are shortest and at most 8192 octets, and no varbind names a reserved identifier |
| `Payload.V1TrapIff` | src/lib.rs:277-323 | The same for version 1: legal identifiers with 32-bit arcs, shortest BITS of at most 8192 octets, generic 0..6, specific not negative, any agent address |
| `Payload.V2cOnTheWire` | src/lib.rs:61-101 | From arguments to what a receiver of version 2c reads |
| `Payload.V1OnTheWire` | src/lib.rs:277-323 | From arguments to what a receiver of version 1 reads, generic within 0..6 and specific not negative |
| `Payload.V2cCommandOutcome` | src/lib.rs:61-101 | A version 2c command line gives a message exactly when its arguments read; otherwise a usage error, or an I/O error for want of an uptime |
| `Payload.V1CommandOutcome` | src/lib.rs:277-323 | A version 1 command line gives a message exactly when its arguments read and no value is a BITS or a Counter64; those are the only encoding errors, and I/O errors come only from a missing uptime or address |
| `Payload.SecurityOutcome` | src/lib.rs:196-247 | After validation no `expect` fails; derivation fails exactly when the digest is shorter than the cipher's key, and otherwise the keys have exactly the asserted lengths |
| `Payload.V3CommandOutcome` | src/lib.rs:103-193 | A validated version 3 command line gives a message exactly when its arguments read, its engine ids parse and its digest covers the key; otherwise a usage error, or an I/O error for want of an uptime |
| `Payload.KeysAgree` | src/lib.rs:196-229 | A receiver that localizes protocols and passwords derives the very keys the sender signs and encrypts with |
| `Payload.V3OnTheWire` | src/lib.rs:103-193 | A receiver given level, protocols and passwords alone localizes keys to the engine id in the message, accepts it and reads every argument back |
| `Payload.CommandNeverPanics` | src/lib.rs:53-59 | No validated command line of any version fails an assertion or an `expect` |
| `Run.SpoofedEngineMatchesSource` | src/engine.rs:7-11 | With the address given as `--src-addr` the packet claims to come from that address and the engine id inside is its format 1 id, when no engine id is given |
| `Run.SpoofedAgentMatchesSource` | src/lib.rs:325-341 | With the address given as `--src-addr` the packet claims to come from that address and it is the version 1 agent address, when that argument is empty |
| `Run.CommandOnTheWire` | src/lib.rs:53-59 | In every version a command line as given fails no assertion, and a receiver of its message reads all its arguments, level and identity back |
| `Run.PacketTells` | src/lib.rs:45-48 | In every version the packet made for a command line verifies, comes from the very address and port given, and carries the arguments to its receiver |
| `Run.SendTrap` | src/lib.rs:28-51 | Validating, building and sending: refused exactly when validation or the builder refuses, sending nothing; otherwise every packet of every attempt, or the message handed to the unprivileged transport, tells its receiver what the command line asked for |

## Left out

- Sockets, binding, `send_to` itself and the classification of its errors (src/transport/raw.rs:201-239): input and output.
- What a BSD kernel later does to the length and offset fields of the header.
- Checked arithmetic of debug builds, in which `8u16 + payload` or `20u16 + payload_len` panics on overflow.
- The inside of hash, HMAC and block cipher, and any claim of cryptographic strength.
- What rasn itself refuses beyond identifiers of fewer than two arcs, and the width in which it merges the first two arcs.
- Random sources and clocks (src/pdu.rs:180-187, src/v3.rs:250-255, src/usm.rs:303-308, src/helpers.rs:6-81); their results are inputs.
- Host discovery: the walk over network interfaces, the host name, the egress address and name resolution of the agent.
- Command line parsing by clap, protocol and level names, help and error texts, process exit codes; errors keep only their kind.
- IPv6 literals: recognizing one is the standard library's work.
- The unprivileged transport (src/transport/unprivileged.rs), whose retry loop repeats the raw one.
- The header line of the debug dump (src/debug.rs:36-44).
- Usm.Hasher: a streaming hash is modelled by the octets it has absorbed, not by its internal state.
