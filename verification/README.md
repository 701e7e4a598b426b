# librpp DNS codec, packet layers and MAC addresses in Dafny

This project models the core of `librpp`, a Rust packet-parsing library. It covers three parts:

- **The DNS codec** under `src/application/dns`. The header is twelve big-endian words, and its flag word has accessors. Names are length-prefixed labels. A question is a name, a type and a class word, with the unicast-response bit of section 5.4 of RFC 6762. A resource record is a name, type, class, TTL, rdata length and RDATA. RDATA is an IPv4 address, an IPv6 address, an MX or an AFSDB payload. The module also holds the `Type` and `Class` tables and an older zero-terminated `Name::new`.
- **The packet layer registry** in `src/packet.rs`. A packet holds at most one layer per OSI level, and layers can be looked up by name.
- **The MAC address parser** in `src/datalink/mod.rs`. It checks a string against the pattern `XX:XX:XX:XX:XX:XX`, strips the colons and hex-decodes the rest.

How the model represents the Rust code:

- Every Rust panic becomes a `Failure` of the `Results.Result` type. That covers `expect`, `unwrap`, `todo!()` and a slice or index out of range.
- A byte is a `bv8` and a word is a `bv16`, written and read high byte first, as `NetworkEndian` does.
- Strings that `Name` handles are byte sequences, with `0x2E` as the dot.
- MAC strings are `string`, and an octet is an `int` in `0..255`.

Every operation has a partner lemma, holding for all inputs, that connects it to its inverse or to an independent reference definition:

- decode after encode gives the value back, whatever follows it;
- encode after decode gives back exactly the bytes consumed;
- parse after format gives the address back;
- split after join, and join after split, give the input back.

Three places where the Rust code does not do what its callers and tests expect are listed under "## Findings". Each is modelled twice: once as written, and once in the corrected form the rest of the model uses.

The corrected name decoder has a cost. It stops at the zero byte that ends a name, so the question module's round-trip test holds. But it rejects the name module's own test input `\x05other\x07example\x03com`, which has no terminating zero byte (`Names.NameUnitTest`, `Names.DecodeRejectsUnterminated`). The two tests cannot both pass with one decoder. The corrected decoder keeps the question test and the layout of section 3.1 of RFC 1035, and gives up the name test.

Modules and files:

- `results.dfy`: errors, `Option` and `Result`.
- `bytes.dfy`: big-endian words and `write_u16` into a slice.
- `header.dfy`: the DNS header.
- `names.dfy`: labels and names.
- `dns.dfy`: types, classes, the older name decoder and the DNS layer.
- `question.dfy`: questions.
- `mx.dfy`, `afsdb.dfy`, `rdata.dfy`: RDATA.
- `resource_record.dfy`: resource records.
- `packet.dfy`: the packet layer registry.
- `mac.dfy`: MAC addresses.

## Model

| member | source | states |
|---|---|---|
| Bytes.ReadAt | src/application/dns/header.rs:48-53 | A word written big-endian at an offset of a buffer reads back as that word from the same offset. |
| Bytes.WriteOfReadAt | src/application/dns/header.rs:100-105 | Writing back the word read at an offset reproduces the two bytes found there. |
| Bytes.WriteU16Into | src/application/dns/question.rs:71-72 | `write_u16` into `buf[lo..hi]` succeeds exactly when the slice lies inside the buffer and holds two bytes. On success it puts the word in the first two bytes of the slice and leaves the length and every other byte unchanged. |
| Bytes.PushWord | src/application/dns/resource_record.rs:51-53 | Pushing two zero bytes and writing a word into exactly them appends the word's two bytes. |
| Bytes.ReadWordsOfEncode | src/application/dns/rdata/mod.rs:57-64 | Reading n words from a buffer that starts with n encoded words gives those words back, whatever follows them. |
| Bytes.EncodeWordsOfRead | src/application/dns/rdata/mod.rs:57-64 | Re-encoding the n words read from a buffer gives back its first 2n bytes. |
| Header.OpCodeConversion | src/application/dns/header.rs:132-144 | `OpCode::from` undoes every declared discriminant. It maps exactly the codes 0, 1, 2, 4 and 5 to a non-reserved opcode, and those read back as the same code. |
| Header.RCodeConversion | src/application/dns/header.rs:184-202 | `RCode::from` undoes every declared discriminant. Exactly the codes 0..10 are non-reserved, and they read back as the same code. |
| Header.New | src/application/dns/header.rs:34-36 | The empty header is written as twelve zero bytes and reads as a standard query with no error. |
| Header.FromValuesOnWire | src/application/dns/header.rs:97-108 | The six fields go, in declaration order, into bytes 0-1, 2-3, …, 10-11 of the written header, each high byte first. |
| Header.FromBytes | src/application/dns/header.rs:46-55 | The header parsed from any twelve bytes writes back as exactly those bytes. |
| Header.Raw | src/application/dns/header.rs:110-112 | The written header is `raw_size` (twelve) bytes long. |
| Header.FromBytesOfRaw | src/application/dns/header.rs:96-108 | Parsing a written header gives the header back. |
| Header.AccessorsReadLayout | src/application/dns/header.rs:60-92 | For a flag word laid out from QR, opcode, AA, TC, RD, RA, Z, AD, CD and rcode, each accessor returns its own field. `is_query` is the negation of QR. |
| Header.EveryWordIsALayout | src/application/dns/header.rs:9-18 | The masks cover all sixteen bits, so every flag word is the layout of the fields the accessors read from it. |
| Header.OnlyRecursionDesired | src/application/dns/header.rs:60-92 | The flag word 0x0100 is a standard query with recursion desired and no other flag, opcode 0 and rcode NoError. |
| Names.NewLabel | src/application/dns/name.rs:9-11 | `Label::new` succeeds exactly on contents of at most 255 bytes, and then the stored length is the contents' length. Longer contents fail with `LabelTooLong`. |
| Names.Split | src/application/dns/name.rs:31 | Splitting at dots yields one more piece than there are dots, and no piece contains a dot. |
| Names.JoinSplit | src/application/dns/name.rs:31-33 | Rejoining the pieces of a split with dots gives the text back. |
| Names.SplitJoin | src/application/dns/name.rs:31-33 | Splitting the dot-join of one or more dot-free pieces gives the pieces back. |
| Names.NewLabels | src/application/dns/name.rs:30-33 | Building labels from pieces succeeds exactly when every piece has at most 255 bytes. It then yields one valid label per piece, holding that piece. |
| Names.FromString | src/application/dns/name.rs:28-36 | `Name::new` succeeds exactly when every dot-separated piece has at most 255 bytes. Label i then holds piece i, and there is one label more than there are dots. |
| Names.LabelsOfFromLabels | src/application/dns/name.rs:51-57 | `labels()` returns the labels given to `from_labels`. |
| Names.DisplayFromString | src/application/dns/name.rs:60-72 | A name built from a text has at least one label and displays as that text. |
| Names.FromStringDisplay | src/application/dns/name.rs:60-72 | Parsing the display of a valid name whose labels contain no dot gives back the same label contents. |
| Names.EncodeSize | src/application/dns/question.rs:60-61 | The encoding of a valid name is exactly `raw_size` bytes long. Callers rely on this to find what follows the name. |
| Names.Decode | src/application/dns/name.rs:38-49 | The corrected decoder stops at the terminating zero byte. A decoded name has valid, non-empty labels, and its encoding is the first `raw_size` bytes of the input. |
| Names.DecodeConsumesEncoding | src/application/dns/name.rs:42-46 | The labels the corrected loop reads, re-encoded and terminated, are exactly the bytes it consumed. |
| Names.DecodeEncode | src/application/dns/name.rs:38-49 | Decoding the encoding of a name with valid, non-empty labels gives the name back, whatever bytes follow it. |
| Names.FromBytesToEndOfEncoding | src/application/dns/name.rs:38-49 | As written, the decoder reads the encoding of any valid name as the name plus one empty label, so it never gives the name back. |
| Names.FromBytesToEndAfterName | src/application/dns/name.rs:42-46 | As written, after an encoded name the loop goes on to read the following bytes as further labels. It fails exactly when reading them fails. |
| Names.FromBytesToEndLabels | src/application/dns/name.rs:42-46 | As written, the loop reads encoded valid labels back one by one, then continues on what follows. |
| Names.NameUnitTest | src/application/dns/name.rs:87-88 | As written, `\x05other\x07example\x03com` decodes to the labels other, example and com, which display as `other.example.com`. The corrected decoder rejects the same bytes as out of range. |
| Names.DecodeRejectsUnterminated | src/application/dns/name.rs:87 | The corrected decoder rejects, as out of range, the labels of any name with non-empty labels when no terminator follows them. |
| Names.FromBytesToEndConsumesAll | src/application/dns/name.rs:42-46 | As written, the loop either runs off the buffer or returns labels whose sizes add up to the whole input. |
| Dns.TypeCodeInverse | src/application/dns/mod.rs:64-112 | `Type::try_from` accepts exactly the codes 0..20, undoes `as u16` on every type, and maps each accepted code to a type with that code. |
| Dns.ClassCodeInverse | src/application/dns/mod.rs:115-129 | `Class::try_from` accepts exactly 1, 2, 3, 4 and 254 and undoes `as u16`. Every class code fits in the low byte. |
| Dns.LegacyDecode | src/application/dns/mod.rs:50-61 | Every label the older decoder returns has a stored length equal to its contents' length. |
| Dns.LegacyFailsLikeFixed | src/application/dns/mod.rs:53-58 | The older decoder succeeds on exactly the buffers the corrected zero-terminated decoder accepts. |
| Dns.LegacyIsShifted | src/application/dns/mod.rs:55 | Where it succeeds, the older decoder finds as many labels as the corrected one, with the same lengths. Each label's contents start at the length byte and lose the last content byte. |
| Dns.LegacyDecodeExample | src/application/dns/mod.rs:54-58 | On `\x03com\x00` the older decoder yields the label `\x03co`, where the corrected one yields `com`. |
| Dns.DnsBesideEthernet | src/application/dns/mod.rs:19-31 | The DNS layer (name "DNS", OSI level 7) can be added beside Ethernet and is then found by name. A second DNS layer is refused. |
| Packets.New | src/packet.rs:10-12 | A new packet has no layers. |
| Packets.LevelPresent | src/packet.rs:26-30 | The scan finds a layer at a level exactly when some layer has that level. |
| Packets.AddLayer | src/packet.rs:25-34 | Adding fails with `DuplicateLayer` exactly when a layer at the same OSI level is present. Otherwise it appends the layer, keeping the levels distinct. |
| Packets.GetLayer | src/packet.rs:15-23 | Lookup returns nothing exactly when no layer has the name. Otherwise it returns the first layer with that name. |
| Packets.EthernetTwice | src/packet.rs:79-99 | Ethernet can be added once. A second Ethernet layer is refused, and the layer is found by the name "Ethernet". |
| Questions.New | src/application/dns/question.rs:20-27 | A new question keeps its name and type. Its class reads back as the given class, and its unicast flag as the given flag. |
| Questions.ClassOf | src/application/dns/question.rs:44-47 | `class()` fails exactly when the low byte of the class word is not a class code. Otherwise it returns the class with that code. |
| Questions.NewInternetUnicast | src/application/dns/question.rs:25 | Class IN with a unicast response stores the class word 0x8001. |
| Questions.EncodeSize | src/application/dns/question.rs:77-79 | The encoding of a question with a valid name is `raw_size` bytes: the name plus four. |
| Questions.DecodeTypeAndClass | src/application/dns/question.rs:30-39 | After a name, an unknown type code fails the decode with that code. Any class word is kept raw, valid class or not. |
| Questions.DecodeEncode | src/application/dns/question.rs:30-39 | Decoding an encoded question whose name has non-empty labels gives it back, whatever follows. |
| Questions.EncodeDecode | src/application/dns/question.rs:57-75 | Re-encoding a decoded question gives back exactly the bytes it was read from. |
| Questions.DecodeTypeFirst | src/application/dns/question.rs:36-37 | The type is checked as soon as its two bytes follow the name. An unknown type code fails with that code whatever follows it, even nothing. A known type without a full class word after it runs off the buffer. |
| Questions.DecodeAsWrittenNeverRoundTrips | src/application/dns/question.rs:30-39 | As written, decoding the encoding of any question never gives that question back. |
| Questions.DecodeAsWrittenAlwaysFails | src/application/dns/question.rs:30-39 | As written, `from_bytes` fails on every buffer. The name is read to the end of the slice, so no bytes are left for the type. |
| Questions.QuestionUnitTest | src/application/dns/question.rs:100-112 | The A/IN/unicast question for question.example.com reads back class IN and the flag. It survives decoding and re-encoding byte for byte. As written, its bytes fail to decode at all. |
| Rdata.Decode | src/application/dns/rdata/mod.rs:53-71 | Decoding yields data of the requested type. A needs 4 bytes and AAAA needs 16. Every type other than A, AAAA and MX fails as unsupported. |
| Rdata.EncodeSize | src/application/dns/rdata/mod.rs:74-103 | `raw` and `raw_size` succeed exactly on A, AAAA and MX and agree on the length. Otherwise both fail with the type's code. |
| Rdata.DecodeEncode | src/application/dns/rdata/mod.rs:53-94 | Decoding the encoding of supported data gives it back, whatever follows. |
| Rdata.EncodeDecode | src/application/dns/rdata/mod.rs:53-94 | Re-encoding decoded data gives back exactly the bytes it was read from. |
| Rdata.AddressWithLeadingZeros | src/application/dns/rdata/mod.rs:79-82 | The address 0.0.0.1 keeps its leading zero bytes in both directions. |
| Mx.Decode | src/application/dns/rdata/mx.rs:24-29 | MX decoding succeeds exactly when there are two preference bytes and a name after them. The preference is the first word. |
| Mx.EncodeSize | src/application/dns/rdata/mx.rs:33-47 | The encoding is `raw_size` bytes: two plus the host's size. |
| Mx.DecodeEncode | src/application/dns/rdata/mx.rs:24-43 | Decoding an encoded MX gives it back, whatever follows. |
| Mx.EncodeDecode | src/application/dns/rdata/mx.rs:24-43 | Re-encoding a decoded MX gives back exactly the bytes it was read from. |
| Afsdb.Decode | src/application/dns/rdata/afsdb.rs:20-25 | AFSDB decoding succeeds exactly when there are two subtype bytes and a name after them. The subtype is the first word. |
| Afsdb.EncodeSize | src/application/dns/rdata/afsdb.rs:29-43 | The encoding is `raw_size` bytes: two plus the name's size. |
| Afsdb.DecodeEncode | src/application/dns/rdata/afsdb.rs:20-39 | Decoding an encoded AFSDB gives it back, whatever follows. |
| Afsdb.EncodeDecode | src/application/dns/rdata/afsdb.rs:20-39 | Re-encoding a decoded AFSDB gives back exactly the bytes it was read from. |
| ResourceRecords.DecodeTypeFirst | src/application/dns/resource_record.rs:29 | The type is checked as soon as its two bytes follow the name. An unknown type code fails with that code whatever follows it, even nothing. A known type without a full class word after it runs off the buffer. |
| ResourceRecords.DecodeClassSecond | src/application/dns/resource_record.rs:34 | After a known type, the class is checked as soon as its two bytes are there. An unknown class code fails with that code whatever follows. A known class without the TTL and rdata length words after it runs off the buffer. |
| ResourceRecords.DecodeFields | src/application/dns/resource_record.rs:25-40 | After the name, the fields are read in wire order. An unknown type fails with its code, then an unknown class fails with its code, then an RDATA failure is passed on. Otherwise TTL and rdata length are kept as read. |
| ResourceRecords.SizeIgnoresRLength | src/application/dns/resource_record.rs:76-78 | `raw_size` does not depend on the stored rdata length. |
| ResourceRecords.EncodeSize | src/application/dns/resource_record.rs:44-78 | `raw` and `raw_size` succeed exactly when the RDATA is supported, and then agree on the length. |
| ResourceRecords.DecodeEncode | src/application/dns/resource_record.rs:25-74 | A record with a wire-safe name and supported RDATA of its own type encodes. Decoding the encoding gives the record back, whatever follows. |
| ResourceRecords.EncodeDecode | src/application/dns/resource_record.rs:25-74 | Re-encoding a decoded record gives back exactly the bytes it was read from. |
| ResourceRecords.RawAsWrittenAlwaysFails | src/application/dns/resource_record.rs:44-68 | As written, encoding fails for every record with a valid name. With RDATA other than A, AAAA or MX, `raw_size` gives up first with the type's code. Otherwise the write of the rdata length into a four-byte slice runs past a buffer with only two bytes reserved. |
| ResourceRecords.RawWithTwoByteSlice | src/application/dns/resource_record.rs:44-74 | With a two-byte slice, the buffered writer produces exactly the record's encoding. |
| MacAddresses.GetSet | src/datalink/mod.rs:15-37 | `get` returns what `new` or `set` stored. `set` of the current bytes changes nothing, and the last `set` wins. |
| MacAddresses.LowerHex | src/datalink/mod.rs:12 | Lower-casing keeps hex digits hex with the same value, and keeps colons and only colons as colons. |
| MacAddresses.GroupedLength | src/datalink/mod.rs:12 | Text matching the grouped pattern has 3k - 1 characters. |
| MacAddresses.RemoveColons | src/datalink/mod.rs:24 | Removing colons leaves no colon and never lengthens the text. |
| MacAddresses.RemoveColonsStep | src/datalink/mod.rs:24 | On a group of two non-colons followed by a colon, removing colons keeps the pair and drops the colon. |
| MacAddresses.HexDecode | src/datalink/mod.rs:24 | `hex::decode` succeeds exactly on an even number of hex digits. Byte i is the value of digits 2i and 2i+1, high first. |
| MacAddresses.GroupValuesAt | src/datalink/mod.rs:12 | Group i of grouped text is two hex digits at 3i and 3i+1, and its value is their pair value. |
| MacAddresses.DecodeGrouped | src/datalink/mod.rs:24-26 | Hex-decoding grouped text with the colons removed gives the value of each group. |
| MacAddresses.FromStr | src/datalink/mod.rs:20-27 | `from_str` succeeds exactly on text matching the MAC pattern, and otherwise fails with `InvalidMac`. Octet i is the value of the two hex digits at 3i and 3i+1. |
| MacAddresses.LowerGrouped | src/datalink/mod.rs:12 | Lower-casing neither makes nor breaks a match of the pattern. |
| MacAddresses.FromStrIgnoresCase | src/datalink/mod.rs:12-27 | Upper and lower case parse alike. |
| MacAddresses.FromStrFormat | src/datalink/mod.rs:20-27 | Every address is parsed back from its colon-separated hex text, so `from_str` reaches every address. |
| MacAddresses.SixGroups | src/datalink/mod.rs:12 | Seventeen characters with hex digits around colons at 2, 5, 8, 11 and 14 match the pattern. |
| MacAddresses.UpperCaseExample | src/datalink/mod.rs:46-47 | `23:AC:12:00:AF:00` parses as 23 AC 12 00 AF 00. |
| MacAddresses.LowerCaseExample | src/datalink/mod.rs:49-50 | `aa:ab:ac:ad:ae:af` parses as AA AB AC AD AE AF. |
| MacAddresses.ShortExample | src/datalink/mod.rs:22 | Five groups do not match the pattern, so parsing fails. |

## Left out

- UTF-8 decoding: `String::from_utf8_lossy` is left out. Label contents stay the bytes they were read from. The lossy replacement of invalid sequences is a text-encoding concern, not part of the wire format.
- Message compression pointers, from section 4.1.4 of RFC 1035, are left out: the Rust code does not handle them either.
- `Ipv4Addr` and `Ipv6Addr` are modelled as four octets and eight 16-bit groups. `write_u32` and `write_u128` of their integer forms are written out as those octets and groups, high first.
- `DnsLayer` and whole-message assembly are left out beyond the `Layer` implementation. The struct has no methods.
- The `src/dns` directory is not part of this model: it is an older copy that the crate does not compile.
- `regex` and `hex` are external crates, so neither is modelled as a library. The MAC pattern is the predicate `MatchesMacPattern` and `hex::decode` is the function `HexDecode`.
- The `Debug` and `Display` output of questions, records and errors is formatting only and is left out. So is the `LayerType` conversion from the private `Layers` enum, which nothing calls.
- `MAX_LAYER_COUNT` is left out: it is declared but never used.
- Dns.TypeCodeInverse and Dns.ClassCodeInverse: `Type::try_from(u16)` and `Class::try_from(u16)` are called by the question and record decoders, but no `TryFrom<u16>` implementation for either enum is in the source files of this model. The model assumes each is the partial inverse of `as u16`, accepting exactly the declared codes. The errors on the other codes, `UnknownType` and `UnknownClass` carrying the code, are assumptions of the model as well.
- `Name::raw` and `raw_size` are not part of the source files of this model. They are defined by the name layout of section 3.1 of RFC 1035: per label, one length byte and the contents, then a zero byte.
- `ResourceRecord.ttl` stays a 16-bit word, as the Rust struct declares it. Section 3.2.1 of RFC 1035 gives TTL 32 bits.
- Header.FromBytes: takes only inputs of exactly twelve bytes, because the Rust signature takes a `[u8; 12]` array.
- Names.Display: requires at least one label, because the Rust code indexes `labels[0]` and panics on an empty name.
- `Packet::add_layer` leaves the packet unchanged on failure. This is modelled functionally: the result is either the new packet or an error.
- MacAddresses.Set: `set` mutates in place in Rust. It is modelled as a function returning the new address.
- MacAddresses.FromStrFormat: the formatter `Format` is not in the Rust code. It is an independent reference definition that shows `from_str` reaches every address.
- Mx.Decode: uses the corrected terminator-stopping name decoder. `MX::from_bytes` calls `Name::from_bytes`, which runs to the end of the slice (Findings, row 1). The same holds for Afsdb.Decode and for the name in `Question::from_bytes` and `ResourceRecord::from_bytes`.
- The decoders do not limit RDATA to `rlength` bytes, because the Rust code reads RDATA from everything after the fixed fields.
- AFSDB RDATA can be encoded and decoded on its own, but the `RData` dispatcher leaves it `todo!()`. It is therefore `Unsupported` there, as are HINFO … WKS.

## Findings

| source | as written | input that shows it | evidently intended | confidence | as-written member | corrected member |
|---|---|---|---|---|---|---|
| src/application/dns/name.rs:42 | `Name::from_bytes` loops while `i < bytes.len()`, so it reads past the name's zero byte. The terminator becomes an empty label, and every following byte is read as more labels. A successful name read therefore consumes the whole slice, and `Question::from_bytes` fails on every buffer. | The question for question.example.com, type A, class IN, unicast. After the name, `00 00 80 01` reads as two empty labels, then a label of length 0x80 that runs off the buffer. | Stop at the zero length byte, as section 3.1 of RFC 1035 lays names out. Then the question module's round-trip test holds. The name module's test input `\x05other\x07example\x03com` has no terminator, so the corrected decoder rejects it (Names.DecodeRejectsUnterminated): the fix gives up that test to pass the other. | not executed | Questions.DecodeAsWrittenAlwaysFails | Questions.DecodeEncode |
| src/application/dns/mod.rs:55 | The older `Name::new` takes the contents from `bytes[i..i + n]`, starting at the length byte. | `03 63 6F 6D 00` decodes to the label `03 63 6F` instead of `com`. | Take the contents from `bytes[i + 1..i + 1 + n]`. | not executed | Dns.LegacyIsShifted | Names.DecodeEncode |
| src/application/dns/resource_record.rs:68 | `raw` writes the rdata length into `bytes[start..start + 4]` when only two bytes past `start` have been pushed. | Any record with a valid name and A, AAAA or MX RDATA, for example an A record with an empty name: the slice end lies two bytes past the buffer. Other RDATA fails earlier, in `raw_size`. | A two-byte slice `start..start + 2`, like the three writes before it. | not executed | ResourceRecords.RawAsWrittenAlwaysFails | ResourceRecords.RawWithTwoByteSlice |
