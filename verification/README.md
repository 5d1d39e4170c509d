# MACAddr in Dafny

A model of the `MACAddr` value type of `lib/macaddr.rb`, with proofs about it.

A `MACAddr` is an immutable array of octets in transmission order. Construction
takes loosely formatted text:

1. It deletes every character that is not an ASCII letter or digit.
2. It cuts the rest into complete two-character chunks.
3. It reads each chunk with Ruby's `String#hex`.

The type then offers:

- `to_s`, the canonical colon-separated rendering;
- the `oui` and `nic` halves of that rendering;
- the I/G bit tests `group?` and `individual?`, and the U/L bit tests `universally_administered?` and `locally_administered?`;
- `to_i`, the big-endian integer value;
- `eui64`, the Modified EUI-64 interface identifier text.

The project has four modules:

- `Hex` (`hex.dfy`) holds the character classes of the cleaning regex and `String#hex` on text without signs, blanks, underscores or a `0x` prefix. It also holds the `"%02x"` directive (`Hex2`) and the `"%x"` directive (`HexString`).
- `Join` (`join.dfy`) holds `Array#join(':')` and its injectivity on colon-free parts.
- `MacAddress` (`macaddr.dfy`) holds the value type and every method of the class.
  - `MacAddr.octets` is `to_a`.
  - `Parse` is `MACAddr.new(addr)` and `New` is `MACAddr.new`.
  - Each Ruby method is a function on `MacAddr`.
- `MacAddressProofs` (`macaddr_proofs.dfy`) and `MacAddressExamples` (`macaddr_examples.dfy`) hold the properties that relate several operations, and the values the file's own unit tests assert.

Octets are `Byte = 0..255`. Ruby's integers are unbounded, and so are Dafny's. `acc << 8 | i` is written `acc * 256 + i`: shifting clears the low eight bits, and `i` fits in them, so the OR is an addition.

### Behaviour that follows the code

- An odd trailing letter or digit is dropped, not parsed.
- No well-formed text is rejected. A chunk that is not two hex digits reads as `String#hex` reads it:
  - the first digit's value when only the first character is a hex digit;
  - otherwise 0.
- The parsed address has `⌊letters-and-digits / 2⌋` octets, which is not always six.
- On an empty address, `group?` and `universally_administered?` return `false`, because `nil & x` is `false` in Ruby. The model makes all four bit tests total for that reason.
- `nic` raises on fewer than three octets, because `@addr[3..5]` is `nil` there. `Nic` requires three octets.
- `eui64` works exactly for four octets or for six or more:
  - below three octets a `nil` reaches `+`;
  - with three or five octets `each_slice(2)` leaves a lone byte for `"%x%x"`.

  `Eui64` requires `Eui64Defined`, which holds exactly for those lengths.
- `eui64` ORs `0x02` into octet 0 instead of inverting the U/L bit.
- `eui64` prints each group as two unpadded bytes side by side (`"%x%x"`), not as a 16-bit number.
  One consequence is that different addresses can share an identifier (`Eui64Collision`).
- `universally_administered?` is true when bit 1 is set, the reverse of the IEEE 802 convention. The model follows the code.

## Model

| member | source | states |
|---|---|---|
| Hex.Hex2 | lib/macaddr.rb:70 | `"%02x"` gives exactly two lower-case hex digits whose base-16 value is the octet |
| Hex.HexString | lib/macaddr.rb:42 | `"%x"` gives lower-case hex digits with no leading zero (unless the value is 0), one digit exactly for values below 16 |
| Hex.HexStringOfByte | lib/macaddr.rb:42 | an octet takes at most two digits under `"%x"` |
| Hex.HexStringReadsBack | lib/macaddr.rb:42 | `String#hex` reads back exactly the number `"%x"` wrote |
| Hex.HexStringInjective | lib/macaddr.rb:42 | distinct numbers print differently under `"%x"` |
| Hex.LeadingHexValue | lib/macaddr.rb:18 | `String#hex` reads only the leading run of hex digits: the value is below 16 to the power of that run's length, and 0 when the text does not start with a hex digit; `HexStringReadsBack` and `LeadingHexValueOfPair` pin the value on `"%x"` output and on two-character chunks |
| Hex.LeadingHexValueOfPair | lib/macaddr.rb:18 | `String#hex` of two characters is 16·first+second when both are hex digits, the first digit's value when only the first is, and 0 when the first is not |
| Join.JoinColons | lib/macaddr.rb:70 | `join(':')` (also at lines 31, 36 and 42) of no parts is empty and of one part is that part; `JoinAppend`, `JoinColonCount` and `JoinInjective` carry the general behaviour (one colon between neighbours, n-1 colons, parts recoverable) |
| Join.JoinAppend | lib/macaddr.rb:70 | joining two non-empty runs of parts puts exactly one colon between their joins |
| Join.JoinColonCount | lib/macaddr.rb:42 | a join of n colon-free parts contains exactly n-1 colons |
| Join.JoinInjective | lib/macaddr.rb:70 | colon-free parts are recovered from their join when the number of parts is known |
| Join.JoinOfFour | lib/macaddr.rb:42 | the join of four parts is the parts with a colon between each neighbour pair |
| Join.JoinOfThree | lib/macaddr.rb:42 | the join of three parts is the parts with a colon between each neighbour pair |
| MacAddress.Clean | lib/macaddr.rb:15 | the cleaned text is no longer than the input and holds only ASCII letters and digits; text of letters and digits only comes back unchanged, and text with none comes back empty (with `CleanAppend`, which splits any text into such pieces, this fixes the result: the letters and digits, in order) |
| MacAddress.ChunkValueIsStringHex | lib/macaddr.rb:18 | `ChunkValue`, the chunk reader of `i.hex`, agrees with `String#hex` (leading hex digits, 0 if none) on every two-character chunk |
| MacAddress.Chunks | lib/macaddr.rb:16-18 | one octet per complete pair, the odd last character ignored, octet k read from characters 2k and 2k+1 |
| MacAddress.Parse | lib/macaddr.rb:14-19 | parsing accepts every well-formed text and yields half as many octets as the text has letters and digits, rounded down |
| MacAddress.CleanAppend | lib/macaddr.rb:15 | cleaning distributes over concatenation |
| MacAddress.ChunksCons | lib/macaddr.rb:16-18 | a leading pair becomes the first octet, before the rest's octets |
| MacAddress.ParsePairThen | lib/macaddr.rb:14-19 | a pair, then any separator (or none), reads as that pair's octet followed by the rest's octets |
| MacAddress.ParseLastPair | lib/macaddr.rb:14-19 | a lone pair reads as exactly one octet |
| MacAddress.ParseSixPairs | lib/macaddr.rb:14-19 | six pairs with any separators between them (colons, dashes, dots, none) read as the six pairs' octets |
| MacAddress.DefaultTextPairs | lib/macaddr.rb:14 | the default argument is six `00` pairs separated by colons |
| MacAddress.New | lib/macaddr.rb:14-19 | `MACAddr.new` with the default argument holds six zero octets (`NewIsZero` adds its rendering and integer value) |
| MacAddress.Hex2All | lib/macaddr.rb:70 | `map{"%02x"}` (also at lines 31 and 36) keeps the length, and entry k is the `"%02x"` digits of octet k |
| MacAddress.HexColons | lib/macaddr.rb:69-71 | the rendering of n ≥ 1 octets has length 3n-1, and of none is empty |
| MacAddress.HexColonsLength | lib/macaddr.rb:69-71 | n ≥ 1 octets join to 3n-1 characters: two per octet and a colon between neighbours |
| MacAddress.HexColonsOctet | lib/macaddr.rb:70 | octet k is written as its `"%02x"` digits at offset 3k |
| MacAddress.HexColonsColon | lib/macaddr.rb:70 | a colon sits at offset 3k+2 between octets k and k+1 |
| MacAddress.ToS | lib/macaddr.rb:69-71 | `to_s` of n ≥ 1 octets has 3n-1 characters and of none is empty; its contents are fixed by `ToSLayout`, and it is inverted by `MACAddr.new` (`ParseToS`, `ToSParse`) |
| MacAddress.ToSLayout | lib/macaddr.rb:69-71 | `to_s` has length 3n-1, octet k's `"%02x"` digits at offset 3k and a colon after every octet but the last |
| MacAddress.HexColonsSlice | lib/macaddr.rb:30-37 | rendering a run of octets i..j gives characters 3i..3j-1 of the whole rendering |
| MacAddress.HexColonsPrefix | lib/macaddr.rb:30-32 | rendering the first n octets gives the first 3n-1 characters of the whole rendering |
| MacAddress.HexColonsSuffix | lib/macaddr.rb:35-37 | rendering the octets from i on gives the whole rendering from character 3i on |
| MacAddress.HexColonsSplit | lib/macaddr.rb:69-71 | cutting the octets after the n-th cuts the rendering at the colon between octets n-1 and n |
| MacAddress.HexColonsCons | lib/macaddr.rb:69-71 | with two or more octets the rendering is the first octet's digits, a colon, then the rest's rendering |
| MacAddress.Oui | lib/macaddr.rb:30-32 | with three or more octets `oui` is the first 8 characters of `to_s`; with three or fewer it is all of `to_s` |
| MacAddress.Nic | lib/macaddr.rb:35-37 | defined from three octets on; with six or more it is characters 9..16 of `to_s`; with four or five it is all of `to_s` from character 9 on; with exactly three it is empty |
| MacAddress.IsGroup | lib/macaddr.rb:45-47 | `group?` holds exactly when there is an octet 0 and it is odd (I/G bit set) |
| MacAddress.IsIndividual | lib/macaddr.rb:49-51 | `individual?` holds exactly when the address is empty or octet 0 is even |
| MacAddress.IsUniversallyAdministered | lib/macaddr.rb:53-55 | holds exactly when there is an octet 0 and its bit 1 is set |
| MacAddress.IsLocallyAdministered | lib/macaddr.rb:57-59 | holds exactly when the address is empty or bit 1 of octet 0 is clear |
| MacAddress.Fold | lib/macaddr.rb:62-66 | the fold of n octets is below 256^n |
| MacAddress.ToI | lib/macaddr.rb:62-66 | `to_i` of n octets is below 256^n; `FoldIsBigEndian` gives its value, `FromIntOfFold` and `FoldOfFromInt` invert it |
| MacAddress.SetUlBit | lib/macaddr.rb:41 | `b OR 0x02` has bit 1 set and every other bit of `b` unchanged |
| MacAddress.Eui64Bytes | lib/macaddr.rb:41 | the eight bytes are octet 0 with bit 1 set, octets 1-2, `ff fe`, octets 3-5 (six for a four-octet address), first byte's bit 1 always set |
| MacAddress.PairGroups | lib/macaddr.rb:42 | one group per byte pair, none containing a colon; group k is `"%x%x"` of bytes 2k and 2k+1 |
| MacAddress.PairGroup | lib/macaddr.rb:42 | `"%x%x"` of two bytes is two to four lower-case hex digits and no colon |
| MacAddress.PairGroupsStep | lib/macaddr.rb:42 | putting the first pair's group before the rest's groups keeps group k on bytes 2k and 2k+1 |
| MacAddress.PairGroupsAreDigits | lib/macaddr.rb:42 | every group holds lower-case hex digits only |
| MacAddress.Eui64 | lib/macaddr.rb:40-43 | four colon-separated groups (three colons) from six or more octets, three groups from four; every character that is not a colon is a lower-case hex digit |
| MacAddress.JoinOfDigitGroups | lib/macaddr.rb:42 | joining digit-only groups leaves nothing but digits and colons |
| MacAddressProofs.ParseOnlyAlnum | lib/macaddr.rb:15-18 | the address depends only on the letters and digits of the text |
| MacAddressProofs.ParseIgnoresSeparator | lib/macaddr.rb:15 | inserting any non-alphanumeric character anywhere leaves the address unchanged |
| MacAddressProofs.CleanLowerAll | lib/macaddr.rb:15 | cleaning commutes with down-casing |
| MacAddressProofs.ChunkValueLower | lib/macaddr.rb:18 | a chunk reads the same in either letter case |
| MacAddressProofs.ChunksLowerAll | lib/macaddr.rb:16-18 | chunking down-cased text gives the same octets |
| MacAddressProofs.ParseIgnoresCase | lib/macaddr.rb:14-19 | upper- and lower-case forms of a text give the same octets (`to_a`) |
| MacAddressProofs.ChunksDropOddTail | lib/macaddr.rb:16 | one extra character after an even-length text adds no chunk |
| MacAddressProofs.TrailingOddCharacterDropped | lib/macaddr.rb:15-16 | a letter or digit after an even number of them does not change the address |
| MacAddressProofs.CleanGroup | lib/macaddr.rb:15 | a pair then a separator cleans to the pair, then the cleaned rest |
| MacAddressProofs.Hex2OfDigits | lib/macaddr.rb:70 | `"%02x"` of two lower-case digits' value writes those digits |
| MacAddressProofs.ChunkOfHex2 | lib/macaddr.rb:18 | reading back an octet's `"%02x"` digits gives the octet |
| MacAddressProofs.ParseHexColons | lib/macaddr.rb:14-19 | cleaning and chunking an octet sequence's rendering gives the octets back |
| MacAddressProofs.ParseToS | lib/macaddr.rb:69-71 | `MACAddr.new(a.to_s).to_a == a.to_a` for every octet sequence, of any length |
| MacAddressProofs.ToSIsCanonical | lib/macaddr.rb:69-71 | every `to_s` is canonical: pairs of lower-case digits separated by single colons |
| MacAddressProofs.HexColonsOfParse | lib/macaddr.rb:69-71 | rendering the parse of canonical non-empty text gives the text back |
| MacAddressProofs.ToSParse | lib/macaddr.rb:69-71 | `MACAddr.new(s).to_s == s` for every canonical text `s` |
| MacAddressProofs.CanonicalizeIdempotent | lib/macaddr.rb:69-71 | canonicalising a text twice is canonicalising it once |
| MacAddressProofs.OuiNicSplit | lib/macaddr.rb:30-37 | for six octets `oui` and `nic` are 8 characters each and `oui + ":" + nic == to_s` |
| MacAddressProofs.BigEndianSnoc | lib/macaddr.rb:62-66 | appending an octet to the positional sum shifts it by one byte and adds the octet |
| MacAddressProofs.FoldIsBigEndian | lib/macaddr.rb:62-66 | `to_i` is the big-endian sum of `a[k] * 256^(n-1-k)` |
| MacAddressProofs.FromIntOfFold | lib/macaddr.rb:62-66 | unpacking `to_i` into the address's length gives the octets back |
| MacAddressProofs.FoldOfFromInt | lib/macaddr.rb:62-66 | every number below 256^len is `to_i` of its own unpacking into len octets |
| MacAddressProofs.ToIInjective | lib/macaddr.rb:62-66 | two addresses of one length with the same `to_i` hold the same octets (`to_a`) |
| MacAddressProofs.ToIOfSixOctets | lib/macaddr.rb:62-66 | a six-octet address's `to_i` is below 2^48 |
| MacAddressProofs.Eui64IgnoresExtraOctets | lib/macaddr.rb:41 | octets past the sixth never reach the identifier |
| MacAddressProofs.Eui64OfSixOctets | lib/macaddr.rb:40-43 | for six octets the identifier is `%x` of (a0 OR 2) and a1, then `%x` of a2 and `ff`, then `fe` and `%x` of a3, then `%x` of a4 and a5, colon separated |
| MacAddressProofs.Eui64OfFourOctets | lib/macaddr.rb:40-43 | for four octets the identifier is `%x` of (a0 OR 2) and a1, then `%x` of a2 and `ff`, then `fe` and `%x` of a3, colon separated |
| MacAddressProofs.GroupsByIndex | lib/macaddr.rb:42 | a list of groups that matches the pair-k-to-group-k layout at every index is the list of groups |
| MacAddressProofs.PairGroupsOfFour | lib/macaddr.rb:42 | eight bytes give four groups, each two bytes' unpadded hex side by side |
| MacAddressProofs.PairGroupsOfThree | lib/macaddr.rb:42 | six bytes give three groups, each two bytes' unpadded hex side by side |
| MacAddressProofs.Eui64LastGroupOnly | lib/macaddr.rb:42 | addresses equal on octets 0-3 whose last two bytes are spelled alike under `"%x%x"` share an identifier |
| MacAddressExamples.OneOctets | lib/macaddr.rb:84 | `00:00:00:00:00:01` holds five zeros and a one |
| MacAddressExamples.ColonOctets | lib/macaddr.rb:88 | the colon form holds `56 6f 99 d2 aa f9` |
| MacAddressExamples.DashOctets | lib/macaddr.rb:91 | the upper-case dash form holds the same six octets |
| MacAddressExamples.DotOctets | lib/macaddr.rb:94 | the dotted form holds the same six octets |
| MacAddressExamples.GroupOctets | lib/macaddr.rb:103 | `33:33:00:00:00:01` holds `33 33 00 00 00 01` |
| MacAddressExamples.Eui64Octets | lib/macaddr.rb:109 | `3c:97:0e:7e:52:12` holds those six octets |
| MacAddressExamples.NewIsZero | lib/macaddr.rb:80-82 | `MACAddr.new` renders as `00:00:00:00:00:00` and has integer value 0 |
| MacAddressExamples.OneIsOne | lib/macaddr.rb:84-86 | `00:00:00:00:00:01` renders as itself and has integer value 1 |
| MacAddressExamples.SeparatorFormsAgree | lib/macaddr.rb:88-95 | the colon, dash and dot forms give the same octets (`to_a`) |
| MacAddressExamples.SeparatorFormsRender | lib/macaddr.rb:88-95 | all three forms render as `56:6f:99:d2:aa:f9` |
| MacAddressExamples.GroupBit | lib/macaddr.rb:98-105 | the zero address is individual, not group; `33:33:00:00:00:01` is group, not individual |
| MacAddressExamples.Eui64OfTestAddress | lib/macaddr.rb:108-110 | `3c:97:0e:7e:52:12` gives `3e97:eff:fe7e:5212` |
| MacAddressExamples.Eui64OfFourOctetAddress | lib/macaddr.rb:40-43 | the four octets `3c 97 0e 7e` give the three-group identifier `3e97:eff:fe7e` |
| MacAddressExamples.Eui64Collision | lib/macaddr.rb:42 | `00:00:00:00:01:23` and `00:00:00:00:12:03` are different addresses with the same identifier: the last group is `"1" + "23"` for one and `"12" + "3"` for the other |

## Left out

- `inspect` (lib/macaddr.rb:21-23) builds a debug string from the runtime class name. It has no behaviour beyond `to_s`.
- `.freeze` (lib/macaddr.rb:18) is Ruby's runtime immutability. A Dafny datatype value is already immutable.
- `MACAddr` defines no `==`, `eql?` or `hash` (lib/macaddr.rb:9-72), so Ruby compares two objects by identity. Equality of `MacAddr` values in the model stands for equality of `to_a`. Wherever a row says two addresses are equal or the same, read it as equal octets.
- The exceptions `nic` and `eui64` raise on lengths they cannot handle are not modelled as values. Those lengths are excluded by the preconditions of `Nic` and `Eui64`.
- `String#hex` is modelled only on text without sign, whitespace, underscores or `0x` prefix. Chunks are two letters or digits, so none of those can occur, and a chunk `0x` reads as 0 either way.
- Corrected behaviour the code does not have is not modelled. That covers strict twelve-digit validation, an error on non-hex letters, inverting the U/L bit, and zero-padded or 16-bit EUI-64 groups.
- The `test/unit` harness after `__END__` (lib/macaddr.rb:74-112) is not code of the class. Its assertions appear as lemmas in `MacAddressExamples`.
- MacAddress.Parse: its contract states only the octet count. What each octet is comes from `Chunks` and `ChunkValueIsStringHex`. Text is modelled as a sequence of valid Unicode characters. So the two ways `gsub` raises on malformed text are not modelled: `ArgumentError` on bytes that are invalid in the string's encoding (for example `"\xff"`), and `Encoding::CompatibilityError` on UTF-16 or UTF-32 text.
