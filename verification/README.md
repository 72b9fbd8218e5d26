# Verification of the graph value laws and the molecule engine

This project models two parts of the repository in Dafny and proves what they promise.

The first part is the graph value laws, the packages of pure functions that every stored
or served value passes through: a hand-written JSON scanner and canonical printer
(RFC 8259 in, RFC 8785 out, over exact decimal numbers), UTF-16 code-unit order, the
percent-escape codec of ID segments, local and generated IDs, URL splitting with host and
port normalisation, reference classification, the hash-chained ledger, Type Descriptors,
and the law every served record must satisfy.

The second part is the molecule engine: loading a molecule over a parent-child graph that
may be cyclic, readiness with waits-for gates, memoised blocking depth, union-find grouping
of steps that can run in parallel, the completeness checks, the batched parent walk and the
batched blocked flags.

Text is a sequence of bytes with a UTF-8 layer (`Utf8`), so byte-level escapes, invalid
encodings and surrogate pairs are part of the model. Where the source updates things in
place the model does too: the scanner, the union-find forest, the depth table, the molecule
graph, the analysis and the blocked-flag annotator are classes; the masking of generated IDs
works in an array; loops over local variables are methods with loops. Each method is proved
equal to a specification function or law, and the results below are about those.

## Modules

| area | modules |
|---|---|
| text and order | Utf8, CodeUnits, ByteOrder, Strings, Characters, Splitting, Seqs, Wrappers |
| JSON | Numbers, NumberText, ExponentGuard, Integers, Sorting, Json, JsonLaws, Spellings, ShortestSpelling, Notation, Grammar, GrammarLaws, Scanner, CanonicalWalk, JsonFields |
| identity | Segments, ResourceIds, RootedPaths |
| URLs | UrlText, Ipv4, Ipv4Spellings, Ipv6, Hosts, Ports, Escapes, DotSegments, ScopeUrls, ScopeLaws, DefaultPorts, References, ReferenceLaws |
| ledger and types | Ledger, Admission, Records, RecordLaws, Descriptors, TypeDescriptors, DescriptorLaws, DescriptorParser |
| molecules | Graphs, Molecules, DepthRuns, Depths, DepthCycles, UnionFind, Parallel, Analyze, PartnerLaws, Loading, Views, Roots, BlockedFlags |

## What is taken as given

- Binary64 admission is a predicate on the exact decimal value of a number (`Json.Rules`);
  exact mode admits every number.
- SHA-256 is a function to 64 lowercase hex digits. Collision-freeness is assumed only of the
  events a statement is about: no function from all byte strings to 64 digits is injective.
- The text of an instant is an injective function of its microseconds.
- The IPv6 address parser is a function to eight 16-bit pieces. Only `Hosts.NormalHostAgain`,
  and only for bracketed hosts, assumes that it reads serialized addresses back;
  `Hosts.ReadAddressInverts` shows such a parser.
- Reads of related rows and edges are functions of one finite snapshot.
- The order in which a map of blockers is iterated is a parameter (`DepthRuns.Order`).
- Sorting is insertion sort by code unit; the source calls a stable library sort with the
  same comparison.
- A refusal is `None`; which refusal it is and how it is worded are not modelled.
- `encoding/json` is represented by any text that denotes the wire object
  (`Ledger.AnyEncoding`).

## Where the code and its promises part

- Escape normalisation is not idempotent on texts with a stray percent sign
  (`Escapes.NotIdempotent`); `Escapes.IdempotentWhenSettled` is the exact condition, a look at
  the two tokens behind each stray percent sign, and
  `Escapes.IdempotentWhenComplete` covers every text that reaches it in reference parsing.
- A stored ledger event whose instant lies within the first microsecond after the zero time is
  not admitted again: truncation turns it into the zero instant
  (`Ledger.StoredReadmitted`, an if-and-only-if; `Ledger.FirstInstantLost` is such an event).
- A canonical ID such as `a:b` is read as an absolute URI when used as a reference
  (`References.UriShapedId`); `References.LocalReference` says exactly which IDs mean themselves.
- A parallel group is a connected component, not a clique: a step can share one with a recorded
  blocker (`PartnerLaws.NotAClique` is a molecule of three nodes). `Parallel.CliqueExactly`, over
  the steps of one call, and `PartnerLaws.UnrelatedExactly`, over a molecule, say exactly when it
  is a clique; `PartnerLaws.LevelBlockerIsClosed` says that such a blocker is closed.
- Blocking depths as documented exist exactly when waiting is acyclic (`Depths.DepthsExist`;
  `Depths.TwoCycleHasNone` is a graph without any). On a cyclic graph the depths depend on the
  order in which blockers come up (`DepthCycles.OrderMatters`). In every order they stay within the
  bound and keep a node off the depth of its open blockers (`DepthRuns.NeverLevel`), so partners
  never wait on each other directly (`PartnerLaws.PartnersNotDirect`); through a chain they can
  (`PartnerLaws.PartnersOnCycle`).
- A zero with a huge spelled exponent is accepted or refused depending on the length of the
  document: `0e1000000000020` is refused alone and accepted with five spaces behind it
  (`ExponentGuard.LengthDecidesZero`). `ExponentGuard.GuardMatters` says that the guard decides
  nothing else. JSON equality is therefore stated over accepted texts.
- A hexadecimal last label above 2^40 is not a number: `Ipv4.CapExactly` says that on exactly these
  hosts the ends-in-a-number test differs from the one without the cap, and `Hosts.LargeHexIsName`
  that such a host is kept as it is exactly when it is a registered name (`Hosts.LargeHexExample`
  has three). Agreement with the WHATWG host parser is not claimed there.
- Code-unit comparison ties any two strings that decode to the same scalars
  (`CodeUnits.TiesAreScalars`), so ill-formed strings can tie without being equal
  (`CodeUnits.IllFormedTie`); valid ones cannot (`CodeUnits.CompareZero`).

## Model

| member | source | states |
|---|---|---|
| Utf8.DecodeEncode | graphops/laws.go:735-813 | Decoding the UTF-8 encoding of any scalar value gives the scalar back, whatever bytes follow |
| Utf8.EncodeDecode | graphops/laws.go:735-813 | Every decoded multi-byte form is exactly the encoding of its scalar, so no overlong or surrogate form is accepted |
| Utf8.ScalarsInjective | graphops/laws.go:299-318 | Valid strings with equal scalar sequences are equal |
| Utf8.ValidConcat | graphops/laws.go:735-813 | Checking raw segments one at a time is checking the whole string |
| CodeUnits.CompareCodeUnits | graphops/laws.go:299-318 | The rune-by-rune loop returns the lexicographic comparison of the two UTF-16 forms, for any bytes |
| CodeUnits.KeyDecides | graphops/laws.go:289-295 | The packed key orders two scalars as their UTF-16 units do |
| CodeUnits.JoinInvertsSplit | graphops/laws.go:781-802 | Decoding the surrogate pair a supplementary scalar is split into gives the scalar |
| CodeUnits.SplitInvertsJoin | graphops/laws.go:781-802 | Splitting the scalar decoded from a surrogate pair gives the pair |
| CodeUnits.Utf16Injective | graphops/laws.go:289-295 | Distinct scalar sequences have distinct UTF-16 forms |
| CodeUnits.CompareZero | graphops/laws.go:299-318 | On valid UTF-8 the comparison is zero exactly for equal strings |
| CodeUnits.TiesAreScalars | graphops/laws.go:299-318 | On any bytes the comparison is zero exactly when both strings decode to the same scalars |
| CodeUnits.IllFormedTie | graphops/laws.go:299-318 | Two unequal ill-formed strings that compare as equal |
| CodeUnits.LessTransitive | graphops/laws.go:299-318 | Code-unit order is transitive on all byte strings |
| CodeUnits.LessIrreflexive | graphops/laws.go:299-318 | No string is below itself |
| CodeUnits.Trichotomy | graphops/laws.go:299-318 | On valid UTF-8 exactly one of below, equal, above holds |
| CodeUnits.AsciiOrder | graphops/laws.go:299-318 | On ASCII, code-unit order is byte order |
| CodeUnits.OrdersDiffer | graphops/laws.go:299-318 | A concrete pair on which code-unit order and byte order disagree |
| ByteOrder.OrdersDisagree | graphops/laws.go:275-318 | On valid UTF-8 code-unit order and byte order disagree if and only if the first scalars that differ are a supplementary one and one in U+E000..U+FFFF |
| ByteOrder.EncodeOrder | graphops/laws.go:279-318 | Byte order of UTF-8 texts is decided by the scalar values at the first difference |
| ByteOrder.KeyOrder | graphops/laws.go:289-295 | The sort key orders scalars as numbers except for exactly those pairs |
| Numbers.NormalizeValue | graphops/laws.go:957-1017 | Dropping leading and trailing zeros and moving the point keeps the exact decimal value of every literal |
| Numbers.DecimalUnique | graphops/laws.go:957-1017 | Two normal forms of one value are equal |
| NumberText.ScanPrinted | graphops/laws.go:878-951 | Scanning a printed number reads back its normal form and stops where the number stops |
| NumberText.PrintDeterminesValue | graphops/laws.go:844-863 | Two literals print alike exactly when their exact decimal values are equal |
| NumberText.PrintIsNormalForm | graphops/laws.go:957-1017 | The printed spelling of a literal in range is scanned again, has the literal's value and prints as itself |
| NumberText.GuardAdmitsInRange | graphops/laws.go:918-929 | The early guard on the spelled exponent refuses no nonzero literal whose canonical exponent is within the bound |
| NumberText.AccumulationFits | graphops/laws.go:923-929 | Every exponent accumulated up to the guard fits in a signed 64-bit integer, for documents of up to 9 x 10^17 bytes |
| ExponentGuard.GuardMatters | graphops/laws.go:918-938 | Between two guards that leave room for the literal, the outcome differs if and only if the literal is an accepted zero spelled with an exponent beyond the lower guard |
| ExponentGuard.ZeroExponent | graphops/laws.go:922-938 | A zero spelled 0e and a number is accepted, as 0, if and only if the number is within 10^12 plus the length of its document |
| ExponentGuard.LengthDecidesZero | graphops/laws.go:922-938 | 0e1000000000020 is refused alone and accepted with five spaces behind it |
| Integers.CanonicalInteger | graphops/types.go:1180-1190 | Reading the canonical text of a number as a 64-bit integer succeeds if and only if its value is one, and yields that value |
| Notation.RangeMeans | graphops/laws.go:844-863 | A literal is in range if and only if it is zero or its magnitude lies from 10^-1000000000000 up to, not including, 10^1000000000001 |
| Notation.ExponentPrinted | graphops/laws.go:957-1017 | As in Number::toString an exponent is printed if and only if the magnitude is at least 10^21, or below 10^-6 and not zero |
| Notation.PrintedTidy | graphops/laws.go:957-1017 | No printed digit carries nothing, and with an exponent one nonzero digit stands before the point |
| Notation.LargePrinted | graphops/laws.go:957-1017 | 10^21 is printed 1e+21 |
| Notation.SmallPrinted | graphops/laws.go:957-1017 | -0.00000015 is printed -1.5e-7 |
| Scanner.AppendCanonicalNumber | graphops/laws.go:957-1017 | The digit-placing code prints the canonical spelling of the literal's normal form, or refuses exactly when the canonical exponent is out of range |
| Scanner.Accumulate | graphops/laws.go:924-929 | The exponent loop yields the number its digits spell, or refuses exactly when it exceeds the limit |
| Strings.CharsPrinted | graphops/laws.go:816-842 | Scanning the escaped form of any valid string gives the string back |
| Strings.CharsValid | graphops/laws.go:735-813 | Whatever escapes and raw bytes it holds, an accepted string is valid UTF-8 |
| Spellings.CharsExactly | graphops/laws.go:715-813 | A quoted text scans as a string if and only if it is cut into spellings of its characters as section 7 of RFC 8259 has them: raw, one of the eight short escapes, or the unicode escapes of its UTF-16 units |
| Spellings.SpellingReads | graphops/laws.go:735-813 | Every spelling of a character reads as that character, whatever follows |
| ShortestSpelling.PrintedShortest | graphops/laws.go:816-842 | No spelling of a string is shorter than its canonical text |
| ShortestSpelling.PrintedSpells | graphops/laws.go:816-842 | The canonical text spells the string |
| ShortestSpelling.CharacterShortest | graphops/laws.go:816-842 | A spelling of a character as short as the printed one is the printed one, up to the case of hexadecimal digits, which are printed in lower case |
| Scanner.AppendCanonicalString | graphops/laws.go:816-842 | The loop writes the string the printer defines |
| Sorting.SortAscending | graphops/laws.go:550-568 | Distinct keys come out strictly ascending by code unit |
| Sorting.AscendingUnique | graphops/laws.go:550-568 | The ascending member list is determined by the set of members |
| Scanner.JsonScanner.Str | graphops/laws.go:735-813 | The string method, which validates raw bytes segment by segment, accepts and returns what the pure string parser does, and ends where it ends |
| Scanner.JsonScanner.ScanUnicode | graphops/laws.go:781-802 | A unicode escape, with the trail surrogate it may need, is decoded as the pure parser decodes it |
| Scanner.JsonScanner.ScanNumber | graphops/laws.go:878-951 | A number is accepted and appended exactly as the pure number parser and printer say |
| Scanner.JsonScanner.Value | graphops/laws.go:510-535 | One value is accepted exactly when the pure parser accepts it, its canonical text is appended, and depth and path come back as they were |
| Scanner.JsonScanner.Array | graphops/laws.go:666-705 | The array method agrees with the pure parser and restores depth and path |
| Scanner.JsonScanner.Object | graphops/laws.go:550-568 | The object method agrees with the pure parser, appends sorted members, and restores depth and path |
| Scanner.JsonScanner.ObjectMembers | graphops/laws.go:574-629 | Members come back in source order, each value canonical, and a repeated key is refused |
| Scanner.CanonicalizeJson | graphops/laws.go:422-434 | The scanner is the pure parse followed by the print: same refusals, same bytes |
| JsonLaws.ParseWellFormed | graphops/laws.go:510-568 | An accepted document has distinct valid keys, valid strings, numbers in range and admitted, and bounded nesting |
| JsonLaws.SameValueSameText | graphops/laws.go:422-434 | Documents that denote one value have one canonical text |
| JsonLaws.CanonParses | graphops/laws.go:844-863 | The canonical text of every well-formed document is accepted within the same depth bound and denotes the same value |
| JsonLaws.CanonicalizeFixedPoint | graphops/laws.go:422-434 | Every canonical output is accepted again unchanged |
| JsonLaws.CanonicalizeIsEquality | graphops/laws.go:440-450 | Two accepted texts canonicalize to the same bytes if and only if they denote the same value: numbers by exact value, strings by scalars, arrays by position, objects as member sets |
| GrammarLaws.ParseExactly | graphops/laws.go:422-434 | A text is accepted as a document if and only if the grammar of RFC 8259 spells that document with it, keys are distinct, nesting and numbers are within bounds and the spelled exponents within the guard |
| GrammarLaws.SpellingsAgree | graphops/laws.go:440-450 | Two texts of the grammar have one canonical text if and only if the documents they spell denote one value |
| GrammarLaws.Unambiguous | graphops/laws.go:510-568 | The grammar spells at most one document with a text |
| GrammarLaws.DepthExactly | graphops/laws.go:394-399 | n nested arrays are accepted if and only if n is at most 10000 |
| GrammarLaws.NumberAccepted | graphops/laws.go:878-951 | A number alone is accepted if and only if its magnitude is in range, its value is admitted outside exact mode, and its exponent is within the guard of its length |
| CanonicalWalk.CanonicalObjectMembers | graphops/laws.go:638-642 | On the canonical text of any object the walk cannot fail and yields its members in code-unit order with their canonical texts |
| CanonicalWalk.CanonicalArrayValues | graphops/laws.go:646-657 | On the canonical text of any array the walk cannot fail or run off the text, and yields the elements' canonical texts in order |
| CanonicalWalk.CanonicalStringValue | graphops/laws.go:660-664 | On the canonical text of any valid string the walk cannot fail and yields the string |
| Segments.DecodeEncoded | graphops/laws.go:123-161 | Decoding inverts encoding on every byte string |
| Segments.CanonicalIsImage | graphops/laws.go:170-197 | The segment test accepts exactly the encoder's image over admissible values |
| Segments.CanonicalSegmentOf | graphops/laws.go:123-137 | The encoding loop computes the encoder that decoding inverts |
| Segments.DecodeSegmentOf | graphops/laws.go:141-161 | The decoding loop computes the decoder, refusing incomplete and malformed escapes |
| Segments.ValidateCanonicalSegment | graphops/laws.go:170-197 | The validator's answer is the segment test |
| Segments.CanonicalBytes | graphops/laws.go:84-94 | A canonical segment is nonempty ASCII, free of slash, query and fragment marks |
| Characters.SegmentSpelling | graphops/laws.go:84-137 | A segment spells the path characters of section 3.3 of RFC 3986 as themselves and every other byte as an upper-case escape |
| Characters.SpelledAsItself | graphops/laws.go:84-137 | A segment is spelled as it is if and only if all of it are path characters |
| Characters.ForbiddenInIds | graphops/laws.go:170-197 | The values an ID segment may not contain are the controls and the path separators |
| Characters.MaskedCharacters | graphops/generated_resource_id.go:44-62 | A generated ID takes the low five bits of each entropy byte, as letters a to z and digits 2 to 7 |
| Characters.EscapeSpelling | graphops/laws.go:98-103 | A normalised escape is the byte itself if it is unreserved, and an upper-case escape otherwise |
| Characters.UriCharacters | graphops/laws.go:1726-1768 | The characters of a URI are the unreserved, the reserved and the percent sign |
| Characters.SchemeCharacters | graphops/laws.go:1123-1136 | A scheme is a letter, then letters, digits, plus, minus and dot |
| Characters.ForbiddenInDomains | graphops/laws.go:1256-1269 | The forbidden domain code points of the URL standard |
| Characters.LabelCharacters | graphops/laws.go:1329-1339 | Host labels are lowercase letters, digits, hyphen and underscore |
| Characters.LowerCase | graphops/laws.go:1310-1319 | Exactly the letters A to Z are lowered |
| Characters.UrlCharacters | graphops/laws.go:1534-1597 | The characters the URL laws refuse anywhere, in a path and in a query |
| Characters.CompleteMeans | graphops/laws.go:1491-1507 | Escapes are complete if and only if two hexadecimal digits stand behind every percent sign |
| Characters.AbsoluteExactly | graphops/laws.go:1743-1768 | An absolute URI is a scheme and a colon, characters of a URI, and complete escapes |
| ResourceIds.ValidateCanonicalResourceId | graphops/resource_identity.go:14-31 | The loop that cuts segments off accepts exactly the texts all of whose segments are canonical |
| ResourceIds.IdBytes | graphops/resource_identity.go:15-17 | No canonical ID holds a query or fragment mark, so that check refuses nothing the grammar admits |
| ResourceIds.MountCanonical | graphops/resource_identity.go:68-79 | root/id is canonical if and only if root and id both are |
| ResourceIds.MountCanonicalResourceId | graphops/resource_identity.go:68-79 | Mounting succeeds exactly for a canonical ID and an absent or canonical root, and its result is canonical |
| ResourceIds.GeneratedResourceIdCandidate | graphops/generated_resource_id.go:44-62 | It succeeds exactly for a length within bounds, a valid root and enough entropy; every candidate is canonical and fits 1024 bytes with its 6-byte prefix |
| ResourceIds.MaskInPlace | graphops/generated_resource_id.go:44-62 | The masking loop overwrites each entropy byte with its alphabet character, which is always alphanumeric |
| ResourceIds.ValidateGeneratedRoot | graphops/generated_resource_id.go:22-33 | A root is accepted exactly when it is absent or canonical and within the length budget |
| RootedPaths.RootedMeans | graphops/laws.go:199-213 | A path is valid under a root if and only if it is the root, a slash and a canonical ID |
| RootedPaths.SplitCanonicalInverse | graphops/laws.go:244-263 | Splitting a Resource URL yields a path and kind exactly when the URL is the Scope URL followed by that path, valid for that kind |
| UrlText.CutFirst | graphops/laws.go:1138-1186 | Cutting at the first mark: the pieces rejoin, and none before it holds the mark |
| UrlText.CutLast | graphops/laws.go:1138-1186 | Cutting at the last mark: the pieces rejoin, and none after it holds the mark |
| UrlText.UrlRejoins | graphops/laws.go:1138-1186 | A URL without credentials is put back exactly by joining the parts it was split into, in every authority, port, query and fragment case |
| UrlText.SplitJoined | graphops/laws.go:1138-1186 | Joining a scheme, an authority and a tail and splitting again gives those three texts |
| UrlText.SplitAppended | graphops/laws.go:1138-1186 | Appending text without query or fragment marks to a URL that ends in its path extends the path and nothing else |
| Ipv4.ParseIpv4Number | graphops/laws.go:1365-1391 | A label is read as the value of its digits in its radix, refused exactly when a digit does not fit the radix or the value exceeds 2^40; the accumulator stays within 64 bits |
| Ipv4.AddressBytes | graphops/laws.go:1393-1429 | Every part but the last is one byte of the 32-bit address and the last part is the bytes that remain |
| Ipv4.ParseIpv4Host | graphops/laws.go:1399-1429 | Every accepted one- to four-part spelling becomes the dotted decimal of its address |
| Ipv4.DottedAddress | graphops/laws.go:1399-1429 | Dotted decimal spells its own address, for every 32-bit address |
| Ipv4.OneSpelling | graphops/laws.go:1399-1429 | Two accepted spellings normalise alike if and only if they spell one address |
| Ipv4.CapExactly | graphops/laws.go:1343-1391 | For every host, the ends-in-a-number test agrees with the test without the cap if and only if the last label is not a hexadecimal number above 2^40 |
| Ipv4Spellings.NumbersSpelled | graphops/laws.go:1360-1391 | Every number up to 2^40, and none above, is read from its decimal digits, from a zero and its octal digits, and from 0x and its hexadecimal digits |
| Ipv4Spellings.NotOctal | graphops/laws.go:1365-1391 | With a leading zero the digits 8 and 9 make a label no number |
| Ipv4Spellings.DottedNumbers | graphops/laws.go:1393-1429 | Decimal numbers joined by dots spell an address if and only if they are one to four, all but the last below 256 and the last within the bytes that remain; the address is theirs in base 256 |
| Hosts.LargeHexIsName | graphops/laws.go:1321-1391 | A host ending in a hexadecimal number is kept as it is if and only if that number exceeds 2^40 and the host is a registered name; above 2^40 it is kept or refused, up to 2^40 it is its address or refused |
| Hosts.LargeHexExample | graphops/laws.go:1386-1388 | 0x10000000001 is no number, and alone, behind another label or before a trailing dot it is kept as a name |
| Ipv6.FindRun | graphops/laws.go:1451-1465 | The jumping scan finds the first longest run of two or more zero pieces, or that there is none |
| Ipv6.Compression | graphops/laws.go:1451-1465 | Every address has such a run or none, and CompressionUnique shows there is only one answer |
| Ipv6.CompressionUnique | graphops/laws.go:1451-1465 | The run to compress is unique |
| Ipv6.SerializeIpv6 | graphops/laws.go:1445-1488 | The writing loop, with its zero-skipping flag, writes the pieces around the run joined by colons |
| Ipv6.TextReadsBack | graphops/laws.go:1445-1488 | The pieces are recovered from the text, so nothing is lost in compression |
| Ipv6.SerializedInjective | graphops/laws.go:1445-1488 | Two eight-piece addresses have one text if and only if they are equal |
| Ipv6.HexTextShort | graphops/laws.go:1470-1485 | A piece of 16 bits is written with at most four digits |
| Hosts.NormalizeHost | graphops/laws.go:1297-1342 | The host loops compute the serialization: bracketed IPv6, IPv4 when the host ends in a number, else a checked registered name |
| Hosts.NormalHostText | graphops/laws.go:1297-1342 | A serialization is a nonempty name over lowercase letters, digits, hyphen, underscore and dot, or a bracketed hexadecimal address |
| Hosts.NormalHostAgain | graphops/laws.go:1297-1342 | A normalised host normalises to itself; for a bracketed host, given that the address parser reads serialized addresses back |
| Hosts.ReadAddressInverts | graphops/laws.go:1433-1439 | Such a parser exists: reading the text back piece by piece is one |
| Ports.NormalizePort | graphops/laws.go:1236-1254 | Trimming zeros and comparing digit texts decides by the port's number: at most 65535, its decimal text, nothing for the default |
| Ports.Judge | graphops/laws.go:1247-1249 | The length-and-text comparison against 65535 is the numeric comparison |
| DefaultPorts.DroppedExactly | graphops/laws.go:1226-1254 | A port is no port at all if and only if it is empty, or digits of value 443 under https or 80 under http |
| DefaultPorts.PortExactly | graphops/laws.go:1236-1254 | A port is refused if and only if it is spelled and is not digits of a number up to 65535; any other is kept in decimal |
| DefaultPorts.DefaultPortNormal | graphops/laws.go:1683-1724 | A URL that spells its scheme's port normalises as the one without it |
| DefaultPorts.DefaultPortRefused | graphops/laws.go:1824-1852 | A Scope's own URL with the scheme's port spelled out is refused as a reference, never external |
| Escapes.CompleteEscapes | graphops/laws.go:1491-1507 | The loop accepts exactly the texts in which every percent sign begins an escape |
| Escapes.CanonicalPathEscapes | graphops/laws.go:1511-1528 | On complete escapes the loop reads in range and accepts exactly uppercase escapes of reserved bytes |
| Escapes.CanonicalIsNormal | graphops/laws.go:1511-1528 | A text with complete escapes has canonical escapes if and only if escape normalisation leaves it as it is |
| Escapes.NormalizeEscapes | graphops/laws.go:1772-1797 | The loop computes the normaliser the idempotence results are about |
| Escapes.IdempotentWhenSettled | graphops/laws.go:1772-1797 | Normalising escapes is idempotent if and only if no stray percent sign of the input stands before two tokens that spell a lowercase digit pair or an unreserved byte |
| Escapes.IdempotentWhenComplete | graphops/laws.go:1772-1797 | It is idempotent on every text whose escapes are complete |
| Escapes.NotIdempotent | graphops/laws.go:1772-1797 | A text with a stray percent sign that a second pass changes |
| DotSegments.RemoveDotSegments | graphops/laws.go:1800-1822 | The loop computes the removal the two laws below are about |
| DotSegments.RemovesAsRfc | graphops/laws.go:1800-1822 | On every absolute path the result is that of the algorithm in section 5.2.4 of RFC 3986, stated on texts |
| DotSegments.WithoutDotsIdempotent | graphops/laws.go:1800-1822 | Removing dot segments is idempotent on every path |
| ScopeUrls.CanonicalOrigin | graphops/laws.go:1534-1597 | The origin of an accepted URL is its spelled scheme, host and port |
| ScopeUrls.PersistedIsNormal | graphops/laws.go:1657-1724 | Every URL that may be persisted is its own normal form |
| ScopeUrls.NormalisedOnce | graphops/laws.go:1683-1724 | Normalising a Scope URL is idempotent |
| ScopeUrls.RebuiltSplits | graphops/laws.go:1702-1719 | The URL rebuilt from an origin splits into exactly that origin's scheme, host and port |
| ScopeUrls.NormalisedKeepsOrigin | graphops/laws.go:1683-1724 | The normal form has the same normalised origin as the configured URL |
| ScopeUrls.RegisteredRoot | graphops/laws.go:1622-1666 | The root URL of every registered name is accepted as a persisted Scope URL |
| ScopeLaws.NormalFormExactly | graphops/laws.go:1683-1724 | A Scope URL is accepted if and only if it has no credentials, query and fragment, has an origin, and its origin followed by its path with a slash at the end may be persisted; that text is its normal form |
| ScopeLaws.CanonicalExactly | graphops/laws.go:1534-1597 | A URL is canonical if and only if its bytes are printable, its escapes complete, it has no credentials and fragment, and it is the text of its own origin, an undisturbed path and a clean query |
| ScopeLaws.UndisturbedExactly | graphops/laws.go:1577-1593 | A path is left alone if and only if its escapes are spelled as the normaliser spells them, removing dot segments changes nothing, and no character would be escaped |
| References.IsAbsoluteUri | graphops/laws.go:1743-1768 | The one-pass check accepts exactly a scheme, URI characters and complete escapes |
| References.OwnUrlClaims | graphops/laws.go:1833-1852 | The URL of every canonical ID claims its Scope after origin, escape and dot-segment normalisation |
| References.OwnUrlIsAbsolute | graphops/laws.go:1743-1768 | The URL of every canonical ID is an absolute URI |
| References.LocalIdInverse | graphops/resource_identity.go:38-62 | Composing a Resource URL and reading the local ID back are inverse to each other |
| References.InScopeExactly | graphops/types.go:325-346 | An absolute reference parses to an in-Scope ID if and only if it is the Scope URL followed by that canonical ID |
| References.OwnUrlRoundTrip | graphops/types.go:325-374 | The URL of a canonical ID parses to the ID and renders back |
| References.OtherwiseRefusedOrExternal | graphops/types.go:338-345 | Any other absolute reference is refused when it claims the Scope and kept byte for byte when it does not |
| References.NoSpellingSlipsPast | graphops/laws.go:1824-1852 | A reference with the Scope's origin whose path (absent meaning the root), normalised as RFC 3986 says, lies under the Scope's is the canonical spelling of an ID or refused, never external |
| References.LocalReference | graphops/types.go:335-337 | A canonical ID parses to itself if and only if it does not begin with a scheme and a colon |
| References.UriShapedId | graphops/types.go:335-337 | a:b is a canonical ID that begins with a scheme and a colon |
| ReferenceLaws.Classified | graphops/types.go:325-346 | What every reference parses to: which are refused, which are local IDs, which are in the Scope, and that all others are external byte for byte |
| ReferenceLaws.ClaimsMeans | graphops/laws.go:1824-1852 | A reference claims the Scope if and only if it has the Scope's origin and its normalised path lies under the Scope's |
| ReferenceLaws.CredentialsRefused | graphops/laws.go:1824-1852 | A Scope's own URL with any credentials before its host is refused as a reference, never external |
| ReferenceLaws.CredentialsCut | graphops/laws.go:1138-1186 | Whatever stands before the last at sign of an authority is credentials |
| JsonFields.TextDetermines | graphops/laws.go:1939-1958 | Objects over one list of member names with one canonical text agree in every member, present or absent |
| Ledger.BytesDetermine | graphops/laws.go:1939-1958 | Two admitted events have the same hashed bytes if and only if they agree in every member, the instant to the microsecond |
| Ledger.AnyEncoding | graphops/laws.go:1939-1958 | However the encoder spells the wire object, canonicalizing it exactly gives the hashed bytes |
| Ledger.AdmittedTexts | graphops/laws.go:1889-1894 | Every text of an admitted event is valid UTF-8 by its own grammar |
| Ledger.GenuineMeans | graphops/types.go:1548-1625 | A constructed event carries the hash of its own bytes and a number within bounds |
| Admission.AdmittedExactly | graphops/types.go:1522-1625 | An event is admitted if and only if its kind is one of the eight, the common members are well formed, a Scope URL is present exactly for mint, rotate and refuse_url, path and resource kind exactly for update, allocate and tombstone, a fingerprint exactly for install, a state exactly for tombstone, a revision always for update and otherwise only for allocate and tombstone, each in its grammar, and a hash it brings is that of its bytes |
| Admission.PathsAre | graphops/laws.go:215-241 | A Bead's path is a canonical ID under beads, a Link's one under links |
| Admission.PersistedMeans | graphops/laws.go:1657-1666 | A Scope URL may be persisted if and only if its path does not begin with local-test |
| Admission.WireObject | graphops/laws.go:1939-1958 | The hashed bytes are the canonical text of the wire object |
| Admission.WireTexts | graphops/laws.go:1939-1958 | The object holds the texts every event carries under their own names, the instant to the microsecond |
| Admission.WireCounters | graphops/laws.go:1939-1958 | It holds the epoch and the sequence number as numbers |
| Admission.WireOptionals | graphops/laws.go:1939-1958 | It holds every optional text that is not absent under its own name, and no member for an absent one |
| Ledger.StoredReadmitted | graphops/types.go:1548-1625 | A constructed event is admitted again unchanged if and only if its instant is not within the first microsecond after the zero time |
| Ledger.FirstInstantLost | graphops/types.go:1548-1625 | A promote event one nanosecond after the zero time is admitted and not admitted again |
| Ledger.TamperedRefused | graphops/types.go:1543-1547 | A stored row that differs in any hashed member is refused unless the hash collides on the two |
| Ledger.VerifyLedgerChain | graphops/laws.go:1967-1986 | The loop accepts exactly the chains that start from a hash, link event by event and count up by one within bounds |
| Ledger.SequenceRuns | graphops/laws.go:1967-1986 | In a verified chain the i-th number is the first plus i and never wraps |
| Ledger.ChainsConcatenate | graphops/laws.go:1967-1986 | A concatenation verifies if and only if both halves do, the second from the head of the first, with adjacent numbers |
| Ledger.ZeroNeverLinks | graphops/laws.go:1960-1966 | No value that a constructor did not build occurs in a verified chain |
| Ledger.HeadDetermines | graphops/laws.go:1967-1986 | Two verified chains of one length from one hash that end in one hash are equal |
| Ledger.ManifestDetermines | graphops/types.go:1772-1799 | A manifest determines the events it covers |
| Ledger.ManifestRange | graphops/types.go:1772-1799 | The covered events are numbered exactly from the manifest's first to its last number |
| Admission.CoversMeans | graphops/types.go:1765-1799 | A manifest covers exactly the events that fill its range, verify from its link to its head and, from sixty-four zeros on, begin with the mint event whose hash is its lineage |
| Admission.LineageMeans | graphops/types.go:1680-1690 | Histories from the beginning whose manifests name one lineage begin with the same event, which minted the Scope's URL |
| Admission.CoveringIsValid | graphops/types.go:1715-1743 | A manifest that covers constructed events is valid if and only if its URL may be persisted and its lineage is hexadecimal |
| Records.CheckBeadRecord | graphops/types.go:1864-1927 | The one-pass merge accepts a record if and only if the declarative law holds: order, one group per explicit Type, nonempty wildcard groups, types, sources, both bounds |
| Records.CheckGroup | graphops/types.go:1885-1908 | A group that fails a check breaks the law, and one that passes extends the merge by exactly the declaration it meets |
| Records.NoGroup | graphops/types.go:1891-1895 | An unmet declaration below the next group has no group at all |
| Records.NotBelow | graphops/types.go:1896-1904 | A group's Type is explicit if and only if it is the next unmet declaration's |
| Records.Owns | graphops/types.go:1286-1300 | It returns the explicit declaration of a Type, else the wildcard, and nothing exactly when neither owns the Type |
| Records.AcceptedIsOwned | graphops/types.go:1286-1300 | Every group of an accepted record is owned, and holds no more Links than its owning declaration allows |
| RecordLaws.LawfulExactly | graphops/types.go:1833-1844 | The law of the check is that Types and paths ascend pairwise, every link is its group's and leaves the Bead, every declared Type has a group, any other group is nonempty and under a wildcard, and no declaration bounds fewer links than it covers |
| Descriptors.TypeUrlList | graphops/types.go:1218-1233 | The loop returns the sorted list exactly when every entry is a Type URL and none repeats |
| Descriptors.UrlListNormal | graphops/types.go:1218-1233 | A returned list is returned unchanged when given again |
| Descriptors.UrlListOrder | graphops/types.go:1214-1233 | Permuting the authored list changes nothing |
| Descriptors.TestOwns | graphops/types.go:890-911 | The two loops over the sorted declarations compute the constructor's test |
| Descriptors.WildcardFirst | graphops/types.go:900-903 | Among sorted constructed declarations only the first can be the wildcard |
| Descriptors.TestIsLaw | graphops/types.go:885-911 | Testing equal neighbours and the first entry is equivalent to the law on all pairs: one declaration per key, no explicit bound above the wildcard's |
| Descriptors.OwnsListOrder | graphops/types.go:885-911 | Permuting the authored declarations changes nothing |
| TypeDescriptors.DescriptorRoundTrip | graphops/types.go:1036-1115 | Parsing a descriptor's canonical JSON gives back the same descriptor, fingerprint included; ParseDescriptor below is that parser on bytes |
| DescriptorParser.ParseDescriptor | graphops/types.go:1036-1115 | Canonicalizing, walking the canonical bytes member by member and constructing is the parser of the round trip: same descriptors, same refusals |
| DescriptorParser.CollectMembers | graphops/types.go:1049-1062 | The member loop, which looks at names and first bytes, accepts exactly known names with values of their kinds |
| DescriptorParser.ParseEndpoint | graphops/types.go:1130-1163 | Reading an endpoint constraint's bytes gives what the denoted object means |
| DescriptorParser.ParseDecl | graphops/types.go:1168-1212 | Reading a declaration's bytes, its max as an integer text, gives what the denoted object means |
| DescriptorParser.ReadUrls | graphops/types.go:1119-1128 | Reading an array's bytes gives its strings, or refuses exactly when an element is not a string |
| DescriptorParser.FirstByte | graphops/types.go:992-1004 | The first byte of a canonical text tells the kind of its value |
| DescriptorParser.BuildDescriptor | graphops/types.go:839-919 | The constructor's loops over parents and declarations build the descriptor the laws below are about |
| TypeDescriptors.OrderIndependent | graphops/types.go:839-991 | Descriptor, canonical bytes and fingerprint do not depend on the order of conformsTo or ownsOutgoing |
| TypeDescriptors.FingerprintDetermines | graphops/types.go:914-919 | A descriptor's fingerprint is the hash of its canonical bytes, and unless the hash collides two descriptors share it if and only if they are equal |
| TypeDescriptors.CanonicalDetermines | graphops/types.go:914-919 | Canonical bytes determine the descriptor |
| DescriptorLaws.AcceptedExactly | graphops/types.go:829-919 | A descriptor exists if and only if its specification meets the laws, each written out |
| DescriptorLaws.HeldExactly | graphops/types.go:839-919 | It holds the specification's members, parents and declarations in code-unit order |
| DescriptorLaws.EndpointExactly | graphops/types.go:618-627 | An endpoint constraint is distinct Type URLs and one of the three policies or none |
| DescriptorLaws.DeclExactly | graphops/types.go:690-765 | A declaration has a positive 64-bit bound the number law admits, under a Type URL with a valid label or under the wildcard without one |
| DescriptorLaws.TypeUrlExactly | graphops/laws.go:1602-1618 | The Type URLs are the canonical URLs |
| DescriptorLaws.ParsedIsClosed | graphops/types.go:1036-1115 | Whatever parses has the closed shape: the required members, no unknown one, no empty text, object or label, and no endpoints on a Bead |
| TypeDescriptors.WholeSetBound | graphops/types.go:839-919 | In a built descriptor no explicit bound exceeds the wildcard's, and its declarations meet the record check's precondition |
| TypeDescriptors.SpecReadBack | graphops/types.go:968-1115 | Reading the wire object member by member gives back every member of the specification |
| TypeDescriptors.EndpointReadBack | graphops/types.go:1130-1163 | An endpoint constraint's wire object reads back as the constraint |
| TypeDescriptors.DeclReadBack | graphops/types.go:1168-1212 | A declaration's wire entry reads back as the declaration, label and bound included |
| Molecules.CloseKeepsBlockers | issueops/molecule.go:388-420 | Closing a step never gives a dependency new blockers, under both gates |
| Molecules.ReadyMeans | issueops/molecule.go:388-439 | A node is ready if and only if it is open or in progress and no edge of its own holds it back: a blocking edge while its target is not closed, an all-children gate while some child is not closed, an any-children gate while some child is not closed and none is |
| Molecules.BlockedByMeans | issueops/molecule.go:388-420 | The recorded blockers are the targets of blocking edges, closed or not, and the live children behind gates that hold back |
| Molecules.HoldsBackMeans | issueops/molecule.go:388-420 | An edge holds its issue back if and only if it names a live node |
| Molecules.CloseKeepsReady | issueops/molecule.go:368-439 | Closing any step never makes another ready step unready |
| Molecules.CloseShrinksWaiting | issueops/molecule.go:388-439 | Closing a step only removes waiting edges |
| Molecules.SomethingIsReady | issueops/molecule.go:422-439 | If unclosed nodes are open or in progress and waiting is acyclic, some unclosed node is ready |
| Molecules.RunCounts | issueops/molecule.go:368-439 | Every run of closing ready nodes closes exactly one node a step |
| Molecules.RunWellFormed | issueops/molecule.go:368-439 | Every state of a run is again a molecule the analysis accepts |
| Molecules.RunsComplete | issueops/molecule.go:368-439 | Under those conditions no run exceeds the number of unclosed nodes, a run of that length closes everything, and a shorter one can be continued |
| Depths.DepthTable.DepthOf | issueops/molecule.go:526-542 | The memoised recursion terminates on cycles and its result and new tables are the function DepthRuns.Visit of the tables and the order of the blockers |
| Depths.BlockingDepths | issueops/molecule.go:522-547 | For every order of the blockers: every node gets a depth of at most the number of nodes, never that of an open blocker other than itself; when waiting is acyclic it is 0 without open blockers and one more than the deepest otherwise |
| Depths.InOrderExact | issueops/molecule.go:520-547 | When waiting is acyclic, the run in any order gives every node its depth |
| DepthRuns.DepthsBounded | issueops/molecule.go:526-546 | On any graph and in any order no depth exceeds the number of nodes |
| DepthRuns.NeverLevel | issueops/molecule.go:526-546 | On any graph, cyclic or not, and in any order, no node gets the depth of an open blocker other than itself |
| DepthRuns.VisitSound | issueops/molecule.go:526-542 | The invariant behind it: open blockers of completed nodes have been entered and lie at other depths, and what a call completes lies at most at its result |
| DepthCycles.OrderMatters | issueops/molecule.go:534-538 | A cyclic molecule whose depths depend on the order in which blockers come up |
| DepthCycles.ForkDepths | issueops/molecule.go:520-547 | On a cycle through a, b and c that is entered at a, b and c share a depth |
| Depths.DepthUnique | issueops/molecule.go:520-547 | The depth equations have one solution, so on acyclic molecules map order does not matter |
| Depths.DepthsExist | issueops/molecule.go:520-547 | Depths as promised exist if and only if waiting is acyclic |
| Depths.TwoCycleHasNone | issueops/molecule.go:520-547 | Two nodes that block each other have no such depths |
| UnionFind.Forest.Find | issueops/molecule.go:473-479 | Path halving terminates, returns the root, and keeps the root of every node |
| UnionFind.Forest.Union | issueops/molecule.go:483-485 | Linking two roots merges exactly their two trees |
| Parallel.UniteSteps | issueops/molecule.go:480-488 | After uniting, two steps share a root if and only if they are connected by independent pairs |
| Parallel.Collect | issueops/molecule.go:489-497 | Steps are gathered by root, in order, each root once |
| Parallel.GroupParallelSteps | issueops/molecule.go:465-518 | Every component of two or more is named, each member's partners are the component minus itself, others stay ungrouped, earlier groups are kept, and every new group is some step's |
| Parallel.CliqueExactly | issueops/molecule.go:480-488 | The members of every group are independent in pairs if and only if no step is independent of two others that are not independent of each other |
| Analyze.BlockingMaps | issueops/molecule.go:376-420 | The two maps hold exactly the blockers of each node and the nodes each blocks |
| Analyze.ReadySteps | issueops/molecule.go:422-439 | A node is reported ready exactly when it is open or in progress with no open blocker, and the count is the number of ready nodes |
| Analyze.BlocksInverse | issueops/molecule.go:388-420 | Blocking seen from the two ends is one relation |
| Analyze.AnalyzeMolecule | issueops/molecule.go:368-451 | The whole analysis: the open blockers and ready steps in terms of statuses and edges, depths that some order of the blockers gives, and groups that are exactly the components of independence at each depth |
| Analyze.PartnersAre | issueops/molecule.go:480-488 | A node's group is the nodes of its depth connected through pairs neither of which is recorded as blocking the other |
| Analyze.PartnersDoNotWait | issueops/molecule.go:441-450 | In an acyclic molecule no member of a group waits, directly or through open blockers, on another |
| PartnerLaws.PartnersNotDirect | issueops/molecule.go:441-450 | In any molecule, cyclic or not, no member of a group waits directly on another |
| PartnerLaws.PartnersOnCycle | issueops/molecule.go:441-450 | A cyclic molecule in which one member of a group waits on another through a chain |
| PartnerLaws.UnrelatedExactly | issueops/molecule.go:441-488 | Members of a group are never recorded as blocking each other if and only if no three nodes of one depth have the outer two so recorded and the middle one unrelated to both |
| PartnerLaws.LevelBlockerIsClosed | issueops/molecule.go:441-450 | A recorded blocker at its node's own depth is closed |
| PartnerLaws.NotAClique | issueops/molecule.go:480-488 | A molecule with its depths in which a step shares a group with its recorded, closed blocker |
| Analyze.BucketsPartition | issueops/molecule.go:441-450 | Every node is in exactly one of the buckets the grouping loop visits, cyclic or not |
| Loading.LoadMolecule | issueops/molecule.go:274-310 | It loads the root and its descendants in visiting order with exactly the edges among them, and nothing exactly when the root is missing |
| Loading.LoadChildren | issueops/molecule.go:312-339 | The recursive loader terminates on parent-child cycles and appends the visit of what is not loaded yet |
| Loading.LoadedExactly | issueops/molecule.go:274-339 | The loaded nodes are exactly those reachable by parent-child edges, each once |
| Loading.ParenthoodMeans | issueops/molecule.go:312-339 | A node's steps are the rows its parent-child edges name |
| Loading.EdgesExactly | issueops/molecule.go:274-310 | The edges of a molecule are those its nodes record whose targets are nodes too |
| Loading.LoadedPreOrder | issueops/molecule.go:312-339 | Behind each loaded node stand exactly the nodes reachable from it past those loaded before it: depth-first pre-order |
| Loading.LoadedIsMolecule | issueops/molecule.go:274-310 | Every loaded graph is a molecule the analysis accepts |
| Loading.MoleculeStepsClosed | issueops/molecule.go:773-805 | The early-exit worklist terminates on cycles and answers whether every reachable descendant is closed |
| Views.ViewMolecule | issueops/molecule.go:591-600 | Loading, analysing and viewing: the view shows the analysis's ready nodes, and is complete exactly when every reachable descendant is closed, as MoleculeStepsClosed answers |
| Views.MoleculeViewOf | issueops/molecule.go:603-665 | One state per step in showing order, the number of closed steps, the last current and first ready step, and the ready rows in molecule order |
| Views.StateMeans | issueops/molecule.go:603-636 | A step is done if closed, current if in progress, blocked if its status says so, ready if open and no edge holds it back, and pending otherwise |
| Views.NextMeans | issueops/molecule.go:603-636 | The next step is the first that is ready |
| Views.CurrentMeans | issueops/molecule.go:603-636 | The current step is the last in progress |
| Views.StepsInOrder | issueops/molecule.go:603-636 | Steps keep the molecule's order |
| Views.RowsInOrder | issueops/molecule.go:603-610 | Ready rows keep the molecule's order |
| Views.WaitCountMeans | issueops/molecule.go:651-661 | A step waits on as many steps as there are blocking edges from it among the steps |
| Views.CompleteMeans | issueops/molecule.go:590-591 | The closed steps number at least the total exactly when every step is closed |
| Views.ShowingOrder | issueops/molecule.go:651-665 | The showing order permutes the steps, puts those that wait on fewer steps first, and keeps molecule order among equals |
| Views.CountWaits | issueops/molecule.go:651-661 | The counting loop yields, for each node, the blocking edges among steps it waits on |
| Roots.TopOf | issueops/molecule.go:160-182 | The level-by-level batched walk gives each id the top of its own parent chain, cut off at 50 |
| Roots.ClimbToTop | issueops/molecule.go:160-182 | A chain that ends within the bound is climbed to its end |
| Roots.ClimbCutOff | issueops/molecule.go:160-182 | A longer or cyclic chain stops at the ancestor at the bound |
| Roots.GetIssues | issueops/molecule.go:227-242 | Reading rows in bounded batches equals reading each id |
| Roots.ParentChildParents | issueops/molecule.go:208-223 | The batch read gives each id its first parent-child parent |
| Roots.FirstParentMeans | issueops/molecule.go:208-223 | A parent is the target of the first parent-child edge |
| Roots.RootMeans | issueops/molecule.go:89-99 | A row is no molecule root if and only if it is neither epic nor molecule and has no template label |
| Roots.StaysOpen | issueops/molecule.go:101-113 | The molecule roots that stay open when complete are the epics without the template label and the other rows that are roots by that label alone, unless ephemeral |
| Roots.MoleculeRootRows | issueops/molecule.go:152-195 | An id has a root row exactly when the top of its chain is stored and is a molecule root |
| Roots.CompletedMolecule | issueops/molecule.go:732-746 | It returns the root exactly when it is an unclosed auto-closing root all of whose steps are closed |
| BlockedFlags.BlockedFlags | issueops/blockingannotator.go:197-231 | The batched read equals the pointwise flag map over the requested nonblank ids, whatever is answered about others, and fails exactly when one of its requests fails |
| BlockedFlags.RequestsAreClean | issueops/blockingannotator.go:197-231 | The requests together name each nonblank id once, and each holds between 1 and 100 ids |
| BlockedFlags.ChunksCover | issueops/blockingannotator.go:210-231 | Chunks concatenate to the list whatever the boundaries |

## Left out

- Error values and messages, JSON pointers in diagnostics, and abbreviated literals: every refusal is one `None`. The scanner's path field is modelled, and restored, but not rendered.
- Library code: binary64 parsing and formatting, the IPv6 address parser, SHA-256, `encoding/json`, the random source of generated IDs and minted tokens, and time zones.
- Scanner.JsonScanner.Value: says nothing about depth and path after a refusal, because a refused scanner is discarded.
- Descriptors and ledger specifications are assumed to hold values of their field types: constructed or zero declarations, constructed or zero endpoint constraints, 64-bit counters, a revision of valid UTF-8.
- Hosts.NormalHost and ScopeUrls state the validators as predicates; their order of checks, which decides only the error message, is not modelled.
- Analyze.AnalyzeMolecule: the sorted order of the BlockedBy, Blocks and CanParallel lists is not modelled; they are sets.
- Roots.DistinctValues: the sorted order of the batched request is not modelled.
- Roots.GetMany and BlockedFlags.Annotator stand for roles; only the answers their contracts promise are used. An annotator that misreports an id it was asked for is outside the model.
- The metadata text of a waits-for edge: the gate is a field of the edge.
- Molecule progress, the auto-close refusal and the close request: thin compositions over members modelled here.
- Beads, Links, attributions, scope identities, pages and cursors: records with accessors, which would add only easy members.
- Role contracts without bodies, opening and gating of stores, backend registration, formatting, export and search.
- Blocked-state propagation: the engine is not part of this model.
