# cidr2hcmask in Dafny

A model of the core of `cidr2hcmask`, a Go library that turns an IPv4 network written in CIDR notation (`192.168.1.0/28`) into a Hashcat mask file. Each line of that file is a mask: up to four charset declarations separated by commas, then a pattern in which `?d` stands for any digit and `?1`..`?4` stand for any character of the corresponding declaration. The masks of a network together spell out every address of the network exactly once.

The model follows the structure of the Go code:

- `Decimal`: the decimal text of a number (`strconv.Itoa`), its value, and the parser of 8-bit decimals (`strconv.ParseUint(s, 10, 8)`).
- `HCMask`: the mask expander the repository's tests use (`HCMaskExpand`, `hcmaskExpandRec`). Masks are split on commas, the pattern is tokenized into literals and charset classes, and the result is the product of the classes. This is the meaning every other module is measured against.
- `Byte`: the per-byte table of `byte.go` (`rangesMask` with `index`, `lookup` and `insert`; `insertRange`; `insertRangesTen`; `init`) and the function `lookup(start, end)`, which covers a byte interval with patterns.
  - `ByteSeed` proves that `init` never panics and builds a closed-form table, `SeedTable`.
  - `ByteCoverage` and `ByteLookup` prove what `lookup` expands to.
- `Cidr`: `IPv4Net`, its `String` form and `ParseCIDR` with both of its errors.
- `Assemble`: `cidr2hcmask`, which chooses the patterns of each octet; `expand`/`expandRec`, which assemble one mask per choice; and `CIDR2HCMask`, which collects them.
  - `MaskMeaning`, `OctetCover` and `Network` prove that the masks of a network denote exactly its addresses.
- `Compact`: `CompactMask`, which drops unreferenced declarations and renumbers the references that remain.
  - `CompactMeaning` characterises it.
  - `CompactSound` proves that it never lengthens a mask and that, on escape-free masks, it preserves the mask's expansion.
  - `CompactExamples` derives the repository's test table from it.
- `Wrappers` (`Option`, `Result`) and `Seqs` are small utilities.

Conventions:

- Go panics are modelled as `None`. This covers a duplicate insert, an address indexed past its fourth octet, and a mask the expander cannot read.
- `uint8` arithmetic is written out as `% 256` where it can wrap.
- Bit masks are modelled as arithmetic: `n & (2^k - 1)` becomes `n % 2^k`, and the `usedCharset` bit set becomes a set of slot numbers.

## Model

| member | source | states |
|---|---|---|
| Decimal.Itoa | cidr.go:110 | The decimal text of a number is a non-empty digit string, one digit long exactly for numbers below 10 |
| Decimal.ItoaCanonical | cidr.go:110 | The decimal text of `n` has no leading zero (unless it is `0`) and reads back as `n` |
| Decimal.ItoaValue | cidr.go:25 | Every canonical digit string is the decimal text of its own value (print after parse is the identity) |
| Decimal.ItoaInjective | cidr.go:25 | Different numbers have different decimal texts |
| Decimal.ParseUint8 | cidr.go:79-82 | `strconv.ParseUint(s, 10, 8)`: a result is at most 255; `Cidr.ByteTextParse` gives its meaning, that with the leading-zero test it accepts exactly the canonical texts of 0..255 |
| HCMask.Selector | hcmask_test.go:21-27 | A selector character names a charset exactly when it is `d` (slot 0) or `0`..`4`, the slots the expander's five-entry table has |
| HCMask.SplitJoin | hcmask_test.go:7 | Joining the comma-split parts of a mask gives the mask back, and no part contains a comma |
| HCMask.JoinSplit | hcmask_test.go:7 | Splitting comma-free parts joined by commas gives the parts back |
| HCMask.SplitDeclarations | hcmask_test.go:7-8 | A mask made of comma-free declarations and a comma-free pattern splits into the declarations followed by the pattern |
| HCMask.ExpandMaskParts | hcmask_test.go:6-14 | More than four declarations make the expander fail; otherwise slot 0 is the digits, slot `n` the `n`-th declaration, other slots empty, and the mask expands to the expansion of its tokenized pattern |
| HCMask.ExpandMask | hcmask_test.go:6-64 | `HCMaskExpand`, collecting what it visits: its meaning is given by `HCMask.ExpandMaskParts` (the charset table and the failure on more than four declarations) and `HCMask.ExpandMatches` (membership against `Matches`). Its two departures from the Go code are admitted under "## Left out" on the `ExpandMask` line |
| HCMask.Tokenize | hcmask_test.go:17-29 | The pattern loop of `HCMaskExpand`, which splits a pattern into literals and charset classes: its meaning is given by `HCMask.TokenizeLength`, `HCMask.TokenizeLiterals` and `HCMask.TokenizeWildcard` |
| HCMask.TokenizeLength | hcmask_test.go:17-29 | Tokenizing consumes one character per literal and two per wildcard |
| HCMask.TokenizeLiterals | hcmask_test.go:19-20 | Characters other than `?` become literal tokens ahead of whatever the rest tokenizes to |
| HCMask.TokenizeWildcard | hcmask_test.go:21-27 | `?` and a valid selector become one class token holding the selected charset |
| HCMask.NoWildcards | hcmask_test.go:31-34 | A mask whose pattern has no `?` yields exactly its pattern |
| HCMask.ExpandMatches | hcmask_test.go:50-64 | A text is produced by the expander iff it matches the tokens position by position (a literal equals, a class contains) |
| HCMask.ExpandCount | hcmask_test.go:50-64 | The expander yields as many texts as the product of the class sizes |
| HCMask.ProductMember | hcmask_test.go:60-63 | A text is in the product of two lists iff it is one element of the first followed by one of the second |
| HCMask.ProductAssoc | hcmask_test.go:50-64 | Nesting the product either way gives the same list in the same order |
| HCMask.ExpandAppend | hcmask_test.go:50-64 | Expanding a concatenation of tokens is the product of the two expansions, the earlier wildcard varying slowest |
| Byte.Index | byte.go:47-54 | On a descending row, the result is -1 iff no entry ends at `E`, and otherwise the position of the entry that does |
| Byte.MaskFor | byte.go:56-63 | On a descending row, the mask of the entry ending at `E`, or the empty text when there is none |
| Byte.SortedInsert | byte.go:74-75 | Appending and sorting adds exactly the new entry to the row's multiset |
| Byte.SortedInsertDescending | byte.go:74-75 | On a descending row without the new end, sorting after the append keeps the row strictly descending |
| Byte.Insert | byte.go:65-76 | On a descending row, inserting fails (panics) iff an entry already ends at `end`; otherwise the row stays descending and gains exactly the new entry |
| Byte.InsertRange | byte.go:96-98 | Only the row of `start` changes; the insert fails iff that row already has the end; the table stays descending |
| Byte.InsertRangesTen | byte.go:105-131 | The tens loop keeps the table's 256 rows and their descending order |
| ByteSeed.GroupLoopPrepends | byte.go:122-127 | The inner loop of `insertRangesTen` never fails and puts in front of the row one grouped pattern for each longer run of decades |
| ByteSeed.TensLoopResult | byte.go:109-129 | The outer loop of `insertRangesTen` never fails and gives every decade start its closed-form row |
| ByteSeed.SeedDecadesFill | byte.go:133-136 | The four seeding calls on disjoint decade ranges never fail and fill each covered row independently |
| ByteSeed.InitBuildsSeedTable | byte.go:132-139 | `init` never panics, and the table it builds is the closed-form `SeedTable`, every row descending |
| Byte.Init | byte.go:132-139 | `init`, with a panic as `None`: `ByteSeed.InitBuildsSeedTable` proves that it never panics and builds the closed-form `SeedTable` |
| Byte.SeedRow | byte.go:100-139 | Each row of the table is descending, and every entry of row `s` ends at least five bytes after `s`, at a decade end or at 255 |
| Byte.SeedRowDecade | byte.go:105-131 | The row of a decade start below 250 holds its decade and one entry per longer run of decades up to its hundred's last |
| Byte.ScanRow | byte.go:151-163 | The row scan stops at the first entry not past `end`: `Exact` when it ends at `end`, `Below` when before; `NoFit` iff every entry ends past `end` |
| Byte.Boundary | byte.go:165-179 | The split point of `lookup` is the next hundred when the interval crosses one, otherwise the next decade, strictly inside the interval |
| Byte.Walk | byte.go:141-217 | The `nextRange` loop of `lookup` from the reached byte `s`: it emits at least one pattern, and `ByteCoverage.WalkExpansion` gives the exact expansion of what it emits |
| Byte.UnitMask | byte.go:181-212 | The units pattern of the last decade of `lookup`: `ByteCoverage.UnitMaskSound` proves that it expands to exactly the bytes `10q+u`..`10q+v` |
| Byte.Lookup | byte.go:141-217 | `lookup` as written: a one-byte interval gives that byte's text, and the result is empty iff `start > end` |
| Byte.LookupFixed | byte.go:141-217 | `lookup` with line 148 corrected: a one-byte interval gives that byte's text, and the result is empty iff `start > end` |
| ByteCoverage.WalkExpansion | byte.go:141-217 | From any position the loop can reach, the patterns it emits expand, in order, to the texts of that position up to `end`. The last text is `end`, except that as written it is `start` when `end` is a multiple of ten |
| ByteLookup.LookupExpansion | byte.go:141-217 | `lookup(start, end)` as written expands to the texts of `start..end-1`, then the text of `end`, or of `start` when `end` is a multiple of ten |
| ByteLookup.LookupFixedCovers | byte.go:141-217 | The corrected lookup expands to exactly the decimal texts of `start..end`, in order |
| ByteLookup.LookupCovers | byte.go:147-149 | The lookup as written covers its interval exactly iff `start == end` or `end` is not a multiple of ten |
| ByteLookup.LookupZeroTen | byte.go:147-149 | `lookup(0, 10)` as written gives `?d` and `0`: 0 twice and no 10 |
| ByteLookup.LookupAgrees | byte.go:147-149 | The as-written and corrected lookups agree iff `start >= end` or `end` is not a multiple of ten. They differ only in the text appended when the walk reaches `end`; `cidr2hcmask` calls `lookup` at cidr.go:116 |
| ByteLookup.UnseededRow | byte.go:132-139 | Rows other than the seeded decade starts and 250 are empty |
| ByteLookup.ShortNoFit | byte.go:151-163 | No stored entry ends within four bytes of its row, so short intervals fall through to the units case |
| ByteLookup.LookupPair | byte_test.go:23-41 | For even `i`, `lookup(i, i+1)` is one pattern declaring the two last digits and referencing them as `?4` |
| ByteLookup.LookupQuad | byte_test.go:47-61 | For even `i` with last digit at most 6, `lookup(i, i+3)` is one pattern declaring the four last digits |
| ByteLookup.LookupQuadAcross | byte_test.go:62-78 | For `i` ending in 8, `lookup(i, i+3)` is `89` of `i`'s decade, then `01` of the next |
| ByteLookup.LookupThirtyTwoSixtyThree | cidr_test.go:132-137 | `lookup(32, 63)` is `23456789,3?4`, `45,?4?d` and `0123,6?4` |
| ByteLookup.LookupGroup | byte.go:122-127 | A run of whole decades from a seeded decade start is one pattern declaring its tens digits |
| ByteLookup.LookupCommentGroups | byte.go:100-104 | `lookup` gives `12,?4?d` for 10..29, `123,?4?d` for 10..39 and `5678,1?4?d` for 150..189 |
| ByteLookup.LookupHundreds | byte.go:135 | `lookup(100, 199)` is the stored group `0123456789,1?4?d` |
| ByteCoverage.UnitMaskSound | byte.go:181-213 | The units pattern (a fixed charset or declared digits as `?4`) expands to exactly the bytes `10q+u..10q+v` |
| ByteCoverage.DecadeSound | byte.go:114 | A decade pattern `<tens>?d` expands to its ten bytes |
| ByteCoverage.GroupSound | byte.go:122-127 | A grouped pattern expands to every byte of its run of decades, in order |
| ByteCoverage.Mask250Sound | byte.go:138 | `25?2` expands to 250..255 |
| ByteCoverage.SeedRowSound | byte.go:132-139 | Every stored pattern of row `s` expands to exactly the bytes from `s` to the end it is stored under |
| OctetCover.Mask100Sound | byte.go:24 | `1?d?d` expands to 100..199 |
| OctetCover.Mask200Sound | byte.go:25 | `2?1?d` expands to 200..249 |
| OctetCover.Mask10Sound | byte.go:23 | `?3?d` expands to 10..99 |
| OctetCover.Mask0Sound | byte.go:22 | `?d` expands to 0..9 |
| OctetCover.AnyByteExpansion | byte.go:29-35 | The five patterns of `masks0to255` expand, in their order, to the texts of 100..199, 200..249, 250..255, 10..99 and 0..9 |
| OctetCover.AnyBytePermutation | byte.go:29-35 | `masks0to255` denotes each byte 0..255 exactly once |
| Cidr.ClearBits | cidr.go:87-90 | Clearing the `k` low bits leaves a value whose low bits are zero and which differs from the input by exactly those bits |
| Cidr.PrefixIn | cidr.go:65-94 | The prefix bits falling in octet `i`: 8 iff the prefix covers the whole octet, 0 iff it ends before it |
| Cidr.NetString | cidr.go:24-26 | `IPv4Net.String`: `Cidr.ParsePrints` and `Cidr.PrintParses` prove that it inverts `ParseCIDR` in both directions |
| Cidr.MaskOctet | cidr.go:83-94 | Keeping `kept` prefix bits of an octet clears its host bits, and changes it iff a host bit was set |
| Cidr.Masked | cidr.go:99 | The network the error suggests has the same prefix length and zero host bits, and equals the input iff its host bits were already zero |
| Cidr.Cut | cidr.go:43 | Cutting at the first `/`: found iff the text has one, and then the text is the part before, the slash, the part after |
| Cidr.CutAt | cidr.go:43 | Cutting a text at a separator absent from its first part gives the two parts |
| Cidr.SplitN | cidr.go:60 | Splitting into at most `n` parts yields 1..n parts that join back to the text |
| Cidr.SplitNAgrees | cidr.go:60-63 | Splitting into at most five parts yields fewer than five iff the unbounded split does, and then the same parts |
| Cidr.ByteTextParse | cidr.go:47-53 | The parser's leading-zero test and `ParseUint(…, 10, 8)` together accept exactly the canonical decimals 0..255, with their value |
| Cidr.ParseOctet | cidr.go:68-95 | One octet fails iff its text is not a canonical byte; otherwise it is kept with its host bits cleared, and the host-bit flag is set iff a host bit was set |
| Cidr.ParseOctets | cidr.go:67-96 | The octet loop of `ParseCIDR`: it fails only with `ErrSyntax`; `Cidr.ParseOctetsFails` and `Cidr.ParseOctetsMeaning` give when it fails and what it builds |
| Cidr.ParseOctetsFails | cidr.go:67-96 | The octet loop fails iff some remaining octet text is not a canonical byte |
| Cidr.ParseOctetsMeaning | cidr.go:67-96 | On canonical octet texts, the loop gives the cleared octets and flags exactly when clearing changed a value |
| Cidr.ParsedClear | cidr.go:83-94 | The network the octet loop builds has zero host bits |
| Cidr.ParseCIDR | cidr.go:39-103 | A parsed network has four octets, a prefix of 0..32 and zero host bits; so does the network the non-zero-bits error suggests |
| Cidr.ParseSyntax | cidr.go:40-82 | `ParseCIDR` fails with the syntax error iff the text is not at most 18 characters of four canonical bytes, a slash and a canonical prefix of at most 32 |
| Cidr.ParseMeaning | cidr.go:98-102 | A well-formed text parses to its network when its host bits are zero, and otherwise fails with the non-zero-bits error suggesting the masked network |
| Cidr.ParsePrints | cidr_test.go:28-36 | Whenever parsing succeeds, printing the network gives the text back |
| Cidr.PrintParses | cidr.go:24-26 | The printed form of any network with zero host bits parses back to that network |
| Assemble.AnyBytes | cidr.go:119-122 | Octets past the prefix each get the list `masks0to255` |
| Assemble.OctetLists | cidr.go:105-124 | The three loops of `cidr2hcmask` from octet `i`: `Assemble.OctetListsAt` gives when it panics and the patterns it gives each octet |
| Assemble.Cidr2HCMask | cidr.go:105-124 | `cidr2hcmask`: `Assemble.Cidr2HCMaskLists` proves that it panics iff the prefix is longer than 32 bits and otherwise gives each octet a literal, a `lookup` or `masks0to255` |
| Assemble.OctetListsAt | cidr.go:105-124 | From octet `i`, the loop fails iff more bits are left than the remaining octets hold, and otherwise gives each remaining octet its patterns |
| Assemble.Cidr2HCMaskLists | cidr.go:105-124 | `cidr2hcmask` panics iff the prefix exceeds 32 bits; otherwise it gives four lists: an octet's own text inside the prefix, `lookup` over the partial octet's block, `masks0to255` past it |
| Assemble.SplitDecl | cidr.go:148-153 | A pattern's part up to its first comma, when that comma is not its first character, is appended to the declarations, the rest to the pattern, and nothing is lost |
| Assemble.AllChoices | cidr.go:143-159 | The reference enumeration: `Count(lists)` choices, each picking one pattern from each list |
| Assemble.ExpandRec | cidr.go:135-160 | `expandRec`: `Assemble.ExpandRecEnumerates` proves that it yields one assembled mask per choice, the first octet varying slowest |
| Assemble.ExpandEach | cidr.go:135-160 | The pattern loop of `expandRec`: `Assemble.ExpandEachEnumerates` proves that it yields each pattern's choices in turn |
| Assemble.ExpandRecEnumerates | cidr.go:135-160 | `expandRec` yields one assembled mask per choice, the first octet varying slowest |
| Assemble.ExpandEachEnumerates | cidr.go:144-159 | The pattern loop of `expandRec` yields the masks of the choices starting with each of its patterns, in order |
| Assemble.AssembledExtend | cidr.go:145-157 | Assembling after choosing pattern `f` equals assembling the rest from the declarations and pattern extended by `f` |
| Assemble.ExpandEnumerates | cidr.go:126-133 | `expand` yields exactly one mask per choice of one pattern per octet, behind the three default declarations |
| Assemble.Expand | cidr.go:126-133 | `expand`: `Assemble.ExpandEnumerates` proves that it equals the reference enumeration behind the three default declarations |
| Assemble.CIDR2HCMask | cidr.go:166-172 | `CIDR2HCMask`: `Network.NetworkCovered` and `Network.NetworkCount` prove that for a valid network its masks denote each address exactly once |
| MaskMeaning.ShapedParts | cidr.go:149-152 | Every octet pattern is at most one declaration and a comma-free body, and `expandRec` splits it there |
| MaskMeaning.WalkShaped | byte.go:141-217 | Every pattern the lookup loop emits has at most one declaration and a comma-free body |
| MaskMeaning.LookupShaped | byte.go:141-217 | Every pattern `lookup` returns has at most one declaration and a comma-free body |
| MaskMeaning.AssembledParts | cidr.go:135-160 | An assembled mask is the declarations, the octets' own declarations, and the octet bodies joined by dots |
| MaskMeaning.MaskOfChoice | cidr.go:126-160 | With at most one octet declaring, an assembled mask is the three defaults plus that declaration, then the dotted bodies (so at most four declarations) |
| MaskMeaning.TokenizeJoin | hcmask_test.go:17-29 | The dotted join of bodies tokenizes, and expands to the dot-separated product of the bodies' expansions |
| MaskMeaning.AssembledMeaning | cidr.go:135-160 | The mask assembled from a choice expands to the dotted product of the choice's patterns' expansions |
| OctetCover.FreeOctetZero | cidr.go:119-122 | An octet past the prefix of a valid network is zero and ranges over all of 0..255 |
| OctetCover.PartialBlock | cidr.go:114-116 | The partial octet's block end never wraps the `uint8` addition, lies after its start and is not a multiple of ten |
| OctetCover.PartialLookupFixed | cidr.go:114-116 | On a partial octet, `lookup` as called by `cidr2hcmask` returns exactly what the corrected lookup returns |
| OctetCover.OctetCovers | cidr.go:105-124 | Each octet's patterns expand to exactly the octet's range: in order inside and on the prefix, and as a permutation past it |
| Network.ChoiceMeaning | cidr.go:135-160 | The mask of one choice of octet patterns expands to the dotted product of their texts |
| Network.MasksDenote | cidr.go:166-172 | The masks of a valid network expand, in order, to the dotted texts of every choice |
| Network.AddressCount | cidr.go:15-19 | A network with prefix `b` holds `2^(32-b)` addresses |
| Network.AddressesDistinct | cidr_test.go:214-221 | No address of a network occurs twice in `Addresses(net)`, the dotted product of the octets' ranges |
| Network.NetworkCovered | cidr.go:166-172 | For a valid network, `CIDR2HCMask` never panics. Its masks together denote the addresses of the network in some order, and neither the addresses nor the denoted texts contain a repeat, so every address is denoted exactly once |
| Network.NetworkCount | cidr.go:166-172 | The masks of a valid network denote `2^(32-bits)` texts in all |
| Compact.ScanDecls | compact.go:15-35 | The declaration loop finds at most four declarations, and the text before the pattern is exactly those declarations with their commas |
| Compact.Extract | compact.go:12-37 | A mask is its (at most four) declarations followed by its pattern |
| Compact.DeclaredSlot | compact.go:48-49 | A selector references a declaration iff it is `1`..`4` and at most the number of declarations |
| Compact.ScanRefs | compact.go:41-56 | The reference loop records only positions, in increasing order, of selectors that reference a declaration |
| Compact.Rebuild | compact.go:61-74 | The declaration loop of `CompactMask`: it yields a four-entry renumbering table; `CompactMeaning.RebuildMeaning` proves that it keeps the used declarations in order and maps each used slot to 1 + its rank |
| Compact.Rewrite | compact.go:75-83 | The reference loop of `CompactMask`: it keeps the pattern's length; `CompactMeaning.RewriteAt` proves that exactly the recorded positions change, each to its new selector |
| Compact.CompactMask | compact.go:9-84 | `CompactMask`: `CompactMeaning.CompactMaskMeaning` gives its meaning; `CompactSound.CompactShorter` and `CompactSound.CompactPreserves` prove that it never lengthens a mask and that it keeps an escape-free mask's expansion |
| CompactMeaning.ExtractPlain | compact.go:15-37 | Without backslashes, the declarations are the first comma-separated fields (at most four) and the pattern is the rest, later commas included |
| CompactMeaning.ScanRefsMeaning | compact.go:41-56 | The loop stops early iff every declaration is referenced; otherwise it collects exactly the referenced slots and the positions of their selectors |
| CompactMeaning.RebuildMeaning | compact.go:61-74 | The rebuild loop writes the referenced declarations in order and maps each referenced slot to one plus its rank among them |
| CompactMeaning.RewriteAt | compact.go:75-83 | The rewrite replaces each recorded selector by its new number and leaves every other character alone |
| CompactMeaning.RenumberedAt | compact.go:75-83 | In the renumbered pattern, each selector is renumbered and every other character is kept |
| CompactMeaning.KeptAt | compact.go:64-74 | A referenced declaration keeps its text at the position of its rank |
| CompactMeaning.KeptAll | compact.go:51-53 | When every slot is used, all declarations are kept and every rank is the slot itself |
| CompactMeaning.KeptNone | compact.go:57-60 | With no slot used, no declaration is kept |
| CompactMeaning.KeptShorter | compact.go:61-74 | The kept declarations are never longer than the original ones |
| CompactMeaning.CompactMaskMeaning | compact.go:9-84 | `CompactMask` gives the referenced declarations and the renumbered pattern; the mask itself when every declaration is referenced; the bare pattern when none is |
| CompactMeaning.CompactRenumbers | compact.go:61-83 | When some but not all declarations are referenced, the output is the kept declarations followed by the renumbered pattern |
| CompactSound.CompactShorter | compact_test.go:47-55 | `CompactMask` never makes a mask longer |
| CompactSound.SelectorRenumbered | compact.go:79-82 | A renumbered selector is valid iff the original was, and selects the same charset in the compacted table |
| CompactSound.TokenizeRenumbered | compact.go:75-83 | The renumbered pattern tokenizes over the compacted table exactly as the original does over the original table |
| CompactSound.CompactShape | compact.go:9-84 | A mask without backslashes and with at most five fields compacts to its referenced declarations and renumbered pattern |
| CompactSound.RenumberPreserves | compact.go:61-83 | Dropping the unreferenced declarations and renumbering does not change what a mask expands to |
| CompactSound.CompactPreserves | compact.go:5 | On masks without backslashes and with at most five fields, `CompactMask` does not change the expansion (including failure) |
| CompactExamples.PlainCompact | compact.go:61-83 | A plain mask compacts to its kept declarations and renumbered pattern |
| CompactExamples.PlainUnreferenced | compact.go:57-60 | A plain mask referencing no declaration compacts to its bare pattern |
| CompactExamples.PlainAllUsed | compact.go:51-53 | A plain mask referencing all of its declarations is returned unchanged |
| CompactExamples.Undeclared | compact.go:57-60 | A mask with no declarations is returned unchanged |
| CompactExamples.NoRefOne | compact_test.go:9 | `abc` compacts to `abc` |
| CompactExamples.NoRefTwo | compact_test.go:10 | `abc,def` compacts to `def` |
| CompactExamples.NoRefThree | compact_test.go:11 | `abc,def,ghi` compacts to `ghi` |
| CompactExamples.NoRefFour | compact_test.go:12 | `abc,def,ghi,jkl` compacts to `jkl` |
| CompactExamples.NoRefFive | compact_test.go:13 | `abc,def,ghi,jkl,mno` compacts to `mno` |
| CompactExamples.FifthCommaKept | compact_test.go:14 | `abc,def,ghi,jkl,mno,pqr` compacts to `mno,pqr`: the fifth comma belongs to the pattern |
| CompactExamples.EscapedComma | compact_test.go:16-17 | Masks whose only commas are escaped are returned unchanged |
| CompactExamples.EscapedDeclaration | compact_test.go:18 | `abc\,def,ghi` compacts to `ghi`: the escaped comma stays inside the declaration |
| CompactExamples.DigitsOnly | compact_test.go:20 | `abc?d` compacts to `abc?d` |
| CompactExamples.DigitsOnlyDeclared | compact_test.go:21 | `def,abc?d` compacts to `abc?d`: `?d` references no declaration |
| CompactExamples.AllReferenced | compact_test.go:22 | `def,abc?1` is returned unchanged |
| CompactExamples.AllReferencedTwo | compact_test.go:23 | `def,ghi,abc?1?2` is returned unchanged |
| CompactExamples.AllReferencedTwice | compact_test.go:24 | `def,ghi,abc?1?2?1` is returned unchanged |
| CompactExamples.ShiftOne | compact_test.go:27 | `def,ghi,abc?2` compacts to `ghi,abc?1` |
| CompactExamples.ShiftTwo | compact_test.go:28 | `def,ghi,jkl,abc?3` compacts to `jkl,abc?1` |
| CompactExamples.ShiftPair | compact_test.go:29 | `def,ghi,jkl,abc?2?3` compacts to `ghi,jkl,abc?1?2` |
| CompactExamples.ShiftPairReversed | compact_test.go:30 | `def,ghi,jkl,abc?3?2` compacts to `ghi,jkl,abc?2?1` |
| CompactExamples.NetHundreds | compact_test.go:73-79 | `01234,012345,123456789,192.168.0.1?d?d` (line 73) compacts to `192.168.0.1?d?d` (line 79): no default declaration is referenced |
| CompactExamples.NetTwoHundreds | compact_test.go:74-80 | `…,192.168.0.2?1?d` (line 74) compacts to `01234,192.168.0.2?1?d` (line 80): only `01234` is kept, still `?1` |
| CompactExamples.NetTwoFifty | compact_test.go:75-81 | `…,192.168.0.25?2` (line 75) compacts to `012345,192.168.0.25?1` (line 81): only `012345` is kept, renumbered from `?2` to `?1` |
| CompactExamples.NetTens | compact_test.go:76-82 | `…,192.168.0.?3?d` (line 76) compacts to `123456789,192.168.0.?1?d` (line 82): only `123456789` is kept, renumbered from `?3` to `?1` |
| CompactExamples.NetUnits | compact_test.go:77-83 | `…,192.168.0.?d` (line 77) compacts to `192.168.0.?d` (line 83): no default declaration is referenced |

## Left out

- `CIDR2HCMaskFunc`, `CIDR2HCMaskWrite` and `CompactMaskFunc` (cidr.go:162-164, 174-192; compact.go:86-90): callback and `io.Writer` plumbing. `CIDR2HCMask` is modelled as the list the callback would receive. The writer's error recovery is I/O.
- `cmd/cidr2hcmask`: command-line I/O around `ParseCIDR` and `CIDR2HCMaskWrite`.
- Panics are modelled as `None`: a duplicate `insert`, `cidr2hcmask` on more than 32 bits, and the test expander on a mask it cannot read. The error text of `ParseCIDR`'s non-zero-bits error is reduced to the network it suggests.
- The global table `byteHCMasks` is the constant `SeedTable`/`SeedRow` that `lookup` reads. `Init` rebuilds it through the insert functions and is proved equal to it; the mutation of a global at package load is not modelled.
- `sort.Sort` after `insert` is modelled as ordered insertion. Ends are unique in a row, so the sorted order is unique and the two agree.
- `uint8` values are `nat`s below 256; the one wrapping addition (cidr.go:116) is written with `% 256` and proved never to wrap on a valid network. `IPv4Net.Bits` is an unbounded `int`, as in Go.
- `hasEscapedChars` in `CompactMask` (compact.go:13-39) is computed and discarded by the source; it is not modelled. Neither is the escaping the source's FIXMEs leave undone (compact.go:21, 32, 38, 58, 78).
- ExpandMask: rejects a mask with an invalid selector (`?` before a character other than `d` or `0`..`4`) as soon as it tokenizes it. The Go test expander records the selector and only panics when its recursion reaches that wildcard, so `?1?x` with an empty slot 1 visits nothing in Go and is `None` here. The model also works on characters where Go indexes bytes, so the two can differ on non-ASCII masks. Neither case arises for the masks this library produces.
- CompactPreserves: proved only for masks without backslashes and with at most five comma-separated fields. The expander does not understand backslash escapes. With six or more fields the expander rejects the mask (more than four declarations), while the compacted mask, with the fifth comma moved into its pattern, can be accepted.
- No idempotence is claimed for `CompactMask`: `abc,def,ghi,jkl,mno,pqr` compacts to `mno,pqr`, which compacts again to `pqr`.

## Findings

| source | as written | input that shows it | evidently intended | confidence | as-written member | corrected member |
|---|---|---|---|---|---|---|
| byte.go:148 | When the walk reaches `end` it appends `strconv.Itoa(int(start))`, the text of the interval's first byte | `lookup(0, 10)` gives `["?d", "0"]`, which denotes 0 twice and never 10 | `strconv.Itoa(int(s))`, the text of the byte reached, so that `lookup` covers `start..end` exactly | high, not executed | Byte.Lookup, ByteLookup.LookupZeroTen, ByteLookup.LookupCovers | Byte.LookupFixed, ByteLookup.LookupFixedCovers |

`ByteLookup.LookupAgrees` shows that the two versions differ only when `start < end` and `end` is a multiple of ten. `cidr2hcmask` calls `lookup` only on a CIDR block, whose end is odd, so the defect never shows in a mask file. `OctetCover.PartialLookupFixed` proves that the assembler's patterns are those of the corrected `LookupFixed`, and the coverage proofs of the network rest on that.
