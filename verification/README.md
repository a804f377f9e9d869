# A verified model of the gateway's JSON library and delivery engine

The gateway reads a sensor, prints each reading as JSON into a directory of pending records, and sends
the records over HTTP or MQTT whenever a circuit breaker allows it. This project models the two parts on
which no record being lost or changed depends, and proves what they promise.

`dafny verify dfyconfig.toml` checks the whole project.

## The JSON library (`lib/cJSON.c`)

| file | what is in it |
|---|---|
| `Arithmetic`, `Options`, `Bytes`, `Bits`, `Decimal`, `Utf8` | natural numbers, bytes and C strings, bit operations on numbers, decimal numbers, UTF-8 and the unicode escapes |
| `JsonStrings` | string literals: the two passes of the encoder, the two passes of the decoder, the size estimate |
| `JsonTree` | JSON values and the text that prints them |
| `JsonText` | what the parser makes of every position of every buffer |
| `JsonRoundTrip` | parsing undoes printing |
| `JsonLayout`, `JsonEscapes`, `JsonNumbers`, `JsonGrammar` | the printed text, the escapes, the numbers and the accepted texts once more, in character literals and without the parser's and printer's own terms; what the others compute is proved to be this, both ways |
| `JsonNodes`, `JsonLists`, `JsonDuplicate`, `JsonCompare` | the heap nodes: siblings linked both ways with the last one behind `head.prev`; list surgery, deep copies, lookup and comparison |
| `JsonTrees` | which node trees stand for which values |
| `JsonParser` | the parser as it is written: a cursor over a buffer that builds linked nodes |
| `JsonPrinter` | the printer as it is written: a growing buffer whose offset only `strlen` brings up to date |
| `JsonReread` | printing, parsing and comparing together |

Nodes are objects of a class with the pointers of the original. `Node.Is(t)` says that a node is the root
of a tree with the contents `t`: the children are disjoint trees, chained forward to null and backward in a
ring. Everything that changes nodes is proved to end in such a tree again, with the contents it should have.

## The delivery engine (`src/main.c`, `src/circuit_breaker.c`, `src/persist.c`)

| file | what is in it |
|---|---|
| `CircuitBreaker`, `BreakerHistory` | the breaker as a class, and its fields as a closed form of everything that happened to it |
| `FileNames`, `Persist` | the order of names, and the directories with their listing, moving and rotation |
| `Delivery` | one cycle, as a function of what the outside answers and as the code that computes it |
| `DeliveryRuns` | conservation of records over whole runs, and over one process after the other |
| `DeliveryRepeats` | how often a record is delivered |
| `DeliveryBreakers` | breakers and pacing over whole runs |
| `DeliveryOrder` | failover, failback, the order of attempts, draining a backlog, retention |

What the system and the network answer is a parameter (`Env`): every send, read, move, listing, delete
and clock value may be anything in every cycle. Runs are sequences of such answers, so the theorems hold
for all of them. They start from directories that hold anything, as the last process left them; a new
process starts with closed breakers, so pacing is a matter of one process and conservation of all of them.

`ShadowPayload` (`src/mqtt_sender.c`) is where both parts meet: a record is parsed, duplicated, wrapped and
printed for MQTT.

## What the code does otherwise than its documentation says

Each of these comes with the input that shows it and the exact condition under which it does not happen.

- The first open timeout is not capped by `cb_backoff_max_sec`, although `Readme.md` calls that the limit of
  the backoff (`BreakerHistory.FirstTimeoutIsNotCapped`). The limit holds after every history if and only if
  the first timeout respects it (`BreakerHistory.BackoffLimitHolds`).
- A listing is cut off in directory order before it is sorted, so a newer record can be sent before an older
  one (`DeliveryOrder.NewerIsSentFirst`). Every directory order gives the oldest part of the backlog if and
  only if the whole backlog fits the batch (`DeliveryOrder.OldestIffFits`).
- The order of names is not the order of time when a longer number starts with lower digits than a shorter
  one: 10.json precedes 2.json, while 1.json precedes 20.json (`FileNames.WidthChangeBreaksOrder`).
  `FileNames.NameOrder` says exactly when two names are in the order of time; numbers of one width always are.
- The result of moving a delivered file is ignored, so delivery is at least once
  (`DeliveryRepeats.DeliveredTwice`). A record is still pending after its delivery if and only if its move
  failed, and it is delivered again only then (`DeliveryRepeats.WaitingAfterDelivery`,
  `DeliveryRepeats.DeliveredAgain`, `DeliveryRepeats.LivesSettle`).
- Two cycles are at least a second apart, but a clock that is set back can give a timestamp a second time,
  and the new record then overwrites the old one (`DeliveryRuns.RepeatedTimestampLoses`). A write loses a
  pending record if and only if it replaces one by another text (`DeliveryRuns.StoreKeepsPending`).
- A record that is cut short when the file is closed is stored like a whole one: nobody looks at what closing
  answers (`Persist.Directory.Write`).
- A malformed `\u` escape does not fail: it writes NUL and swallows four bytes, and the decode pass can lose
  step with the scan (`JsonStrings.PassesCanDisagree`). The passes agree if and only if no such escape
  swallows the first half of an escape pair (`JsonStrings.PassesAgree`). What is written out of step stands
  behind the NUL, so the stored string does not show it (`JsonStrings.StoredStringIsInStep`), and it always
  fits the buffer (`JsonStrings.SizeEstimateSuffices`).
- `cJSON_Compare` looks members up by their first match, so a tree with a repeated name can differ from its
  own copy (`JsonCompare.RepeatedNameDiffersFromItself`); `JsonCompare.CompareIsMeaning` says exactly when
  two trees are equal.
- `cJSON_AddItemToArray` clears the `next` of the item only when the list was empty: the chain survives if
  and only if the list was empty or the item had no next (`JsonLists.AddItemToArray`).

## Model

| member | source | states |
|---|---|---|
| Utf8.DecodeEncode | lib/cJSON.c:703-821 | The UTF-8 bytes of every scalar value decode to that value again, whatever follows them (section 3 of RFC 3629) |
| Utf8.EncodeDecode | lib/cJSON.c:703-821 | Only the bytes that encode a scalar value decode: the decoder accepts shortest forms without surrogates and nothing else |
| Bits.ContinuationBits | lib/cJSON.c:798-804 | The mask-and-shift expression for a trailing byte is the remainder modulo 64 with the mark, for every number |
| Bits.MarkAndMask | lib/cJSON.c:798-804 | The same for a mark and mask at any bit position, by induction over the bits |
| Utf8.CombineSurrogates | lib/cJSON.c:747-758 | Masking and or-ing two surrogates is the arithmetic combination of section 7 of RFC 8259 |
| Utf8.EncodeByPosition | lib/cJSON.c:766-813 | Each byte of the encoding, by position, is what the loop has left after as many shifts |
| Utf8.ParseHex4 | lib/cJSON.c:666-700 | The digit loop gives the value of four hexadecimal digits (what those are is JsonEscapes.Hex4Is), and 0 as soon as one of them is none |
| Utf8.Utf16LiteralToUtf8 | lib/cJSON.c:703-821 | Writes exactly the UTF-8 bytes of the escape behind what was there, or nothing for a bad escape; length 6 or 12 |
| Utf8.WriteUtf8 | lib/cJSON.c:798-813 | The backward loop writes the encoding and leaves the bytes before it |
| JsonStrings.CountEscapes | lib/cJSON.c:981-1005 | The counting pass: input length plus counted characters is the length of the escaped text |
| JsonStrings.EscapeIsNoShorter | lib/cJSON.c:1013-1020 | When nothing is counted the escaped text is the input, so the plain copy is right |
| JsonStrings.EscapeIsNulFree | lib/cJSON.c:1021-1067 | The escaped text of any bytes has no terminator inside |
| JsonStrings.WrittenIsLength | lib/cJSON.c:869-926 | A successful decode is exactly as long as the count of bytes its loop writes |
| JsonStrings.WrittenAtMostSteps | lib/cJSON.c:869-926 | From any position, in step with the scan or one byte behind, the decode loop writes no more bytes than the scan makes steps plus its lag |
| JsonStrings.SizeEstimateSuffices | lib/cJSON.c:837-868 | For every input the allocation holds everything the decode loop writes and the terminator, also when passes disagree on where escapes start |
| JsonStrings.ScanOverFour | lib/cJSON.c:841-855 | Over the four bytes that an escape swallows: the scan stops behind them exactly when no odd run of backslashes ends there |
| JsonStrings.NoSplitInHex | lib/cJSON.c:666-700 | Four hexadecimal digits never make the passes lose step |
| JsonStrings.PassesAgree | lib/cJSON.c:841-925 | The decode loop comes only to positions where the scan stands if and only if no escape it comes to swallows the first half of an escape pair |
| JsonStrings.MalformedWritesNul | lib/cJSON.c:686-689 | An escape with a byte that is no digit writes NUL and takes the four bytes |
| JsonStrings.OutOfStepIsHidden | lib/cJSON.c:869-926 | What is written out of step stands behind a NUL; without losing step everything is in step |
| JsonStrings.StoredStringIsInStep | lib/cJSON.c:869-933 | The C string that is stored is made only of what both passes agree on, for every literal that decodes |
| JsonStrings.PassesCanDisagree | lib/cJSON.c:686-689 | A literal on which the passes disagree: the decode loop writes NUL and then the quote that the scan escaped; the stored string is empty |
| JsonStrings.ScanOfEscaped | lib/cJSON.c:837-858 | Behind any escaped text the scan finds the closing quote right after the last escape |
| JsonStrings.DecodeOfEscaped | lib/cJSON.c:869-926 | Decoding escaped text gives back the bytes, for every NUL-free string |
| JsonEscapes.Hex4Is | lib/cJSON.c:666-700 | For every number below 65536 and every choice of small or capital letters: four bytes that are its digits, by division and remainder modulo 16, give that number; anything else gives 0 |
| JsonEscapes.CharacterDecodes | lib/cJSON.c:703-821 | The escape of every scalar value, one unit or the two surrogates of section 7 of RFC 8259 by division and remainder modulo 1024, decodes to bytes that say that value in UTF-8 |
| JsonEscapes.LoneSurrogateFails | lib/cJSON.c:722-758 | A low surrogate on its own is refused, and a high one without an escaped low one behind it |
| JsonEscapes.LettersDecode | lib/cJSON.c:889-923 | Behind a backslash b, f, n, r, t stand for one control character, quote, backslash and slash for themselves, and any other letter but u fails |
| JsonEscapes.EncodingTable | lib/cJSON.c:766-813 | The bytes of every scalar value, by the table of section 3 of RFC 3629 |
| Decimal.StrtodOfPrintInt | lib/cJSON.c:353-381 | Reading the printed form of any integer gives that integer and uses all of its characters |
| Decimal.PrintIntLength | lib/cJSON.c:611-637 | Every int prints within the 25 characters that the number buffer allows |
| Decimal.IntOfInt | lib/cJSON.c:384-399 | Saturating truncation is the identity on ints |
| Decimal.IntOfTruncates | lib/cJSON.c:384-399 | Which int a double becomes: towards zero, with both limits |
| JsonNumbers.StrtodOfNumber | lib/cJSON.c:353-381 | Every decimal number, with or without sign, fraction and exponent, is read whole and for exactly its value |
| JsonNumbers.NumberOf | lib/cJSON.c:307-408 | And whatever is read of bytes that start like a number is such a number, with that value |
| JsonText.ParseValueSound | lib/cJSON.c:1368-1420 | On every byte buffer: a value read is NUL-free in all strings and nests no deeper than the limit allows, a failure is reported inside the buffer |
| JsonText.ParseArraySound | lib/cJSON.c:1497-1592 | The same for arrays, including the limit of 1000 |
| JsonText.ParseObjectSound | lib/cJSON.c:1662-1777 | The same for objects |
| JsonText.ParseValue | lib/cJSON.c:1368-1420 | A successful parse strictly advances and stays inside the buffer |
| JsonText.SkipBlanks | lib/cJSON.c:1090-1113 | Skipping goes forward, and from inside the buffer it stays inside, because of the step back |
| JsonGrammar.StringIs | lib/cJSON.c:824-951 | A piece of a buffer is read as a string if and only if it is quotes around a content that says the bytes: plain bytes, letters behind a backslash, characters by number, each by its character code |
| JsonGrammar.AcceptedValue | lib/cJSON.c:1368-1420 | Soundness: whatever value is read, its text derives that value in a grammar with literal character codes: blanks, brackets, commas, colons, quoted keys, numbers, within 1000 levels |
| JsonGrammar.ValueParses | lib/cJSON.c:1368-1420 | Completeness: every text that derives a value in that grammar is read as it, and up to its end |
| JsonGrammar.ParsesExactly | lib/cJSON.c:1368-1777 | A value is read from a place up to an end if and only if one stands there |
| JsonGrammar.DocumentsExactly | lib/cJSON.c:1147-1224 | A whole buffer is accepted, with a value and an end, if and only if it is an optional byte order mark, blanks, a value and, where it has to end, blanks up to a NUL |
| JsonGrammar.MissingColonFails | lib/cJSON.c:1736-1739 | A key without a colon behind it is refused, wherever the object stands |
| JsonGrammar.MissingCommaFails | lib/cJSON.c:1565-1569 | An element with something other than a comma or the bracket behind it is refused |
| JsonGrammar.CutOffFails | lib/cJSON.c:1565-1569 | An array with no closing bracket behind it and an object with no closing brace are refused |
| JsonRoundTrip.NumberEndAt | lib/cJSON.c:318-351 | A number token ends at the next delimiter |
| JsonRoundTrip.StringReadsBack | lib/cJSON.c:824-951 | A quoted string anywhere in a buffer parses to its bytes and ends behind its quote |
| JsonRoundTrip.ValueReadsBack | lib/cJSON.c:1368-1896 | The rendered text of any printable value, anywhere in a buffer and at any depth that fits, parses to the value and consumes exactly the text |
| JsonRoundTrip.ArrayReadsBack | lib/cJSON.c:1497-1659 | The same for arrays |
| JsonRoundTrip.ObjectReadsBack | lib/cJSON.c:1662-1896 | The same for objects, with members in order and the formatting blanks |
| JsonRoundTrip.RoundTrip | lib/cJSON.c:1131-1304 | Printing, formatted or not, and parsing gives the same value and uses the whole text, with and without the terminator being required |
| JsonRoundTrip.ReparseIsStable | lib/cJSON.c:1131-1304 | Whatever text was parsed: the value found survives printing and parsing again |
| JsonLayout.RenderIs | lib/cJSON.c:1423-1896 | The printed text of every value in character literals: without formatting no blank at all, with it a space behind the comma of an array, a tab behind the colon of a key, one line per member and for the closing brace, a tab per level |
| JsonLayout.OnlyBlanksDiffer | lib/cJSON.c:1595-1896 | Every text, formatted or not, is the compact one once the blanks outside strings are gone; so the compact one has none |
| JsonLayout.CompactIsVisible | lib/cJSON.c:1595-1896 | No byte of an unformatted text is below 32 |
| JsonLayout.EscapeIs | lib/cJSON.c:954-1073 | The escape of every byte of a string, in character literals |
| JsonLayout.PrintIntIs | lib/cJSON.c:611-637 | An int is printed in decimal: a minus sign if negative, digits at their places, no leading zero |
| JsonLayout.NestingIs | lib/cJSON.c:1497-1505 | The nesting of a value is at most a limit if and only if no more arrays and objects than that enclose each other |
| JsonTree.RenderIsText | lib/cJSON.c:1423-1494 | The text of every value is non-empty and has no terminator inside, which is what lets strlen find its end |
| JsonNodes.GetArrayItem | lib/cJSON.c:1922-1949 | Walking the chain gives the child of that index, and null for negative ones, beyond the end and without an array |
| JsonNodes.GetArraySize | lib/cJSON.c:1899-1919 | Walking the chain counts the children |
| JsonLists.WithAt | lib/cJSON.c:2334-2366 | What a sequence holds after an insertion, index by index |
| JsonLists.WithoutAt | lib/cJSON.c:2258-2292 | What a sequence holds after a removal, index by index |
| JsonLists.AddItemToArray | lib/cJSON.c:2027-2058 | Appends the tree of the item to the children; the ring survives exactly when the list was empty or the item had no next |
| JsonLists.AddItemToObject | lib/cJSON.c:2082-2117 | Names the item and appends it |
| JsonLists.DetachItemViaPointer | lib/cJSON.c:2258-2292 | Removes the child from the sequence, keeps the ring, and leaves the item a tree of its own without neighbours; null and unchanged when the item is no child |
| JsonLists.DetachItemFromArray | lib/cJSON.c:2294-2302 | The same by index |
| JsonLists.InsertItemInArray | lib/cJSON.c:2334-2366 | Inserts before the index and keeps the ring; behind the end it appends |
| JsonLists.ReplaceItemViaPointer | lib/cJSON.c:2368-2415 | Exchanges one child in the sequence and keeps the ring, also for a single child, the first and the last |
| JsonDuplicate.Duplicate | lib/cJSON.c:2784-2873 | A copy is made of new nodes only and says the same, children included or not; it fails exactly for null or a tree higher than 10000 |
| JsonDuplicate.DuplicateRec | lib/cJSON.c:2789-2873 | The same from any depth, with the exact limit |
| JsonDuplicate.HeightIs | lib/cJSON.c:2832-2840 | The depth that the copy counts against its limit is that of the tree |
| JsonDuplicate.LinkNext | lib/cJSON.c:2844-2856 | The copied children are chained one behind the other, the ring still open |
| JsonCompare.CaseInsensitiveStrcmp | lib/cJSON.c:133-158 | Zero exactly when both strings are there and are equal in lower case |
| JsonCompare.SameFold | lib/cJSON.c:133-158 | Two names are one without regard to case if and only if they have one length and each pair of characters is the same or one is the other with its case changed |
| JsonCompare.LookupFinds | lib/cJSON.c:1951-1981 | The child that is found has the name, and no child in front of it has |
| JsonCompare.CompareDoubleIs | lib/cJSON.c:589-593 | Two numbers are the same if and only if they differ by at most the larger magnitude over 2^52 |
| JsonCompare.GetObjectItem | lib/cJSON.c:1951-1981 | The child found by the walk is the one that Lookup names, for both kinds of comparison |
| JsonCompare.LookupIsField | lib/cJSON.c:1951-1981 | When all children are named the lookup is the first child of that name, and fails only if there is none |
| JsonCompare.LookupFindsItself | lib/cJSON.c:1951-1981 | With different names every member finds itself |
| JsonCompare.Compare | lib/cJSON.c:3072-3195 | Two trees without common nodes compare as Equal says; a node compared with itself is the same when it has a kind |
| JsonCompare.CompareElements | lib/cJSON.c:3130-3152 | Two cursors through both chains: equal exactly when pairwise equal and equally long |
| JsonCompare.CompareMembers | lib/cJSON.c:3154-3190 | One pass over the members, each looked up in the other object |
| JsonCompare.EqualIsSymmetric | lib/cJSON.c:3072-3195 | Comparison is symmetric, for all trees and both kinds of name comparison |
| JsonCompare.CompareIsMeaning | lib/cJSON.c:3072-3195 | On whole numbers, two trees compare equal if and only if both are comparable (kinds, strings and names present, one meaning per name) and they mean the same value, where an object is a map from names |
| JsonCompare.PassesSeeFields | lib/cJSON.c:3154-3190 | Both passes succeed exactly when the objects have the same fields and neither has two meanings under one name |
| JsonCompare.MeaningIsUpToOrder | lib/cJSON.c:3154-3190 | With different names, meaning the same is having the same members in some order |
| JsonCompare.CopyComparesEqual | lib/cJSON.c:3072-3195 | A copy compares equal to its original when members have different names, whatever the numbers |
| JsonCompare.RepeatedNameDiffersFromItself | lib/cJSON.c:3154-3190 | With a repeated name a tree can differ from its own copy |
| JsonCompare.WholeNumbersCompareExactly | lib/cJSON.c:589-593 | On whole numbers below 2^52 the relative comparison is equality |
| JsonTrees.TreeOfShows | lib/cJSON.c:1368-1896 | What the parser builds for a value shows that value to the printer |
| JsonTrees.ParsedFields | lib/cJSON.c:1368-1420 | Kind, valuestring, valueint, valuedouble and children that the parser sets, one by one for each kind of value |
| JsonTrees.NullPrintsEmpty | lib/cJSON.c:965-979 | A string node without a valuestring prints as an empty string |
| JsonTrees.ShowsOne | lib/cJSON.c:1423-1494 | A tree shows one value at most |
| JsonReread.ShownTreesCompareEqual | lib/cJSON.c:3072-3195 | Two trees that show one value compare equal when members have different names |
| JsonReread.RereadComparesEqual | lib/cJSON.c:1147-1304 | Print any such tree, formatted or not, and parse the text: the tree that comes back compares equal to the one printed |
| JsonReread.ParsedIsNamedApart | lib/cJSON.c:1662-1777 | Printing and parsing keeps names different |
| JsonParser.ParseBuffer.SkipWhitespace | lib/cJSON.c:1090-1113 | The loop with its step back ends where SkipBlanks says |
| JsonParser.ParseBuffer.ParseNumber | lib/cJSON.c:307-408 | Reads the number token, fills in both number fields and advances by what strtod used |
| JsonParser.ParseBuffer.ParseString | lib/cJSON.c:824-951 | Scan, allocation and decode give the specified string; no write leaves the allocation |
| JsonParser.ParseBuffer.FindClosingQuote | lib/cJSON.c:837-861 | The scan loop finds the end and the number of skipped bytes |
| JsonParser.ParseBuffer.DecodeInto | lib/cJSON.c:869-926 | The decode loop writes exactly the decoded bytes into an array that the estimate made large enough, or reports the bad escape |
| JsonParser.ParseBuffer.DecodeEscape | lib/cJSON.c:884-923 | One escape sequence |
| JsonParser.ParseBuffer.ParseValue | lib/cJSON.c:1368-1420 | Fills the item with a tree of new nodes for the specified value, advances to its end and restores the depth, or fails at the specified position; terminates on every buffer |
| JsonParser.ParseBuffer.ParseArray | lib/cJSON.c:1497-1592 | The same for an array: children in order in a closed ring, depth restored |
| JsonParser.ParseBuffer.ParseElements | lib/cJSON.c:1531-1569 | The element loop builds an open chain of trees for the elements |
| JsonParser.ParseBuffer.ParseObject | lib/cJSON.c:1662-1777 | The same for an object: names and values in order |
| JsonParser.ParseBuffer.ParseMemberList | lib/cJSON.c:1698-1755 | The member loop |
| JsonParser.ParseBuffer.ParseKey | lib/cJSON.c:1723-1746 | Key, colon and the swap of valuestring and string; by JsonGrammar a key without a colon behind it fails |
| JsonParser.AttachNew | lib/cJSON.c:1534-1553 | A new blank item at the end of the open chain, the trees already there untouched |
| JsonParser.CloseList | lib/cJSON.c:1571-1581 | Closing the ring and hanging the chain below the item makes one tree |
| JsonParser.ParseWithLengthOpts | lib/cJSON.c:1147-1224 | The whole entry point: BOM, blanks, value, terminator if required; a failure is reported inside the buffer |
| JsonParser.ParseText | lib/cJSON.c:1227-1230 | A C string parses to a tree of new nodes for the specified value, or to null |
| JsonPrinter.PrintBuffer.Ensure | lib/cJSON.c:490-573 | Succeeds exactly when the bytes and one more fit the room there can be; keeps what was printed; the room stays as it is when they fit and doubles up to 2147483647 otherwise |
| JsonPrinter.PrintBuffer.UpdateOffset | lib/cJSON.c:576-586 | strlen from the offset finds the end of the text, because the text has no terminator inside |
| JsonPrinter.PrintBuffer.PrintStringPtr | lib/cJSON.c:954-1073 | Writes the quoted string and terminator; succeeds exactly with two bytes to spare |
| JsonPrinter.PrintBuffer.WriteEscaped | lib/cJSON.c:1021-1067 | The writing pass writes what the counting pass counted |
| JsonPrinter.PrintBuffer.PrintNumber | lib/cJSON.c:596-663 | Writes the int and moves the offset itself |
| JsonPrinter.PrintBuffer.PrintValue | lib/cJSON.c:1423-1494 | For any node tree that shows a printable value, from any buffer: succeeds exactly when nesting and room allow, and then the buffer is the old prefix, the text and a terminator, with the offset between and the depth restored |
| JsonPrinter.PrintBuffer.PrintArray | lib/cJSON.c:1595-1659 | The same for arrays, over the chain of children |
| JsonPrinter.PrintBuffer.PrintItems | lib/cJSON.c:1623-1647 | The element loop |
| JsonPrinter.PrintBuffer.PrintObject | lib/cJSON.c:1780-1896 | The same for objects |
| JsonPrinter.PrintBuffer.PrintMembers | lib/cJSON.c:1812-1876 | The member loop |
| JsonPrinter.PrintBuffer.PrintMember | lib/cJSON.c:1814-1873 | Indent, key, colon, value, comma and line break of one member |
| JsonPrinter.PrintBuffer.CloseObject | lib/cJSON.c:1878-1893 | Tabs and brace of the closing line |
| JsonPrinter.Print | lib/cJSON.c:1239-1304 | The result is exactly the text in character literals (compact, or with its blanks) and its terminator; null exactly when more than 1000 arrays and objects enclose each other or the size passes 2147483647 |
| JsonPrinter.PrintBuffered | lib/cJSON.c:1317-1345 | Unless it is negative, the first size decides nothing about the outcome, which is the same text in character literals |
| JsonPrinter.PrintPreallocated | lib/cJSON.c:1348-1365 | Succeeds if and only if there is a buffer, the nesting is within 1000 and the length is at least that of the text plus 2 (the advice in lib/cJSON.h:168 is 5 more), and then holds the same text in character literals |
| ShadowPayload.BasenameNoExt | src/mqtt_sender.c:15-30 | The loop leaves the name behind the last slash up to its first dot, as a C string that fits |
| ShadowPayload.StemOfRecord | src/mqtt_sender.c:15-30 | Of the file name of a record, with or without directory, the decimal timestamp is left, uncut |
| ShadowPayload.BuildShadowPayload | src/mqtt_sender.c:41-74 | Parse, duplicate, wrap and print: null exactly when the record does not parse, nests deeper than 998 or the text is too long; otherwise exactly {"state":{"reported": the unformatted record },"clientToken":" the escaped thing-timestamp ","version":1} and a terminator, in character literals |
| ShadowPayload.WrapReported | src/mqtt_sender.c:60-68 | The list operations build the shadow around the copy |
| ShadowPayload.StemParts | src/mqtt_sender.c:15-30 | The stem without its loop: what stands behind the last slash and in front of the first dot there, cut to what fits |
| ShadowPayload.PayloadIs | src/mqtt_sender.c:59-73 | The text of the shadow in character literals: state, reported, the record, clientToken and version 1 |
| ShadowPayload.TokenIsWhole | src/mqtt_sender.c:52-57 | The token is thing name, hyphen and stem, uncut for a thing name of at most 127 bytes and a stem of at most 63, which is all that their buffers hold |
| ShadowPayload.ShadowReadsBack | src/mqtt_sender.c:51-74 | The text of the shadow parses again to the record under state.reported, clientToken thing-timestamp without truncation, and version 1 |
| ShadowPayload.ShadowIsPrintable | src/mqtt_sender.c:59-73 | Wrapping adds exactly two levels of nesting |
| ShadowPayload.HeightWithinNesting | src/mqtt_sender.c:62-64 | A parsed record is never too deep to be duplicated |
| CircuitBreakers.CircuitBreaker.AllowSend | src/circuit_breaker.c:14-33 | Sending is refused exactly while open before the retry time; an expired breaker becomes half-open |
| CircuitBreakers.CircuitBreaker.MaybeRecover | src/circuit_breaker.c:35-42 | An expired breaker becomes half-open, nothing else changes |
| CircuitBreakers.CircuitBreaker.OnSuccess | src/circuit_breaker.c:44-52 | Closed, with count and timeout cleared |
| CircuitBreakers.CircuitBreaker.OpenCircuit | src/circuit_breaker.c:55-72 | First timeout, or doubling in 32 bits with cap |
| CircuitBreakers.CircuitBreaker.OnTransientFail | src/circuit_breaker.c:74-85 | Counts, and opens at the threshold or when half-open |
| CircuitBreakers.CircuitBreaker.OnPersistentFail | src/circuit_breaker.c:87-94 | Clears the count and opens |
| BreakerHistory.BreakerClosedForm | src/circuit_breaker.c:14-94 | After every history the fields are a closed form of it: the count of transient failures since the last success or persistent one; closed iff untripped; the timeout of the k-th opening; the retry time of the last opening; half-open iff the clock was seen past it |
| BreakerHistory.DoublingStep | src/config.c:338-341 | Under the accepted ranges doubling never leaves 32 bits and computes the capped power |
| BreakerHistory.BackoffLimitHolds | src/circuit_breaker.c:59-66 | The timeout respects backoff_max after every history if and only if open_timeout does |
| BreakerHistory.FirstTimeoutIsNotCapped | src/circuit_breaker.c:59-66 | An accepted configuration whose first timeout exceeds the documented cap |
| BreakerHistory.FailuresArePaced | src/circuit_breaker.c:14-85 | With a clock that never goes back, after an opening no failure comes before its timeout has passed |
| BreakerHistory.RunsArePaced | src/circuit_breaker.c:14-94 | n openings in a row, from the failure that trips, take at least the n-1 timeouts between them |
| BreakerHistory.TripIsFirst | src/circuit_breaker.c:74-94 | Openings count from the first failure that trips |
| FileNames.RecordNameIs | src/persist.c:20-27 | The name of a record in character literals: the timestamp in decimal and .json |
| FileNames.ListableIs | src/persist.c:74-79 | A name is listed if and only if it has at least six characters and ends in .json |
| FileNames.LessIs | src/persist.c:50-53 | What precedes in strcmp order: the first byte that differs is smaller, or the name is a beginning of the other |
| FileNames.SortSorts | src/persist.c:92-93 | Sorting is ascending in strcmp order and a permutation |
| FileNames.LessTotal | src/persist.c:50-53 | strcmp orders any two different names |
| FileNames.IndexIsAge | src/persist.c:50-95 | In a sorted listing the index of a name is the number of names that precede it |
| FileNames.EqualWidthOrder | src/persist.c:49-53 | For timestamps of equal width the order of names is the order of time |
| FileNames.NameOrder | src/persist.c:49-53 | For any two different times, the names are in the order of time if and only if the longer number starts, as far as the shorter one reaches, with at least its digits (with the sign turned round before 1970) |
| FileNames.NaturalOrder | src/persist.c:49-53 | The same for times since 1970, with the leading digits as a number |
| FileNames.WidthChangeBreaksOrder | src/persist.c:49-53 | 2.json does not precede 10.json, but 1.json precedes 20.json |
| FileNames.RecordNameIsListable | src/persist.c:20-27 | The name of every record is listed and fits a PendingFileName |
| FileNames.RecordNamesDiffer | src/persist.c:20-27 | Different timestamps have different names |
| Persist.WrittenIs | src/persist.c:20-46 | What a write leaves in the directory: the file of the timestamp and every other one |
| Persist.FirstListableIsPrefix | src/persist.c:72-89 | What is collected with a limit is the beginning of all there is, in directory order |
| Persist.FirstListableAppend | src/persist.c:72-89 | Without a limit each entry is kept or not by its own name |
| Persist.FullListing | src/persist.c:55-95 | A listing without limit is ascending whatever the directory order, and holds exactly the listable names if and only if none is longer than 63 bytes |
| Persist.FirstListableFits | src/persist.c:81-88 | A limit that everything fits is no limit |
| Persist.RotationRemovesExpired | src/persist.c:176-212 | Deleting the head of the listing is the order-free description of rotation |
| Persist.ExpiredAreOldest | src/persist.c:184-208 | The names removed are as many as there are too many, and each precedes every kept name |
| Persist.RotationBoundsCount | src/persist.c:176-212 | When deletes work, exactly the excess goes and at most max_files remain |
| Persist.RotationKeepsNewest | src/persist.c:176-212 | And everything that went precedes everything listable that stays |
| Persist.Directory.Write | src/persist.c:10-47 | The file of the timestamp gets the text, a part of it or nothing; -1 when nothing was opened or the failure was noticed, 0 also for a part that nobody noticed |
| Persist.Directory.ListPending | src/persist.c:55-95 | The first max_files listable entries in directory order, cut to 63 characters, then sorted; without an array only their number |
| Persist.Directory.CollectListable | src/persist.c:72-89 | The collecting loop |
| Persist.Directory.CountListable | src/persist.c:72-89 | The counting loop |
| Persist.Directory.Delete | src/persist.c:129-143 | Removes the file or changes nothing |
| Persist.Directory.MoveTo | src/persist.c:145-174 | Moves the file, overwriting one of that name, or changes nothing |
| Persist.Directory.RotateSent | src/persist.c:176-212 | Both listings and the delete loop do what Rotated says; -1 for a failed listing that was needed, otherwise the number of files that went |
| Delivery.Daemon.SelectInterface | src/main.c:45-81 | In the configuration fields: with primary API, MQTT exactly when the API is open and MQTT is enabled; with primary MQTT, the API exactly when MQTT is open and the API is enabled |
| Delivery.Daemon.TrySendPending | src/main.c:89-174 | Files, both breakers and log afterwards are exactly what TrySend says, for every outcome of the outside |
| Delivery.Daemon.SendFiles | src/main.c:110-173 | The batch loop with its continue and its breaks |
| Delivery.Daemon.constructor | src/main.c:228-231 | A process starts with fresh breakers on directories that hold anything |
| Delivery.Daemon.SendFile | src/main.c:125-172 | One attempt: filed, counted or opened by its answer |
| Delivery.Daemon.File | src/main.c:150-151 | The move and the rotation, whatever they answer |
| Delivery.Daemon.RunCycle | src/main.c:331-340 | Store the record, then send |
| DeliveryRuns.LivesConserve | src/main.c:228-347 | From directories that hold anything, over any number of processes one after the other, with fresh timestamps, whatever fails: every file is in exactly one of pending, sent and rotated-out with its content, and left pending only after an OK send of that content |
| DeliveryRuns.RunConserves | src/main.c:285-347 | The same for the cycles of one process, from any state that is accounted for |
| DeliveryRuns.CycleConserves | src/main.c:331-340 | The same for one cycle from any state |
| DeliveryRuns.SendBatchConserves | src/main.c:119-173 | The same for a batch |
| DeliveryRuns.FiledConserves | src/main.c:148-154 | The same for one delivery, with move and rotation failing or not |
| DeliveryRuns.StoreKeepsPending | src/persist.c:20-46 | A write keeps all pending records if and only if it opens nothing, the name is new, or the same text is written |
| DeliveryRuns.RepeatedTimestampLoses | src/main.c:337 | A clock set back to a second that had a record, while the network is away: that record is lost unsent |
| DeliveryRepeats.LivesSettle | src/main.c:148-151 | From directories that hold anything, over any number of processes: a record waits exactly when it has been pending and no move of it has worked; every OK send is followed by its move, and nothing is attempted after a move that worked |
| DeliveryRepeats.DeliveredAgain | src/main.c:148-151 | A record that is delivered a second time could not be moved after the first |
| DeliveryRepeats.DeliveredOnce | src/main.c:148-151 | When no move fails, no record is delivered twice |
| DeliveryRepeats.WaitingAfterDelivery | src/main.c:150 | Right after an OK answer the record is still pending if and only if its move failed |
| DeliveryRepeats.DeliveredTwice | src/main.c:150 | A run of two cycles whose moves fail sends one record twice |
| DeliveryRepeats.FiledSettles | src/main.c:148-154 | One delivery keeps the account of waiting records, with its move working or not |
| DeliveryBreakers.RunTracked | src/main.c:89-174 | Whatever a process finds when it starts: in every state it reaches each breaker is the result of its own history, and no attempt was made while it was open |
| DeliveryBreakers.RunTrackedInFields | src/main.c:45-174 | The same, with the breakers named by the fields api and mqtt |
| DeliveryBreakers.RunIsPaced | src/main.c:89-174 | Over a whole process with a steady clock, whatever it finds when it starts, for each interface: the closed form, the pacing of failures and the total wait |
| DeliveryBreakers.RunInOrder | src/main.c:89-174 | The times in the log of a run from any state never go back |
| DeliveryBreakers.SendBatchTracked | src/main.c:119-173 | A batch keeps the breaker equal to its history |
| DeliveryOrder.FailoverRules | src/main.c:45-108 | In a cycle from any state: one interface at most, enabled, its breaker not waiting; the secondary exactly when it is enabled and the primary waits; and something is attempted if and only if that interface may send and a file of its batch can be read |
| DeliveryOrder.ActiveInFields | src/main.c:45-81 | The failover rule in the two configuration fields: with primary MQTT the active interface is the API if and only if MQTT is open and waiting and the API is enabled; and the mirror rule |
| DeliveryOrder.TrySendOnlyEnabled | src/main.c:70-108 | Every attempt of a cycle on the API has api enabled, and on MQTT has mqtt enabled |
| DeliveryOrder.RunOnlyEnabled | src/main.c:89-174 | The same for every attempt of every run |
| DeliveryOrder.DisabledMqttIsLeftAlone | src/main.c:95-104 | Where MQTT is to be used and is switched off, a cycle looks at the primary breaker once and changes and attempts nothing |
| DeliveryOrder.Failback | src/main.c:93-111 | The first cycle at or after the retry time of the primary attempts on it exactly the one file of its batch, if that can be read, and nothing else |
| DeliveryOrder.CycleAttempts | src/main.c:89-173 | The attempts of a cycle, exactly: on the active interface the readable part of the batch up to the first failure, or none when it is disabled or waiting |
| DeliveryOrder.CycleAttemptsOrdered | src/main.c:110-173 | Attempts ascend, are at most 50 (one when half-open), and all but the last succeeded |
| DeliveryOrder.AttemptsFollowBatch | src/main.c:119-173 | The loop attempts the readable files in batch order |
| DeliveryOrder.BatchIsSound | src/persist.c:55-95 | No duplicates, ascending, within the limit, only listable files |
| DeliveryOrder.BatchIsGlobal | src/persist.c:81-93 | The batch has the smaller of backlog and limit, and is the whole backlog when that fits |
| DeliveryOrder.OldestIffFits | src/persist.c:81-93 | For all names and breakers: every directory order makes the batch the oldest part of the backlog if and only if the backlog fits the batch |
| DeliveryOrder.OldestLast | src/persist.c:81-93 | When it does not fit, a directory that gives its oldest file last keeps that one out |
| DeliveryOrder.NewerIsSentFirst | src/main.c:110-121 | Two records, a batch of one, the newer one first in the directory: exactly that one is attempted |
| DeliveryOrder.OldestFirst | src/main.c:110-121 | When the backlog fits, no file is attempted before an older readable one |
| DeliveryOrder.HealthyCycle | src/main.c:89-174 | A healthy cycle on the active interface, primary or secondary, shortens the backlog by its limit, closes its breaker and leaves a waiting primary alone |
| DeliveryOrder.DrainClosed | src/main.c:89-174 | Behind a closed interface, primary or secondary, healthy cycles send full batches until nothing is left |
| DeliveryOrder.BacklogDrains | src/main.c:89-174 | n files behind an interface that may be tried, the expired primary or the secondary while the primary waits, are gone if and only if 1 + ceil((n-1)/fifo_max) healthy cycles have run |
| DeliveryOrder.RetentionHolds | src/main.c:150-151 | Whatever sent held, after a delivery whose rotation works it holds at most retention listable files, and what went precedes them; a rotation whose listings fail removes nothing |
| DeliveryOrder.SentIsBounded | src/main.c:150-151 | From any directories with short names, over every run in which rotations work, whatever else fails: sent is untouched until the first delivery and within the retention from then on |
| DeliveryOrder.SendBatchIsBounded | src/main.c:119-173 | The same through a batch |

## Left out

- JsonPrinter.PrintBuffer.PrintNumber: prints ints with `%d` only; the `%1.15g` and `%1.17g` forms of other numbers, NaN and infinities are not modelled, because their text depends on floating-point rounding.
- JsonPrinter.PrintBuffer.PrintValue: takes trees whose parts all have a kind and whose numbers are ints; a node without a kind and a Raw node are not printed.
- JsonParser.ParseBuffer.ParseNumber: `strtod` gives the exact decimal value, without rounding, overflow, `inf`, `nan` and hexadecimal forms (the token holds no letters but e and E), and the decimal point is always a dot.
- JsonCompare.CompareIsMeaning: requires whole numbers below 2^52 in magnitude, where `compare_double` is equality; on other numbers that comparison is not transitive, so it cannot be equality of anything. CopyComparesEqual and EqualIsSymmetric have no such restriction.
- JsonCompare.Compare: two different nodes must belong to disjoint trees; comparing a tree with its own part is not modelled.
- JsonLists.ReplaceItemViaPointer: says nothing about the replaced item, which the code frees; freeing memory is not modelled anywhere.
- JsonLists.DetachItemViaPointer: an item that is neither a child of the parent nor without a `prev` is excluded; the code would rewire the list it does belong to.
- BreakerHistory.BreakerClosedForm: the count of failures is unbounded; the 32-bit `int` of the code would overflow after 2^31 failures without a success.
- Persist.Directory.QuickSort: `qsort` by what it promises; it is the C library's.
- Persist.Directory.RotateSent: listable names in the directories have at most 63 characters, as all record names do; a listing cuts longer ones (Persist.FullListing), and rotation would then ask to delete names that are not there. The same holds of Persist.RotationBoundsCount, Persist.ExpiredAreOldest, Persist.RotationRemovesExpired and DeliveryOrder.SentIsBounded.
- DeliveryOrder.BatchIsSound: the same; a cut name stands for no file, and the loop passes over it.
- Delivery.Daemon.RunCycle: reading a file gives its whole content or fails; short reads are not modelled.
- DeliveryRuns.LivesConserve: no timestamp is used twice, and no name is in both directories at the start; RepeatedTimestampLoses shows what happens otherwise. A process ends between two cycles; one that is cut off inside a cycle leaves the directories as a cycle with a shorter listing, a part of a file, a failed move or a failed rotation would, and those are among the answers.
- DeliveryBreakers.RunIsPaced: the pacing is that of one process; a new one starts with closed breakers and does not wait.
- JsonPrinter.PrintPreallocated: the length that is passed is the length of the buffer.
- ShadowPayload.BuildShadowPayload: records whose numbers are ints, as for the printer.
- Allocation failure, custom memory hooks, reference items, constant keys: they add ownership cases and no harder properties.
- Conversion of lengths to `int` beyond INT_MAX, and the error position kept in a global variable after a failed parse.
- `cJSON_Minify`: the daemon does not use it, and it does not treat a double backslash as an escape pair.
- Array constructors, `cJSON_SetValuestring`, `cJSON_SetNumberHelper`, replacing and detaching by name: each is a lookup or a loop in front of an operation that is modelled.
- `strlen`, `strcmp`, `strrchr`, `tolower` (for ASCII) and `snprintf` of two strings: by what the C library promises.
- The HTTP and MQTT clients: an enabled interface answers OK, transient or persistent error; a disabled one stops the batch.
- Paths longer than the 256-byte buffers: the answer of a file operation is a parameter, so such a failure is one of its values.
- Configuration parsing (its ranges are preconditions), the sensor table, Modbus, logging and the status line.
- JsonText.ParseValue: where a failed parse reports its position, only that it is inside the buffer is proved apart from the parser's own branches; which texts fail is exact (JsonGrammar.ParsesExactly).
- JsonGrammar.ParsesExactly: a number counts as read up to an end only where no byte of a number follows; `strtod` may stop earlier inside a longer run of such bytes, and JsonNumbers.NumberOf says what it has read then.
