# Models of a JSON-driven IEC 60870-5-104 server

This project models the parts of the repository with the most intricate logic and proves what they promise. It covers
the JSON library that the server is driven by, the select-before-operate table, the file transfer server, the packing of
interrogated points into ASDUs, and the throttling of values that arrive while no master is connected. `dafny verify
dfyconfig.toml` checks all of it.

## How it is built

Code that works in place is modelled in place, and proved against functions whose own properties are lemmas.

| part | files |
|---|---|
| bytes, case modes, string order, optional values, bit operations | `Bytes`, `Options`, `Bits` |
| parsing and printing | `JsonValue`, `JsonText` (what is printed), `JsonParser` (what is parsed), `JsonGrammar` (the texts that are), `JsonLayout` (where blanks stand), `JsonOverread` (which buffers it leaves), `JsonRoundTrip`, `JsonStrings` (escapes and UTF-8), and in place `ParseBuffer`, `PrintBuffer` |
| child lists on the heap | `NodeList` (a class with `next`, `prev` and `child`), `SortSpec`, `SortList` (the merge sort that relinks nodes) |
| trees up to the order of members | `JsonMap`, `JsonCompare` |
| merge patches | `MergePatch`, `PatchWalk`, `PatchGenerator` |
| JSON Pointer | `JsonPointer` |
| select before operate | `SelectTable` (the table in place), `SelectBeforeOperate` (its lock regions as steps of several connections) |
| file transfer | `FileService` (the state machine), `FileTransfer` (what every run keeps), `FileAnswers` (what one step puts out, and which state follows), `FileReception`, `FileSending` (whole files), `FileServer` (the server in place) |
| interrogation | `Packing`, `Interrogation` (the loops, also those of the periodic sender) |
| input values | `OfflineThrottle`, `InputHandler` (in place) |

A tree is a value (`JsonValue.Value`); an object is a sequence of members, since order matters to the text. Up to that
order it stands for a map (`JsonMap.Meaning`), with names in lower case when case is not regarded. The heap model and the
value model meet in the sequence of children: sorting relinks the nodes into the order of `SortSpec.Sort`, which is what
comparing and generating use on values.

In `SelectBeforeOperate` a run is any sequence of steps, each one lock region of one connection or a tick of the clock;
reading the clock in `isPreviouslySelected` is a step of its own. In `FileTransfer` an observer who sees only what is put
out (messages, callbacks, and marks for the beginning and the acknowledgement of files and sections) judges each output
by those before.

What comes from outside is a parameter: the clock, whether a client is connected (asked twice, with two answers), the
answers of the user's file interfaces, and the configuration. What goes out is a sequence.

## Where the code differs from what is said about it

- The header asks for 5 spare bytes in `cJSON_PrintPreallocated`; 2 are needed and enough (`PrintBuffer.PrintPreallocated`).
- `parse_string` reads its first byte without a test (json-iec104-server/cJSON/cJSON.c:781), and `parse_object` calls it
  behind a comma without one (1660). A buffer without terminator that is cut off right behind a comma between members is
  left by one byte, and no other buffer is: `JsonOverread.OverreadExactly`. The methods of `ParseBuffer` demand that the
  buffer is not left.
- `sort_list` leaves `prev` of the new head as it was, or NULL (json-iec104-server/cJSON/cJSON_Utils.c:522-527), and
  `add_item_to_array` goes by it (json-iec104-server/cJSON/cJSON.c:1979). After comparing or generating, a merge into
  the same tree may lose members: `SortList.SortObject`, `SortList.AddToSorted`, `SortList.LostMember`. This is why
  `PatchGenerator.GenerateAndMerge` merges into a duplicate; copying mends the links (`NodeList.Duplicate`).
- `generate_merge_patch` sorts under its case mode, but walks with `strcmp` and recurses without regard to case
  (json-iec104-server/cJSON/cJSON_Utils.c:1423, 1455). Generating without regard to case is right for all trees over a set
  of names exactly when sorting these names does not depend on case: `PatchGenerator.GenerateAndMerge` and
  `PatchGenerator.OrderNeeded`. With regard to case the same holds of the names below the members:
  `PatchGenerator.OrderNeededBelow`.
- The index decoder tests `pointer[0]` in its loop (json-iec104-server/cJSON/cJSON_Utils.c:285), so that more than digits
  is accepted behind the first byte, and the empty token is taken for 0: `JsonPointer.IndexExact`. A pointer without
  leading slash resolves to the root: `JsonPointer.RfcAgrees`, `JsonPointer.DeviationWitness`.
- A select is confirmed even when the table is full (json-iec104-server/src/protocol/command_handler.c:126-129); the
  execute is then refused: `SelectBeforeOperate.SelectThenExecute`.
- The section checksum is not cleared by a timeout or an abort
  (json-iec104-server/lib60870/lib60870-C/src/file-service/file_server.c:848-851), and is then wrong in the next transfer:
  `FileTransfer.SectionChecksum` and `FileTransfer.StaleChecksum`.
- Segments carry the originator address of the last master whose own file was accepted, not of the one that fetches the
  file (json-iec104-server/lib60870/lib60870-C/src/file-service/file_server.c:317, 831-832): `FileAnswers.HoldsExactly`.
- A section that is repeated after a negative acknowledgement counts twice in the checksum of the file
  (json-iec104-server/lib60870/lib60870-C/src/file-service/file_server.c:259, 518-530): `FileTransfer.FileChecksum` and
  `FileTransfer.RefusedChecksum`.
- The packing does not regard that an ASDU has at most 127 objects (section 7.2.2 of IEC 60870-5-101), which
  `CS101_ASDU_addInformationObject` enforces by dropping objects, nor that an address has three bytes, which makes it drop
  all but the first object of a sequence: `Packing.AllPointsArrive`.
- `offline_udt_time * 1000` is computed with 32 bits (json-iec104-server/src/data/data_manager.c:178):
  `OfflineThrottle.ThrottleExactly`.
- The comment at json-iec104-server/src/input/input_handler.c:201 speaks of changes, but values that are no floats are
  queued offline also when they have not changed: `OfflineThrottle.QueuedExactly`, and `OfflineThrottle.ChangesQueued`,
  where the second value is the first one again.

## Model

| member | source | states |
|---|---|---|
| Bytes.NormExactly | json-iec104-server/cJSON/cJSON.c:133-155 | Without regard to case two names are the same if and only if they are as long and at each place have the same byte, or two that differ by 32 of which the smaller is from 65 to 90 |
| Bytes.CompareExactly | json-iec104-server/cJSON/cJSON_Utils.c:83-109 | The order is that of the first bytes that differ, as unsigned numbers, in lower case if case is not regarded; a name comes before those that go on |
| Bytes.IndexOfExactly | json-iec104-server/cJSON/cJSON.c:1880-1910 | A lookup finds the first name that is the same, and none if and only if there is none |
| JsonValue.IsIntExactly | json-iec104-server/cJSON/cJSON.c:360-373 | The numbers that are printed as ints are the whole numbers of 32 bits |
| JsonGrammar.ParsesExactly | json-iec104-server/cJSON/cJSON.c:1095-1172 | The parser takes exactly the texts of a grammar, with at most 1000 nested containers: whatever it returns is read from the buffer, and whatever can be read, up to a byte that does not go on with a number, it returns, or refuses as too deep |
| JsonGrammar.TerminatedExactly | json-iec104-server/cJSON/cJSON.c:1125-1133 | When a terminator is demanded, only blanks may follow, the last of which is a NUL that ends the buffer |
| JsonGrammar.ValueSound | json-iec104-server/cJSON/cJSON.c:1312-1364 | What is parsed anywhere is a text of that value, and does not nest too deep |
| JsonGrammar.ValueComplete | json-iec104-server/cJSON/cJSON.c:1312-1364 | A text of a value anywhere is parsed to it, or refused if and only if it nests too deep |
| JsonGrammar.StringExactly | json-iec104-server/cJSON/cJSON.c:773-899 | A string is parsed if and only if it is quoted, ends with the first quote that is not escaped, and all in it stands for something; what stands for a NUL ends it |
| JsonGrammar.StandsExactly | json-iec104-server/cJSON/cJSON.c:819-877 | Each step of the second pass takes a byte, an escape of two characters, one or two of four digits that denote a code point, or one with malformed digits, and nothing else |
| JsonGrammar.StrtodReads | json-iec104-server/cJSON/cJSON.c:321-357 | What is converted of a number is a sign, digits with a dot, and an exponent, with the value that these have |
| JsonGrammar.NumeralStrtod | json-iec104-server/cJSON/cJSON.c:321-357 | Every such text is converted, to its end and to its value, fractions and exponents included |
| JsonLayout.BlanksApart | json-iec104-server/cJSON/cJSON.c:1367-1825 | Without the blanks outside its strings every printed text is the unformatted one, which has none |
| JsonLayout.BlanksStand | json-iec104-server/cJSON/cJSON.c:1539-1825 | The formatted text is the unformatted one with a new line behind an opening brace and a comma between members, and in front of a closing brace, as many tabs behind each as containers are open, a tab behind a colon, and a space behind a comma between items |
| JsonRoundTrip.RoundTrip | json-iec104-server/cJSON/cJSON.c:1312-1364 | For every tree with int numbers and C strings, formatted or not: parsing the printed text gives back the same tree, members in the same order, and consumes the whole text if at most 1000 containers are nested; one level more is rejected |
| JsonRoundTrip.RoundTripNulTerminated | json-iec104-server/cJSON/cJSON.c:1095-1172 | The printed text with its terminator parses alike when a terminator is demanded |
| JsonRoundTrip.TextInjective | json-iec104-server/cJSON/cJSON.c:1367-1438 | Two trees with the same text are the same tree, however deep they nest |
| JsonRoundTrip.ValueRoundTrip | json-iec104-server/cJSON/cJSON.c:1312-1364 | At any place of any buffer and at any depth: the text of a value followed by a delimiter is read back as that value, up to exactly its end, or rejected exactly when the nesting goes beyond the limit |
| JsonRoundTrip.ArrayRoundTrip | json-iec104-server/cJSON/cJSON.c:1441-1536 | What an opening bracket and the text after it give: the same items and the end of the text, the empty array apart |
| JsonRoundTrip.ItemsRoundTrip | json-iec104-server/cJSON/cJSON.c:1473-1513 | The items of a printed array come back in order |
| JsonRoundTrip.ObjectRoundTrip | json-iec104-server/cJSON/cJSON.c:1601-1711 | The same for objects, with the line breaks and tabs of the formatted form |
| JsonRoundTrip.MembersRoundTrip | json-iec104-server/cJSON/cJSON.c:1631-1689 | The members of a printed object come back in order, names and values |
| JsonRoundTrip.ScalarRoundTrip | json-iec104-server/cJSON/cJSON.c:1312-1351 | Literals, strings and numbers come back |
| JsonRoundTrip.NumberRoundTrip | json-iec104-server/cJSON/cJSON.c:305-379 | An int that is printed with "%d" is read back as the same number, whatever byte that cannot belong to a number follows |
| JsonRoundTrip.StrtodIntText | json-iec104-server/cJSON/cJSON.c:321-377 | The decimal text of an int, with its sign, is converted to that int, and all of it is consumed |
| JsonRoundTrip.EscapeRoundTrip | json-iec104-server/cJSON/cJSON.c:902-1021 | Escaping and decoding are inverse on every NUL-free string, and the closing quote that is found is the one that was written |
| JsonStrings.DecodeBound | json-iec104-server/cJSON/cJSON.c:786-877 | Whatever the bytes, the second pass over a string writes no more than the first pass counted |
| JsonStrings.ParsedLength | json-iec104-server/cJSON/cJSON.c:786-880 | A string that parses is never longer than the room that was allocated for it, malformed hex digits included |
| JsonStrings.Utf8Correct | json-iec104-server/cJSON/cJSON.c:715-764 | Bytes are the UTF-8 encoding of a code point (section 3 of RFC 3629, shortest form) if and only if they are those the code writes |
| JsonStrings.Utf8Unique | json-iec104-server/cJSON/cJSON.c:715-764 | A code point has no other encoding |
| JsonStrings.SurrogatesCorrect | json-iec104-server/cJSON/cJSON.c:668-708 | Two surrogates decode to a code point if and only if they are the ones that section 2.1 of RFC 2781 gives for it |
| JsonStrings.EscapeDecodes | json-iec104-server/cJSON/cJSON.c:652-770 | An escape, or pair of escapes, that denotes a code point decodes to the UTF-8 encoding of this code point and consumes exactly the escape |
| JsonStrings.OnlyDenotingDecodes | json-iec104-server/cJSON/cJSON.c:652-770 | With four hex digits nothing else decodes: lone or swapped surrogates fail |
| JsonStrings.MalformedDigitsAreNul | json-iec104-server/cJSON/cJSON.c:615-649 | Malformed hex digits decode to a NUL byte, and six bytes are consumed |
| JsonStrings.EscapesDecode | json-iec104-server/cJSON/cJSON.c:836-863 | An escape of two characters is read if and only if section 7 of RFC 8259 has it, and as that character |
| JsonStrings.EscapesPrint | json-iec104-server/cJSON/cJSON.c:982-1015 | A byte is printed as it is unless it must be escaped, then by the escape of two characters if there is one, and otherwise by four digits, with letters in lower case |
| Bits.TailByte | json-iec104-server/cJSON/cJSON.c:748-753 | A continuation byte, the code point with 0x80 set and masked by 0xBF, is 0x80 and the low six bits of x |
| Bits.LeadByte | json-iec104-server/cJSON/cJSON.c:754-758 | Setting the mark of a first byte above its bits adds it, so that the byte is the mark plus the bits |
| Bits.JoinedTens | json-iec104-server/cJSON/cJSON.c:707 | The low ten bits of two surrogates, masked, shifted and joined, are the number with these digits to base 1024 |
| Bits.LowTenBits | json-iec104-server/cJSON/cJSON.c:707 | The mask 0x3FF takes the remainder modulo 1024 |
| JsonOverread.OverreadExactly | json-iec104-server/cJSON/cJSON.c:773-784 | On a buffer without terminator: the byte behind it is read if and only if its last byte is a comma and some text that goes on with `"":0}` is parsed completely, that is, if the buffer is cut off right behind a comma between members; so one that ends in any other byte is never left |
| JsonOverread.OverreadWitness | json-iec104-server/cJSON/cJSON.c:1646-1662 | The six bytes `{"":0,` are such a buffer |
| JsonOverread.SameValue | json-iec104-server/cJSON/cJSON.c:1312-1364 | Up to that comma, a buffer and the text that goes on are parsed alike |
| ParseBuffer.ParseWithLength | json-iec104-server/cJSON/cJSON.c:1095-1172 | The parser in place agrees with the parsing functions, terminates, and reads no byte outside the buffer, unless the buffer is cut off behind a comma between members |
| ParseBuffer.ParseText | json-iec104-server/cJSON/cJSON.c:1079-1092 | A text with its terminator is parsed in place without leaving it, on every input |
| ParseBuffer.ParseBuffer.SkipWhitespace | json-iec104-server/cJSON/cJSON.c:1038-1061 | The offset moves to the first byte that is no blank, but stays inside the buffer |
| ParseBuffer.ParseBuffer.SkipBom | json-iec104-server/cJSON/cJSON.c:1064-1077 | A byte order mark is skipped only at offset 0 and only if there is more |
| ParseBuffer.ParseBuffer.ParseNumber | json-iec104-server/cJSON/cJSON.c:305-379 | At most 63 bytes of a number are copied, and the offset moves by what strtod consumed |
| ParseBuffer.ParseBuffer.Utf16LiteralToUtf8 | json-iec104-server/cJSON/cJSON.c:652-770 | Either nothing is written and 0 returned, or exactly the encoding is written at the output position, and nothing before it changes |
| ParseBuffer.ParseBuffer.WriteUtf8 | json-iec104-server/cJSON/cJSON.c:747-764 | The loop that masks and shifts the code point, from the last byte to the first, writes its encoding |
| ParseBuffer.ParseBuffer.DecodeString | json-iec104-server/cJSON/cJSON.c:819-877 | The second pass stays inside the array that was allocated and fills it with the decoded bytes |
| ParseBuffer.ParseBuffer.ParseString | json-iec104-server/cJSON/cJSON.c:773-899 | The two passes over a string; the first byte is read without a test, so that the caller must be inside the buffer, and all others are inside |
| ParseBuffer.ParseBuffer.ParseValue | json-iec104-server/cJSON/cJSON.c:1312-1364 | The value, the offset behind it, and the depth is what it was |
| ParseBuffer.ParseBuffer.ParseArray | json-iec104-server/cJSON/cJSON.c:1441-1536 | Array: the items in order; on success depth is restored and the offset is behind the bracket |
| ParseBuffer.ParseBuffer.ParseObject | json-iec104-server/cJSON/cJSON.c:1601-1711 | Object: the members in order; on success depth is restored and the offset is behind the brace |
| ParseBuffer.ParseBuffer.ParseItems | json-iec104-server/cJSON/cJSON.c:1473-1513 | The loop over items, which links each new one behind those before |
| ParseBuffer.ParseBuffer.ParseMembers | json-iec104-server/cJSON/cJSON.c:1631-1689 | The loop over members, which links each new one behind those before |
| JsonParser.ParseValue | json-iec104-server/cJSON/cJSON.c:1312-1364 | On success the offset has strictly advanced and is inside the buffer or at its end |
| JsonParser.ParseMembers | json-iec104-server/cJSON/cJSON.c:1631-1689 | On success the offset has strictly advanced and is inside the buffer or at its end |
| JsonParser.StringEnd | json-iec104-server/cJSON/cJSON.c:786-811 | The closing quote lies inside the buffer, and no more bytes are counted as skipped than were passed |
| PrintBuffer.PrintPreallocated | json-iec104-server/cJSON/cJSON.c:1292-1309 | Succeeds if and only if the text and two more bytes fit, and then the array holds the text; so 5 spare bytes always suffice and one never does |
| PrintBuffer.PrintBuffered | json-iec104-server/cJSON/cJSON.c:1262-1290 | Succeeds if and only if the prebuffer is not negative and the text fits into INT_MAX bytes; the text does not depend on the first size of the buffer |
| PrintBuffer.Print | json-iec104-server/cJSON/cJSON.c:1187-1249 | The same text from a buffer of 256 bytes that grows |
| PrintBuffer.PrintBuffer.Ensure | json-iec104-server/cJSON/cJSON.c:439-522 | Room is made if and only if the request is within the capacity, and what was written is kept |
| PrintBuffer.PrintBuffer.UpdateOffset | json-iec104-server/cJSON/cJSON.c:525-535 | The offset moves to the terminator of what was written |
| PrintBuffer.PrintBuffer.PrintNumber | json-iec104-server/cJSON/cJSON.c:545-612 | Writes the decimal digits of an int and a terminator |
| PrintBuffer.PrintBuffer.CountEscapes | json-iec104-server/cJSON/cJSON.c:929-953 | The first pass over a string counts exactly the bytes that escaping adds |
| PrintBuffer.PrintBuffer.WriteEscaped | json-iec104-server/cJSON/cJSON.c:972-1018 | The second pass writes the escaped text |
| PrintBuffer.PrintBuffer.PrintString | json-iec104-server/cJSON/cJSON.c:902-1021 | Fails exactly when quoted text and terminator are too long for the buffer, and writes nothing outside it |
| PrintBuffer.PrintBuffer.PrintValue | json-iec104-server/cJSON/cJSON.c:1367-1438 | Fails exactly when the text of the value and 2 bytes are too long; otherwise the buffer holds what it held and then this text |
| PrintBuffer.PrintBuffer.PrintArray | json-iec104-server/cJSON/cJSON.c:1539-1598 | The same for the loop over items, whose separators need fewer spare bytes |
| PrintBuffer.PrintBuffer.PrintObject | json-iec104-server/cJSON/cJSON.c:1714-1825 | The same for the loop over members, with tabs and line breaks |
| PrintBuffer.TextNulFree | json-iec104-server/cJSON/cJSON.c:1367-1438 | No text of a printable tree contains the terminator |
| NodeList.Item.GetArrayItem | json-iec104-server/cJSON/cJSON.c:1851-1868 | The child at that position, or NULL when there are not so many |
| NodeList.Item.GetObjectItem | json-iec104-server/cJSON/cJSON.c:1880-1910 | The first child whose name is the same, byte by byte or up to the case of letters, or NULL when no child has that name |
| NodeList.Item.AddItemToArray | json-iec104-server/cJSON/cJSON.c:1956-1987 | A child list gets the item as its last child, and the head then knows it; when prev of the head is NULL nothing is added, and when it is another child, those behind it are lost |
| NodeList.Duplicate | json-iec104-server/cJSON/cJSON.c:2749-2776 | Whatever prev of the head is, the copy of a child list is one with right links, and with the same names in order |
| NodeList.Item.InsertItemInArray | json-iec104-server/cJSON/cJSON.c:2263-2290 | Inserts before that position, or appends behind the last one; negative positions are refused |
| NodeList.Item.DetachItemViaPointer | json-iec104-server/cJSON/cJSON.c:2187-2221 | Removes the item from the sequence of children, wherever it stands, and unlinks it completely |
| NodeList.Item.DetachItemFromArray | json-iec104-server/cJSON/cJSON.c:2223-2231 | Removes the child at that position, and nothing when there is none |
| NodeList.Item.DetachItemFromObject | json-iec104-server/cJSON/cJSON.c:2238-2250 | Removes the first child whose name is the same, in both case modes, and nothing when there is none |
| NodeList.Item.ReplaceItemViaPointer | json-iec104-server/cJSON/cJSON.c:2292-2339 | Puts the replacement in the place of the item, which is unlinked completely |
| NodeList.AppendedChain | json-iec104-server/cJSON/cJSON.c:1965-1984 | The links that are written make a chain of old children and new one, with head.prev == tail and tail.next == NULL |
| NodeList.InsertedChain | json-iec104-server/cJSON/cJSON.c:2278-2288 | The same for insertion, at the head and in between |
| NodeList.RemovedChain | json-iec104-server/cJSON/cJSON.c:2194-2218 | The same for removal, of the head, of the tail and in between |
| NodeList.ReplacedChain | json-iec104-server/cJSON/cJSON.c:2304-2335 | The same for replacement, also of an only child |
| SortSpec.SortCorrect | json-iec104-server/cJSON/cJSON_Utils.c:484-593 | Sorting gives a permutation that is in the order of compare_strings |
| SortSpec.SortReverses | json-iec104-server/cJSON/cJSON_Utils.c:534-570 | Members with the same key come out in the opposite order |
| SortSpec.MergeSorted | json-iec104-server/cJSON/cJSON_Utils.c:534-590 | Merging two sorted lists gives a sorted list |
| SortSpec.MergeMembers | json-iec104-server/cJSON/cJSON_Utils.c:534-590 | ... with exactly the members of both |
| SortSpec.AscendingIsSorted | json-iec104-server/cJSON/cJSON_Utils.c:498-507 | The test for a sorted list, which stops at equal neighbours, accepts only sorted lists |
| SortList.SortList | json-iec104-server/cJSON/cJSON_Utils.c:484-593 | Relinks exactly the same nodes into a sorted chain, with prev links that are right behind the head; prev of the head is what it was when this node was the head before, and NULL otherwise; a list that is ascending already is not touched; terminates |
| SortList.SortObject | json-iec104-server/cJSON/cJSON_Utils.c:595-602 | The sorted object is a child list to which members can be added if and only if its first and its last child are those from before |
| SortList.AddToSorted | json-iec104-server/cJSON/cJSON.c:1965-1984 | A member that is added to an object after it was sorted becomes its last if and only if this is so; it is lost when another child has come first, and otherwise the children behind the one that was last are lost |
| SortList.LostMember | json-iec104-server/cJSON/cJSON.c:1976-1983 | {"b", "a"}, sorted, and with "c" added, is {"a", "b"} |
| SortList.MergeLists | json-iec104-server/cJSON/cJSON_Utils.c:534-592 | Relinks both chains into the merged one |
| SortList.FindMiddle | json-iec104-server/cJSON/cJSON_Utils.c:509-521 | The walk at double speed ends in the middle |
| SortList.Split | json-iec104-server/cJSON/cJSON_Utils.c:522-527 | Cuts the chain before that node |
| SortList.IsAscending | json-iec104-server/cJSON/cJSON_Utils.c:498-507 | The walk tells whether each key is smaller than the next |
| JsonMap.MeaningExact | json-iec104-server/cJSON/cJSON_Utils.c:604-690 | Two trees mean the same if and only if they are of one kind, with the same bool, number or bytes, the same items in the same places, and each member of one object has the same name and value as one of the other |
| JsonMap.ContainsBoth | json-iec104-server/cJSON/cJSON.c:3068-3104 | Objects mean the same if and only if each has the members of the other |
| JsonMap.SortedZip | json-iec104-server/cJSON/cJSON_Utils.c:656-685 | Sorted objects with unique names mean the same if and only if they agree position by position |
| JsonMap.ReorderedMembers | json-iec104-server/cJSON/cJSON_Utils.c:595-602 | Permuting the members of an object changes neither its meaning, in either case mode, nor its nesting |
| JsonMap.FindMeaning | json-iec104-server/cJSON/cJSON.c:1880-1910 | Looking a name up finds a member exactly when the object has the name, and then its value |
| JsonMap.WithoutMeaning | json-iec104-server/cJSON/cJSON.c:2187-2221 | Detaching a member takes its name out of the object, and nothing else |
| JsonMap.AppendMeaning | json-iec104-server/cJSON/cJSON.c:2011-2046 | Adding a member with a new name adds this name, and nothing else |
| JsonCompare.CompareJson | json-iec104-server/cJSON/cJSON_Utils.c:604-690 | Decides whether two trees are the same up to the order of members: one kind, the same bytes and numbers, the same items, and the same members by name; members are only reordered, and flat objects are sorted afterwards (what this does to the links tells SortList.SortObject) |
| JsonCompare.CompareByName | json-iec104-server/cJSON/cJSON.c:2986-3108 | Looking every member up in both directions decides the same |
| JsonCompare.CompareDoubleInt | json-iec104-server/cJSON/cJSON_Utils.c:112-117 | On ints the comparison with a relative tolerance is equality |
| MergePatch.MergePatch | json-iec104-server/cJSON/cJSON_Utils.c:1321-1379 | For unique names the result is MergePatch(Target, Patch) of section 2 of RFC 7396; for any others the members of the patch act one after the other, at every level |
| MergePatch.MergeMember | json-iec104-server/cJSON/cJSON_Utils.c:1339-1377 | One member of the patch deletes, patches or adds one member of the target |
| MergePatch.InOrderIsMerged | json-iec104-server/cJSON/cJSON_Utils.c:1338-1377 | With unique names the order of the patch does not matter: applying it member by member is the function of the RFC |
| MergePatch.AppliedIsMerged | json-iec104-server/cJSON/cJSON_Utils.c:1321-1379 | The same for a whole patch |
| MergePatch.MergedTwice | json-iec104-server/cJSON/cJSON_Utils.c:1321-1379 | Merging the same patch again changes nothing |
| MergePatch.MergedIntoNothing | json-iec104-server/cJSON/cJSON_Utils.c:1332-1342 | A patch merged into nothing loses its nulls, so that it gives itself if and only if it has none |
| MergePatch.DiffCorrect | json-iec104-server/cJSON/cJSON_Utils.c:1391-1471 | Merging the difference of two trees gives the goal if and only if the goal has no null member outside arrays that the origin does not have in the same place |
| PatchWalk.SameMeaning | json-iec104-server/cJSON/cJSON_Utils.c:604-690 | Over names whose order does not depend on case, trees are equal in one case mode if and only if they are in the other |
| PatchWalk.OrderSorted | json-iec104-server/cJSON/cJSON_Utils.c:595-602 | Over such names an object sorted in one case mode is sorted in the other |
| PatchWalk.LowerCaseOrder | json-iec104-server/cJSON/cJSON_Utils.c:83-109 | Names without upper case letters are such names |
| PatchWalk.TurnRemoves | json-iec104-server/cJSON/cJSON_Utils.c:1435-1441 | diff < 0: the patch and the difference of what is left still make up the whole difference |
| PatchWalk.TurnInserts | json-iec104-server/cJSON/cJSON_Utils.c:1442-1448 | diff > 0: likewise |
| PatchWalk.TurnSkips | json-iec104-server/cJSON/cJSON_Utils.c:1449-1461 | Equal names and equal values: likewise, and nothing is added |
| PatchWalk.TurnPatches | json-iec104-server/cJSON/cJSON_Utils.c:1449-1461 | Equal names and different values: likewise, when the patch of the values is their difference |
| PatchGenerator.GenerateMergePatch | json-iec104-server/cJSON/cJSON_Utils.c:1391-1471 | Over names whose order does not depend on case: NULL if and only if both are objects that are the same, otherwise their difference, in both case modes; with regard to case it is enough that the names below the members are such; and for any names the exact patch when no values under one name differ, or when there is one name with flat values |
| PatchGenerator.GenerateMember | json-iec104-server/cJSON/cJSON_Utils.c:1449-1461 | A patch for two values of one name exactly when they are not the same |
| PatchGenerator.WalkBoth | json-iec104-server/cJSON/cJSON_Utils.c:1409-1462 | The loop over both sorted objects, advanced by strcmp, gives the difference |
| PatchGenerator.GenerateAndMerge | json-iec104-server/cJSON/cJSON_Utils.c:1321-1471 | In every combination of case modes, over such names: merging the generated patch into a duplicate of the tree it was made from gives a tree that is the same as the goal if and only if nulls do not stand in the way; when both modes regard case, only the names below the members need be such |
| PatchGenerator.OrderNeeded | json-iec104-server/cJSON/cJSON_Utils.c:1423 | Whenever the order of some names depends on case there are objects with just these names for which generating without regard to case, and merging, misses a goal that can be reached |
| PatchGenerator.OrderNeededBelow | json-iec104-server/cJSON/cJSON_Utils.c:1455 | Whenever the order of some names depends on case there are objects with these names below their members for which generating with regard to case, and merging, misses a goal that can be reached |
| PatchGenerator.OtherOrder | json-iec104-server/cJSON/cJSON_Utils.c:1406-1448 | From {"x": 1, "y": 1} to {"y": 1} with such names, as "a" and "B", the goal is missed in both case modes of merging |
| PatchGenerator.OtherOrderBelow | json-iec104-server/cJSON/cJSON_Utils.c:1455 | The same one level below the top, with regard to case, also for names that differ in case only |
| PatchGenerator.OtherCase | json-iec104-server/cJSON/cJSON_Utils.c:1435-1448 | From {"a": 1} to {"A": 1}, without regard to case, the goal is missed |
| PatchGenerator.CaseIsLost | json-iec104-server/cJSON/cJSON_Utils.c:1435-1448 | So it is with "a" and "A" |
| PatchGenerator.OrderIsLost | json-iec104-server/cJSON/cJSON_Utils.c:1406-1448 | ... and from {"B": 1, "a": 1} to {"B": 1} |
| JsonPointer.ComparePointers | json-iec104-server/cJSON/cJSON_Utils.c:120-154 | True if and only if the next token of the pointer, unescaped, is the same name as the key, byte by byte or up to the case of letters; malformed escapes name nothing |
| JsonPointer.TildeEscapes | json-iec104-server/cJSON/cJSON_Utils.c:127-137 | "~0" is "~" and "~1" is "/", both ways, and "~" goes with nothing else (section 3 of RFC 6901) |
| JsonPointer.PointerEncodedLength | json-iec104-server/cJSON/cJSON_Utils.c:157-170 | The length of the escaped name |
| JsonPointer.EncodeStringAsPointer | json-iec104-server/cJSON/cJSON_Utils.c:173-195 | Writes the escaped name and a terminator behind what is there |
| JsonPointer.EncodeDecodes | json-iec104-server/cJSON/cJSON_Utils.c:173-195 | Unescaping (sections 3 and 4 of RFC 6901) undoes escaping, and no slash is left |
| JsonPointer.DecodeArrayIndex | json-iec104-server/cJSON/cJSON_Utils.c:274-298 | The loop accepts exactly the tokens of DecodeIndex, with that value |
| JsonPointer.IndexExact | json-iec104-server/cJSON/cJSON_Utils.c:281-298 | A token is taken for an index if and only if it is an index of section 4 of RFC 6901, or empty, which is taken for 0, or starts with a digit other than 0 and goes on with bytes from the digits up, not all of them digits; indices have their decimal value modulo the size of size_t |
| JsonPointer.GetItemFromPointer | json-iec104-server/cJSON/cJSON_Utils.c:301-346 | The walk in place resolves the pointer token by token |
| JsonPointer.FoundExactly | json-iec104-server/cJSON/cJSON_Utils.c:301-346 | Something is found if and only if every token, up to the end or to text without a leading slash, leads to a child |
| JsonPointer.RfcAgrees | json-iec104-server/cJSON/cJSON_Utils.c:301-346 | The walk gives what section 4 of RFC 6901 says unless the pointer starts without a slash, or a token that is no index of the RFC (or one beyond size_t) leads to an item of an array from where the rest leads on, or this is so further down; exactly then it finds a node where the RFC has none |
| JsonPointer.DeviationWitness | json-iec104-server/cJSON/cJSON_Utils.c:301-346 | "x" resolves to the root, and "/" to the first item of an array |
| JsonPointer.FindPointerFromObjectTo | json-iec104-server/cJSON/cJSON_Utils.c:198-259 | The search gives the text of the path to the first node that is the target |
| JsonPointer.ArrayPointer | json-iec104-server/cJSON/cJSON_Utils.c:219-238 | A decimal index, a slash and the rest fit into the 20 bytes that are reserved, and are written |
| JsonPointer.MemberPointer | json-iec104-server/cJSON/cJSON_Utils.c:240-249 | The escaped key and the rest fit into what is reserved, and are written |
| JsonPointer.PointerRoundTrip | json-iec104-server/cJSON/cJSON_Utils.c:198-346 | A pointer is found for every node of the tree and for no other, and resolving it gives that node; in each case mode in which siblings have unique keys |
| SelectTable.Selects.StoreSelectState | json-iec104-server/src/protocol/command_handler.c:26-49 | Overwrites the first entry that is free or of this point, and nothing in a full table |
| SelectTable.Selects.IsPreviouslySelected | json-iec104-server/src/protocol/command_handler.c:51-72 | True if and only if the first entry of point and connection is younger than 5000 ms; an older one is freed |
| SelectTable.Selects.ClearSelectState | json-iec104-server/src/protocol/command_handler.c:74-87 | Frees the first entry of point and connection, and no other |
| SelectTable.Selects.HandleCommand | json-iec104-server/src/protocol/command_handler.c:89-155 | An execute is confirmed if and only if in direct mode or selected in time, and then the select is gone; a select is always confirmed |
| SelectBeforeOperate.StepKeeps | json-iec104-server/src/protocol/command_handler.c:26-87 | Every lock region, of any connection, keeps the invariant: entries come from selects, and no used select is still in the table |
| SelectBeforeOperate.RunKeeps | json-iec104-server/src/protocol/command_handler.c:26-87 | So does every run |
| SelectBeforeOperate.ExecutesInject | json-iec104-server/src/protocol/command_handler.c:89-220 | In every interleaving of any number of connections each executed command has its own select, of the same point and connection, made less than 5000 ms before; no select serves twice |
| SelectBeforeOperate.SelectThenExecute | json-iec104-server/src/protocol/command_handler.c:125-151 | If others do not select the same point meanwhile, an execute succeeds if and only if the table had room at the select and less than 5000 ms passed |
| SelectBeforeOperate.SelectThenOutcome | json-iec104-server/src/protocol/command_handler.c:125-151 | From there to the end, whatever others do meanwhile: the command adds exactly one event of its connection, that it was executed if the select had room and is less than 5000 ms old, and that it was refused otherwise |
| SelectBeforeOperate.UninterruptedRun | json-iec104-server/src/protocol/command_handler.c:89-155 | With nobody in between the steps of a command leave the table and the one event that the handler does |
| SelectBeforeOperate.HandleAlone | json-iec104-server/src/protocol/command_handler.c:89-155 | The handler in place leaves the same table as these steps, and executes if and only if they do |
| SelectBeforeOperate.HoldsRun | json-iec104-server/src/protocol/command_handler.c:26-87 | What others do with other points leaves the selects of a point and connection in place |
| SelectBeforeOperate.CheckFinds | json-iec104-server/src/protocol/command_handler.c:51-72 | The check finds the newest select of the point, so that its age decides |
| FileTransfer.EveryRunIsGood | json-iec104-server/lib60870/lib60870-C/src/file-service/file_server.c:270-855 | In every run, from creation on: segments have 1 to maxSegmentSize bytes and continue the section; a last segment comes only when the section is complete; a section is announced with its length; only whole sections are accepted or refused; transferComplete comes at most once for each selected file, finished at most once for each accepted file, no segment is handed over outside a transfer, and offsets are contiguous from 0; and in every sending state a file is selected |
| FileTransfer.StepKeeps | json-iec104-server/lib60870/lib60870-C/src/file-service/file_server.c:270-855 | Every message and every tick of runTask keeps the invariant |
| FileTransfer.RunKeeps | json-iec104-server/lib60870/lib60870-C/src/file-service/file_server.c:270-855 | So does every run |
| FileTransfer.SectionChecksum | json-iec104-server/lib60870/lib60870-C/src/file-service/file_server.c:241-263 | A last segment has the sum of its section modulo 256 as its checksum if and only if what was sent of cut off sections before sums up to 0 |
| FileTransfer.SumsBalance | json-iec104-server/lib60870/lib60870-C/src/file-service/file_server.c:241-263 | In every run, the checksums since the file was called sum up to those of the sections accepted, refused and not answered, and of what was cut off before them |
| FileTransfer.FileChecksum | json-iec104-server/lib60870/lib60870-C/src/file-service/file_server.c:151-166 | A last section has the sum of the accepted sections modulo 256 as its checksum if and only if the refused ones, and what was cut off, sum up to 0 |
| FileTransfer.UncutChecksums | json-iec104-server/lib60870/lib60870-C/src/file-service/file_server.c:151-166 | If no section was cut off, every section checksum is the sum of the section, and the last-section checksum that of the accepted sections if and only if the refused ones sum up to 0, modulo 256 |
| FileTransfer.StaleChecksum | json-iec104-server/lib60870/lib60870-C/src/file-service/file_server.c:848-852 | A transfer that times out within a section of one byte and is started again sends checksum 2 for a section with sum 1 |
| FileTransfer.RefusedChecksum | json-iec104-server/lib60870/lib60870-C/src/file-service/file_server.c:518-530 | A file with sum 1 whose only section is refused once and then accepted ends with checksum 2 |
| FileAnswers.AnsweredExactly | json-iec104-server/lib60870/lib60870-C/src/file-service/file_server.c:270-816 | Told by the kind of output, for every state and message: each message that is sent, each call of an interface of the user and each mark comes if and only if its condition holds; as that transferComplete comes only for a file acknowledgement in the state that waits for it, and a last section only when the next section is empty and the last one was accepted or declined |
| FileAnswers.TickSends | json-iec104-server/lib60870/lib60870-C/src/file-service/file_server.c:819-855 | A tick puts something out only for the connection that selected the file while a section is sent: the last segment if all of the section was sent, and otherwise as much of the rest as fits into a segment |
| FileAnswers.TicksSend | json-iec104-server/lib60870/lib60870-C/src/file-service/file_server.c:819-855 | Ticks that are not late send a section completely, with its last segment, if they are one more than its segments; with fewer it is still being sent |
| FileAnswers.SegmentsFit | json-iec104-server/lib60870/lib60870-C/src/file-service/file_server.c:203-209 | A section has the smallest number of segments that can hold it |
| FileAnswers.TimeoutExactly | json-iec104-server/lib60870/lib60870-C/src/file-service/file_server.c:281-288 | A message that belongs to no transfer changes nothing, except that a transfer whose timeout is exceeded is over |
| FileAnswers.HoldsExactly | json-iec104-server/lib60870/lib60870-C/src/file-service/file_server.c:270-816 | What a message leaves of the address of the current file, of the originator, of the selected file and its connection, and of the receiver, each told by the kind of message that changes it |
| FileAnswers.RenewedExactly | json-iec104-server/lib60870/lib60870-C/src/file-service/file_server.c:270-816 | The messages that start the timeout anew are told; every other message leaves the time as it was |
| FileAnswers.TickLeaves | json-iec104-server/lib60870/lib60870-C/src/file-service/file_server.c:819-855 | A tick leaves everything but the section that is sent and the time of sending; the state after it is told, with the end by timeout |
| FileAnswers.PhaseExactly | json-iec104-server/lib60870/lib60870-C/src/file-service/file_server.c:270-816 | Told by the state: after a message the server is in a state if and only if the message leads there from the state that it finds, or leads nowhere else |
| FileReception.FileIsReceived | json-iec104-server/lib60870/lib60870-C/src/file-service/file_server.c:296-464 | A file that a handler accepts, in any sections cut into any segments, with every message in time: the receiver gets exactly these segments, in order and at their offsets, and then success; the complete conversation is told |
| FileReception.HandedInPlace | json-iec104-server/lib60870/lib60870-C/src/file-service/file_server.c:375-398 | Each segment that is handed over stands in its section at the offset that is told with it |
| FileReception.CanDeliver | json-iec104-server/lib60870/lib60870-C/src/file-service/file_server.c:296-464 | Every file can be delivered like that |
| FileSending.FileIsSent | json-iec104-server/lib60870/lib60870-C/src/file-service/file_server.c:466-792 | A file that is selected, called, fetched section by section and acknowledged, with every message in time: what was accepted at the end are all its sections up to the first empty one, or the first 255; its checksum is right if and only if what was cut off before sums up to 0; and it is reported complete |
| FileSending.LeadingAll | json-iec104-server/lib60870/lib60870-C/src/file-service/file_server.c:538-566 | These are all sections of a file with at most 255 of which none is empty |
| FileSending.SectionFetched | json-iec104-server/lib60870/lib60870-C/src/file-service/file_server.c:714-792 | One section: what was accepted grows by it, and the next one is announced, or the end of the file |
| FileSending.CanFetch | json-iec104-server/lib60870/lib60870-C/src/file-service/file_server.c:466-792 | Every file can be fetched like that |
| FileServer.CalculateChecksum | json-iec104-server/lib60870/lib60870-C/src/file-service/file_server.c:187-198 | The sum modulo 256 |
| FileServer.CS101FileServer.SendSegment | json-iec104-server/lib60870/lib60870-C/src/file-service/file_server.c:201-238 | Sends the next segment of the section, at most maxSegmentSize bytes, and false exactly when none is left |
| FileServer.CS101FileServer.RunTask | json-iec104-server/lib60870/lib60870-C/src/file-service/file_server.c:819-855 | A tick is the transition Task of the state machine, and keeps the fields consistent |
| FileServer.CS101FileServer.HandleAsdu | json-iec104-server/lib60870/lib60870-C/src/file-service/file_server.c:270-816 | The handler is the transition Handle of the state machine, and keeps the fields consistent |
| Packing.MaxIOAsTight | json-iec104-server/src/protocol/interrogation.c:15-43 | If an object fits at all: an ASDU of n objects is within maxASDUSize if and only if n is at most the computed number, in both modes |
| Packing.ProgressExactly | json-iec104-server/src/protocol/interrogation.c:15-43 | The loop without sequences makes progress if and only if maxASDUSize >= 6 + size of an object; the other always does |
| Packing.FilledTakes | json-iec104-server/lib60870/lib60870-C/src/iec60870/cs101/cs101_asdu.c:244-284 | Of a chunk of at most that many objects the ASDU takes the first 127, with the addresses that three bytes hold; in a sequence they count up from the first, and if that one does not fit, all others are dropped |
| Packing.EncodedExactly | json-iec104-server/lib60870/lib60870-C/src/iec60870/cs101/cs101_information_objects.c:172-184 | What is read of an address that was written is in the range of three bytes, and the same if and only if it was in that range |
| Packing.HeldExactly | json-iec104-server/lib60870/lib60870-C/src/iec60870/cs101/cs101_asdu.c:244-284 | An ASDU holds what was handed to it if and only if this was at most 127 objects and the addresses that are written fit into three bytes |
| Packing.ChunksJoin | json-iec104-server/src/protocol/interrogation.c:152-241 | The chunks joined are the configured points, in order, each once |
| Packing.ChunksAreRuns | json-iec104-server/src/protocol/interrogation.c:152-241 | Every chunk lies within one maximal run of consecutive addresses, is a sequence if and only if this run has 3 or more, is not empty and fits into its ASDU |
| Packing.FewestAsdus | json-iec104-server/src/protocol/interrogation.c:165-238 | No other way to send a run in its mode, with ASDUs that are short enough, needs fewer ASDUs |
| Packing.DeliveredIff | json-iec104-server/lib60870/lib60870-C/src/iec60870/cs101/cs101_asdu.c:244-284 | ASDUs hold all the points of their chunks if and only if every chunk has at most 127, and written addresses that fit |
| Packing.AllPointsArrive | json-iec104-server/src/protocol/interrogation.c:152-241 | All points arrive, in order, if and only if the computed number for sequences or the longest run is at most 127, and every address that is written (those of single points, and the first of each sequence) fits into three bytes |
| Packing.AllFit | json-iec104-server/src/protocol/interrogation.c:152-241 | The latter is so when all configured addresses fit |
| Packing.SinglePointsArrive | json-iec104-server/src/protocol/interrogation.c:25-35 | With ASDUs of 249 bytes the computed number for single points is 240, but one run of them, with addresses that fit, arrives completely exactly up to 127 points |
| Packing.LargeAddressesAreLost | json-iec104-server/lib60870/lib60870-C/src/iec60870/cs101/cs101_asdu.c:244-284 | With three points at the addresses 0x1000000 to 0x1000002 points are lost |
| Interrogation.SequenceLength | json-iec104-server/src/protocol/interrogation.c:155-160 | The length of the maximal run from there on |
| Interrogation.FillAsdu | json-iec104-server/src/protocol/interrogation.c:185-194 | The loop over a chunk puts its points into the ASDU |
| Interrogation.SendRun | json-iec104-server/src/protocol/interrogation.c:170-204 | The loop over a run sends one ASDU for each chunk |
| Interrogation.SendInterrogationForType | json-iec104-server/src/protocol/interrogation.c:133-246 | Sends the chunks of the configured points, and nothing is lost if and only if no sequence is handed more than 127 objects and every address that is written fits into three bytes |
| Interrogation.PeriodicConfig.Due | json-iec104-server/src/threads/periodic_sender.c:41-44 | With times that fit into 64 bits it is due exactly when it is enabled and the period has gone by since it was sent, also when the clock has wrapped around in between |
| Interrogation.PeriodicConfig.SendPeriodicDataForType | json-iec104-server/src/threads/periodic_sender.c:40-132 | Sends the same ASDUs as an interrogation, but only when enabled and due, and then remembers the time |
| OfflineThrottle.OfflineIsThrottled | json-iec104-server/src/data/data_manager.c:169-183 | In every run under a clock that does not go back, two entries of the same point queued while no client is connected are at least the threshold apart, on both paths; and each type has at most one slot |
| OfflineThrottle.ThrottleExactly | json-iec104-server/src/data/data_manager.c:178 | The configured time of offline_udt_time * 1000 ms is kept in all runs if and only if it is below 2^32 |
| OfflineThrottle.RunKeeps | json-iec104-server/src/data/data_manager.c:205-262 | The invariant behind it is kept by every run |
| OfflineThrottle.LineLast | json-iec104-server/src/input/input_handler.c:145-230 | One input line: a point is queued offline only if the time since it last was has elapsed, and then, and for no other point, its time is recorded |
| OfflineThrottle.StoredExactly | json-iec104-server/src/data/data_manager.c:216-242 | A line stores its value if the point is configured and its stored value is not within tolerance, and changes no other point |
| OfflineThrottle.QueuedExactly | json-iec104-server/src/input/input_handler.c:145-250 | What a line queues: the form with a time tag if nobody is connected, the type has one, the value is beyond the deadband and the time since the last one has elapsed; otherwise the value itself if it is not within tolerance and somebody is connected, or if it has a time tag and the time has elapsed; otherwise nothing |
| OfflineThrottle.ToleranceExactly | json-iec104-server/src/data/data_manager.c:113-160 | Values count as equal if and only if they are the same, or floats less than 0.0001 apart, or, for type 13 with a deadband, at most that percentage of the stored value apart |
| OfflineThrottle.DeadbandExactly | json-iec104-server/src/input/input_handler.c:178-204 | A float passes the deadband if and only if it is more than 0.0001 off, and at least that percentage of the stored value, which counts as 100 percent where that value is nearly 0 |
| OfflineThrottle.StoredWithin | json-iec104-server/src/data/data_manager.c:216-242 | After a line for a configured point its stored value is within tolerance of that of the line |
| OfflineThrottle.SentExactly | json-iec104-server/src/data/data_manager.c:216-262 | With a client connected a value within tolerance changes nothing, and any other is queued as it is |
| OfflineThrottle.ResetClears | json-iec104-server/src/data/data_manager.c:270-295 | A reset clears the values of all points |
| OfflineThrottle.SlotAlways | json-iec104-server/src/input/input_handler.c:158-173 | After every run each type has a tracking slot, or finds a free one: ten are enough |
| OfflineThrottle.StepKeeps | json-iec104-server/src/input/input_handler.c:145-258 | Every line, and a reset, keeps the invariant |
| OfflineThrottle.ChangesQueued | json-iec104-server/src/input/input_handler.c:205-217 | The bound is the best possible: there is a run with two entries exactly the threshold apart |
| InputHandler.FindIoaIndex | json-iec104-server/src/data/data_manager.c:77-84 | The first position of the address, or -1 |
| InputHandler.Handler.FindTracking | json-iec104-server/src/input/input_handler.c:158-173 | The slot of the type, made in the first free one if it has none |
| InputHandler.Handler.ProcessValue | json-iec104-server/src/input/input_handler.c:134-258 | The handler in place is the transition of the model, and keeps the fields consistent |
| InputHandler.Handler.ResetAllData | json-iec104-server/src/data/data_manager.c:270-295 | Clears the values and neither slots nor times |

## Left out

- PatchGenerator.GenerateMergePatch: for names whose order depends on case the patch is stated only when no values under one name differ, or when there is one name with flat values.
- JsonRoundTrip.RoundTrip: ints and NUL-free strings only; the text of other numbers ("%1.15g", strtod) depends on floating point.
- JsonCompare.CompareDoubleInt: ints only; on other numbers the tolerance makes the comparison no equivalence.
- SelectBeforeOperate.ExecutesInject: pointers of connections are taken as identities that are not used again, and the clock does not go back.
- SelectBeforeOperate.SelectThenExecute: for runs in which nobody else selects the same point and the connection does not touch it in between; `ExecutesInject` covers all runs.
- FileTransfer.EveryRunIsGood: a file provider gives the same answers whenever it is asked, and the clock does not wrap around.
- OfflineThrottle.OfflineIsThrottled: floats are reals, so that rounding in the deadband is not modelled; conversion of the input number, quality and timestamps of values are left out.
- Parsing builds values: the links of the nodes it allocates are modelled by the append of `NodeList`, not node by node.
- Comparing, merging, generating and resolving pointers work on values, not on the heap: aliasing between trees is not modelled, what sorting does to links is told by `SortList` alone, and a node's address is an identifier in `JsonPointer`.
- `NULL` trees and `NULL` names handed to the comparison, merge and generation functions.
- Failure of allocation, allocation hooks, references, constant keys, raw items and locales of cJSON.
- `cJSON_Duplicate` beyond its loop over one child list (on values it is the identity), and `cJSON_Minify`.
- JSON Patch (json-iec104-server/cJSON/cJSON_Utils.c:807-1309): merge patches give the same kind of theorem.
- The Modbus server, whose cJSON is the same, and the older monolithic server.
- Encoding of ASDUs beyond their sizes and addresses, queues, link layers, sockets, threads and logging; creating an ASDU does not fail, and malformed ASDUs are not modelled.
- Parsing of configuration and of input lines into type, address and value; client counting.
- Reset process commands beyond the reset of the data.
