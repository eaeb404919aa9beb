# Verified models of the firmware SDK's algorithms

This project models the self-contained algorithms of the SDK in Dafny and proves what they promise:
the cJSON parser, printers and minifier, the TCM heap, the XML tree library, the YMODEM firmware
receiver with its block check, the 64-by-32 division, the connection node pool of the AT commands, the
UART receive ring, the AT command index, and the rewrite of the system-data flash sector.

`dafny verify dfyconfig.toml` checks the whole project.

How the modules fit together:

- **cJSON.** `JsonSyntax` says what a text means and how a value is printed. `JsonRoundTrip`, `JsonGaps`,
  `JsonMinify` and `JsonMeaning` prove what printing, parsing and minifying owe each other; `JsonNumbers`,
  `JsonUnicode`, `JsonEscapes`, `JsonLayout` and `JsonIndent` hold that against definitions of their own
  of what digits, escapes, tokens and indentation are. `JsonGrammar` and `JsonErrors` say in full which
  texts are taken, as what, and where every other text is found wrong.
  `JsonNodes`, `JsonParser`, `JsonPrinter` and `JsonMinifyInPlace` are the C code itself: items in a store
  that point at each other, measured buffers, two pointers into one array. `JsonWhole` puts them together.
- **TCM heap.** `TcmFreeList` says what a granule belongs to and what allocating and freeing do to the
  list of chunks; `TcmHeap` is the allocator, whose list lives in the heap's own memory.
- **XML.** `XmlSyntax`, `XmlRoundTrip`, `XmlExact`, `XmlForms` and `XmlIndent` treat texts and trees as values. `XmlNodes` and
  `XmlTree` are the linked nodes and the operations on them, `XmlDump` the size and write passes,
  `XmlPath` the path query, `XmlParser` the parser that hangs each node on its parent before reading its
  content.
- **Firmware update.** `Ymodem` is the receiver, `Crc` the block check, `Gf2` the polynomials behind it.
- **The others.** `Division` (over `Bits`), `NodeLists`, `NodeSockets` and `NodePool`, `UartRing`, `CommandIndex`,
  `SectorRewrite`. `Options`, `Sequences` and `ByteSum` are shared helpers.

Where the C code keeps items and nodes at addresses that it allocates and frees, the model has a store
from addresses to records: freeing removes an address, and only an address that is in the store can be
freed or read, so that leaks, double frees and stale links of items and nodes are visible. The character
buffers that hang on them are values, so nothing is said about the freeing of those.

Places where the code does not do what its purpose suggests, and what is proved of it instead:

- Without CRC mode, `crc_check` sums the block twice into one accumulator, so a block that carries its own
  byte sum is accepted only if that sum is zero (`Crc.OwnSumAccepted`, with the input in
  `Crc.OwnSumRefused`). In either mode a block of zeros is reported as 2 before it is checked.
- A byte that meets a full UART ring costs the oldest unread byte, except when the write index stands on
  the last slot: then all 1024 are lost at once. `UartRing.ExactLoss` counts the loss of every run,
  `UartRing.WholeRingLost` gives the runs that lose the whole ring, and nothing is lost exactly in the
  runs in which no byte meets a full ring (`UartRing.Lossless`).
- A string pointer of NULL is printed as nothing, not even quotes, so an object with an element that
  `cJSON_AddItemToArray` put in prints `{:7}`, which the parser refuses (`JsonGaps.NamelessElement`). A
  printed tree is read back exactly when no string and no member's name is missing
  (`JsonGaps.RoundTripExactly`); `JsonGaps.PrintedReads` says what becomes of all others.
- `tcm_heap_allocmem` takes a size that rounds to a negative one to fit any chunk, which then grows. The
  heap survives a request exactly when the size is servable or nothing is free (`TcmHeap.Heap.AllocMem`).
- The firmware receiver catches an image exactly when no block runs past the image's end before its first
  eight bytes are complete. Every image of 1031 bytes or more is safe from that, whatever the blocks;
  one of 1030 is not (`Ymodem.LongImagesAreStraight`, `Ymodem.ShortImageCrowded`).
- A written XML tree is not read back when an element contains another of its own name at any depth,
  when a name begins with `?` or `!` and is taken for a prolog, or when an element mixes text with other
  content or holds an empty text. Those are the only reasons: `XmlExact.RoundTripExactly` is an if-and-only-if for all trees
  whose tags and texts can be told apart at all. Inputs that fail are in
  `XmlRoundTrip.NestedNamesakesCollapse` and `XmlExact.MarkedNameLost`.

## Model

| member | source | states |
|---|---|---|
| `JsonWhole.PrintAndParse` | component/common/utilities/cJSON.c:264-319 | Printing a tree of items in either format and parsing the text builds the same value of fresh items exactly when no string or name is missing; otherwise the text is refused without a trace, or the lone missing strings are gone from their arrays |
| `JsonWhole.PrintAndMinify` | component/common/utilities/cJSON.c:581-597 | Minifying the buffer of either printer in place leaves the compact text in it |
| `JsonRoundTrip.ValueRoundTrip` | component/common/utilities/cJSON.c:287-507 | At any depth and in either format, the printed text before any suffix that cannot continue a number parses to the same value and stops exactly at the suffix |
| `JsonRoundTrip.DocumentRoundTrip` | component/common/utilities/cJSON.c:264-284 | What is printed is a whole document, also under the check for a null-terminated end |
| `JsonGaps.RoundTripExactly` | component/common/utilities/cJSON.c:215-319 | A printed tree is read back if and only if no string and no member's name is NULL |
| `JsonGaps.PrintedReads` | component/common/utilities/cJSON.c:215-507 | For every printed tree, complete or not: what the parser makes of it, or that it refuses it |
| `JsonGaps.GapRefused` | component/common/utilities/cJSON.c:219-507 | At any depth and in either format, a gap in the printed text is refused wherever a value is expected, except alone between brackets |
| `JsonGaps.NamelessElement` | component/common/utilities/cJSON.c:215-507 | An object whose one element has no name prints a text that is not parsed |
| `JsonRoundTrip.NumberRoundTrip` | component/common/utilities/cJSON.c:96-138 | Every int-range integer, negative or not, is read back from its decimal text |
| `JsonNumbers.NumberReads` | component/common/utilities/cJSON.c:96-138 | Sign, digits, fraction and exponent read as the value of the digits by their places, with the places behind the point taken off the exponent |
| `JsonNumbers.DecimalMeans` | component/common/utilities/cJSON.c:113-138 | An integer is printed as its digits, without leading zeros |
| `JsonRoundTrip.StringRoundTrip` | component/common/utilities/cJSON.c:155-248 | Every NUL-free string is read back from its escaped and quoted form |
| `JsonMinify.ValueSqueezes` | component/common/utilities/cJSON.c:302-596 | In front of any text, minifying turns either printed form of a value into its compact form |
| `JsonMinify.MinifyPrinted` | component/common/utilities/cJSON.c:581-596 | Minifying either printed document gives exactly the unformatted one |
| `JsonMeaning.MinifyKeepsMeaning` | component/common/utilities/cJSON.c:264-597 | Whatever its layout, a document that parses, and whose end the minifier does not overrun, has the same value after minifying |
| `JsonMeaning.LiteralMoves` | component/common/utilities/cJSON.c:155-593 | The minifier copies a literal to the same closing quote at which the parser ends it, and the copy reads the same |
| `JsonLayout.DocumentLaid` | component/common/utilities/cJSON.c:264-439 | With any white space in front of every token a document reads as its value; what follows it is where parsing stops or, if the end is required, the error position |
| `JsonLayout.LayoutMinified` | component/common/utilities/cJSON.c:581-597 | With blanks, line comments and block comments between its tokens, a document minifies to its compact text |
| `JsonIndent.FormattedIsIndented` | component/common/utilities/cJSON.c:348-507 | The formatted text is its tokens, laid out by a rule that sees only the tokens and the open brackets |
| `JsonMinifyInPlace.MinifyInPlace` | component/common/utilities/cJSON.c:581-597 | The two-pointer loop computes the minified text in its own buffer; the write pointer never passes the read pointer and nothing behind the text is touched |
| `JsonMinifyInPlace.MoveLiteral` | component/common/utilities/cJSON.c:593 | The in-place copy of a string literal keeps every byte of it, escaped quotes included |
| `JsonUnicode.EscapesBecomeUtf8` | component/common/utilities/cJSON.c:140-212 | Non-zero scalar values written as \uXXXX escapes or surrogate pairs, their four digits in either case and by their places, are stored as bytes that decode back to exactly those values |
| `JsonGrammar.ParsesGrammar` | component/common/utilities/cJSON.c:96-439 | A text is read as a value, up to some place, if and only if it is a text of the grammar for that value that ends there; the grammar has the liberties that the code takes with numbers, escapes and unfinished strings |
| `JsonGrammar.DocumentParses` | component/common/utilities/cJSON.c:264-284 | A document is taken if and only if it is white space and a text of the grammar with, on demand, nothing but white space behind it |
| `JsonErrors.ErrorPlace` | component/common/utilities/cJSON.c:264-439 | A document is refused with the error pointer at some place if and only if what is in front of the place is a beginning of a text of the grammar that cannot go on as the text does there |
| `JsonEscapes.ShortEscapeRead` | component/common/utilities/cJSON.c:169-206 | Each of the eight short escapes means its character |
| `JsonEscapes.EscapeWritten` | component/common/utilities/cJSON.c:226-247 | Just quotes, backslashes and control characters are escaped when printed, as shortly as can be |
| `JsonEscapes.CountExact` | component/common/utilities/cJSON.c:160-163 | The room measured for a printed string is its length, and four bytes more for every long escape |
| `JsonEscapes.LoneUnitVanishes` | component/common/utilities/cJSON.c:178-190 | Zero and a surrogate without its other half stand for nothing |
| `JsonEscapes.BrokenPairVanishes` | component/common/utilities/cJSON.c:183-188 | A high surrogate vanishes together with an escape behind it that is no low one |
| `JsonEscapes.NoUnitVanishes` | component/common/utilities/cJSON.c:140-180 | So do four characters that are not all hexadecimal digits |
| `JsonUnicode.EncodingDecodes` | component/common/utilities/cJSON.c:154-205 | The stored bytes are the UTF-8 of RFC 3629, section 3, as an independent decoder reads it: shortest form, no surrogates |
| `JsonUnicode.BufferFits` | component/common/utilities/cJSON.c:160-207 | The second pass over any literal writes no more than the first pass counted |
| `JsonUnicode.ParsedStays` | component/common/utilities/cJSON.c:160-163 | The first pass of a literal that is read to its end never steps over the end of the text |
| `JsonParser.StoreUtf8` | component/common/utilities/cJSON.c:192-203 | The fall-through switch writes exactly the UTF-8 bytes, from the last to the first |
| `JsonParser.CopyString` | component/common/utilities/cJSON.c:155-212 | Both passes together leave the literal's value and a NUL in a buffer of the measured size |
| `JsonParser.CJson.ParseValue` | component/common/utilities/cJSON.c:287-300 | The item becomes a tree whose value is what the text means, with fresh items below it; all other items stay, and the end or error position is that of the grammar |
| `JsonParser.CJson.ParseArray` | component/common/utilities/cJSON.c:320-345 | The children of an array are linked both ways, in order, and hold the values of the elements |
| `JsonParser.CJson.ParseObject` | component/common/utilities/cJSON.c:406-439 | The same for the members of an object, with their names |
| `JsonParser.CJson.ParseWithOpts` | component/common/utilities/cJSON.c:264-278 | A document that parses yields one new tree and nothing else; one that does not leaves the store exactly as it was |
| `JsonParser.CJson.Delete` | component/common/utilities/cJSON.c:81-94 | Deleting frees every item of the chain once and no other |
| `JsonPrinter.PrintStringPtr` | component/common/utilities/cJSON.c:215-248 | NULL gives the empty text; otherwise the buffer of the measured length plus three is filled to its last byte with the quoted string |
| `JsonPrinter.PrintValue` | component/common/utilities/cJSON.c:302-317 | The items of a tree are printed to a fresh buffer as the text of its value |
| `JsonPrinter.ComposeArray` | component/common/utilities/cJSON.c:380-403 | The text of an array never leaves the buffer of the length that was added up for it |
| `JsonPrinter.ComposeObject` | component/common/utilities/cJSON.c:480-506 | The same for objects, with tabs and line breaks at any depth |
| `JsonNodes.GrownByHook` | component/common/utilities/cJSON.c:331-341 | Hooking a node behind the last and growing it there keeps the list linked both ways and everything else in place |
| `TcmHeap.Heap.AllocMem` | component/os/os_dep/tcm_heap.c:71-133 | First fit: NULL exactly when no contiguous free run is long enough, otherwise the tail of the first chunk that is; the block joins the live ones and no other block's memory changes. After a request the heap is in order if and only if its size is servable or nothing was free; otherwise no free list is left |
| `TcmHeap.Heap.FreeMem` | component/os/os_dep/tcm_heap.c:136-218 | The block's granules become free, merged with both neighbours, and all other blocks keep their memory |
| `TcmHeap.Heap.Malloc` | component/os/os_dep/tcm_heap.c:243-254 | The caller's bytes lie inside the block behind its size header; NULL exactly when no free run fits |
| `TcmHeap.Heap.Free` | component/os/os_dep/tcm_heap.c:281-290 | Freeing a pointer frees the whole of its block, with the size read from its header |
| `TcmHeap.Heap.FreeSpace` | component/os/os_dep/tcm_heap.c:221-238 | The free bytes are the heap size minus the rounded sizes of the live blocks |
| `TcmHeap.Heap.FreeAll` | component/os/os_dep/tcm_heap.c:136-290 | Freeing all live blocks, in any order, restores the single initial chunk |
| `TcmHeap.Heap.Scribble` | component/os/os_dep/tcm_heap.c:243-290 | Owners may write anywhere in their blocks but on the header without disturbing the heap |
| `TcmHeap.UnservableFits` | component/os/os_dep/tcm_heap.c:82-98 | The sizes that are not servable are those that round to a negative one, which every chunk seems to fit |
| `TcmFreeList.RoundUpMeaning` | component/os/os_dep/tcm_heap.c:82-88 | The 32-bit rounding yields the next multiple of eight, at least eight, exactly for the servable sizes |
| `TcmFreeList.RunsUnique` | component/os/os_dep/tcm_heap.c:136-218 | There is only one address-ordered, fully merged free list for a set of free granules |
| `TcmFreeList.AllFreeIsOneChunk` | component/os/os_dep/tcm_heap.c:33-53 | When every granule is free, that list is the single initial chunk |
| `TcmFreeList.Conserved` | component/os/os_dep/tcm_heap.c:221-238 | Free and live granules add up to the heap |
| `TcmFreeList.TotalFreeCounts` | component/os/os_dep/tcm_heap.c:221-238 | The chunk sizes add up to the number of free granules |
| `XmlRoundTrip.RoundTrip` | component/common/utilities/xml.c:307-427 | A tree without namesakes inside each other, written at any level and indentation, parses back to itself |
| `XmlRoundTrip.EndFound` | component/common/utilities/xml.c:19-42 | The first occurrence of a closing tag behind a text that avoids it is the one put there |
| `XmlRoundTrip.DumpAvoids` | component/common/utilities/xml.c:1092-1174 | A written tree contains no closing tag of a name that none of its elements has |
| `XmlRoundTrip.TagReadsBack` | component/common/utilities/xml.c:98-201 | A tag's prefix, name, namespace and attribute text are read back as they were written |
| `XmlRoundTrip.NewElementDeclares` | component/common/utilities/xml.c:567-587 | The attribute made for a namespace declares that namespace and nothing else |
| `XmlRoundTrip.NestedNamesakesCollapse` | component/common/utilities/xml.c:364-394 | The input `<a><a></a></a>` reads back as its inner element |
| `XmlExact.RoundTripExactly` | component/common/utilities/xml.c:307-533 | Behind any prolog and blanks, at any level and indentation, a written tree is read back if and only if no element has a descendant of its own name, no name begins with ? or !, and no content is mixed or an empty text |
| `XmlExact.ReadsOrderly` | component/common/utilities/xml.c:307-427 | Of a text in which no tag is empty, no closing tag holds a space and nothing looks like a prolog, no element that the parser makes has a descendant of its own name or mixed content |
| `XmlExact.Keyless` | component/common/utilities/xml.c:350-394 | Without a closing tag for it, no element of a name is made at any depth |
| `XmlExact.PrologsSkipped` | component/common/utilities/xml.c:498-533 | Parsing starts behind the last construct of each kind, so that none is left |
| `XmlExact.MarkedNameLost` | component/common/utilities/xml.c:498-533 | The input `<?a></?a>` is not read back |
| `XmlForms.FormsReadBack` | component/common/utilities/xml.c:307-427 | A document reads back to its tree also when elements without content are written as one tag, with more spaces in any tag, with spaces in all closing tags, and with text around the root |
| `XmlForms.TagAsReads` | component/common/utilities/xml.c:98-201 | A tag with more spaces in front of its attribute text and at its end says the same |
| `XmlForms.NamespaceRead` | component/common/utilities/xml.c:98-201 | In quotes of either kind and wherever it stands in the tag, the value of its xmlns attribute is the namespace of a prefix |
| `XmlParser.XmlStrStr` | component/common/utilities/xml.c:19-42 | The scan finds the first occurrence: nothing earlier matches, and none means that nothing matches |
| `XmlParser.StrStrip` | component/common/utilities/xml.c:59-91 | The strip removes the spaces at both ends and nothing else, and is null when nothing is left |
| `XmlParser.ReadTag` | component/common/utilities/xml.c:98-201 | The prefix is looked for before the first space only, the namespace by the prefix |
| `XmlParser.ParseDocInto` | component/common/utilities/xml.c:307-427 | The element gets exactly the children that the text means, as fresh nodes with right parent and sibling links; nothing outside of it changes |
| `XmlParser.ParseDocRoot` | component/common/utilities/xml.c:307-427 | The first complete element becomes a detached tree of its own; without one, nothing is made |
| `XmlParser.XmlParse` | component/common/utilities/xml.c:498-533 | The same behind the last processing instruction or comment |
| `XmlParser.DumpAndParse` | component/common/utilities/xml.c:498-1187 | On the nodes themselves: writing a tree and parsing the text builds an equal tree that shares no node with it |
| `XmlParser.DumpExAndParse` | component/common/utilities/xml.c:498-1219 | The same with a prolog in front, with or without line breaks |
| `XmlTree.XmlLib.AddChild` | component/common/utilities/xml.c:701-719 | A detached tree becomes the last child with all links right; a text takes no children |
| `XmlTree.XmlLib.DeleteTree` | component/common/utilities/xml.c:665-699 | Exactly the subtree is freed, each node once, and the gap between its neighbours is closed |
| `XmlTree.XmlLib.ClearChild` | component/common/utilities/xml.c:721-725 | All children are freed and nothing else |
| `XmlTree.XmlLib.CopyTree` | component/common/utilities/xml.c:622-663 | The copy equals the original, shares no node with it and leaves it unchanged |
| `XmlTree.AddInTree` | component/common/utilities/xml.c:701-719 | Adding to an element anywhere in a tree keeps the whole a tree |
| `XmlTree.DeleteInTree` | component/common/utilities/xml.c:665-699 | Deleting a subtree anywhere in a tree leaves the rest as it was |
| `XmlTree.AddWithin` | component/common/utilities/xml.c:701-719 | Hanging a detached tree on an element anywhere in a tree gives that tree with one more child there |
| `XmlTree.DeleteWithin` | component/common/utilities/xml.c:665-699 | Deleting a child anywhere in a tree gives that tree without it, and frees just its nodes |
| `XmlNodes.Lift` | component/common/utilities/xml.c:622-725 | A change of a subtree in place is a change of the enclosing tree, and of nothing else |
| `XmlNodes.CutChain` | component/common/utilities/xml.c:685-697 | Bridging over a node leaves a list linked both ways |
| `XmlDump.TreeSize` | component/common/utilities/xml.c:1036-1090 | The size pass counts exactly the characters of the written tree, at every level and indentation, mixed content included |
| `XmlDump.DumpTree` | component/common/utilities/xml.c:1092-1174 | The write pass appends exactly the text of the tree and stays inside a buffer that has room for it |
| `XmlDump.XmlDumpTree` | component/common/utilities/xml.c:1176-1187 | The buffer allocated at the measured size is filled up to its NUL |
| `XmlDump.XmlDumpTreeEx` | component/common/utilities/xml.c:1189-1219 | With or without prolog and line breaks, the text fits the buffer that is always sized for the indented form |
| `XmlDump.FlatIsShorter` | component/common/utilities/xml.c:1198-1216 | The flat text of a tree is never longer than the indented one |
| `XmlIndent.DumpIsLaid` | component/common/utilities/xml.c:1092-1174 | A written tree is its tags and texts, laid out by a rule that sees only these and how many elements are open; at level 0 nothing is added |
| `XmlPath.PathRead` | component/common/utilities/xml.c:815-853 | A path means the prefixes and names it is written from, whatever stands before its first slash |
| `XmlPath.FindPath` | component/common/utilities/xml.c:1009-1026 | Exactly the elements whose chain of prefixes and names from the root is the path, in document order; the counted array is filled to the last slot |
| `XmlPath.PathCount` | component/common/utilities/xml.c:810-912 | The count pass finds as many elements as the fill pass |
| `XmlPath.HitsSelect` | component/common/utilities/xml.c:810-1007 | The recursion along the path finds what filtering all elements in document order by their chain finds |
| `XmlPath.HitsGoBy` | component/common/utilities/xml.c:810-1007 | A node is found if and only if climbing from it to the root meets the prefixes and names of the path, the last one first |
| `XmlPath.SplitPath` | component/common/utilities/xml.c:815-853 | One component is taken off a path: a colon counts only within it |
| `Ymodem.Receiver.Upload` | component/common/utilities/uart_ymodem.c:419-552 | For every split of a stream into blocks the update succeeds exactly when the image window is covered, no block is crowded and the checksum holds; then flash holds the image, and otherwise no signature |
| `Ymodem.Receiver.WriteBlock` | component/common/utilities/uart_ymodem.c:419-519 | After every block the counters, the signature buffer and the flash are what the part of the window seen so far demands |
| `Ymodem.Receiver.WindowCaught` | component/common/utilities/uart_ymodem.c:470-519 | The count of burned bytes reaches its goal exactly when the stream covers the window, and then signature and flash hold all of it |
| `Ymodem.Receiver.SetSignature` | component/common/utilities/uart_ymodem.c:520-552 | The signature is burned only over a complete image with the promised checksum; on a wrong one the head of the image is erased |
| `Ymodem.LongImagesAreStraight` | component/common/utilities/uart_ymodem.c:470-507 | Images of 1031 bytes or more are caught under every split into blocks of at most 1024 |
| `Ymodem.ShortImageCrowded` | component/common/utilities/uart_ymodem.c:470-507 | One of 1030 bytes can be missed |
| `Ymodem.BurnMore` | component/common/utilities/uart_ymodem.c:509-519 | Burning the next share onto erased flash extends what is caught by just that share |
| `Ymodem.EraseTarget` | component/soc/realtek/8711b/misc/rtl8710b_ota.c:350-365 | The sectors of 4096 bytes that begin inside the image are erased, and no byte of a sector without a byte of it changes |
| `Crc.CrcCheck` | component/common/utilities/uart_ymodem.c:333-403 | The outcome is decided by divisibility of the block with its check bytes by x^16 + x^12 + x^5 + 1, or by the doubled byte sum |
| `Crc.RegisterIsRemainder` | component/common/utilities/uart_ymodem.c:363-381 | For every block the low half of the unmasked register is the remainder of message times x^16 (XMODEM/YMODEM Protocol Reference, section 8.1) |
| `Crc.CodewordChecksToZero` | component/common/utilities/uart_ymodem.c:363-384 | A block followed by its own check bytes leaves zero, and no other block does |
| `Crc.RegisterDecides` | component/common/utilities/uart_ymodem.c:381-387 | Comparing the masked register with the two bytes decides divisibility |
| `Crc.ShiftDivides` | component/common/utilities/uart_ymodem.c:372-378 | One turn of the inner loop is one step of the division, whatever stands above the low 16 bits |
| `Crc.BurstRejected` | component/common/utilities/uart_ymodem.c:363-388 | An accepted block with damage over at most 16 neighbouring bits is not accepted |
| `Crc.OwnSumAccepted` | component/common/utilities/uart_ymodem.c:389-399 | Without CRC mode, a block with its right byte sum is accepted exactly when that sum is zero |
| `Crc.OwnSumRefused` | component/common/utilities/uart_ymodem.c:389-399 | The block of one byte 1 with check byte 1 is refused |
| `Crc.ZerosTurnedAway` | component/common/utilities/uart_ymodem.c:352-361 | A block is reported as empty exactly when all its bytes are zero |
| `Gf2.RemainderUnique` | component/common/utilities/uart_ymodem.c:363-381 | A message has only one remainder |
| `Gf2.NearMultiples` | component/common/utilities/uart_ymodem.c:363-381 | Two codewords that differ in at most 16 neighbouring bits are the same |
| `Division.Div64By32` | component/os/freertos/freertos_service.c:37-68 | For every 64-bit dividend and 32-bit divisor above zero: quotient times divisor plus remainder is the dividend, the remainder is below the divisor, and no 64-bit step wraps |
| `Division.Modular64` | component/os/freertos/freertos_service.c:479-492 | The result is the remainder by the divisor's low 32 bits |
| `Division.DoublingFits` | component/os/freertos/freertos_service.c:53-56 | The doubled divisor stays within 64 bits because the reduced remainder is below the divisor times 2^32 |
| `NodePool.Pool.CreateNode` | component/common/api/at_cmd/atcmd_lwip.c:4971-4997 | A free slot is claimed and cleared, null exactly when there is none, and no list changes |
| `NodePool.Pool.HangNode` | component/common/api/at_cmd/atcmd_lwip.c:5156-5181 | The node joins the end of the main list unless it is a server whose address, port and protocol a linked server has |
| `NodePool.Pool.HangSeedNode` | component/common/api/at_cmd/atcmd_lwip.c:5183-5206 | The seed joins its server's list unless the server has a seed with the same peer |
| `NodePool.Pool.SeekNode` | component/common/api/at_cmd/atcmd_lwip.c:5208-5228 | Succeeds exactly on the ids of linked nodes, which are their slots |
| `NodePool.Pool.DeleteNode` | component/common/api/at_cmd/atcmd_lwip.c:4999-5154 | The node leaves its list, with a server its seeds, and just their slots, sockets and task are released; the bodies and the order of all others stay. No socket that a linked node still needs is closed, and each that only released slots held is closed once |
| `NodeSockets.NothingNeededClosed` | component/common/api/at_cmd/atcmd_lwip.c:5032-5125 | Where UDP seeds use the socket of their server and all other nodes have their own, nothing that stays linked loses its socket |
| `NodeSockets.ReleasedClosedOnce` | component/common/api/at_cmd/atcmd_lwip.c:5032-5125 | A valid socket that only nodes going with the deleted one hold is closed once |
| `NodeSockets.DeleteKeepsOwned` | component/common/api/at_cmd/atcmd_lwip.c:4999-5154 | Deleting keeps that arrangement of the sockets |
| `NodeSockets.AllClosedOnce` | component/common/api/at_cmd/atcmd_lwip.c:4401-4411 | Closing everything closes every valid socket of a linked node once |
| `NodePool.Pool.SocketCloseAll` | component/common/api/at_cmd/atcmd_lwip.c:4401-4411 | Every linked node is deleted, with its sockets closed in list order, and whatever is not linked stays |
| `NodeLists.HangKeeps` | component/common/api/at_cmd/atcmd_lwip.c:5156-5181 | Hanging keeps the lists acyclic, disjoint and free of servers with the same binding |
| `NodeLists.HangSeedKeeps` | component/common/api/at_cmd/atcmd_lwip.c:5183-5206 | The same for seeds |
| `NodeLists.DeleteKeeps` | component/common/api/at_cmd/atcmd_lwip.c:4999-5154 | The same for deleting |
| `NodeLists.Cut` | component/common/api/at_cmd/atcmd_lwip.c:5006-5028 | Pointing a predecessor past a slot takes just that slot out of its list |
| `UartRing.Ring.RxIrq` | component/common/utilities/uart_socket.c:41-54 | The interrupt adds the byte to the unread ones and drops exactly what a full ring has to give up |
| `UartRing.Ring.Read` | component/common/utilities/uart_socket.c:239-284 | A read hands out the oldest unread bytes, as many as wanted or all there are, and keeps the rest |
| `UartRing.FetchesHandOut` | component/common/utilities/uart_socket.c:239-284 | However they are split up, reads hand out the waiting bytes in order, as many as are wanted in all and there are |
| `UartRing.BytesHandedOut` | component/common/utilities/uart_socket.c:41-284 | Bytes that fit the ring come out in order by whatever reads follow |
| `UartRing.Replay` | component/common/utilities/uart_socket.c:41-284 | Any interleaving of interrupts and whole reads keeps the ring on the run of the abstract line |
| `UartRing.RunInOrder` | component/common/utilities/uart_socket.c:41-284 | In every run the unread bytes are the newest without a gap, and what was read came before them, in order and without repetition |
| `UartRing.Lossless` | component/common/utilities/uart_socket.c:41-54 | Nothing is lost exactly when no byte comes in on a full ring |
| `UartRing.WholeRingLost` | component/common/utilities/uart_socket.c:46-53 | After 1023 bytes, a read of them and 1024 more, the next byte is all that is left unread |
| `UartRing.ExactLoss` | component/common/utilities/uart_socket.c:41-54 | In every run, the bytes lost are one for each that met a full ring, and 1023 more for each that did so at the last slot |
| `CommandIndex.LogService.AddTable` | component/common/api/at_cmd/log_service.c:169-174 | The items are registered in order and every bucket stays a ring in both directions |
| `CommandIndex.LogService.LogAction` | component/common/api/at_cmd/log_service.c:176-196 | The action of the most recently registered item of that name, or none: what a linear search of the whole history finds |
| `CommandIndex.BucketSuffices` | component/common/api/at_cmd/log_service.c:115-133 | Searching the one bucket that a name hashes to is as good as searching everything ever registered |
| `CommandIndex.ListAdd` | component/common/api/platform/dlist.h:45-66 | A link added behind the head leaves a ring in both directions with that link first |
| `CommandIndex.HashIndex` | component/common/api/at_cmd/log_service.c:115-126 | The loop computes the name as a number to the base 131, modulo 2^32, without its top bit |
| `SectorRewrite.Flash.WriteOtuToSystemData` | component/common/api/at_cmd/atcmd_sys.c:471-500 | The system sector ends up with just the word at 0xc changed and the reserved one erased, unless the word could be written in place; after every single erase or word write, one of the two sectors holds a complete old or new copy; other sectors never change |
| `SectorRewrite.CopiedOne` | component/common/api/at_cmd/atcmd_sys.c:483-495 | Writing one more word onto the erased part extends the copy by that word |

## Left out

- JSON numbers: fractions and exponents are read as exact decimals; floating-point rounding and the printing of non-integers are not modelled, nor is `valueint` as a field of its own.
- JSON malformed escapes: what the parser does once a `\u` escape or a literal runs over the end of the text is not modelled; such texts are excluded by preconditions, and so are unterminated comments in the minifier.
- JSON allocation: hooks, failing allocations, references, the edit and duplicate functions, and integer overflow of buffer sizes.
- TcmHeap.Heap.Malloc: a request that is not servable is excluded unless nothing is free, because `AllocMem` then leaves no heap and the header would be written to an address outside of the block; calloc, the debug fill patterns and the lazy first initialization are not modelled, and critical sections are atomic.
- XML malformed tags: tags without a name, and namespaces or closing tags that are cut short, make the source follow null pointers; they are excluded by preconditions.
- XML texts in which only some closing tags have spaces: the parser takes the first exact one, so `XmlForms` writes all of them alike.
- XML editing of attributes, `xml_parse_doc`, `xml_doc_name` and the search by element name: simpler variants of what is modelled. Strings are part of a node, so their own allocation is not modelled.
- JsonParser.CJson.Delete: the character buffers of an item are values, so their own freeing is not modelled, and items that refer to others (`cJSON_IsReference`) do not occur.
- JsonPrinter.PrintValue: the texts of children are kept as values once they are read from their buffers, so the freeing of those buffers is not modelled.
- XmlParser.DumpExAndParse: takes trees that come back; what the parser does with others is said of texts in `XmlExact`.
- XmlDump.XmlDumpTreeEx: takes `new_line` as 0 or 1.
- Ymodem: header parsing and the choice of the target address are inputs; the RDP image, the custom signature, `OTA_Change`, block numbers, retransmission and the serial protocol around the blocks are not modelled. A block is written before its check is made; `Upload` is a transfer without errors.
- Crc: serial input never fails in the source, so the two check bytes are inputs.
- Division: a divisor of zero, as in the source a fault; `Modular64` drops the upper half of its divisor, as the source does.
- NodePool: the SSL branches; sockets and tasks are numbers, and what is closed or ended is recorded. What the connection commands set on a node before hanging it is one step, `Configure`.
- UartRing: the semaphore, the timestamps and the socket layer; a read is one atomic step.
- CommandIndex: names are sequences of characters without NUL; the links of an item lead back to it directly instead of by offset.
- SectorRewrite: a sector erase and a word write are atomic; other masters of the flash are not modelled.
- osPoolAlloc, the promiscuous packet filter, event callbacks, sockets, TLS, DHCP, Wi-Fi, tasks, timers and web pages.
