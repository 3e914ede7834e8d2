# The JSON engine and the batching of the monitoring agent

The monitoring agent turns kernel events into JSON with an embedded copy of cJSON and posts them
in batches. This project models that JSON engine and the batching, and proves what they are for:

- **Texts.** What is printed can be read back as the same tree, for every tree that can be
  written, and exactly up to the nesting limit (`RoundTrip`). Section 2 of RFC 8259 is the text
  form, section 7 its strings; the decoding of `\u` escapes is checked against an independent
  UTF-8 decoder (section 3 of RFC 3629) and the surrogate formula of section 2.2 of RFC 2781
  (`Utf`, `Strings`). Every string literal of the standard and every numeral that fits 63 bytes
  is read as what it denotes (`Literals`, `Decimals`), the texts accepted are exactly those of a declarative grammar
  (`Derivations`), and formatted text is the unformatted text laid out (`Layout`).
- **The parser in memory.** `parse_buffer` with its steps forwards and back, and the linked nodes
  it builds, refine the grammar function; under any pattern of refused allocations a failed parse
  gives every block back (`Parser`, `TreeParser`).
- **The printer in memory.** Printing through a growing buffer refines `Render`, whatever the
  capacity to start with; the capacity it needs is exact; growth is geometric
  (`PrintBuffers`, `Printer`, `Printing`).
- **The tree library.** Pointer lists with a hidden tail refine sequences over whole runs of
  edits; deletion frees each owned block once; a duplicate is an owned twin that
  shares only constant names; comparison decides, exactly, whether every name has one value and the
  values are equal with objects as maps (`Siblings`, `Ownership`, `Duplicating`, `Comparing`,
  `Comparison`).
- **The minifier.** In place it refines a pure function; it commutes with printing exactly on the
  trees that `Minifiable` describes; it keeps the meaning of every text of whose string literals it
  strikes no byte, and of no other text whose literals hold no slash and no U+0000 (`Minify`,
  `MinifyPrint`, `MinifyChunks`, `MinifyLiterals`, `MinifyParse`).
- **The agent.** Which configurations are accepted, and what every run of events and failing
  submissions keeps (`Agents`).

How the layers fit: `Trees` has the value of a tree, `Rendering` and `Grammar` say what text it
has, as functions. `Memory` has nodes and the allocator; a ghost `Shape` lists the nodes and
blocks that a tree owns (`Holds`, `Separate`, `Owned`), and `TreeOf` is its value. Code that only
reads a tree is specified by `Views.Shows` or `Forms.Reads`, which follow `child` and `next`
without asking who owns the nodes, so that references are covered. A string in memory is an array
whose bytes up to the first zero are the text. The allocator may refuse any request; `live` is
the set of blocks in use and `refusals` counts the requests that have failed.

Where the code and its documentation disagree, the model follows the code: the header advises
five spare bytes for `cJSON_PrintPreallocated` and two are exactly enough; the comment in
`handle_event` says that events are dropped when a submission fails, and they are kept; the test
for a full event buffer compares with `>`, so the slot behind the last one is reached
(`Agents.OverrunExactly` says exactly when). `submit_events` returns 0 even after a failed request;
a submission that the model calls accepted is one that returned 0.

## Model

| member | source | states |
|---|---|---|
| Utf.ParseHex4 | MonitoringAgent/src/cJSON.c:634-667 | the loop gives the base-16 value of four hex digits, and 0 as soon as one byte is none |
| Utf.PairBits | MonitoringAgent/src/cJSON.c:671-789 | masking and shifting a surrogate pair equals the formula of section 2.2 of RFC 2781 |
| Utf.ContinuationBits | MonitoringAgent/src/cJSON.c:671-789 | the bit operations that split a code point equal division by 64 |
| Utf.Utf8RoundTrip | MonitoringAgent/src/cJSON.c:671-789 | an independent decoder reads every scalar value back from the bytes written for it, whatever follows, and uses them up exactly |
| Utf.EncodeUtf8 | MonitoringAgent/src/cJSON.c:671-789 | writing from the last byte to the first leaves the UTF-8 form of the code point behind what was there |
| Utf.Utf16LiteralToUtf8 | MonitoringAgent/src/cJSON.c:671-789 | consumes 6 or 12 bytes or refuses, and writes exactly the bytes of the literal's code point |
| Utf.Utf16Exact | MonitoringAgent/src/cJSON.c:671-789 | on valid hex digits: 6 bytes are consumed exactly for a unit that is no surrogate, 12 exactly for a high one with the escape of a low one behind it, and nothing else is accepted |
| Utf.PairDecodes | MonitoringAgent/src/cJSON.c:671-789 | a surrogate pair denotes a code point above U+FFFF whose four bytes decode to it |
| Strings.EscapeLength | MonitoringAgent/src/cJSON.c:922-1041 | the first printing pass counts exactly the bytes that the copy loop writes |
| Strings.EscapeNothing | MonitoringAgent/src/cJSON.c:922-1041 | when the count is zero the escaped text is the string itself, so that memcpy is right |
| Strings.EscapeVisible | MonitoringAgent/src/cJSON.c:922-1041 | no control byte is ever printed inside a string |
| Strings.NextBoundary | MonitoringAgent/src/cJSON.c:792-919 | escapes met by the first pass start at least two bytes apart, counted from any boundary |
| Strings.StepFits | MonitoringAgent/src/cJSON.c:792-919 | no turn of the second pass writes more than the room it uses up, even out of step with the first pass |
| Strings.AllocationSuffices | MonitoringAgent/src/cJSON.c:792-919 | for every content the decoded bytes and their terminator stay below the size the first pass computes |
| Strings.QuotedReads | MonitoringAgent/src/cJSON.c:792-919 | every NUL-free string, printed anywhere in a buffer, is read back and parsing stops just past its closing quote |
| Literals.LiteralReads | MonitoringAgent/src/cJSON.c:792-919 | every string literal of section 7 of RFC 8259, any mix of plain bytes, two-byte escapes, hex escapes in either case and surrogate pairs, wherever it stands, is read as the string it denotes up to the first U+0000, and parsing goes on behind its quote |
| Literals.BrokenRefused | MonitoringAgent/src/cJSON.c:792-919 | a literal with an unknown escape, a cut-off one or a lone surrogate is refused at that escape |
| Literals.EscapeIsUnit | MonitoringAgent/src/cJSON.c:922-1041 | each byte is printed as one of these characters, hex digits in lower case |
| Literals.PrintedShortest | MonitoringAgent/src/cJSON.c:922-1041 | no literal without raw control bytes is shorter than the printed one for the same string |
| Numbers.DecimalReads | MonitoringAgent/src/cJSON.c:307-381 | every int32 printed with %d is read back wherever it stands, if the next byte cannot continue a number |
| Numbers.DecimalShort | MonitoringAgent/src/cJSON.c:564-631 | the decimal text of an int32 has at most 11 bytes, within the 26 of number_buffer and the 63 that parsing copies |
| Numbers.DecimalLead | MonitoringAgent/src/cJSON.c:564-631 | a minus exactly for negative numbers, and no leading zero |
| Decimals.FigureReads | MonitoringAgent/src/cJSON.c:307-381 | every numeral of at most 63 bytes, with sign, digits, fraction and exponent, is read as the number its digits denote, if the next byte cannot continue it |
| Decimals.LongFigureCut | MonitoringAgent/src/cJSON.c:307-381 | of more than 63 digits the first 63 are read, and reading stops behind them |
| Trees.ValueIntIs | MonitoringAgent/src/cJSON.c:360-376 | `valueint` drops the fraction towards zero, and takes the nearest int for numbers out of range |
| Grammar.SkipBlanks | MonitoringAgent/src/cJSON.c:1058-1081 | never passes the end, and ends on a byte of the buffer when it starts on one |
| Grammar.ParseValue | MonitoringAgent/src/cJSON.c:1336-1388 | total on every buffer; success strictly advances, and no offset passes the end |
| Grammar.ParsedValue | MonitoringAgent/src/cJSON.c:1336-1388 | whatever the buffer holds, an accepted tree has C strings only, no raw item, and nests within the limit left |
| Grammar.ParseText | MonitoringAgent/src/cJSON.c:1115-1192 | the reported end lies within the buffer, and so does the error position of any buffer that is not empty |
| Derivations.ParsesExactly | MonitoringAgent/src/cJSON.c:1336-1388 | a buffer position is parsed to a value and an end if and only if the declarative grammar derives that value up to there and it nests at most 1000 deep |
| Derivations.TextsExactly | MonitoringAgent/src/cJSON.c:1115-1192 | a text is accepted if and only if it is an optional byte order mark, blanks and a derivable tree of at most 1000 levels, and with require_null_terminated nothing but blanks up to a zero as the last byte |
| Derivations.StartRefused | MonitoringAgent/src/cJSON.c:1156-1186 | a text whose first byte that is no blank starts no value is refused at that byte |
| Derivations.TrailingRefused | MonitoringAgent/src/cJSON.c:1146-1155 | with require_null_terminated, a tree with more than blanks behind it is refused at the first byte that is no blank |
| Derivations.UnterminatedRefused | MonitoringAgent/src/cJSON.c:1146-1186 | with require_null_terminated, a buffer that ends with the tree is refused at its last byte |
| RoundTrip.RenderReads | MonitoringAgent/src/cJSON.c:1391-1462 | a rendering, wherever it stands and whatever ends it, is parsed to its tree up to its last byte when containers nest within the limit, and refused when they nest deeper |
| RoundTrip.PrintThenParse | MonitoringAgent/src/cJSON.c:1115-1192 | printed text with its terminator parses to the tree printed, formatted or not and with or without require_null_terminated, exactly when the tree nests at most 1000 deep; otherwise it is rejected |
| RoundTrip.Reprinted | MonitoringAgent/src/cJSON.c:1115-1192 | any accepted text with int32 numbers can be printed and read again with the same result |
| RoundTrip.RawReads | MonitoringAgent/src/cJSON.c:1432-1449 | raw items are printed as they are: a container of raw items that hold the texts of trees reads back as the container of those trees |
| Layout.FormatLaysOut | MonitoringAgent/src/cJSON.c:1743-1906 | formatted text is the unformatted text laid out: a line break behind every opening brace and every comma between members and in front of every closing brace, then one tab for each bracket open (one fewer at a closing brace), one tab behind a colon and one blank behind a comma between elements; the unformatted text has no blank outside of literals |
| Minify.MinifiedOnce | MonitoringAgent/src/cJSON.c:2882-2928 | for every C string the result is a subsequence of the input and minifying it again changes nothing |
| Minify.SkipOnelineComment | MonitoringAgent/src/cJSON.c:2833-2844 | stops behind the first line feed, or at the terminator if there is none |
| Minify.SkipMultilineComment | MonitoringAgent/src/cJSON.c:2846-2858 | stops behind the first closing mark, which must not overlap the opening one, or at the terminator if there is none |
| Minify.MinifyString | MonitoringAgent/src/cJSON.c:2860-2880 | moves a literal down to the write cursor, which never passes the read cursor; no unread byte changes |
| Minify.MinifyInPlace | MonitoringAgent/src/cJSON.c:2882-2928 | the buffer ends up with the minified C string and its terminator, and no byte behind that terminator is touched |
| MinifyChunks.StrikesExactly | MonitoringAgent/src/cJSON.c:2882-2928 | of every text put together from literals, other bytes, blanks, lone slashes and closed comments, exactly the literals and the other bytes are left |
| MinifyPrint.MinifyCommutes | MonitoringAgent/src/cJSON.c:2860-2928 | minifying formatted print gives the unformatted print if and only if no string or key ends in a backslash, or only the very last one does, where nothing is left to strip |
| MinifyPrint.MinifyKeepsBlank | MonitoringAgent/src/cJSON.c:2874-2878 | a concrete tree on which the two texts differ |
| MinifyLiterals.LiteralInStep | MonitoringAgent/src/cJSON.c:2860-2928 | a literal that loses no byte, or that is simple, is read from the minified text without exactly the bytes it loses |
| MinifyParse.MinifiedTree | MonitoringAgent/src/cJSON.c:2882-2928 | a text that parses up to its terminator, in which every literal that loses a byte is simple (no slash, no escape read as U+0000), parses once minified, and its tree has lost exactly as many bytes of strings and names |
| MinifyParse.MinifyKeepsMeaning | MonitoringAgent/src/cJSON.c:2882-2928 | any text that parses and of whose literals no byte is struck parses to the same tree once minified, ending where the minified text ends |
| MinifyParse.MinifyKeepsMeaningExactly | MonitoringAgent/src/cJSON.c:2882-2928 | when all literals are simple, the minified text always parses, and to the same tree if and only if no byte of a literal is struck |
| MinifyParse.TidyKeepsMeaning | MonitoringAgent/src/cJSON.c:2882-2928 | no byte is struck, and so the tree is the same, when no literal has a backslash in front of its closing quote |
| MinifyParse.MinifyChangesMeaning | MonitoringAgent/src/cJSON.c:2874-2878 | a concrete text with simple literals that loses one byte and whose minified form parses to another tree |
| MinifyParse.StruckUnseen | MonitoringAgent/src/cJSON.c:2874-2878 | a concrete text whose second literal loses a blank behind a U+0000, with the same tree before and after: beyond simple literals the condition is not necessary |
| Memory.Allocator.NewItem | MonitoringAgent/src/cJSON.c:241-250 | a new zeroed node joins the live blocks, or a refusal is recorded and nothing changes |
| Memory.Allocator.Free | MonitoringAgent/src/cJSON.c:253-276 | only a live block can be freed, so that nothing is freed twice |
| Memory.StringLength | MonitoringAgent/src/cJSON.c:188-207 | strlen finds the length of the C string in a block |
| Siblings.GetArrayItem | MonitoringAgent/src/cJSON.c:1880-1897 | the walk finds the child at the index, or NULL when there is none |
| Siblings.AddItemToArray | MonitoringAgent/src/cJSON.c:1985-2016 | the children become the old sequence with the item behind it, linked both ways with the head pointing to the new tail; refused calls change nothing |
| Siblings.InsertItemInArray | MonitoringAgent/src/cJSON.c:2292-2324 | the item is inserted at the smaller of the index and the length; refused exactly for a negative index, a missing argument, or appending a list to itself |
| Siblings.DetachItemViaPointer | MonitoringAgent/src/cJSON.c:2216-2250 | a child leaves the sequence with its links cleared and the rest stay linked, tail pointer included; an item that is in no list is refused and nothing changes |
| Siblings.RelinkReplacement | MonitoringAgent/src/cJSON.c:2326-2373 | the replacement takes the place of the child in the sequence |
| Siblings.Run | MonitoringAgent/src/cJSON.c:1985-2373 | after any run of appends, inserts, detachments and replacements, in which detached children may come back, the list is well linked and holds what the same edits make of the sequence |
| Siblings.MoveAllowed | MonitoringAgent/src/cJSON.c:2216-2324 | moving a child within its list is such a run, and its effect is removal and insertion |
| Ownership.Delete | MonitoringAgent/src/cJSON.c:253-276 | a chain of trees loses exactly its owned blocks, each freed once; children of references and constant names stay live |
| Ownership.ReplaceItemViaPointer | MonitoringAgent/src/cJSON.c:2326-2373 | success exactly with parent, item and replacement given and a child present; then the sequence is updated and what the replaced child owned is freed, nothing else |
| Building.AttachNew | MonitoringAgent/src/cJSON.c:1465-1560 | the new node is linked behind the finished elements, or nothing changes |
| Building.Discard | MonitoringAgent/src/cJSON.c:1465-1560 | a list under construction, whose head has no tail pointer yet, is freed completely |
| Building.CloseList | MonitoringAgent/src/cJSON.c:1465-1560 | setting the head's prev to the last element completes the links |
| Parser.ParseBuffer.SkipWhitespace | MonitoringAgent/src/cJSON.c:1058-1081 | moves the offset as the grammar does, one byte back from the end when only blanks are left |
| Parser.ParseBuffer.SkipToText | MonitoringAgent/src/cJSON.c:1084-1097 | a byte order mark is skipped when at least five bytes can be read |
| Parser.ParseBuffer.ParseNumber | MonitoringAgent/src/cJSON.c:307-381 | at most 63 bytes are copied; the node gets the value and the offset passes the bytes used, or nothing changes |
| Parser.ParseBuffer.FindEnd | MonitoringAgent/src/cJSON.c:792-919 | the first pass finds the closing quote and counts its escapes without reading past the end |
| Parser.ParseBuffer.Decode | MonitoringAgent/src/cJSON.c:792-919 | the second pass stays within the block that the first pass sized, and leaves the unescaped C string in it or stops at the bad escape |
| Parser.ParseBuffer.ParseString | MonitoringAgent/src/cJSON.c:792-919 | on success the node holds a new block with the literal's string; on failure the node is unchanged and no block is kept |
| TreeParser.ParseValueInto | MonitoringAgent/src/cJSON.c:1336-1388 | the node becomes a well-formed tree of new blocks with the value the grammar gives, at the same offset and depth; on failure the live blocks are the old ones, and without a refusal the grammar fails at the same offset |
| TreeParser.ParseElement | MonitoringAgent/src/cJSON.c:1465-1560 | one turn of the element loop keeps the list well linked, the live blocks accounted for, and the part read in line with the grammar |
| TreeParser.ParseElements | MonitoringAgent/src/cJSON.c:1465-1560 | the loop builds the items that the grammar reads, or stops where it stops |
| TreeParser.ReadArray | MonitoringAgent/src/cJSON.c:1465-1560 | a completed array has the grammar's items and restores the depth; an array given up leaves no block behind |
| TreeParser.ReadName | MonitoringAgent/src/cJSON.c:1625-1740 | the name moves from valuestring to string, and the node owns it even when the colon is missing |
| TreeParser.ParseMember | MonitoringAgent/src/cJSON.c:1625-1740 | one turn of the member loop keeps links, live blocks and grammar in line |
| TreeParser.ParseMembersInto | MonitoringAgent/src/cJSON.c:1625-1740 | the loop builds the members that the grammar reads, or stops where it stops |
| TreeParser.ReadObject | MonitoringAgent/src/cJSON.c:1625-1740 | a completed object has the grammar's members and restores the depth; one given up leaves no block behind |
| TreeParser.ParseWithLengthOpts | MonitoringAgent/src/cJSON.c:1115-1192 | either a tree of new blocks, with unlinked root, that stands for what the text parses to, and nothing else stays allocated; or NULL with every block given back, and if nothing was refused the text is rejected at the reported position |
| Forms.HoldsReads | MonitoringAgent/src/cJSON.h:103-123 | an owned tree without references has, read through child and next, the form of its shape, so that it can be compared and duplicated |
| Forms.ReadsShows | MonitoringAgent/src/cJSON.h:103-123 | a node that is read with a form stands for the tree of that form, so that printing, comparing and duplicating see the same tree |
| Views.HoldsShows | MonitoringAgent/src/cJSON.h:103-123 | an owned tree without references reads, through child and next, as the value it stands for |
| PrintBuffers.PrintBuffer.Ensure | MonitoringAgent/src/cJSON.c:458-541 | fails for every request that would end beyond the limit (the given length, or INT_MAX), otherwise only for want of memory; on success the text printed survives and the buffer has the room asked for |
| PrintBuffers.PrintBuffer.Regrow | MonitoringAgent/src/cJSON.c:508-541 | the block is exchanged with its text kept and the old one freed; all bytes copied so far stay below the capacity; a refusal frees the buffer |
| PrintBuffers.PrintBuffer.UpdateOffset | MonitoringAgent/src/cJSON.c:544-554 | the offset catches up with everything printed, whichever callee moved it last |
| PrintBuffers.PrintBuffer.PrintNumber | MonitoringAgent/src/cJSON.c:564-631 | an int32 is appended as its decimal text exactly when that fits with two bytes to spare |
| PrintBuffers.PrintBuffer.Measure | MonitoringAgent/src/cJSON.c:922-1041 | the first pass finds the length of the string and the bytes that its escapes add |
| PrintBuffers.PrintBuffer.PutEscaped | MonitoringAgent/src/cJSON.c:922-1041 | the copy loop leaves the escaped string behind what was printed, within the bytes counted |
| PrintBuffers.PrintBuffer.PrintStringPtr | MonitoringAgent/src/cJSON.c:922-1041 | the quoted string is printed, by memcpy or byte by byte, exactly when it fits with two bytes to spare; NULL prints as empty |
| Printer.PrintValue | MonitoringAgent/src/cJSON.c:1391-1462 | on success the text printed is the old text with the rendering behind it and a terminator, depth restored; success exactly when every node has a type and the text fits with two bytes to spare, unless memory runs out |
| Printer.PrintElement | MonitoringAgent/src/cJSON.c:1563-1622 | one turn of the element loop brings the text one element closer to the whole |
| Printer.PrintArray | MonitoringAgent/src/cJSON.c:1563-1622 | the same outcome for an array, whose peak request is two bytes past its closing bracket |
| Printer.PrintMember | MonitoringAgent/src/cJSON.c:1743-1854 | one turn of the member loop brings the text one member closer to the whole |
| Printer.PrintObject | MonitoringAgent/src/cJSON.c:1743-1854 | the same outcome for an object with its indentation |
| Printing.PrintPreallocated | MonitoringAgent/src/cJSON.c:1316-1333 | true if and only if the buffer is there, every node has a type and the length is at least that of the rendering plus two; then the buffer holds the rendering as a C string; nothing is allocated |
| Printing.PrintBuffered | MonitoringAgent/src/cJSON.c:1285-1314 | the rendering whatever the first capacity, in one new block of at most twice the bytes needed or the first capacity; or NULL and no block kept |
| Printing.Print | MonitoringAgent/src/cJSON.c:1207-1272 | the rendering in a new block of exactly its size, the only block left; the buffer grew to at most max(256, twice the peak) and all regrowths copied fewer bytes than that; NULL only for a refusal, a node without type, or a text too long for int |
| Duplicating.CopyString | MonitoringAgent/src/cJSON.c:188-207 | a new block with the same C string, NULL for NULL, or a refusal that leaves nothing |
| Duplicating.Duplicate | MonitoringAgent/src/cJSON.c:2742-2745 | the root of a tree of its own, in new blocks, with unlinked root and the same form, references resolved and constant names shared, that form being what the memory of both trees holds; without a duplicate nothing stays allocated, and without a refusal it succeeds exactly when no node lies deeper than the limit |
| Duplicating.DuplicateRec | MonitoringAgent/src/cJSON.c:2747-2831 | the same from any depth: a twin of the node, whole or without children, or no block kept for want of memory or depth |
| Duplicating.DuplicateChildren | MonitoringAgent/src/cJSON.c:2747-2831 | the loop builds twins of the children in order or fails for depth or memory only |
| Duplicating.TwinReads | MonitoringAgent/src/cJSON.c:2747-2831 | a twin that the heap holds is read with the form of its shape, its constant names being the very blocks of the original |
| Duplicating.TwinTree | MonitoringAgent/src/cJSON.c:2747-2831 | a twin stands for the same tree as the original |
| Duplicating.TwinCompares | MonitoringAgent/src/cJSON.c:2747-3153 | a duplicate on new blocks compares equal to its original if and only if the original is consistent, constant names and resolved references included; both can be compared in the memory of the two |
| Duplicating.ParsedDuplicates | MonitoringAgent/src/cJSON.c:1470-1474 | every tree that any text parses to is within the depth that can be duplicated |
| Comparison.CompareInts | MonitoringAgent/src/cJSON.c:557-561 | on int32 numbers the tolerance test is equality |
| Comparison.Tolerance | MonitoringAgent/src/cJSON.c:557-561 | two numbers pass for equal if and only if they differ by at most 2 to the power of -52 times the larger magnitude |
| Comparison.FoldAgrees | MonitoringAgent/src/cJSON.c:133-154 | names agree if and only if their bytes are the same or, when case is ignored, the two cases of one letter |
| Comparison.SameExactly | MonitoringAgent/src/cJSON.c:3030-3153 | for all trees of int32 numbers that agree on the nodes they share, the answer is true if and only if both are consistent (no type, text or name missing, and in every object one value for every name) and equal with arrays as sequences and objects as maps from (case-folded) names |
| Comparison.SameApart | MonitoringAgent/src/cJSON.c:3030-3153 | the same for all trees of int32 numbers without a node in common |
| Comparison.SameIsEqual | MonitoringAgent/src/cJSON.c:3030-3153 | for consistent trees in one memory, whatever nodes they share, the answer is equality of values |
| Comparison.UniqueNames | MonitoringAgent/src/cJSON.c:3100-3145 | objects whose names are all different meet the condition on names |
| Comparison.Equivalence | MonitoringAgent/src/cJSON.c:3030-3153 | on consistent trees the answer is reflexive, symmetric and transitive |
| Comparison.OrderIgnored | MonitoringAgent/src/cJSON.c:3030-3153 | two objects are the same when every member of each has its name and value among the members of the other, in whatever order |
| Comparison.RepeatedNameDiffers | MonitoringAgent/src/cJSON.c:3100-3145 | a tree that gives one name two values, at whatever level, is the same as no tree on other nodes, copies included |
| Comparison.CopiesOfTwice | MonitoringAgent/src/cJSON.c:3100-3145 | `{"a":1,"a":2}` is not the same as its copy on other nodes, `{"a":1,"a":1}` is |
| Comparing.Strcmp | MonitoringAgent/src/cJSON.c:133-154 | zero exactly on two strings of the same bytes or, when case is ignored, the same letters; NULL agrees with nothing |
| Comparing.GetObjectItem | MonitoringAgent/src/cJSON.c:1909-1939 | the member found has that name and no member in front of it has; none is found exactly when there is no such member, or a NULL name in front of it stops the case-sensitive search |
| Comparing.Compare | MonitoringAgent/src/cJSON.c:3030-3153 | the recursion, whose roles swap, terminates and answers as Same says, for every pair of trees, shared nodes included |
| Agents.Config.LoadConfig | MonitoringAgent/src/monitoringAgent.c:83-160 | each field holds the value of the last line of its kind, cut to the size of the field or raised to 32 or 1, and is untouched without such a line; the buffer size is then widened to two batches; accepted exactly if all are set and the sizes pass |
| Agents.AcceptedSizes | MonitoringAgent/src/monitoringAgent.c:151-157 | an accepted configuration has room for two batches if and only if the batch size is at most INT_MAX/2; then the buffer is the larger of what was asked for and two batches |
| Agents.OverflowAccepted | MonitoringAgent/src/monitoringAgent.c:151-157 | a concrete file whose doubled batch size wraps around and is accepted without that room |
| Agents.Agent.constructor | MonitoringAgent/src/monitoringAgent.c:282-294 | an empty buffer of buffer_size slots |
| Agents.Agent.HandleEvent | MonitoringAgent/src/monitoringAgent.c:261-280 | one event moves the agent as Step says, with every store inside the buffer |
| Agents.Agent.HandleAll | MonitoringAgent/src/monitoringAgent.c:318-326 | any sequence of events ends in the state of the run |
| Agents.StepKeeps | MonitoringAgent/src/monitoringAgent.c:261-280 | each event keeps: nothing lost, doubled or reordered, batches within bounds, and one event more than a batch less one for each failure in a row |
| Agents.OverrunExactly | MonitoringAgent/src/monitoringAgent.c:264-268 | a store past the end is reached if and only if, before some event, more submissions in a row have failed than buffer_size - batch_size |
| Agents.OverrunRefused | MonitoringAgent/src/monitoringAgent.c:264-268 | no store goes past the end unless buffer_size - batch_size + 1 submissions in a row would be refused and another event follows |
| Agents.RefusedOverruns | MonitoringAgent/src/monitoringAgent.c:264-268 | buffer_size refusals in a row with another event behind them are enough |
| Agents.AcceptedThroughout | MonitoringAgent/src/monitoringAgent.c:261-280 | when every submission is accepted, the events go out in consecutive batches of exactly batch_size, and only the remainder is waiting |
| Agents.AcceptedEmpties | MonitoringAgent/src/monitoringAgent.c:270-277 | after an accepted submission less than a batch is waiting |
| Agents.RefusedThroughout | MonitoringAgent/src/monitoringAgent.c:261-280 | under any configuration with room for a batch, when every submission fails nothing is sent, all events wait in order, and event buffer_size + 1 overruns the buffer |
| Agents.NeverSubmits | MonitoringAgent/src/monitoringAgent.c:261-280 | a batch size above the buffer size never submits and overruns the buffer at event buffer_size + 1 |
| Agents.EventsConserved | MonitoringAgent/src/monitoringAgent.c:261-280 | from an accepted configuration without overflow and with at most buffer_size - batch_size failures in a row, the accepted batches in order followed by the buffer are the events received, each batch between batch_size and buffer_size |
| Agents.NothingLost | MonitoringAgent/src/monitoringAgent.c:261-280 | the same whenever no buffer_size - batch_size + 1 submissions in a row would be refused |

## Left out

- Printer.PrintValue: covers numbers equal to their int `valueint`, printed with %d; the %1.15g and %1.17g forms of other doubles, NaN and infinities are floating-point formatting. `valueint` is derived from `valuedouble` as the parser derives it, not a field of its own.
- PrintBuffers.PrintBuffer.PrintNumber: int32 numbers only, for the same reason.
- Printer.PrintElement: int32 numbers only, for the same reason.
- Printer.PrintArray: int32 numbers only, for the same reason.
- Printer.PrintMember: int32 numbers only, for the same reason.
- Printer.PrintObject: int32 numbers only, for the same reason.
- Printing.PrintPreallocated: int32 numbers only, for the same reason.
- Printing.Print: int32 numbers only, for the same reason.
- Printing.PrintBuffered: int32 numbers only, for the same reason; and a first capacity of zero is excluded, since regrowing would then copy a byte from an empty block.
- Parser.ParseBuffer.ParseNumber: reads decimal numerals as exact reals; rounding to double, hexadecimal numerals and overflow to infinity of `strtod` are not modelled, and `valueint` is derived, not stored.
- Comparison.CompareInts: `compare_double` is modelled over reals, without rounding.
- Comparison.SameExactly: two trees that share a node below which a name has two values are not covered; the code answers by the identity of the node there. `Comparison.Same` is what it answers in every case.
- MinifyParse.MinifyKeepsMeaning: its condition is necessary too when all literals are simple (`MinifyKeepsMeaningExactly`); for literals that lose a byte and hold a slash or a U+0000 only this direction is proved, and `StruckUnseen` shows that the other fails behind a U+0000.
- RoundTrip.PrintThenParse: raw items print text of any kind and are left out here and in MinifyPrint.MinifyCommutes; `RawReads` covers those that hold the text of a tree.
- Layout.FormatLaysOut: raw items are left out, likewise.
- Siblings.AddItemToArray: an item that is already a child, or a tail whose `next` is not NULL, would be linked into a cycle or with what follows it; such calls misuse the list and are excluded.
- Siblings.InsertItemInArray: an item that is already a child is excluded, likewise.
- Siblings.DetachItemViaPointer: an item that is a child of another parent is excluded; the code would unlink it from there.
- Ownership.ReplaceItemViaPointer: an item that is no child of the parent, and a replacement that is another child, are excluded, likewise.
- Siblings.Run: moving items between two lists is not covered.
- Duplicating.DuplicateRec: on failure the model frees the list of children and then the node, where the code lets `cJSON_Delete` of the node do both.
- TreeParser.ParseWithLengthOpts: the text is not NULL, and the global error pointer is only the reported position.
- Agents.Config.LoadConfig: `batch_size * 2` wraps around in 32 bits; reading the file, `trim`, splitting lines at `=` and `atoi` are input to the model.
- Agents.Agent.HandleEvent: after a store past the end of the buffer the behaviour is undefined in C, and the model stays where it is.
- The decimal point of the locale is taken to be a dot, and `tolower` that of the C locale.
- Nodes that form a cycle, and a buffer that overlaps the tree it is printed from.
- `cJSON_SetValuestring`, `cJSON_Create*`, `cJSON_Add*ToObject`, type predicates and getters: one-line wrappers around what is modelled, or easy by themselves.
- `cJSON_InitHooks` and platform variants of the hooks: the allocator model stands for any of them.
- Building the request in `submit_events`, libcurl, the eBPF programs, the ring buffer, signals and clocks.
- The management server, its database and the web front end.
