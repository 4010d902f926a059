# A verified model of the NyxJ engine

This project models the JSON engine of the library and three pieces of its runtime, and proves that they do what
the library promises. Verify everything with `dafny verify dfyconfig.toml`.

| part | files |
|---|---|
| bytes, trees, scanning, UTF-8 | `Bytes`, `JsonValue`, `Scan`, `ScanLoops`, `NumberScan`, `Decimal`, `Utf8` |
| recursive-descent parser, streaming parser, their agreement | `Parser`, `SaxSpec`, `Sax`, `SaxAgreement`, `SaxLimits`, `SaxPosition` |
| the JSON grammar with its bytes written out, and that the parser reads it | `Grammar`, `ParserGrammar` |
| serializer, its round trip and its layout | `SerializerSpec`, `SerializerRoundTrip`, `Canonical`, `Layout`, `Serializer`, `Buf` |
| JSON Pointer, patch, diff, merge patch | `Pointer`, `Patch`, `PatchLaws`, `PatchRoundTrip`, `PatchLoops`, `MergePatch` |
| repair of broken text, lenient parse | `RepairSpec`, `Repair`, `Structure`, `RawTree`, `RepairShape`, `RepairValid`, `RepairTidy`, `RepairAccepts`, `RepairCut`, `RepairCap`, `Lenient` |
| loosely written text, and what its repair means | `LooseText`, `RepairTokens`, `RepairNumerals`, `LooseTokens`, `RepairMeaning` |
| token view | `ViewSpec`, `View`, `ViewNavigation` |
| MessagePack | `MsgPack`, `MsgPackLaws`, `MsgPackCodec` |
| JSONPath execution | `QuerySpec`, `QueryLaws`, `Query` |
| schema validation | `SchemaSpec`, `SchemaLaws`, `Schema` |
| shared-memory ring | `Ring`, `SharedRing` |
| thread pool | `Pool` |
| key-value store | `Kv`, `KvStore` |
| gossip | `Gossip` |

Each part has a specification made of functions on values, the source's own form (classes whose fields are updated
in place, loops over moving cursors, arrays) proved equal to it, and the theorems about it. For protocols that
interleave, the specification is a state machine whose steps are the source's loads, stores and critical sections.

## How the C code is represented

- A byte is a number below 256. Shifts and masks on non-negative integers are written as division and remainder; the
  exclusive or of the key hash is the only bit-vector operation. Counters and sizes are unbounded unless a row says
  otherwise. Sixteen-byte vector blocks are "the first matching index among 16 bytes".
- A tree is a value, not a graph of heap nodes: an object is a list of members, because order and duplicates matter.
  Classes hold whole trees in their fields where the C code holds a pointer to a root and changes nodes below it.
- A double is an integer of magnitude at most 2^53 by its value, or any other number by its text; minus zero is
  identified with zero. The C library's conversions between text and double are not modelled: a number kept by its
  text denotes itself. Two texts of one double therefore count as two numbers.
- Where the C code needs other floating-point facts they are parameters: the bits of a double (MessagePack), the sum
  of two doubles (key-value counters), the order of doubles (queries, schemas).
- A string with `\u0000` in it is kept whole. In C it ends there wherever strings are compared or copied as C strings:
  object lookup, patches, the view's lookup and its trees, the serializer, MessagePack, the key-value store, queries
  and schemas. What is proved of these parts concerns strings and keys without NUL.
- `qsort` is the function `SortByKey` in the serializer, and the walk to the parent of a pointer's last token is
  `ResolveParent` and `PointerPut` in `PatchLoops.Document`: these two are not loops in the model.
- Allocation succeeds. Event handlers never ask the streaming parser to stop. The clock is an argument of the calls
  that read it; in the key-value store a call reads it at most twice, and a sweep may have read it before earlier calls
  did, because it does so before it takes the lock.
- The stack of the streaming parser and its element counters are one array of frames. Its events are kept in a log.
- `malloc`ed and grown arrays are fresh arrays; `nyxj_buf` is the class `Buf.Buffer`, and in the repairer, where its
  growth plays no part, a sequence.
- Memory order in the ring: every load and store is one step of a global order. The bytes of one copy may go in any
  order.
- The age of a peer is an unsigned difference that would wrap round for one heard after the clock reading. One event
  loop with one clock handles datagrams and ticks, so this does not happen (`NoAgeWraps`).
- A signal on a condition variable wakes a blocked thread of any choice if there is one; spurious wakeups happen at
  any time.

## Where the code does not do what one might expect

- A patch fails on a path with a reference token of 512 bytes or more (`DiffThenApply` says exactly when;
  `LongKeyBreaksTheRoundTrip` is the smallest case).
- A merge patch cannot carry null members; `MergeDiffThenMerge` gives the exact condition.
- A repair that meets the depth cap inside an array that already has an item leaves a comma behind. The repaired text
  is structurally valid if and only if no turn of the main loop meets the guard of that branch (`ValidUnlessCapped`). A
  text with no more opening brackets than the cap is always safe (`FewBracketsAreSafe`), and the bound is sharp
  (`OneBracketMoreIsNot`).
- A schema report leaves issues out in two places: it does not look for repeated items once `minItems` or `maxItems`
  has failed, and it goes no further at a value of the wrong type. `ItemReportIsComplete` and `TypeReportIsComplete`
  say exactly when something is missed at one place, `EarlyOutMissesOnly` when in a whole report, and `RepeatsGoUnseen`
  and `OthersGoUnseen` are instances. The verdict is that of the complete report.
- The answers of a sweep and of a count of the key-value store tell which expired entries were dropped before
  (`CountsTell`); `EvictionIsInvisible` says exactly when they do not, and that no other answer does.
- The streaming parser rejects what meets its token or element limit (`TokenTooLong`), limits that the parser does not
  have by default; `SaxLimits.StreamingIsParsing` says exactly when.
- Of a number-like token that is off, only the first 94 characters count, and of one in base 16 the first 31 after its
  mark; `GoodOff` and `Shaped` in `LooseText` say what such a token denotes.
- A move from a path to itself succeeds even where there is nothing (`PatchLaws.MoveOntoItself`).

## Model

| member | source | states |
|---|---|---|
| SaxLimits.StreamingIsParsing | src/modules/sax.c:287-369 | for every input and all limits (equal depth limit, one document), the automaton accepts exactly what the parser accepts, and its events are the preorder traversal of the parsed tree; unless some byte takes a token or the elements of a container over their limit, which is exactly when it ends with a limit error |
| SaxLimits.ShortTokensStream | src/modules/sax.c:118-142 | a text of any length whose raw strings and numbers are no longer than the token limit and whose commas are fewer than the element limit meets no limit, so that both parsers agree |
| SaxLimits.TokenTooLong | src/modules/sax.c:118-122 | a number of two digits is rejected under a token limit of one byte, while the parser accepts it |
| SaxLimits.FeedSame | src/modules/sax.c:287-361 | under any limits a run is the run under wider ones up to the byte that exceeds them, and there it ends with a limit error |
| SaxAgreement.FeedChunks | src/modules/sax.c:287-361 | feeding two chunks one after the other gives the same state, events and error position as feeding them joined |
| SaxAgreement.FeedBounded | src/modules/sax.c:118-150 | in every reachable state the stack is within the depth limit and the token within its size limit |
| Sax.Streamer.constructor | src/modules/sax.c:70-84 | a new streamer is in the fresh state, with buffers of the configured sizes |
| Sax.Streamer.Feed | src/modules/sax.c:287-361 | the feed loop, which re-processes the byte after a number, terminates and computes the automaton's run over the chunk |
| Sax.Streamer.Finish | src/modules/sax.c:363-369 | end of input completes a pending number, accepts complete documents and rejects everything else |
| Sax.Streamer.Reset | src/modules/sax.c:86-99 | after a reset the streamer is in the fresh state again |
| Sax.Streamer.Dispatch | src/modules/sax.c:303-352 | one byte in one state is one step of the automaton, or the end of a number that leaves the byte to the next state |
| Sax.Streamer.StringByte | src/modules/sax.c:208-237 | a byte inside a string: sequence continuation, closing quote, escape, control character or first byte |
| Sax.Streamer.EscapeByte | src/modules/sax.c:239-260 | the byte after a backslash, after a high surrogate or not |
| Sax.Streamer.UnicodeByte | src/modules/sax.c:262-281 | the four digits of an escape become a code unit, which ends a pair, starts one, or is encoded |
| Sax.Streamer.Push | src/modules/sax.c:144-150 | opening a container pushes a frame unless the depth limit is reached |
| Sax.Streamer.CloseContainer | src/modules/sax.c:152-158 | a closing bracket must match the innermost frame, and ends a value in the enclosing one |
| Sax.Streamer.EndValue | src/modules/sax.c:132-142 | after a value: the document ends, or the element is counted against its limit |
| Sax.Streamer.BeginValue | src/modules/sax.c:160-186 | the first byte of a value selects the state that reads it |
| Sax.Streamer.TokPutCp | src/modules/sax.c:124-130 | a code point is appended in UTF-8 up to the token limit |
| SaxPosition.PositionIs | src/modules/sax.c:287-361 | after any input the offset is that of the first byte rejected, or the end of the input; the line is one more than the line ends before it, and the column counts from the last of them, or from the start without a byte order mark |
| Parser.Parse | src/core/parser.c:352-396 | the parser with a byte order mark, one value and trailing whitespace computes the document reader |
| Parser.Context.ParseValue | src/core/parser.c:319-341 | a value at the cursor is read as specified and leaves the depth unchanged |
| Parser.Context.ParseArray | src/core/parser.c:186-245 | the item loop reads the array or fails where the specification fails |
| Parser.Context.ParseObject | src/core/parser.c:247-317 | the member loop reads the object or fails where the specification fails |
| Parser.Context.ParseString | src/core/parser.c:98-161 | fast path and two-phase slow path both give the string that one pass over characters and escapes reads |
| Parser.Context.Decode | src/core/parser.c:129-161 | decoding the located range accepts exactly the readable strings and gives their text |
| ParserGrammar.ParsesExactly | src/core/parser.c:186-396 | for every input, tree and depth limit: the parser reads the input as this tree if and only if the input is a text of the grammar of RFC 8259, given by the literal bytes of its tokens, that nests no deeper and means the tree |
| EscapeLaws.StringsExactly | src/core/parser.c:98-161 | a string is read, with this text and end, if and only if it is a sequence of plain characters, one-letter escapes and escapes of one or two code units, digits in either case, that means the text |
| EscapeLaws.UnitEscapeReads | src/core/scan.h:178-211 | the escape of every code unit that is no surrogate, each digit from the table of lower-case or of upper-case digits, is read as the UTF-8 of that code point |
| EscapeLaws.PairEscapeReads | src/core/scan.h:178-211 | the escapes of two surrogates, digits in either case, are read as the UTF-8 of their code point |
| EscapeLaws.BadDigitRejects | src/core/scan.h:178-211 | a byte outside of both tables among the four digits rejects the string |
| EscapeLaws.LettersSpelled | src/core/scan.h:158-176 | each of the eight one-letter escapes is read as the byte it stands for, and every other letter but u is rejected |
| NumberLaws.NumbersExactly | src/core/scan.h:133-156 | a number is scanned up to here if and only if a token of the number grammar, with either letter of the exponent, stands there |
| NumberLaws.NumberValueIs | src/core/parser.c:163-184 | a whole number of magnitude at most 2^53 has the value of its digits, and any other token stands for itself |
| StringPhases.ReadHasClose | src/core/parser.c:117-128 | the quote that the first phase locates is the one at which a readable string ends |
| StringPhases.SegmentReads | src/core/parser.c:134-142 | bytes between special characters are copied if they are valid UTF-8, and reject the string otherwise |
| ScanLoops.ScanWs | src/core/scan.h:42-67 | the block scanner stops at the first byte that is not whitespace |
| ScanLoops.ScanStringSpecial | src/core/scan.h:69-97 | the block scanner stops at the first quote, backslash or control character |
| ScanLoops.Utf8InvalidAt | src/core/scan.h:102-130 | with its eight-byte fast path the validator gives the start of the first ill-formed sequence |
| ScanLoops.ScanNumberToken | src/core/scan.h:133-156 | the loops accept the number grammar and give its end |
| Utf8.ValidIffGrammar | src/core/scan.h:102-130 | the validator reaches the end exactly on the byte strings of section 4 of RFC 3629 |
| Utf8.InvalidIsFirst | src/core/scan.h:102-130 | otherwise everything before the reported position is well formed and no character starts there |
| Utf8.DecodeEncode | src/common/buf.c:69-88 | decoding the encoding of any code point that is no surrogate gives it back, whatever follows |
| Utf8.EncodeDecode | src/core/scan.h:193-211 | encoding a decoded character gives its bytes back |
| Utf8.DecodedLength | src/common/buf.c:69-88 | the serializer's decoder takes exactly the sequences the validator accepts |
| NumberScan.ScanNumberWithin | src/core/scan.h:133-156 | a character that no number contains ends a number as the end of the input does |
| NumberScan.ScanNumberShifted | src/core/scan.h:133-156 | the number grammar does not depend on where the token stands |
| JsonOps.EqualsReflexive | src/core/value.c:215-237 | every tree with unique keys equals itself |
| JsonOps.EqualsSymmetric | src/core/value.c:215-237 | equality, which looks from one object into the other, is symmetric on trees with unique keys |
| JsonOps.EqualsTransitive | src/core/value.c:215-237 | equality is transitive |
| SerializerRoundTrip.SerializeThenParse | src/core/serializer.c:15-103 | for every printable tree within the depth limit, every indent and both escaping settings, parsing the output gives the tree back, with sorted keys up to the order of members |
| SerializerRoundTrip.BodyReads | src/common/buf.c:90-129 | every written string body, escaped or not, reads back as the string |
| SerializerRoundTrip.CodePointReads | src/common/buf.c:62-67 | one escape or a surrogate pair decodes to the UTF-8 encoding of the code point |
| SerializerRoundTrip.SortedAndPermuted | src/core/serializer.c:25-29 | of two sorted members the earlier one's key is a prefix of the later one's or has the smaller byte where they first differ; and they are a permutation of the members |
| SerializerRoundTrip.KeyLessIsPrecedes | src/core/serializer.c:25-29 | one key comes before another exactly if it is a proper prefix of it or has the smaller byte at the first place where they differ |
| Canonical.EqualsExactly | src/core/value.c:215-237 | trees with unique keys are equal if and only if sorting all their members makes them the same |
| LayoutLaws.SerializedLayout | src/core/serializer.c:15-91 | read byte by byte, the text begins a new line exactly after an opening bracket, after a comma and before a closing bracket, with indent spaces for each bracket open, one space after each colon and no other blank outside of strings, none at all without an indent; with everything else escaped it is ASCII |
| SerializerRoundTrip.ArrangedEquals | src/core/serializer.c:41-91 | the tree with sorted members equals the tree |
| Serializer.SerializeTree | src/core/serializer.c:93-103 | the buffer ends up holding the specified text |
| Serializer.Writer.WriteValue | src/core/serializer.c:41-91 | appends the text of a value and nothing else |
| Serializer.Writer.WriteObject | src/core/serializer.c:63-89 | sorts the pairs if asked and appends the object |
| Serializer.Writer.WriteMember | src/core/serializer.c:33-39 | appends one member with its line, key and separator |
| Serializer.Writer.SortCommutes | src/core/serializer.c:63-82 | sorting the members and writing their values with sorted members can be exchanged |
| Buf.Buffer.Reserve | src/common/buf.c:17-27 | doubling makes room for the bytes and the terminator and keeps the contents |
| Buf.Buffer.Append | src/common/buf.c:35-40 | appends the bytes |
| Buf.Buffer.JsonString | src/common/buf.c:90-129 | copying runs of plain characters between escapes writes the specified literal |
| Buf.Buffer.PutWideEscape | src/common/buf.c:111-123 | a wide character becomes one escape or a surrogate pair, a broken one the replacement character |
| Buf.Buffer.JsonNumber | src/common/buf.c:131-146 | an integer is written by its digits |
| Pointer.TokenReadsBack | src/modules/patch.c:10-26 | reading an escaped token gives the token back, and fails exactly when it does not fit its buffer |
| Pointer.PointerWalks | src/modules/patch.c:42-65 | a pointer made of fitting tokens leads where the tokens lead, for reading and for writing |
| Pointer.LongPointerFails | src/modules/patch.c:10-26 | a pointer with a token that does not fit leads nowhere |
| Pointer.IndexReadsBack | src/modules/patch.c:28-40 | decimal text denotes its number as an array index |
| PatchRoundTrip.DiffThenApply | src/modules/patch.c:117-272 | for all trees with unique keys (and array sizes within the index limit), applying the diff succeeds exactly when every edited path fits the token buffer, and then gives a tree equal to the new one |
| PatchRoundTrip.DiffThenApplyWithFittingKeys | src/modules/patch.c:193-272 | with keys of at most 511 bytes the diff always applies and gives a tree equal to the new one |
| PatchRoundTrip.LongKeyBreaksTheRoundTrip | src/modules/patch.c:10-26 | a key of 512 bytes makes the diff inapplicable |
| PatchRoundTrip.UnderActsOnChild | src/modules/patch.c:211-261 | edits prefixed with a key change the child under that key as they would change it alone, and nothing else |
| PatchRoundTrip.RenderApplies | src/modules/patch.c:117-172 | an operation of the emitted form does exactly what the edit does, or fails when its path does not fit |
| PatchRoundTrip.EditsWork | src/modules/patch.c:211-261 | the edits of a diff lead from the old tree to one equal to the new tree |
| PatchLaws.EmptyDiff | src/modules/patch.c:211-274 | the diff of two trees is empty if and only if they are equal |
| PatchRoundTrip.TruncatesApply | src/modules/patch.c:251-257 | removing array items from the end downwards leaves exactly the kept prefix |
| PatchRoundTrip.AppendsApply | src/modules/patch.c:244-250 | adding items in ascending order appends them in order |
| PatchLoops.Document.Apply | src/modules/patch.c:174-189 | the operations run one by one on the document and stop at the first that fails |
| PatchLoops.Document.ApplyOne | src/modules/patch.c:117-172 | one operation, by its name, changes the document as specified or reports failure |
| PatchLaws.MoveIsRemoveThenAdd | src/modules/patch.c:146-160 | for every document and two different paths, the target not inside the origin: a move does exactly what removing the value and then adding it does, and fails if nothing is at the origin or the origin is the root |
| PatchLaws.MoveOntoItself | src/modules/patch.c:146-151 | a move from a path to itself succeeds and changes nothing |
| PatchLaws.MoveIntoItself | src/modules/patch.c:146-151 | a move to a path inside the one it comes from fails |
| PatchLaws.MoveRenames | src/modules/patch.c:146-160 | moving the only member of an object to another name leaves an object with only that name |
| PatchLaws.CopyIsAdd | src/modules/patch.c:161-165 | a copy does exactly what adding the value at the path it comes from does, and fails if there is none |
| PatchLaws.TestDoes | src/modules/patch.c:133-139 | a test succeeds exactly if the value at the path exists and equals the given one, and changes nothing |
| PatchLaws.OnlyKnownOperations | src/modules/patch.c:117-172 | an operation that succeeds is one of the six of RFC 6902, spelled as there, and has a path |
| PatchLaws.AddDoes | src/modules/patch.c:84-101 | an addition sets a member or inserts an item before its position; it needs the parent and changes nothing that branches off from the path |
| PatchLaws.RemoveDoes | src/modules/patch.c:103-115 | a removal needs the value; later items move up by one, and nothing that branches off from the path changes |
| PatchLaws.ReplaceDoes | src/modules/patch.c:140-145 | a replacement needs the value, puts the new one in its place and changes nothing else |
| PatchLaws.IndexExactly | src/modules/patch.c:28-40 | a token denotes a position exactly if it is its decimal text without leading zeros, or the end mark where that is allowed |
| PatchLaws.TildeSpelled | src/modules/patch.c:10-26 | ~0 and ~1 denote a tilde and a slash, and every other byte itself |
| PatchLoops.Document.Add | src/modules/patch.c:84-101 | add replaces a member, inserts an item, appends at the end marker or replaces the root |
| PatchLoops.Document.Detach | src/modules/patch.c:103-115 | remove detaches the member or item under the last token |
| PatchLoops.GetAtPointer | src/modules/patch.c:42-65 | the walk over tokens gives what the pointer denotes |
| PatchLoops.EqualsTree | src/core/value.c:215-237 | the comparison loops decide equality |
| PatchLoops.Differ.DiffRec | src/modules/patch.c:211-261 | the recursion with its path buffer emits exactly the specified operations and restores the path |
| PatchLoops.Differ.PushToken | src/modules/patch.c:193-200 | a token is appended to the path with its escapes |
| PatchLoops.ComputeDiff | src/modules/patch.c:263-272 | the diff of two trees is the specified patch |
| MergePatch.MergeDiffThenMerge | src/modules/patch.c:276-318 | merging the merge diff gives a tree equal to the new one if and only if every null member of the new tree lies in a part that does not change |
| MergePatch.NoNullsMerge | src/modules/patch.c:276-318 | without null members reachable through objects the merge of the merge diff always gives the new tree |
| MergePatch.MergeIntoNothing | src/modules/patch.c:276-297 | merging a tree into nothing gives an equal tree exactly when no member reachable through objects is null |
| MergePatch.MergeLookup | src/modules/patch.c:276-297 | what a merged object holds under every key, by section 2 of RFC 7386 |
| PatchLoops.ApplyMerge | src/modules/patch.c:276-297 | the member loop computes the merge |
| PatchLoops.ComputeMergeDiff | src/modules/patch.c:299-318 | the two member loops compute the merge diff |
| RepairCap.ValidUnlessCapped | src/modules/repair.c:42-108 | for every input, the repaired text is structurally valid if and only if no turn of the main loop finds an opening bracket with all frames in use and an array with an item on top |
| RepairCap.FewBracketsAreSafe | src/modules/repair.c:100-108 | a text with at most as many opening brackets as the cap is repaired to a structurally valid text, which a second repair leaves alone |
| RepairCap.OneBracketMoreIsNot | src/modules/repair.c:100-108 | the bound is sharp: one more bracket, and some text is repaired to an invalid one |
| RepairCap.CutIsGuard | src/modules/repair.c:42-108 | from every reachable state, a run ends cut off after a comma exactly when it meets that guard |
| RepairCut.ValidUnlessCut | src/modules/repair.c:269-365 | for every input, the repaired text is structurally valid if and only if the depth cap did not cut an array off after a comma |
| RepairValid.RepairIsValid | src/modules/repair.c:269-365 | for every input outside that case the repaired text is structurally valid |
| RepairValid.RepairIsIdempotent | src/modules/repair.c:269-365 | outside that case, repairing a repaired text changes nothing and reports no fix |
| RepairAccepts.AcceptedTextIsLeftAlone | src/modules/repair.c:288-364 | text the strict parser accepts is returned with only insignificant whitespace removed and zero fixes |
| RepairAccepts.ValidTextIsLeftAlone | src/modules/repair.c:288-364 | the same for every structurally valid text, whatever its encoding |
| RepairTidy.ZeroFixesMeansTidy | src/modules/repair.c:288-364 | whenever a repair reports zero fixes, its result is the input without insignificant whitespace |
| RepairCut.TooDeepIsCut | src/modules/repair.c:100-108 | as many opening brackets as the cap allows, then a number, a comma and a bracket, give an invalid text |
| RepairShape.Closes | src/modules/repair.c:82-98 | closing any open container completes the text of one more value of the enclosing one |
| RepairShape.Prepares | src/modules/repair.c:42-64 | the separators written before a value leave the output exactly where a value may stand |
| RepairShape.Commas | src/modules/repair.c:311-323 | a comma, wanted or not, keeps the output a completable prefix |
| RepairShape.Keys | src/modules/repair.c:73-80 | a key of any origin leaves the output waiting for its colon |
| RepairShape.Completes | src/modules/repair.c:66-71 | a complete value after the parents' text is one more item or member of the innermost container |
| RepairValid.RunShape | src/modules/repair.c:288-348 | over the whole main loop, whatever arrives, the frames describe how the output can be completed |
| RepairLiterals.CopyChars | src/modules/repair.c:123-159 | whatever the source string holds, its copy is whole characters and a closing quote |
| RepairLiterals.NumberAtom | src/modules/repair.c:205-263 | every number-like token becomes a JSON number, null or a string literal |
| RepairLiterals.WordAtom | src/modules/repair.c:175-203 | every bare word becomes a literal word or a string literal |
| Encoded.StrictIsEncoded | src/core/parser.c:352-396 | a text is strictly valid exactly if it is structurally valid and each of its strings is valid UTF-8 with paired surrogates |
| Lenient.StrictComesFirst | src/modules/repair.c:367-379 | what the strict parser accepts, the lenient one accepts with the same tree |
| Lenient.LenientAcceptsRepaired | src/modules/repair.c:367-379 | any other text is accepted exactly if its repair exists, met no guard of the depth cap, and has only strings that read |
| Lenient.ParseLenient | src/modules/repair.c:367-379 | one strict parse, one repair, one more strict parse, and the report |
| Structure.StrictIsStructural | src/core/parser.c:319-396 | what the strict parser accepts is structurally valid |
| RawTree.RenderIsValid | src/modules/repair.c:269-365 | the compact text of a well-formed tree is structurally valid |
| Repair.RepairText | src/modules/repair.c:269-365 | the machine with its frame array gives the specified text, fix count and kinds |
| Repair.Repairer.MainLoop | src/modules/repair.c:288-348 | the main loop terminates and computes the run |
| Repair.Repairer.PrepareValue | src/modules/repair.c:42-64 | writes the separators and sets the innermost frame as specified |
| Repair.Repairer.CloseContainer | src/modules/repair.c:88-98 | closes the innermost container and completes a value |
| Repair.Repairer.OpenContainer | src/modules/repair.c:100-108 | opens a container or stops at the cap |
| Repair.Repairer.CopyString | src/modules/repair.c:123-159 | the copying loop computes the specified literal |
| Repair.Repairer.HandleWord | src/modules/repair.c:175-203 | a bare word as a key or a value |
| Repair.Repairer.HandleNumber | src/modules/repair.c:205-263 | a number-like token as a key or a value |
| Repair.Repairer.Normalize | src/modules/repair.c:247-254 | the 96-byte buffer ends up holding the normalized token, cut where the buffer is full |
| Repair.Repairer.CloseAll | src/modules/repair.c:350-358 | closes what is open at the end of the input |
| RepairMeaning.RepairMeans | src/modules/repair.c:36-365 | for every loosely written document, nesting up to the limit: bare words, number-like tokens and literals in any quotes; commas, colons, keys and values missing, equals signs, trailing commas, wrong brackets, comments, code fences and a byte order mark: the repaired text parses to the tree the document denotes, and the report counts exactly its flaws and names their kinds |
| LooseRuns.ValueRuns | src/modules/repair.c:269-365 | over a loose value anywhere in a text, from any state that may take a value, the main loop writes the JSON text of what it denotes and notes its flaws |
| LooseRuns.FieldRuns | src/modules/repair.c:36-98 | the same for a member whose key, link or value may be missing |
| LooseTokens.TokenRuns | src/modules/repair.c:123-263 | the same for a single token in the place of a value |
| LooseTokens.KeyRuns | src/modules/repair.c:123-220 | in the place of a key a word or a number-like token is written as the string that it is, and a literal as the string it denotes |
| LooseTokens.FillRuns | src/modules/repair.c:302-329 | spaces, comments of three kinds and code fences are skipped, and all but the spaces noted |
| RepairedWords.WordWritten | src/modules/repair.c:175-203 | a bare word is written as true exactly for true, True and TRUE, as false exactly for false, False and FALSE, as null exactly for null, None, NULL, Null, nil, undefined, NaN and Infinity, and else as the string that it is |
| RepairedWords.QuoteWritten | src/modules/repair.c:123-159 | a literal in double quotes, single quotes or backticks is written as the string it denotes: escaped delimiters, line ends, backslashes that escape nothing, control characters and inner double quotes included |
| RepairedNumbers.ExactIsNumber | src/modules/repair.c:216-220 | a number-like token is left alone exactly if it is in the number grammar |
| RepairedNumbers.HexWritten | src/modules/repair.c:232-245 | a token in base 16 is written as the decimal number of its first 31 characters, signs and 64-bit saturation and wrap-around included |
| RepairedNumbers.OffWritten | src/modules/repair.c:246-258 | a number with a plus sign, leading zeros, no digit before its point or stray points is written without these faults; of a longer one the first 94 characters count |
| RepairedNumbers.OtherWritten | src/modules/repair.c:246-262 | a number-like token that is none of these is written as the string that it is |
| NumeralFamilies.PlusSign | src/modules/repair.c:225 | a plus sign before any number of at most 94 characters denotes that number |
| NumeralFamilies.LeadingZeros | src/modules/repair.c:247 | any number of zeros before it does, too |
| NumeralFamilies.NoFirstDigit | src/modules/repair.c:248 | a fraction without the zero before its point denotes the fraction |
| NumeralFamilies.LastPoint | src/modules/repair.c:249-252 | a number with a point at its end denotes the number |
| NumeralFamilies.HexToken | src/modules/repair.c:232-245 | 0x or 0X and at most 31 digits in either case denote their value in base 16 |
| ViewAgreement.ViewIsParsing | src/modules/view.c:148-173 | the view accepts exactly what the parser accepts, its root denotes the parsed tree, every token is the root of a subtree, and next links partition each container into contiguous ranges |
| ViewAgreement.StringsAgree | src/modules/view.c:50-77 | checking escapes first and the encoding of the whole range afterwards accepts exactly the strings the parser accepts |
| ViewAgreement.SpanDecodes | src/modules/view.c:192-215 | decoding the range of a string token gives the text the parser read |
| ViewAgreement.DenotesOne | src/modules/view.c:287-336 | a token denotes one tree only |
| View.Indexer.ValueTok | src/modules/view.c:128-146 | appends the tokens of the value at the cursor, failing for lack of room only with a caller's array |
| View.Indexer.ContainerTok | src/modules/view.c:81-119 | appends a container's token and its children's and patches its end, size and next link |
| View.Indexer.StringTok | src/modules/view.c:50-77 | appends the token of a valid string with its escape mark |
| View.Indexer.Emit | src/modules/view.c:30-48 | appends a token, growing the array only if the view owns it |
| ViewNavigation.ParseView | src/modules/view.c:148-173 | a view is made exactly when the document parses, is short enough and its tokens fit; its root is the parsed tree |
| ViewNavigation.TokenView.ToValue | src/modules/view.c:287-336 | builds the tree under a token, repeated keys merged |
| ViewTree.MergedUnique | src/modules/view.c:316-332 | without repeated keys nothing is merged |
| ViewNavigation.TokenView.Index | src/modules/view.c:242-247 | following i next links gives the token of the i-th item, for every index of every token |
| ViewNavigation.TokenView.Find | src/modules/view.c:231-240 | gives the token of the first member with the key, or none exactly when the tree has none |
| ViewNavigation.TokenView.Eq | src/modules/view.c:217-229 | the raw comparison and the decoding one both decide equality with the text |
| ViewNavigation.TokenView.StringOf | src/modules/view.c:192-215 | decodes the text of a string token |
| MsgPackRoundTrip.EncodeThenDecode | src/modules/msgpack.c:65-258 | decoding an encoding gives the tree back and consumes exactly the encoding, whatever follows |
| MsgPackRoundTrip.ValueDecodes | src/modules/msgpack.c:200-246 | the same at every position and depth of a buffer |
| MsgPackRoundTrip.ArrayDecodes | src/modules/msgpack.c:146-157 | on encoder output the length guard never fires and the items come back in order |
| MsgPackRoundTrip.NumberDecodes | src/modules/msgpack.c:26-57 | every integer of [-2^63, 2^64) a double holds, in its shortest form, and every other double come back |
| MsgPackRoundTrip.NegativeDecodes | src/modules/msgpack.c:36-44 | two's complement in one, two, four and eight bytes |
| MsgPackRoundTrip.StringDecodes | src/modules/msgpack.c:59-63 | strings and keys of every length class come back |
| MsgPackLaws.DecodesExactly | src/modules/msgpack.c:113-246 | for every buffer, position and depth: the decoder reads a value up to here if and only if a wire value of the table of tags, spelled with literal bytes, stands there and means it; longer forms than needed and binaries included |
| MsgPackLaws.EncodesWired | src/modules/msgpack.c:11-97 | every tree is written with the tags of that table, each in its shortest form |
| MsgPackLaws.WholeIsShortest | src/modules/msgpack.c:26-57 | no wire integer of the same value is shorter than the one written |
| MsgPackLaws.BigEndianSpelled | src/modules/msgpack.c:11-15 | numbers are written with their most significant byte first |
| MsgPack.EncodeToBytes | src/modules/msgpack.c:86-91 | the buffer ends up holding the encoding |
| MsgPack.Encoder.EncodeTree | src/modules/msgpack.c:65-84 | appends the encoding of a tree and nothing else |
| MsgPack.Encoder.PutBe | src/modules/msgpack.c:11-15 | appends the low bytes, most significant first |
| MsgPack.DecodeBytes | src/modules/msgpack.c:248-258 | decodes a buffer that is one value, for every input |
| MsgPack.Decoder.Value | src/modules/msgpack.c:200-246 | the cursor and the depth move as specified, for every input |
| MsgPack.Decoder.Map | src/modules/msgpack.c:179-198 | the entry loop sets one member after the other |
| MsgPack.Decoder.Key | src/modules/msgpack.c:159-177 | a key is a string or the JSON text of any other value |
| QuerySpec.AscendingExact | src/modules/query.c:520-533 | with a positive step a slice selects exactly the positions in its bounds at multiples of the step |
| QuerySpec.DescendingExact | src/modules/query.c:534-538 | with a negative step it selects them downwards from the upper bound |
| QuerySpec.SliceInBounds | src/modules/query.c:520-540 | every selected position is inside the array, for every sign of start, end and step |
| QuerySpec.DenoteAppends | src/modules/query.c:574-597 | a query over two node lists gives the results over the first, then those over the second |
| QueryLaws.IndexSelects | src/modules/query.c:513-523 | an index selects the item at its position, a negative one counts from the end |
| QueryLaws.NameSelects | src/modules/query.c:505-512 | a name selects the value of the member with that key |
| QueryLaws.NothingSelected | src/modules/query.c:501-560 | where there is no such member or item, or the value is no container, nothing is selected |
| QueryLaws.WildcardSelects | src/modules/query.c:501-560 | a wildcard selects all items or member values in order |
| QueryLaws.PreorderIs | src/modules/query.c:562-572 | a descendant segment meets a node, then the subtrees of its children in order |
| QueryLaws.FilterSelects | src/modules/query.c:487-560 | a filter selects exactly the children for which it holds, in the order of the wildcard |
| QueryLaws.UnionSelects | src/modules/query.c:552-558 | a union selects what its selectors select, one after the other |
| QueryLaws.FilterLogic | src/modules/query.c:487-499 | the connectives of filters are those of logic, and existence means being there and not false |
| QueryLaws.NumbersCompare | src/modules/query.c:458-485 | the six comparisons of numbers follow their order |
| QueryLaws.StringsCompare | src/modules/query.c:458-485 | the six comparisons of strings follow the byte order |
| QueryLaws.OthersCompare | src/modules/query.c:458-485 | other values are equal or not, and never less or greater |
| QueryLaws.MissingCompares | src/modules/query.c:458-485 | a missing value differs from every value there is |
| QueryLaws.PathFollowed | src/modules/query.c:446-456 | a path in a filter is followed from the child or the root, one selector after the other |
| Query.Evaluator.Exec | src/modules/query.c:574-597 | the visitor is shown the results in order up to the first at which it stops, and the count is how many it saw |
| Query.Evaluator.ResultNodes | src/modules/query.c:576-588 | execution with two swapped lists computes the left fold of the segments |
| Query.Evaluator.ApplyRecursive | src/modules/query.c:562-572 | a descendant segment selects from the nodes of the preorder traversal |
| Query.Evaluator.ApplySlice | src/modules/query.c:520-540 | the two clamps of the code select what section 2.3.4.2.2 of RFC 9535 defines |
| Query.Evaluator.BoundsUp | src/modules/query.c:522-530 | the code's bounds and those of the standard give the same positions |
| Query.Evaluator.ApplySegment | src/modules/query.c:501-560 | every kind of segment appends what it selects |
| Query.NodeList.Push | src/modules/query.c:434-444 | appends a node, doubling the array when it is full |
| SchemaSpec.VerdictIsNoIssue | src/modules/schema.c:202-324 | for every schema, value and depth, the verdict is true exactly when the report has no issue, be it the library's or one that looks for everything |
| SchemaLaws.PassesExactly | src/modules/schema.c:115-317 | for every schema, value and depth, under a strict order of numbers: the value passes if and only if each keyword, stated by quantifiers over members, items, characters and subschemas, allows it |
| SchemaLaws.CharactersCounted | src/modules/schema.c:60-65 | the length of a string is the number of its bytes that continue no character |
| SchemaSpec.EarlyOutMissesOnly | src/modules/schema.c:159-317 | for every schema, value and depth the library's report has at most as many issues as the complete one, none exactly when that has none, and equally many exactly when, wherever the walk comes, no failing type hides another failure and no failing size a repetition |
| SchemaSpec.ItemReportIsComplete | src/modules/schema.c:164-175 | the count for an array is complete exactly if the size checks pass, items may repeat, or none does |
| SchemaSpec.TypeReportIsComplete | src/modules/schema.c:217-317 | going on after a type mismatch would report more exactly if another keyword than $ref and type fails |
| SchemaSpec.RepeatsGoUnseen | src/modules/schema.c:164-175 | two equal items under minItems 3 and uniqueItems: one issue of two is reported |
| SchemaSpec.OthersGoUnseen | src/modules/schema.c:235-250 | null under type string and a const: one issue of two is reported |
| Schema.ValidateSchema | src/modules/schema.c:319-324 | report mode and silent mode give the same verdict, total counts all issues and at most 32 are stored |
| Schema.Validator.Validate | src/modules/schema.c:202-317 | the walk terminates on cyclic references, restores the depth and counts the issues, in both modes |
| Schema.Validator.Issue | src/modules/schema.c:24-35 | counts in report mode and stores while there is room |
| Schema.Validator.ObjectChecks | src/modules/schema.c:115-157 | the object keywords, stopping early in silent mode only |
| Schema.Validator.ArrayChecks | src/modules/schema.c:159-200 | the array keywords, stopping early in silent mode only |
| Schema.Validator.SilentValid | src/modules/schema.c:37-40 | the nested silent walk gives the verdict |
| RingSteps.EveryInterleaving | src/runtime/ipc.c:351-380 | in every interleaving of loads, byte copies and publishes the positions stay within a capacity, the bytes between them are the pending frames, messages read are a prefix of messages written, no header is found corrupted, and the free space a write computes is never negative |
| RingSteps.NothingLost | src/runtime/ipc.c:351-380 | when the consumer has caught up it has read everything that was written, in order |
| RingSteps.NextKeeps | src/runtime/ipc.c:335-380 | every single step keeps the ring invariant |
| RingSteps.StoreKeeps | src/runtime/ipc.c:335-341 | a byte the producer copies never falls on a byte the consumer may still read |
| RingSteps.RefusedExactlyWhenFull | src/runtime/ipc.c:353-356 | whatever the consumer does meanwhile, a write is turned away exactly if its frame does not fit beside what was unread when it began |
| RingSteps.UninterruptedWrite | src/runtime/ipc.c:351-362 | run without interruption, the steps of a write append the message if its frame fits and change nothing otherwise |
| RingSteps.UninterruptedRead | src/runtime/ipc.c:364-380 | run without interruption, the steps of a read deliver the oldest pending message and free its frame |
| RingFrames.SlotIsModular | src/runtime/ipc.c:335-349 | the two straight copies put every byte at its position modulo the capacity |
| RingFrames.PrefixReadsBack | src/runtime/ipc.c:357-370 | the four length bytes read back as the length |
| SharedRing.Ring.CopyIn | src/runtime/ipc.c:335-341 | writes exactly the window |
| SharedRing.Ring.CopyOut | src/runtime/ipc.c:343-349 | reads the window |
| SharedRing.Ring.Write | src/runtime/ipc.c:351-362 | a message is taken exactly when its frame fits, and is then the newest pending one; the uninterrupted steps of the machine do the same |
| SharedRing.Ring.Read | src/runtime/ipc.c:364-380 | gives the oldest pending message, or none when nothing is pending; the uninterrupted steps of the machine do the same |
| PoolSteps.RunnableWorkHasWorkers | src/runtime/pool.c:26-55 | before shutdown, in every run, min(queued, limit - active) is at most the number of awake workers |
| PoolSteps.NeverStuck | src/runtime/pool.c:26-55 | whenever something is queued some worker is awake or running, during shutdown as well |
| PoolSteps.Conservation | src/runtime/pool.c:26-103 | accepted = queued + active + completed, tasks start in the order of acceptance, none is dropped or run twice |
| PoolSteps.DrainedAtExit | src/runtime/pool.c:133-140 | when all workers have left, every accepted task has run exactly once |
| PoolSteps.DrainIsBounded | src/runtime/pool.c:26-55 | from shutdown on, in every run, taking, ending and leaving use up a measure of at most two steps for every queued task and worker, and once it is used up, and only then, the queue is empty and all workers have left |
| PoolSteps.SomebodyProgresses | src/runtime/pool.c:30-53 | until all workers have left, one of them can take such a step |
| PoolSteps.IdleIsNoticed | src/runtime/pool.c:105-110 | nobody is left waiting for a pool that has become idle |
| PoolSteps.NextKeeps | src/runtime/pool.c:26-140 | every submit, look, finish, throttle change, shutdown, wait and spurious wakeup keeps the pool invariant |
| PoolLaws.StartsBelowLimit | src/runtime/pool.c:30-40 | a step that starts a task finds fewer running than the limit and a task queued, starts the oldest one and no other, and leaves one more running; no other step lets more run |
| PoolLaws.NeverOverLimit | src/runtime/pool.c:26-118 | in every run in which the limit is not lowered, no more tasks run at a time than the limit |
| PoolLaws.OverLimitOnlyShrinks | src/runtime/pool.c:26-118 | as long as at least as many tasks run as the limit allows, none starts |
| PoolLaws.LookDoes | src/runtime/pool.c:30-40 | a worker that looks takes the oldest task exactly if one is queued below the limit, leaves exactly if the pool is closed and empty, tries again if it is closed and throttled, and else blocks |
| PoolLaws.FinishDoes | src/runtime/pool.c:41-54 | the end of a task lowers the number running and counts it |
| PoolLaws.SubmitDoes | src/runtime/pool.c:84-103 | a task is accepted exactly if the pool is open and its queue has room, as the newest one |
| PoolLaws.SetConcurrencyDoes | src/runtime/pool.c:112-118 | the limit becomes n if n is between one and the number of threads, and that number otherwise |
| PoolLaws.ShutdownDoes | src/runtime/pool.c:133-140 | closing keeps what is queued, lifts the throttle and wakes every blocked worker |
| PoolLaws.WaitDoes | src/runtime/pool.c:105-110 | waiting ends exactly when nothing is queued or running |
| PoolLaws.ThrottledToOne | src/runtime/pool.c:30-40 | two workers, limit one, two tasks: the second look blocks |
| Pool.TaskPool.Submit | src/runtime/pool.c:84-103 | appends to the circular queue and signals a worker, or counts a rejection |
| Pool.TaskPool.Look | src/runtime/pool.c:29-44 | a worker's decision under the lock; a taken task is the oldest |
| Pool.TaskPool.Finish | src/runtime/pool.c:48-53 | the counters after a task, and which conditions to signal |
| Pool.TaskPool.SetConcurrency | src/runtime/pool.c:112-118 | the new limit, and every blocked worker is woken |
| Pool.TaskPool.Shutdown | src/runtime/pool.c:133-139 | closes the pool, lifts the throttle and wakes every blocked worker |
| KvSpec.EvictionIsInvisible | src/runtime/kv.c:94-283 | in every run, whichever expired entries are dropped along the way, a call answers the same unless it counts entries (a sweep, the count), and then exactly if it finds equally many expired ones; the clock does not go back, but a sweep may read it early |
| KvSpec.CallsAlike | src/runtime/kv.c:142-283 | a call changes only what is live; its answer depends on that alone, or for the two that count on the number of expired entries too |
| KvSpec.CountsTell | src/runtime/kv.c:231-283 | one expired entry: a sweep and a count answer 1 if it is still stored and 0 if it was dropped |
| KvLaws.FoundUntilItExpires | src/runtime/kv.c:117-162 | a key set at time n with a lifetime t is found with its value at every time before n + t, and from then on no more, whatever calls on other keys come between and whichever expired entries are dropped; without a lifetime it is always found |
| KvLaws.SetDoes | src/runtime/kv.c:117-151 | after setting a key a read, an existence test and the time left are those of its value and lifetime, before the end and after it |
| KvLaws.OthersLeave | src/runtime/kv.c:95-290 | a call that neither clears the store nor sets, deletes, increments or expires a key leaves what will be found under it |
| KvLaws.DelDoes | src/runtime/kv.c:164-176 | deleting a key makes it missing, and says whether it was there |
| KvLaws.ExpireDoes | src/runtime/kv.c:207-229 | a new lifetime keeps the value until its end, and the time left is what is left of it |
| KvLaws.IncrDoes | src/runtime/kv.c:186-205 | an increment adds to a number, starts a missing one at the difference, and refuses and keeps anything else |
| KvLaws.ClearDoes | src/runtime/kv.c:285-290 | after clearing nothing is found |
| KvTable.MaskIsRemainder | src/runtime/kv.c:83-97 | with a power of two of buckets the mask of the hash is its remainder |
| KvTable.Inserts | src/runtime/kv.c:127-137 | a new entry at the head of its bucket adds one binding and keeps placement and uniqueness |
| KvTable.Removes | src/runtime/kv.c:94-115 | unlinking an entry removes its binding and no other |
| KvTable.Updates | src/runtime/kv.c:121-126 | changing an entry in place changes its binding |
| KvTable.Lookup | src/runtime/kv.c:94-115 | a key is stored exactly when its chain holds it |
| Kv.KvStore.Find | src/runtime/kv.c:94-115 | finds the live entry, unlinking an expired one on the way |
| Kv.KvStore.SetOwned | src/runtime/kv.c:117-140 | binds the key and keeps the load at most three quarters |
| Kv.KvStore.Grow | src/runtime/kv.c:75-92 | rehashing into twice the buckets keeps the map, the count and the power of two |
| Kv.KvStore.Get | src/runtime/kv.c:153-162 | the live value, and one hit or miss |
| Kv.KvStore.Del | src/runtime/kv.c:164-176 | removes the binding and says whether it was live |
| Kv.KvStore.Incr | src/runtime/kv.c:186-205 | adds to a number, creates a missing counter, refuses other values |
| Kv.KvStore.Expire | src/runtime/kv.c:207-214 | sets the expiry time of a live entry |
| Kv.KvStore.Ttl | src/runtime/kv.c:216-229 | the time left, -1 without expiry, -2 when missing |
| Kv.KvStore.Sweep | src/runtime/kv.c:261-283 | leaves exactly the live entries and answers how many others there were |
| Kv.KvStore.Count | src/runtime/kv.c:231-237 | the number of stored entries, expired ones included |
| Kv.KvStore.Clear | src/runtime/kv.c:58-65 | empties every bucket |
| Kv.KvStore.constructor | src/runtime/kv.c:46-56 | an empty table of a power of two of buckets, at least 16 and at least the capacity asked for |
| GossipProofs.HeartbeatsAreHonest | src/net/cluster.c:53-89 | in every run over a network that loses, repeats and reorders, a stored or sent heartbeat never exceeds its owner's counter |
| GossipProofs.NoAgeWraps | src/net/cluster.c:163-166 | in every run no peer was heard after its node last read the clock, so the unsigned difference is the age |
| GossipProofs.RunRaises | src/net/cluster.c:58-87 | stored heartbeats never decrease, and every refresh raises them |
| GossipProofs.RefreshesAreBounded | src/net/cluster.c:58-87 | once a node has stopped, each peer refreshes it at most as often as its counter is ahead of what is stored |
| GossipProofs.NothingRevives | src/net/cluster.c:145-172 | after its last heartbeat has been heard, the first tick past the dead time reports a stopped node dead, and no gossip revives it |
| GossipProofs.StaysDead | src/net/cluster.c:163-172 | a peer reported dead after the dead time stays so as long as nothing newer arrives |
| GossipLaws.TickDoes | src/net/cluster.c:163-172 | after a tick a peer is dead from the dead time of silence on, suspect from the suspect time on, and else alive; nothing else of it changes |
| GossipLaws.TickSends | src/net/cluster.c:145-185 | a tick advances the own counter by one and sends it with the peers that are not dead |
| GossipLaws.MergeTakesNews | src/net/cluster.c:53-89 | the newest heartbeat of another node in a datagram is taken if it is news, makes it alive and starts its silence anew; otherwise nothing changes |
| GossipLaws.OwnNewsIsIgnored | src/net/cluster.c:53-62 | what others say of this node itself is ignored |
| Gossip.Cluster.MergeList | src/net/cluster.c:53-89 | the entry loop takes exactly the news of a datagram |
| Gossip.Cluster.GossipTick | src/net/cluster.c:145-172 | advances the own counter, updates every status and sends the peers that are not dead |
| Gossip.Cluster.CheckMembers | src/net/cluster.c:163-172 | the status loop |
| Gossip.Cluster.AliveCount | src/net/cluster.c:250-257 | this node and the peers taken for alive |

## Left out

- Parser options other than the depth limit: relaxed syntax, duplicate-key rejection, size and element limits.
- Error messages, and the codes and positions of parser errors; the streaming parser's codes and positions are modelled.
- The raw text of number events, and handlers that stop the streaming parser.
- Reading and printing doubles that are not integers of magnitude at most 2^53: their text stands for them.
- Heap nodes shared between trees, in-place aliasing, freeing memory, the arena and failed allocations.
- Sockets, mapped files, TLS, plugins, the command line, the server and the bindings.
- The order in which `qsort` leaves members with equal keys; here it is their old order.
- The repaired text's UTF-8 validity and surrogate pairing, which the repairer does not promise.
- The view's dotted paths and its truncating copy of strings into a small buffer.
- What a repair makes of text that ends inside a container or literal, follows the first value or fits nowhere; its result is proved valid, not what it denotes.
- What a bare word or literal that is no valid UTF-8 is repaired to; no JSON text denotes it.
- Weak memory in the ring, and positions that wrap around after 2^64 bytes.
- Fairness of the threads in the pool: some worker can always move, which is not to say that it will.
- Listing keys, reading statistics and snapshots on disk of the key-value store.
- Names, addresses and loads of gossip peers.
- Gossip.Cluster.GossipTick: leaves out the choice of targets, because any datagram may reach any node.
- Compiling query text and integer overflow in slice bounds.
- Schema formats, integer tests and `multipleOf`, which are parameters, and the messages and paths of issues.
- Kv.KvStore.Incr: does not add doubles itself, because the sum is a parameter of the store.
- MsgPackRoundTrip.NumberDecodes: takes the bits of a double that is no integer from a parameter, because floating-point encodings are not modelled.
- SerializerRoundTrip.SerializeThenParse: covers strings of valid UTF-8 without NUL and finite numbers, because the serializer stops at a NUL and replaces broken sequences.
