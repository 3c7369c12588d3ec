# Parson and two thread programs, modelled and proved

This project models three parts of the repository and proves what they promise.

* **The vendored Parson JSON library** (`weather/parson/parson.c`). Functions over byte strings and
  trees say what parsing, printing, comparing, validating, copying and dotted paths mean. Methods in the
  library's own form (cursors, output buffers, growable arrays, parent pointers, an allocator that may
  fail at any request) are proved against them.
* **The condition-variable program** (`lab-13/counter-serveral-threads.c`): workers that count up to a
  limit under a mutex while the main thread waits.
* **The shared counter** (`lab-12/thread_sync.c`), compiled with and without its mutex.

`dafny verify dfyconfig.toml` checks everything.

## How to read it

A C string is a sequence of bytes without its final NUL; `At` reads the NUL at the end and nothing behind
it, so a cursor that could run past the end would not verify. `Json` is the tree a `JSON_Value` stands for. The
grammar that the parser is compared with spells out its own white space, words, digits, escapes and powers of ten
instead of using the parser's.

A `Value` (module `Heap`) is the C structure; its ghost fields record the tree, the children and the set `repr` of
blocks that freeing it frees, and `Valid` ties them to the real fields. `Mem` is the allocator: an arbitrary
schedule of failing requests and the set of live blocks, which a block joins as its request is granted. Failure
never loses a block: each contract says which blocks are live afterwards.

| files | content |
|---|---|
| Bytes, Utf8, Strings, Literals, LiteralsUtf8 | bytes, the UTF-8 validator, escapes, string literals as a grammar |
| Doubles, Numbers, NumberGrammar | rounding to the nearest double; number tokens, their values, and how they differ from RFC 8259 |
| Json, Parser, Grammar, GrammarComplete, GrammarSound, ParsedTrees | the parser as a function, and its equivalence with a grammar |
| Printer, Layout, ShortestLiterals, Serializer | the printed text and its layout, the round trip, the two-pass serializer |
| Comments, CommentedJson, BlockCourse, CommentedPasses, HarmlessLines, CommentedGrammar, CommentedParser | comment blanking in place, when the two passes blank exactly the comments, and parsing with comments |
| Equality, Validation | comparison up to member order, schema-like validation |
| Members, DotPaths | objects as finite maps, dotted paths on trees |
| Memory, StringReader, Heap, Release, Arrays, Objects, Copying, TreeParser, HeapPaths | the C structures and everything that allocates |
| ConditionVariable, SharedCounter | the two thread programs as interleaved atomic steps |

Where the code departs from a reader's expectation, the departure is itself a lemma, with the exact condition
beside it where the property fails only for some inputs:

* `BothDiffer`: `0e1` is refused and `1.` taken; `RfcTaken` and `TakenIsRfc` say for which numbers that is so.
* `BareMinusIsZero`: a minus sign without a number behind it is taken as 0 and not read; `NumberStays` and
  `StaysAtMinus` say exactly when the cursor stays.
* `QuoteInLineCommentHidesBlock`: the first comment pass does not know line comments. `PassBlanksExactly` says for
  which texts that pass blanks exactly the block comments, and `HarmlessExactly` which line comments one pass, and
  both, cope with wherever they stand.
* `TolerancesAddUp`: comparison is not transitive on numbers that are nearly equal; `Equality.TransitiveExactly` says
  when it is.
* `EmptyArrayBreaksTransitivity`: validation is not transitive; `Validation.TransitiveExactly` says when it is.
* `LoseParent`, `LostParent`: a failed `json_object_dotset_value` can leave the value's parent pointer set to an
  object that has been freed. The predicate `Account` in the contract of `DotSetValue` says exactly when: objects
  have to be created, creating them and the innermost entry succeeds, and a later request fails.
* `StuckOnlyWithoutWorkers`: without workers the main thread of `lab-13` waits for ever.
* `FinalValues`: without its mutex the counter of `lab-12` can end at any value from 2 on, with two threads and two
  rounds or more; `ExactWithoutMutex` says when no increment can be missed.

`RepeatedNamesBreakSymmetry` is no departure of the code, since no call builds an object with a repeated name: it
shows that the symmetry of comparison rests on the invariant that names are distinct. The code is also followed
where it accepts more than RFC 8259: white space is whatever `isspace` accepts, bytes from 0x80 on and DEL may
stand for themselves in strings, and text behind the root value is ignored.

## Model

| member | source | states |
|---|---|---|
| `Utf8.AcceptedIsEncoding` | weather/parson/parson.c:199-239 | an accepted sequence is the RFC 3629 section 3 encoding of a Unicode scalar value, of exactly its length |
| `Utf8.EncodingIsAccepted` | weather/parson/parson.c:199-239 | every encoding of a scalar value is accepted, with that value and length |
| `Utf8.DecompositionUnique` | weather/parson/parson.c:241-251 | a byte string splits into encodings of scalar values in one way only |
| `Utf8.IsValidUtf8` | weather/parson/parson.c:241-251 | the loop accepts exactly the concatenations of encodings of scalar values, and never steps past the end |
| `Strings.SurrogatePairsBijective` | weather/parson/parson.c:582-597 | the pair arithmetic of `parse_utf16` maps lead and trail surrogates one-to-one onto 0x10000..0x10FFFF (RFC 2781 section 2.2) |
| `Strings.EscapeWritesUtf8` | weather/parson/parson.c:561-607 | the bytes written for a code point are its UTF-8 encoding, accepted by the validator with the same code point |
| `Strings.StepShapes` | weather/parson/parson.c:621-646 | every step of the decoder reads one plain byte, one short escape, one four-digit escape or one surrogate pair, and writes no more bytes than it reads |
| `Strings.StepInside` | weather/parson/parson.c:541-674 | a decoded step never jumps over the closing quote that `skip_quotes` found: scanner and decoder stay aligned, escapes and pairs are never split |
| `Literals.LiteralGrammar` | weather/parson/parson.c:666-674 | `get_quoted_string` succeeds exactly on the literals of RFC 8259 section 7 (any byte from 0x20 on standing for itself), with the decoded value up to its first NUL and the cursor behind the closing quote |
| `Literals.EveryCodeUnit` | weather/parson/parson.c:157-182 | every number below 0x10000 is the value of its four digits to the base 16, each written in lower or upper case |
| `Literals.SameDigits` | weather/parson/parson.c:157-182 | the digit table and the shifts of `parse_utf16_hex` give the value that the grammar, with a table of its own, gives four digits |
| `Literals.SameEscape` | weather/parson/parson.c:621-637 | the two-character escapes and their bytes are those of RFC 8259 section 7, spelled out in the grammar |
| `Literals.PrintThenRead` | weather/parson/parson.c:1005-1064 | reading what `json_serialize_string` prints for a NUL-free string gives the string back, whatever follows it |
| `ShortestLiterals.PrintedIsShortest` | weather/parson/parson.c:1005-1064 | no literal that means the same bytes and has no plain slash is shorter than the printed one, and none of that length with lower-case digits is different from it |
| `ShortestLiterals.PrintedIsSuch` | weather/parson/parson.c:1005-1064 | the printed literal is one of them: it means the bytes, escapes every slash and has lower-case digits |
| `LiteralsUtf8.DecodingKeepsUtf8` | weather/parson/parson.c:610-662 | the decoded value of a literal whose body is valid UTF-8 is valid UTF-8 |
| `StringReader.SkipQuotes` | weather/parson/parson.c:541-559 | the scanning loop finds the closing quote, or fails when there is none |
| `StringReader.DecodeInto` | weather/parson/parson.c:621-646 | one round of the decoding switch appends exactly the bytes of one step and fails exactly when the step does |
| `StringReader.ProcessString` | weather/parson/parson.c:610-662 | decodes into a buffer of len + 1 bytes without leaving it, ends at the closing quote, frees the buffer in every case and leaves one block or none |
| `StringReader.GetQuotedString` | weather/parson/parson.c:666-674 | result and cursor of `GetQuoted`, or null with no block left behind |
| `Doubles.RoundedIsNearest` | weather/parson/parson.c:839-843 | the conversion in range gives a double of IEEE 754 (53 bits, exponents down to the subnormals), and no double is nearer to the number; of two as near, the even one |
| `Doubles.DoubleStays` | weather/parson/parson.c:839-843 | a number that is a double is kept |
| `Doubles.IntegersStay` | weather/parson/parson.c:839-843 | so integers of magnitude up to 2^53 are kept |
| `Doubles.OutOfRangeExactly` | weather/parson/parson.c:841-842 | the range errors are exactly these: 2^1024 is as near to the number as any double, or the number is below all normal doubles and no double |
| `NumberGrammar.PowersOfTen` | weather/parson/parson.c:841 | the powers of ten that the reader multiplies and divides together are the numbers that a 1 and zeros write, and one divided by them |
| `NumberGrammar.DotMoved` | weather/parson/parson.c:841 | moving the dot behind a fraction of n digits multiplies the value by the number that a 1 and n zeros write |
| `NumberGrammar.ExponentRaised` | weather/parson/parson.c:841 | and so does raising the exponent by n, whatever its sign |
| `NumberGrammar.TokenReads` | weather/parson/parson.c:837-847 | a number token of the grammar with nothing behind it that goes on with it is read to its end, with the double nearest to the value of its digits |
| `NumberGrammar.NumberIsRead` | weather/parson/parson.c:837-847 | conversely, whatever is read is a token of the grammar with that double, and nothing behind it goes on with it |
| `NumberGrammar.NumberStays` | weather/parson/parson.c:837-847 | the number branch succeeds without moving the cursor exactly at a minus sign that no digits, fraction, infinity or NaN follow |
| `NumberGrammar.IntTextIsToken` | weather/parson/parson.c:981-994 | the decimal text of an integer that a double holds exactly is a token with that value |
| `NumberGrammar.TokensAreTakenParts` | weather/parson/parson.c:253-266 | a text is taken whole as a number exactly when it is sign, digits, fraction and exponent without the leading-zero forms that `is_decimal` refuses, and in range; what it gives is the double nearest to its digits |
| `NumberGrammar.PartsUnique` | weather/parson/parson.c:253-266 | a text splits into such parts in one way only |
| `NumberGrammar.RfcTaken` | weather/parson/parson.c:253-266 | the text of a number of RFC 8259 section 6 is taken exactly when it is not a zero directly followed by an exponent, and in range |
| `NumberGrammar.TakenIsRfc` | weather/parson/parson.c:253-266 | a text that is taken is a number of RFC 8259 exactly when digits stand in front of its dot and behind it |
| `NumberGrammar.BothDiffer` | weather/parson/parson.c:253-266 | `0e1` is refused although RFC 8259 has it, and `1.` is taken although it has not |
| `Json.LookupByIndex` | weather/parson/parson.c:412-424 | with distinct names a lookup by the i-th name gives the i-th value |
| `Parser.ParseValue` | weather/parson/parson.c:677-700 | the recursive descent; the cursor never moves backwards or past the end of the text |
| `GrammarComplete.SameWords` | weather/parson/parson.c:50-50 | the white space that the parser skips, the words it compares with and its nesting limit are those the grammar spells out |
| `Grammar.Characters` | weather/parson/parson.c:680-697 | the bytes that steer the parser are the structural characters of RFC 8259 |
| `GrammarComplete.ValueParses` | weather/parson/parson.c:677-856 | every text of the grammar (RFC 8259 sections 2-7, numbers in range, any `isspace` white space, distinct decoded names, at most 2048 containers around a value) is parsed to its meaning and consumed exactly |
| `GrammarSound.ValueIsText` | weather/parson/parson.c:677-856 | every successful parse has consumed white space and a text of the grammar that means the result |
| `GrammarSound.ParserMeetsGrammar` | weather/parson/parson.c:677-856 | `parse_value` returns a tree with the cursor at j if and only if the bytes up to j are white space and a grammar text meaning that tree, a number at the root ending where nothing goes on with it; or the tree is 0 and j stands at a bare minus sign |
| `GrammarSound.StaysAtMinus` | weather/parson/parson.c:677-856 | a successful parse consumes nothing behind the white space exactly at a bare minus sign |
| `ParsedTrees.ParsedIsWellFormed` | weather/parson/parson.c:702-808 | a parsed tree has distinct names in every object, C strings throughout and at most 2048 containers around any value |
| `ParsedTrees.BareMinusIsZero` | weather/parson/parson.c:837-847 | the entry point succeeds without reading a value if and only if a minus sign without a number stands behind byte order mark and white space; the result is 0 |
| `Printer.PrintsCst` | weather/parson/parson.c:869-1003 | the printed text is a text of the grammar, in both modes |
| `Printer.CstMeans` | weather/parson/parson.c:869-1003 | and that text means the tree it was printed from, with the same member order, element order and string bytes |
| `Printer.PrintedValueParses` | weather/parson/parson.c:869-1064 | printed anywhere in a longer text, a value parses back to itself and the cursor stops right behind it |
| `Printer.RoundTrip` | weather/parson/parson.c:1108-1116 | parsing the compact text and parsing the pretty text both return exactly the printed tree |
| `Layout.PrintedLayout` | weather/parson/parson.c:869-1003 | the compact text has no white space outside strings; in the pretty text every item and member stands on a line of its own, indented by four spaces a level, with one space behind its colon and none elsewhere |
| `ParsedTrees.RoundTripExactly` | weather/parson/parson.c:1108-1116 | the round trip holds if and only if the tree has distinct names, C strings and at most 2048 containers around any value |
| `Serializer.AppendString` | weather/parson/parson.c:1075-1080 | writes the text and a NUL, or only counts when there is no buffer; nothing else in the buffer changes |
| `Serializer.SerializeString` | weather/parson/parson.c:1005-1064 | prints a string with its escapes, or only counts; the byte behind the text is NUL although ordinary characters write none |
| `Serializer.SerializeRec` | weather/parson/parson.c:869-1003 | on blocks: dry run and real run return the same length, the length of the printed text; the real run writes exactly that text and one NUL, and no byte outside; the dry run prints numbers into a buffer of 64 bytes and stays inside |
| `Serializer.NumberFits` | weather/parson/parson.c:45-46 | a printed integer takes at most 17 bytes, fewer than that buffer has |
| `Serializer.SerializeArray` | weather/parson/parson.c:880-911 | the array case, item by item of the block |
| `Serializer.SerializeObject` | weather/parson/parson.c:912-959 | the object case: names by index from the block of names, each value looked up by its name |
| `Serializer.SerializationSize` | weather/parson/parson.c:1480-1484 | the size is the length of the text plus one |
| `Serializer.SerializeToBuffer` | weather/parson/parson.c:1486-1497 | succeeds exactly when the text and its NUL fit, fills exactly that many bytes, and otherwise changes nothing |
| `Serializer.SerializeToString` | weather/parson/parson.c:1521-1538 | a block that holds exactly the text and its NUL, or null exactly when its allocation fails |
| `Comments.RemoveComments` | weather/parson/parson.c:301-334 | the in-place loop computes `Blank` and keeps the length; the bytes from the NUL on stay |
| `Comments.OnlySpaces` | weather/parson/parson.c:301-334 | whatever the text and the tokens, a byte either stays or becomes a space |
| `CommentedPasses.PassBlanksExactly` | weather/parson/parson.c:301-334 | on bytes outside strings, string literals and terminated comments the pass blanks exactly the comments of its kind and leaves the rest alone: the line pass always, the block pass if and only if it meets every block comment outside what it takes for strings and opens none elsewhere |
| `CommentedPasses.BlockPassAgain` | weather/parson/parson.c:301-334 | done again, such a block pass changes nothing |
| `CommentedPasses.BothPassesBlank` | weather/parson/parson.c:1118-1131 | both passes blank exactly the comments when the block pass gets through the text, block comments inside line comments included, and do not when it spoils something |
| `CommentedPasses.CommentsAreWhiteSpace` | weather/parson/parson.c:1118-1131 | `json_parse_string_with_comments` parses a text that the block pass gets through as the same text with spaces for comments |
| `HarmlessLines.HarmlessExactly` | weather/parson/parson.c:301-334 | a line comment is coped with in every text, by the block pass alone and by both passes, if and only if the block pass crosses it from outside strings to outside strings: alone without opening a block comment, before the line pass also with one that opens behind the two slashes and closes on the line |
| `HarmlessLines.HarmlessEnds` | weather/parson/parson.c:1118-1131 | the block pass gets through every text whose line comments are of that kind |
| `HarmlessLines.UnopenedEnds` | weather/parson/parson.c:1118-1131 | and through every text that opens no block comment, whatever its line comments hold |
| `CommentedGrammar.GrammarTextUntouched` | weather/parson/parson.c:1118-1131 | a text of the grammar without comments passes both passes unchanged |
| `CommentedGrammar.PrintedTextUntouched` | weather/parson/parson.c:1015 | hence both parse entry points agree on every text the serializer prints, where a slash is escaped inside strings |
| `CommentedGrammar.QuoteInLineCommentHidesBlock` | weather/parson/parson.c:1125-1126 | the first pass does not know line comments: a quote inside one hides a later block comment from it, and the parse fails |
| `CommentedParser.JsonParseStringWithComments` | weather/parson/parson.c:1118-1131 | on blocks: the result of `ParseWithComments`, or null with no block left behind |
| `Equality.Equals` | weather/parson/parson.c:1949-2011 | on blocks: the recursive comparison of two values, which may share blocks, decides `Equal` of their trees |
| `Equality.EqualReflexive` | weather/parson/parson.c:1949-2011 | every tree equals itself |
| `Equality.ScalarsEqual` | weather/parson/parson.c:1996-2003 | numbers are equal when less than a millionth apart, other scalars when they are the same |
| `Equality.EqualSymmetric` | weather/parson/parson.c:1977-1992 | symmetric on trees with distinct names, although only a's names are looked up in b |
| `Equality.CountNames` | weather/parson/parson.c:1980-1984 | as many distinct names as entries: the counting behind the symmetry |
| `Equality.RepeatedNamesBreakSymmetry` | weather/parson/parson.c:1977-1992 | the distinct names are needed: with a repeated name, which no call of the library produces, it is not symmetric |
| `Equality.EqualIsUnorderedEquality` | weather/parson/parson.c:1949-2011 | with integer numbers it is equality of the trees after forgetting the order of members, if and only if |
| `Equality.TransitiveExactly` | weather/parson/parson.c:1949-2011 | if a and b are equal, everything equal to b is equal to a if and only if a and b are the same tree up to the order of members; with any numbers |
| `Equality.EqualTransitive` | weather/parson/parson.c:1949-2011 | hence transitive when the first two trees hold integers |
| `Equality.TolerancesAddUp` | weather/parson/parson.c:2002-2003 | with other numbers it is not transitive |
| `Validation.Validate` | weather/parson/parson.c:1889-1947 | on blocks: the recursive check decides `Valid` of the trees |
| `Validation.CountingIsRedundant` | weather/parson/parson.c:1924-1929 | with distinct names in the schema the early rejection by member count never changes the answer |
| `Validation.KindsAgree` | weather/parson/parson.c:1901-1903 | a schema other than null accepts values of its own kind only, and all of that kind if it is a scalar or has no items or members |
| `Validation.ValidUpToEquality` | weather/parson/parson.c:1889-1947 | replacing schema and value by equal trees keeps validity |
| `Validation.TransitiveExactly` | weather/parson/parson.c:1889-1947 | for a and b valid for a, everything that is valid for b is valid for a if and only if no empty array of b stands where a asks something of the items |
| `Validation.ValidTransitive` | weather/parson/parson.c:1889-1947 | hence transitive when the middle tree contains no empty array |
| `Validation.EmptyArrayBreaksTransitivity` | weather/parson/parson.c:1908-1911 | an empty array in the middle breaks it |
| `Members.LookupIsTable` | weather/parson/parson.c:412-424 | a lookup by name is a lookup in the finite map the object stands for |
| `Members.SetRefinesMap` | weather/parson/parson.c:1741-1760 | setting a member updates the map and keeps the names distinct |
| `Members.RemoveRefinesMap` | weather/parson/parson.c:426-447 | removing with the last entry moving up removes one key from the map and keeps the names distinct |
| `Members.RunsRefineMap` | weather/parson/parson.c:1741-1760 | after any sequence of setting, removing and clearing, every lookup finds what a map finds that went through the same calls, and the count is the number of its keys |
| `Members.LookupAfterSet` | weather/parson/parson.c:1741-1760 | after setting, the name finds the new value and every other name what it found before |
| `Members.LookupAfterRemove` | weather/parson/parson.c:426-447 | after removing, the name finds nothing and every other name what it found before |
| `Memory.Mem.Malloc` | weather/parson/parson.c:56-57 | a request fails or not as an arbitrary schedule says, and the block is live exactly when it is granted |
| `Heap.ArrayPieces` | weather/parson/parson.c:85-90 | a valid array: count within capacity, the children's trees in order, every parent the wrapper, all blocks apart |
| `Heap.ObjectPieces` | weather/parson/parson.c:77-83 | a valid object: parallel arrays of one count, distinct names, every parent the wrapper, all blocks apart |
| `Heap.InitScalar` | weather/parson/parson.c:1365-1399 | a new value in one block, or nothing |
| `Heap.InitArray` | weather/parson/parson.c:1328-1341 | two blocks, or none |
| `Heap.InitObject` | weather/parson/parson.c:1313-1326 | two blocks, or none; succeeds exactly when both requests are granted |
| `Heap.InitStringNoCopy` | weather/parson/parson.c:529-538 | takes over the string block, or leaves it to the caller |
| `Heap.InitString` | weather/parson/parson.c:1343-1363 | refuses what is not UTF-8; otherwise a copy in new blocks, or nothing |
| `Release.Free` | weather/parson/parson.c:1296-1311 | frees exactly the blocks of the tree, each of them live and freed once |
| `Release.FreeArray` | weather/parson/parson.c:519-526 | all blocks of the tree but the wrapper |
| `Release.FreeObject` | weather/parson/parson.c:464-473 | all blocks of the tree but the wrapper |
| `Heap.ArrayBlock.Move` | weather/parson/parson.c:501-517 | the items move to the new block unchanged |
| `Heap.ArrayBlock.Drop` | weather/parson/parson.c:1610-1612 | the items behind the removed one move down |
| `Heap.ObjectBlock.Move` | weather/parson/parson.c:382-410 | both arrays move to the new blocks unchanged |
| `Heap.ObjectBlock.Drop` | weather/parson/parson.c:432-443 | the last entry takes the place of the removed one in both arrays |
| `Arrays.Resize` | weather/parson/parson.c:501-517 | the tree stays, blocks are swapped one for one, or nothing changes |
| `Arrays.Add` | weather/parson/parson.c:488-499 | the child becomes the last item and gets its parent, and a full block doubles; or nothing changes because an allocation failed; an array that has only been added to stays one |
| `Arrays.CopyingIsLinear` | weather/parson/parson.c:488-517 | an array that has only been added to has copied fewer than two items per item it holds, and its capacity is below twice its count and 16 |
| `Arrays.DoublingIsLinear` | weather/parson/parson.c:488-517 | the recurrence behind it, for any number of additions |
| `Arrays.Remove` | weather/parson/parson.c:1604-1614 | frees one item and keeps the order of the others; fails exactly on an index out of range |
| `Arrays.Clear` | weather/parson/parson.c:1674-1684 | frees every item and keeps the block of items |
| `Objects.ResizeObject` | weather/parson/parson.c:382-410 | the tree stays, or nothing changes; succeeds exactly when both requests are granted, and the first new block is freed when the second fails |
| `Objects.GetN` | weather/parson/parson.c:412-424 | the child under the first matching name, null exactly when there is none |
| `Objects.AddN` | weather/parson/parson.c:357-380 | a new last entry with its parent set; succeeds exactly when the name is free and its requests are granted (one for the name, two more when the arrays are full), and otherwise leaves tree and value as they were |
| `Objects.RemoveInternal` | weather/parson/parson.c:426-447 | removes the entry of the name with swap-with-last, fails exactly when there is none; the value is freed or keeps all its blocks |
| `Objects.SetValue` | weather/parson/parson.c:1741-1760 | frees and replaces the old value without any request, or adds an entry; succeeds exactly when the value has no parent and the requests for a new entry are granted, so setting a name that is present cannot fail |
| `Objects.ClearObject` | weather/parson/parson.c:1876-1887 | frees every entry and keeps the two arrays |
| `Copying.DeepCopy` | weather/parson/parson.c:1401-1478 | the same tree in the same order in new blocks apart from the original, parentless, or null with no block left behind |
| `Copying.CopyEntry` | weather/parson/parson.c:1438-1451 | the value looked up by the i-th name is the i-th value, and its copy is added under that name |
| `Copying.ChangesStayApart` | weather/parson/parson.c:1401-1478 | whatever later happens to the blocks of one of two separate values, the other still stands for its tree |
| `TreeParser.ReadValue` | weather/parson/parson.c:677-700 | tree and cursor of `ParseValue` in new blocks, or null with no block left behind, and then because the text is refused or an allocation failed |
| `TreeParser.ReadObject` | weather/parson/parson.c:702-762 | the same for objects, with the name block freed on every path |
| `TreeParser.ReadArray` | weather/parson/parson.c:764-808 | the same for arrays |
| `TreeParser.FinishObject` | weather/parson/parson.c:754-761 | ends with the closing brace and a capacity trimmed to the count, or frees everything |
| `TreeParser.FinishArray` | weather/parson/parson.c:800-807 | the same with the closing bracket |
| `TreeParser.ReadString` | weather/parson/parson.c:810-822 | the same for strings |
| `TreeParser.ReadNumber` | weather/parson/parson.c:837-847 | the same for numbers |
| `TreeParser.JsonParseString` | weather/parson/parson.c:1108-1116 | the same for the entry point, which skips a byte order mark |
| `DotPaths.SetSucceedsIff` | weather/parson/parson.c:1778-1818 | setting by path succeeds exactly when no proper prefix of the path names a value that is not an object |
| `DotPaths.GetAfterSet` | weather/parson/parson.c:1778-1818 | then the path finds the value that was set |
| `DotPaths.GetBelowAfterSet` | weather/parson/parson.c:1778-1818 | paths that go on behind it are looked up in that value |
| `DotPaths.PrefixesAfterSet` | weather/parson/parson.c:1795-1817 | its proper prefixes name objects |
| `DotPaths.SetFrame` | weather/parson/parson.c:1778-1818 | every path not comparable with it finds what it found before |
| `DotPaths.MissingCountsGaps` | weather/parson/parson.c:1792-1806 | the objects to create are the proper prefixes that name nothing, unless a value is in the way |
| `DotPaths.SetKeepsWellFormed` | weather/parson/parson.c:1778-1818 | names stay distinct |
| `DotPaths.RemoveSucceedsIff` | weather/parson/parson.c:449-462 | removing by path succeeds exactly when the path finds something |
| `DotPaths.GetAfterRemove` | weather/parson/parson.c:449-462 | then neither the path nor one behind it finds anything |
| `DotPaths.RemoveFrame` | weather/parson/parson.c:449-462 | every path not comparable with it finds what it found before |
| `DotPaths.PrefixesAfterRemove` | weather/parson/parson.c:449-462 | its proper prefixes still name objects |
| `DotPaths.RemoveKeepsWellFormed` | weather/parson/parson.c:449-462 | names stay distinct |
| `HeapPaths.DotGetValue` | weather/parson/parson.c:1162-1169 | the node at the end of the path, going on with null where an object is missing |
| `HeapPaths.NodeIsGet` | weather/parson/parson.c:1162-1169 | that node holds the tree the path finds, and has a parent |
| `HeapPaths.DotRemoveInternal` | weather/parson/parson.c:449-462 | what `DotRemove` says; the node is freed, or keeps all its blocks; nothing is lost |
| `HeapPaths.DotSetValue` | weather/parson/parson.c:1778-1818 | what `DotSet` says and the node at the path is the value itself; on failure the tree is the old one and nothing is lost. It succeeds exactly when the value has no parent, nothing is in the way and all requests of an exact number are granted. After a failure the parent of a value that had none is null if and only if no object had to be created or one of the first 2m + 3 requests failed, m being the number of objects to create; otherwise it is a freed block |
| `HeapPaths.AttachChain` | weather/parson/parson.c:1811-1817 | when adding the new inner object fails, the value is taken out again with all its blocks and the rest is freed; its parent pointer is not reset and leads to a freed block |
| `HeapPaths.BuildChain` | weather/parson/parson.c:1801-1810 | the new objects with the value at the end, or nothing; exactly when that succeeds |
| `HeapPaths.LoseParent` | weather/parson/parson.c:1811-1817 | an empty object, the path `a.b`, and the sixth request of the call refused: the call fails, tree and live blocks are as before, and the parent is a block that is not live |
| `HeapPaths.LostParent` | weather/parson/parson.c:1811-1817 | the same from scratch, with an object and a value that the library makes |
| `ConditionVariable.RunKeepsInv` | lab-13/counter-serveral-threads.c:21-71 | the invariant holds in every state of every run, for any number of workers, any limit and any interleaving |
| `ConditionVariable.SafeOverRuns` | lab-13/counter-serveral-threads.c:21-71 | the counter is the number of increments and at most the limit, critical sections exclude each other, main is not in the wait queue once a worker has signalled, and main is past its loop only with the counter at the limit |
| `ConditionVariable.SomethingMoves` | lab-13/counter-serveral-threads.c:21-71 | with a worker, every state but the last has a step that needs no spurious wake-up |
| `ConditionVariable.StuckOnlyWithoutWorkers` | lab-13/counter-serveral-threads.c:62-65 | a run can get stuck if and only if there is no worker and the limit is not 0 |
| `ConditionVariable.StepDecreases` | lab-13/counter-serveral-threads.c:21-71 | every step but a spurious wake-up makes a measure smaller |
| `ConditionVariable.RunsAreBounded` | lab-13/counter-serveral-threads.c:21-71 | the length of a run is bounded by limit, workers and its number of spurious wake-ups |
| `ConditionVariable.MaximalRunsFinish` | lab-13/counter-serveral-threads.c:61-72 | a run that cannot go on has every thread at its end and the counter at the limit |
| `SharedCounter.CounterIsExact` | lab-12/thread_sync.c:15-24 | with the mutex the counter is always the sum of the own counters plus the threads between their two increments, and ends at threads times rounds |
| `SharedCounter.CounterIsBounded` | lab-12/thread_sync.c:15-28 | with or without the mutex the counter ends at most at threads times rounds, above 0, and above 1 with two rounds or more; the own counters are right |
| `SharedCounter.FinalValues` | lab-12/thread_sync.c:22-28 | without the mutex the counter can end at a value if and only if it lies between the least one (threads times rounds for one thread or none, else the smaller of rounds and 2) and threads times rounds |
| `SharedCounter.ExactWithoutMutex` | lab-12/thread_sync.c:22-28 | hence no increment can be missed if and only if there is one thread at most or no round |
| `SharedCounter.SomethingMoves` | lab-12/thread_sync.c:15-24 | with the mutex some thread can step until all are done |

## Left out

- `strtod` and `sprintf`: `strtod` is taken to round to the nearest double, ties to even, and to report overflow and results below the normal range that are not exact; the locale and the sign of zero are not modelled. Printing is modelled for integers of magnitude up to 2^53, which `%1.17g` prints in plain decimal.
- Sizes are unbounded integers: texts of 2^31 bytes or more, where the serializer's `int` would overflow, are not modelled.
- A NUL that an escape writes into a string: strings are modelled as their later readers see them, cut at the first NUL.
- Parser.ParseValue: the second test for the opening bracket in `parse_array_value` and `parse_object_value`, which their only caller has made already, is not repeated.
- CommentedPasses.BothPassesBlank: undecided for texts in which a block comment opens in a line comment, does not close on the line, and something behind closes it; `HarmlessExactly` shows that every such line comment spoils some text.
- Serializer.SerializeRec: the value's blocks do not lie in the caller's buffer, as C's rules for objects demand.
- Objects.SetValue: the inserted value shares no block with the object, so inserting a container into itself or into its own descendant is not modelled.
- `json_object_set_string`, `json_object_set_number`, `json_object_set_boolean` and `json_object_set_null`: they do not free the new value when setting fails, so the conservation claims do not extend to them.
- Null arguments, where the library returns failure at once, except in `DotGetValue`, whose recursion runs into one.
- Typed getters, `append` and `replace` functions, and the typed `dotset` variants: thin wrappers.
- File access and `json_set_allocation_functions`.
- The size of a granted block, and what a freed block contains: a block is an object that is live or not.
- A thread program in which `pthread_create` or an initialisation fails, and the output of either program.
- `weather/http.h` and `weather/main.c`: sockets, pipes, signals and terminal output.
- `lab-01` to `lab-11`: short demonstrations of system calls.
