# A verified model of the bundled TOML parser and the capability scan

The repository reads its configuration with a bundled TOML parser, `contrib/tomlc99/toml.c`: a lexer over a
NUL-terminated buffer, a recursive-descent parser, a tree that is grown in place, and text codecs for strings,
keys, integers and timestamps. `contrib/tomlc99/toml_json.c` walks the tree, prints its scalars and escapes strings.
`lib/kvminfocaps.c` reports which Hyper-V capabilities a KVM device offers. This project models the three and
proves what they are for.

## How the model is laid out

Bytes are chars of a `string`; the position just past the end reads as NUL. Code that changes state is a
method or a class and is proved equal to a function; the properties are proved about the function.

| layer | functions and properties | imperative form |
|---|---|---|
| UTF-8 codec | `Utf8` | methods of `Utf8` |
| line-end filter, strings, keys | `LineJoin`, `Strings`, `StringLaws` | methods of `LineJoin`, `Strings` (arrays, `memmove`, growing buffer) |
| lexer | `Lexer`, `TokenLaws` | `Scanner` (one method a scanning loop) |
| escape printer, triple-quoted strings | `EscapePrinter`, `TripleQuotes` | methods of `EscapePrinter` |
| tree as a value, headers, statements | `Tree`, `Headers`, `Syntax`, `Extension` | |
| sections and their order | `Operations`, `Sections`, `Reorder` | |
| parser on the current token | `Parser`, `Grammar`, `Documents`, `Unambiguous`, `Endless`, `Uniform` | |
| documents as text | `Written`, `DocumentText`, `FlatDocuments` | |
| the heap of tables and arrays | `Store`, `Growth`, `Steps`, `Places`, `Reachable`, `Release` | `FreeWalk` (the walk of toml_free over the objects) |
| context, tables and arrays as objects | | `Builder` (classes `Context`, `Table`, `Array`) |
| accessors | | methods of `Accessors` |
| tree walk, its bytes, their reader, from text to output | `Json`, `Reader`, `Output`, `Cat` | methods of `Printing`, `Cat` |
| integers, timestamps, scalar classes | `Numbers`, `NumberLaws`, `Timestamps`, `Scalars` | methods of `Numbers`, `Timestamps` |
| capability scan | `Capabilities` | class `KVMState`, method `KVMStateScan` |

The proof runs in three steps. `Builder.TomlParse` grows real objects and is proved to give what the function
`Parser.ParseDoc` gives. A ghost store in the context numbers the objects in the order of their creation; its
invariant `StoreInv` says that every object but the root has one parent and one place in its lists, that the
keys of a table are distinct across its three lists, and that arrays are of one kind. `Documents.DocumentGrammar`
then says that `ParseDoc` accepts exactly the texts of a grammar whose statements can be run on the empty tree,
and gives the tree that running them builds; `Cat.ParseAndPrint` puts the two together for the objects that are
walked and printed. Everything about headers, sections and growth is proved about
running statements, so it holds of every text and of the objects.

Three modules tie the functions to bytes from outside. `DocumentText` prints concrete syntax as text, and what it
prints reads as that syntax; `Reader` reads the bytes of an output, and inverts the printer; the modules that end in
`Laws` state tokens, escapes, line ends and digits byte by byte, without the functions that compute them.

When the order of sections matters is decided by one static relation: a section *blocks* another if its path
enters an array of tables that a value of the other makes. An order of single-bracket sections in which some
section blocks a later one is always refused; all other orders of the same sections lead to the same tree or are
all refused (`Reorder.AnyOrder`).

Where the code differs from what its own README claims (TOML v0.4.0), the model follows the code: newlines and
a trailing comma are allowed in inline tables, an inline table may fill in an implicit table, a backslash at a
line's end is deleted in multi-line literal strings too, hexadecimal escapes take upper-case digits only, and
the triple-quote scanner keeps its count of quotes over an escape.

A parse has a third outcome besides success and failure, `Hang` or `Stuck`: the macro that skips newlines does
not look at the end-of-file flag, so at the end of the text inside brackets it goes round for ever. The
imperative model returns a status `HANG` at exactly that place, and `Endless.StuckExactly` says for which texts
this happens: those that stop inside the brackets of a value, where newlines are skipped, and that would be
accepted up to there if the open brackets were closed.

## Model

| member | source | states |
|---|---|---|
| Utf8.UcsToUtf8 | contrib/tomlc99/toml.c:146-221 | the buffer holds the encoding, and the result is its length, exactly for 0..0x7FFFFFFF without surrogates, FFFE and FFFF; otherwise -1 |
| Utf8.Utf8ToUcs | contrib/tomlc99/toml.c:54-138 | returns code and width of the one-character form that starts the buffer, for every byte string and length; -1 for a bad lead byte, a short buffer or a bad continuation |
| Utf8.EncodesAs | contrib/tomlc99/toml.c:146-221 | the bytes of each of the six forms, written out, for every code, and the codes that have none |
| Utf8.DecodeEncode | contrib/tomlc99/toml.c:54-221 | decoding an encoding followed by anything gives the code back and takes exactly the encoding |
| Utf8.DecodeAllEncodeAll | contrib/tomlc99/toml.c:54-221 | decoding a concatenation of encodings one character at a time recovers the sequence of codes |
| Utf8.DecodedIsEncodedIffShortest | contrib/tomlc99/toml.c:60-138 | for every decodable text, the bytes taken are the encoder's bytes for that code exactly when the form is the shortest one and the code can be encoded; and no form is shorter than the shortest |
| Utf8.PrefixFree | contrib/tomlc99/toml.c:146-221 | no encoding is a proper prefix of another |
| Utf8.OrderPreserving | contrib/tomlc99/toml.c:146-221 | byte-lexicographic order of encodings is the order of the codes, both ways |
| LineJoin.KillLineEndingBackslash | contrib/tomlc99/toml.c:1864-1884 | the two rounds of strstr, strspn and memmove leave in the buffer the one left-to-right filter of its old content |
| LineJoin.TwoRounds | contrib/tomlc99/toml.c:1864-1884 | deleting the LF pattern everywhere and then the CRLF pattern everywhere is the same as one pass that deletes either |
| LineJoin.JoinLeavesNone | contrib/tomlc99/toml.c:1864-1884 | the result contains neither pattern |
| LineJoin.JoinIdempotent | contrib/tomlc99/toml.c:1864-1884 | a second application changes nothing |
| Strings.NormalizeString | contrib/tomlc99/toml.c:379-482 | the growing buffer ends with the normalised text and a NUL inside its capacity, or the call fails; every write on the way is in bounds |
| Strings.ScannerAndNormaliserAgree | contrib/tomlc99/toml.c:1465-1493 | inside any basic string the scanner accepts, normalising gives the same with the line-ending flag on or off, fails exactly when an escape names a code without encoding, and yields no more bytes than it reads |
| Strings.NormalizeIsJoin | contrib/tomlc99/toml.c:419-427 | on text whose only backslashes end lines, normalising with the flag on is the in-place filter |
| Strings.NormalizeKeyText | contrib/tomlc99/toml.c:486-543 | gives the normalised key of a quoted or bare word and fails for a newline in it or a byte no bare key may hold |
| Strings.KeyPeekIsLocal | contrib/tomlc99/toml.c:494-500 | for a word the scanner returned, testing the two bytes after the first for a triple quote never depends on bytes past the word |
| Strings.ReadString | contrib/tomlc99/toml.c:1887-1946 | toml_rtos for every NUL-free raw text: the value, or failure for missing quotes and bad escapes |
| Strings.LiteralValue | contrib/tomlc99/toml.c:1907-1916 | the value of a text between apostrophes is that text |
| Strings.MultilineLiteralValue | contrib/tomlc99/toml.c:1894-1906 | the value between triple apostrophes is the text after the first newline, filtered of line-ending backslashes |
| StringLaws.UnicodeEscape | contrib/tomlc99/toml.c:432-461 | the value of `"\u…"` or `"\U…"` with the hexadecimal digits of v is the encoding of v, and there is none when v has none |
| StringLaws.EscapeScanned | contrib/tomlc99/toml.c:1471-1485 | the scanner takes such a text whole |
| StringLaws.BadHexRefused | contrib/tomlc99/toml.c:442-451 | with any other byte than the ten digits and A to F among the four, the text has no value |
| StringLaws.LetterEscape | contrib/tomlc99/toml.c:463-473 | the byte that each letter after a backslash stands for; no other byte but a line end may stand there |
| StringLaws.LetterScanned | contrib/tomlc99/toml.c:1465-1493 | the scanner takes a backslash with one of these seven letters, and no other byte after it |
| StringLaws.LetterScannedTriple | contrib/tomlc99/toml.c:1425-1453 | the same between triple quotes, where a newline may follow the backslash as well |
| StringLaws.LineEndDeleted | contrib/tomlc99/toml.c:1864-1884 | a backslash before LF or CRLF goes, with the line end and all white space after it |
| StringLaws.OtherBytesStay | contrib/tomlc99/toml.c:1864-1884 | every other byte stays |
| StringLaws.MultilineLiteral | contrib/tomlc99/toml.c:1894-1906 | the value between triple apostrophes that starts with LF, with CRLF, or with neither |
| StringLaws.MultilineBasic | contrib/tomlc99/toml.c:1919-1945 | the same between triple quotes |
| StringLaws.BareKeyExactly | contrib/tomlc99/toml.c:527-542 | an unquoted word is a key exactly when it has ASCII letters, digits, underscores and dashes only, and then it is its own key |
| StringLaws.TripleQuotedKey | contrib/tomlc99/toml.c:495-525 | three quotes of either sort around a key come off; with a newline between them there is no key |
| Lexer.LexingIsLossless | contrib/tomlc99/toml.c:1509-1550 | in every run under any mix of flags, spans are disjoint and increasing, gaps hold only blanks and a comment, and a token's line is 1 plus the newlines before it |
| Lexer.EofIsFixed | contrib/tomlc99/toml.c:1403-1408 | asking for a token at the end of the text gives the same end-of-file newline again |
| Lexer.EmptyWordIsFixed | contrib/tomlc99/toml.c:1495-1505 | a word of length 0 is returned again, under either flag |
| Lexer.RunLength | contrib/tomlc99/toml.c:1509-1550 | a run that passes neither the end of file nor an empty word has at most two tokens more than the text has bytes, so the lexer itself always ends |
| TokenLaws.TokenBytes | contrib/tomlc99/toml.c:1509-1550 | the kind of every token by the byte it starts with, both ways: seven punctuation bytes, a dot only under the flag, a word for anything else, and a newline without bytes at the end of the text; before it, blanks and at most one comment |
| TokenLaws.BareWordEnds | contrib/tomlc99/toml.c:1495-1505 | a word without a quote at its start is the longest run of ASCII letters, digits, `+ - _ :`, and the dot where it is not special |
| TokenLaws.LiteralEnds | contrib/tomlc99/toml.c:1455-1463 | a word that starts with one apostrophe ends with the next one, on the same line, or is an error |
| TokenLaws.TripleLiteralEnds | contrib/tomlc99/toml.c:1415-1423 | a word that starts with three apostrophes ends with the next three |
| Scanner.NextToken | contrib/tomlc99/toml.c:1509-1550 | the loop over blanks and comments and the token switch compute the lexer function, which TokenLaws.TokenBytes pins byte by byte |
| Scanner.ScanString | contrib/tomlc99/toml.c:1411-1506 | the five string scanners, as loops with their counters of quotes and hexadecimal digits, compute the end of the word or fail where the function does |
| EscapePrinter.PrintEscapeString | contrib/tomlc99/toml_json.c:37-52 | prints the escaped text up to the first NUL |
| EscapePrinter.PrintScanNormalise | contrib/tomlc99/toml_json.c:37-52 | for every NUL-free s, in any surrounding text (not starting with a quote if s is empty), the quoted print of s is taken as exactly one token, and toml_rtos of that token is s |
| EscapePrinter.QuotedIsKey | contrib/tomlc99/toml.c:486-543 | the quoted print of s is a key exactly when s has no newline, and that key is s |
| EscapePrinter.LiteralIsKey | contrib/tomlc99/toml.c:486-543 | the same for s between apostrophes, if s has none |
| EscapePrinter.BareIsKey | contrib/tomlc99/toml.c:486-543 | a word of letters, digits, underscores and dashes is its own key |
| TripleQuotes.TripleReads | contrib/tomlc99/toml.c:1919-1945 | toml_rtos reads a triple-quoted token that the scanner accepted exactly when it ends in three quotes that stand together, its items end just before them, and no escape names a code without encoding |
| TripleQuotes.CountSurvivesEscape | contrib/tomlc99/toml.c:1425-1453 | a concrete token that the scanner accepts and toml_rtos refuses |
| Grammar.KeyvalGrammar | contrib/tomlc99/toml.c:772-980 | the mutually recursive value parser succeeds with a table and a cursor exactly when the tokens up to that cursor derive an entry of the bracket, comma and newline grammar and the key, kind and type rules turn the old table into that one |
| Grammar.ArrayRule | contrib/tomlc99/toml.c:822-919 | pushing elements one by one with the kind and type tests builds an array exactly when the list is homogeneous, and then the array of its elements |
| Uniform.ArrayExactly | contrib/tomlc99/toml.c:822-919 | a list makes an array exactly when every element makes a node and all are scalars of one type, or all lists, or all inline tables; the nodes keep their order |
| Uniform.ParsedUniform | contrib/tomlc99/toml.c:822-919 | in every tree a text parses to, at every depth, an array has elements of its recorded kind and type only, whatever headers and lines built it |
| Documents.DocumentGrammar | contrib/tomlc99/toml.c:1204-1276 | a text is accepted with a tree exactly when it is a document of the grammar whose statements, run in order from the empty tree, build that tree |
| Documents.NoEmptyWord | contrib/tomlc99/toml.c:1495-1505 | no document of the grammar, so no accepted text, contains an empty bare word |
| DocumentText.ShowReads | contrib/tomlc99/toml.c:1204-1276 | any document whose words are words, printed as text with literal brackets, braces, commas, dots, equal signs and newlines and a blank after each token, reads as that document |
| DocumentText.Reprinted | contrib/tomlc99/toml.c:1204-1276 | any reading of any text can be printed afresh: the print reads as the same statements and parses to the same tree, or to none if the text did not |
| DocumentText.EmptyArrayLine | contrib/tomlc99/toml.c:822-919 | an entry with an empty array is accepted |
| DocumentText.HeaderDepth | contrib/tomlc99/toml.c:993-1037 | a document of one header with any bare keys is accepted exactly when it has at most ten of them, and the tree it builds is written out |
| DocumentText.DepthLimit | contrib/tomlc99/toml.c:993-1037 | wherever a path of good keys stands before a closing bracket, it is read exactly when it has at most ten keys |
| FlatDocuments.EntriesBuild | contrib/tomlc99/toml.c:928-980 | a document of entries, a bare key and a word each, is accepted exactly when no key comes twice |
| FlatDocuments.EntryTreeAt | contrib/tomlc99/toml.c:587-622 | and the table it builds has these keys and no other, each with its word |
| Written.BareIsOneWord | contrib/tomlc99/toml.c:1495-1505 | a nonempty run of word bytes is a word wherever a blank follows |
| Written.LiteralIsOneWord | contrib/tomlc99/toml.c:1455-1463 | so is a text between apostrophes without apostrophe and newline |
| Written.QuotedIsOneWord | contrib/tomlc99/toml.c:1465-1493 | so is every quoted print |
| Unambiguous.UniqueDoc | contrib/tomlc99/toml.c:1204-1276 | a text has at most one sequence of statements in the grammar |
| Endless.StuckExactly | contrib/tomlc99/toml.c:761 | the parse does not end exactly when the text is a run of statements that can be run, then an entry cut off by the end of the text at a newline skip inside its brackets, which could be run if these brackets were closed |
| Endless.OpenBracketHangs | contrib/tomlc99/toml.c:761 | the text `a=[` is such a text |
| Headers.SingleHeaderSelects | contrib/tomlc99/toml.c:1043-1153 | after `[p]` the current table is where p leads with array steps taking the last element, it is explicit, missing tables on the way are implicit, and every other address shows what it showed before |
| Headers.DoubleHeaderSelects | contrib/tomlc99/toml.c:1140-1180 | after `[[p]]` the current table is one fresh empty table, the last element of the array p names, and every other address is as before or a new implicit table on the way |
| Headers.HeaderAcceptedIff | contrib/tomlc99/toml.c:1043-1180 | a header is accepted exactly when every key on its way is free, a table or an array of tables, and its target is free, or implicit for `[p]`, or an empty array or array of tables for `[[p]]` |
| Extension.RunExtends | contrib/tomlc99/toml.c:1246-1271 | over any successful run no key goes, no value changes, no element moves and a flag only goes from implicit to explicit |
| Extension.OpenedAtMostOnce | contrib/tomlc99/toml.c:636-647 | after a `[p]` that crossed no array, no later `[p]` is accepted, whatever lines come between |
| Sections.SectionIsOp | contrib/tomlc99/toml.c:1043-1140 | a whole section, with its header, implicit tables, promotion and entries, is one operation applied from the root |
| Operations.OpsCommute | contrib/tomlc99/toml.c:587-669 | two such operations commute on every tree, failures included, if neither enters an array of tables that the other makes |
| Operations.BlocksFails | contrib/tomlc99/toml.c:1059-1071 | if the first enters an array of tables that the second makes, the second fails after it, on every tree |
| Operations.SwapExactly | contrib/tomlc99/toml.c:587-669 | so two operations give the same in both orders exactly when they do not cross or both orders fail |
| Operations.FailsForever | contrib/tomlc99/toml.c:587-669 | an operation that fails on a tree still fails after any other operation |
| Sections.SectionOrder | contrib/tomlc99/toml.c:1246-1271 | in any document and from any state, swapping two adjacent single-bracket sections gives the same tree, implicit flags included, exactly when neither enters an array of tables that the other makes, or both orders are refused |
| Sections.TableArraysDoNotCommute | contrib/tomlc99/toml.c:1059-1071 | a concrete pair of sections that cross: accepted in one order only |
| Reorder.AnyOrder | contrib/tomlc99/toml.c:1246-1271 | two orders of any number of single-bracket sections lead to the same result exactly when no section blocks a later one in either, or both are refused; and an order in which one does is refused |
| Reorder.AnyOrderOfTexts | contrib/tomlc99/toml.c:1204-1276 | the same for texts with the same statements up to the order of sections in one place |
| Reachable.InvariantMeans | contrib/tomlc99/toml.c:227-263 | wherever the invariant holds, keys are distinct across the three lists of a table, each record has exactly one parent and place, all are below the root, and an array has kind 0 exactly when it is empty |
| Reachable.EveryReachableState | contrib/tomlc99/toml.c:550-758 | it holds after any sequence of builder steps that pass the builder's tests |
| Steps.AddKeyvalTree | contrib/tomlc99/toml.c:587-622 | a fresh value keeps the invariant and changes the tree of its table at that key only |
| Steps.AddArrTree | contrib/tomlc99/toml.c:690-715 | a fresh array under a key keeps the invariant, is empty, and is the one change to its table |
| Steps.AddTabTree | contrib/tomlc99/toml.c:650-668 | the same for a fresh table, implicit or not |
| Steps.PushArrTree | contrib/tomlc99/toml.c:720-737 | a fresh array becomes the last element and changes nothing else |
| Steps.PushTabTree | contrib/tomlc99/toml.c:741-758 | a fresh table becomes the last element and changes nothing else |
| Growth.RootAfterGrowth | contrib/tomlc99/toml.c:585-758 | whatever happens at and below one record replaces, in the tree of the root, exactly the node at that record's address |
| Places.AcrossArray | contrib/tomlc99/toml.c:1059-1071 | crossing an array takes its last table, and an array of kind 't' has one, so the error for no elements is unreachable |
| Places.OpenedDouble | contrib/tomlc99/toml.c:1140-1180 | finding or creating the array and appending the table to the records is one `[[k]]` step on the tree |
| Builder.Context.constructor | contrib/tomlc99/toml.c:1204-1244 | an empty root table that is also the current one, and an artificial newline |
| Builder.Context.CheckKey | contrib/tomlc99/toml.c:550-583 | the three search loops find the child the key has in the tree, and nothing exactly when it has none |
| Builder.Context.CreateKeyvalInTable | contrib/tomlc99/toml.c:587-622 | succeeds exactly for a good and free key; then the table has that one more value and only its record changed |
| Builder.Context.CreateKeytableInTable | contrib/tomlc99/toml.c:627-669 | succeeds exactly for a free key or an implicit table, which becomes explicit and keeps its children |
| Builder.Context.CreateKeyarrayInTable | contrib/tomlc99/toml.c:674-716 | succeeds exactly for a free key or, when asked to skip, an existing array, which it returns unchanged |
| Builder.Context.CreateArrayInArray | contrib/tomlc99/toml.c:720-737 | the array has one more, empty, array at its end |
| Builder.Context.CreateTableInArray | contrib/tomlc99/toml.c:741-758 | the array has one more, empty, explicit table at its end |
| Builder.Context.SkipNewlines | contrib/tomlc99/toml.c:761 | stops at the first other token, fails on a lexical error, or reaches the end of the text |
| Builder.Context.ParseArray | contrib/tomlc99/toml.c:822-919 | fills the array object so that its tree, the token and the outcome are those of the parser function, and no record outside it changes |
| Builder.Context.ParseTable | contrib/tomlc99/toml.c:772-803 | the same for an inline table |
| Builder.Context.ParseKeyval | contrib/tomlc99/toml.c:928-980 | the same for an entry of a table |
| Builder.Context.FillTabpath | contrib/tomlc99/toml.c:993-1037 | reads one to ten keys, normalised, up to the closing bracket, or fails |
| Builder.Context.WalkTabpath | contrib/tomlc99/toml.c:1043-1110 | moves the current table along the path, creating implicit tables, as the function on the tree does |
| Builder.Context.ParseSelect | contrib/tomlc99/toml.c:1114-1199 | reads a header and leaves the tree, the current table and the token the parser function gives |
| Builder.Context.Parse | contrib/tomlc99/toml.c:1246-1276 | the line loop ends with the tree of the parser function, keeps the tree invariant, and fails or hangs exactly when that does |
| Cat.ParseAndPrint | contrib/tomlc99/toml_json.c:169-183 | from text to bytes: the text is parsed exactly when the grammar gives it a tree, the bytes come out exactly when also every scalar of that tree can be printed, they are an output of that tree and a newline, and if no key (or double) holds a quote the reader takes them apart into what the tree shows |
| Cat.SameBytesSameView | contrib/tomlc99/toml_json.c:169-183 | equal bytes from two trees without quotes in keys (or doubles) show the same |
| Cat.ParsedNotPrinted | contrib/tomlc99/toml_json.c:85-88 | the text `a=b` is parsed and has no output: print_raw ends the program |
| Builder.TomlParse | contrib/tomlc99/toml.c:1204-1276 | for every text: the root object stands for the tree the grammar gives, the current table is in it, the other two outcomes agree, and the records are one tree as Reachable.InvariantMeans says |
| Builder.Context.EveryRecordHasAnObject | contrib/tomlc99/toml.c:227-263 | every record of the store is the record of an object, so objects and records are one for one |
| Release.FreedExactly | contrib/tomlc99/toml.c:1338-1382 | freeing a table or array frees every record at and below it exactly once and no other |
| Release.FreeVisitsOnce | contrib/tomlc99/toml.c:1364-1388 | toml_free on the root frees every record exactly once |
| FreeWalk.Free | contrib/tomlc99/toml.c:1328-1388 | the walk over the objects frees every table and array of the tree exactly once and nothing else |
| Accessors.Enumeration | contrib/tomlc99/toml.c:1553-1564 | toml_key_in lists each child key exactly once, nothing else, and then returns NULL |
| Accessors.RawIn | contrib/tomlc99/toml.c:1567-1575 | finds exactly the children that are values |
| Accessors.ArrayIn | contrib/tomlc99/toml.c:1577-1585 | finds exactly the children that are arrays |
| Accessors.TableIn | contrib/tomlc99/toml.c:1588-1596 | finds exactly the children that are tables |
| Accessors.RawAt | contrib/tomlc99/toml.c:1598-1605 | the value element at an index; nothing for another kind or a bad index |
| Accessors.ArrayAt | contrib/tomlc99/toml.c:1654-1661 | the same for array elements |
| Accessors.TableAt | contrib/tomlc99/toml.c:1663-1670 | the same for table elements |
| Printing.PrintTable | contrib/tomlc99/toml_json.c:93-118 | the walk ends normally exactly when every scalar below the table can be printed; then its bytes are those of every child once, in the order of toml_key_in, with what is below it; it never reaches abort |
| Printing.PrintArray | contrib/tomlc99/toml_json.c:120-165 | the same for an array: every element once, at its place |
| Reader.ReadsExactly | contrib/tomlc99/toml_json.c:54-165 | a reader with its own literal braces, brackets, colons, commas and quotes reads j off a text and leaves x exactly when the text is the print of j followed by x, for every j whose keys and scalars end at their quotes |
| Output.OutputReads | contrib/tomlc99/toml_json.c:37-165 | the outputs of a tree without quotes in its keys (or doubles) are exactly the texts that the reader takes apart into what the tree shows |
| Output.OutputDetermines | contrib/tomlc99/toml_json.c:37-165 | for trees in which no key at any depth (and no text printed as a double) holds a quote, the printed bytes of two of them are equal exactly when the printed nesting is, and then the output shows the same of both |
| Output.SameOutputExactly | contrib/tomlc99/toml_json.c:37-165 | so two such trees can be printed as the same bytes exactly when one of them can be printed and the output shows the same of both: printed scalars, keys, places, and which arrays are arrays of tables |
| Output.KeyLooksLikeMembers | contrib/tomlc99/toml_json.c:104 | keys are printed without escapes: a key that the parser accepts and that holds a quote makes a table with one member print the bytes of a table with two |
| Numbers.ReadInt | contrib/tomlc99/toml.c:1783-1821 | the loop over the 100-byte buffer and the call of strtoll compute the reading function, in bounds |
| Numbers.RtoiExact | contrib/tomlc99/toml.c:1783-1821 | a text with a digit after its optional sign is read exactly when it is 0 or starts with 1-9 and has only digits and underscores, and its value fits 64 bits; then it is that value, however many underscores it has |
| Numbers.PrintRead | contrib/tomlc99/toml_json.c:67-68 | reading the decimal print of any int64 gives it back |
| Numbers.RtoiOther | contrib/tomlc99/toml.c:1783-1821 | every other text is read exactly when, stripped of underscores, it is empty or an integer constant of C after white space and a sign, short enough for the buffer and fitting 64 bits |
| Numbers.UnderscoreHidesPrefix | contrib/tomlc99/toml.c:1801-1819 | among them `_0x1F`, read as 31 |
| Numbers.OddIntegers | contrib/tomlc99/toml.c:1801-1819 | and the empty text, `_` and ` 5` |
| NumberLaws.PrintReadExactly | contrib/tomlc99/toml.c:1783-1821 | the decimal print of any integer is read exactly when it lies between -9223372036854775808 and 9223372036854775807 |
| NumberLaws.HexPair | contrib/tomlc99/toml.c:1806-1820 | after an underscore, 0 and x of either case, two hexadecimal digits of either case give 16i + j |
| NumberLaws.OctalPair | contrib/tomlc99/toml.c:1806-1820 | after an underscore and 0, two octal digits give 8i + j; an eight or a nine is refused |
| NumberLaws.BeforeDigit | contrib/tomlc99/toml.c:1806-1820 | exactly the six white-space bytes of C may stand before a number |
| NumberLaws.BufferLimit | contrib/tomlc99/toml.c:1787-1811 | ninety-nine bytes fit the buffer and a hundred do not |
| Timestamps.ReadStamp | contrib/tomlc99/toml.c:1673-1760 | the loops over date, time and fraction compute the reading function |
| Timestamps.RtotsExactly | contrib/tomlc99/toml.c:1673-1760 | exactly which texts are read and as which fields: a date whose second separator and a time whose separators may be digits, then nothing or a point and digits, then a zone or nothing, with T or a blank between date and time; the fields are those of date and time, whatever the fraction |
| Timestamps.FractionIgnored | contrib/tomlc99/toml.c:1729-1732 | a time with a fraction is read as the same fields as without it, or refused with it and without |
| Timestamps.FieldsOfText | contrib/tomlc99/toml.c:1673-1760 | which digits of `1979-05-27T07:32:04-08:30` are which field |
| Timestamps.PrintRead | contrib/tomlc99/toml_json.c:73-84 | printing a timestamp in any of the three formats and reading it back gives the same fields, present and absent |
| Timestamps.ReadPrintExact | contrib/tomlc99/toml.c:1673-1760 | a text is read and printed back unchanged exactly when it has the shape of RFC 3339, section 5.6, with no fraction (or is empty) |
| Timestamps.DigitForSeparator | contrib/tomlc99/toml.c:1687-1694 | a concrete text with a digit for its second separator is accepted, so reading then printing is not the identity on all accepted texts |
| Scalars.PrintedByClass | contrib/tomlc99/toml_json.c:54-89 | print_raw prints an unquoted text exactly when valtype knows its class, and with the type of that class; it prints a quoted text exactly when that has a string value or reads as a double |
| Scalars.PrintedStampIsStamp | contrib/tomlc99/toml.c:805-818 | a printed timestamp is classed by the parts it has, unless it reads as a double, and print_raw prints it as it is, as datetime, date or time |
| Scalars.PrintedIntIsInt | contrib/tomlc99/toml.c:805-818 | a printed integer is classed as an integer, and print_raw prints it as it is |
| Scalars.PrintedBool | contrib/tomlc99/toml_json.c:69-70 | print_raw shows true for `true` and false for `false`, as booleans |
| Scalars.PrintedString | contrib/tomlc99/toml_json.c:62-66 | a quoted print of s is a string, shown with the escapes of s |
| Scalars.PrintedDouble | contrib/tomlc99/toml_json.c:71-72 | a text that reads as a double and as nothing before it is shown as it is |
| Capabilities.KVMState.GetSupportedMSRs | lib/kvminfocaps.c:114-154 | sets exactly the flags of the listed MSRs, each known by its number, and leaves the others |
| Capabilities.KVMState.Open | lib/kvminfocaps.c:79-89 | fails exactly when the device does not open or gives no list |
| Capabilities.KVMState.Close | lib/kvminfocaps.c:91-104 | closes an open descriptor once and keeps it when closing fails |
| Capabilities.KVMState.HasEnabledMSR | lib/kvminfocaps.c:106-112 | the flag of a known MSR, 0 beyond the array, and for the index just past it, which the source's test lets pass, no value |
| Capabilities.KVMStateScan | lib/kvminfocaps.c:247-282 | in either mode, for each of the twelve labels by its text: it is emitted exactly when its MSR (by number) is listed and its extension (by number) is there, or exactly when not; the labels come in table order; nothing in any other mode or when opening fails; the descriptor stays open exactly when the device opens and gives no list or cannot be closed |
| Capabilities.ScanIsExpected | lib/kvminfocaps.c:156-234 | the labels are those of a table of texts and numbers written without the descriptor table |
| Capabilities.ExpectedSays | lib/kvminfocaps.c:156-282 | one if-and-only-if for each of the twelve labels |
| Capabilities.ModesPartition | lib/kvminfocaps.c:236-282 | the two modes split the twelve entries, an entry being a feature exactly when each needed MSR is listed and each needed extension is there, both in table order |
| Capabilities.OnlyTheSetMatters | lib/kvminfocaps.c:114-154 | the report depends on the set of MSRs only, not on order or repeats |

## Left out

- Allocation: malloc and realloc succeed; memory is not modelled beyond the records that are created and freed.
- Error texts: only success, failure and the third outcome are kept, not errbuf or the line an error names.
- What a refused text leaves behind: the source frees it, so the partial tree of a failed parse is only shown to keep its invariant.
- toml_parse_file and both main programs: file and process I/O; the document text is an input.
- toml_rtod: it defers to strtod. The class of a scalar takes "reads as a double" as a parameter, and every theorem about parsing holds for every class function.
- toml_cat.c, the Go programs and the ioctl layer: output for reading, or I/O; the MSR list and the extension answers are inputs.
- The union of element lists in an array is three lists of which the kind selects one; sharing of their storage is not modelled.
- create_keyval_in_table and the store of the value in parse_keyval are one step, so a value that exists without its text is not modelled.
- Shifts and masks of the UTF-8 codec are written as division and remainder by powers of two.
- Integer widths of line numbers, list lengths and positions: unbounded here.
- Printing.PrintTable: what was printed before print_raw ends the program is not described.
- FreeWalk.Free: an order of tables and arrays, not of the separate key, text and list allocations of each record.
- strtoll is a function written from the C standard; a text without digits gives 0 and leaves errno alone there.
