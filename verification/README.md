# Verified model of the IDA SDK's bodies

The SDK under `idasdk61/` is mostly declarations whose bodies live in a closed kernel. This
project models, in Dafny, the files that do carry logic, and proves what their steps add up to.

- **`etc/ld.cpp`, the keyed word permuter.** `WordList` says what the words of a line are,
  `Shuffle` is the permutation as a function with its inverse, `Permuter` is the code: words are
  heap blocks, `words[]` is an array closed by a shift at every step, the line is a byte array
  rewritten in place. The invariant `Permuter.Slots` carries the fact the code depends on without
  saying so: the shift leaves the last slot alone, so after i deletions the slots from n-1-i on all
  still hold the last word, and the pinned `cw32` word is found at index i although only one live
  word is left. `PermuterTheorems` says what this means for the words, `ResponseFile` and `IndirectFile` for a
  line and for the whole of an indirect file.
- **`etc/ld.cpp`, assembler and tokenizer.** `CommandTokens` cuts a line into items (blanks, opening
  quote, text, delimiter) and shows that cutting and rendering are inverse. `Tokenizer` is the loop of
  `run` over the byte array, `Assembler` the loop of `main`, and `CommandLine` decides for which
  linker names and arguments the first reads back what the second wrote: an if and only if, which
  rests on counting quotes: a line has no quote but those of its names, so none is left to open an argument.
- **`include/llong.hpp`.** `LongLong` and `Int128` show that the carry and borrow tests on 32-bit limbs
  compute integer arithmetic modulo 2^64 and 2^128 for all limb values, signed and unsigned, and that
  comparisons are integer order. `LongLongCells` has the operators that update fields in place.
- **`include/idd.hpp`, `regval_t`.** `RegVal` is the tagged union over explicitly built and destroyed
  vectors; `RegValRuns` plays any program of constructions, copies, assignments, clears, sets and
  destructions over any number of values, and says which vectors live and what each value holds.
- **`include/funcs.hpp`.** `FuncIterators`: the chunk and parent cursors and their runs in both directions.
- **`include/enum.hpp`, `etc/mkidp.cpp`, `include/exehdr.h`, `include/graph.hpp`.** `EnumCode`, `Mkidp`,
  `ExeHeader` and `GraphSelection`: a modular code and its inverse, a file region rewritten in place,
  page arithmetic with truncating division, and the order behind `std::set`.

`Occurrences` is the search for a word between spaces in an assembled line, `Bytes` has C strings in memory,
`Machine` the integer types, `Bits` and `Division` the integer facts the
others need.

Constants, characters and results are also stated as numbers and as text, apart from the functions that the
methods are proved against: `Characters`, `Keywords`, `Switches` and the lemmas named in bytes or in numbers.

Bytes are 0 to 255 and `isspace` is the C locale's set. Machine widths are explicit: limbs wrap at
2^32, `int` differences wrap to 32 bits, `uint16` fields truncate, `/` and `%` in `exehdr.h` truncate
toward zero. A method's `ghost` parameters name the text that its arrays hold at the start.

## What the code does that a reader might not expect

- `run` tests one byte for being both a backslash and a quote (`etc/ld.cpp:314`), which is never true,
  so quoted text is taken as it is and the escapes `copy_exe_name` writes are not undone. A linker name
  that contains `"` is never the first argument, whatever the other arguments are. An empty name, or one of
  tabs only, can be, but only by accident of the pieces: `CommandLine.LinkerCanComeBack`.
- `set_int` on a float keeps the tag `RVT_FLOAT` (`include/idd.hpp:305-307`); `clear` resets the tag only
  of custom values. `RegVal.RegVal.SetInt` gives the exact condition.
- `==` on custom values of one type reads as many bytes of the right vector as the left one has, so it has
  a defined result only if the right one is not shorter. A vector equals each one that starts with it; that
  comparison turned round has no defined result. `RegVal.EqualityTurnsRound` says exactly when both do.
- What `permutate` writes does not tell whether the last word was pinned, so the same output can come
  from two lists: `PermuterTheorems.PinIsNotInOutput`; `OutputDetermines` gives the exact condition.
- A line of 4095 bytes cut by `fgets` without a newline can come out of `permutate` as 4096 bytes and a NUL,
  one more than the buffer has: `ResponseFile.CutLineMayNotFit`; `RoomyIsExact` gives the exact condition.
- A line of the indirect file that is longer than the buffer goes on as a line of its own: its end is not
  permuted, and is dropped for Borland. `IndirectFile.LongLineLosesItsEnd`.
- `compare` on selection items subtracts `int`s, so it is not the order of the integers for indexes far apart.
  `GraphSelection.CompareIsStrictWeakOrder` says on exactly which sets of items it is still the order that
  `std::set` asks for, `RingIsStretched` exactly which three items are each less than the next. Every such ring
  has a negative index (`RingsHaveNegativeIndexes`); the nodes and layout points of a graph count from 0, and on
  them the order is right (`GraphItemsAreOrdered`).
- `last`, `next` and `prev` of the parent iterator do not ask whether the chunk is a tail, as `first` does.
  On an entry chunk the count they read is other storage: `FuncIterators.Func.refqty` is any number, and no true
  answer means a parent. `last` can be trusted exactly on a tail or if that number is not positive.
- `prev` after a `first` that found no tail goes to the entry chunk, and `next` does not lead back:
  `FuncIterators.StepsUndo`.

## Model

| member | source | states |
|---|---|---|
| Bytes.Characters | idasdk61/etc/ld.cpp:304-363 | the byte constants are their characters; blanks are space and tab, quotes the double and the single one, and white space what isspace accepts in the C locale |
| WordList.WordsSplit | idasdk61/etc/ld.cpp:347-373 | a white-space byte separates: the words of a text are those before it followed by those after it |
| WordList.WordsOfWord | idasdk61/etc/ld.cpp:362-370 | a non-empty run without white space and NUL is one word |
| WordList.WordsKeepBytes | idasdk61/etc/ld.cpp:347-373 | the words, concatenated, are the text without its white space: no byte is lost, added or moved |
| WordList.WordsOfJoin | idasdk61/etc/ld.cpp:389-413 | words written with single spaces and a final separator are read back as the same words |
| WordList.JoinedLength | idasdk61/etc/ld.cpp:353-413 | joining the words by single spaces never needs more bytes than the text, and as many exactly when the text has no white space to spare |
| Shuffle.ReorderStep | idasdk61/etc/ld.cpp:389-411 | one step: the element at index `key[i % keylen] % remaining` comes first, and the order goes on with the list that has this element cut out |
| Shuffle.UndrawDraw | idasdk61/etc/ld.cpp:389-411 | the draws can be undone from the key and the step number alone |
| Shuffle.DrawUndraw | idasdk61/etc/ld.cpp:389-411 | every list is the result of drawing some list, so drawing is onto |
| Shuffle.ReorderIsBijection | idasdk61/etc/ld.cpp:384-411 | for each key and pin count the reordering is a bijection on lists, with `Restore` as its inverse on both sides |
| Shuffle.ReorderKeepsElements | idasdk61/etc/ld.cpp:384-411 | every word is emitted exactly as often as it occurs |
| Shuffle.DrawAt | idasdk61/etc/ld.cpp:389-411 | drawing commutes with looking positions up: the draw never looks at the words |
| Shuffle.ReorderFollowsOrder | idasdk61/etc/ld.cpp:384-411 | the order is one permutation of 0..n-1 fixed by count, pin flag and key, whatever the words are |
| Permuter.Heap.Malloc | idasdk61/etc/ld.cpp:366 | a new block is live and different from all others |
| Permuter.Heap.Load | idasdk61/etc/ld.cpp:406 | only a live block may be read |
| Permuter.Heap.Free | idasdk61/etc/ld.cpp:409 | only a live block may be freed, once |
| Permuter.SkipSpaces | idasdk61/etc/ld.cpp:353-356 | the scan stops at the end exactly when no word is left, and loses no word |
| Permuter.ExtractWord | idasdk61/etc/ld.cpp:362-370 | the block allocated holds exactly the next word of the text |
| Permuter.ExtractWords | idasdk61/etc/ld.cpp:347-373 | all words in order, one fresh block each; fails exactly when there are more than `maxwords`, with that many blocks allocated |
| Permuter.NextKeyByte | idasdk61/etc/ld.cpp:394-399 | the cursor over the key yields byte i modulo the key length at step i, wrapping at the NUL |
| Permuter.KeyCursorStep | idasdk61/etc/ld.cpp:394-399 | the lazily wrapped cursor always stands for i modulo the key length |
| Permuter.SelectWord | idasdk61/etc/ld.cpp:391-401 | the index is `key[i % keylen] % (n - const_files - i)`, or i for the pinned word, and the slot holds the word that comes next, also in the stale tail |
| Permuter.MoveWord | idasdk61/etc/ld.cpp:402-410 | one step writes the chosen word after a space, frees its block only, and closes the gap so that the slots from n-1-i on still hold the last word |
| Permuter.WritePermuted | idasdk61/etc/ld.cpp:388-411 | the whole loop: exactly the blocks of the list are freed, each while live, and the words are written in the specified order; bytes behind stay |
| Permuter.Permutate | idasdk61/etc/ld.cpp:376-414 | the line becomes its prefix, the permuted words, newline and NUL, with every other byte kept; the heap is as before; refused exactly above 1024 words, and then the line is unchanged and the first 1024 words are what is left allocated |
| Permuter.OutputLength | idasdk61/etc/ld.cpp:353-413 | the text written never exceeds the input by more than one byte, and does so exactly when the input is tight, that is has no white space to spare |
| PermuterTheorems.OutputWords | idasdk61/etc/ld.cpp:389-413 | the words of the written line are the reordered words of the line, as a multiset the same ones |
| PermuterTheorems.OutputPicks | idasdk61/etc/ld.cpp:388-411 | word i of the output is the one at index `key[i % keylen] % (n - const_files - i)` among the words not yet written, for every line and key |
| PermuterTheorems.OutputBytes | idasdk61/etc/ld.cpp:402-413 | white space in the output is one space between words and a newline at the end |
| PermuterTheorems.PinnedExactly | idasdk61/etc/ld.cpp:383-386 | a word is pinned exactly if it is the last one and starts with cw32, in any of its four spellings |
| PermuterTheorems.RuntimeStaysLast | idasdk61/etc/ld.cpp:383-386 | a pinned word is still last in the line written |
| PermuterTheorems.OutputFollowsOrder | idasdk61/etc/ld.cpp:376-414 | word j of the output is word o[j] of the input, with o fixed by count, pin flag and key |
| PermuterTheorems.OutputDecodes | idasdk61/etc/ld.cpp:376-414 | from output, key and pin flag the list of words is recovered |
| PermuterTheorems.OutputDetermines | idasdk61/etc/ld.cpp:376-414 | lines with the same output have the same words exactly when their pin flags agree; always when the output does not end in a cw32 word |
| PermuterTheorems.PinIsNotInOutput | idasdk61/etc/ld.cpp:383-400 | two different lists with the same output under one key: the pin flag cannot be dropped |
| ResponseFile.FindWords | idasdk61/etc/ld.cpp:277-282 | keyword and following white space are skipped, to where the specification says the words start |
| ResponseFile.ProcessFileLine | idasdk61/etc/ld.cpp:275-287 | a file or lib line yields its words, permuted when there is a key, and leaves no block allocated |
| ResponseFile.ProcessLine | idasdk61/etc/ld.cpp:270-289 | what the loop body writes for any line: noperm lines without the keyword, file and lib lines permuted, others kept or, for Borland, skipped |
| ResponseFile.Keywords | idasdk61/etc/ld.cpp:270-275 | the keywords by their characters |
| ResponseFile.NopermLine | idasdk61/etc/ld.cpp:270-274 | a line that starts with noperm writes what is behind that, byte for byte, under every key |
| ResponseFile.FileLine | idasdk61/etc/ld.cpp:275-287 | a line that starts with file or lib drops what comes up to the first space or tab and the white space there, and writes the rest, permuted if there is a key |
| ResponseFile.OtherLine | idasdk61/etc/ld.cpp:288-289 | any other line is written as it is, and dropped for Borland |
| ResponseFile.FileLineKeepsWords | idasdk61/etc/ld.cpp:275-287 | the response file names the same words as the line behind its keyword, each as often |
| ResponseFile.RoomyIsExact | idasdk61/etc/ld.cpp:243-285 | the precondition on the buffer is exact: it holds exactly when the words are too many to be rewritten or the new line and its NUL fit |
| ResponseFile.WholeLinesAreRoomy | idasdk61/etc/ld.cpp:268-285 | a line that ends in its newline fits, except an empty word list in a full buffer |
| ResponseFile.CutLineMayNotFit | idasdk61/etc/ld.cpp:243-285 | each line of 4095 bytes that is lib, a space and one word is rewritten to bytes that need 4097 places with their NUL, for every key |
| ResponseFile.CutLineExists | idasdk61/etc/ld.cpp:243-268 | there are such lines |
| IndirectFile.Fgets | idasdk61/etc/ld.cpp:268 | the buffer holds the bytes up to the next newline, or as many as fit, as a C string that ends at the first NUL among them |
| IndirectFile.ProcessFile | idasdk61/etc/ld.cpp:268-290 | the whole loop for every file: what all lines write, in order, up to the end or to the first line with too many words; otherwise no block is left allocated |
| IndirectFile.ShortLinesAreRoomy | idasdk61/etc/ld.cpp:243-290 | a file whose lines are all shorter than the buffer never overflows it, whatever the key |
| IndirectFile.WholeLinesNeedNoMore | idasdk61/etc/ld.cpp:268-290 | if no line is longer than the buffer, a larger buffer gives the same response file |
| IndirectFile.FilesAreIndependent | idasdk61/etc/ld.cpp:268-290 | lines are independent: two files one behind the other give what they give alone, up to an exit |
| IndirectFile.LineInFront | idasdk61/etc/ld.cpp:268-290 | a whole line in front of a file writes its own output and then the file's |
| IndirectFile.NopermFile | idasdk61/etc/ld.cpp:268-274 | the words behind noperm are in the response file in their order, in front of those of the next lines, under every key |
| IndirectFile.PlainFileLine | idasdk61/etc/ld.cpp:275-287 | with no key a file or lib line writes what it has from its first word on |
| IndirectFile.LongLineIsCut | idasdk61/etc/ld.cpp:268-290 | the bytes of a line behind those that fit in the buffer are read as a line of their own |
| IndirectFile.LongLineLosesItsEnd | idasdk61/etc/ld.cpp:268-290 | without a keyword of its own, the end of a line that is too long is lost for Borland and written as it is otherwise, while a larger buffer would have rewritten it with the line |
| IndirectFile.FileKeepsWords | idasdk61/etc/ld.cpp:268-290 | for every file without overlong lines the response file names the same words, each as often, with a key as without one, and without one no line has too many |
| CommandTokens.RenderParse | idasdk61/etc/ld.cpp:299-327 | the items found are well formed and, put together, are the line: every byte of any line belongs to exactly one part of one item |
| CommandTokens.ParseRender | idasdk61/etc/ld.cpp:299-327 | a line built from well-formed items is cut into exactly those items |
| CommandTokens.FirstItemGood | idasdk61/etc/ld.cpp:304-326 | one turn of the loop: a bare item is non-empty without blank or quote in front, a quoted one is verbatim up to its quote or the end |
| CommandTokens.FirstItemInBytes | idasdk61/etc/ld.cpp:304-326 | the same in bytes: blanks are 32 and 9, quotes 34 and 39; a quoted text goes up to its own quote, any other up to a blank, or either up to the end |
| CommandTokens.FirstItemIs | idasdk61/etc/ld.cpp:304-326 | one turn of the loop finds the item that was put in front, whatever follows |
| CommandTokens.OffsetsIncrease | idasdk61/etc/ld.cpp:302-327 | arguments lie in the line, in order, with at least one byte between one and the next: disjoint and strictly ordered |
| CommandTokens.OffsetSlice | idasdk61/etc/ld.cpp:311-321 | argument k is the substring of the original line at its offset |
| CommandTokens.CutHolds | idasdk61/etc/ld.cpp:325-326 | after m arguments are cut, each of them reads as a NUL-terminated string at its offset |
| CommandTokens.CutKeeps | idasdk61/etc/ld.cpp:325-326 | only a blank or quote right behind one of the cut arguments is overwritten, with NUL; every other byte stays |
| Tokenizer.SkipBlanks | idasdk61/etc/ld.cpp:304-305 | the pointer stops behind the leading blanks |
| Tokenizer.ScanBare | idasdk61/etc/ld.cpp:322-323 | the pointer stops at the first blank or the end |
| Tokenizer.ScanQuoted | idasdk61/etc/ld.cpp:312-317 | the pointer stops at the matching quote or the end; nothing is moved |
| Tokenizer.ScanToken | idasdk61/etc/ld.cpp:304-324 | the scan finds the item the specification cuts first, or none exactly when only blanks are left |
| Tokenizer.EndToken | idasdk61/etc/ld.cpp:325-326 | the delimiter becomes NUL, the rest still holds the remaining text, the bytes behind the line stay |
| Tokenizer.NextToken | idasdk61/etc/ld.cpp:304-326 | one turn: the argument starts behind blanks and quote and only its item is rewritten |
| Tokenizer.StoreToken | idasdk61/etc/ld.cpp:302-327 | one turn keeps the loop's invariant: the first k arguments are stored and cut, the rest is untouched text |
| Tokenizer.Tokenize | idasdk61/etc/ld.cpp:297-328 | for every line: argc is the number of items, at most 9999; nargv holds their offsets and a null; each argument is a C string in the line; the line is the original with its delimiters cut and nothing else changed |
| CommandLine.QuotesConserved | idasdk61/etc/ld.cpp:302-327 | the quotes of a line are at least those in its arguments and those that open one together |
| CommandLine.ExeNameInBytes | idasdk61/etc/ld.cpp:46-77 | the name in bytes: between quotes exactly if it has a space or double quote, a backslash before each double quote and nowhere else, and a space behind |
| CommandLine.BlankInFront | idasdk61/etc/ld.cpp:304-305 | a blank in front changes no argument |
| CommandLine.ArgInFront | idasdk61/etc/ld.cpp:216-217 | a good argument followed by a blank or the end is read back as it is |
| CommandLine.GoodArgsReadBack | idasdk61/etc/ld.cpp:198-220 | good pieces are read back in order, whatever text follows them |
| CommandLine.PiecesAreGood | idasdk61/etc/ld.cpp:198-220 | in front of any text without quotes, pieces are read back only if each is good |
| CommandLine.PiecesReadBack | idasdk61/etc/ld.cpp:198-220 | pieces are read back as they were exactly when each is non-empty, has no blank and does not start with a quote |
| CommandLine.GoodLinkerReadBack | idasdk61/etc/ld.cpp:46-77 | a good linker name, quoted if it has a space, is read back in front of whatever follows |
| CommandLine.FirstIsLinker | idasdk61/etc/ld.cpp:46-328 | whatever follows the name, it is the first argument only if it is good or nothing but tabs |
| CommandLine.LinkerCanComeBack | idasdk61/etc/ld.cpp:46-328 | there are pieces with which a name is the first argument exactly if it is good or nothing but tabs; it is so with all pieces exactly if it is good |
| CommandLine.LostLinker | idasdk61/etc/ld.cpp:46-328 | name and pieces are read back together, in front of any text without quotes, only if all of them are good |
| CommandLine.LineReadBack | idasdk61/etc/ld.cpp:46-328 | the tokenizer inverts the assembler exactly when linker name and pieces are good: an if and only if over all names and pieces |
| Assembler.CopyExeName | idasdk61/etc/ld.cpp:56-77 | the buffer holds the name, quoted and escaped when it has a space or quote, and a space |
| Assembler.CopyQuoted | idasdk61/etc/ld.cpp:60-70 | the quoted name is written byte by byte with a backslash before each double quote |
| Assembler.LineGrows | idasdk61/etc/ld.cpp:196-224 | each piece is put behind the line so far and one space |
| Assembler.AppendPiece | idasdk61/etc/ld.cpp:216-217 | a space and the piece are appended to the string in the buffer |
| Assembler.NextPiece | idasdk61/etc/ld.cpp:200-217 | one round is one step of the specification for every list of remaining arguments: its piece in front of what these give, or an exit code that ends the line whatever these are |
| Assembler.AppendArgs | idasdk61/etc/ld.cpp:196-220 | the loop appends each piece up to the end or the first failing indirect file, and returns its code; `/LD` is noticed for CE |
| Assembler.AppendCeTail | idasdk61/etc/ld.cpp:226-234 | the CE switches: the entry switch always, /link unless the line already has it between spaces |
| Assembler.Assemble | idasdk61/etc/ld.cpp:196-234 | the buffer holds the whole specified line for every outcome of the loop |
| Assembler.PlainArguments | idasdk61/etc/ld.cpp:198-219 | without indirect arguments the pieces are the arguments, and the code is 0 |
| Assembler.OneIndirect | idasdk61/etc/ld.cpp:200-214 | one indirect argument anywhere becomes an at sign and the name of the response file, or ends the line with the code of reading it |
| Assembler.TwoIndirect | idasdk61/etc/ld.cpp:202-207 | a second indirect argument ends with code 1 and the pieces before it, whatever follows |
| Assembler.CodeIs | idasdk61/etc/ld.cpp:198-220 | the exit code for every argument list: that of reading the indirect file if there is one, 1 if there are two, 0 otherwise |
| Assembler.RunPieces | idasdk61/etc/ld.cpp:198-225 | when the line is run, piece i is argument i, or an at sign and the response file if that is indirect, and the a switch comes last |
| Assembler.Switches | idasdk61/etc/ld.cpp:218-232 | the switches by their characters |
| Assembler.CeTailInBytes | idasdk61/etc/ld.cpp:226-234 | the bytes that a CE program gets behind its line, by whether that has /link between spaces |
| Occurrences.SpacedContains | idasdk61/etc/ld.cpp:230 | among good pieces a word stands between spaces exactly if it is a piece and not the last one |
| Occurrences.LineContains | idasdk61/etc/ld.cpp:230 | a good line has a word between spaces exactly if the linker name has it so or a piece that is not the last one is it |
| Assembler.CeSwitches | idasdk61/etc/ld.cpp:218-234 | which switches a CE program gets for which arguments: none with an argument /LD; /link unless the linker name or an argument that is not the last piece brings it; the entry switch last |
| Assembler.CeTailReadBack | idasdk61/etc/ld.cpp:226-234 | the CE switches are read back as one or two arguments |
| Assembler.FinalLineReadBack | idasdk61/etc/ld.cpp:196-328 | for every configuration, also for CE, the assembled line reads back as linker, pieces and CE switches exactly when linker name and pieces are good |
| Assembler.GoodLineReadBack | idasdk61/etc/ld.cpp:196-328 | with good names the assembled line reads back as linker, pieces and CE switches |
| Assembler.LoadCommand | idasdk61/etc/ld.cpp:196-328 | assembling and cutting in one buffer: nargv holds the arguments of the assembled line; for good names these are the linker, argument by argument itself or an at sign and the response file, the a switch and the CE switches, up to 9999 |
| LongLong.NotLimbIs | idasdk61/include/llong.hpp:120-172 | the bitwise complement of a limb is 2^32 - 1 minus it |
| LongLong.UAddIsModular | idasdk61/include/llong.hpp:315-320 | ulonglong + is addition modulo 2^64 for all limbs |
| LongLong.USubIsModular | idasdk61/include/llong.hpp:323-328 | ulonglong - is subtraction modulo 2^64 for all limbs |
| LongLong.UNegIsModular | idasdk61/include/llong.hpp:411-413 | unary minus, written as complement plus one, is negation modulo 2^64 |
| LongLong.SignedWraps | idasdk61/include/llong.hpp:185-198 | longlong + and - are the integer result wrapped to 64-bit two's complement |
| LongLong.SNegWraps | idasdk61/include/llong.hpp:281-283 | longlong unary minus is the wrapped negation |
| LongLong.SignedIsExact | idasdk61/include/llong.hpp:185-198 | the signed results are the integer results exactly when these fit in 64 bits; negation exactly when the value is not -2^63 |
| LongLong.UnsignedComparisons | idasdk61/include/llong.hpp:173-178 | the limb comparisons <, <=, > and >= of ulonglong, each with its own body, and == are those of the integer values |
| LongLong.SignedComparisons | idasdk61/include/llong.hpp:121-126 | the limb comparisons <, <=, > and >= of longlong, with a signed high and an unsigned low limb, and == are those of the integer values |
| LongLong.FromInt | idasdk61/include/llong.hpp:87-141 | longlong(int) has the value given, ulonglong(int) its residue modulo 2^64 |
| LongLong.ConversionsKeepBits | idasdk61/include/llong.hpp:143-182 | longlong and ulonglong convert into each other modulo 2^64 and back without loss |
| LongLong.UnsignedInverses | idasdk61/include/llong.hpp:315-328 | ulonglong + and - undo each other for all operands |
| LongLong.UnsignedNegation | idasdk61/include/llong.hpp:411-413 | x + (-x) is 0 for every ulonglong |
| LongLong.SignedInverses | idasdk61/include/llong.hpp:185-198 | longlong + and - undo each other for all operands, also when they wrap |
| LongLong.SignedNegation | idasdk61/include/llong.hpp:281-283 | x + (-x) is 0 for every longlong, also -2^63 |
| Int128.AddIsModular | idasdk61/include/llong.hpp:575-581 | uint128 + is addition modulo 2^128 over four 32-bit limbs |
| Int128.SubIsModular | idasdk61/include/llong.hpp:584-590 | uint128 - is subtraction modulo 2^128 over four 32-bit limbs |
| Int128.NegIsModular | idasdk61/include/llong.hpp:674-676 | uint128 unary minus is negation modulo 2^128 |
| Int128.ValIsInjective | idasdk61/include/llong.hpp:477-516 | two uint128 with the same value have the same limbs |
| Int128.SubUndoesAdd | idasdk61/include/llong.hpp:575-590 | (x + y) - y is x for all operands |
| Int128.AddUndoesSub | idasdk61/include/llong.hpp:575-590 | (x - y) + y is x for all operands |
| Int128.NegIsInverse | idasdk61/include/llong.hpp:674-676 | x + (-x) is 0 for every uint128 |
| Int128.SubIsAddOfNeg | idasdk61/include/llong.hpp:575-676 | x - y is x + (-y): borrow and carry tests agree through the complement |
| Int128.AddIsCommutativeAndAssociative | idasdk61/include/llong.hpp:575-581 | + is commutative and associative although its carry test looks at the left operand only |
| Int128.ComparisonsAreIntegerOrder128 | idasdk61/include/llong.hpp:516-569 | <, <=, >, >= and == on uint128 and int128 are those of the integer values |
| Int128.ConversionsExtendSign | idasdk61/include/llong.hpp:485-487 | a signed 32 or 64-bit value becomes its residue modulo 2^128 |
| Int128.SignedConstructors | idasdk61/include/llong.hpp:532-534 | int128 built from int, longlong or ulonglong has that value |
| Int128.SignedKeepsBits | idasdk61/include/llong.hpp:536 | int128 built from uint128 is its two's complement reading |
| LongLongCells.ULongCell.Increment | idasdk61/include/llong.hpp:399-402 | ++ in place is +1 modulo 2^64 |
| LongLongCells.ULongCell.Decrement | idasdk61/include/llong.hpp:405-408 | -- in place, with its test before the step, is -1 modulo 2^64 |
| LongLongCells.ULongCell.UpThenDown | idasdk61/include/llong.hpp:399-408 | ++ and then -- leaves every ulonglong as it was, limb for limb |
| LongLongCells.ULongCell.DownThenUp | idasdk61/include/llong.hpp:399-408 | -- and then ++ leaves every ulonglong as it was, limb for limb |
| LongLongCells.ULongCell.AddAssign | idasdk61/include/llong.hpp:349-351 | += in place is addition modulo 2^64 |
| LongLongCells.ULongCell.SubAssign | idasdk61/include/llong.hpp:354-356 | -= in place is subtraction modulo 2^64 |
| LongLongCells.LongCell.Increment | idasdk61/include/llong.hpp:269-272 | ++ in place is +1 wrapped to 64-bit two's complement |
| LongLongCells.LongCell.Decrement | idasdk61/include/llong.hpp:275-278 | -- in place is -1 wrapped to 64-bit two's complement |
| LongLongCells.LongCell.UpThenDown | idasdk61/include/llong.hpp:269-278 | ++ and then -- leaves every longlong as it was, limb for limb, also across the wrap |
| LongLongCells.LongCell.DownThenUp | idasdk61/include/llong.hpp:269-278 | -- and then ++ leaves every longlong as it was, limb for limb, also across the wrap |
| LongLongCells.LongCell.AddAssign | idasdk61/include/llong.hpp:219-221 | += in place is the wrapped sum |
| LongLongCells.LongCell.SubAssign | idasdk61/include/llong.hpp:224-226 | -= in place is the wrapped difference |
| LongLongCells.U128Cell.Increment | idasdk61/include/llong.hpp:661-664 | ++ in place over two halves that are objects is +1 modulo 2^128 |
| LongLongCells.U128Cell.Decrement | idasdk61/include/llong.hpp:667-671 | -- in place, which tests the low half before it changes it, is -1 modulo 2^128 |
| LongLongCells.U128Cell.UpThenDown | idasdk61/include/llong.hpp:661-671 | ++ and then -- leaves every uint128 as it was, through all four limbs and despite the different tests |
| LongLongCells.U128Cell.DownThenUp | idasdk61/include/llong.hpp:661-671 | -- and then ++ leaves every uint128 as it was, through all four limbs and despite the different tests |
| LongLongCells.U128Cell.AddAssign | idasdk61/include/llong.hpp:611-613 | += in place is addition modulo 2^128 |
| LongLongCells.U128Cell.SubAssign | idasdk61/include/llong.hpp:616-618 | -= in place is subtraction modulo 2^128 |
| RegVal.Vectors.Build | idasdk61/include/idd.hpp:275 | placement new makes a vector live that was not |
| RegVal.Vectors.Destroy | idasdk61/include/idd.hpp:280-290 | only a live vector may be destroyed |
| RegVal.Vectors.Overwrite | idasdk61/include/idd.hpp:273 | assigning to a live vector changes its bytes only |
| RegVal.RegVal.constructor | idasdk61/include/idd.hpp:265 | an integer, tag -1, whose eight bytes are all 255, and no vector |
| RegVal.RegVal.MeaningIs | idasdk61/include/idd.hpp:249-264 | what a value means: its tag and the twelve bytes of the storage, or those of its vector |
| RegVal.RegVal.Copy | idasdk61/include/idd.hpp:267 | the copy has the value of the original and, if custom, a vector of its own |
| RegVal.RegVal.Assign | idasdk61/include/idd.hpp:268-285 | the left side gets the value of the right one, which is unchanged, also when both are the same; a vector is built, kept or destroyed as the two tags demand |
| RegVal.RegVal.Clear | idasdk61/include/idd.hpp:286-293 | a custom value loses its vector and becomes an integer; others are untouched |
| RegVal.RegVal.Destruct | idasdk61/include/idd.hpp:266 | the vector of a custom value, and nothing else, is destroyed |
| RegVal.RegVal.SetInt | idasdk61/include/idd.hpp:305-307 | the integer bytes are set; the value is tagged an integer exactly when it was custom or an integer, so a float keeps its tag |
| RegVal.RegVal.SetFloat | idasdk61/include/idd.hpp:306-308 | the value is the float given, and an old vector is destroyed |
| RegVal.RegVal.SetBytes | idasdk61/include/idd.hpp:312-317 | the value is custom type 0 with the bytes given, in a new vector, and an old one is destroyed |
| RegVal.RegVal.Equals | idasdk61/include/idd.hpp:294-303 | a defined comparison answers for each pair of tags: eight bytes, twelve bytes, or as many as the left vector has |
| RegVal.AssignAndCompare | idasdk61/include/idd.hpp:268-303 | after a = b on objects, a == b and b == a are both defined and true, whatever the tags, also when a and b are one object |
| RegVal.EqualityIsObservationOrPrefix | idasdk61/include/idd.hpp:294-303 | a defined == is true exactly when tag and visible bytes are the same, or the left vector is a proper prefix of the right one of its type |
| RegVal.EqualityTurnsRound | idasdk61/include/idd.hpp:294-320 | a == b and b == a are both defined exactly when they do not compare vectors of one type and different sizes; then they agree and are equality of tag and visible bytes, and one of the two is always defined |
| RegValRuns.StepBalances | idasdk61/include/idd.hpp:265-317 | every operation keeps: built = destroyed + number of custom values |
| RegValRuns.RunsBalance | idasdk61/include/idd.hpp:265-317 | every run keeps it, and once no value is left every vector built has been destroyed |
| RegValRuns.Pool.Do | idasdk61/include/idd.hpp:265-317 | each operation on the objects does to tags, known bytes, vectors and counts what the specification's step says, values stay separate, and no other value changes |
| RegValRuns.RunsAreSound | idasdk61/include/idd.hpp:265-317 | every run leaves floats with all twelve bytes, integers with their eight or, after a cleared vector, none known, and custom values of type 0 |
| RegValRuns.RunsKeepOthers | idasdk61/include/idd.hpp:265-317 | a run keeps each value that none of its operations writes: copies share nothing with their originals |
| RegValRuns.LastOperationIsRead | idasdk61/include/idd.hpp:265-317 | what a value holds after any run is what its last operation put there: the float, the bytes or the integer set, with the integer tag unless it was a float before, which keeps its other four bytes, or the value a copy was made of then |
| RegValRuns.Pool.Play | idasdk61/include/idd.hpp:265-317 | every run on the objects ends in the state the specification's run ends in, never reading or destroying a dead vector |
| RegValRuns.PlayProgram | idasdk61/include/idd.hpp:265-317 | from nothing, after any program, each value is what the run says, the live vectors are exactly those that custom values hold, one each, and none is live once all values are gone |
| RegValRuns.ImageCount | idasdk61/include/idd.hpp:265-317 | values that hold different vectors hold as many vectors as there are such values |
| RegValRuns.LiveAreHeld | idasdk61/include/idd.hpp:265-317 | no vector is live that no value holds: a vector lives exactly while some value's tag is at least 0 |
| FuncIterators.TailIterator.SetRange | idasdk61/include/funcs.hpp:630-637 | range mode is entered on the range given; true exactly when it is not empty |
| FuncIterators.TailIterator.Chunk | idasdk61/include/funcs.hpp:638 | the entry chunk if the cursor is negative, else the tail there; the range in range mode |
| FuncIterators.TailIterator.MainChunk | idasdk61/include/funcs.hpp:643 | on the entry chunk, unless in range mode |
| FuncIterators.TailIterator.First | idasdk61/include/funcs.hpp:639 | on the first tail; true exactly when there is one |
| FuncIterators.TailIterator.Last | idasdk61/include/funcs.hpp:640 | on the last chunk, which is the entry chunk when there are no tails |
| FuncIterators.TailIterator.Next | idasdk61/include/funcs.hpp:641 | one chunk on; true exactly when there is one |
| FuncIterators.TailIterator.Prev | idasdk61/include/funcs.hpp:642 | one chunk back, down to the entry chunk; false there |
| FuncIterators.TailIterator.Do | idasdk61/include/funcs.hpp:639-643 | any call keeps the cursor valid, and one that answers true leaves it on a chunk |
| FuncIterators.TailIterator.NextAll | idasdk61/include/funcs.hpp:641 | next until false visits the remaining chunks in order, each once |
| FuncIterators.TailIterator.PrevAll | idasdk61/include/funcs.hpp:642 | prev until false visits the chunks before, in reverse order, each once |
| FuncIterators.TailIterator.Forward | idasdk61/include/funcs.hpp:590-643 | main and next visit the entry chunk and then each tail once in order |
| FuncIterators.TailIterator.TailsOnly | idasdk61/include/funcs.hpp:590-643 | first and next visit exactly the tails in order |
| FuncIterators.TailIterator.Backward | idasdk61/include/funcs.hpp:590-643 | last and prev visit the tails backwards and then the entry chunk: exactly the reverse of what main and next visit |
| FuncIterators.TailIterator.RunCalls | idasdk61/include/funcs.hpp:630-643 | after any sequence of calls the chunks shown by true answers and the cursor are exactly those of the specified steps, call by call; in range mode none is shown and the cursor stays on its range |
| FuncIterators.Shown | idasdk61/include/funcs.hpp:638-643 | whatever the calls, each shows at most one chunk, and one of the function's |
| FuncIterators.OneCall | idasdk61/include/funcs.hpp:639-643 | what each of the five calls shows and where it leaves the cursor, from every position |
| FuncIterators.StepsUndo | idasdk61/include/funcs.hpp:641-642 | prev undoes next always, next undoes prev exactly from a cursor on a chunk |
| FuncIterators.ReverseReverse | idasdk61/include/funcs.hpp:639-643 | reversing the backward run gives the forward run |
| FuncIterators.ReverseAt | idasdk61/include/funcs.hpp:639-643 | element k from the front of the backward run is element k from the back of the forward run |
| FuncIterators.ParentIterator.First | idasdk61/include/funcs.hpp:739 | on the first parent; true exactly for a tail chunk with parents |
| FuncIterators.ParentIterator.Last | idasdk61/include/funcs.hpp:740 | on the last parent of a tail; true exactly when the count read is positive; a true answer means a parent exactly on a tail or when that count is not positive |
| FuncIterators.ParentIterator.Next | idasdk61/include/funcs.hpp:741 | one parent on; true exactly when the count read says there is one, and then there is one exactly on a tail |
| FuncIterators.ParentIterator.Prev | idasdk61/include/funcs.hpp:742 | one parent back; false on the first; a true answer means a parent exactly on a tail |
| FuncIterators.ParentIterator.Forward | idasdk61/include/funcs.hpp:738-741 | first and next visit all parents of a tail once in order, and none of an entry chunk |
| FuncIterators.ParentIterator.Backward | idasdk61/include/funcs.hpp:738-742 | last and prev visit exactly the reverse of what first and next visit, also on an entry chunk whose count reads as 0 or less |
| EnumCode.DecodeEncode | idasdk61/include/enum.hpp:271-285 | every id from MAXADDR on with any serial is recovered from its code, for every word width |
| EnumCode.EncodeDecode | idasdk61/include/enum.hpp:271-285 | every code of the width decodes to an id from MAXADDR on and a serial that encode to it: the other half of the bijection |
| EnumCode.RoundTripIffEnumId | idasdk61/include/enum.hpp:274-285 | the pair is recovered exactly when the id is at least MAXADDR |
| EnumCode.CodeIsSum | idasdk61/include/enum.hpp:271-277 | the code is the id plus the serial times 2^NBITS, modulo the word, for every width and in numbers for 32 and 64 bits |
| EnumCode.HighByte | idasdk61/include/enum.hpp:271-283 | masking with 0xFF shifted to the top keeps exactly the top byte |
| EnumCode.MaxAddrIs | idasdk61/include/ida.hpp:418-426 | MAXADDR for 32 and 64-bit words is the mask itself |
| EnumCode.OneBitMasks | idasdk61/include/enum.hpp:235-238 | the test holds exactly for 0 and the powers of two, for every mask of any width |
| Mkidp.File.ReadInt | idasdk61/etc/mkidp.cpp:39-45 | the number whose digits to the base 256 the next four bytes are, the lowest first, negative ones in two's complement; fails exactly when fewer are left |
| Mkidp.IntOfBytes | idasdk61/etc/mkidp.cpp:39-45 | each four bytes are the digits of exactly one int, and that is what is read |
| Mkidp.File.Write | idasdk61/etc/mkidp.cpp:57-65 | the bytes that fit are laid over the file at its position; true exactly when all fit |
| Mkidp.OverlayAppend | idasdk61/etc/mkidp.cpp:57-65 | writing one piece and then the next behind it is writing both at once |
| Mkidp.WriteDescription | idasdk61/etc/mkidp.cpp:39-72 | outcome and whole new file for every file and description, including each failure, by the number whose digits are at 0x3C |
| Mkidp.RunOutcome | idasdk61/etc/mkidp.cpp:39-70 | the outcome by that number v: accepted exactly if v is at least 0x80 plus the description, its NUL and 20; done exactly if the device also has v bytes |
| Mkidp.NewBytes | idasdk61/etc/mkidp.cpp:56-70 | every byte of the new file, also when the device is full halfway |
| Mkidp.DoneWritesRegion | idasdk61/etc/mkidp.cpp:39-70 | a successful run makes the bytes from 0x80 to the offset whose digits are at 0x3C the description and at least 21 NULs, and changes no other byte |
| Mkidp.OnlyTheRegionChanges | idasdk61/etc/mkidp.cpp:39-70 | no run changes a byte outside the region, and a rejected description or unreadable file changes nothing |
| Mkidp.PeOffsetKept | idasdk61/etc/mkidp.cpp:39-70 | no run changes the offset of the PE header it read |
| Mkidp.LastRunWins | idasdk61/etc/mkidp.cpp:39-70 | if a second run succeeds, the file is what the second run alone would have made, whatever became of the first |
| ExeHeader.ExeHdr.CalcLength | idasdk61/include/exehdr.h:39-45 | the length plus 16 times the header size is 512 times the pages, the last one counted as far as it is filled; from it the page fields are found again exactly when they are normal |
| ExeHeader.ExeHdr.CalcPages | idasdk61/include/exehdr.h:46-52 | the rest modulo 512 and as many pages as it takes; the fields set stand for the length less the header exactly when it is from 0 to 65535 pages, and are normal then; nothing else changes |
| ExeHeader.LengthRoundTrip | idasdk61/include/exehdr.h:39-52 | pages of a length give back the length less the header exactly for lengths from 0 to 65535 pages |
| ExeHeader.HeaderRoundTrip | idasdk61/include/exehdr.h:39-52 | a header is recovered from its own length exactly when PartPag is below 512 and PageCnt is not 0 with a part page |
| GraphSelection.MinusSign | idasdk61/include/graph.hpp:359-388 | a wrapping int difference has the sign of the comparison exactly when the difference fits |
| GraphSelection.CompareIsKeyOrder | idasdk61/include/graph.hpp:353-390 | compare is zero exactly for the same node or the same edge point; it follows the order of keys exactly when the index difference fits in int |
| GraphSelection.CompareSigns | idasdk61/include/graph.hpp:75-390 | points come before nodes, points by source and then target of their edge, and the same kind by the difference of their numbers while that fits |
| GraphSelection.CompareIsAntisymmetric | idasdk61/include/graph.hpp:353-394 | swapping the items swaps the sign exactly when the indexes compared are not 2^31 apart |
| GraphSelection.KeyOrder | idasdk61/include/graph.hpp:75-390 | the order of keys, points by edge and index before nodes by number, is a strict total order |
| GraphSelection.CompareIsStrictWeakOrder | idasdk61/include/graph.hpp:383-400 | on a set of items operator < is the strict weak order that std::set asks for exactly when no two indexes are 2^31 apart and no three are stretched, for every set |
| GraphSelection.LessIsTotal | idasdk61/include/graph.hpp:383-394 | no item is less than itself, and items are equivalent exactly when they are the same node or point, whatever the indexes |
| GraphSelection.RingIsStretched | idasdk61/include/graph.hpp:383-394 | three items are each less than the next exactly when, from one of them on, the keys ascend, each in range of the next, and the last is out of range of the first |
| GraphSelection.RingsHaveNegativeIndexes | idasdk61/include/graph.hpp:383-394 | there are such rings, and each has a negative index |
| GraphSelection.GraphItemsAreOrdered | idasdk61/include/graph.hpp:383-400 | on items whose indexes are not negative, as those of a graph, operator < is always such an order and is that of the keys |
| GraphSelection.SortedIsUnique | idasdk61/include/graph.hpp:400 | a list of ordered items that is sorted by operator < is determined by its keys, so it may stand for the set |
| GraphSelection.Selection.LowerBound | idasdk61/include/graph.hpp:402-403 | searching with operator < alone finds the place of an item, and whether it is there |
| GraphSelection.Selection.Has | idasdk61/include/graph.hpp:402-403 | true exactly when an equal item is in the selection |
| GraphSelection.Selection.Insert | idasdk61/include/graph.hpp:404-416 | the set gains the item and stays sorted, and an equal item is not added twice |
| GraphSelection.Selection.Erase | idasdk61/include/graph.hpp:409-417 | the set loses exactly the equal item and stays sorted |
| GraphSelection.Selection.Add | idasdk61/include/graph.hpp:404-408 | the result is the union of the two selections; a selection added to itself stays the same |
| GraphSelection.Selection.Sub | idasdk61/include/graph.hpp:409-413 | the result is the difference of the two selections |

## Left out

Weaker than the source on these points:

- Permuter.Permutate: the process exit on more than 1024 words is `ok == false`; a tight line must have a byte to spare behind its NUL, because the code writes there.
- Assembler.LoadCommand: the line buffer is assumed large enough for the line, since the code does not look; exit code and file name of the response file are inputs, because they come from the file system.
- ResponseFile.ProcessLine: the buffer must have room as `RoomyIsExact` says, because the code writes there without looking; `ProcessFileLine` too.
- IndirectFile.ProcessFile: asks the same for every line; the file is its bytes, opening and closing files is not modelled, and what was written before an exit is not said to reach the disk.
- RegVal.RegVal.Equals: asks for a defined comparison, because the code reads as many bytes of the right vector as the left one has.
- RegVal.RegVal.SetBytes: the source bytes are a value, so a source inside the value's own storage is not modelled.
- RegVal.RegVal.Clear: the raw bytes left where a vector was are unspecified, as are those `SetInt` leaves behind its eight bytes then.
- FuncIterators.ParentIterator.Backward: leaves out an entry chunk whose count reads as positive, because there `parent` would follow a pointer that is not there.
- FuncIterators.TailIterator.Chunk: a cursor on no chunk (after a false `first`) must not be shown; the default constructor's unset cursor is not modelled.
- GraphSelection.Selection.Add: the items must be ordered by operator <, as `std::set` asks of its user (`StrictWeakOrder`); so must those of the other members.
- GraphSelection.Selection.Sub: two distinct selections, because erasing from the set that is walked invalidates the iterator.
- Mkidp.WriteDescription: `peoff - 0x80` does not overflow a 32-bit int (it cannot for an offset of at least -0x7FFFFF80), and the description is shorter than 2^31.

Not modelled:

- Process spawning, temporary files, `remove_exp_and_lib`, switch parsing and the usage text of `ld.cpp`'s `main`.
- Locale: `isspace` and `strnicmp` are those of the C locale, and the signed-char argument at `ld.cpp:363` is read as unsigned.
- `longlong` multiplication, division, shifts, printing and the bitwise operators other than `~`; `int128` arithmetic, which is only declared; constructors from unsigned 32-bit values; builds with native 64 or 128-bit integers.
- `regval_t::swap`, the bare `_set_` members, and clients that write `rvtype` themselves.
- `set` and `set_ea` of the iterators, their locks, and `func_item_iterator_t`, whose bodies are in the kernel.
- `std::set` itself: a sorted list searched with operator < stands for it. Graph layout, floating-point points and `interval_t`.
- All functions exported by the kernel, the user-interface plugins, the Python script and the data tables: either no body is given or there is nothing to prove.
