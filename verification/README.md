# Verified model of sfproxy

sfproxy keeps a cache of registered services, saves it as JSON, reads it back through the rapidjson code
that it carries, shares ZooKeeper connections through a pool, and sends its log through a bounded queue.
This project models these parts byte by byte and step by step, and proves what they promise.

| part | files |
|---|---|
| bytes, digits, limits, events, values | Bytes, Decimal, Limits, Options, Sequences, Json, Dom |
| what each parsing function does, as a function of the text | ReaderSpec |
| the reader itself: a cursor over a buffer, copying or in place | Readers, Handover |
| the document as the reader's handler | Documents, Builds |
| the grammar of section 2 of RFC 4627, and the proof that the reader accepts exactly it | Grammar, Places, Completeness, Soundness, Language |
| which error is reported for every other text, and at which offset | Defects, Rejection |
| both writers, and `Accept` driving them | Printing, Rendering, Writers, Writing, Accepting |
| parse after print, whitespace, integers, Unicode, 32-bit sizes | RoundTrip, Squeeze, Integers, Utf, Unicode, Sizes |
| memory underneath | Allocators, Stacks |
| records, and when they come back from their text | Registries, RegistryTexts, RegistryLoads, RegistryRows, FieldTexts, RecordPieces, RecordTokens, Reloads |
| the cache of records | CacheSpec, RegistryCaches |
| the client pool and the recorded watches | StateBags, Clients, ClientPools |
| the log sender | LogSenders |

How to read it:

- A parse error is a result with its kind and offset, in place of `setjmp`/`longjmp`. The error kinds are the
  messages of the source.
- The double that the reader computes from a long integer part is a parameter, `huge`: "this double is at
  least 1E307". Every theorem holds for every such function, so none depends on rounding. What `%g`
  prints for a double is a parameter too, `shown`.
- A text is the bytes before the terminating NUL. The buffer may end right behind the NUL, so the array
  bounds that Dafny checks in `Readers` say that nothing behind it is ever read.
- The reader's methods are proved against the functions of `ReaderSpec`; what the source promises is proved
  about these functions, against the grammar, which is defined without them: `Grammar` and `Limits` have
  their own tables, words and bounds; `Defects`, `Rejection` and `RegistryRows` name bytes and offsets by value.
- Set and map iteration (`begin()` of a `std::set` of pointers, the walk over a `std::map`) is an arbitrary
  choice, so the results hold for every order; where the order decides, as in `open`, it is an input. Clock
  readings, the base allocator's answers, the outcome of a connection attempt and `atol` are parameters; where
  records are loaded, the clock is a function from the number of the reading to the time.

Main results:

- `Language.AcceptsExactlyTheGrammar`: a text is accepted if and only if it is a text of the grammar within
  the reader's limits, and then the events are those of its syntax tree.
- `Rejection.RejectsExactly`: a text is rejected with an error at an offset if and only if it breaks off there in
  the way that this error stands for.
- `RoundTrip.ParseAfterPrint` and `Accepting.SaveAndLoad`: printing a value and parsing the text, in either
  layout and in either mode, gives the value back.
- `Squeeze.PrettyStripsToCompact` and `Squeeze.WhitespaceDoesNotMatter`.
- `Readers.ParseStream`: both modes end the same way, with the same value.
- `Allocators.MemoryPoolAllocator.Realloc` and `Stacks.Stack.PushBytes`: live blocks stay apart, and keep
  their bytes.
- `Reloads.RecordsReloadExactlyIfClean` and `RegistryCaches.SavedCacheLoads`: what was saved comes back if and
  only if no name or host needs an escape. `CacheSpec.OverdueAreRemoved`.
- `ClientPools.ClientPool.Open` and every other method of the pool: the invariant over whole runs, where every
  client and every watch is, and the exact cases in which it is not kept.
- `LogSenders.EveryRunIsSafe` and `LogSenders.EveryRunAcknowledges`: order, bound and conservation under every
  interleaving, and that exactly what was sent is acknowledged.

Some promises do not hold as one would read them. Each has its exact condition, on what a caller can see
before the call, and an input or a run that shows it:

- `ClientPool::open` does not always return a client in use: it does not exactly when the pool is full and the
  first idle client is connected but was last used too long ago (`Open`, `ReusesTooLate`; the run is
  `ClientPools.ReopenedTooLate`).
- What `open` does after it released the lock keeps the pool sound exactly when the client is connected already,
  does not get its connection, is still in use or idle, or finds no watch to take over (`HandOut`; a run with
  two threads is `ClientPools.TwoOpeners`).
- Closing a client keeps the pool sound exactly when the client is in use (`Close`; the run is
  `ClientPools.ClosedAfterEviction`). Recording a watch keeps it sound exactly when the client is in use or
  idle (`Watch`; the run is `ClientPools.WatchedAfterEviction`).
- Records that are saved come back exactly when no name and no host has a quote, a backslash or a control
  byte, since these are written without escapes (`Reloads.RecordsReloadExactlyIfClean`); a first record
  named `"` loses the whole file (`Reloads.QuoteLosesAll`).
- `Malloc` keeps blocks apart, and inside the memory that the base allocator gave, exactly when neither the
  rounded size, nor its sum with what is taken, nor that of the header and a new chunk's capacity wraps
  (`Malloc`; `Allocators.NothingForMuch` and `Allocators.EightForMuch` are two sizes that do).
- A string that is parsed by copying stays whole exactly when it is shorter than 2^32 - 1 bytes; the assertion
  of the other mode lets one byte more pass (`Sizes.ModesPartAt`).

## Model

| member | source | states |
|---|---|---|
| Language.AcceptsExactlyTheGrammar | rapidjson/reader.h:221-328 | a NUL-free text is accepted if and only if a syntax tree of the grammar within the reader's limits has that text; then all of it is read, with the events of that tree |
| Language.ReadsRoot | rapidjson/reader.h:221-254 | the text of every readable tree with whitespace around it is read to its end |
| Language.FindsRoot | rapidjson/reader.h:221-254 | whatever is read has a syntax tree of the grammar |
| Language.TreePlace | rapidjson/reader.h:263-328 | a tree stands at a position exactly when its text does, and ends where the text ends |
| Language.TreeWithoutNul | rapidjson/reader.h:475-478 | no text of the grammar holds a NUL |
| Completeness.ReadsValue | rapidjson/reader.h:655-665 | every value of the grammar is read, with its own events, and the cursor stops right behind it |
| Completeness.ReadsMembers | rapidjson/reader.h:276-301 | a list of members is read to the closing brace, and counted |
| Completeness.ReadsElements | rapidjson/reader.h:318-327 | a list of elements is read to the closing bracket, and counted |
| Completeness.ReadsString | rapidjson/reader.h:387-481 | a string of characters and escapes gives the bytes they denote |
| Completeness.ReadsNumber | rapidjson/reader.h:484-651 | a numeral is read to its last character, with the event for its value |
| Soundness.FindsValue | rapidjson/reader.h:655-665 | where a value is read, one of the grammar stands, and the events are its events |
| Soundness.FindsMembers | rapidjson/reader.h:276-301 | what the member loop reads is a list of members |
| Soundness.FindsElements | rapidjson/reader.h:318-327 | what the element loop reads is a list of elements |
| Soundness.FindsString | rapidjson/reader.h:387-481 | what is read as a string is one, and no high surrogate stands alone in it |
| Soundness.FindsNumber | rapidjson/reader.h:484-651 | what is read as a number is a numeral without a leading zero, within the limits |
| Rejection.RejectsExactly | rapidjson/reader.h:221-328 | for every text, error and offset: the text is rejected with this error at this offset if and only if it breaks off so; empty, without a bracket at its start, with more behind its end, or inside, told by a tree of the whole values, members and elements before the break |
| Rejection.BreakFails | rapidjson/reader.h:655-665 | a value that breaks off at any depth, behind any members and elements, is reported with the error of its innermost break |
| Rejection.FindsBreak | rapidjson/reader.h:655-665 | whatever is reported, the value breaks off there in the way the error stands for |
| Rejection.LeafFails | rapidjson/reader.h:331-362 | a word fails at its first wrong letter (one further for true), a string and a number as below, anything else is no value |
| Rejection.MembersFail | rapidjson/reader.h:276-301 | behind whole members: a name that is no string, a string that breaks off, a missing colon, a value that breaks off, or neither comma nor brace, each with its offset |
| Rejection.ElementsFail | rapidjson/reader.h:318-327 | behind whole elements: a value that breaks off, or neither comma nor bracket, with its offset |
| Defects.StringFailsExactly | rapidjson/reader.h:387-481 | a string fails if and only if, behind characters that are read, it ends, has a control character, an unknown escape, a bad hexadecimal digit, or a high surrogate without a low one; which of these, and the bytes there, give error and offset |
| Defects.NumberFailsExactly | rapidjson/reader.h:484-651 | a number fails if and only if it has no digit, none behind its dot or its e, or is too big; each with its offset |
| ReaderSpec.Parse | rapidjson/reader.h:221-254 | on success the cursor is inside the text or at its terminator |
| ReaderSpec.ParseValue | rapidjson/reader.h:655-665 | a value that is read moves the cursor forward and not past the terminator, which is also why the recursion ends |
| ReaderSpec.ParseString | rapidjson/reader.h:387-481 | a string that is read ends inside the text |
| ReaderSpec.ParseNumber | rapidjson/reader.h:484-651 | a number that is read ends inside the text |
| ReaderSpec.SkipWs | rapidjson/reader.h:101-107 | stops at the first byte that is not whitespace, at the latest at the terminator |
| ReaderSpec.SkipsExactly | rapidjson/reader.h:101-107 | what is passed are spaces, line feeds, carriage returns and tabs, and none of them is left |
| Readers.Reader.SkipWhitespace | rapidjson/reader.h:101-107 | the cursor ends where the specification says |
| Readers.Reader.ParseHex4 | rapidjson/reader.h:365-384 | the value of four hexadecimal digits, or the offset of the first bad one |
| Readers.Reader.ParseUnicode | rapidjson/reader.h:403-418 | the code point of a \u escape or of a surrogate pair, or the error and its offset |
| Readers.Reader.ParseTurn | rapidjson/reader.h:398-478 | one turn of the string loop, as specified |
| Readers.Reader.PutAll | rapidjson/rapidjson.h:499-500 | in place, the bytes written do not pass the read cursor: all text still to be read and all strings handed over before stay as they were |
| Readers.Reader.CloseString | rapidjson/reader.h:453-467 | the string is closed by a NUL and handed over, as bytes or as a place in the buffer that holds these bytes |
| Readers.Reader.ParseString | rapidjson/reader.h:387-481 | one event with the decoded bytes, or the error; in both modes what the specification says |
| Readers.Reader.ParseWhole32 | rapidjson/reader.h:502-526 | the 32-bit accumulator never wraps; it stops before the first digit that does not fit |
| Readers.Reader.ParseWhole64 | rapidjson/reader.h:532-552 | the 64-bit accumulator never wraps; it stops before the first digit that does not fit |
| Readers.Reader.ParseBig | rapidjson/reader.h:554-566 | the digits beyond 64 bits are read to their end, unless the double gets too big before the last one |
| Readers.Reader.ParseWhole | rapidjson/reader.h:493-566 | the integer part: its exact value in the smallest accumulator, or that no accumulator holds it |
| Readers.Reader.ParseNumber | rapidjson/reader.h:484-651 | the event and the cursor are what the specification says |
| Readers.Reader.ParseValue | rapidjson/reader.h:655-665 | the same for every value, with exactly one value more on the document's stack |
| Readers.Reader.ParseObject | rapidjson/reader.h:263-302 | as specified; the stack below the object is unchanged |
| Readers.Reader.ParseMembers | rapidjson/reader.h:276-301 | the count given to EndObject is half of what was pushed, names and values in turn |
| Readers.Reader.ParseArray | rapidjson/reader.h:305-328 | as specified; the stack below the array is unchanged |
| Readers.Reader.ParseElements | rapidjson/reader.h:318-327 | the count given to EndArray is what was pushed |
| Readers.Reader.Parse | rapidjson/reader.h:221-254 | a successful parse leaves exactly one value on the document's stack |
| Readers.ParseStream | rapidjson/document.h:709-724 | in both modes: the same outcome, the same error and offset, and a root that, strings in the buffer resolved, is the value built from the specified events; the copying mode leaves the buffer alone; the assertion on one root holds |
| Handover.StillMean | rapidjson/reader.h:453-458 | bytes written at or behind a limit leave every string handed over before it intact |
| Handover.RunMeans | rapidjson/document.h:769-797 | the document built from strings in the buffer resolves to the document built from their bytes |
| Documents.Document.EndObject | rapidjson/document.h:787-790 | names and values in turn above the base become the fields of the object on top, in order; the rest of the stack stays |
| Documents.Document.EndArray | rapidjson/document.h:794-797 | the values above the base become the elements, in order; the rest of the stack stays |
| Documents.Document.String | rapidjson/document.h:778-783 | pushes the string and nothing else |
| Documents.Document.Int | rapidjson/document.h:772-775 | pushes the number with its canonical flags |
| Documents.Document.Finish | rapidjson/document.h:711-722 | the one value becomes the root, or the error is stored; the stack is empty either way |
| Builds.BuildsValue | rapidjson/document.h:769-797 | running the events of a tree leaves the old stack with exactly the tree's value on top |
| Builds.StackDiscipline | rapidjson/reader.h:655-665 | each value that is read leaves the old stack unchanged with exactly one value more |
| Dom.FlagsAreCanonical | rapidjson/document.h:77-113 | each flag is set exactly when the value fits its type, and the bits are the value's in two's complement, so equal integers are equal numbers whichever constructor built them |
| Dom.MasksTestBounds | rapidjson/document.h:84-112 | the constructors' masks are exactly the bounds of the types |
| Dom.AcceptSendsTheValue | rapidjson/document.h:520-526 | the dispatch always sends the stored value, in the first type that holds it |
| Integers.IntegerLiterals | rapidjson/reader.h:484-566 | Int if and only if signed with magnitude at most 2^31, Int64 if and only if signed and in (2^31, 2^63], Uint if and only if unsigned and below 2^32, Uint64 if and only if unsigned and in [2^32, 2^64), always the exact value; a longer literal is a double with all its digits, unless the double of a proper prefix that overflows 64 bits with its next digit is at least 1E307: exactly then it is too big |
| Integers.TooBigExactly | rapidjson/reader.h:554-611 | any numeral is too big if and only if such a prefix is, or its exponent exceeds 308; every other one is read to its end |
| Integers.PrintedIntegersAreRead | rapidjson/writer.h:115-157 | every 64-bit integer, printed and read, is the same integer |
| Decimal.ValDigits | rapidjson/writer.h:123-135 | the digits of a number denote it, and do not begin with a zero |
| Decimal.FirstDigitCounts | rapidjson/reader.h:502-526 | the first digit of a string counts as much as its place says, for the digits 0x30 to 0x39 |
| Writers.DigitsFit | rapidjson/writer.h:124-146 | a number below 10^k has at most k digits, so the buffers of 10 and 20 bytes suffice |
| Writers.Writer.WriteDigits | rapidjson/writer.h:123-157 | the digit loops put exactly the digits, and stay inside the buffer |
| Writers.Writer.WriteUint | rapidjson/writer.h:123-135 | ten bytes are enough for every unsigned int |
| Writers.Writer.WriteUint64 | rapidjson/writer.h:145-157 | twenty bytes are enough for every uint64_t |
| Writers.Writer.WriteInt | rapidjson/writer.h:115-121 | sign and magnitude of every int, the least one included |
| Writers.Writer.WriteInt64 | rapidjson/writer.h:137-143 | sign and magnitude of every int64_t, the least one included |
| Writers.Writer.Double | rapidjson/writer.h:160-170 | the bytes that `%g` gives, with their separators |
| Writers.Writer.WriteString | rapidjson/writer.h:172-202 | the text of the string's characters between quotes |
| Writers.Writer.Prefix | rapidjson/writer.h:209-225 | a comma before a further entry, a colon before a member's value, nothing before a first one; one value more is counted |
| Writers.Writer.WriteIndent | rapidjson/prettywriter.h:145-148 | as many indent characters as there are open brackets, times the count, and nothing else |
| Writers.Writer.StartObject | rapidjson/prettywriter.h:58-63 | opens a level that holds nothing yet |
| Writers.Writer.EndObject | rapidjson/prettywriter.h:65-77 | closes the innermost level, on a new line unless it is empty |
| Writers.Writer.EndArray | rapidjson/prettywriter.h:86-98 | closes the innermost level, on a new line unless it is empty |
| Accepting.Accept | rapidjson/document.h:493-529 | the writer's text grows by exactly the text of the value, in its layout, with strings from the value or from the buffer it was parsed in; without doubles, that is the text of its syntax tree; one value more is counted; the calls made are those of the value |
| Accepting.AcceptNumber | rapidjson/document.h:520-526 | whatever type an integer is dispatched to, its decimal text is written; a double is written as `%g` shows it |
| Accepting.AcceptMember | rapidjson/document.h:502-505 | a name and its value, with their separators |
| Accepting.AcceptMembers | rapidjson/document.h:502-505 | the members of an object, in order, with their separators |
| Accepting.AcceptElements | rapidjson/document.h:511-512 | the elements of an array, in order, with their separators |
| Accepting.Print | rapidjson/document.h:493-529 | at the root, the text is that of the value; without doubles, that of its syntax tree |
| Accepting.Reprint | rapidjson/document.h:493-529 | any accepted text, parsed in either mode and printed, gives the text of the value that was read |
| Accepting.SaveAndLoad | rapidjson/document.h:493-529 | print a value and parse the text, in any layout and mode: the outcome is that of the printed text; without doubles, no error and the same value |
| Writing.WrittenIsTree | rapidjson/document.h:493-529 | what is written entry by entry for a value without doubles is the text of the syntax tree in its layout |
| Writing.LaidOut | rapidjson/prettywriter.h:58-148 | the pretty text of a nested value byte for byte, for every indent character and count: each line starts with the indentation of its open brackets |
| Writing.ElementsLaidOut | rapidjson/prettywriter.h:86-148 | the same for three elements at any depth and in both styles |
| Writing.WrittenEnds | rapidjson/document.h:493-529 | no text that is written holds a NUL |
| Writing.ReadIsPrintable | rapidjson/document.h:772-783 | every value that a text denotes is one that the writers print: its numbers have the constructors' flags |
| Accepting.Clones | rapidjson/document.h:486-529 | the calls that Accept makes push a copy of the value on a document that handles them |
| RoundTrip.ParseAfterPrint | rapidjson/writer.h:102-225 | for every object or array of strings, booleans, nulls and integers, parsing the printed text gives that value: order, duplicate names, every byte of every string, exact integers |
| RoundTrip.StringRoundTrip | rapidjson/writer.h:172-202 | for every byte string, reading the written text gives that string, and the cursor stops just behind the closing quote |
| RoundTrip.EscapesInvert | rapidjson/writer.h:174-187 | the escape tables of writer and reader are inverse on everything the writer escapes |
| RoundTrip.EscapesSpelledOut | rapidjson/writer.h:174-199 | the bytes put for every byte of a string: six of them with a letter behind a backslash, other control bytes with four digits in upper case, the rest unchanged |
| RoundTrip.NumbersInvert | rapidjson/writer.h:115-157 | the digits of an integer give the number that every constructor builds from it |
| RoundTrip.TreesInvert | rapidjson/writer.h:41-88 | the tree that a writer lays out denotes the value, whatever the layout, and is within the reader's limits |
| Rendering.Renders | rapidjson/writer.h:102-207 | writing a tree piece by piece behind other text appends the text of the tree |
| Squeeze.PrettyStripsToCompact | rapidjson/prettywriter.h:58-148 | for every value, indent character and count, deleting the whitespace outside strings from the pretty text gives the compact text |
| Squeeze.WhitespaceDoesNotMatter | rapidjson/reader.h:101-107 | any accepted text, without its whitespace outside strings, is accepted with the same events |
| Squeeze.StripsTree | rapidjson/reader.h:263-328 | deleting that whitespace from the text of a tree leaves the text of the same tree without gaps |
| Sizes.ShortTextsFit | rapidjson/reader.h:263-481 | in a text shorter than 2^32 bytes, accepted or not, no length of a string and no count of members or elements wraps in 32 bits |
| Sizes.CharsWithin | rapidjson/reader.h:387-481 | a string has no more bytes than its text |
| Sizes.ModesPartAt | rapidjson/reader.h:453-467 | copying keeps a string whole if and only if it has fewer than 2^32 - 1 bytes; with exactly that many, the in-place mode still accepts it |
| Utf.FieldsAddUp | rapidjson/rapidjson.h:338-360 | on 32 bits, the shifted, masked and or-ed fields are the sums of quotients and remainders, for UTF-8 and for surrogate pairs |
| Utf.DigitTables | rapidjson/reader.h:365-384 | the hexadecimal digits in both cases, each at the place of its value |
| Utf.Encode | rapidjson/rapidjson.h:338-360 | the buffer holds the UTF-8 bytes of the code point |
| Unicode.DecodesFirst | rapidjson/rapidjson.h:338-360 | the encoding of a code point can be decoded from the front of any text |
| Unicode.PrefixFree | rapidjson/rapidjson.h:338-360 | no encoding is a prefix of another one, so UTF-8 is injective (section 3 of RFC 3629) |
| Unicode.UniquelyDecodable | rapidjson/rapidjson.h:338-360 | bytes encode at most one sequence of code points |
| Unicode.EscapeDenotes | rapidjson/rapidjson.h:373-385 | the escape or surrogate pair of a code point's UTF-16 units (section 2.1 of RFC 2781) denotes its UTF-8 bytes |
| Unicode.EscapeFor | rapidjson/rapidjson.h:373-385 | every code point outside D800-DFFF has such an escape |
| Unicode.ReadsEscapedText | rapidjson/reader.h:403-431 | a string of escaped code points, in any spelling of the digits, is read as their UTF-8 bytes |
| Allocators.RoundingIsSafe | rapidjson/rapidjson.h:236-236 | rounding a size up to 4 gives too little exactly for the last three sizes |
| Allocators.FitTestIsExact | rapidjson/rapidjson.h:238-238 | the test for room in a chunk is right if and only if its sum does not wrap |
| Allocators.OthersAreCutShort | rapidjson/rapidjson.h:236-238 | a size whose sum wraps passes the test for room, and less is taken than was asked for |
| Allocators.ChunkIsGranted | rapidjson/rapidjson.h:281-287 | a new chunk lies in memory of its own if and only if the request for it, header included, does not wrap; otherwise its capacity reaches beyond all memory |
| Allocators.MemoryPoolAllocator.constructor | rapidjson/rapidjson.h:168-174 | one empty chunk and no blocks, sound if and only if the request does not wrap |
| Allocators.MemoryPoolAllocator.AddChunk | rapidjson/rapidjson.h:281-287 | for every capacity: the new chunk becomes the head, no block is affected; the layout stays sound if and only if the request does not wrap |
| Allocators.MemoryPoolAllocator.Malloc | rapidjson/rapidjson.h:235-246 | for every size: where the block lies and what is taken; the layout (blocks inside one chunk, at multiples of 4, apart from each other, chunks inside granted memory) stays sound if and only if no sum wraps, that of header and capacity included |
| Allocators.NothingForMuch | rapidjson/rapidjson.h:236-243 | the greatest size gets a block for which no room is taken |
| Allocators.EightForMuch | rapidjson/rapidjson.h:281-287 | a great size for which eight bytes are asked of the base allocator, and nearly all there can be are recorded |
| Allocators.MemoryPoolAllocator.GrowInPlace | rapidjson/rapidjson.h:257-265 | for every new size: extends a block if and only if it ends where the head's taken bytes end and the test for room passes; the layout stays sound if and only if it did not, or no sum wrapped in the test |
| Allocators.MemoryPoolAllocator.Move | rapidjson/rapidjson.h:268-271 | the old bytes are copied to a block of its own; every other live block keeps its bytes |
| Allocators.MemoryPoolAllocator.Realloc | rapidjson/rapidjson.h:249-272 | the old bytes are a prefix of the new block, whether it grew in place or moved; every other live block keeps its place and bytes; all stay apart |
| Allocators.BeyondAllBlocks | rapidjson/rapidjson.h:241-243 | what starts at the end of the taken bytes, or extends the block that ends there, overlaps no other live block |
| Allocators.LastBlockIsInHead | rapidjson/rapidjson.h:257-258 | the address comparison of Realloc holds only for blocks of the head chunk |
| Stacks.Stack.constructor | rapidjson/internal/stack.h:16-22 | an empty stack in a block of its own |
| Stacks.Stack.Push | rapidjson/internal/stack.h:32-48 | room on top; everything below is still there, however often the stack moved; top does not pass the end; the stack grows if and only if the room reaches its end, to twice the capacity or to what is needed |
| Stacks.Stack.Expand | rapidjson/internal/stack.h:35-44 | the contents move unchanged to a block of at least twice the capacity with enough room |
| Stacks.Stack.PushBytes | rapidjson/internal/stack.h:32-48 | the contents grow by exactly the value pushed |
| Stacks.Stack.Pop | rapidjson/internal/stack.h:51-55 | the block on top comes off, unchanged |
| Stacks.Stack.Clear | rapidjson/internal/stack.h:29-29 | nothing is left |
| Registries.SerializeOne | core/Registry.cpp:67-75 | the pieces written make up the text of one record, its keys and separators given byte for byte |
| Registries.Serialize | core/Registry.cpp:131-144 | the text of all records, by the loop that looks at the length written so far |
| Registries.OneMoreRecord | core/Registry.cpp:131-144 | one record more stands behind a comma and a line feed, before the closing bracket; no record at all gives the two brackets |
| RegistryTexts.RecordsRender | core/Registry.cpp:131-144 | the text that is written by hand is JSON, if no name or host needs escapes |
| RegistryLoads.Unserialize | core/Registry.cpp:146-177 | the records of the parsed array, each with its own two readings of the clock; nothing if it does not parse; a failed assertion for an element that is no object or a name that is no string |
| RegistryLoads.SavedRecordsLoad | core/Registry.cpp:131-177 | for every vector of clean names and hosts, every 32-bit port and whatever weights, the same names, hosts and ports come back in the same order |
| RegistryRows.StringPortsLoad | core/Registry.cpp:146-177 | for every text of an array, however laid out and escaped: records with string ports load in order with name, host and the number of the port; elements without one of the three members, or with another kind of port, change nothing |
| RegistryRows.ReadsObject | core/Registry.cpp:152-172 | an object with all three members is read by the first of each name: int and string ports, other ports passed over, and a failed assertion for a name or host that is no string |
| RegistryRows.ReadsNothing | core/Registry.cpp:152-157 | an object without one of the members is passed over; what is no object fails an assertion |
| RegistryRows.FindsFirst | rapidjson/document.h:618-629 | the first of several members with the same name is found |
| RegistryRows.BadElementAborts | core/Registry.cpp:152-172 | one bad element, behind any others, fails the assertion for the whole text |
| RegistryRows.OthersLoadNothing | core/Registry.cpp:146-151 | an object at the root, or a text that is rejected, loads nothing |
| RecordPieces.TextIsPieces | core/Registry.cpp:67-144 | the text of saved records, cut at the quotes around names, hosts and keys, is twelve pieces for each record |
| RecordTokens.EndsOrCrosses | rapidjson/reader.h:398-478 | a string that starts in an unescaped name ends within it, with fewer bytes unless that stretch is clean, or takes the closing quote for its own |
| RecordTokens.ValueInSlot | core/Registry.cpp:67-75 | a value found in a name or host is shorter than it, unless it is all of it and clean |
| RecordTokens.ValueIsWithin | core/Registry.cpp:67-144 | every string value that the reader can find in the text of records is a colon or lies in a name or a host |
| Reloads.RecordOccurs | core/Registry.cpp:146-177 | name and host of every record that is loaded are read from string values of the text |
| Reloads.NoneIsUnclean | core/Registry.cpp:67-144 | if every name and host is read from some string of the text, none has a character that needs an escape |
| Reloads.RecordsReloadExactlyIfClean | core/Registry.cpp:131-177 | for every vector, every 32-bit port and whatever weights: loading what was saved gives the same names, hosts and ports in the same order if and only if all names and hosts are clean |
| Reloads.QuoteLosesAll | core/Registry.cpp:131-177 | if the first record's name is a quote, nothing at all is loaded, whatever the other records are |
| FieldTexts.ReadsBackExactlyIfClean | core/Registry.cpp:69-70 | a string written between quotes without escapes comes back if and only if it has no quote, no backslash and no control character |
| FieldTexts.FallsBehind | rapidjson/reader.h:398-478 | once an escape was read, what comes out stays behind the text, so it never equals it |
| CacheSpec.AddedKeeps | core/RegistryCache.cpp:24-54 | records stand under their own name and no two are equal; the new one comes last in place of what equals it; an incomplete one changes nothing; other names stay |
| CacheSpec.LastIsThere | core/RegistryCache.cpp:24-54 | of several records that are added, the last one of each kind is there in the end |
| CacheSpec.StaysAdded | core/RegistryCache.cpp:24-54 | a record stays while others are added, unless one of them equals it |
| CacheSpec.RemovedKeeps | core/RegistryCache.cpp:103-123 | what equals the record is gone, the others stay in order, and the name goes with the last of them |
| CacheSpec.OnePlace | core/RegistryCache.cpp:110-117 | the equal record is taken out from where it stands; what is before and behind it stays as it is |
| CacheSpec.FirstEphemeralGoes | core/RegistryCache.cpp:68-75 | exactly the first record with the ephemeral name goes |
| CacheSpec.RemovedEphemeralKeeps | core/RegistryCache.cpp:56-78 | all names stay, even with no record left; of this name exactly the first record with the ephemeral name goes; with no such record, an unknown name or an empty argument nothing changes; the invariant is kept |
| CacheSpec.OverdueAreRemoved | core/RegistryCache.cpp:81-101 | removing the overdue records one by one, in any order, leaves exactly the others in their old order, and drops each name that it empties |
| CacheSpec.PrunedIs | core/RegistryCache.cpp:81-101 | a name stays if it had no record or keeps one; it keeps exactly the records that are not older than the time, in their order |
| RegistryCaches.RegistryCache.Add | core/RegistryCache.cpp:24-54 | by a search in place: a complete record comes last, the equal one is taken out from where it stands, all others stay; an incomplete one changes nothing |
| RegistryCaches.RegistryCache.RemoveInstance | core/RegistryCache.cpp:56-78 | exactly the first record of the name with this ephemeral name is taken out from where it stands; the name stays, even with no record left, and so does every other vector; otherwise nothing changes |
| RegistryCaches.RegistryCache.Remove | core/RegistryCache.cpp:103-123 | the equal record is taken out from where it stands, and the name goes if and only if it was the last one; all else stays |
| RegistryCaches.RegistryCache.RemoveService | core/RegistryCache.cpp:125-129 | the name and its records are gone |
| RegistryCaches.RegistryCache.CollectOverdue | core/RegistryCache.cpp:84-94 | collects a record if and only if it is in the cache and older than the time |
| RegistryCaches.RegistryCache.RemoveOverdue | core/RegistryCache.cpp:81-101 | every vector keeps exactly its timely records in order; a name that loses its last record is dropped, an empty one stays |
| RegistryCaches.RegistryCache.Save | core/RegistryCache.cpp:227-239 | the text of all records, name by name, each name once, each record with its own weight |
| RegistryCaches.RegistryCache.FromFile | core/RegistryCache.cpp:182-199 | the last record of each kind in the text is in the cache, marked as from a file, with its own reading of the clock as both times; what was there stays unless a loaded record equals it; nothing else is added; a text that fails an assertion changes nothing |
| RegistryCaches.SavedCacheLoads | core/RegistryCache.cpp:182-239 | saving a cache and loading it into an empty one brings back every name that has a record, with the same names, hosts and ports in order, if and only if no name or host needs an escape |
| RegistryCaches.SaveAndReload | core/RegistryCache.cpp:182-239 | the same through save and from_file themselves |
| StateBags.StateBag.Add | core/ClientPool.h:67-75 | a new key is recorded; a known one keeps its payload and gets the new owner |
| StateBags.StateBag.Remove | core/ClientPool.h:77-88 | exactly this key is gone |
| StateBags.StateBag.ReplaceOwnerOf | core/ClientPool.h:98-103 | only the owner of this key changes |
| StateBags.StateBag.ReplaceClientId | core/ClientPool.h:105-111 | exactly the states of one owner get the other one, whatever the order of the walk; keys and payloads stay |
| StateBags.OnlyOwnersChange | core/ClientPool.h:105-111 | exactly the states of the given owners change hands: no key is lost or made, and every payload stays |
| StateBags.StateBag.ResetClientId | core/ClientPool.h:113-117 | nobody owns anything; keys and payloads stay |
| StateBags.NewOwner | core/ClientPool.h:105-111 | after what nobody owned went to a new owner, every owner is a client of the pool if and only if the new one is, or nothing went |
| StateBags.OwnersWith | core/ClientPool.h:67-75 | when one key changes, every owner is still a client of the pool if and only if the new owner is |
| StateBags.StateBag.Get | core/ClientPool.h:120-128 | exactly the states of this owner |
| Clients.TimedOutExactly | core/ClientPool.cpp:83-83 | the unsigned difference exceeds the timeout exactly when that much time has passed, or the time of use lies ahead and not too far |
| Clients.FreedIs | core/ClientPool.cpp:43-105 | what becomes of every watch when clients are retired and another one takes over: same keys, same payloads, and whose each is |
| Clients.BusyIs | core/ClientPool.cpp:173-188 | the clients left are exactly those that somebody uses, in their old order |
| Clients.Client.SetInUsing | core/ClientPool.cpp:273-282 | the counter goes up or down by one |
| Clients.UsingToDestroy | core/ClientPool.cpp:84-88 | a client that leaves those in use for the destroy list, its states given to nobody, leaves the pool arranged: each client in one place, bounded, distinct ids, states owned by clients of the pool |
| Clients.QueuedAlready | core/ClientPool.cpp:127-135 | a client that waits to be destroyed cannot become idle or wait a second time without breaking this |
| ClientPools.ClientPool.constructor | core/ClientPool.cpp:29-35 | an empty pool with the invariant |
| ClientPools.ClientPool.DestroyClients | core/ClientPool.cpp:173-188 | by force all, otherwise exactly those that nobody uses, leave the destroy list, the others in order |
| ClientPools.ClientPool.OnClientClosing | core/ClientPool.cpp:122-140 | for every client and event: no client, or another event, changes nothing; a closing client leaves those in use, for the idle ones if connected, else for the destroy list, and then nobody owns its states, which keep their keys and payloads |
| ClientPools.ClientPool.Close | core/ClientPool.cpp:122-140 | the same for any client of the pool, its counter going down first; the invariant is kept if and only if the client was in use |
| ClientPools.ClosedAfterEviction | core/ClientPool.cpp:122-140 | a run in which a client is closed after an eviction, and is then idle and waiting to be destroyed at once |
| ClientPools.ClientPool.FirstConnected | core/ClientPool.cpp:51-67 | the idle clients before the first connected one, in the order of the walk, go to the destroy list in that order, and their watches to nobody; those behind it stay idle, and all other watches stay |
| ClientPools.ClientPool.Reuse | core/ClientPool.cpp:51-67 | the first connected idle client is taken into use, if there is one; those before it wait to be destroyed, and exactly their watches belong to nobody |
| ClientPools.ClientPool.Create | core/ClientPool.cpp:69-74 | a new client, in use, with an id never given out before |
| ClientPools.ClientPool.EvictTimedOut | core/ClientPool.cpp:75-95 | exactly the clients in use whose time is over are taken away; each of them is appended to the destroy list once, counted out, and exactly their watches belong to nobody |
| ClientPools.ClientPool.Obtain | core/ClientPool.cpp:47-98 | the locked part of open: who is in use, idle and waiting to be destroyed afterwards, and whose the watches are |
| ClientPools.ClientPool.Open | core/ClientPool.cpp:43-105 | the client returned is the first connected idle one, else a new one with the next id if there is room, else none; the new contents of all three collections; what is returned is not in use if and only if the pool was full and the first idle client was connected but timed out; no watch is lost: those of retired clients belong to nobody, or to a new client that connects; all other clients keep their times and connections; the invariant is kept |
| ClientPools.ClientPool.HandOut | core/ClientPool.cpp:100-104 | what open does without the lock, for any client: its time of use, its connection, the watches it takes over, and the exact condition for the invariant |
| ClientPools.TwoOpeners | core/ClientPool.cpp:43-105 | a run of two threads: the client that the first one made is evicted by the second before it is handed out, and then takes over a watch while it waits to be destroyed |
| ClientPools.ReopenedTooLate | core/ClientPool.cpp:75-103 | a run of a pool of one, in which open returns a client that is not in use but waits to be destroyed |
| ClientPools.ClientPool.Connect | core/ClientPool.cpp:100-103 | a client that gets its connection takes over what nobody owned; the invariant is kept if and only if it is in use or idle, or there was nothing to take |
| ClientPools.ClientPool.Watch | core/ClientPool.h:67-75 | a client owns what it records, whoever it is, and other watches stay; the invariant is kept if and only if it is in use or idle |
| ClientPools.WatchedAfterEviction | core/ClientPool.h:67-75 | a run in which a client records a watch after its eviction: it belongs to no client of the pool |
| ClientPools.ClientPool.Abandon | core/ClientPool.h:98-103 | exactly this watch is given to nobody |
| ClientPools.ClientPool.Reset | core/ClientPool.cpp:143-170 | nothing is left in use, idle or to destroy; every watch stays, with its payload, and nobody owns it |
| ClientPools.ClientPool.Surrender | core/ClientPool.cpp:144-158 | the destroy list afterwards holds exactly those that were on it, first and in order, and those in use or idle; every watch stays, with its payload, and nobody owns it |
| LogSenders.EveryRunIsSafe | log/scribe_log.cpp:131-195 | for every run of writers and worker: queue and message under way are at most the limit plus one; acknowledged, under way and queued together are in the order of writing; with what was dropped they are exactly what was written |
| LogSenders.EachStep | log/scribe_log.cpp:131-195 | what each action does to each place: a sent message is acknowledged and leaves the list alone, a failed one goes back in front, the first one is taken, a written one comes last and may push out the oldest |
| LogSenders.EveryRunAcknowledges | log/scribe_log.cpp:131-195 | for every run: what was acknowledged is what was under way at each successful send, in that order, and as many messages as there were such sends |
| LogSenders.StepKeeps | log/scribe_log.cpp:131-195 | each step keeps this |
| LogSenders.FailedMessageGoesBack | log/scribe_log.cpp:146-150 | a message that failed always passes the test for being put back |
| LogSenders.LossOnlyWhenFull | log/scribe_log.cpp:186-191 | a message is lost if and only if one is written while the list is full, and it is the oldest on the list |
| LogSenders.BufferedLogSender.Write | log/scribe_log.cpp:179-195 | the message comes last; the first one goes if and only if the list is then over the limit |
| LogSenders.BufferedLogSender.TakeFirst | log/scribe_log.cpp:135-144 | the worker takes the first message, if there is one, and the others stay |
| LogSenders.BufferedLogSender.Sent | log/scribe_log.cpp:145-155 | a message that was sent is acknowledged and the list stays; one that failed is back in front, and nothing more is acknowledged; none is dropped |

## Left out

- Doubles: their values and `Pow10`. A literal with a fraction or exponent gives an opaque event with its text; what `%g` prints for it is any text without a NUL (it may be `inf`), so no round trip holds for it.
- Undefined negation at the least integer (rapidjson/reader.h:638, rapidjson/reader.h:644, rapidjson/writer.h:118, rapidjson/writer.h:140): modelled as two's-complement wrap.
- Lone low surrogates, which the reader accepts and encodes as three bytes, and bytes that are not UTF-8: the reader does not check them; the model lets them through as the code does, and the Unicode claims are about code points outside D800-DFFF.
- SSE whitespace skipping, wide characters, byte order of the number union, `SkipBuffer`.
- SizeType: counts and lengths are unbounded in the rest of the model; `Sizes` says for which texts that makes no difference.
- Strings in the buffer: a document parsed in place is proved equal to the copied one right after the parse, and printing one takes the buffer as it is then; later writes to the buffer by its owner are not modelled.
- The handler of the reader is the document, and Accept drives a writer; other handlers are not modelled. The pretty writer is the writer with a layout, not a subclass.
- Document members other than parsing, printing and `FindMember`: AddMember, PushBack, RemoveMember, the swapping assignment, `GenericValue(kNumberType)`.
- Memory of the reader's and the document's stacks: these are sequences in `Readers` and `Documents`; `Stacks` and `Allocators` are separate models of what is underneath.
- The user-supplied first buffer of the allocator, Clear and destructors; the linked list of chunks is a sequence.
- Allocators.MemoryPoolAllocator.Move: asks that no sum wraps, since copying into a block that was cut short is undefined; `Malloc` says what the wrap does before that.
- Allocators.MemoryPoolAllocator.Realloc: asks that the size passed in is the size of the block, as its comment does, and that no sum wraps, as Move does.
- Stacks.Stack.Push: asks that no size wraps on 64 bits, since what it then copies to is undefined.
- Stacks.Stack.Expand: the same.
- Stacks.Stack.PushBytes: the same.
- ClientPool closes of clients that were deleted already, and changes of the limits while running. The eviction loop compares an iterator that it has erased with `end()`; the model takes them for different, so the loop goes on.
- ClientPool concurrency: each method is one step, and open is two, `Obtain` with the lock and `HandOut` without it. A client's counter goes down just before the pool's lock is taken in close; another thread between these two is not modelled.
- ZooKeeper: connecting succeeds or not; of restoring watches only the change of owner is modelled.
- StateBag payloads: the object behind a key is a value; the memory leaked for a known key is not modelled.
- RegistryCache.replace, which on a known name only clears the vector; exists, get and dump; races between the two lock sections of remove_overdue; file access.
- Registry.weight is a parameter; `atol` too.
- RegistryLoads.SavedRecordsLoad: one direction; `Reloads.RecordsReloadExactlyIfClean` has both.
- BufferedLogSender: a limit that is changed while running, the sleeping loop, the network.
