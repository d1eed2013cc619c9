# Verified model of the sensor data backend

A Dafny model of a service that takes sensor packets from Modbus TCP, hands them through a lock-free
buffer pipe to a PostgreSQL writer, and brings its own arena and string library, thread layer and JSON
library. `dafny verify dfyconfig.toml` checks everything.

| file | what it models |
|---|---|
| `Options.dfy`, `Sequences.dfy`, `Bytes.dfy` | what the other modules share: optional values, regrouping of sequences, byte order |
| `SensorDataPipe.dfy` | the buffer pipe as a machine of atomic steps with a program counter per side; eventfd reads drain their counter |
| `EndToEnd.dfy` | the Modbus receive loop and the PostgreSQL insert loop on the two sides of one pipe |
| `ConnectionRun.dfy` | what a run of these loops does with the packets that arrive, and that it can always be finished |
| `BulkProducer.dfy`, `ProducerRun.dfy` | the producer that pushes a whole file: its loop on the writer's view, and step by step inside the concurrent pipe |
| `JsonString.dfy` | escaping and unescaping of JSON strings, \u escapes, UTF-8, the two-pass sizes |
| `JsonText.dfy`, `JsonRoundTrip.dfy` | printing and parsing as functions on text, and that the parser undoes the printer |
| `JsonGrammar.dfy`, `JsonSyntax.dfy`, `JsonLanguage.dfy` | JSON by the grammar of RFC 8259 and by the wider one of the parser; that the parser accepts exactly the latter, and what its texts mean |
| `JsonPrinter.dfy`, `JsonParser.dfy` | the print buffer and the parse buffer, advanced in place, and the nodes the parser builds, proved against those functions |
| `JsonError.dfy` | where a failed parse stops, and what the reported position means |
| `JsonMinify.dfy` | the in-place minifier, and exactly when it turns the formatted print into the unformatted one |
| `JsonDocument.dfy` | whole documents: printing, minifying and parsing in memory, one after the other |
| `JsonList.dfy` | sibling lists on the heap |
| `JsonTree.dfy` | whole trees on the heap: building and duplicating them |
| `JsonEquality.dfy`, `JsonCompare.dfy` | comparing trees of nodes, and what that means for the JSON values they stand for |
| `CopyEncoder.dfy` | table metadata, the binary COPY encoder and a decoder for PostgreSQL's format |
| `SdbString.dfy` | the arena, and strings whose header lies in the same memory |
| `ModbusFraming.dfy` | frames in a byte stream that arrives in pieces |
| `ThreadControl.dfy`, `ThreadCalls.dfy` | the stop protocol for any number of threads, and what its calls promise over whole runs |
| `ThreadGroup.dfy`, `GroupRun.dfy` | the thread group protocol, and what a whole run of it achieves |
| `CircularBuffer.dfy` | the circular buffer against a first-in-first-out sequence |

Objects that the source updates in place are classes whose methods are proved against functions or
sequences; the concurrent protocols are state machines over atomic steps, and their theorems are about
every reachable state, that is every interleaving.

Some things one might expect of the code are not true of it. The project then says exactly when they are,
mostly with a concrete case beside it:

- The reader gives its credit back before it has used its arena, so with two arenas the writer can clear
  the arena the reader is working on, and a packet can be lost. Three arenas are needed and suffice.
- A \u escape whose four characters are not hexadecimal is accepted as U+0000, which cuts the string short.
- A number of more than 63 characters is cut, also where RFC 8259 allows it.
- The parser takes all control characters for white space, and whatever `strtod` makes of the characters of a
  number for a number.
- `cJSON_InsertItemInArray` lets a list become its own child, and a node that is appended with a `next` from
  elsewhere leads the list into other nodes.
- `cJSON_Minify` takes the closing quote of a string that ends in a backslash for an escaped one.
- A duplicate of an object with two different values of one name does not compare equal to its source, nor
  does one of an object with an unnamed member, of a string without a value or of an infinite number.
- An infinite number compares equal to every finite one.
- Detaching or replacing a node that is no child of the given parent can change the list of that parent.
- The buffer that `PgInsertData` allocates is too small for all but the smallest inserts.
- With a column of a type that the encoder does not handle, the receiver of the COPY stream never gets the
  rows: the bytes that are announced are not sent, or no value is announced at all.
- A string that outgrows its capacity while another one lies behind it in the arena writes over that one.
- `SdbStringMake` does not terminate a string made from an empty text.
- A read of zero bytes from a full circular buffer clears the full flag, and the buffer then looks empty.
- The documentation in `src/Libs/cJSON/cJSON.h` advises five spare bytes for `cJSON_PrintPreallocated`;
  the code needs exactly two more than the text has characters.
- Sender and receiver here count one padding byte that the Modbus standard does not have. A frame of
  standard length makes the receiver take a byte of the next one.

## Model

| member | source | states |
|---|---|---|
| `SensorDataPipe.StepWriter` | src/Common/SensorDataPipe.c:112-142 | one atomic access of the writer in a get or flush call; every index it holds stays an arena index |
| `SensorDataPipe.StepReader` | src/Common/SensorDataPipe.c:154-181 | one atomic access of the reader; every index it holds stays an arena index |
| `SensorDataPipe.Apply` | src/Common/SensorDataPipe.c:112-223 | any step of either side, a push included; blocked or interrupted steps keep the bounds as well |
| `SensorDataPipe.PushBytes` | src/Sdb.h:906-916 | a push that fits appends to the contents, one that does not changes nothing, and the memory keeps its size |
| `SensorDataPipe.AdvanceIsModulo` | src/Common/SensorDataPipe.c:116 | the wrapped index increment is the remainder the code computes |
| `SensorDataPipe.ControlOfStep` | src/Common/SensorDataPipe.c:112-223 | every step of every interleaving keeps the token, index and counter invariant |
| `SensorDataPipe.DataOfStep` | src/Common/SensorDataPipe.c:112-223 | every step keeps pushed bytes = taken arenas + published arena + current arena |
| `SensorDataPipe.WriterArenaIsFree` | src/Common/SensorDataPipe.c:112-142 | the arena the writer fills is neither the published one nor the snapshot the reader works on |
| `SensorDataPipe.OneToken` | src/Common/SensorDataPipe.c:56-76 | from the first acquisition on exactly one token circulates, acquisitions alternate strictly and the two sides are never both blocked |
| `SensorDataPipe.CounterIsDistance` | src/Common/SensorDataPipe.c:129-130 | FullBuffersCount never underflows and equals the distance of the indices modulo the number of arenas whenever both sides are outside a call |
| `SensorDataPipe.FifoOverEveryRun` | src/Common/SensorDataPipe.c:112-223 | in every reachable state what was pushed is what was taken, what is published and what is being filled, in order, with two or more arenas |
| `SensorDataPipe.ExclusiveUse` | src/Common/SensorDataPipe.c:112-181 | with three or more arenas the reader's arena is never being cleared or filled and keeps the contents it was acquired with |
| `SensorDataPipe.TwoArenasCollide` | src/Common/SensorDataPipe.c:139-140 | with two arenas a run exists in which the writer clears the arena the reader was just given |
| `SensorDataPipe.ExclusiveExactlyFromThree` | src/Common/SensorDataPipe.c:112-181 | exclusive use holds in every run if and only if there are at least three arenas |
| `SensorDataPipe.OneArenaDeadlocks` | src/Common/SensorDataPipe.c:74-76 | with one arena the first call of each side waits for the other |
| `SensorDataPipe.DeadlockFreeExactlyFromTwo` | src/Common/SensorDataPipe.c:74-76 | no run blocks both sides if and only if there are at least two arenas |
| `SensorDataPipe.StepRefinesHandoff` | src/Common/SensorDataPipe.c:112-223 | each atomic step is invisible or one whole append, publish or deliver of a channel with one place; only the index stores publish and deliver |
| `SensorDataPipe.WriterRefinesHandoff` | src/Common/SensorDataPipe.c:112-142 | a writer step publishes the current arena exactly when it stores the write index |
| `SensorDataPipe.ReaderRefinesHandoff` | src/Common/SensorDataPipe.c:154-181 | a reader step delivers the published arena exactly when it loads the read index |
| `EndToEnd.RoomForOne` | src/DataHandlers/ModbusWithPostgres/Modbus.c:148-153 | below the fill limit there is room for one whole packet |
| `EndToEnd.PushFits` | src/DataHandlers/ModbusWithPostgres/Modbus.c:202-203 | no push of the receive loop is refused, and it only extends the batch being filled |
| `EndToEnd.LimitFits` | src/DatabaseSystems/Postgres.c:331-333 | the fill limit is a positive multiple of the packet size within the arena |
| `EndToEnd.SafeAct` | src/DataHandlers/ModbusWithPostgres/Modbus.c:145-212 | every action of either loop keeps the invariant of the whole system |
| `EndToEnd.LoopAssertionsHold` | src/DataHandlers/ModbusWithPostgres/Modbus.c:148-153 | the assertion on the fill position, the unchecked push and the whole-number-of-packets assertion of the reader hold whenever they are reached |
| `EndToEnd.HeldIsNextToInsert` | src/DataHandlers/ModbusWithPostgres/Postgres.c:142-153 | in every reachable state the arena being inserted holds whole packets, they come right behind what was inserted before in the accepted bytes, and the size given to PgInsertData is theirs |
| `EndToEnd.PacketsAreConserved` | src/DataHandlers/ModbusWithPostgres/Postgres.c:142-154 | in every reachable state what was passed to PgInsertData is a prefix of the accepted payloads in order, and all of them once the final flush is drained |
| `EndToEnd.TwoArenasLoseAPacket` | src/DataHandlers/ModbusWithPostgres/Postgres.c:142-154 | with two arenas a run inserts a byte that is not the accepted one |
| `EndToEnd.ConservationExactlyFromThree` | src/DataHandlers/ModbusWithPostgres/Postgres.c:142-154 | conservation holds in every run if and only if there are at least three arenas |
| `ConnectionRun.AcceptedIsWhatArrived` | src/DataHandlers/ModbusWithPostgres/Modbus.c:145-212 | in every run the accepted payloads are those of the packet size that the attempts to receive yielded, read off the actions alone; an attempt that fails or yields another size is the last, and the loop is over exactly after one or after being told to stop |
| `ConnectionRun.OneAttempt` | src/DataHandlers/ModbusWithPostgres/Modbus.c:155-203 | a packet of the right size is accepted and the loop goes on, a timeout only goes on, anything else ends the connection |
| `ConnectionRun.BatchesAreFull` | src/DataHandlers/ModbusWithPostgres/Modbus.c:148-153 | every call of PgInsertData gets whole packets and at least one, and as many as an arena can hold except in the last call of a connection that is over |
| `ConnectionRun.EveryRunCanBeFinished` | src/DataHandlers/ModbusWithPostgres/Postgres.c:120-165 | with three or more arenas any run can be continued, accepting nothing more, until the connection has ended and all accepted bytes are inserted |
| `ConnectionRun.NextPacketCanBeAccepted` | src/DataHandlers/ModbusWithPostgres/Modbus.c:145-204 | as long as the connection is not over, any run can be continued so that whatever packet comes next is accepted |
| `ConnectionRun.AnyPacketsGetThrough` | src/DataHandlers/ModbusWithPostgres/Modbus.c:145-212 | for any list of packets some run inserts exactly them |
| `BulkProducer.ChunksTileTheFile` | src/DataHandlers/ModbusWithPostgres/Modbus.c:62-69 | the chunks concatenate to the file, none is empty or above the limit, and all but the last have exactly the limit |
| `BulkProducer.ThroughputTest` | src/DataHandlers/ModbusWithPostgres/Modbus.c:62-71 | on the writer's view alone, the loop ends for every file size, publishes exactly the chunks of the file, and the final flush adds nothing |
| `ProducerRun.ActKeepsSafe` | src/DataHandlers/ModbusWithPostgres/Modbus.c:62-71 | every step of the producer inside the concurrent pipe, and every step of its reader, keeps the invariant |
| `ProducerRun.PublishedAreTheChunks` | src/DataHandlers/ModbusWithPostgres/Modbus.c:62-71 | in every interleaving with two or more arenas what was published is a prefix of the chunks of the file; when the producer has finished it is all of them, and what the reader took after draining is the file |
| `ProducerRun.EveryRunCanBeFinished` | src/DataHandlers/ModbusWithPostgres/Modbus.c:62-71 | with two or more arenas any run can be continued until the producer has finished and the reader has taken exactly the chunks of the file |
| `JsonString.EscapeIsVisible` | src/Libs/cJSON/cJSON.c:900-947 | an escaped string holds no control character |
| `JsonString.MasksAreRemainders` | src/Libs/cJSON/cJSON.c:694-707 | the masks and shifts of the encoder on 32-bit words are the remainders and quotients used here |
| `JsonString.Utf8RoundTrip` | src/Libs/cJSON/cJSON.c:672-709 | decoding the UTF-8 form of a code point by RFC 3629 gives it back, for every code point that is no surrogate |
| `JsonString.HexValueIsDigitValue` | src/Libs/cJSON/cJSON.c:588-616 | the digit values used are the positions in the rows 0-9 a-f and 0-9 A-F, and no other character is a digit |
| `JsonString.ParseHex4IsCodeUnit` | src/Libs/cJSON/cJSON.c:588-616 | four digits are read as the unit they stand for by RFC 8259, four other characters as zero |
| `JsonString.SingleEscapeMeansItsCodePoint` | src/Libs/cJSON/cJSON.c:588-666 | a \u escape of one unit that is no surrogate yields bytes that decode to the code point of its digits, taken by their positions in the digit rows, if and only if they are hexadecimal; other digits are accepted and yield a NUL, and a lone trailing half is refused |
| `JsonString.BadDigitsCutString` | src/Libs/cJSON/cJSON.c:588-616 | at an escape with other digits the string that is read ends, whatever follows |
| `JsonString.BadDigitsAreAccepted` | src/Libs/cJSON/cJSON.c:588-616 | one such text is accepted and loses its last character |
| `JsonString.PairEscapeMeansItsCodePoint` | src/Libs/cJSON/cJSON.c:642-666 | two halves yield the code point they stand for by RFC 8259; a leading half is refused without its trailing one |
| `JsonString.FindEndOfPrinted` | src/Libs/cJSON/cJSON.c:737-757 | the first pass finds the closing quote of a printed string |
| `JsonString.UnescapeOfPrinted` | src/Libs/cJSON/cJSON.c:768-815 | the second pass undoes the escaping of any string |
| `JsonString.StringRoundTrip` | src/Libs/cJSON/cJSON.c:720-823 | parsing a printed string gives it back and stops behind its closing quote, for every C string |
| `JsonString.CountedLengthIsWritten` | src/Libs/cJSON/cJSON.c:860-886 | the length counted by the first printing pass is what the second pass writes, and no count means nothing to escape |
| `JsonString.RoomStep` | src/Libs/cJSON/cJSON.c:759-815 | each round of the second parsing pass writes no more than the room it gives up |
| `JsonString.AllocationBoundsOutput` | src/Libs/cJSON/cJSON.c:759-761 | the computed allocation length bounds what is written, for every accepted input |
| `JsonString.CString` | src/Libs/cJSON/cJSON.c:817-821 | reading memory up to its first NUL |
| `JsonText.SkipsBlanks` | src/Libs/cJSON/cJSON.c:965-985 | only blanks are skipped, and all of them, except that the last character of the text is never left behind |
| `JsonRoundTrip.DecimalIsShort` | src/Libs/cJSON/cJSON.c:552-561 | a 32-bit integer fits the number buffer |
| `JsonRoundTrip.DecimalReadsBack` | src/Libs/cJSON/cJSON.c:529-586 | the digits of a printed integer have the value of the integer |
| `JsonRoundTrip.NumberParses` | src/Libs/cJSON/cJSON.c:300-366 | a printed 32-bit integer is read back as the same number by any strtod that reads integers |
| `JsonRoundTrip.ValueParses` | src/Libs/cJSON/cJSON.c:1231-1350 | a printed value parses back to itself inside any text, exactly when its nesting fits the limit |
| `JsonRoundTrip.ItemsParse` | src/Libs/cJSON/cJSON.c:1352-1434 | a printed element list parses back, formatted or not |
| `JsonRoundTrip.MembersParse` | src/Libs/cJSON/cJSON.c:1493-1594 | a printed member list parses back, formatted or not |
| `JsonRoundTrip.PrintThenParse` | src/Libs/cJSON/cJSON.c:1231-1692 | for every tree of null, booleans, 32-bit integers, C strings, arrays and objects, parsing the print gives the same tree and consumes all of it if and only if at most CJSON_NESTING_LIMIT levels are nested, and fails otherwise |
| `JsonGrammar.DecodingIsInjective` | src/Libs/cJSON/cJSON.c:672-709 | a code point has one UTF-8 form only |
| `JsonGrammar.StringIsRead` | src/Libs/cJSON/cJSON.c:720-823 | every string of section 7 of RFC 8259, with any mix of plain characters, letter escapes, units and pairs, and raw control characters besides, is read as the bytes it means |
| `JsonGrammar.PrintedStringIsSpelled` | src/Libs/cJSON/cJSON.c:840-947 | what is printed for a string is a string of RFC 8259 that means it |
| `JsonSyntax.NumberIsRead` | src/Libs/cJSON/cJSON.c:300-366 | a number that strtod takes whole is read whole wherever it stands, if it has at most 63 characters |
| `JsonSyntax.LongNumberIsCut` | src/Libs/cJSON/cJSON.c:314-345 | a longer number of RFC 8259 is cut |
| `JsonSyntax.ValueIsRead` | src/Libs/cJSON/cJSON.c:1231-1594 | every text of the grammar, with any white space, is read as its value wherever it stands, exactly within the nesting limit |
| `JsonSyntax.StandardDocumentIsRead` | src/Libs/cJSON/cJSON.c:1003-1092 | every document of RFC 8259, with or without a byte order mark, is accepted as its value if and only if its nesting fits the limit |
| `JsonSyntax.PrintIsSpelled` | src/Libs/cJSON/cJSON.c:1285-1692 | what is printed for a tree of plain values, formatted or not, is a text of RFC 8259 that means the tree |
| `JsonLanguage.ValueAt` | src/Libs/cJSON/cJSON.c:1231-1594 | whatever is read as a value, where no number goes on behind it, is a text of the wider grammar that means it, within the nesting limit |
| `JsonLanguage.AcceptedExactly` | src/Libs/cJSON/cJSON.c:1003-1092 | when the whole text must be used, a C string is accepted as a value if and only if it is a document of the wider grammar within the nesting limit that means it |
| `JsonLanguage.MeaningIsUnique` | src/Libs/cJSON/cJSON.c:1003-1092 | no text means two values |
| `JsonPrinter.PrintBuffer.Ensure` | src/Libs/cJSON/cJSON.c:436-505 | keeps what was printed; the new size is twice the need, capped at INT_MAX, and it fails exactly when the need is beyond INT_MAX or a given buffer |
| `JsonPrinter.PrintBuffer.UpdateOffset` | src/Libs/cJSON/cJSON.c:507-518 | moves to the end of what was written last |
| `JsonPrinter.PrintBuffer.PrintStringPtr` | src/Libs/cJSON/cJSON.c:840-947 | both passes leave the escaped string in memory, terminated |
| `JsonPrinter.PrintBuffer.PrintNumberText` | src/Libs/cJSON/cJSON.c:529-586 | leaves the number in memory and moves behind it |
| `JsonPrinter.PrintBuffer.PrintValue` | src/Libs/cJSON/cJSON.c:1285-1350 | leaves exactly the specified text of any tree in memory, with the depth as before; succeeds whenever there is room and every number fits the number buffer, and only for such trees |
| `JsonPrinter.PrintBuffer.PrintArray` | src/Libs/cJSON/cJSON.c:1438-1492 | likewise for an array |
| `JsonPrinter.PrintBuffer.PrintObject` | src/Libs/cJSON/cJSON.c:1596-1692 | likewise for an object, with its indentation |
| `JsonPrinter.PrintBuffer.PrintMember` | src/Libs/cJSON/cJSON.c:1620-1674 | one member: indentation, key, colon, value, comma and line end |
| `JsonPrinter.PrintHasNoNul` | src/Libs/cJSON/cJSON.c:1285-1350 | printed text never contains a NUL, so its end is found again |
| `JsonPrinter.PrintDocument` | src/Libs/cJSON/cJSON.c:1107-1177 | printing into a growing buffer returns the specified text, and succeeds if and only if every number fits the number buffer and the text is at most INT_MAX - 2 long |
| `JsonPrinter.PrintPreallocated` | src/Libs/cJSON/cJSON.c:1209-1228 | into a given buffer a tree is printed if and only if its numbers fit the number buffer and the given one has two bytes more than the text |
| `JsonPrinter.PlainIsPrintable` | src/Libs/cJSON/cJSON.c:552-561 | trees of 32-bit integers can always be printed |
| `JsonParser.ConvertLiteral` | src/Libs/cJSON/cJSON.c:619-716 | writes the bytes the \u escape stands for and reports how much it read, or fails as specified, touching nothing before them |
| `JsonParser.WriteUtf8` | src/Libs/cJSON/cJSON.c:691-709 | the encoding loop, last byte first, writes the UTF-8 form |
| `JsonParser.MeasureString` | src/Libs/cJSON/cJSON.c:737-757 | finds the closing quote and counts the skipped backslashes |
| `JsonParser.FillString` | src/Libs/cJSON/cJSON.c:768-818 | fills an allocation of the computed size with the unescaped text, terminator included, without overrunning it |
| `JsonParser.ParseBuffer.SkipBlanks` | src/Libs/cJSON/cJSON.c:965-985 | moves the offset as specified |
| `JsonParser.ParseBuffer.CopyNumber` | src/Libs/cJSON/cJSON.c:314-345 | copies at most 63 characters and a NUL |
| `JsonParser.ParseBuffer.ParseNumberAt` | src/Libs/cJSON/cJSON.c:300-366 | reads what strtod accepts of the copied characters into the node, valueint kept within 32 bits; a failure moves nothing |
| `JsonParser.ParseBuffer.ParseStringAt` | src/Libs/cJSON/cJSON.c:720-838 | measures, allocates and fills; value and offset are those of the specification, also after a failure |
| `JsonParser.ParseBuffer.ParseValueAt` | src/Libs/cJSON/cJSON.c:1231-1282 | makes of a new node a tree of new nodes that stands for the parsed value; offset and depth are those of the specification, also after a failure |
| `JsonParser.ParseBuffer.ParseArrayAt` | src/Libs/cJSON/cJSON.c:1352-1434 | likewise, the elements linked as a sibling list |
| `JsonParser.ParseBuffer.ParseObjectAt` | src/Libs/cJSON/cJSON.c:1493-1594 | likewise, the members linked as a sibling list |
| `JsonParser.ParseBuffer.ParseMemberAt` | src/Libs/cJSON/cJSON.c:1543-1570 | likewise for a key, a colon and a value; the key becomes the name of the node |
| `JsonTree.Attach` | src/Libs/cJSON/cJSON.c:1385-1396 | a new node behind the last one gives the longer row |
| `JsonTree.AdoptTrees` | src/Libs/cJSON/cJSON.c:1416-1424 | a row of finished trees becomes the sibling list of a node, and the contents stay |
| `JsonParser.ParseText` | src/Libs/cJSON/cJSON.c:1003-1092 | the whole parse, byte order mark and terminator check included, makes a tree for the value of ParseDocument, or reports the position of the error |
| `JsonError.StopsAtBadEscape` | src/Libs/cJSON/cJSON.c:768-838 | a string that is closed but not well formed is given up at its first escape that is none |
| `JsonError.ValueStopsInside` | src/Libs/cJSON/cJSON.c:1231-1282 | a failed parse stops between its start and the end of the text, with no more open than the limit allows |
| `JsonError.TooDeepPrintIsRefusedAtBracket` | src/Libs/cJSON/cJSON.c:1352-1361 | a print that is nested too deeply is refused, and the reported position is that of a bracket with as many open as the limit allows |
| `JsonMinify.SkipOnelineComment` | src/Libs/cJSON/cJSON.c:2588-2599 | stops behind the line end or at the terminator |
| `JsonMinify.SkipMultilineComment` | src/Libs/cJSON/cJSON.c:2601-2612 | stops behind the end mark or at the terminator |
| `JsonMinify.LineCommentEnds` | src/Libs/cJSON/cJSON.c:2588-2599 | a line comment ends right behind the first line feed, or with the text |
| `JsonMinify.BlockCommentEnds` | src/Libs/cJSON/cJSON.c:2601-2612 | a block comment ends right behind its first end mark, or with the text |
| `JsonMinify.StringEnds` | src/Libs/cJSON/cJSON.c:2614-2635 | a string ends right behind the first quote that does not come after a backslash |
| `JsonMinify.MinifyKeepsSignsAndStrings` | src/Libs/cJSON/cJSON.c:2637-2677 | of a text made of blanks, comments, strings and other signs exactly the strings and signs are left, in order |
| `JsonMinify.EveryTextIsSpelled` | src/Libs/cJSON/cJSON.c:2637-2677 | every text is made of such parts, so that this says what minifying does to any text |
| `JsonMinify.MinifyString` | src/Libs/cJSON/cJSON.c:2614-2635 | copies a string and steps over escaped quotes; the unread text stays as it is |
| `JsonMinify.Minify` | src/Libs/cJSON/cJSON.c:2637-2677 | compacts the C string in place to its minified form; the write cursor never passes the read cursor and nothing behind the terminator changes |
| `JsonMinify.ScanPrinted` | src/Libs/cJSON/cJSON.c:2614-2635 | the end of a printed string is found unless the string ends in a backslash |
| `JsonMinify.MinifyFormattedPrint` | src/Libs/cJSON/cJSON.c:2637-2677 | minifying the formatted print gives exactly the unformatted print if and only if no key ends in a backslash and no string does that is followed by anything but closing brackets |
| `JsonMinify.NoBackslashIsMinifiable` | src/Libs/cJSON/cJSON.c:2637-2677 | in particular it does for every tree without backslashes in strings and keys |
| `JsonMinify.BackslashBeforeElement` | src/Libs/cJSON/cJSON.c:2628-2632 | a list that starts with the string of one backslash is a tree for which it does not |
| `JsonDocument.PrintAndParse` | src/Libs/cJSON/cJSON.c:1003-1177 | printing into memory and parsing that memory gives a tree of new nodes for the same value if and only if its nesting fits the limit, and the position of a bracket otherwise |
| `JsonDocument.PrintParseAndCompare` | src/Libs/cJSON/cJSON.c:2768-2879 | comparing what is parsed from the prints of two values with distinct names decides whether they are equal up to the order of members, under either rule for the case of names |
| `JsonDocument.PrintAndMinify` | src/Libs/cJSON/cJSON.c:2637-2677 | minifying the memory that holds the formatted print leaves the unformatted print there if and only if the tree is not misread |
| `JsonDocument.IntegerLibCWorks` | src/Libs/cJSON/cJSON.c:300-586 | a C library that meets all that the theorems ask of strtod and the number formats exists |
| `JsonList.ListIsUnique` | src/Libs/cJSON/cJSON.c:1789-1846 | the links determine the list of children |
| `JsonList.GetArraySize` | src/Libs/cJSON/cJSON.c:1694-1713 | counts the children |
| `JsonList.GetArrayItem` | src/Libs/cJSON/cJSON.c:1716-1732 | returns the child at an index, or null behind the end |
| `JsonList.AddItemToArray` | src/Libs/cJSON/cJSON.c:1819-1846 | the result is the longer list if and only if the item was no child yet and, unless the list was empty, had no next |
| `JsonList.DetachItemViaPointer` | src/Libs/cJSON/cJSON.c:2039-2067 | removes a child and clears its links; with a node that is no child the list stays as it was if and only if the neighbours of the node are no children or stand next to each other |
| `JsonList.DetachItemFromArray` | src/Libs/cJSON/cJSON.c:2069-2076 | removes by index, and does nothing behind the end |
| `JsonList.InsertItemInArray` | src/Libs/cJSON/cJSON.c:2107-2134 | inserts before the child at an index or appends behind the end; what it accepts gives the longer list if and only if the item was neither the list nor a child and, at the end, had no next |
| `JsonList.ReplaceItemViaPointer` | src/Libs/cJSON/cJSON.c:2137-2176 | puts another node in the place of a child and clears the links of the old one; the result is the updated list if and only if the node is the same or neither the parent nor another child; with a node that is no child the list stays as it was exactly under the stated condition |
| `JsonList.ReplaceItemInArray` | src/Libs/cJSON/cJSON.c:2178-2185 | the same by index |
| `JsonList.InsertListIntoItself` | src/Libs/cJSON/cJSON.c:2107-2134 | a list inserted before its own first child becomes its own child |
| `JsonList.AppendWithStaleNext` | src/Libs/cJSON/cJSON.c:1819-1846 | a node appended with a next from elsewhere leaves no list |
| `JsonList.InsertThenDetach` | src/Libs/cJSON/cJSON.c:2039-2134 | detaching a new child that was inserted, wherever, restores the list |
| `JsonEquality.FindItem` | src/Libs/cJSON/cJSON.c:1743-1772 | finds the first child of that name; with regard to case the search ends at a child without a name, and without regard to case it passes over it |
| `JsonEquality.FoundIsFirstOfName` | src/Libs/cJSON/cJSON.c:1743-1772 | the child that is found has a name whose characters are each the searched ones, or the other case of the same ASCII letter without regard to case, and no child before it has |
| `JsonEquality.CompareNodes` | src/Libs/cJSON/cJSON.c:2768-2879 | on trees of any nodes, with or without names and values and perhaps shared, the loops compute the specified comparison |
| `JsonEquality.SameIsSymmetric` | src/Libs/cJSON/cJSON.c:2768-2879 | the comparison is symmetric on all nodes |
| `JsonEquality.SameIsCompare` | src/Libs/cJSON/cJSON.c:2768-2879 | for trees that represent JSON values and share no node it is the comparison of the values |
| `JsonCompare.IntegersCompareExactly` | src/Libs/cJSON/cJSON.c:520-526 | the tolerant comparison of 32-bit integers is equality |
| `JsonCompare.ToleranceIsRelative` | src/Libs/cJSON/cJSON.c:520-526 | two numbers are taken for equal exactly when they differ by at most the 2^52nd part of the one larger in magnitude |
| `JsonCompare.SameKeyIsSameName` | src/Libs/cJSON/cJSON.c:129-151 | names are the same exactly when they have the same length and, place by place, the same character or, without regard to case, the two cases of one ASCII letter |
| `JsonCompare.CompareIsSymmetric` | src/Libs/cJSON/cJSON.c:2768-2879 | comparison is symmetric on all trees |
| `JsonCompare.CompareIsEqualityUpToOrder` | src/Libs/cJSON/cJSON.c:2768-2879 | on integer trees with distinct names the comparison holds, under either rule for case, if and only if the trees are equal up to the order of object members and, without regard to case, the case of names |
| `JsonTree.DuplicateRec` | src/Libs/cJSON/cJSON.c:2511-2577 | the copy is a tree of new nodes with the contents of the source, every level of it linked as a sibling list; it is refused exactly when children reach below CJSON_CIRCULAR_LIMIT levels |
| `JsonTree.Duplicate` | src/Libs/cJSON/cJSON.c:2506-2542 | the whole tree or the root alone, all of it new |
| `JsonTree.OnlyTheMarkIsLost` | src/Libs/cJSON/cJSON.c:2544-2577 | two nodes carry the same contents exactly when they differ in nothing but the mark of a reference |
| `JsonEquality.LevelsAreHeight` | src/Libs/cJSON/cJSON.c:2544-2548 | the levels the copying counts are those of the JSON value |
| `JsonEquality.CopyComparesEqual` | src/Libs/cJSON/cJSON.c:2768-2879 | a copy in other nodes compares equal to its source if and only if kinds are valid, numbers finite, strings have values, members have names, and repeated names agree |
| `JsonEquality.CompareWithDuplicate` | src/Libs/cJSON/cJSON.c:2506-2542 | cJSON_Duplicate and cJSON_Compare, one after the other, give exactly that result |
| `JsonEquality.ComparableExactlyWhenComplete` | src/Libs/cJSON/cJSON.c:2768-2879 | where no name is repeated this means that nothing is missing in the source |
| `JsonEquality.ComparableExactlyWhenRepeatsAgree` | src/Libs/cJSON/cJSON.c:2768-2879 | for a tree that represents a JSON value it means that repeated names agree |
| `JsonEquality.UnnamedMemberBreaksDuplicate` | src/Libs/cJSON/cJSON.c:1748-1750 | an object with a member without a name is not equal to its copy |
| `JsonEquality.ValuelessStringBreaksDuplicate` | src/Libs/cJSON/cJSON.c:2809-2813 | a string without a value is not equal to its copy |
| `JsonEquality.InfinityIsEverythingElse` | src/Libs/cJSON/cJSON.c:520-526 | an infinite number equals every finite number and its negative, but not itself |
| `JsonCompare.DuplicateComparesEqual` | src/Libs/cJSON/cJSON.c:2768-2879 | a value compares equal to itself if and only if repeated names agree |
| `JsonCompare.DistinctNamesAgree` | src/Libs/cJSON/cJSON.c:2768-2879 | in particular it does when no name is repeated |
| `JsonCompare.RepeatedNameBreaksDuplicate` | src/Libs/cJSON/cJSON.c:2835-2871 | an object with two values of one name is not equal to its own duplicate |
| `CopyEncoder.ConvertibleIsNoOverflow` | src/DatabaseSystems/Postgres.c:47-53 | product and sum stay within 64 bits exactly for the stated range of times |
| `CopyEncoder.TimestampsAreMicroseconds` | src/DatabaseSystems/Postgres.c:47-53 | in that range the result counts the microseconds since 2000-01-01 |
| `CopyEncoder.ConversionsKeepOrder` | src/DatabaseSystems/Postgres.c:47-69 | the three conversions agree on whole seconds and keep the order of times |
| `CopyEncoder.GetTableMetadata` | src/DatabaseSystems/Postgres.c:172-195 | offsets are prefix sums over the written columns; their number and the row size are right |
| `CopyEncoder.ColumnsTileTheRow` | src/DatabaseSystems/Postgres.c:189-194 | the written columns cut every row into slices that make it up again |
| `CopyEncoder.WriteValue` | src/DatabaseSystems/Postgres.c:358-401 | writes the value in network byte order, a timestamp converted, and nothing for other types |
| `CopyEncoder.WriteField` | src/DatabaseSystems/Postgres.c:486-520 | writes the declared length and the value behind what is there |
| `CopyEncoder.WriteRow` | src/DatabaseSystems/Postgres.c:478-521 | one row of the encode loop writes the field count and the fields of the written columns |
| `CopyEncoder.EncodeItems` | src/DatabaseSystems/Postgres.c:475-522 | the encode loop writes the tuples of all rows and nothing else, into a buffer with room for them |
| `CopyEncoder.RowsAreTheData` | src/DatabaseSystems/Postgres.c:477 | the rows, in order, are the whole block of data |
| `CopyEncoder.RequestedSizeSuffices` | src/DatabaseSystems/Postgres.c:461-463 | the buffer size the code asks for holds what it writes only for no item, no column, or one item of one column |
| `CopyEncoder.DecodeUndoesEncode` | src/DatabaseSystems/Postgres.c:447-522 | decoding header and tuples by PostgreSQL's Binary Format gives one tuple per item with the fields of the written columns, in order |
| `CopyEncoder.SizeOfEncoding` | src/DatabaseSystems/Postgres.c:475-522 | the length is items * (2 + 4 * fields + row size) |
| `CopyEncoder.FieldsAreHostBytes` | src/DatabaseSystems/Postgres.c:358-401 | each field has as many bytes as the catalogue gives its type, and they are those of the column the other way round; for a timestamp they are the microseconds since 2000-01-01 of the Unix time the host holds, high byte first |
| `CopyEncoder.WrittenPrefix` | src/DatabaseSystems/Postgres.c:183-195 | a column that is not filled automatically is written at the place given by those before it, and no other column is |
| `CopyEncoder.PgInsertData` | src/DatabaseSystems/Postgres.c:447-530 | what is handed to PQputCopyData is the nineteen bytes of the header and the encoding of the rows of the data; for columns of handled types it decodes to exactly these rows, field by field, and for any column types it is understood if and only if all are handled or there is no item |
| `CopyEncoder.UnderstoodExactlyWhenHandled` | src/DatabaseSystems/Postgres.c:486-520 | a receiver gets one tuple per item with one value of the announced length per column if and only if there is no item or all types are handled |
| `CopyEncoder.UnhandledTypeBreaksStream` | src/DatabaseSystems/Postgres.c:517-519 | one row of one date column does not decode |
| `Bytes.SwapReverses` | src/DatabaseSystems/Postgres.c:358-390 | changing the byte order of a value reverses its bytes |
| `Bytes.BigRoundTrip` | src/DatabaseSystems/Postgres.c:358-390 | reading the big-endian bytes of a value gives the value |
| `Bytes.BigIsPositional` | src/DatabaseSystems/Postgres.c:358-390 | in network order byte k of n is the digit of weight 256^(n - 1 - k) |
| `Bytes.LittleIsPositional` | src/DatabaseSystems/Postgres.c:358-390 | in host order byte k is the digit of weight 256^k |
| `SdbString.Arena.Push` | src/Sdb.h:906-916 | hands out the next bytes or nothing |
| `SdbString.Arena.PushZero` | src/Sdb.h:918-929 | the same, zeroed, leaving all other bytes alone |
| `SdbString.Arena.Pop` | src/Sdb.h:939-948 | gives bytes back or does nothing |
| `SdbString.Arena.Seek` | src/Sdb.h:957-966 | moves to a position within the capacity |
| `SdbString.Arena.Reserve` | src/Sdb.h:968-977 | reserves all of a size, or nothing while reporting less |
| `SdbString.Arena.Bootstrap` | src/Sdb.h:887-903 | carves out an arena that lies within the bytes taken |
| `SdbString.MakeSpace` | src/Sdb.h:1218-1233 | reserves all of the wanted length when there is too little, at the end of the arena wherever the string lies, and changes nothing but the header |
| `SdbString.Append` | src/Sdb.h:1235-1248 | appends when the arena serves the request and leaves the string as it was otherwise; everything from the string on is the new text, its terminator and what was there before |
| `SdbString.Set` | src/Sdb.h:1274-1288 | replaces the contents when the arena serves the request; everything from the string on is stated likewise |
| `SdbString.Clear` | src/Sdb.h:1203-1208 | empties the string, keeping its capacity |
| `SdbString.Backspace` | src/Sdb.h:1210-1216 | takes away the last characters |
| `SdbString.Make` | src/Sdb.h:1151-1178 | makes a string at the arena top; it is terminated exactly unless its text is empty without being null and the byte was not zero |
| `SdbString.Free` | src/Sdb.h:1187-1195 | puts the arena back to where it was before the make |
| `SdbString.Apply` | src/Sdb.h:1203-1288 | any sequence of operations leaves the contents of the specified run, terminated, and no byte outside the string and its reserve changes |
| `SdbString.RunRefinesSequence` | src/Sdb.h:1203-1288 | with room for everything that is added, the contents are those of the same operations on a sequence |
| `SdbString.UseString` | src/Sdb.h:1151-1288 | make, any operations, free: the arena position and all earlier memory are as before, and the text in between is the specified one |
| `SdbString.NeighbourIsKept` | src/Sdb.h:1203-1288 | a string behind another one is kept as long as the other stays within the capacity it had |
| `SdbString.BehindIsKeptExactlyWithinCapacity` | src/Sdb.h:1218-1288 | appending and setting leave whatever lies behind the string alone if and only if the new text fits the capacity the string had |
| `SdbString.GrowBelowTop` | src/Sdb.h:1218-1248 | a string that grows below the top of the arena is itself right, but overwrites the header of the string behind it |
| `SdbString.EmptyTextIsNotTerminated` | src/Sdb.h:1172-1175 | a string made from an empty text in memory of other bytes has no terminator |
| `ModbusFraming.ReceiveTcpFrame` | src/CommProtocols/Modbus.c:43-77 | however the stream is split, the result is a function of its bytes: a whole frame, too large, or closed |
| `ModbusFraming.ParseTcpFrame` | src/CommProtocols/Modbus.c:108-124 | returns the data when the two length fields agree |
| `ModbusFraming.SendModbusData` | src/DevUtils/ModbusTestServer.c:148-190 | builds the frame byte by byte with one padding byte, and refuses payloads above 250 bytes |
| `ModbusFraming.GenerateModbusTcpFrame` | src/DevUtils/ModbusTestServer.c:117-131 | writes header and data and leaves the rest of the buffer alone |
| `ModbusFraming.HeaderFieldsAreInPlace` | src/DevUtils/ModbusTestServer.c:117-131 | transaction, protocol and length are words in this order, high byte first, followed by unit, function and data length |
| `ModbusFraming.SentBytes` | src/DevUtils/ModbusTestServer.c:148-190 | a sent frame is 0, 1, 0, 0, two bytes of length, 1, 16, the data length, the data and one zero byte |
| `ModbusFraming.GeneratedFrameParses` | src/CommProtocols/Modbus.c:108-124 | a generated frame parses to its data if and only if the length field is three more than the data |
| `ModbusFraming.SendAll` | src/DevUtils/ModbusTestServer.c:148-190 | the frames of all payloads, one after the other, are what is sent |
| `ModbusFraming.ReceiveOne` | src/CommProtocols/Modbus.c:43-77 | a sent frame is received whole and leaves the stream behind it |
| `ModbusFraming.ParseOne` | src/CommProtocols/Modbus.c:108-124 | the payload of a received frame is found again |
| `ModbusFraming.ReceivePayloads` | src/CommProtocols/Modbus.c:43-124 | repeated receiving and parsing returns exactly the payloads sent, in order, and stays in step |
| `ModbusFraming.Exchange` | src/CommProtocols/Modbus.c:43-124 | payloads that are sent and received over one stream come out as they went in |
| `ModbusFraming.StandardFrameLosesStep` | src/CommProtocols/Modbus.c:56-58 | a frame without the padding byte makes the receiver take one byte of the next, and is never complete when nothing follows |
| `ModbusFraming.ReceivedWholeExactlyWhenPadded` | src/CommProtocols/Modbus.c:43-77 | a frame is received whole, whatever follows it, if and only if it has seven bytes more than its length field says |
| `ThreadControl.StepKeepsOk` | src/Common/Thread.c:269-321 | every step of any thread keeps the invariant of mutex, flags and sleepers |
| `ThreadControl.NoLostWakeUp` | src/Common/Thread.c:269-321 | in every reachable state a thread that sleeps although its event was raised is about to be notified by the owner of the mutex; with the mutex free there is none |
| `ThreadControl.WaitsReturnInTime` | src/Common/Thread.c:281-321 | a wait returns only after its event was raised, and critical sections exclude each other |
| `ThreadControl.WaiterCanFinish` | src/Common/Thread.c:269-321 | from every state a thread that waits for a raised event leaves its call after at most seven steps of the owner and itself |
| `ThreadCalls.ReturnedLeavesRaised` | src/Common/Thread.c:269-321 | over every run, once a call that raises or awaits an event has returned the event is raised and stays so |
| `ThreadCalls.OnlyRaisersRaise` | src/Common/Thread.c:247-321 | an event is raised only after some thread has called to raise it |
| `ThreadCalls.AnswersAreRight` | src/Common/Thread.c:247-261 | asked after a stop was signalled the answer is yes, and it is yes only if somebody has called to signal one |
| `ThreadCalls.RaiserCanFinish` | src/Common/Thread.c:269-308 | from every state a thread that raises an event can return, by four steps of its own when the mutex is free, and the event is then raised |
| `ThreadGroup.StepKeepsOk` | src/Common/ThreadGroup.c:58-210 | every step of manager, monitors and threads keeps the invariant |
| `ThreadGroup.CountIsCompletedGroups` | src/Common/ThreadGroup.c:74-78 | until a shutdown overrides it, CompletedCount is the number of groups marked completed whenever no monitor is between mark and count |
| `ThreadGroup.CleanedUpOnce` | src/Common/ThreadGroup.c:58-72 | a group is cleaned up at most once, after all its threads ended, and always before it is marked |
| `ThreadGroup.WaitReturnsWhenDone` | src/Common/ThreadGroup.c:185-210 | waiting returns only when every group is completed and cleaned up or a shutdown was requested, and the count has then reached the number of groups |
| `ThreadGroup.ProgressStays` | src/Common/ThreadGroup.c:58-210 | marks, cleanups and a shutdown request are never taken back |
| `ThreadGroup.ManagerCanReturn` | src/Common/ThreadGroup.c:185-210 | once all groups are completed or a shutdown is requested the manager returns within a bounded number of its own steps |
| `GroupRun.AllAreStarted` | src/Common/ThreadGroup.c:138-184 | when starting is over every thread of every group runs or has run, and every group is monitored |
| `GroupRun.ThreadsStartOnce` | src/Common/ThreadGroup.c:138-165 | a thread is started once, by the manager with the mutex, and only its own end ends it |
| `GroupRun.NoLostReport` | src/Common/ThreadGroup.c:74-78 | while the manager waits some group is not counted yet, or the monitor that counted the last one is about to signal, which ends the wait |
| `GroupRun.GroupsCanComplete` | src/Common/ThreadGroup.c:58-210 | any run can be continued, without a shutdown request, until waiting has returned with all threads ended and every group cleaned up once and marked |
| `CircularBuffer.WrapIsRemainder` | poc/Metrics/CircularBuffer.c:128 | the wrapped position is the remainder the code computes |
| `CircularBuffer.Buffer.constructor` | poc/Metrics/CircularBuffer.c:63-93 | a new buffer is valid and empty |
| `CircularBuffer.Buffer.FlagsAreRight` | poc/Metrics/CircularBuffer.c:39-49 | full and empty mean what they say in every valid state |
| `CircularBuffer.Buffer.Put` | poc/Metrics/CircularBuffer.c:119-128 | the two copies place the bytes from the head on and change no other position |
| `CircularBuffer.Buffer.Insert` | poc/Metrics/CircularBuffer.c:110-144 | appends and keeps the buffer valid if and only if the bytes fit what is free |
| `CircularBuffer.Buffer.Read` | poc/Metrics/CircularBuffer.c:156-187 | takes out the oldest bytes; the full flag stays right if and only if something is read or the buffer was not full |
| `CircularBuffer.EmptyReadHidesBytes` | poc/Metrics/CircularBuffer.c:175 | a buffer of one byte that is full looks empty after a read of nothing |
| `CircularBuffer.RunAll` | poc/Metrics/CircularBuffer.c:110-187 | over any sequence of calls what was there and inserted is what was read and is there now, in order |

## Left out

- Sockets, epoll, libpq, files, memory mapping, logging and signals: `recv` is "any positive number of the
  next bytes", `PQputCopyData` appends to a byte sequence, and a file is a sequence of bytes.
- The pipe, the thread control and the thread groups are values that steps transform, not objects, because
  their theorems are about all interleavings. Memory is taken to be sequentially consistent.
- Reconnects of the receive loop: the end-to-end theorems are about one connection with uninterrupted
  writer calls. A failing eventfd read or write is not modelled; an interrupted read is.
- The receive loop's own two-step reading with a timeout: a receive attempt yields a timeout, a failure or
  a packet. The insert loop's exits after many failures or a million items are a reader that stops moving.
- Numbers that are not 32-bit integers: `strtod` and the `%g` formats are parameters of the model, with
  the facts a theorem needs about them stated in its preconditions. Printing takes `valueint` to be what
  parsing makes of the number.
- Allocation failure, allocation hooks, printing of raw items, constant-key flags, and freeing of trees.
- JsonParser.ParseBuffer.ParseValueAt: nodes that a failed parse leaves behind are not freed.
- JsonTree.DuplicateRec: strings are values, so that the copy has strings of its own is left out.
- JsonEquality.CompareNodes: finite doubles are compared without rounding.
- JsonList.DetachItemViaPointer: requires that a node with `prev` but no `next` is not detached from a parent
  without children, where the code would follow a null pointer.
- JsonList.ReplaceItemViaPointer: the node that is replaced is not freed.
- JsonSyntax.IsTextOf: the strings of the wider grammar are those parse_string reads when they stand alone;
  only the strings of RFC 8259 are spelled out piece by piece.
- JsonText.Print: values hold numbers as reals, without infinities and NaN, and strtod yields none.
- SensorDataPipe.Apply: arena indices are unbounded numbers; with fewer than 2^32 arenas the 32-bit
  indices of the code hold the same values. The counter is modelled with its 32-bit wrap-around.
- CopyEncoder.GetTableMetadata: the running sums are unbounded, and the row size is taken to start at
  zero; names and type modifiers of columns are left out.
- CopyEncoder.PgInsertData: takes the size of its buffer as a parameter, since the size the code asks for
  is too small (RequestedSizeSuffices). No trailer is sent, as in the code: the end of the COPY data ends
  the tuples. Transaction commands are left out.
- SdbString.MakeSpace: the arena is a parameter, not read from the header of the string.
- SdbString.Make: the header word that points back to the arena is passed as a parameter and its bytes
  are not written. Sizes are unbounded; the additions of the code do not overflow below 2^64.
- SdbString.Backspace: requires that no more characters are taken away than there are, where the code's
  unsigned subtraction would wrap around.
- Scratch arenas, formatted appending, tokenising, comparing of strings, and `SdbArenaBootstrap` into a
  given structure.
- ThreadGroup.ManagerStep: every thread creation succeeds, so the failure path that joins and cleans up
  by itself is left out. A wait with a timeout may end at any time.
- ThreadControl.Step: lock and wait do not fail, and their timeouts never expire.
- CircularBuffer.Buffer.Insert: takes no more bytes than the memory has, where the code would copy past its
  end; one call at a time; that a call waits for another thread is a precondition, and the two locks of the
  code, which do not exclude reader and writer from each other, are left out, as are metrics.
- The zero-compression experiment, MQTT, the graphical interface, plotting and test programs.
