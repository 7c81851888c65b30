# Model of the group server's algorithmic cores

NullLogic GroupServer is a C group server with a small JavaScript front end. This project models seven of
its algorithms in Dafny and proves what they are for:

* **MD5 and the `$1$` password scheme** (`Rfc1321`, `Md5Transform`, `Md5`, `Md5Crypt`). `Rfc1321` is an
  independent reference, written from RFC 1321. The streaming context is a class with the registers, counter
  words and carry-over buffer of the source, and agrees with the reference for every message and every way of
  cutting it into calls.
* **The buffered line reader and the socket lifecycle** (`Tcp`). The environment is a script of arbitrary read
  results and close requests; the reader agrees with a splitter of the byte stream, and every run of calls
  releases each descriptor and SSL object at most once.
* **The SQL layer** (`SqlMachine`, `FbDecimal`, `SqlText`). The load, connect, query and disconnect machine
  under one mutex is a step function over program points; its theorem is about every schedule of any number of
  threads. Decimal printing is judged by an independent parser of decimal numerals.
* **The table sorter** (`SortOrder`, `TableSorter`, `HeaderGrid`). The comparator that the source compiles to
  text is a syntax tree with an evaluator; the cache is sorted in place over any sequence of clicks; the header
  allocator is compared with the algorithm of the HTML Standard.
* **Calendar and Base64 codecs** (`Calendar`, `Base64`).
* **The SMTP client dialogue** (`Smtp`), against a server that may send anything.
* **CSV dump and restore** (`Csv`), with the shipped column table.

Objects that the source updates in place are classes, loops are loops, and each method is tied by its `ensures`
to a function whose properties are proved as lemmas.

Some promises turned out not to hold as stated. The model keeps the code's behaviour, gives an input where the
promise fails, and proves exactly when it is met:

* A scaled Firebird integer is printed with blanks before the point when its field width goes negative, and runs
  past its buffer when the scale is large (`FbDecimal.RightExactlyWhen`).
* The timer of a table sort throws before sorting when a listed column has no enabled header or no parser, and an
  extending click throws when the column is not below the number of headers (`TableSorter.Table.Resort`,
  `TableSorter.Table.Click`, `TableSorter.Session`).
* A header cell with rowSpan 0 does not grow downward (`HeaderGrid.AgreesExactly`).
* An SMTP reply whose last line is a bare code is read past (`Smtp.LastLineJudges`).
* A time stamp before 1970 is read from its year digits as an hour, and one from 2^31 seconds on overflows; both
  are out of order with the stamps between (`Calendar.ReadExactly`, `Calendar.ReadKeepsOrderExactly`).
* A message is sent without doubling its leading dots, so a line that starts with one is shortened or ends the
  message (`Smtp.MessageReceived`).
* A CSV restore drops the last column, quotes, and the last byte of a value that fills its field, and cannot take
  commas or newlines among the values (`Csv.ExactlyWhen`).

A comment at line 101 of `src/libnullg/md5.c` says that the length is appended most
significant byte first; the code stores the low word first, as section 3.2 of RFC 1321 requires, and so does the
model.

## Model

| member | source | states |
|---|---|---|
| `Md5Transform.F1IsF` | src/libnullg/md5.c:141 | the optimised F1 is the function F of section 3.4 of RFC 1321 |
| `Md5Transform.F2IsG` | src/libnullg/md5.c:142 | F2, which is F1 with its arguments rotated, is the function G of section 3.4 of RFC 1321 |
| `Md5Transform.CoreIsAuxiliary` | src/libnullg/md5.c:141-144 | each of F1-F4 equals the auxiliary function of its round, for all words |
| `Md5Transform.SumWraps` | src/libnullg/md5.c:146-147 | a sum of uint32 terms, wrapped once at the end, is the chain of additions modulo 2^32 of section 2 of RFC 1321 |
| `Md5Transform.Rotate` | src/libnullg/md5.c:147 | the two shifts and their OR are the circular shift of section 2 of RFC 1321, for every word and distance |
| `Md5Transform.Step` | src/libnullg/md5.c:146-147 | one MD5STEP line, with the core function, word, constant and rotation of its step, advances the table-driven loop of section 3.4 of RFC 1321 by exactly that step |
| `Md5Transform.Transform` | src/libnullg/md5.c:154-235 | the 64 unrolled lines and the final additions change buf exactly as the four-round loop of section 3.4 of RFC 1321, for every state and block |
| `Md5.CarryIsAddition` | src/libnullg/md5.c:67-70 | the two 32-bit additions with an explicit carry keep bits[1]:bits[0] equal to 8n modulo 2^64 |
| `Md5.LowWord` | src/libnullg/md5.c:71 | bits 3 to 8 of the low counter word are the number of carried-over bytes, n mod 64 |
| `Md5.FoldBlock` | src/libnullg/md5.c:88-94 | folding one more 64-byte block is one more compression |
| `Md5.CarryOver` | src/libnullg/md5.c:73-80 | bytes that stay short of a block boundary leave the registers valid and only extend the tail |
| `Md5.Complete` | src/libnullg/md5.c:81-86 | bytes that reach the boundary make the registers fold one more block of the message |
| `Md5.LengthBytes` | src/libnullg/md5.c:130-131 | storing the low counter word first gives the eight length bytes of section 3.2 of RFC 1321 |
| `Md5.WordOfBytes` | src/libnullg/md5.c:130-134 | the four bytes of a word, low byte first, read back to the word |
| `Md5.BytesOfWord` | src/libnullg/md5.c:83 | reading four bytes as a word, low byte first, and taking its bytes gives the bytes |
| `Md5.Md5Context.LoadWords` | src/libnullg/md5.c:83 | the sixteen reads through the uint32 pointer give the words of section 2 of RFC 1321 |
| `Md5.Md5Context.CopyRegisters` | src/libnullg/md5.c:133-134 | copying the registers out gives the bytes of section 3.5 of RFC 1321 |
| `Md5.GapIs` | src/libnullg/md5.c:109-127 | both padding branches produce 0x80 and as many zero bytes as section 3.1 of RFC 1321 asks for |
| `Md5.PaddedIs` | src/libnullg/md5.c:108-131 | the padding in plain terms: the message, a one bit, zero bits to 448 modulo 512, and the length in bits modulo 2^64 |
| `Md5.Md5Context.constructor` | src/libnullg/md5.c:47-55 | a new context is valid for the empty message |
| `Md5.Md5Context.Start` | src/libnullg/md5.c:47-55 | md5_init leaves a context valid for the empty message |
| `Md5.InitialBytes` | src/libnullg/md5.c:49-52 | the initial registers are the bytes that section 3.3 of RFC 1321 lists |
| `Md5.Md5Context.CountBits` | src/libnullg/md5.c:66-71 | the counter stands for the longer message and the carry-over length of the old one is returned |
| `Md5.Md5Context.Update` | src/libnullg/md5.c:61-97 | the context stays valid (whole blocks folded, n mod 64 bytes in in[], 8n mod 2^64 in bits) and its message grows by exactly the data |
| `Md5.Md5Context.Pad` | src/libnullg/md5.c:108-127 | registers and carry-over buffer are those of the message padded to 56 modulo 64 |
| `Md5.Md5Context.Final` | src/libnullg/md5.c:103-136 | the digest is that of sections 3.1 to 3.5 of RFC 1321 for the message; afterwards only the first two registers are known to be cleared |
| `Md5.Hash` | src/libnullg/md5.c:47-136 | for every way of cutting a message into md5_update calls, empty ones included, the digest is that of the whole message |
| `Md5Crypt.CryptTo64` | src/libnullg/md5.c:243-249 | n characters, six bits each from the lowest |
| `Md5Crypt.Read64Inverts` | src/libnullg/md5.c:243-249 | the printed characters of a number below 64^n, read back lowest first, give the number |
| `Md5Crypt.TailDetermines` | src/libnullg/md5.c:322-335 | the 22-character tail determines all 16 bytes of the digest |
| `Md5Crypt.TailReads` | src/libnullg/md5.c:322-335 | which bytes of the digest the 22 characters stand for, as numbers: five groups of three and one byte |
| `Md5Crypt.AlphabetIs` | src/libnullg/md5.c:241 | the digits are the 64 characters of the table in its order |
| `Md5Crypt.PrintTail` | src/libnullg/md5.c:322-335 | the six calls print the tail of the digest |
| `Md5Crypt.TailInAlphabet` | src/libnullg/md5.c:241-249 | only the 64 characters ./0-9A-Za-z are printed |
| `Md5Crypt.Refine` | src/libnullg/md5.c:261-268 | the true salt has at most 8 characters and no '$' |
| `Md5Crypt.RefineSalt` | src/libnullg/md5.c:261-268 | the pointer loop finds that salt, with or without the prefix, for every string |
| `Md5Crypt.PlainSalt` | src/libnullg/md5.c:261-268 | a salt without the prefix is its own first 8 characters, or what stands before its first dollar sign |
| `Md5Crypt.InnerDigest` | src/libnullg/md5.c:276-281 | the digest of password, salt, password |
| `Md5Crypt.FeedCyclic` | src/libnullg/md5.c:282-283 | 16-byte pieces of the inner digest add up to its cyclic repetition to the password's length |
| `Md5Crypt.FeedLength` | src/libnullg/md5.c:286-291 | one byte for each binary digit of the length, zero or the first password byte |
| `Md5Crypt.SeedDigest` | src/libnullg/md5.c:269-297 | the digest that the 1000 rounds start from |
| `Md5Crypt.SeedMessageIs` | src/libnullg/md5.c:269-291 | what the seed hashes, piece by piece: password, prefix, salt, the repeated inner digest, the mixture of the length |
| `Md5Crypt.LengthMixIs` | src/libnullg/md5.c:286-291 | byte k of that mixture is 0 where binary digit k of the length is 1, and the first character elsewhere |
| `Md5Crypt.OneRound` | src/libnullg/md5.c:303-321 | the digest of one round's mixture, for every round number |
| `Md5Crypt.MixtureIs` | src/libnullg/md5.c:305-319 | what each round hashes, for every round number by its remainder modulo 42 |
| `Md5Crypt.MixtureLength` | src/libnullg/md5.c:305-319 | its length: digest and password, the salt unless 3 divides the number, the password again unless 7 does |
| `Md5Crypt.FirstRounds` | src/libnullg/md5.c:303-321 | the first two rounds written out |
| `Md5Crypt.Md5CryptString` | src/libnullg/md5.c:251-339 | the whole string: prefix, refined salt, '$' and the tail of the 1000-fold stretched digest |
| `Md5Crypt.Crypt` | src/libnullg/md5.c:294-296 | the result is 26 characters and the salt, at most 34 |
| `Md5Crypt.CryptIs` | src/libnullg/md5.c:294-335 | the result is $1$, the refined salt, $ and the tail of the digest after 1000 rounds |
| `Md5Crypt.SaltSurvives` | src/libnullg/md5.c:261-268 | a printed result re-parses to the salt it was made with |
| `Md5Crypt.VerificationFixedPoint` | src/libnullg/md5.c:251-339 | hashing a password under its stored result gives the stored result, for every password and salt string |
| `Md5Crypt.AcceptedExactly` | src/libnullg/md5.c:251-339 | a stored result accepts a guess if and only if both stretch to the same digest under its salt |
| `Tcp.Cut` | src/server/tcp.c:302-311 | the reference: the shortest prefix that ends in a newline, or max bytes |
| `Tcp.CutUnique` | src/server/tcp.c:302-311 | that prefix is the only one with its properties |
| `Tcp.NewlineIs` | src/server/tcp.c:306 | lines end at a line feed |
| `Tcp.SplitGrows` | src/server/tcp.c:269-329 | bytes that arrive later never change lines that could already be cut |
| `Tcp.SplitLosesNothing` | src/server/tcp.c:269-329 | the lines put together are a prefix of the stream: nothing dropped, repeated or reordered |
| `Tcp.ReleasedOnce` | src/server/tcp.c:331-348 | in a safe trace a descriptor is closed exactly as often as it was handed out, once less while it is open |
| `Tcp.FreedOnce` | src/server/ssl.c:331-351 | the same balance for SSL objects and their release |
| `Tcp.SafeAppend` | src/server/tcp.c:142-248 | one more allowed action keeps a trace safe, and which descriptors and SSL objects are then open |
| `Tcp.TcpSocket.SslAccept` | src/server/ssl.c:266-279 | the socket invariant survives every outcome of SSL_new and SSL_accept |
| `Tcp.TcpSocket.SslClose` | src/server/ssl.c:331-351 | shutdown, close, free in this order, each at most once, and both handles cleared |
| `Tcp.TcpSocket.Close` | src/server/tcp.c:331-348 | a request by others changes nothing but want_close; an owner's close releases what is held and nothing else, and nothing stays open |
| `Tcp.TcpSocket.Recv` | src/server/tcp.c:142-187 | data returned and data left are the data there was; -1 or 1..max bytes; bytes_in counts them; a close request is carried out: descriptor and SSL object released and -1 returned; on an unfailing connection -1 only once nothing more will arrive |
| `Tcp.TcpSocket.Send` | src/server/tcp.c:189-238 | after a close request, which the owner carries out here, or on a closed socket no I/O is added to the trace; otherwise exactly one call; bytes_out counts what was sent |
| `Tcp.TcpSocket.Refill` | src/server/tcp.c:283-300 | an empty receive buffer is filled with the next bytes, inside 4094 bytes, and none are lost |
| `Tcp.TcpSocket.Take` | src/server/tcp.c:301-309 | the copied bytes are a non-empty prefix of the buffered ones; it ends at the first newline, at max, at the end of the buffered bytes, or before a NUL, and for no other reason |
| `Tcp.TcpSocket.Compact` | src/server/tcp.c:316-324 | moving the unread bytes to the front does not change them |
| `Tcp.TcpSocket.Pass` | src/server/tcp.c:301-326 | delivered and buffered bytes together are unchanged; done exactly at max bytes or a newline |
| `Tcp.TcpSocket.Fgets` | src/server/tcp.c:269-329 | for every stream with embedded NULs, fragmentation and 1 <= max <= 32767: success returns exactly what Cut takes, and on an unfailing connection it succeeds if and only if such a line will arrive; a close request is carried out first; offset + size stays at most 4094; delivered plus pending bytes are always the received ones |
| `Tcp.ReadLines` | src/server/tcp.c:269-329 | any sequence of calls returns the lines of the simple splitter, all of them on an unfailing connection and a prefix of them otherwise |
| `Tcp.Serve` | src/server/tcp.c:142-348 | every run of owner calls with close requests in between is safe, with any numbers that the system hands out and reuses: no I/O on a closed descriptor or freed SSL object, nothing released twice |
| `SortOrder.SortFunctionSign` | lib/htdocs/lib/scripts/jquery.tablesorter.js:636-648 | a compiled comparison is negative, zero or positive as the keys are before, equal or after, nulls last both ways, and never NaN |
| `SortOrder.LexLessIs` | lib/htdocs/lib/scripts/jquery.tablesorter.js:639-642 | one text is less than another if and only if at their first difference it ends or has the smaller code unit |
| `SortOrder.KeysInOrder` | lib/htdocs/lib/scripts/jquery.tablesorter.js:639-647 | ascending is smaller first, descending larger first, for numbers and texts, and null is last both ways |
| `SortOrder.BeforeIs` | lib/htdocs/lib/scripts/jquery.tablesorter.js:590-612 | the first entry of the sort list that tells two rows apart decides, and without one the original position |
| `SortOrder.CompiledDecides` | lib/htdocs/lib/scripts/jquery.tablesorter.js:580-634 | the compiled comparator is negative exactly when the first row comes before the second, positive exactly when after |
| `SortOrder.BeforeTotal` | lib/htdocs/lib/scripts/jquery.tablesorter.js:580-648 | rows with different positions are ordered one way and one way only |
| `SortOrder.BeforeTransitive` | lib/htdocs/lib/scripts/jquery.tablesorter.js:580-648 | the order is transitive, over any mixture of text, numbers and nulls |
| `TableSorter.BuildCache` | lib/htdocs/lib/scripts/jquery.tablesorter.js:248-292 | the loop builds the groups of parent and child rows and one entry per parent |
| `TableSorter.CacheShape` | lib/htdocs/lib/scripts/jquery.tablesorter.js:276-283 | there is one entry per group, and the i-th entry carries position i |
| `TableSorter.EntryKeys` | lib/htdocs/lib/scripts/jquery.tablesorter.js:276-283 | the keys of an entry are those of its group's parent row |
| `TableSorter.GroupIsRun` | lib/htdocs/lib/scripts/jquery.tablesorter.js:268-276 | a group is a parent row followed by child rows without a gap |
| `TableSorter.GroupsAdjoin` | lib/htdocs/lib/scripts/jquery.tablesorter.js:268-276 | the next group starts right behind the last row of a group |
| `TableSorter.GroupIsMaximal` | lib/htdocs/lib/scripts/jquery.tablesorter.js:268-276 | the run takes in every child row that follows: the row behind it, if any, is no child |
| `TableSorter.SortedUnique` | lib/htdocs/lib/scripts/jquery.tablesorter.js:627 | two sorted arrangements of the same rows are equal, so the sort algorithm is immaterial |
| `TableSorter.FindPlace` | lib/htdocs/lib/scripts/jquery.tablesorter.js:627 | the place the compiled comparator finds is the place in the order |
| `TableSorter.SortEntries` | lib/htdocs/lib/scripts/jquery.tablesorter.js:580-634 | the result is a sorted permutation of the cache |
| `TableSorter.AppendToTable` | lib/htdocs/lib/scripts/jquery.tablesorter.js:322-352 | re-appending every row makes the body exactly the groups in the order of the cache |
| `TableSorter.LaidPermutes` | lib/htdocs/lib/scripts/jquery.tablesorter.js:337-352 | rearranging the cache rearranges the rows: none lost or doubled |
| `TableSorter.LaidAtFirst` | lib/htdocs/lib/scripts/jquery.tablesorter.js:248-292 | the cache as built stands for the rows as they were |
| `TableSorter.ChildFollows` | lib/htdocs/lib/scripts/jquery.tablesorter.js:337-352 | in any arrangement each child row stands right behind the row it followed originally |
| `TableSorter.CachePermuted` | lib/htdocs/lib/scripts/jquery.tablesorter.js:248-352 | any permutation of the cache shows every row exactly once |
| `TableSorter.SortedIsArranged` | lib/htdocs/lib/scripts/jquery.tablesorter.js:580-634 | sorting the cache, whatever earlier sorts did to it, gives the arrangement of the original cache |
| `TableSorter.DisplayKeepsRows` | lib/htdocs/lib/scripts/jquery.tablesorter.js:322-352 | what a sort list displays is a permutation of the rows with every child in place |
| `TableSorter.Table.constructor` | lib/htdocs/lib/scripts/jquery.tablesorter.js:377-416 | a new table shows its rows as built, has its parameters as fields, an empty sort list, and every count at the initial order; any columns, spanning headers included |
| `TableSorter.Table.SetHeadersCss` | lib/htdocs/lib/scripts/jquery.tablesorter.js:539-554 | throws if and only if some listed column has no enabled header |
| `TableSorter.Table.Multisort` | lib/htdocs/lib/scripts/jquery.tablesorter.js:580-634 | throws, with the cache untouched, if and only if some listed column has no parser; otherwise the cache becomes the arrangement of the original cache by the list |
| `TableSorter.Table.IsValueInArray` | lib/htdocs/lib/scripts/jquery.tablesorter.js:529-537 | whether the list mentions the column |
| `TableSorter.Table.Resort` | lib/htdocs/lib/scripts/jquery.tablesorter.js:767-774 | throws, leaving body and cache as they were, if and only if some listed column lacks an enabled header or a parser; otherwise the body is the display of the current list, a function of the original rows and that list only |
| `TableSorter.Table.Flush` | lib/htdocs/lib/scripts/jquery.tablesorter.js:734-743 | the list becomes the forced entries of other columns, sharing their objects |
| `TableSorter.Table.Toggle` | lib/htdocs/lib/scripts/jquery.tablesorter.js:750-761 | throws, changing nothing, if and only if the column is listed and not below the number of headers; otherwise every entry of the column is reversed, no other changes, and the header count follows the last one |
| `TableSorter.ToggledTwice` | lib/htdocs/lib/scripts/jquery.tablesorter.js:757-759 | reversing changes 0 to 1 and 1 to 0, and twice gives the list back |
| `TableSorter.Table.Click` | lib/htdocs/lib/scripts/jquery.tablesorter.js:714-766 | the new sort list, the new counts and whether the click throws, for each case: disabled, plain click, extending click, click on a listed column |
| `TableSorter.Table.CoveredSorts` | lib/htdocs/lib/scripts/jquery.tablesorter.js:539-634 | when every forced column has an enabled header and every enabled header a parser, no list that clicks can make throws |
| `TableSorter.Session` | lib/htdocs/lib/scripts/jquery.tablesorter.js:714-774 | after any clicks and timers, thrown or not, every row is shown once with children in place; after a timer the body follows the current list if and only if every listed column has an enabled header and a parser |
| `TableSorter.ForcedColumnStops` | lib/htdocs/lib/scripts/jquery.tablesorter.js:543-552 | a forced column under a disabled header: the click is accepted, the timer throws and the body stays as built, for all rows |
| `TableSorter.ForcedColumnMisplaces` | lib/htdocs/lib/scripts/jquery.tablesorter.js:767-774 | with two rows: the body stays [0, 1] although the current list displays [1, 0] |
| `TableSorter.TwoArranged` | lib/htdocs/lib/scripts/jquery.tablesorter.js:767-774 | two rows that the same list displays the other way round |
| `TableSorter.TwoDisplayed` | lib/htdocs/lib/scripts/jquery.tablesorter.js:580-634 | two rows change places if and only if the first does not come before the second |
| `TableSorter.TwoTexts` | lib/htdocs/lib/scripts/jquery.tablesorter.js:639-642 | two rows of one text column: ascending shows the smaller text first, descending the larger, equal texts stay |
| `TableSorter.SpanningHeaderThrows` | lib/htdocs/lib/scripts/jquery.tablesorter.js:753-761 | two header cells over columns 0 and 2: the plain click on the second is accepted, the extending click on it throws, and the body stays |
| `HeaderGrid.FirstAvailable` | lib/htdocs/lib/scripts/jquery.tablesorter.js:441-447 | the scan always finds a column, the first free one |
| `HeaderGrid.Mark` | lib/htdocs/lib/scripts/jquery.tablesorter.js:449-457 | exactly the spanned slots are marked, for every row and column span |
| `HeaderGrid.RescanIsCursor` | lib/htdocs/lib/scripts/jquery.tablesorter.js:441-447 | the rescan from column zero meets the moving cursor of the HTML Standard |
| `HeaderGrid.RowIndexes` | lib/htdocs/lib/scripts/jquery.tablesorter.js:428-459 | one row's start columns and the grid afterwards are those of the moving cursor |
| `HeaderGrid.ComputeIndexes` | lib/htdocs/lib/scripts/jquery.tablesorter.js:422-461 | every cell starts where section 4.9.12.1 of the HTML Standard puts it, spans of 0 read as 1; starts strictly increase in a row |
| `HeaderGrid.AgreesExactly` | lib/htdocs/lib/scripts/jquery.tablesorter.js:435-436 | the code agrees with the Standard if and only if no header cell starts below a cell of rowSpan 0 |
| `HeaderGrid.AgreesOnBounded` | lib/htdocs/lib/scripts/jquery.tablesorter.js:435-436 | the code agrees with the Standard whenever rowSpan 0 stands in the last header row only, or nowhere |
| `HeaderGrid.RowSpanZeroDiffers` | lib/htdocs/lib/scripts/jquery.tablesorter.js:435 | a header of two rows where rowSpan 0 makes them differ |
| `SqlMachine.LoadKeeps` | src/libnullg/sql.c:1622-1654 | loading the library keeps state and trace linked |
| `SqlMachine.OpenKeeps` | src/libnullg/sql.c:1664-1686 | a successful open happens only when every earlier handle is closed |
| `SqlMachine.ExecKeeps` | src/libnullg/sql.c:1688-1803 | an exec on a connected state is on an open handle of a loaded library |
| `SqlMachine.ClosedKeeps` | src/libnullg/sql.c:1341-1349 | either backend's disconnect closes the open handle once and leaves no connection |
| `SqlMachine.UnloadKeeps` | src/libnullg/sql.c:1806-1826 | unloading happens only with no handle open |
| `SqlMachine.StepMovesOne` | src/server/sql.c:20-52 | a step of one thread moves no other thread |
| `SqlMachine.StepKeeps` | src/server/sql.c:20-52 | every step of every thread, whatever the environment answers, keeps the invariant |
| `SqlMachine.EveryRunSafe` | src/server/sql.c:20-95 | in every interleaving of any number of threads at most one is in the backend, no exec is on a closed handle or an unloaded library, and each good handle is closed at most once and before the next good open |
| `SqlMachine.CallCompletes` | src/libnullg/sql.c:1351-1464 | a query or update that is alone and meets no failure loads and connects only if needed, executes its statements on the open handle, stays connected and gives the mutex back |
| `SqlMachine.DisconnectCompletes` | src/libnullg/sql.c:1806-1834 | a disconnect closes what is open, unloads what is loaded and gives the mutex back |
| `SqlMachine.SqliteFails` | src/libnullg/sql.c:1688-1803 | a failed SQLITE3 query closes the connection, a failed update keeps it; the number of changes is asked for either way |
| `SqlMachine.PgsqlQueryFails` | src/libnullg/sql.c:1394-1464 | a failed BEGIN, DECLARE or FETCH closes the connection once; the results of CLOSE and END are not looked at |
| `SqlMachine.PgsqlUpdateFails` | src/libnullg/sql.c:1374-1392 | a failed BEGIN or statement ends the update and keeps the connection |
| `SqlMachine.LeftOut` | src/libnullg/sql.c:1695-1782 | which statements are skipped without a result object, without a table for the rows or without memory |
| `SqlMachine.EarlyFailures` | src/libnullg/sql.c:1622-1686 | an empty query, a missing library or symbol and a failed open end the call, and what they leave behind |
| `FbDecimal.Tens` | src/libnullg/sql.c:757-759 | the loop computes 10^-scale |
| `FbDecimal.Branches` | src/libnullg/sql.c:760-765 | with C's truncating division, all three branches print the sign, whole part and fraction of the value |
| `FbDecimal.StoreField` | src/libnullg/sql.c:729-775 | the text is written into the 1024-byte buffer with its NUL if it fits, and runs past the end exactly when it does not, for every 16, 32 and 64-bit value and scales from -18 up |
| `FbDecimal.FractionReads` | src/libnullg/sql.c:760-766 | the digits printed for a negative scale denote value / 10^-scale, values between -1 and 0 included |
| `FbDecimal.DenotesExactly` | src/libnullg/sql.c:753-772 | unless blanks fall inside, the printed text denotes exactly value * 10^scale, with exactly -scale fractional digits |
| `FbDecimal.PrintedExamples` | src/libnullg/sql.c:736-768 | the texts of -0.05 and of 7 with two zeros, in fields of 6, 11 and 21 characters |
| `FbDecimal.StaysInside` | src/libnullg/sql.c:700-772 | the text and its NUL stay inside the buffer if and only if the scale is not positive or field width and scale together are below 1024 |
| `FbDecimal.LargestScale` | src/libnullg/sql.c:700-772 | the largest scales that fit: 1017, 1012 and 1002 for 16, 32 and 64-bit values |
| `FbDecimal.RightExactlyWhen` | src/libnullg/sql.c:736-772 | the text is right and stays inside the buffer if and only if a negative width pads no blanks behind the whole part, and the zeros of a positive scale fit |
| `FbDecimal.WideEnough` | src/libnullg/sql.c:736-751 | no blanks fall inside when the scale is at least minus the field width |
| `FbDecimal.ShortPadsInside` | src/libnullg/sql.c:737-740 | a 16-bit 5 with scale -8 is printed with blanks inside and denotes nothing |
| `FbDecimal.LongScaleOverruns` | src/libnullg/sql.c:767-768 | a 64-bit 1 with scale 1100 is 1121 characters, past the end of the buffer |
| `SqlText.UndoubleInverts` | src/libnullg/sql.c:2188-2217 | un-doubling an escaped text returns the text, for every string and set of special characters |
| `SqlText.DoubleInverts` | src/libnullg/sql.c:2188-2217 | only escaped texts can be un-doubled, and escaping gives them back |
| `SqlText.EscapedText` | src/libnullg/sql.c:2188-2217 | in characters: a quote becomes two, and for str2sql a backslash becomes two |
| `SqlText.Str2Sql` | src/libnullg/sql.c:2188-2217 | the output is the text with quotes and backslashes doubled, and a NUL, whenever it fits |
| `SqlText.NspSqlEscape` | src/dbutil/main.c:44-73 | copying whole segments equals doubling each quote |
| `SqlText.QuotesOnly` | src/dbutil/main.c:44-73 | the two escapes agree on every string without a backslash |
| `SqlText.Align` | src/libnullg/sql.c:289-291 | the next even offset |
| `SqlText.LengthOf` | src/libnullg/sql.c:640-648 | a VARYING field has room for its length word, its text and a terminator, any other for its declared length |
| `SqlText.Layout` | src/libnullg/sql.c:639-659 | data and indicators of all fields lie in field order, disjoint, at even offsets, inside the extent, for every field list whose extent is below 32768 |
| `Calendar.CountOfDate` | src/server/format.c:132-155 | the year and month sums invert the calendar's successor rule: the date n days after 1970-01-01 counts n |
| `Calendar.CountTomorrow` | src/server/format.c:132-155 | the count grows by one from each day to the next, in every year, leap years and centuries included |
| `Calendar.CountGrows` | src/server/format.c:132-155 | later dates count more days |
| `Calendar.FloatTest` | src/server/format.c:134-138 | comparing the single-precision quotient with the integer one is a divisibility test for years below 2^24, whatever way the quotient is rounded |
| `Calendar.LeapDay` | src/server/format.c:146-153 | the nested tests are the Gregorian leap-year rule |
| `Calendar.AtoiExamples` | src/server/format.c:124-131 | atoi: white space and a sign before the digits, which end at the first other character |
| `Calendar.CountDays` | src/server/format.c:132-155 | the two loops compute the Gregorian day count, as a 32-bit int holds it |
| `Calendar.TimeSql2Unix` | src/server/format.c:114-170 | the value read from every well-formed stamp of the years 0 to 9999: the product wrapped to 32 bits and clamped at 0, the time of day added with wrap-around, and before 1970 the year digits as hours |
| `Calendar.FieldsAreStamp` | src/server/format.c:172-176 | the calendar fields of a time below 2^31 form a valid stamp that denotes the time |
| `Calendar.RoundTrip` | src/server/format.c:114-176 | for every t below 2^31, reading back the written stamp gives t |
| `Calendar.StampsSort` | src/server/format.c:172-176 | comparing stamps as text is comparing their signed seconds, both ways, for all years |
| `Calendar.ReadExactly` | src/server/format.c:122-169 | the value read is the signed second of the stamp if and only if that second is from 0 up to 2^31 - 1 |
| `Calendar.ReadKeepsOrderExactly` | src/server/format.c:114-170 | reading keeps a stamp in order with all stamps of seconds 0 to 2^31 - 1 if and only if it is one of them |
| `Calendar.EveOfEpoch` | src/server/format.c:124-168 | the last second of 1969 reads as 7091999 and the next second as 0 |
| `Calendar.OutOfOrder` | src/server/format.c:156-169 | a stamp before 1970 is out of order with the epoch, and one past the range of int with the last second of that range |
| `Calendar.LateStamps` | src/server/format.c:156-162 | 2038-01-19 03:14:08 reads as -2^31, and 2100-01-01 00:00:00 as 0, like the epoch |
| `Calendar.KnownStamps` | src/server/format.c:114-170 | 2001-09-09 01:46:40 reads as 1000000000 and 2009-02-13 23:31:30 as 1234567890 |
| `Calendar.WrapTimes` | src/server/format.c:156 | wrapping before and after the multiplication gives the same value |
| `Base64.SpacesAreIgnored` | src/server/format.c:28-32 | white space anywhere changes nothing |
| `Base64.WhiteSpaceIs` | src/server/format.c:29 | white space is blank, tab, line feed, vertical tab, form feed and carriage return |
| `Base64.AlphabetIs` | src/server/format.c:22 | the letters are the 64 characters of the table in its order |
| `Base64.AlphabetOnly` | src/server/format.c:31-32 | letters and offsets invert each other, and no other character has an offset |
| `Base64.TestVectors` | src/server/format.c:20-71 | the encodings of f, fo and foo in section 10 of RFC 4648 |
| `Base64.FourLetters` | src/server/format.c:33-67 | the four states rebuild three bytes from four sextets |
| `Base64.RoundTrip` | src/server/format.c:20-71 | decoding the section 4 encoding of RFC 4648 of any bytes, with white space inserted anywhere, gives the bytes |
| `Base64.Store` | src/server/format.c:33-67 | one character keeps the destination and the decoder's state in step, or finds no room and changes nothing |
| `Base64.NoRoomIsFilled` | src/server/format.c:33-67 | where no further character has room, the destination holds as much as it can of the decoded bytes |
| `Base64.Decode` | src/server/format.c:20-71 | the whole outcome: all decoded bytes when they are fewer than szdest, and otherwise szdest of them at the end of a quantum or szdest - 1 and the bits known of the next; when a foreign character is reported and when the NUL is put; nothing else is written |
| `Smtp.Connection.Fgets` | src/misc/sendmail/smtpc.c:66-85 | one line or max characters, or -1 when the stream ends first |
| `Smtp.Connection.ReadReply` | src/misc/sendmail/smtpc.c:103-111 | the loop ends with the first line whose fourth character is a blank or missing, and with the stream behind it |
| `Smtp.Connection.Disconnect` | src/misc/sendmail/smtpc.c:103-115 | QUIT is sent, and the socket closed only if a reply came |
| `Smtp.Connection.Expect` | src/misc/sendmail/smtpc.c:172-176 | one stage of the dialogue: go on with the right code, QUIT and fail with a wrong one, fail at once at the end of the stream |
| `Smtp.Connection.Client` | src/misc/sendmail/smtpc.c:167-211 | against every reply stream the client sends and returns exactly what the script of stages says, and nothing before a greeting |
| `Smtp.CommandsInOrder` | src/misc/sendmail/smtpc.c:167-211 | the commands are a prefix of HELO, MAIL, RCPT, DATA, body, dot, optionally followed by QUIT |
| `Smtp.SentOnlyAfter` | src/misc/sendmail/smtpc.c:167-211 | a later stage's command goes out only after the right codes for all earlier stages |
| `Smtp.MessageOnlyAfter` | src/misc/sendmail/smtpc.c:189-198 | no line of the message and no final dot before 250, 250, 250 and 354 |
| `Smtp.ResultIsZero` | src/misc/sendmail/smtpc.c:199-211 | the result is 0 if and only if every reply, that to the final dot included, has its code; otherwise -1 |
| `Smtp.QuitExactly` | src/misc/sendmail/smtpc.c:103-115 | QUIT is sent, once and last, unless the stream ends where a reply should come |
| `Smtp.SentExactly` | src/misc/sendmail/smtpc.c:172-211 | the result is 0 if and only if the replies to HELO, MAIL, RCPT and the final dot start with the characters 250 and the reply to DATA with 354 |
| `Smtp.MessageOnlyAfterCodes` | src/misc/sendmail/smtpc.c:172-198 | no line of the message and no final dot before replies that start with 250, 250, 250 and 354, in characters |
| `Smtp.ScriptIs` | src/misc/sendmail/smtpc.c:171-198 | the commands in order: HELO, MAIL, RCPT, DATA, every line of the message, the dot |
| `Smtp.LimitsOfLines` | src/misc/sendmail/smtpc.c:66-85 | a line of up to three characters ends a reply, and a line without an end is cut at 1023 |
| `Smtp.LastLineJudges` | src/misc/sendmail/smtpc.c:172-176 | a reply of any number of lines (section 4.2.1 of RFC 5321) is judged by its last line if and only if a blank or NUL follows that line's code |
| `Smtp.BareCodeReadPast` | src/misc/sendmail/smtpc.c:172-175 | a reply of the bare code, which the RFC allows, is read past |
| `Smtp.MessageReceived` | src/misc/sendmail/smtpc.c:195-198 | the message, sent as it is, is received unchanged by the rules of sections 4.1.1.4 and 4.5.2 of RFC 5321 if and only if it is empty or ends in CRLF and no line starts with a dot |
| `Smtp.DotEndsMessage` | src/misc/sendmail/smtpc.c:195-198 | a line of a single dot ends the message there, and everything behind it is taken for commands |
| `Csv.FieldDefined` | src/misc/sync/csv/csvsync.c:71-83 | the first heading that the table has for the field, in any case |
| `Csv.RFieldDefined` | src/misc/sync/csv/csvsync.c:85-97 | the field of the first row whose heading matches in any case |
| `Csv.SameButForCase` | src/misc/sync/csv/csvsync.c:77 | two names match if and only if they are the same but for the case of ASCII letters |
| `Csv.CaseDoesNotMatter` | src/misc/sync/csv/csvsync.c:71-97 | changing the case of letters finds the same field and the same heading |
| `Csv.HeadingFindsField` | src/misc/sync/csv/csvsync.c:25-67 | each heading of the shipped table finds its own field, so no two clash |
| `Csv.SameOrder` | src/misc/sync/csv/csvsync.c:225-246 | values are written in the order of the headings |
| `Csv.CondWriteval` | src/misc/sync/csv/csvsync.c:192-200 | a quoted value, with a comma before it unless it is the first, if the field has a heading |
| `Csv.RowOfTwo` | src/misc/sync/csv/csvsync.c:195-196 | two values in characters: quoted, with a comma between |
| `Csv.LinesOfTwo` | src/misc/sync/csv/csvsync.c:222-248 | each contact is a line of its own |
| `Csv.RoomOf` | src/misc/sync/libxmlsync/xmlsync.h:50-93 | the sizes of the fields by column: 26 for the four numbers, 11 for the two postal codes, 51 for the others |
| `Csv.LimitsAre` | src/misc/sync/csv/csvsync.c:270-272 | a cell of up to 127 characters fits, a line is cut at 12286, and the names fit in 2047 |
| `Csv.WriteHeader` | src/misc/sync/csv/csvsync.c:214-220 | the header row is all headings, quoted and joined by commas |
| `Csv.WriteContact` | src/misc/sync/csv/csvsync.c:225-246 | a row is all 22 values, quoted and joined by commas |
| `Csv.Dump` | src/misc/sync/csv/csvsync.c:202-252 | the file is the header and a line for each contact |
| `Csv.CellsOfRow` | src/misc/sync/csv/csvsync.c:326-384 | splitting a row of values without comma or newline gives back the values without their quotes |
| `Csv.PackedCells` | src/misc/sync/csv/csvsync.c:298-310 | the strings packed into the fields buffer are the cells of the header line |
| `Csv.ParseHeader` | src/misc/sync/csv/csvsync.c:295-310 | the buffer holds the names in order, and the count is one short of them |
| `Csv.GetFieldName` | src/misc/sync/csv/csvsync.c:254-265 | the numbered name, or a null pointer from the count on |
| `Csv.StoreCell` | src/misc/sync/csv/csvsync.c:327-378 | the cell is stored, clipped, in the field its heading stands for |
| `Csv.ParseRow` | src/misc/sync/csv/csvsync.c:322-384 | every cell but the last is stored |
| `Csv.Restore` | src/misc/sync/csv/csvsync.c:295-384 | the contacts read from any file within the buffer limits |
| `Csv.RoundTrip` | src/misc/sync/csv/csvsync.c:202-384 | for every list of records without comma or newline, restoring the dump gives back every column of every contact, without quotes and clipped by one byte where it fills its field, except the last column, which stays empty |
| `Csv.ExactlyWhen` | src/misc/sync/csv/csvsync.c:202-384 | over all records: the dump can be restored, and to the same contacts, if and only if every last column is empty and every other value has no comma, quote or newline and does not fill its field |
| `Csv.RowPerBreak` | src/misc/sync/csv/csvsync.c:316-321 | every newline of the file makes a row of its own |
| `Csv.FitIsFlat` | src/misc/sync/csv/csvsync.c:326-328 | a row with no more cells than the header has no comma among its values |
| `Csv.PostalCodeLost` | src/misc/sync/csv/csvsync.c:326-384 | a contact with nothing but a business postal code is restored blank |

## Left out

- Calendar.TimeSql2Unix: covers well-formed stamps; other text is read by the same loops but may index the month table unchecked. Overflow of `int`, undefined in C, is taken to wrap around.
- Calendar.LeapDay: years below 2^24; from there on a year is no longer exact in single precision.
- Md5.Md5Context.Final: does not state that the whole context is cleared, because the `memset` has the size of a pointer.
- Md5.Md5Context.StoreWord: a machine that keeps the low-order byte first, where byteReverse is empty. Words are numbers below 2^32: shifts are written as products, quotients and remainders, and an OR of separate bits as a sum; only F, G, H and I work on bit vectors.
- Md5Crypt.Md5CryptString: passwords below 2^31 bytes, the range of the lengths that the source keeps in `int`.
- Tcp.TcpSocket.Send: the number that send or SSL_write returns is a parameter; the bytes sent are not modelled.
- Tcp.TcpSocket.Adopt: accept and connect are reduced to a descriptor that was not in use before.
- Tcp.Serve: one socket; ssl_connect and logging are not modelled.
- Tcp.TcpSocket.Recv: the script of the environment is finite, and its end stands for a connection that fails. A peer that closes cleanly makes recv return 0 for ever, and the source retries for ever; that run has no end and no result.
- TableSorter.Table.Resort: the browser's sort is any comparison sort; which one does not matter by TableSorter.SortedUnique. Keys are null, strings or finite numbers, so NaN and infinite keys are out.
- TableSorter.Table.Click: cell text extraction, parsers, style classes, widgets and custom appenders are not modelled; the text of the compiled comparator is represented by its syntax tree. The default headerList array, which all tables of a page share, is taken as this table's own.
- TableSorter.Table.constructor: the entries of sortForce are different objects, as a literal makes them; the initial sort list and the sorton, update and updateCell events are not modelled.
- SqlMachine.EveryRunSafe: only SQLITE3 and PGSQL; result tables, leaked PGresult objects and the missing END of failed updates are not modelled, and dlopen and dlsym are answers of the environment.
- FbDecimal.StoreField: scales below -18 overflow the 64-bit power of ten and are excluded.
- SqlText.Str2Sql: without room for the escaped text the source writes past the end; the model requires the room.
- SqlText.Layout: the default FB_ALIGN only, which rounds to even offsets whatever alignment is asked for; offsets from 32768 on overflow a `short`.
- Base64.Decode: requires dest[szdest] to exist, where the source puts its NUL; a null destination is not modelled. Shifts and masks are written as products, quotients and remainders, and an OR into zero bits as a sum.
- Smtp.Connection.Client: starts when the envelope is read and the connection is up; command arguments are not modelled.
- Csv.Restore: stops at the parsed contacts; merging them with the server's records is not modelled. A header or value beyond the buffers, or a row with more cells than the header, is excluded, since the source does not check them.
- Csv.Chomp: a row of line ends only stops at the empty line, where the source reads the byte before its buffer.
- Sockets, TLS handshakes, dynamic loading, files, logging and clocks appear only as answers of an arbitrary environment.
- The MySQL, ODBC, SQLite 2 and Firebird connection backends, the NSP interpreter, module and listener registries, configuration readers, DNS lookup, the Outlook sync and the Windows service are not modelled.
