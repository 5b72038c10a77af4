# A Dafny model of libest's self-contained algorithms

libest is an implementation of EST (RFC 7030). Around its use of OpenSSL and sockets it
contains a number of algorithms that need nothing but bytes, arrays and files. This project
models them and proves what they are for:

| file | what it models |
|---|---|
| `Jsmn.dfy` | the jsmn tokenizer, default build: scans, turns and whole calls on values, and the C code working in place on a token array |
| `JsmnProofs.dfy`, `JsmnNesting.dfy`, `JsmnStack.dfy` | restarts after NOMEM, counting mode, the stack behind the backward scans, when a call succeeds, the layout of the spans; a reference tokenizer with an explicit stack |
| `JsonDocs.dfy`, `JsonDump.dfy` | JSON texts (RFC 8259, sections 2 to 7) in every serialization and the tokens they give; the recursive `dump` walk |
| `Multipart.dfy`, `MultipartReading.dfy`, `MultipartBodies.dfy` | the multipart state machine and its callbacks on their fixed arrays; how it reads lines and data; what every body of two parts gives (section 5.1 of RFC 2046, section 4.4.2 of RFC 7030), malformed bodies, and when the parser writes behind its arrays |
| `CaStore.dfy` | the serial and index files of the example CA, their rotation by rename, and whole runs of enrollments with failures anywhere |
| `Der.dfy`, `DerValues.dfy` | scanning and rewriting CSR attributes in DER (sections 8.1.3 and 10.1 of X.690, section 4.5.2 of RFC 7030); values in every encoding and what the scan makes of them |
| `NameParser.dfy`, `NameGrammar.dfy` | the escaped distinguished-name parser, and exactly the texts it accepts |
| `Entries.dfy`, `Policy.dfy`, `Extensions.dfy` | typed entries; the policy loop; copying extensions |
| `WorkQueue.dfy` | the bounded queue between accepting thread and workers, over all interleavings |
| `HttpHeaders.dfy`, `HttpBuffer.dfy`, `HttpResponses.dfy` | splitting HTTP headers in place, checking the content headers, and what is handed back of whole responses |
| `Calendar.dfy` | `my_timegm` |
| `RetryTable.dfy` | the linked list that makes a client ask twice |
| `Texts.dfy`, `Options.dfy` | a text found at a place in a longer one; optional values |

Code that works step by step on buffers, token arrays, files, lists or queues is modelled as
classes and methods with loops. Most are proved to compute a function on values, and the
properties are lemmas about that function; the file rotations carry their properties
themselves. The laws about whole inputs write their characters, names, numbers and formats out
and do not use the definitions of the model for them. Proofs of long runs keep the function's definition hidden and use a lemma about
its first turn. Inductions are written out, so lemmas switch automatic induction off.

Conventions. A C `char` buffer is a `string` with one `char` per byte; a terminating NUL is
kept where the code tests for it. Integers are unbounded: all counters stay below the lengths
of their inputs, which the C code needs to fit an `int` anyway. Results of OpenSSL calls, disk
failures and the stop request are parameters.

## Model

| member | source | states |
|---|---|---|
| Jsmn.Parser.constructor | src/est/jsmn.c:309-313 | the initial parser is the initial state of `Run` |
| Jsmn.Parser.AllocToken | src/est/jsmn.c:6-19 | the next token reset, or -1 exactly when the array is full; no other token changes |
| Jsmn.Parser.FillNext | src/est/jsmn.c:68-73 | the token [a, b) is appended, or NOMEM with `pos` put back and nothing changed |
| Jsmn.Parser.ParsePrimitive | src/est/jsmn.c:35-79 | in both modes: span, error code and `pos` of the primitive scan, and an unchanged state on every error |
| Jsmn.Parser.SkipHex | src/est/jsmn.c:124-134 | the digits of a \u escape: at most four, fewer only at the end of input |
| Jsmn.Parser.ParseString | src/est/jsmn.c:84-146 | in both modes: the string up to its closing quote, escapes checked, and an unchanged state on every error |
| Jsmn.Parser.FindOpen | src/est/jsmn.c:209-228 | the backward scan finds the last open token below a bound |
| Jsmn.Parser.OpenBracket | src/est/jsmn.c:164-181 | an open token is appended and counted into its superior token, or NOMEM |
| Jsmn.Parser.CloseBracket | src/est/jsmn.c:182-230 | the last open token is closed if its kind matches and the next one out becomes superior; otherwise INVAL and nothing changes |
| Jsmn.Parser.Comma | src/est/jsmn.c:243-260 | the superior token goes back from a key to the enclosing container |
| Jsmn.Parser.Turn | src/est/jsmn.c:158-291 | one turn of the main loop is `Step`, and adds to `count` exactly what it adds to the tokens |
| Jsmn.Parser.Parse | src/est/jsmn.c:151-303 | return value, parser and tokens of a call are `Run` of the state before; the unused part of the array is untouched |
| Jsmn.Parser.Count | src/est/jsmn.c:151-303 | return value and parser of a call without tokens are `RunCount` |
| JsmnProofs.RestartOnce | src/est/jsmn.c:169-171 | a call repeated with a larger array after NOMEM ends like one call with the larger array |
| JsmnProofs.Restart | src/est/jsmn.c:68-72 | any number of restarts with growing arrays ends in the same state, tokens and return value as one call with the last array |
| JsmnProofs.CountAgrees | src/est/jsmn.c:63-79 | counting from a fresh parser returns what a successful filling returns, and an array of that size is never too small |
| JsmnProofs.ScanFindsTop | src/est/jsmn.c:209-228 | the backward scan finds the top of the stack of open brackets, and what is below it is the rest of the stack |
| JsmnProofs.ClosePops | src/est/jsmn.c:182-230 | a closing bracket pops that stack, and is refused exactly when the top does not match |
| JsmnProofs.ScansRefineStack | src/est/jsmn.c:164-230 | from every state, unless tokens run out, the return value (error codes included) is that of a tokenizer with an explicit stack |
| JsmnProofs.BracketsMatch | src/est/jsmn.c:293-300 | on every input with one token per byte, `jsmn_parse` returns what the stack tokenizer returns |
| JsmnStack.ParseIsReference | src/est/jsmn.c:151-303 | on every input and token array, return value, position, superior token and all tokens with their sizes are those of a reference tokenizer with an explicit stack of open tokens |
| JsmnNesting.SucceedsIffNested | src/est/jsmn.c:164-230 | with enough tokens a call succeeds if and only if all lexemes are well formed and the brackets outside them are those of a forest |
| JsmnNesting.CountsLexemes | src/est/jsmn.c:151-303 | counting fails exactly if a lexeme is malformed, and otherwise returns the number of opening brackets, strings and primitives, whatever the brackets |
| JsmnProofs.RunSpans | src/est/jsmn.c:151-303 | every call keeps the spans inside the bytes read, starts increasing, later spans behind or inside earlier ones, and ends without an open token if it succeeds |
| JsmnProofs.SpansNest | src/est/jsmn.c:151-303 | after success all spans lie in the input, starts strictly increase, and any two spans are nested or disjoint |
| JsonDocs.StringExact | src/est/jsmn.c:84-146 | on every input: behind a quote stands a string of RFC 8259, a bad escape or a cut string, and the scan gives its end, INVAL or PART accordingly |
| JsonDocs.JsonPrimitives | src/est/jsmn.c:35-79 | the literals and all numbers of RFC 8259 are primitives of the tokenizer |
| JsonDocs.BadStringRefused | src/est/jsmn.c:112-142 | a string with an escape RFC 8259 does not have, or with a non-hexadecimal digit, gives INVAL and changes nothing |
| JsonDocs.CutStringPartial | src/est/jsmn.c:144-146 | input that ends inside a string gives PART and changes nothing |
| JsonDocs.BadPrimitiveRefused | src/est/jsmn.c:50-53 | a primitive with a control character or a byte above 126 gives INVAL and changes nothing |
| JsonDocs.ReadValue | src/est/jsmn.c:151-303 | reading any printed value from any state appends its tokens, counts it into its superior token, and leaves the right superior token |
| JsonDocs.ReadElems | src/est/jsmn.c:164-181 | reading the elements of an array closes it with one child per element |
| JsonDocs.ReadMembers | src/est/jsmn.c:231-260 | reading the members of an object closes it with one child per member, each key having one child |
| JsonDocs.ParsePrinted | src/est/jsmn.c:151-303 | for every JSON value in every serialization the call returns the number of values and keys and leaves exactly the preorder: kinds, spans and sizes |
| JsonDocs.TooFewTokens | src/est/jsmn.c:169-171 | with fewer tokens than values and keys the call returns NOMEM and nothing else |
| JsonDump.DumpWalk | example/server/estserver.c:1092-1126 | on every token array the walk terminates and consumes what `Dump` says, the remaining count wrapping around as a `size_t` |
| JsonDump.DumpValue | example/server/estserver.c:1092-1126 | started at the first token of any value, the walk consumes exactly the tokens of that value |
| JsonDump.DumpDocument | example/server/estserver.c:1092-1126 | after parsing any printed document, the walk from the root consumes exactly all tokens |
| JsonDump.DumpFlat | example/server/estserver.c:1092-1126 | a count that is too small ends the walk after as many elements as it allows |
| Multipart.Parser.GetHeader | src/est/multipart_parser.c:188-208 | the value of the last stored header with that name, found in the arrays |
| Multipart.Parser.ReadHeaderValue | src/est/multipart_parser.c:155-182 | a header is kept in its slot of the arrays exactly if name and value are known; all other slots and the payloads stay |
| Multipart.Parser.ReadPartData | src/est/est_client_http.c:941-991 | the part-data callback: data copied to the buffer of its type, or refused if blank, too long or without headers; stop exactly when both payloads are there |
| Multipart.Parser.Execute | src/est/multipart_parser.c:239-469 | on every payload the call terminates; it leaves one of its fixed arrays exactly if `Run` says so, and otherwise returns what `Run` says, with its arrays holding the payloads; the bytes it replays from the look-behind buffer are those it skipped |
| Multipart.ParseRemainingPayload | src/est/est_client_http.c:993-1026 | error code, key and certificate of the whole payload parse, or that an array was left |
| MultipartReading.DataEnds | src/est/multipart_parser.c:370-392 | whatever the data, the callback gets exactly the bytes before the first CR that has a '-' in one of the two bytes behind it |
| MultipartReading.EndsBehindData | src/est/multipart_parser.c:370-392 | data in front of a closing line break is read to its end if and only if no '-' follows a CR in it within two bytes |
| MultipartReading.ReadBoundary | src/est/multipart_parser.c:263-287 | a boundary line is only counted: any bytes of the right number are read over |
| MultipartReading.ReadLines | src/est/multipart_parser.c:289-368 | any list of header lines is stored, unless one of them finds 16 headers stored already |
| MultipartBodies.ReadSection | src/est/multipart_parser.c:255-392 | a whole part with any headers and data: what it stores, which headers stay in force, and whether the call ends |
| MultipartBodies.CallbackJudges | src/est/est_client_http.c:941-991 | data is passed over without a known type and base64 encoding, refused if blank or above 8192 bytes, and otherwise stored under the last type |
| MultipartBodies.BodyGives | src/est/multipart_parser.c:239-469 | every body of two parts, with any headers and data, gives the error code and the payloads that its headers and data say |
| MultipartBodies.BadDataRefused | src/est/est_client_http.c:956-981 | a part that is blank or above 8192 bytes ends the call with MULTIPART_PARSE and is not stored; what the part before gave remains |
| MultipartBodies.HeaderMissing | src/est/est_client_http.c:946-954 | a part without known type or encoding is passed over, and the call ends with ZERO_LENGTH_BUF and the other part alone |
| MultipartBodies.PartWithoutData | src/est/multipart_parser.c:357-368 | a part whose headers are followed by the next boundary line at once lends its headers to the next part |
| MultipartBodies.ThirdPart | src/est/multipart_parser.c:427-456 | a third part behind the boundary still completes two of the same kind |
| MultipartBodies.WrongBoundary | src/est/multipart_parser.c:411-419 | a wrong line behind two parts that do not complete each other is read as a header; MULTIPART_PARSE if it cannot be one |
| MultipartBodies.UnfinishedPart | src/est/multipart_parser.c:389-391 | a first part that the payload ends in is handed over with two zero bytes read behind the payload |
| MultipartBodies.AnyDashes | src/est/multipart_parser.c:246-248 | any number of dashes, at least one, may stand in front of the first line |
| MultipartBodies.OnePart | src/est/multipart_parser.c:263-287 | a body of one part gives that part alone with ZERO_LENGTH_BUF; with a single closing dash MULTIPART_PARSE |
| MultipartBodies.BadClosing | src/est/multipart_parser.c:427-456 | behind two parts that do not complete each other, the boundary must be followed by two dashes or a line break |
| MultipartBodies.BadFirstLine | src/est/multipart_parser.c:263-281 | a first line that is not as long as the boundary or lacks its line feed ends the call with MULTIPART_PARSE |
| MultipartBodies.BadNameRefused | src/est/multipart_parser.c:308-316 | so does a header name with a byte that is no letter or '-', or with more than 64 bytes |
| MultipartBodies.BadBreakRefused | src/est/multipart_parser.c:357-361 | so does a CR behind a header value without a line feed |
| MultipartBodies.BadEmptyLine | src/est/multipart_parser.c:322-326 | so does a CR behind the header lines without a line feed |
| MultipartBodies.BodyParses | src/est/multipart_parser.c:239-469 | for every boundary, two parts in either order and any text behind them, the parse stays inside its arrays and gives exactly the printed key and the printed certificate |
| MultipartBodies.PartsParse | src/est/multipart_parser.c:263-287 | the same holds with any other bytes in place of the two boundaries, as long as their number is right |
| MultipartBodies.SameKindTwice | src/est/multipart_parser.c:411-425 | two parts of the same kind are refused and the second is kept, unless the boundary has 69 bytes: then, and only then, it is copied behind the look-behind buffer |
| MultipartBodies.HeadersOverrunIff | src/est/multipart_parser.c:151-153 | for every list of header lines: the array of 16 headers is left if and only if at least 16 of the lines before the last are stored |
| MultipartBodies.SeventeenHeaders | src/est/multipart_parser.c:151-153 | a header repeated 17 times leaves the array |
| MultipartBodies.LongestBoundary | src/est/multipart_parser.c:420-420 | two keys behind a boundary of 69 bytes leave the look-behind buffer |
| MultipartBodies.SeventyBytes | src/est/est_client_http.c:1157-1161 | a boundary of 70 bytes, which is let through, leaves its array when it is copied |
| MultipartBodies.FewColonsStayInside | src/est/multipart_parser.c:239-469 | with a boundary of at most 68 bytes, no payload whatever with fewer than 16 ':' makes the parser leave its arrays |
| CaStore.Authority.RotateSerialFile | example/server/ossl_srv.c:502-547 | succeeds exactly if no forward rename fails; whatever fails, the live serial file is new after success, old after failure, or gone, and gone only if the undoing rename failed; no other file changes |
| CaStore.Authority.RotateIndexFiles | example/server/ossl_srv.c:1063-1140 | succeeds exactly if no forward rename fails, with the previous contents under .old; whatever fails, the live index is the old one, the new one or gone; if only forward renames fail, live and .new files are restored exactly |
| CaStore.Authority.RotateBoth | example/server/ossl_srv.c:2756-2765 | the new index is live only beside the new serial; while undoing works, a failure costs at most the serial number |
| CaStore.Authority.SaveFiles | example/server/ossl_srv.c:2705-2709 | only the three .new files change, and on success they hold the new serial, rows and attributes |
| CaStore.Authority.SimpleEnroll | example/server/ossl_srv.c:2653-2774 | a certificate is returned exactly if the files load, signing accepts the request and no save, forward rename or export fails; it is then committed to both live files; every other outcome for the live files is listed; the invariant of `RunKeeps` is kept |
| CaStore.EnrollKeeps | example/server/ossl_srv.c:2653-2774 | every enrollment keeps the invariant and never lowers the serial file |
| CaStore.SerialNeverClashes | example/server/ossl_srv.c:1710-1719 | under the invariant the duplicate-serial check never fires |
| CaStore.RunKeeps | example/server/estserver.c:774-837 | over every sequence of serialized enrollments with any failures: serial file above all live index serials, returned serials all different, returned certificates in the live index while it exists |
| CaStore.CleanRun | example/server/ossl_srv.c:2681-2766 | over every run in which nothing fails: the serial file grows by one for each certificate returned, the serials are consecutive from its old value on, and the live index is the old one followed by exactly their rows |
| CaStore.CleanEnrollment | example/server/ossl_srv.c:1695-1719 | if nothing fails, a request is served if and only if it can be signed, the index is sound and, where subjects are unique, no valid row has its subject |
| CaStore.SerialsUsedUp | example/server/ossl_srv.c:2689-2690 | with failures anywhere, an enrollment uses up at most one serial number |
| CaStore.AnyFailureRefuses | example/server/ossl_srv.c:2653-2774 | nothing is issued if signing, one of three writes, one of six forward renames or the export fails |
| CaStore.RevokedEnrollsAgain | example/server/ossl_srv.c:1701-1709 | a subject whose rows are all revoked can enroll again |
| CaStore.AttributeOverridesDefault | example/server/ossl_srv.c:1701-1709 | the attribute file decides whether subjects are unique, the default only without it |
| CaStore.SerialTaken | example/server/ossl_srv.c:1710-1719 | a serial that is in the index already is refused and no live file changes |
| CaStore.UnusableFiles | example/server/ossl_srv.c:2653-2656 | without usable files nothing is issued and no live file changes |
| CaStore.SerialNeverDecreases | example/server/ossl_srv.c:2653-2774 | between any two moments of a run the serial file has not gone down, and once gone it stays gone |
| Der.AsnSanityTest | src/est/est.c:1307-1374 | the scan's error code, its two length limits, and `pop_present` on every input: the OID was seen before the end or the first malformed TLV; it terminates on every input |
| DerValues.ValuesScan | src/est/est.c:1330-1365 | every list of values, in every encoding of their headers and at any depth, is accepted, and challengePassword is found if and only if it occurs |
| DerValues.PrintedAttributes | src/est/est.c:1307-1374 | error code and `pop_present` of every printed list of values, with the limits 1024 and 1035 |
| DerValues.BrokenFound | src/est/est.c:1330-1338 | an element that does not fit into what is left is found behind any values and inside any open SEQUENCE or SET |
| DerValues.BrokenRefused | src/est/est.c:1330-1338 | the test then answers BAD_ASN1_HEX |
| DerValues.ShortIsShort | src/est/est.c:1325-1327 | fewer than two bytes are too short, and nothing else is |
| DerValues.OidsAgree | src/est/est.c:1341-1343 | contents decode as an identifier if and only if they are a list of subidentifiers |
| DerValues.AddedIffSequence | src/est/est.c:1474-1480 | challengePassword can be added if and only if the first value is a SEQUENCE |
| Der.WriteHeader | src/est/est.c:1485-1523 | the shortest identifier and length octets for the contents |
| Der.BuildSequence | src/est/est.c:1480-1525 | the new buffer is a minimal SEQUENCE around old contents and OID |
| Der.AddChpw | src/est/est.c:1448-1525 | refused unless the attributes start with a SEQUENCE, otherwise the rewritten attributes |
| Der.ScanConcat | src/est/est.c:1330-1365 | scanning concatenated TLVs is scanning one text after the other |
| Der.SequenceHeader | src/est/est.c:1485-1523 | the header written is decoded to exactly the contents |
| Der.AddedOid | src/est/est.c:1448-1525 | for all scanned attributes: a SEQUENCE of the old contents followed by the OID, under a header than which no definite header for so many octets is shorter; found by the scan, accepted exactly up to 1035 bytes |
| Der.AddedOidFitsIff | src/est/est.c:1370-1372 | the result is accepted if and only if the old contents have at most 1020 bytes |
| Der.AddedOidFits | src/est/est.c:1448-1525 | for every single definite-length SEQUENCE filling at most 1024 bytes the result is accepted with challengePassword present |
| Der.AddedOidCanOverflow | src/est/est.c:1480-1525 | an accepted input of another shape whose result is refused as too long |
| NameParser.CollectType | example/server/ossl_srv.c:1209-1226 | the type up to '=' as a C string in the buffer, never past the bytes consumed |
| NameParser.CollectValue | example/server/ossl_srv.c:1233-1255 | the value up to its separator as a C string in the buffer |
| NameParser.CollectEntry | example/server/ossl_srv.c:1208-1257 | one more element and its flag in the parallel arrays; earlier elements stay intact |
| NameParser.ParseIntoArrays | example/server/ossl_srv.c:1180-1257 | for every C string all writes stay inside `buflen` and `max_ne`; the arrays hold exactly the parsed elements and flags |
| NameGrammar.AcceptsExactly | example/server/ossl_srv.c:1176-1257 | a text parses to a list of elements if and only if it is a text, escaped character by character, that stands for this list |
| NameGrammar.ParsePrinted | example/server/ossl_srv.c:1176-1257 | any list of elements with a non-empty last value, printed with any sufficient escaping, parses back to itself |
| NameGrammar.BadEnd | example/server/ossl_srv.c:1216-1232 | a name whose last element has no '=', nothing behind it, or ends in a `\` is refused |
| NameGrammar.NoSlash | example/server/ossl_srv.c:1198-1201 | a name without a leading '/' is refused |
| Policy.IndexByObj | example/server/ossl_srv.c:1581-1588 | the next entry of the type behind a position, or none |
| Policy.MatchInCa | example/server/ossl_srv.c:1604-1637 | the goto loop finds an equal entry of the CA's name exactly if there is one |
| Policy.Decide | example/server/ossl_srv.c:1591-1643 | what an entry, or its absence, means under each kind of policy |
| Policy.ApplyRule | example/server/ossl_srv.c:1569-1655 | one policy line accepts exactly as specified and appends exactly the request's entries of its type |
| Policy.CheckPolicy | example/server/ossl_srv.c:1568-1656 | accepted if and only if every line is satisfied; the subject is then, in policy order, the request's entries of each listed type |
| Policy.SubjectInOrder | example/server/ossl_srv.c:1568-1656 | the subject follows the order of the policy, and within a line the order of the request |
| Entries.OfMembers | example/server/ossl_srv.c:1579-1588 | the entries of a type are exactly the members that have it |
| Extensions.Certificate.GetExtByObj | example/server/ossl_srv.c:560-563 | the first extension of the type, or -1 exactly if there is none |
| Extensions.Certificate.DeleteAll | example/server/ossl_srv.c:567-573 | the do-while loop terminates and removes every extension of the type, keeping the order of the others |
| Extensions.Certificate.CopyExtensions | example/server/ossl_srv.c:549-586 | add mode: the old list followed by the first occurrence of each missing type; copy-all mode: the untouched types followed by the last occurrence of each requested type |
| Extensions.CopiedOf | example/server/ossl_srv.c:549-586 | type by type, what the certificate holds after either mode |
| Extensions.CopyMore | example/server/ossl_srv.c:558-577 | how one more extension of the request changes the result, in both modes |
| WorkQueue.Queue.GrabWork | example/util/simple_server.c:59-83 | it waits exactly while the queue is empty and there is no stop, and otherwise takes off the oldest socket across realignment; it is the step `Grab` of the interleaving model |
| WorkQueue.Queue.ProcessSocket | example/util/simple_server.c:107-124 | it waits exactly while 20 sockets are queued and there is no stop, and otherwise appends the socket if there is room; it is the step `Process` |
| WorkQueue.PushAppends | example/util/simple_server.c:116-120 | writing at `head` appends to the waiting sockets |
| WorkQueue.PopRemovesFirst | example/util/simple_server.c:68-77 | reading at `tail` removes the oldest, also when the counters wrap |
| WorkQueue.StepKeeps | example/util/simple_server.c:59-124 | every step of every thread keeps the invariant |
| WorkQueue.RunKeeps | example/util/simple_server.c:59-124 | every interleaving keeps the invariant: the FIFO of the history, the bounds, no socket claimed by two calls, none lost before a stop |
| WorkQueue.QueueIsFifo | example/util/simple_server.c:59-124 | over every interleaving: counters in bounds, popped then queued sockets are the enqueued ones in order, each true return of `grab_work` hands out a socket no other call got, and every popped socket is handed out, about to be, or, only after a stop request, dropped |
| WorkQueue.WhoWaits | example/util/simple_server.c:63-66 | in every reachable state, by the history alone: a worker waits exactly while every socket put on has been taken off, the producer exactly while 20 wait, nobody after a stop |
| WorkQueue.AllServed | example/util/simple_server.c:85-101 | up to 20 new sockets and as many rounds of one running worker serve exactly these sockets, in order |
| WorkQueue.StopDrops | example/util/simple_server.c:79-83 | a stop request between unlock and return drops exactly the socket that call has popped |
| HttpHeaders.TakeText | src/est/est.c:2258-2309 | a printed word, its delimiter and the whitespace behind it are taken as printed |
| HttpHeaders.QuotedTakes | src/est/est.c:2267-2286 | a word with quoted delimiters comes back without the quotes |
| HttpHeaders.BreakFound | src/est/est_client_http.c:874-882 | the header break is found right behind the last header |
| HttpHeaders.LinesRead | src/est/est_client_http.c:889-903 | all printed headers are read and the cursor stops at the first byte of the body |
| HttpHeaders.ResponseParses | src/est/est_client_http.c:860-905 | for every response with 1 to 16 headers the printed list comes back and the cursor is at the body |
| HttpResponses.BodyHandedOver | src/est/est_client_http.c:1764-1803 | for every printed response: exactly the body is handed back if and only if all types are the expected one and the last Content-Length is the length of the body, neither zero nor above 2000000; otherwise an empty or no payload |
| HttpResponses.PrintedLengthSuffices | src/est/est_client_http.c:1764-1803 | in particular a response that prints the length of its body last |
| HttpResponses.AtoiReads | src/est/est_client_http.c:1447-1447 | a decimal number is read behind any white space and a sign and in front of anything |
| HttpResponses.AtoiZero | src/est/est_client_http.c:1447-1447 | anything that does not start like a number counts as 0 |
| HttpResponses.ManyHeaders | src/est/est_client_http.c:886-902 | of more than 16 headers the first 16 are read |
| HttpResponses.NoEmptyLine | src/est/est_client_http.c:873-902 | without the empty line only the first header is read |
| HttpResponses.NamelessHeader | src/est/est_client_http.c:895-897 | a header without a name ends the headers |
| HttpHeaders.CheckHttpHeaders | src/est/est_client_http.c:1408-1464 | accepted if and only if there is a Content-Type, all of them are of the expected type, and there is a Content-Length, of which the last counts |
| HttpBuffer.StrCspn | src/est/est.c:2213-2230 | bytes before the first delimiter |
| HttpBuffer.StrSpn | src/est/est.c:2233-2251 | bytes that are all in a set |
| HttpBuffer.UnquoteInPlace | src/est/est.c:2267-2286 | the quoting loop removes quotes by moving the rest of the word, and changes nothing from the final delimiter on |
| HttpBuffer.SkipQuoted | src/est/est.c:2258-2302 | the word stands as a C string at the old cursor, zeros up to the new one, everything else unchanged |
| HttpBuffer.ParseOne | src/est/est_client_http.c:890-891 | one name and value cut out, earlier ones intact |
| HttpBuffer.ParseHttpHeaders | src/est/est_client_http.c:860-905 | on every terminated buffer: names and values found on the buffer as received stand in it as C strings at the end, and the rest is unchanged |
| Calendar.YearsInClosedForm | src/est/est_client_http.c:376-381 | the leap-day formula counts the days of all years since 1970 |
| Calendar.TimeGmCounts | src/est/est_client_http.c:354-383 | for every month from 1970 on, with any day number and any time of day, `my_timegm` is the number of seconds counted out year by year and month by month |
| Calendar.TimeGmOrdered | src/est/est_client_http.c:354-383 | on days and times that exist it is smaller for one time than for another if and only if the first is earlier |
| Calendar.OrderedUnlessOvertaken | src/est/est_client_http.c:568-586 | on everything `parsedate` passes on, an earlier time has a smaller value if and only if it does not run over the end of its month or minute as far as the later one |
| Calendar.OrderFails | src/est/est_client_http.c:568-586 | the 31st of February comes out behind the 1st of March, and second 60 of a year with the first second of the next |
| Calendar.MinusOneIsRare | src/est/est_client_http.c:586-589 | of everything passed on, only the last second before 1970 has the value -1 that also means an error |
| Calendar.BeforeEpoch | src/est/est_client_http.c:360-363 | before 1970 the value is -1 |
| Calendar.LateMonths | src/est/est_client_http.c:371-374 | the unreachable branch for months behind December counts whole years backwards |
| Calendar.EarlyMonths | src/est/est_client_http.c:367-370 | the unreachable branch for negative months counts whole years forwards |
| RetryTable.CompareEqual | example/server/estserver.c:435-442 | comparing gives 0 exactly for equal keys |
| RetryTable.Table.Search | example/server/estserver.c:451-466 | a node with the key exactly if the key is in the table |
| RetryTable.Table.Delete | example/server/estserver.c:468-502 | exactly the key is gone, and the list stays acyclic and free of duplicates; for a missing key the result is NULL, so the table is empty |
| RetryTable.Table.Append | example/server/estserver.c:504-522 | the node is linked behind the last one, whatever its key; keys stay different exactly if it is a new one |
| RetryTable.Table.Lookup | example/server/estserver.c:550-639 | answer and new key set of one request; undecodable requests are let through |
| RetryTable.AnswersAlternate | example/server/estserver.c:743-754 | over any run each key is answered 0 and 1 alternately, whatever else is asked in between |

## Left out

- TLS, X509 verification, signing, PKCS7/CMS, BIO handling and base64: calls into OpenSSL; their results are parameters or the model starts behind them.
- Sockets, polling, proxying, thread start-up and shutdown liveness: platform behaviour.
- Multi-tenant enrollment, BRSKI, the enhanced certificate authentication checks and the safe string stubs: no algorithm of their own, or only easy members.
- The Windows variants and the strict and parent-link builds of jsmn; malloc failures everywhere.
- Recognizing the status code: single comparisons.
- HttpHeaders.CheckHttpHeaders: `atoi` is read as the number itself; for numbers that do not fit an `int` C leaves the result open.
- The keygen variant of the header parser and the extraction of the boundary string: the multipart model starts at the first boundary line with the boundary given.
- Date text parsing around `my_timegm`: it depends on `sscanf` and an unseen comparison helper; `Calendar.Passed` states the ranges it lets through. No call reaches the branches of `my_timegm` for months outside 0 to 11.
- Der.AsnSanityTest: `ASN1_get_object` and the identifier check of OpenSSL are modelled from their documented behaviour, with lengths of any size that fit the input.
- CaStore.Authority.SaveFiles: a write that reports success is taken to have written everything; the code does not check the return value of every single write.
- Multipart.Parser.Execute: where the C code writes behind an array the model stops with `Overrun` and says nothing about what the program does from there; header values, which are kept without terminator, are compared as if a byte that does not match followed; the bytes behind the payload, read when leading dashes were skipped, are zeros.
- WorkQueue.QueueIsFifo: sockets still queued at shutdown, and one offered to a full queue after a stop request, are not followed further; the code closes none of them.
