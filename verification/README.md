# LinuxImageServer, modelled and proved

A Dafny model of a small epoll HTTP/1.1 server: the in-place request parser, routing and accounts,
the response printer and the write loop, the sorted timer list, the worker and connection pools, the
blocking queue, and the request printer of the bundled webbench. `dafny verify dfyconfig.toml`
checks everything.

## How it is put together

| file | what it is |
|---|---|
| `Wrappers.dfy` | a value that may be missing |
| `CStrings.dfy`, `CBuffers.dfy`, `Numbers.dfy` | the `<string.h>`, `strtol` and `printf` behaviour the server relies on |
| `MessageSpec.dfy` | a pure reader of request bytes, and its grammar (RFC 2616 sections 4.2, 4.4, 5.1, 5.1.2) |
| `Reception.dfy` | what `read_` makes of what arrives, and what its miscount does to requests |
| `HttpConn.dfy` | the connection handler as a class over its three byte buffers |
| `Routing.dfy` | forms, accounts, pages and files |
| `ResponseSpec.dfy`, `Wire.dfy`, `SslWrite.dfy` | response texts and framing, partial writes, the gather copy |
| `Delivery.dfy` | from the write loop to the bytes a client reads |
| `Requests.dfy` | whole requests, from their bytes to the file and the accounts they lead to |
| `WebBench.dfy` | webbench's `build_request` and what the server makes of its requests |
| `TimerOrder.dfy`, `TimerList.dfy` | the timer list as a sequence, and as linked nodes under the event loop |
| `WorkerPool.dfy`, `ConnectionPool.dfy` | the two pools as one step system |
| `BlockQueue.dfy`, `Monitor.dfy` | the ring buffer, and that ring under its mutex and condition variable |

A byte is a `char`, a `char *` into a buffer is an index, a null pointer is -1, and the nine header
pointers are one map. The parser works on the array in place: it writes NULs, and `judge.html` over
the version, and its contract says that the result is what the pure reader makes of the original
bytes and that every recorded pointer still spells its string at the end.

`m_read_idx` need not be the number of bytes received. `read_` adds the `-1` of each refused read
but the last to it, so after a burst it is nine too small, and bytes that arrive after a refusal are
written over bytes already there. The parser is therefore specified for any data length (`received`)
and any smaller `m_read_idx` (`limit`); equal values give the plain grammar. The consequences are
exact results: when nothing is overwritten, which requests survive a burst, and that no request
that ends with its body survives any undercount.

The concurrent parts are step systems with one action per line that matters, any number of threads,
explicit locks, and spurious wake-ups; the theorems quantify over every run.

Other things the code does, kept as they are, with the exact result where there is one:

- `process` is the version compiled with `DEBUG`; the other only logs a line.
- `init_` clears the handler's database connection, so a worker loses it exactly when the client's
  connection is kept. `FreeConn` starts from an unset value, so only its steps are claimed.
- Neither `init` nor `init_` resets `m_iv_count`, and handlers are reused for later clients of the same
  descriptor. The vectors in use are the ones meant for a handler's first response, and for a text
  after a text if nothing was left in the second vector; for any other response they are not. A text
  after a text with something left is classified too. From the third response on, and for a file
  as the second, the count is above two and the source reads past its two vectors.
- The counters are ints: exact delivery is claimed for head and file that together fit one.
- An answer to HEAD carries its body, so a client that keeps to section 4.4 of RFC 2616 has all of it
  left over, to be read as the next answer.
- The mutex of the account code is a local variable and excludes nobody; the account runs are
  sequential.
- The header name looked for is `Accept_Language`; the pages chosen for forms overwrite the url in the
  read buffer, under a pointer that is read again afterwards.

## Model

| member | source | states |
|---|---|---|
| Numbers.AsInt | src/http/http_conn.cpp:400 | storing a long in an int keeps the value exactly when it fits, and otherwise its low 32 bits |
| Numbers.StrtolReadsDecimal | src/http/http_conn.cpp:400 | `strtol` reads back what `%d` printed, whatever non-digit follows |
| Numbers.StrtolOverflows | src/http/http_conn.cpp:400 | numbers beyond a long stop at its ends and set the overflow that errno reports |
| Numbers.StrtolSkips | src/http/http_conn.cpp:400 | a blank in front of a number is skipped |
| Numbers.StrtolPlus | src/http/http_conn.cpp:400 | a plus sign is allowed |
| Numbers.StrtolOfText | src/http/http_conn.cpp:400 | a text without a number counts as 0 |
| CStrings.Alike | src/http/http_conn.cpp:339-366 | the comparisons that ignore case take a capital and its small letter for the same, and nothing else |
| MessageSpec.NamedByPrefix | src/http/http_conn.cpp:390-445 | a literal `name:` test at the front of a line is the comparison of the text before the first colon |
| MessageSpec.ReadRequestLineIs | src/http/http_conn.cpp:326-380 | method SP target SP version is read as its three parts, known exactly for GET, POST, HEAD, a path or absolute form, and HTTP/1.1 |
| MessageSpec.ReadsVerb | src/http/http_conn.cpp:333-379 | GET, POST and HEAD, in any letter case, are told apart and no other method is known; the root path becomes `/judge.html` |
| MessageSpec.PathOfAbsolute | src/http/http_conn.cpp:357-367 | an http or https target, in any letter case, loses scheme and authority, and has a path only if something follows them |
| MessageSpec.PathOfOther | src/http/http_conn.cpp:368-370 | any other target has a path if and only if it starts with a slash |
| MessageSpec.ReadsField | src/http/http_conn.cpp:405-449 | each kept header name, in any letter case, records the first token of its value and nothing else |
| MessageSpec.FieldNames | src/http/http_conn.cpp:405-449 | Host, User-Agent and Origin set their own pointers |
| MessageSpec.FieldNamesOfContent | src/http/http_conn.cpp:405-449 | so do Content-Type, Accept-Encoding and Upgrade-Insecure-Requests |
| MessageSpec.FieldNamesOfOrigin | src/http/http_conn.cpp:405-449 | and Accept, Referer and Accept_Language |
| MessageSpec.ReadsLengthOf | src/http/http_conn.cpp:398-404 | the length line, in any letter case: an overflow sets errno to 34, a stale errno of 22 refuses the line |
| MessageSpec.HugeLength | src/http/http_conn.cpp:400 | a length beyond a long is stored as -1 |
| MessageSpec.MessageComplete | src/http/http_conn.cpp:231-473 | every message of the grammar is read as its pieces say, and rejected when a line does not fit |
| MessageSpec.MessageGrammar | src/http/http_conn.cpp:231-473 | a message is not rejected if and only if it decomposes into request line, header lines, empty line and enough body |
| MessageSpec.AcceptedUrl | src/http/http_conn.cpp:357-375 | the url of an accepted request is a path starting with a slash |
| HttpConn.LineIndices | src/http/http_conn.cpp:288-296 | adjacent first CR and LF, within the relative bound, are the end of a line free of CR, LF and NUL; nothing past the data is taken for one |
| HttpConn.FieldByPrefixIs | src/http/http_conn.cpp:405-449 | the `strncasecmp` chain finds the field named before the first colon |
| HttpConn.ReadHeaderByPrefix | src/http/http_conn.cpp:390-449 | the header branches, told apart by prefixes, are the reader of named headers |
| HttpConn.HttpHandler.ParseLine_ | src/http/http_conn.cpp:288-324 | LINE_OK exactly when a line can be taken; then the line is spelled in place, `m_checked_idx` moves past it and no other byte changes |
| HttpConn.HttpHandler.SkipToSlash | src/http/http_conn.cpp:359-365 | the path of an absolute form is found in place |
| HttpConn.HttpHandler.ResolveUrl | src/http/http_conn.cpp:357-379 | the start page is written exactly over the version and its ending, and over nothing else; otherwise nothing is written |
| HttpConn.HttpHandler.ParseRequest_ | src/http/http_conn.cpp:326-380 | accepts exactly the request lines of the pure reader, with its method and url, writing only inside the line |
| HttpConn.HttpHandler.ReadNamed_ | src/http/http_conn.cpp:390-455 | linger flag, length, errno and pointer after a header line are the pure reader's |
| HttpConn.HttpHandler.CutValue | src/http/http_conn.cpp:456-458 | cutting a value at its first blank leaves every recorded value readable |
| HttpConn.HttpHandler.ParseHeaders_ | src/http/http_conn.cpp:382-461 | one header line: same verdict and values as the pure reader, all recorded strings intact |
| HttpConn.HttpHandler.ParseContent_ | src/http/http_conn.cpp:463-473 | the body is accepted exactly when it ends by `m_read_idx`, and one byte behind it is cleared |
| HttpConn.HttpHandler.Parse_ | src/http/http_conn.cpp:231-286 | for every zero-padded buffer: terminates with the verdict of the pure reader on the original bytes, and on acceptance every field and pointer spells the pure reader's request |
| HttpConn.HttpHandler.Read_ | src/http/http_conn.cpp:185-228 | for bytes, refusals, shutdown and errors in any order, and however much arrives, buffer, `m_read_idx`, errno and ending are those of the pure reception |
| HttpConn.HttpHandler.Init_ | src/http/http_conn.cpp:159-179 | leaves a fresh parser, null url and version, GET and three zeroed buffers, clears the database connection and the host pointer, and keeps the other header pointers, the body pointer and `m_iv_count` |
| HttpConn.HttpHandler.constructor | src/http/http_conn.cpp:42-57 | a new handler has its three buffers and is ready for a request |
| Reception.KeepsAll | src/http/http_conn.cpp:194-226 | the buffer grows by exactly the bytes that arrive, in order, if and only if they fit and none arrives after a refusal |
| Reception.OverwriteIs | src/http/http_conn.cpp:195-199 | bytes land at `m_read_idx`, on those already there, and change no others |
| Reception.BurstMiscounts | src/http/http_conn.cpp:194-226 | a burst leaves all its bytes and an `m_read_idx` nine below them |
| Reception.BurstFills | src/http/http_conn.cpp:186-226 | a burst of 2048 bytes or more is cut off there and ends as shut down |
| Reception.ClosedIff | src/http/http_conn.cpp:203-223 | while everything fits, reading ends closed if and only if a shutdown or an error comes before the tenth refusal |
| Reception.StopsEarlyIs | src/http/http_conn.cpp:203-223 | that is, if and only if fewer than ten refusals stand in front of some shutdown or error |
| Reception.StopAfterBurst | src/http/http_conn.cpp:203-223 | what came before a shutdown or an error is there, and errno is that of the error |
| Reception.AcceptedAfterRead | src/http/http_conn.cpp:194-226 | after a burst, a message of the grammar is accepted if and only if every line, with its ending, is at least nine bytes shorter than all that was received and its body is followed by nine more bytes |
| Reception.AcceptedWithTrueCount | src/http/http_conn.cpp:231-473 | with the true byte count the same message is accepted if and only if the body is complete |
| Reception.ExactBodyIsLost | src/http/http_conn.cpp:194-226 | every request that ends with its body, whatever its headers, is accepted with the true count and rejected with any smaller one |
| Reception.PostIsLost | src/http/http_conn.cpp:194-226 | in particular every post with nothing but its length for a header |
| Routing.FormRoundTrip | src/http/http_conn.cpp:489-499 | a form made of a name without `&` and a password, both under 100 bytes, decodes back to the pair |
| Routing.FirstRegistrationFixes | src/http/http_conn.cpp:505-529 | over any sequential run the stored password of a name is that of its first registration |
| Routing.LoginAnswers | src/http/http_conn.cpp:531-536 | from an empty table, a login is answered with `/welcome.html` for the first registered password of its name, and otherwise with `/logError.html` |
| Routing.RegisterAnswers | src/http/http_conn.cpp:514-529 | a registration is answered with `/log.html` if the name is new and the database takes it, and otherwise with `/registerError.html` |
| Routing.PageByFlag | src/http/http_conn.cpp:700-738 | the last part of a path, by its first character, chooses one of five fixed pages or the url itself |
| Routing.FormByFlag | src/http/http_conn.cpp:481-499 | a posted `2` is a login and a posted `3` a registration of the pair in the form |
| Routing.ServedUnderRoot | src/http/http_conn.cpp:738 | the file is root and page, up to 199 characters |
| Routing.LoginRequest | src/http/http_conn.cpp:475-537 | over any sequential run of requests, a posted login form gets the welcome page if and only if its password is that of the first registration form posted for the name, and changes no account, whatever the depth of the path |
| Routing.RegisterRequest | src/http/http_conn.cpp:475-529 | and a posted registration gets the login page if and only if the name is new and the database takes it; a new name has its password from then on |
| Routing.PageText | src/http/http_conn.cpp:519-535 | no answer page has, at any position, a character a fixed page is chosen by |
| HttpConn.HttpHandler.DecodeForm | src/http/http_conn.cpp:490-499 | the two copying loops yield the bytes up to the `&`, wherever in the buffer it stands, and the C string ten bytes behind it |
| HttpConn.FormInBuffer | src/http/http_conn.cpp:489-499 | on a body that is a form, these are its name and password |
| HttpConn.HttpHandler.UpdateTable | src/http/http_conn.cpp:503-536 | the table and the page after a registration or a login, one at a time |
| HttpConn.HttpHandler.AnswerForm | src/http/http_conn.cpp:481-536 | the answer overwrites the url, and the flag read again through the old pointer picks no fixed page, whatever the depth of the path |
| HttpConn.HttpHandler.CopyPage | src/http/http_conn.cpp:700-738 | the file path is the root followed by the chosen page, cut to the buffer |
| HttpConn.HttpHandler.DoRequest_ | src/http/http_conn.cpp:475-760 | accounts, path and outcome are functions of url, form, accounts and file system |
| HttpConn.HttpHandler.Serve_ | src/http/http_conn.cpp:231-286 | parsing and routing together: outcome and accounts as functions of the bytes received |
| HttpConn.AnswerIs | src/http/http_conn.cpp:740-833 | each status for exactly its own cases of what was read and what the file system says, with its own title and text; only a negative length is not answered |
| HttpConn.HttpHandler.Respond_ | src/http/http_conn.cpp:231-286 | parsing, routing and printing together: the accounts, the head of the answer with the length of the file and the linger flag of the request, and when the vectors are the ones meant |
| HttpConn.HttpHandler.Process_ | src/http/http_conn.cpp:77-92 | reading, parsing, answering and writing: accounts, ending, closing and the loss of the database connection as functions of what arrives and what the writes return; with the vectors meant, a finished run that went as it should has sent what a client reads as exactly the answer, and one that did not would have spoiled some file of that length |
| Requests.PageFromBytes | src/http/http_conn.cpp:231-760 | the bytes of a GET lead to the file of its url, of the start page or of the fixed page of its last part, and to no change of accounts |
| Requests.PostFromBytes | src/http/http_conn.cpp:231-473 | the bytes of a POST are read as its url and exactly its body, whatever follows |
| Requests.LoginFromBytes | src/http/http_conn.cpp:231-760 | the bytes of a posted login lead to the file of the welcome page if and only if the password is the first registered one |
| Requests.RegisterFromBytes | src/http/http_conn.cpp:231-760 | the bytes of a posted registration lead to the login page if and only if the name is new and the database takes it |
| ResponseSpec.HeaderRoundTrip | src/http/http_conn.cpp:855-873 | what `add_headers_` prints is read back as the same length and linger flag, for every int and both flags |
| ResponseSpec.StatusRoundTrip | src/http/http_conn.cpp:850-852 | version, status and title are read back from the first line of a response |
| ResponseSpec.HeadFits | src/http/http_conn.cpp:835-878 | no response head exceeds 160 bytes |
| ResponseSpec.Framing | src/http/http_conn.cpp:808-833 | a reader finds as many bytes behind the blank line as were announced if and only if the length fits an int |
| HttpConn.HttpHandler.AddResponse_ | src/http/http_conn.cpp:835-848 | a text is appended whole or not at all, and the return value says which |
| HttpConn.HttpHandler.AddHeaders_ | src/http/http_conn.cpp:855-873 | the three unchecked prints cannot be refused, and print the header text |
| HttpConn.HttpHandler.WriteToBuffer_ | src/http/http_conn.cpp:778-833 | accepts exactly the outcomes a request can have; head and byte count, as an int, are those of the response; the vector count goes on from what it was |
| HttpConn.VectorsFitIf | src/http/http_conn.cpp:808-832 | the vectors in use offer head and file if and only if this is a first response, or a text after a text with nothing left in the second vector |
| HttpConn.HttpHandler.AfterRefusal | src/http/http_conn.cpp:924-933 | how the vectors are set after a refused write |
| HttpConn.HttpHandler.WriteToFd_ | src/http/http_conn.cpp:885-947 | for every sequence of kernel answers and up to two vectors, ends and writes as the wire model says; lingering connections are made ready again and lose their database connection, others are closed |
| Wire.Drain | src/http/http_conn.cpp:889-944 | the wire only grows, and bytes sent plus bytes to send never change |
| Wire.ExactIffPaced | src/http/http_conn.cpp:889-944 | if the first write takes the whole header, a finished run puts header and file on the wire exactly once if and only if each later success follows a refusal; any paced run is a beginning of that |
| Wire.NeverExactIfHeaderCut | src/http/http_conn.cpp:925-932 | if the first write is refused or takes k bytes of the header, with 2k not the total, no finished run is exact |
| Wire.ExactIff | src/http/http_conn.cpp:889-944 | the whole classification: a finished run is exact if and only if it is paced and the header went out whole, or was cut at half of everything, refused, and then finished in one write |
| Wire.StaleExactIff | src/http/http_conn.cpp:889-944 | for a text with a vector too many: a finished run is exact if and only if it is paced and the kernel stops just where the text ends |
| Wire.CountersStay | src/http/http_conn.cpp:899-902 | while the loop runs, both counters stay within their first sum, so an int that holds it never overflows |
| SslWrite.SslWritev | src/ssl/ssl.cpp:34-67 | the buffer passed on is the concatenation of the vectors: the early break drops nothing |
| Delivery.EncryptOffer | src/http/http_conn.cpp:890-893 | an encrypted connection is handed the same bytes a plain one is offered |
| Delivery.Delivered | src/http/http_conn.cpp:889-944 | a finished run sends every header and file of the given lengths whole if and only if it was paced and the header went out as it should; and if the first write took the header, it sends this header with every such file whole if and only if it was paced |
| Delivery.TextDecides | src/http/http_conn.cpp:889-944 | the bytes sent are right for every header and file if and only if they come from the right places, each once, in order |
| Delivery.UnseenRepeat | src/http/http_conn.cpp:924-927 | one file alone cannot tell: a run that repeats a byte sends a file of equal bytes unharmed |
| Delivery.ReadsResponse | src/http/http_conn.cpp:808-873 | from head and file a client takes exactly the announced body, or after HEAD leaves all of it |
| WebBench.Bench.BuildRequest | test/test_presure/webbench-1.5/webbench.c:199-291 | takes exactly the usable urls, and then the 2048-byte buffer spells the request text |
| WebBench.Bench.TakeHost | test/test_presure/webbench-1.5/webbench.c:246-262 | host and port of a direct request |
| WebBench.UrlWithPort | test/test_presure/webbench-1.5/webbench.c:238-267 | a url made of host, port and path takes apart into them |
| WebBench.UsableUrls | test/test_presure/webbench-1.5/webbench.c:223-244 | the urls taken are those with `://`, a slash behind it and at most 1500 bytes, and without a proxy only http ones |
| WebBench.NoScheme | test/test_presure/webbench-1.5/webbench.c:223-227 | a url without `://` is not taken |
| WebBench.RequestLines | test/test_presure/webbench-1.5/webbench.c:199-273 | between method and version stands the path of a direct request, or the whole url of a proxied one |
| WebBench.HeaderTexts | test/test_presure/webbench-1.5/webbench.c:207-290 | the lines behind the request line, letter by letter, for every method, version, reload and proxy |
| WebBench.Words | test/test_presure/webbench-1.5/webbench.c:207-272 | method and version, letter by letter, with the versions that options force |
| WebBench.HttpUrl | test/test_presure/webbench-1.5/webbench.c:238-267 | the path webbench prints for an http url is the one the server keeps of the whole url |
| WebBench.ReadsFirstLine | test/test_presure/webbench-1.5/webbench.c:212-273 | the server knows the printed request line exactly for GET and HEAD in HTTP/1.1 with a target that has a path |
| WebBench.HttpAccepted | test/test_presure/webbench-1.5/webbench.c:220-267 | an http url always has one, the same in direct and proxied form |
| WebBench.RequestRoundTrip | test/test_presure/webbench-1.5/webbench.c:199-291 | for every usable url without blanks, line ends or NUL, the server accepts a printed request if and only if it is GET or HEAD in HTTP/1.1 and its target has a path, also after the miscount of `read_`, and recovers method, url, closing, agent and host |
| TimerOrder.AddSorted | src/timer/lst_timer.cpp:36-49 | adding keeps the order and adds exactly the new timer |
| TimerOrder.AdjustRestoresIff | src/timer/lst_timer.cpp:51-68 | adjusting keeps the timers, and restores order if and only if the timer does not expire before its predecessor |
| TimerOrder.TimeoutExact | src/timer/lst_timer.cpp:95-113 | the early stop misses nothing: exactly the due timers go, in order |
| TimerOrder.TouchedEndsLast | src/timer/lst_timer.cpp:51-68 | a timer given the latest expiry ends last |
| TimerOrder.ListIsActivityOrder | src/client_pool/client_pool.cpp:108-137 | over any run with a clock that does not go back, the list is the timers by last activity |
| TimerOrder.AlarmFires | src/include/http_conn.h:39-126 | an alarm fires exactly the timers last active 15 seconds ago or more |
| TimerList.SortedTimerList.AddBehind | src/timer/lst_timer.cpp:115-135 | the search and both link surgeries insert at the first later timer |
| TimerList.SortedTimerList.AddTimer | src/timer/lst_timer.cpp:36-49 | links intact, and the list is the sequence with the timer added |
| TimerList.SortedTimerList.AdjustTimer | src/timer/lst_timer.cpp:51-68 | links intact, and the list is the adjusted sequence |
| TimerList.SortedTimerList.DelTimer | src/timer/lst_timer.cpp:70-93 | links intact, and the list is the sequence without the timer |
| TimerList.SortedTimerList.Timeout | src/timer/lst_timer.cpp:95-113 | links intact but for the tail of an empty list; fired and remaining timers are the due front and the rest |
| TimerList.Touch | src/client_pool/client_pool.cpp:117-120 | setting the expiry and adjusting is the touch of the sequence |
| TimerList.HandleAll | src/client_pool/client_pool.cpp:108-137 | over any legal run of events the linked list ends as the record of who was last active when |
| WorkerPool.EveryRun | src/include/threadpool.h:66-108 | in every reachable state the tokens under way cover the queue; their surplus is exactly the early returns less the empty looks; requests leave in accepted order, once; every request handed in is taken, queued, rejected or in an appender's hands; the queue stays within one above the limit |
| WorkerPool.Appends | src/include/threadpool.h:67-79 | an undisturbed append gets through if and only if no more than the limit is queued, and then it queues its request last and returns one token |
| WorkerPool.Refuses | src/include/threadpool.h:67-74 | otherwise, and only then, it rejects and leaves the queue alone |
| WorkerPool.TakesFront | src/include/threadpool.h:90-102 | a worker inside takes the front of the queue if and only if there is one, and drops a null request |
| WorkerPool.GivesUp | src/include/threadpool.h:90-94 | and goes back to waiting if and only if there is none |
| WorkerPool.ReturnsEarly | src/include/threadpool.h:88-89 | a wait that returns early brings a worker in without a token |
| WorkerPool.WithoutInterrupts | src/include/threadpool.h:88-98 | without early returns the tokens equal the queue and the empty branch is unreachable |
| WorkerPool.NoLostWakeup | src/include/threadpool.h:66-105 | with work queued and no post pending, workers are never all asleep for good |
| WorkerPool.ConnectionsAreOwned | src/include/threadpool.h:99-106 | if no two workers hold one handler: no connection is free twice, free and used, or used twice, and the used count is exact |
| WorkerPool.FreshCallsSuffice | src/include/threadpool.h:66-107 | if no handler is appended while it is still queued or with a worker, no two workers ever hold one |
| WorkerPool.TakesConnection | src/include/threadpool.h:104 | a handler gets the first free connection, or none |
| WorkerPool.GivesBack | src/include/threadpool.h:106 | a worker gives back what its handler has: a connection, to the end of the list, or nothing |
| WorkerPool.ResetLosesConnection | src/http/http_conn.cpp:161 | after a reset of the handler nothing comes back, and the connection stays counted as used |
| WorkerPool.KeptRequestLoses | src/include/threadpool.h:99-106 | the whole run of a request on a kept connection leaves the pool one connection short |
| WorkerPool.ClosedRequestReturns | src/include/threadpool.h:99-106 | the run of one whose connection is closed leaves the pool whole |
| WorkerPool.SharedHandlerBreaks | src/include/threadpool.h:104-106 | the run that needs the assumption: a handler appended again while a worker has it makes two workers give one connection back twice, and the first is lost |
| ConnectionPool.Pool.GetConnection | src/CGImysql/sql_connection_pool.cpp:73-91 | takes the first free connection or none, both counters stepping with it modulo their width |
| ConnectionPool.Pool.ReleaseConnection | src/CGImysql/sql_connection_pool.cpp:94-109 | puts a connection that is not null at the end, both counters stepping with it |
| ConnectionPool.Pool.CurConnExact | src/CGImysql/sql_connection_pool.cpp:73-109 | the used count is the pool size less the free list |
| BlockQueue.Queue.Push | src/include/block_queue.h:131-149 | appends to the sequence unless full, by the push of the ring |
| BlockQueue.Queue.Pop | src/include/block_queue.h:151-166 | takes the first item by the pop of the ring, or sleeps exactly when empty |
| BlockQueue.Queue.PopAfterWait | src/include/block_queue.h:186-197 | the timed pop after its one wait |
| BlockQueue.Queue.Clear | src/include/block_queue.h:38-45 | empties the sequence |
| BlockQueue.Queue.Back | src/include/block_queue.h:98-109 | the item pushed last, if any |
| BlockQueue.Ring.Congruent | src/include/block_queue.h:141-163 | back less front less size is a multiple of the capacity |
| BlockQueue.Ring.PushAppends | src/include/block_queue.h:141-145 | a push into a ring with room appends to its items |
| BlockQueue.Ring.PopTakesFirst | src/include/block_queue.h:161-163 | a pop from a ring that is not empty takes its first item |
| Monitor.Conservation | src/include/block_queue.h:131-202 | for any producers, consumers and timed consumers on the ring: it stays one, pushed is gone followed by queued, and nobody stores into a full ring or takes from an empty one |
| Monitor.Pushes | src/include/block_queue.h:131-149 | an undisturbed push appends if and only if fewer items are queued than the capacity, and wakes everybody |
| Monitor.PushesInVain | src/include/block_queue.h:131-139 | otherwise, and only then, it wakes everybody and leaves the items alone |
| Monitor.TakesOut | src/include/block_queue.h:151-166 | a consumer that holds the mutex takes the first item if and only if there is one |
| Monitor.FindsNothing | src/include/block_queue.h:153-193 | and otherwise sleeps without the mutex, or gives up when it was its last look |
| Monitor.Begins | src/include/block_queue.h:153-183 | a pop begins with the mutex, and a timed one that was woken looks for the last time |
| Monitor.WaitEnds | src/include/block_queue.h:155-186 | a wait can end for no reason or with an error, and a consumer that gives up lets go of the mutex |
| Monitor.Clears | src/include/block_queue.h:38-45 | a clear takes everything at once and wakes nobody |
| Monitor.SleepersHaveNothingToDo | src/include/block_queue.h:131-202 | a consumer that sleeps un-woken faces an empty queue, or a producer about to wake it |

## Left out

- HttpConn.HttpHandler.Parse_: does not model the write for a negative Content-length (it reports NegativeLength instead), nor a read buffer filled to its last byte, because both leave the buffer's own bytes.
- HttpConn.HttpHandler.ParseContent_: does not model that write either.
- HttpConn.HttpHandler.ParseLine_: claims LINE_OK against the rest only, because the LINE_OPEN and LINE_BAD split compares a relative offset with an absolute one.
- HttpConn.HttpHandler.Read_: stops where bytes would go in front of the buffer.
- HttpConn.HttpHandler.Serve_: asks that a posted form has a body (without one the source reads where the last body was), nine bytes behind its `&`, and that forms and paths fit the fixed buffers they are copied to, none of which the source checks.
- HttpConn.HttpHandler.WriteToFd_: says nothing of the wire for more than two vectors, because what the source then reads is not its own.
- HttpConn.HttpHandler.Process_: asks that the buffer is not full to its last byte and that nothing goes in front of it; ends where `read_` closed the connection, because the source then writes to a null SSL object.
- HttpConn.HttpHandler.Respond_: the same requirements as Serve_.
- WebBench.Bench.BuildRequest: asks that host and port fit their buffers, which the source does not check.
- TimerList: freed timers stay as objects; a touch of a timer that is no longer listed is not modelled, nor that a connection may be closed with its timer still listed.
- WorkerPool: `m_stop`, thread creation and destruction.
- Liveness of the pools under a scheduler.
- Sockets, epoll, TLS, MySQL, mmap and signals: their results are parameters.
- `BlockQueue::front`, logging, the CGI variants that are compiled out, `HttpHandler::close` and `m_user_count`.
