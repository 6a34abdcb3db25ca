# darkhttpd, modelled and verified

darkhttpd is a single-process web server for static content, written in C around
one `select` loop. This project models the parts of it where something can go
subtly wrong and proves what they promise:

- **Resolving URLs.** The in-place normaliser `make_safe_url`, and the older
  normaliser that the fuzz harness keeps as a reference, both rewrite one
  NUL-terminated buffer. Each is proved against one pure meaning: split at the
  slashes, walk the segments over a stack (`UrlPath.dfy`). So they agree on every
  input, and what they accept stays below the root.
- **Connections and the event loop.** Each connection is a state machine against
  an outside world that may deliver any chunk, accept any part of a send, fail,
  block or time out. Histories record the bytes put on each socket, the responses
  completed on it and every open descriptor. One invariant holds after every run
  of the loop, and the loop itself, with its intrusive list and objects updated
  in place, is proved to compute exactly that run.
- **Ranges.** The `Range` field and the 206/416 decision in saturating signed
  64-bit arithmetic, against the grammar and the meaning of section 14.1.2 of
  RFC 9110 over unbounded integers.
- **Content types.** Reading a mapping file with rewind and re-read, the table
  with case-insensitive replacement, sorting, and the bounded backward scan with
  binary search, against "the last mapping wins, by linear lookup".
- **Codecs and parsers.** Percent-encoding, the request parser against a request
  printer, Base64 (section 4 of RFC 4648) and the constant-time password test.

The results are joined in `Delivery.dfy` and `EndToEnd.dfy`: a printed request,
cut up in any way on its journey, is understood as what was printed; with `--auth`
it gets through exactly with the right credentials; and a listing link leads to
the response that holds exactly the listed file, or the range asked of it. With
`Answered.dfy` these are statements about the bytes on the sockets of every run.

## How it is organised

| file | content |
|---|---|
| `Bytes.dfy` | bytes, C strings in buffers, ASCII case |
| `UrlPath.dfy` | the meaning of a URL path: segments, a stack, canonical paths |
| `SafeUrl.dfy` | `make_safe_url` |
| `SafeUrlOld.dfy` | the reference normaliser and the fuzz target that compares both |
| `UrlCodec.dfy` | `urlencode`, `urldecode`, `normalize_path`, the path half of `process_get` |
| `Range.dfy` | `parse_range_field` and the range block of `process_get` |
| `Mime.dfy`, `MimeFile.dfy` | the content type table and its file format |
| `Auth.dfy` | `base64_encode`, `password_equal` |
| `Request.dfy`, `RequestPrint.dfy` | `parse_request`, and the printer it undoes |
| `Conn.dfy`, `Process.dfy`, `EventLoop.dfy` | a connection, `process_request` and `httpd_poll` as functions of the outcomes of system calls |
| `ProcessProofs.dfy`, `Safety.dfy` | the invariant and what follows from it after every run |
| `Answered.dfy` | what every reply of a run answers |
| `Progress.dfy` | that sending goes on, what can stop it, and what each turn and poll does |
| `Refusals.dfy` | which requests are refused or redirected, HEAD, and what closes a connection |
| `Delivery.dfy`, `EndToEnd.dfy` | results that span the parts |
| `Connections.dfy`, `Server.dfy`, `Daemon.dfy` | `struct connection`, the `LIST_*` list and `httpd_poll` on the heap, proved to refine those functions |

The C code changes its data step by step, and so do the methods here: buffers are
arrays, `struct connection`, the list and the content type table are classes.
Their contracts name the functions of the files above, and the lemmas are about
those functions. Where a function of the code and its specification share a notion,
such as the value of a digit, a further law fixes that notion without them, by a
printer, an alphabet or the outcome in each case.

The outside world enters as parameters. A `PollEvent` says what `select`, `accept`,
`recv` and `send` do in one call of `httpd_poll`. An `Env` is the world a request
meets: the texts, and what the file system answers for each name. The world of a
connection's last chunk is kept as a history, as is what cut it short, so that results
about the bytes on a socket can speak of the file of a name as that very request found
it. New descriptors are the lowest free ones, as POSIX demands. A send of at least one
byte accepts between one byte and what was wanted. The `assert`s of the `poll_*` functions stand in the corresponding methods
and are proved there.

Notions used in the table: *canonical* is a path that starts with a slash and has
no empty, `.` or `..` segment, but for one trailing slash. A *whole response* is the
header and exactly the bytes `[reply_start, reply_start + reply_length)` of the
buffer or file, or the header alone when `header_only` is set. A GET is *admitted* if
the settings neither redirect nor hide its path and it has the credentials they ask
for. A range is *readable* if it opens its list and its comma, or the end, follows at
once, or if it is open.

## Model

| member | source | states |
|---|---|---|
| SafeUrlOld.FuzzOneInput | devel/fuzz_make_safe_uri.c:131-167 | the harness never traps: on every input both normalisers give the same verdict and the same string, and an accepted string holds no dot-dir |
| SafeUrl.MakeSafeUrl | darkhttpd.c:539-591 | in place: it rejects exactly what has no meaning as a path, otherwise leaves exactly that meaning; it writes nothing past the original terminator and, as the buffer may end there, reads nothing past it |
| SafeUrl.Collapse | darkhttpd.c:561-587 | the slow loop on the shared buffer computes the rewrite of the unread original text, so the writer never overtakes the reader, backtracking included |
| SafeUrl.FastScan | darkhttpd.c:547-559 | the fast scan stops at the first double slash or dot segment, or at the end |
| SafeUrl.FastScanIsOptimisation | darkhttpd.c:547-562 | entering the slow loop behind any clean stretch is the same as running it from index 0 |
| SafeUrl.Lookahead | darkhttpd.c:548-584 | the three-character tests recognise exactly the segments that are empty, `.` or `..` |
| SafeUrl.RewriteWalks | darkhttpd.c:561-589 | from any slash, with any stack already written, the character loop is the segment walk on the rest |
| SafeUrl.RewriteResolves | darkhttpd.c:539-591 | the character-level rewrite is the segment-stack meaning, for every path with a leading slash |
| UrlPath.RejectsExactlyUnderflow | darkhttpd.c:543-580 | rejection happens if and only if the leading slash is missing or some prefix of the path has more `..` segments than ordinary ones |
| UrlPath.ResolveConfined | darkhttpd.c:539-591 | whatever is accepted is canonical |
| UrlPath.ResolveIdempotent | darkhttpd.c:539-591 | normalising an accepted result again changes nothing |
| UrlPath.CanonicalResolves | darkhttpd.c:539-591 | every canonical path is accepted and left as it is, so the canonical paths are exactly the possible results |
| UrlPath.ResolveLaws | darkhttpd.c:539-591 | wherever they stand, a doubled slash, a `.` segment and an ordinary segment with the `..` behind it can be left out without changing the result; with the two rows before, this determines what every URL resolves to |
| UrlPath.ConfinedHasNoDotDir | devel/fuzz_make_safe_uri.c:138-142 | no accepted path contains `/../`, `/./` or `//` anywhere |
| SafeUrlOld.MakeSafeUrlOld | devel/fuzz_make_safe_uri.c:46-129 | the reference algorithm, with its chunk stack and in-place reassembly, gives the same pure meaning on every string; all its asserts hold |
| SafeUrlOld.ConsolidateSlashes | devel/fuzz_make_safe_uri.c:21-40 | in place, it leaves the string without the slashes that follow a slash |
| SafeUrlOld.SqueezeResolves | devel/fuzz_make_safe_uri.c:21-40 | consolidating slashes changes neither the verdict nor the meaning |
| SafeUrlOld.SplitChunks | devel/fuzz_make_safe_uri.c:83-108 | the chunk stack is the scan of the segments and never outgrows the number of slashes |
| SafeUrlOld.ScanInOrder | devel/fuzz_make_safe_uri.c:83-108 | the chunks are disjoint, in order, each behind a slash of its own, and a trailing slash belongs to none |
| SafeUrlOld.ScanWalks | devel/fuzz_make_safe_uri.c:83-108 | pushing and popping chunks is pushing and popping the segments they stand for |
| SafeUrlOld.MoveChunk | devel/fuzz_make_safe_uri.c:113-121 | one overlapping move puts a slash and the chunk behind what is written and touches nothing further on |
| SafeUrlOld.Reassemble | devel/fuzz_make_safe_uri.c:110-125 | moving the chunks down in place yields the rendered segments; no chunk is overwritten before its turn, and there is room for the trailing slash |
| UrlCodec.UrlDecode | darkhttpd.c:1611-1635 | the buffer holds the decoding and a terminator and is never overrun |
| UrlCodec.UrlEncode | darkhttpd.c:2072-2108 | the buffer holds the encoding and a terminator |
| UrlCodec.EncodeIsWritten | darkhttpd.c:2072-2108 | letters, digits and `-._~/` stay, and every other byte becomes a percent sign and its two digits from "0123456789ABCDEF" |
| UrlCodec.EncodeFits | darkhttpd.c:2214-2217 | an encoding takes at most three bytes for one, has no NUL for a NUL-free name and never a `?` |
| UrlCodec.DecodeEncode | darkhttpd.c:1611-1635 | decoding undoes encoding on every byte string |
| UrlCodec.DecodeWritten | darkhttpd.c:1611-1635 | decoding recovers every byte string from every way of escaping it: any bytes but at least the percent signs, with each digit taken from "0123456789abcdef" or "0123456789ABCDEF" |
| UrlCodec.StrayPercent | darkhttpd.c:1611-1635 | a percent sign without two such digits behind it stays |
| UrlCodec.NormalizePath | darkhttpd.c:1643-1656 | in place, an absolute-form URL loses scheme and authority, any other stays |
| UrlCodec.NormalizeMeans | darkhttpd.c:1643-1656 | `http://` or `https://` and a host are taken off whatever path follows them, and any other text stays |
| UrlCodec.ResolveRequest | darkhttpd.c:2286-2300 | strip the query, decode, drop the scheme, normalise: on arrays, for every URL, it equals the pure location of the URL |
| UrlCodec.LocateConfined | darkhttpd.c:2286-2343 | for every URL byte string, what is appended to the root is canonical, nonempty and NUL-free |
| UrlCodec.LocateWritten | darkhttpd.c:2286-2300 | however a request escapes its path, it leads where the path itself does |
| UrlCodec.QueryIgnored | darkhttpd.c:2286-2288 | a query does not change the path |
| UrlCodec.AbsoluteLocates | darkhttpd.c:2286-2300 | nor do scheme and authority in front of it |
| UrlCodec.HidesDotFile | darkhttpd.c:2326-2337 | the `--hide-dotfiles` loop answers yes if and only if some segment starts with a dot |
| UrlCodec.LinkResolvesToEntry | darkhttpd.c:2214-2222 | for every canonical directory and every entry name, the listing's link resolves to exactly that entry, and with a slash behind it to that directory |
| Range.ParseRangeField | darkhttpd.c:1849-1891 | the fields hold the given numbers, saturated to 64 bits, with the given flags |
| Range.SelectRange | darkhttpd.c:2443-2485 | the range block in signed 64-bit arithmetic never overflows and selects what unbounded integers select from the parsed fields; on 206 start and length are the slice's |
| Range.SaturationIsExact | darkhttpd.c:1849-1891 | saturating both numbers never changes the outcome, for any file size an `off_t` can hold |
| Range.GivenMeans | darkhttpd.c:1849-1891 | for every list with a well-formed first range, what the parser reads; and it reads what sections 5.6.1 and 14.1.2 of RFC 9110 say if and only if the range opens the list and no blank that matters stands before its comma or the end |
| Range.ValueOfNumber | darkhttpd.c:1870-1888 | numbers are read in base ten: the value of a printed number, leading zeros included, is the number |
| Range.FirstOfList | darkhttpd.c:1849-1891 | the first element of a list is the one behind any blanks and commas, without the blanks behind it |
| Range.PrintedIsRead | darkhttpd.c:1849-1891 | a printed range that opens its list is read as what was printed, whatever follows its comma |
| Range.MalformedReadAsOpen | darkhttpd.c:1859-1883 | what the parser makes of each list whose first range is malformed: an open range if digits and a hyphen lead the text before the comma, otherwise nothing |
| Range.MalformedExample | darkhttpd.c:1870-1883 | `5-x` is such a range: malformed, yet read as `5-` |
| Range.SpacedExample | darkhttpd.c:1876-1883 | `0-5 ,6-7` is a valid list whose first range is 0-5, yet it is read as `0-` |
| Range.RejectsExactly | darkhttpd.c:2471-2482 | 416 is answered if and only if the range is unsatisfiable by the RFC, or backward, or the file is empty |
| Range.SelectCovers | darkhttpd.c:2446-2468 | the selected slice is exactly the positions of the file that the range covers |
| Range.RangeReply | darkhttpd.c:2443-2485 | parser and range block together answer every well-formed first range, as it is read, as unbounded arithmetic does |
| Mime.MimeMap.AddMapping | darkhttpd.c:605-630 | the table goes on answering every key as the history of mappings, newest first, does, with case-folded keys unique and `longest_ext` a bound |
| Mime.MimeMap.Sort | darkhttpd.c:640-643 | sorting orders the table by case-folded extension, keeps its entries and its answers |
| Mime.PermutationIndexes | darkhttpd.c:635-643 | any reordering of the table answers every key as before |
| Mime.BSearch | darkhttpd.c:781-784 | on a sorted table the search finds an entry with the case-folded key if and only if there is one |
| Mime.MimeMap.ContentType | darkhttpd.c:786-806 | the bounded backward scan and binary search answer as an unbounded linear lookup of the text after the last dot |
| Mime.TypeOfMeans | darkhttpd.c:786-806 | that lookup gives the type of the last mapping for the text after the last dot, in any case, and the default without a mapping or a dot |
| Bytes.LowerMeans | darkhttpd.c:635-638 | ignoring case identifies the letters in the same place of the two alphabets, and nothing else |
| MimeFile.ReadLine | darkhttpd.c:712-760 | scan, rewind and re-read return the text up to the next LF, CR, CRLF or end of file and stop right behind it |
| MimeFile.LinesOfPrinted | darkhttpd.c:712-760 | lines whose endings are LF, CR or CRLF in any mixture, the last one with or without an ending, are read back unchanged |
| MimeFile.EveryFileIsPrinted | darkhttpd.c:712-760 | every content is such a print of the lines read from it, so reading loses nothing but the endings |
| MimeFile.ParseMimetypeLine | darkhttpd.c:646-693 | a line adds one mapping for each blank-separated extension behind its type, and nothing if it is blank or a comment |
| MimeFile.TokensOfSpaced | darkhttpd.c:646-693 | words written with any spaces and tabs in front of, between and behind them are read back |
| MimeFile.LineMeans | darkhttpd.c:646-693 | such a line maps each later word to the first, in order; blank lines and those whose first word begins with `#` map nothing |
| MimeFile.ParseDefaultExtensionMap | darkhttpd.c:698-703 | loading the built-in lines appends their mappings in order |
| MimeFile.ParseExtensionMapFile | darkhttpd.c:765-776 | loading a file appends the mappings of its lines in order |
| MimeFile.LoadAndLookup | darkhttpd.c:3129-3136 | after any built-in lines, then any mapping files, and sorting, any URL gets the type last declared for its extension, or the default |
| Auth.Base64Encode | darkhttpd.c:1028-1066 | the output is the encoding of section 4 of RFC 4648 and a terminator, in exactly the allotted buffer |
| Auth.Base64Means | darkhttpd.c:1028-1066 | each four symbols are the places in the RFC's alphabet of the four sextets of a 24-bit group, with `=` for those that no octet reaches |
| Auth.Base64RoundTrip | darkhttpd.c:1028-1066 | a decoder recovers every string from its encoding |
| Auth.Base64Length | darkhttpd.c:1028-1066 | the encoding has `4 * ceil(n / 3)` symbols and no NUL |
| Auth.PasswordEqual | darkhttpd.c:2536-2557 | the test is string equality, in one iteration for each character of the input and one for its terminator, whatever the secret; neither string is read past its terminator, since reading there is ruled out by `CharAt` |
| Auth.CredentialsDecide | darkhttpd.c:1244-1245 | the stored key equals the header of a client presenting `u` if and only if `u` is the configured `user:pass` |
| Request.ParseField | darkhttpd.c:1778-1802 | a field's value is what stands behind the first match of its name, ignoring case, up to the end of that line |
| Request.ParseRequest | darkhttpd.c:1897-1985 | the index loops split the request line, decide on closing and read the fields as the pure parser does, on every request that ends a line |
| RequestPrint.FieldOfPrinted | darkhttpd.c:1778-1802 | on a printed request, reading a field is looking up the first header line with that name, in any case and with LF or CRLF |
| RequestPrint.ParsePrinted | darkhttpd.c:1897-1985 | the parser undoes the printer, with or without a version and with any number of spaces between the words of the first line |
| RequestPrint.ParsedMeans | darkhttpd.c:1897-1985 | word for word what is understood: HTTP/1.1, HTTP/1.0 or no version; the method in capitals, the URL, each field from the first line with its name; and closing without keep-alive, on "close", and unless "keep-alive" or HTTP/1.1 says otherwise, all in any case |
| RequestPrint.TooManyWords | darkhttpd.c:1947-1959 | anything behind the version, be it a space, makes a bad request |
| RequestPrint.NulInUrl | darkhttpd.c:1921-1932 | so does a NUL in the URL behind its first character |
| Bytes.UpperMeans | darkhttpd.c:1573-1578 | small letters become the capitals in the same place of the alphabet, and nothing else changes |
| RequestPrint.PrintedCompleteOnce | darkhttpd.c:2632-2638 | a printed request passes the completeness test and no proper prefix of it does |
| Conn.AcceptedIsAny | darkhttpd.c:2765-2814 | the outcomes a send may have cover every result between one byte and what was wanted |
| Conn.SentIsPrefix | darkhttpd.c:2670-2818 | what was sent is a prefix of the whole response, and all of it once nothing is missing |
| Conn.ReplyStepSound | darkhttpd.c:2765-2823 | sending a body keeps the wire, the counters and the state consistent, for every outcome of the send |
| Conn.HeaderStepSound | darkhttpd.c:2655-2699 | the same for sending a header and going straight on to the body |
| Conn.ReplyStepCloser | darkhttpd.c:2765-2823 | each successful body send strictly decreases what remains, by exactly the bytes counted |
| Conn.HeaderStepCloser | darkhttpd.c:2655-2699 | each successful header send strictly decreases what remains, by exactly the bytes counted |
| ProcessProofs.EntriesConfined | darkhttpd.c:2025-2047 | every name a directory listing passes to `stat` is confined: the entry of a directory that can be reached can be reached itself, and is not hidden |
| ProcessProofs.ProcessRequestReady | darkhttpd.c:2279-2596 | every way through `process_request` leaves a complete reply that has not begun to go out, opens at most one descriptor and keeps it in `reply_fd`, and asks the file system only about confined names |
| Safety.TurnSound | darkhttpd.c:2916-2935 | one turn keeps a connection sound; if it has timed out it ends DONE and closing, otherwise it ends DONE or active recently enough |
| Safety.DigestSound | darkhttpd.c:2621-2645 | appending a chunk, processing and the 413 replacement leave a sound connection that is still receiving or ready to send |
| Safety.RunInv | darkhttpd.c:2828-2948 | the invariant holds after every run of the loop, whatever the outside world does |
| Safety.WireIsWholeResponses | darkhttpd.c:2599-2947 | after every run, the bytes on each live socket are the whole responses of its recycled requests and a prefix of the current one; no connection is DONE, and one in RECV_REQUEST has `reply_fd` -1 |
| Safety.RetiredWireIsWhole | darkhttpd.c:2937-2946 | a request is recycled only after its whole response went out |
| Safety.BytesAccounted | darkhttpd.c:2628-2685 | after every run, `total_in`, `total_out` and `num_requests` are the sums over retired and live requests, and each connection's `total_sent` is header plus body |
| Safety.NobodyLingers | darkhttpd.c:1583-1593 | with a timeout, after every run no surviving connection has been idle for that long |
| Safety.PathsConfined | darkhttpd.c:2326-2376 | after every run, every name passed to `stat`, `open` or `opendir`, the entries of listed directories included, is the root with a canonical path behind it, without a hidden segment under `--hide-dotfiles`, and perhaps the index name |
| Safety.DescriptorsConserved | darkhttpd.c:1514-1570 | after every run, a descriptor is open if and only if it was so at the start or belongs to a listed connection, and it never has two owners |
| Progress.BodyTurn | darkhttpd.c:2765-2823 | a would-block changes nothing but the time; accepted bytes are counted, at most `1 << 20` of a file at a time, and leave the connection sending the body, not closing, until none is left; anything else ends it |
| Progress.HeaderTurn | darkhttpd.c:2655-2699 | the same for the header, after which a turn goes straight on to the body unless there is none |
| Progress.ReceivingTurn | darkhttpd.c:2599-2652 | a would-block changes nothing, an error or closure ends the connection, and a chunk is noted byte for byte |
| Progress.IdleTurn | darkhttpd.c:1583-1593 | with nothing ready, a connection is cut if it was idle too long, and otherwise left as it is |
| Progress.BodyGoesOut | darkhttpd.c:2765-2823 | a body taken in pieces of any size, with blocks between them, goes out whole, and the connection stays open or closes as it was to |
| Progress.RunEnded | darkhttpd.c:2828-2948 | after every run, only an error, a closure, an empty body or the timeout has cut a request short; any other request closes exactly if it asks for it |
| Progress.CutShort | darkhttpd.c:2937-2946 | so in every run a request that is over without a whole response met one of these |
| Progress.SettleMeans | darkhttpd.c:2936-2946 | an unfinished connection stays, a finished closing one goes with its descriptors, and a finished other one waits like a new one on its socket |
| Progress.AcceptMeans | darkhttpd.c:1328-1394 | accepting adds one connection in front on the lowest free descriptor; a failure stops accepting only when descriptors ran out |
| Progress.PollTurn | darkhttpd.c:2909-2947 | a poll sets the clock, and every listed connection has its turn with what `select` waited for and ends up listed, retired or recycled by it |
| Answered.RunExplained | darkhttpd.c:2599-2652 | after every run, for every live or retired request: `process_request` got exactly the bytes received since the last recycling, as soon as they were complete and once only, and the reply is a function of the settings, those bytes and the world this request met: the answer to them, or the 413 reply if they were too many |
| Answered.WireAnswers | darkhttpd.c:2599-2947 | after every run, what any request past receiving has sent is a prefix of that one response, and all of it once nothing is missing, as for every recycled request |
| Answered.SameAnswer | darkhttpd.c:2560-2596 | nothing but the request, the settings and the world decides a reply, in particular no descriptor and no earlier request |
| Delivery.DeliveryIndependent | darkhttpd.c:2599-2645 | if no proper prefix of a request is complete, every way of cutting it up, with EAGAINs between, hands `process_request` the same buffer exactly once |
| Delivery.PrintedIsDelivered | darkhttpd.c:2599-2645 | so every printed request, however delivered, is understood as what was printed |
| EndToEnd.AnswerPrinted | darkhttpd.c:2560-2587 | a printed request is answered 401 or dispatched by the header values that were printed |
| EndToEnd.CredentialsGate | darkhttpd.c:2571-2577 | with `--auth`, a client presenting `u` passes if and only if `u` is the configured `user:pass`, and is answered 401 otherwise |
| Refusals.NotUnderstood | darkhttpd.c:2563-2567 | any other version is answered 400 and closed |
| Refusals.HttpsMeans | darkhttpd.c:1832-1843 | the https option concerns exactly requests whose X-Forwarded-Proto is not "https" in any case |
| Refusals.SentToHttps | darkhttpd.c:1804-1830 | and they get 301, or 400 without a valid URL or a host |
| Refusals.ForwardMeans | darkhttpd.c:2302-2324 | the forward is the first one for the Host in any case, otherwise that for all |
| Refusals.Refused | darkhttpd.c:2279-2596 | 401 without the credentials, 501 for other methods, then 400, 301 or 404 for an invalid, forwarded or hidden path, each without touching the file system |
| Refusals.HeadIsGet | darkhttpd.c:2582-2585 | HEAD opens, asks and answers as GET does, and sends the header alone |
| Refusals.Oversize | darkhttpd.c:2640-2645 | more than 4000 bytes are answered 413 |
| Refusals.EntriesAre | darkhttpd.c:2025-2047 | the entries a listing looks at are all but `.`, `..`, overlong and, on request, hidden ones |
| Refusals.ListingIs | darkhttpd.c:2010-2055 | besides the directory itself |
| EndToEnd.GetResponse | darkhttpd.c:2279-2530 | response, status and names asked about for any admitted GET: the single file, the file of the path, the index of a directory exactly if there is one, otherwise 404 or the listing; and of a file the whole, its range, nothing for 304, or a page |
| EndToEnd.DirectoryAnswer | darkhttpd.c:2344-2371 | spelled out for directories: the index if it exists, and nothing else is opened; otherwise 404 where listings are denied, with only the index asked about; otherwise the listing, with 200 if it can be read |
| EndToEnd.EntryOpened | darkhttpd.c:2279-2412 | a GET for a listing link opens exactly the listed file, whenever the settings neither redirect nor hide it and the credentials are right |
| EndToEnd.LinkServesEntry | darkhttpd.c:2279-2530 | and without conditions the whole response is the header and the whole content of exactly that name, or the page that says why not |
| EndToEnd.RangeServesSlice | darkhttpd.c:2443-2530 | and with a readable range it is 206 with exactly the bytes the RFC's meaning selects, or the 416 reply |
| EndToEnd.PrintedOnTheWire | darkhttpd.c:2599-2947 | in every run of the loop, a printed request was handed over once, whatever way it arrived, and what goes out for it is a prefix, finally all, of the answer to it in the world it met |
| EndToEnd.GetOnTheWire | darkhttpd.c:2279-2947 | in every run, what goes out for an admitted GET is a prefix, finally all, of the header and the body its path leads to |
| EndToEnd.DirectoryOnTheWire | darkhttpd.c:2344-2371 | and for a directory, the index exactly if there is one, and otherwise a page |
| EndToEnd.LinkOnTheWire | darkhttpd.c:2279-2947 | in every run, what goes out to a client that followed a listing link is a prefix, finally all, of the header and the whole content of the root with that directory and name, as this request met it, or the page that says why not |
| EndToEnd.RangeOnTheWire | darkhttpd.c:2443-2947 | and to one that asked for a readable range of it, of the header and exactly that range, or the 416 reply |
| EndToEnd.PrintedRangeOnTheWire | darkhttpd.c:2443-2947 | and to one that writes a range in decimal, exactly the positions it names |
| Refusals.ClosesAsAsked | darkhttpd.c:1934-1974 | in every run, a printed request that met no trouble was answered whole, and its connection closes exactly by its version, its Connection field and the flag |
| Server.ConnList.InsertHead | darkhttpd.c:222-227 | the element is put in front of a well-formed list in which every connection stands once; only links change |
| Server.ConnList.Remove | darkhttpd.c:231-236 | the element is taken out through its `le_prev`, the list stays well formed, and the removed element's own next pointer survives |
| Server.BypassedIsChain | darkhttpd.c:231-236 | the two pointer updates of `LIST_REMOVE` are exactly what turns the list into the list without that element |
| Connections.Connection.ServeFile | darkhttpd.c:2414-2530 | the end of `process_get` in place: 304, 206, 416 or 200 with the fields each sets |
| Connections.Connection.ListDirectory | darkhttpd.c:2161-2185 | the listing in place: an error reply, or a page after looking at each entry that is shown |
| Connections.Globals.StatEntries | darkhttpd.c:2025-2047 | the loop over a directory looks at every entry but `.`, `..`, hidden and overlong ones, in order |
| Connections.Connection.ProcessGet | darkhttpd.c:2279-2412 | `process_get` in place, with every early exit |
| Connections.Connection.ProcessRequest | darkhttpd.c:2560-2596 | `process_request` in place: parse, redirect, authenticate, dispatch, advance, count |
| Connections.Connection.PollRecvRequest | darkhttpd.c:2599-2652 | receiving in place equals the pure step, its asserts hold and the globals move with the connection |
| Connections.Connection.PollSendHeader | darkhttpd.c:2655-2699 | the same for the header, with `header_length == strlen(header)` |
| Connections.Connection.PollSendReply | darkhttpd.c:2765-2823 | the same for the body, from memory or from the file in pieces of at most `1 << 20` |
| Connections.Connection.FreeConnection | darkhttpd.c:1514-1530 | the socket and the reply file are closed, each being open at that point, and accepting resumes |
| Connections.Connection.RecycleConnection | darkhttpd.c:1533-1570 | everything but the socket starts afresh and the reply file is closed |
| EventLoop.WaitingMeans | darkhttpd.c:2838-2875 | a socket is waited for to read or to write exactly if a connection in the matching state has it, the listener exactly if accepting, and `bother_with_timeout` is set exactly if there is a socket of a connection to wait for |
| Progress.AwaitMeans | darkhttpd.c:2838-2877 | and with a timeout only if one is set |
| Daemon.Httpd.WaitSets | darkhttpd.c:2838-2875 | the first pass over the list builds exactly those sets and flags, and meets no connection in DONE |
| Daemon.Httpd.AcceptConnection | darkhttpd.c:1328-1394 | a new connection goes to the head of the list and is read from straight away; a failed `accept` stops accepting only when descriptors ran out |
| Daemon.Httpd.Sweep | darkhttpd.c:2916-2947 | `LIST_FOREACH_SAFE` with removal of the current element gives every connection its turn exactly once, in order, and every close meets an open descriptor |
| Daemon.Httpd.HttpdPoll | darkhttpd.c:2828-2948 | `httpd_poll` on the heap equals the pure poll and keeps the invariant and the list |
| Daemon.Httpd.Loop | darkhttpd.c:3188-3190 | any number of polls on the heap equals the pure run |
| Daemon.Httpd.CleanExit | darkhttpd.c:3192-3206 | the clean exit closes the listener and whatever the connections own, each once, and leaves open what else was open at the start |
| Daemon.Serve | darkhttpd.c:3188-3190 | the server on the heap, from its start through any events, is in the state the safety results speak about |

## Where the code departs from its documentation or a standard

- A malformed first range that begins with digits and a hyphen, such as `5-x`, is
  taken as an open range instead of being ignored (`Range.MalformedReadAsOpen`
  covers all of them, `Range.MalformedExample` is one).
- A well-formed range is misread unless it stands first and its comma follows at
  once, although RFC 9110 allows blanks and empty elements there: `0-5 ,6-7` is taken
  as `0-`, and a list that begins with a comma is ignored (`Range.GivenMeans` says
  exactly when, `Range.SpacedExample` is one).
- A backward range, which the RFC calls invalid, is answered with 416, and so is
  every range of an empty file (`Range.RejectsExactly`).
- Redirecting to https resolves the URL without stripping its query; the model
  does the same (`UrlCodec.LocateWhole`).
- `/abc/.` becomes `/abc`, not `/abc/` as RFC 3986 would have it; the model follows
  the code, and both normalisers agree on it.

## Left out

- Real system calls: sockets, `select`, `sendfile` and the file system appear only through the outcomes a caller may supply, including the two-step FreeBSD and fake variants of `sendfile`.
- The texts of headers, error pages and listings, among them dates and the content type line: a header is any nonempty text without NUL and a body any bytes.
- Lengths of `int` or `size_t` and the 64-bit global counters are unbounded; only the arithmetic on `off_t` is modelled with its width.
- C strings handed to the parsers are byte sequences, and their terminators are modelled only where code looks at them; buffers rewritten in place are arrays.
- `max_fd`, the bound `select` is given, and the length of the timeout; `MAXNAMLEN` is taken to be 255.
- `strtoll`, `bsearch`, `qsort`, `strcasestr` and the stdio calls are written out with their documented behaviour; the sort is any sort, represented by an insertion sort on values.
- Memory: allocation never fails and nothing is said about what is freed, so the pointers an oversize request loses are not modelled.
- The fields of `struct connection` that describe the response are one record that the methods replace field by field, and `client`, the parsed fields kept for the log and the log itself are absent.
- `select` running out of time without a timeout, and every other failure that ends the process.
- Request.ParseRequest: requires a request that ends in LF, which is what the completeness test before its only call ensures.
- Mime.MimeMap.AddMapping: requires a nonempty extension and type, as the asserts of the original do.
- MimeFile.ParseDefaultExtensionMap: requires lines without NUL, as string literals are.
- UrlCodec.UrlEncode: requires a buffer the encoding fits in, as its only caller provides.
- Pipelined requests, and acceptance after descriptors ran out, beyond what the code does about them.
- That HEAD never gets a body, and that the announced length always goes out, because an oversize request that was already answered is answered anew with `header_only` still set; the wire is described relative to that flag.
- The command line, daemonising, privileges, signals, address families, directory reading, HTML escaping and `logencode`.
