# Verified model of the embedded HTTP server and of UDP channels

This project models the logic of the embedded, threaded HTTP server `MongooseDaemon/mongoose.c` and of
the UDP channel table in `SDL_net/SDLnetUDP.c`, and proves what they promise. `dafny verify
dfyconfig.toml` checks all of it.

Code that works in place is modelled in place: the MD5 context, the request buffer, the SSI tag buffer,
the CGI environment block, the socket ring and the channel table are arrays and fields that methods
rewrite, and each method is proved against a function of the state it started from. The properties
are then lemmas about those functions. Bytes are `octet` (characters below 256); C strings are runs of
memory up to a NUL (`CStrings.IsStr`).

| file | what it holds |
|---|---|
| `Rfc1321.dfy`, `Rfc1321Suite.dfy` | RFC 1321 sections 3.1 to 3.5 written down independently of the C code; a digest of the RFC's test suite |
| `Md5Rounds.dfy`, `Md5.dfy` | the sixty-four unrolled steps; the streaming context, padding, byte order, text form |
| `Context.dfy` | the shared fields of the server context and its critical sections, as a class and as functions on values |
| `WorkerPool.dfy` | master and workers as a state machine over those critical sections |
| `Framing.dfy`, `Parsing.dfy`, `Body.dfy` | reading a request from a peer, cutting it into words in place, its body |
| `Urls.dfy`, `Paths.dfy`, `Uris.dfy` | percent-decoding and form variables; the path clean-up; both applied to a request's URI |
| `Ssi.dfy` | the server-side-include scanner and its recursion |
| `Matching.dfy`, `Options.dfy`, `Cgi.dfy` | URI patterns and callbacks; option lists and access control; the CGI block |
| `Passwords.dfy` | changing a user's record in the passwords file and finding it at login |
| `Udp.dfy` | channel bindings, sending and receiving |
| `CStrings.dfy`, `Common.dfy` | C strings and what is shared |

Main results, hardest first:

- `Md5.MgMd5`: for every list of byte strings, feeding them one after the other gives the RFC 1321 digest
  of their concatenation, on a host of either byte order. `Rfc1321Suite.SuiteDigest` ties the tables to the RFC's
  own test suite.
- `WorkerPool.Safety`, `Fifo`: over every run of the pool, no wake-up is lost, the counters count, and sockets
  come out in the order they were accepted. `WorkerPool.PutStartsThread`: exactly when another worker is started.
  `WorkerPool.ShutdownCompletes`: once `mg_fini` has begun, it ends with no worker left in a bounded
  number of steps. `WorkerPool.StopCompletes`: after a stop is requested,
  every run without new sockets gets there, unless the master is stuck in `put_socket` with a full ring and
  no worker to come. `WorkerPool.MayBlockUntilFini`: as long as `mg_fini` has not begun some run ends in that
  state, from where (`WorkerPool.BlockedForEver`) no run gets out.
  `WorkerPool.StrandedExactly`: exactly when a run leaves a queued socket without a worker.
- `Ssi.Connection.SendSsiFile`: the buffered scanner does what an unbuffered one does, for every buffer
  size, exactly when no tag outgrows the buffer; inclusion nests at most eleven scans deep.
  `Ssi.TagInPage` says what every tag in a page does.
- `Parsing.ProcessNewConnection` with `Parsing.RoundTrip`: a printed request, followed by anything and
  arriving in pieces of any sizes, is read, cut up and understood as exactly that request, up to its
  sixty-fourth header, and what follows it is kept as the start of the body.
- `Urls.GetVar` with `Urls.FormRoundTrip`, `Uris.TakeUri` with `Uris.PathRoundTrip`: decoding in place
  undoes every percent-encoding, and the exact condition under which `url_decode` misreads its input.
  `Paths.CleanKeepsWhatStays`: exactly which bytes of a path the clean-up keeps.
- `Passwords.PasswordsFile.Modify` with `Passwords.ChangedFile`: for every file whatever is in it, and entries of
  every length, what login finds for anybody after a change, although it reads the file through a smaller
  buffer than the change does. `Passwords.LoginFindsNewHash` and `Passwords.OthersAreKept` give the exact
  conditions under which it finds the new password's hash, and for another user what it found before;
  `Passwords.ChangedTextFile` and `Passwords.RemovedUser` state them line by line for text files.
- `Matching.MatchCodeDecides`: on all memory, the pattern matcher accepts the pattern's language and otherwise
  only what a star matches beyond the end of the string.

Where the code and its documentation disagree, the model follows the code:

- `get_request_len` is documented to return -1 for a malformed request (mongoose.c:1752). The loop goes on
  after a forbidden byte and a later blank line wins, so the answer depends on how much was read at
  once. `Framing.PiecesDoNotMatter` gives the exact condition under which it does not,
  `Framing.PiecesExample` is an input of three bytes where it does.
- `remove_double_dots_and_double_slashes` is documented to remove excessive slashes (mongoose.c:1835-1838).
  It skips slashes first and dots second, so `/../a` becomes `//a`. `Paths.CleanLeavesDoubleSlash` gives the
  exact condition, `Paths.DoubleSlashExample` is that input.
- `url_decode` reads up to two bytes past its input when an escape is cut off there.
  `Urls.ScanIsDecode` gives the exact condition under which that changes the result, `Urls.ScanOverruns` an input.
- `match_regex` goes on one byte past the terminator after a star has failed (mongoose.c:757-759).
  `Matching.RightUnlessRunsOver` says exactly when the answer is that of the documented language,
  `Matching.StarAfterEndMisleads` is an input where it is not.
- `SDLNet_UDP_SendV` is documented to set the status of a packet to -1 when sending fails
  (SDLnetUDP.c:487-488). The code leaves the status as it was. `Udp.StatusMeansFailure` says exactly when it is
  -1 afterwards, `Udp.FailureExample` is a failed call after which it is not.
- `SDLNet_UDP_Bind` on channel -1 is documented to take the first unbound channel (SDLnetUDP.c:418-419). The
  code takes the first channel with room, which may have addresses already. `Udp.BindAnyIsFirstUnbound` says
  exactly when they are the same, `Udp.BindAnyExample` is a table where they are not.
- `MD5Final` means to clear the context but clears as many bytes as a pointer has (mongoose.c:2188): one or
  two words of the hash. `Md5.Md5Context.Final` states what all the rest of the context still holds: the other
  words of the digest, the length of the message and its last block, which by `Md5.NeverCleared` always has a
  byte that is not zero.
- `mg_modify_passwords_file` is documented to delete the entry for a NULL password and to return 1 on success
  (mongoose.h:114-117). The code deletes for an empty password, which it reads through the pointer first, and
  always returns 0. A new entry is written right after a last record that has no newline, which spoils both
  (`Passwords.GluedExample`, `Passwords.GluedNeighbour`). Login reads 255 bytes at a time where the change reads
  511, so the rest of a longer line is a record of its own to login: a user name of 256 bytes gives its hash to
  somebody else (`Passwords.CutNameExample`), who is then found with it whatever password is set for them
  afterwards, and even when they are removed (`Passwords.TwoCallsExample`). A record of 511 bytes loses its newline
  whenever the file is changed (`Passwords.FullLineLosesNewline`).
- A queued socket may be left without a worker: a worker whose wait has timed out still counts as idle until
  it leaves, so `put_socket` starts no thread. `WorkerPool.StrandedSocket` is such a run and
  `WorkerPool.StrandedExactly` says for all runs exactly when it happens.
- `mg_stop` (mongoose.c:4641-4651) is meant to wait until all is shut down. With a full ring and only timed-out
  workers the master waits in `put_socket` for room that nobody makes, never looks at `stop_flag`, and
  `mg_stop` waits for ever (`WorkerPool.BlockedMaster`). A master that is not blocked yet when the stop is
  requested may be blocked by the sockets its listener loop still accepts (`WorkerPool.OneMoreAcceptBlocks`).

Assumptions:

- POSIX condition variables: a signal wakes one waiter if there is one, any waiter may wake spuriously, a
  waiter that was signalled does not report a timeout. Each critical section of `thr_mutex` is one step;
  `stop_flag` is written outside it.
- `max_threads` does not change during a run.
- `worker_thread` leaves through `conn.ctx` (mongoose.c:4525), which is set only after a first socket was
  taken (4507); the exit step acts on the context itself.
- `malloc` and `realloc` succeed; a declared body length is at most INT_MAX, as `post_data_len` is an `int`.
- Character classes and case are those of the C locale.
- `BUFSIZ` is any number of at least 256 (the C standard's minimum), a parameter of the model.
- `sscanf` is modelled for records of the passwords file. What it makes of an HTTP version, of an
  access-control entry and of an SSI tag, and which files exist, are function parameters; what `recv`,
  `recvfrom` and `sendto` return, whether a thread starts and whether a file opens, is arbitrary input. An
  error from `recv` ends a stream just as its end does, as in the code.

## Model

| member | source | states |
|---|---|---|
| Md5Rounds.ShortForms | MongooseDaemon/mongoose.c:1979-1985 | for all words the optimised F1 and F2 (and F3, F4) are the four auxiliary functions of RFC 1321 section 3.4 |
| Md5Rounds.Md5Step | MongooseDaemon/mongoose.c:1988-1989 | the macro, with its own order of additions, performs one operation of the RFC on the four registers |
| Md5Rounds.Round1 | MongooseDaemon/mongoose.c:2022-2037 | the sixteen unrolled calls with renamed registers are operations 1 to 16 of the RFC's register machine, constants, word order and shifts included |
| Md5Rounds.Round2 | MongooseDaemon/mongoose.c:2039-2054 | likewise operations 17 to 32 |
| Md5Rounds.Round3 | MongooseDaemon/mongoose.c:2056-2071 | likewise operations 33 to 48 |
| Md5Rounds.Round4 | MongooseDaemon/mongoose.c:2073-2088 | likewise operations 49 to 64 |
| Md5Rounds.Md5Transform | MongooseDaemon/mongoose.c:2012-2094 | the buffer becomes the RFC's compression of what it held with the block |
| Md5.SwapExpression | MongooseDaemon/mongoose.c:1971-1972 | the shifts and ors of byteReverse read four bytes low-order first |
| Md5.ByteReverse | MongooseDaemon/mongoose.c:1960-1977 | afterwards the host, whatever its byte order, reads the first words of the buffer as the little-endian words of the bytes that were there, and no later byte has changed |
| Md5.ReversedWords | MongooseDaemon/mongoose.c:2125-2126 | the sixteen words a host reads from a reversed block are those of section 2 of the RFC, so the transform does not depend on the host |
| Md5.NativeOrders | MongooseDaemon/mongoose.c:1960-1977 | a host of one kind reads four bytes low-order first, of the other high-order first |
| Md5.CounterAdvances | MongooseDaemon/mongoose.c:2107-2110 | the two counter words with their hand-made carry hold eight times the bytes so far modulo 2^64, after any length below 2^32 |
| Md5.TailFromCounter | MongooseDaemon/mongoose.c:2112 | the low counter word alone gives the number of bytes waiting in the buffer |
| Md5.Md5Context.constructor | MongooseDaemon/mongoose.c:1995-2005 | a new context stands for nothing fed in |
| Md5.Md5Context.CountBits | MongooseDaemon/mongoose.c:2107-2110 | the fields advance as CounterAdvances says |
| Md5.Md5Context.FeedBlocks | MongooseDaemon/mongoose.c:2130-2142 | from a whole number of blocks, the loop and the last copy leave the chaining value over all whole blocks and the rest of the data in the buffer |
| Md5.Md5Context.Absorb | MongooseDaemon/mongoose.c:2114-2142 | all three ways through (aligned, too short to fill the buffer, filling it) keep the invariant for the longer message |
| Md5.Md5Context.Update | MongooseDaemon/mongoose.c:2100-2143 | the context stands for what was fed in before followed by the new data: the invariant on counter, chaining value and tail is kept |
| Md5.PadLayout | MongooseDaemon/mongoose.c:2158-2178 | the RFC's padding is the message, one byte 0x80, and zeros up to the last eight bytes of the least number of blocks that has room |
| Md5.LengthLayout | MongooseDaemon/mongoose.c:2181-2183 | the RFC's last eight bytes are the two counter words, low-order word and byte first |
| Md5.Md5Context.PadOut | MongooseDaemon/mongoose.c:2155-2178 | with one or two blocks of padding, the buffer holds the first 56 bytes of the RFC's last block and all earlier blocks are hashed |
| Md5.Md5Context.TakeLastBlock | MongooseDaemon/mongoose.c:2179-2185 | fourteen reversed words and the counter as native words 14 and 15 hash as the RFC's last block |
| Md5.Md5Context.Output | MongooseDaemon/mongoose.c:2186-2187 | the digest is the four words low-order byte first, on either host, and the memory of the words holds it afterwards |
| Md5.Md5Context.Final | MongooseDaemon/mongoose.c:2149-2189 | the RFC 1321 digest of everything fed in; then as many words of the context as a pointer has are zero, the other hash words still hold their bytes of the digest in memory, the counter the message's length and the buffer its last block |
| Md5.LastBlockIsNotZero | MongooseDaemon/mongoose.c:2158-2183 | the RFC's last block of any message has a byte that is not zero |
| Md5.NeverCleared | MongooseDaemon/mongoose.c:2188 | so the input buffer left by MD5Final, on a host of either byte order, is never all zero |
| Md5.HexReadsBack | MongooseDaemon/mongoose.c:2196-2206 | each pair of characters of the text, read as hex digits, is the byte, and none is a capital |
| Md5.HexStringInjective | MongooseDaemon/mongoose.c:2196-2206 | two byte strings with the same text are equal, so comparing texts compares digests |
| Md5.Bin2Str | MongooseDaemon/mongoose.c:2196-2206 | two lower-case hex digits for each byte, in order |
| Md5.MgMd5 | MongooseDaemon/mongoose.c:2212-2229 | for every list of strings and either byte order, the text of the RFC 1321 digest of their concatenation; the split does not matter |
| Rfc1321Suite.SuiteDigest | MongooseDaemon/mongoose.c:2012-2094 | the digest of the letters and digits is the one listed in RFC 1321 appendix A.5, computed through all 128 operations of its two blocks |
| Context.PutAppends | MongooseDaemon/mongoose.c:4549-4551 | writing the slot at the head and advancing it appends to the queue and disturbs no live slot |
| Context.PutWaitsWhenFull | MongooseDaemon/mongoose.c:4544-4546 | a put has to wait exactly when twenty sockets are queued |
| Context.WrapKeepsQueue | MongooseDaemon/mongoose.c:4483-4487 | moving both pointers back by the ring size ends inside the ring and every queued socket is read from the same slot as before |
| Context.TakeRemovesOldest | MongooseDaemon/mongoose.c:4471-4487 | a take hands out the oldest queued socket and leaves the others in order |
| Context.ServerContext.Take | MongooseDaemon/mongoose.c:4471-4487 | the fields change as in TakeOrWait, and the assertion that the head is past the tail holds |
| Context.ServerContext.EnterGetSocket | MongooseDaemon/mongoose.c:4460-4461 | the caller counts as idle before it looks at the queue, and takes the oldest socket at once if there is one |
| Context.ServerContext.Put | MongooseDaemon/mongoose.c:4544-4562 | waits without a change exactly when the ring is full; otherwise the fields change as in PutOrWait, the assertion that there is room holds, and a thread is counted only if it started |
| Context.ServerContext.LeaveThread | MongooseDaemon/mongoose.c:4526-4527 | the leaving worker is taken out of both counters and nothing else changes |
| WorkerPool.StepKeepsInv | MongooseDaemon/mongoose.c:4450-4566 | every step of any thread keeps the invariant on ring, counters, wake-ups and shutdown |
| WorkerPool.Safety | MongooseDaemon/mongoose.c:4450-4650 | after every run from the start, over every interleaving: the ring pointers are in range and the enqueued sockets are the dequeued ones followed by the queued ones; num_idle is the number of workers waiting, signalled or timed out and num_threads that of all that are not gone, so 0 <= num_idle <= num_threads <= max_threads and the assertion in worker_thread holds; while a worker waits unsignalled, no more sockets are queued than workers are signalled and have yet to run; while the master waits unsignalled in put_socket the queue is full, and in mg_fini a thread is left; once stop_flag is 2 no worker is live |
| WorkerPool.Fifo | MongooseDaemon/mongoose.c:425-429 | in every run the accepted sockets are those handed to workers, then those queued, then the one the master waits with, in the order of the accepts, none lost or doubled |
| WorkerPool.PutStartsThread | MongooseDaemon/mongoose.c:4555-4562 | where there is room a put adds a worker if and only if none waits, is signalled or has timed out, fewer than max_threads live, and it starts |
| WorkerPool.PoolGrows | MongooseDaemon/mongoose.c:4555-4562 | some run has n workers busy at once, for every n up to max_threads |
| WorkerPool.PutLeavesTaker | MongooseDaemon/mongoose.c:4555-4564 | after a put some worker will look at the queue if and only if there was one before, or no thread is left, one is allowed and it starts |
| WorkerPool.StrandedSocket | MongooseDaemon/mongoose.c:4464-4468 | a run from the start that ends with a queued socket, every worker gone and the master back at accept |
| WorkerPool.TakersStay | MongooseDaemon/mongoose.c:4459-4489 | as long as a socket is queued, the last worker that will look at the queue does not give up |
| WorkerPool.StrandStep | MongooseDaemon/mongoose.c:4459-4564 | exactly which steps of any thread leave a queued socket without a worker to come |
| WorkerPool.StrandedExactly | MongooseDaemon/mongoose.c:4459-4564 | after any run a queued socket has no worker to come if and only if one was put while there was none (or there was one without at the start) and no put since started a thread |
| WorkerPool.ShutdownStep | MongooseDaemon/mongoose.c:3877-3914 | once mg_fini has begun, every step but a spurious wake-up brings its end nearer |
| WorkerPool.ShutdownCanGoOn | MongooseDaemon/mongoose.c:3877-3914 | until mg_fini is done some thread can take a step that is no spurious wake-up: no deadlock |
| WorkerPool.ShutdownCompletes | MongooseDaemon/mongoose.c:3870-3915 | any run of mg_fini without spurious wake-ups is bounded, and where it cannot go on stop_flag is 2 and no thread is counted |
| WorkerPool.DoneIsFinal | MongooseDaemon/mongoose.c:4641-4651 | once stop_flag is 2 no worker lives, none can start, nothing can happen; so the assertion in mg_stop holds |
| WorkerPool.BlockedForEver | MongooseDaemon/mongoose.c:4544-4546 | a master that waits with a full ring and no worker to come does so in every run, spurious wake-ups and mg_stop included |
| WorkerPool.StopCompletes | MongooseDaemon/mongoose.c:4597-4651 | from every state with a stop requested and the master not waiting so, every run without spurious wake-ups and further accepts has at most StopLeft steps, and where it cannot go on mg_fini is done and stop_flag is 2 |
| WorkerPool.StaysUnblocked | MongooseDaemon/mongoose.c:4450-4564 | without further accepts no step of any thread blocks the master |
| WorkerPool.StopCompletesUnlessBlocked | MongooseDaemon/mongoose.c:4597-4651 | the companion for all states: with a stop requested some run ends with mg_fini done if and only if the master does not wait so |
| WorkerPool.OneMoreAcceptBlocks | MongooseDaemon/mongoose.c:4624-4630 | with a stop requested, a full ring and no worker to come, the master in its listener loop can still finish, but one more accepted socket blocks it for ever |
| WorkerPool.MayBlockUntilFini | MongooseDaemon/mongoose.c:4613-4636 | some run blocks the master for ever if and only if mg_fini has not begun, stop requested or not |
| WorkerPool.BlockedMaster | MongooseDaemon/mongoose.c:4464-4561 | a run from the start that ends in such a state with no thread left and a stop requested |
| Ssi.Expand | MongooseDaemon/mongoose.c:3513-3523 | over any site, pages that include themselves or each other included, expansion ends, and at most eleven minus the level scans nest |
| Ssi.Connection.SendSsiFile | MongooseDaemon/mongoose.c:3513-3577 | what is sent, run and logged is exactly what a scanner with that much room for a tag does, and that is what a scanner without a buffer does if no candidate tag is longer than the buffer less two; otherwise a tag is reported as too large |
| Ssi.Connection.ScanPage | MongooseDaemon/mongoose.c:3525-3576 | exactly the events of the scanner with that much room, for one page, with every index inside the buffer |
| Ssi.Connection.TagByte | MongooseDaemon/mongoose.c:3549-3557 | a byte inside a candidate keeps buffer and unbuffered scanner in step, also where the candidate is given up or overflows |
| Ssi.Connection.RunDirective | MongooseDaemon/mongoose.c:3446-3547 | a closed tag is passed on, included, run or reported, recursion included |
| Ssi.BufferedExpandShows | MongooseDaemon/mongoose.c:3549-3557 | over any site, a scanner with room for every candidate does what one without a buffer does; one with less reports a tag as too large |
| Ssi.LongTag | MongooseDaemon/mongoose.c:3549-3557 | the bytes of a tag that fill the buffer are neither sent nor obeyed, it is reported once, and the scan goes on as in a candidate from the next byte |
| Ssi.TagInPage | MongooseDaemon/mongoose.c:3528-3547 | in any page, text with no opening before a tag is sent as it is; then an include of a plain file sends that file, one of a page what that page expands to, a missing or malformed one is logged, exec runs its command, any other is logged; then the scan goes on behind the tag |
| Ssi.IncludedFile | MongooseDaemon/mongoose.c:3480-3494 | a page with one include of a plain file between two texts sends the three one after the other |
| Ssi.CompareAtNul | MongooseDaemon/mongoose.c:3538-3541 | comparing with a command word does not see bytes left in the buffer from an earlier tag |
| Ssi.PlainPage | MongooseDaemon/mongoose.c:3528-3576 | a page without the opening of a tag is sent byte for byte |
| Ssi.SelfInclude | MongooseDaemon/mongoose.c:3520-3523 | a page that includes itself is scanned eleven deep, so the bound is reached, and then the level is reported as too deep |
| Framing.GetRequestLen | MongooseDaemon/mongoose.c:1756-1774 | the end of the first blank line if there is one, else -1 if any byte but the last is forbidden, else 0 |
| Framing.RequestLenMeans | MongooseDaemon/mongoose.c:1756-1771 | the length up to the first of LF LF and LF CR LF; without one, -1 if a control byte other than CR and LF comes before the last byte, else 0 |
| Framing.FirstEndIsFirst | MongooseDaemon/mongoose.c:1767-1771 | that end belongs to the earliest of all marks, and is zero only if there is none |
| Framing.FirstEndStable | MongooseDaemon/mongoose.c:1756-1774 | bytes that arrive later do not move it |
| Framing.Peer.Pull | MongooseDaemon/mongoose.c:2849-2858 | some of the next bytes in order, none only when there are none |
| Framing.ReadRequest | MongooseDaemon/mongoose.c:2848-2865 | no byte is lost or reordered between peer and buffer, and the answer is the first nonzero one over the growing prefixes of what fits the buffer |
| Framing.PiecesDoNotMatter | MongooseDaemon/mongoose.c:2848-2865 | the answer is the same for all ways to cut the stream into pieces if and only if no forbidden byte precedes the end of the request; then it is that of the whole |
| Framing.PiecesExample | MongooseDaemon/mongoose.c:1762-1771 | a control byte and two line feeds: a request of three bytes when read at once, malformed when cut after two |
| Parsing.Skip | MongooseDaemon/mongoose.c:639-654 | the word before the delimiters and the text after them are both left as C strings, and only bytes of the text become NUL |
| Parsing.ParseHttpHeaders | MongooseDaemon/mongoose.c:2789-2801 | the recorded positions hold, all at once after all the cutting, the names and values of the text, up to 64 and up to the first empty name |
| Parsing.ParseHttpRequest | MongooseDaemon/mongoose.c:2816-2839 | accepts exactly the texts with a known method, a URI that starts with a slash and a good version, and the record then points at the right strings |
| Parsing.RequestLine | MongooseDaemon/mongoose.c:2816-2839 | for any request line, with any number of spaces between the words: a request if and only if the method is GET, POST, HEAD, PUT or DELETE, the URI starts with a slash and the version is good; then exactly those words and the headers of the rest |
| Parsing.AcceptedText | MongooseDaemon/mongoose.c:2816-2839 | whatever text is accepted starts with one of the five methods, a URI from the root and a good version, in this order, and has at most sixty-four headers |
| Parsing.HeaderReads | MongooseDaemon/mongoose.c:2789-2801 | a name, any colons and spaces, a value and any line ends are one header, followed by those of the rest; an empty name or the count ends them |
| Parsing.GetHeader | MongooseDaemon/mongoose.c:659-669 | the value of the first header with that name in any case, nothing only if there is none |
| Parsing.FramingFindsPrint | MongooseDaemon/mongoose.c:1756-1774 | the length found for a printed request is its own, whatever body follows |
| Parsing.ParseInvertsPrint | MongooseDaemon/mongoose.c:2789-2839 | parsing the printed text of any request with one of the five methods gives it back, with the first sixty-four of its headers |
| Parsing.ProcessNewConnection | MongooseDaemon/mongoose.c:4407-4422 | reading, terminating and parsing together yield the meaning of the bytes that fit the buffer; the assertion that enough was read holds; what lies past the request, in the buffer and at the peer, is untouched |
| Parsing.RoundTrip | MongooseDaemon/mongoose.c:4407-4422 | for all well-formed requests, with any number of headers, all bodies and ways to cut the stream, that meaning is the request itself with its first sixty-four headers |
| CStrings.MgStrcasecmp | MongooseDaemon/mongoose.c:544-554 | zero exactly for strings equal in lower case, else the difference of the first bytes that are not |
| CStrings.MgStrncasecmp | MongooseDaemon/mongoose.c:531-542 | zero exactly when at most that many bytes of the strings, up to their NULs, are equal in lower case, else the difference in lower case of the first two bytes that are not; nothing past a NUL is read |
| CStrings.EqualInAnyCase | MongooseDaemon/mongoose.c:525-554 | strings are equal in lower case if and only if they are letter by letter the same or the two forms of one letter of the alphabet; lower case has no capitals and changes nothing else |
| Body.RequestInfo.PullRest | MongooseDaemon/mongoose.c:3078-3089 | bytes missing plus bytes stored stay the declared length, data plus stream stay the same bytes, and some are missing only when the stream is over |
| Body.RequestInfo.HandleRequestBody | MongooseDaemon/mongoose.c:3028-3100 | succeeds exactly when the length is declared, the expectation is met and enough bytes are supplied; then the data is the declared number of first bytes, however they arrive, and nothing beyond them is consumed |
| Urls.UrlDecode | MongooseDaemon/mongoose.c:1567-1593 | in place or into another buffer alike, the bytes written are those the loop yields on the memory as it was, cut to the room there is, NUL after them, and no other byte changes |
| Urls.ScanIsDecode | MongooseDaemon/mongoose.c:1575-1588 | what the loop yields is the decoding of the text if and only if no escape cut off by its end goes on after it (and means anything but a percent sign) |
| Urls.ScanOverruns | MongooseDaemon/mongoose.c:1576-1582 | an input where it is not |
| Urls.DecodeInvertsEncode | MongooseDaemon/mongoose.c:1575-1588 | decoding undoes every percent-encoding of RFC 3986 section 2.1 of every byte string, for URIs and for forms |
| Urls.EscapeDecodes | MongooseDaemon/mongoose.c:1576-1582 | a percent sign and two hex digits, small or capital, decode to the byte with that number |
| Urls.OtherBytesDecode | MongooseDaemon/mongoose.c:1583-1588 | any other byte decodes to itself, but for the plus sign of a form, which is a space |
| Urls.ScanInvertsEncode | MongooseDaemon/mongoose.c:1575-1588 | so does the loop, whatever bytes come after in memory, even none |
| Urls.GetVar | MongooseDaemon/mongoose.c:1599-1631 | nothing, or the decoding of the value found, right if and only if the end of the value cuts off no escape that goes on after it |
| Urls.GetVarLooksUp | MongooseDaemon/mongoose.c:1610-1621 | for a name without delimiters, the byte-by-byte search finds what splitting at the ampersands and looking the name up in any case finds |
| Urls.FirstAssignment | MongooseDaemon/mongoose.c:1610-1626 | of any segments between ampersands, assignments or not, the value found is that of the first segment that is the name in any case, an equals sign and that value; none is found only if there is none |
| Urls.OnlyLastOverruns | MongooseDaemon/mongoose.c:1619-1626 | only a value that ends with the buffer can be misread |
| Urls.FormRoundTrip | MongooseDaemon/mongoose.c:1599-1631 | in any printed form, the first value of a name is found and decoded back, whatever follows the form in memory, even nothing |
| Matching.MatchRegex | MongooseDaemon/mongoose.c:747-763 | terminates on all memory and decides what MatchCode says |
| Matching.MatchCodeDecides | MongooseDaemon/mongoose.c:743-763 | on all memory, accepted are the strings of the pattern's language and besides only those where a star of the pattern, reached by matching what is before it, meets a star behind the terminator and the rest of the pattern accepts what follows in memory |
| Matching.RightUnlessRunsOver | MongooseDaemon/mongoose.c:743-763 | the answer is that of the language if and only if no star runs over so or the string is in the language anyway |
| Matching.MatchCodeIsLanguage | MongooseDaemon/mongoose.c:743-763 | in particular, where no star follows the terminator, accepted are exactly the strings of the pattern's language |
| Matching.StarAfterEndMisleads | MongooseDaemon/mongoose.c:753-760 | a string and pattern in memory where it is a star and the answer is wrong |
| Matching.StarAfterEndAcceptsAll | MongooseDaemon/mongoose.c:753-760 | with any star and word behind the terminator, the star followed by the word accepts every string, although its language is the strings ending in the word |
| Matching.FindCallback | MongooseDaemon/mongoose.c:765-788 | on all memory, the first entry that applies, and none only if none does |
| Matching.SelectsByLanguage | MongooseDaemon/mongoose.c:776-780 | where no star follows the URI, an entry applies to the URIs of its kind and of its pattern's language |
| Matching.SelectsByStatus | MongooseDaemon/mongoose.c:780-783 | without a URI an entry for status 0 applies to every code, any other to its own only |
| Paths.RemoveDoubleDotsAndDoubleSlashes | MongooseDaemon/mongoose.c:1839-1857 | the string is cleaned in place, the writing position never passing the reading one, and no byte outside it changes |
| Paths.CleanKeepsWhatStays | MongooseDaemon/mongoose.c:1845-1853 | the result is exactly the bytes that stay: a slash or backslash unless one is right before it, a dot unless it is in a pair of a run of dots that starts right after one, and every other byte |
| Paths.CleanKeepsLetters | MongooseDaemon/mongoose.c:1845-1853 | no byte but slashes, backslashes and dots is lost |
| Paths.CleanIsSubsequence | MongooseDaemon/mongoose.c:1845-1853 | bytes are only dropped, never changed or moved past each other |
| Paths.CleanHasNoDotDot | MongooseDaemon/mongoose.c:1835-1853 | no slash or backslash of the result is followed by two dots |
| Paths.CleanLeavesDoubleSlash | MongooseDaemon/mongoose.c:1835-1853 | two slashes remain next to each other if and only if somewhere in the input a slash is followed by pairs of dots and another slash |
| Paths.DoubleSlashExample | MongooseDaemon/mongoose.c:1835-1853 | the path /../a becomes //a |
| Paths.CleanKeeps | MongooseDaemon/mongoose.c:1839-1857 | a path is left alone if and only if it has neither two slashes in a row nor a slash and two dots |
| Uris.TakeUri | MongooseDaemon/mongoose.c:3634-3638 | the URI in the request buffer becomes the path it asks for, which never goes up however it was encoded; the query is left whole; no byte outside the URI changes |
| Uris.EncodedPath | MongooseDaemon/mongoose.c:3634-3638 | every percent-encoding of any path asks for that path up to its first NUL, cleaned, with and without a query |
| Uris.PathRoundTrip | MongooseDaemon/mongoose.c:3634-3638 | every percent-encoding of a path with nothing to remove asks for that path, with and without a query |
| Options.NextOption | MongooseDaemon/mongoose.c:685-719 | the first item, split at its equals sign if asked for, and a list whose items are the remaining ones and which is shorter |
| Options.SplitItemDivides | MongooseDaemon/mongoose.c:706-714 | an item without an equals sign is all key; else the first one divides key and value |
| Options.WalkVisitsAll | MongooseDaemon/mongoose.c:685-719 | walking a joined list of items without commas visits them all in order, empty ones too, except an empty one at the very end |
| Options.MatchesIsPrefix | MongooseDaemon/mongoose.c:3849-3853 | an entry of prefix length m matches an address if and only if bit by bit its own is the address's in the top m of 32 bits and zero below |
| Options.CheckAcl | MongooseDaemon/mongoose.c:3811-3857 | malformed if and only if some entry is, or has a prefix length outside 0 to 32; otherwise the last matching entry decides and without one the address is denied |
| Cgi.CgiEnvBlock.AddEnv | MongooseDaemon/mongoose.c:3126-3155 | keeps the block well formed: the strings packed without gaps, a pointer to each, at most 62 of them in at most 4094 bytes; adds the string, cut to the room there is, and returns where it lies, recorded or not |
| Cgi.CgiEnvBlock.Close | MongooseDaemon/mongoose.c:3247-3252 | the three assertions hold, the pointers end in NULL, and the strings are followed by one more NUL |
| Cgi.PointersRead | MongooseDaemon/mongoose.c:3148-3152 | what a CGI program reads at pointer i is exactly string i |
| Cgi.NoGaps | MongooseDaemon/mongoose.c:3148-3152 | the strings take their own bytes and one NUL each |
| Cgi.WhatIsAdded | MongooseDaemon/mongoose.c:3133-3152 | a string that fits the 4094 bytes is added whole if there are less than sixty-two; one that does not is cut to the room there is, or not added when that is one byte or none |
| Cgi.EndsInTwoNuls | MongooseDaemon/mongoose.c:3105-3112 | a block with any string in it ends in two NULs |
| Cgi.NothingLost | MongooseDaemon/mongoose.c:3133-3152 | a list of strings is all in the block, whole and in order, if and only if none is empty, they are at most sixty-two, and take at most 4094 bytes |
| Passwords.PasswordsFile.Modify | MongooseDaemon/mongoose.c:2463-2527 | returns 0; unless a file cannot be opened, the file as read line by line through the 512-byte buffer loses what is no record, has every record of the user replaced or removed, and gets a new user's entry at its end; the hash is the RFC 1321 digest of user, domain and password with colons between them |
| Passwords.PasswordsFile.FindHash | MongooseDaemon/mongoose.c:2380-2394 | the hash of the first complete record of the user, read through the 256-byte buffer |
| Passwords.NextPiece | MongooseDaemon/mongoose.c:2381-2496 | a line buffer takes a line with its newline, or as much of it as fits, and a NUL hides the rest of it |
| Passwords.RecordForms | MongooseDaemon/mongoose.c:2383-2498 | what is read of lines with no, one and two colons, empty fields included |
| Passwords.WordAfterBlanks | MongooseDaemon/mongoose.c:2383-2385 | the hash is the first word after any of the six white-space bytes, and there is none if only those follow |
| Passwords.EntryReadsBack | MongooseDaemon/mongoose.c:2383-2505 | an entry as printed is scanned at login as the same user, domain and hash |
| Passwords.HashIsWord | MongooseDaemon/mongoose.c:2504-2505 | the hash is 32 characters that the scan does not stop at, so every password can be written |
| Passwords.LinesOfFile | MongooseDaemon/mongoose.c:2381-2496 | a text file whose lines fit a buffer is read line by line with it, for buffers of either size |
| Passwords.EntryLogin | MongooseDaemon/mongoose.c:2381-2388 | an entry of any length, cut by the 255 bytes that login reads at a time, shows each user exactly what LoginHash says: the user as much of the hash as fits, or, for a longer name, what is left of it |
| Passwords.GluedLogin | MongooseDaemon/mongoose.c:2512-2516 | what login finds for everybody in an entry glued to an open line of any length, by the fields: the line becomes part of the user's name, or of the domain with the user's name, or is a record whose hash goes on with the entry; then whoever what is left of a cut name shows |
| Passwords.GluedIsLost | MongooseDaemon/mongoose.c:2512-2516 | an entry glued to a line of somebody else is not found, unless the domain starts with the hash of its own record |
| Passwords.ChangedFile | MongooseDaemon/mongoose.c:2463-2527 | for any file, what login finds for anybody after a change: first in the others' whole lines in front of the user's place, then in the entry with what it is glued to, then in the lines behind with their own changes |
| Passwords.LoginFindsNewHash | MongooseDaemon/mongoose.c:2463-2527 | for any file, login finds the new hash if and only if the first hash shown for the user by the whole lines in front, the entry with what it is glued to, and the lines behind is that hash; if the login buffer holds the entry, its newline apart, and the entry starts a line, if and only if the lines in front show the user no other hash |
| Passwords.OthersAreKept | MongooseDaemon/mongoose.c:2463-2527 | for any file, another user finds what they found before if and only if the first hash so shown for them is that; an entry that starts a line shows them nothing if the user's name has at most 255 bytes |
| Passwords.ChangedTextFile | MongooseDaemon/mongoose.c:2463-2527 | in a text file with lines of at most 511 bytes, login finds for everybody after a change: without glue what the others' lines in front of the user's place show, then what the entry shows, then what all the others' lines show; with glue the others' whole lines and then the glued one |
| Passwords.RemovedUser | MongooseDaemon/mongoose.c:2476-2507 | with an empty password everybody finds what the others' lines show them: for the removed user and for anybody that is nothing if and only if no line that was read as somebody else's record shows them a hash |
| Passwords.ChangedLines | MongooseDaemon/mongoose.c:2476-2516 | byte by byte, a changed text file is its lines with each of the user's replaced or dropped, lines that are no records dropped and others untouched, and a new user's entry at the end |
| Passwords.OnlyThatLine | MongooseDaemon/mongoose.c:2476-2507 | in a file of records, one of them the user's, no byte outside that line changes |
| Passwords.FullLineLosesNewline | MongooseDaemon/mongoose.c:2476-2516 | a record of 511 bytes of another user loses its newline in any change, and a new entry is glued to it |
| Passwords.ShortFileFound | MongooseDaemon/mongoose.c:2463-2527 | with lines of at most 255 bytes the new hash is found if and only if the login buffer holds the entry, its newline apart, and it is not glued, or the glued line reads as that very entry |
| Passwords.ShortFileKept | MongooseDaemon/mongoose.c:2463-2527 | there another user finds what they found before if and only if an unglued entry shows them nothing, nothing new or comes after a record of theirs, or a glued line shows them what the record in it did or they have an earlier one |
| Passwords.ChangedUser | MongooseDaemon/mongoose.c:2463-2527 | there login finds the new hash for the user and the old one for everybody else, if the login buffer holds the entry, its newline apart, and it is not glued |
| Passwords.RemovedShortUser | MongooseDaemon/mongoose.c:2476-2507 | and a removed user is found no more, everybody else as before |
| Passwords.GluedNeighbour | MongooseDaemon/mongoose.c:2512-2516 | a new entry glued to a complete record changes the hash of that record's owner, unless they have an earlier record or the new name starts with white space |
| Passwords.GluedExample | MongooseDaemon/mongoose.c:2512-2516 | a file with one such record: its hash is no longer what it was, and a user of domain d added to it is not found (unless that user's hash is the letter d) |
| Passwords.CutNameExample | MongooseDaemon/mongoose.c:2381-2388 | a name of 256 bytes: its owner is not found and the user named by its last byte finds the hash |
| Passwords.TwoCallsExample | MongooseDaemon/mongoose.c:2381-2496 | after a password for such a name, one set for the user named by its last byte is not found: login finds the first hash, and still does when that user is removed |
| Udp.UDPsocket.Bind | SDL_net/SDLnetUDP.c:426-449 | the address is appended to the channel asked for or to the first with room and that channel is returned; else -1 and an unchanged table; at most four addresses each |
| Udp.BindTakesItsChannel | SDL_net/SDLnetUDP.c:426-449 | a bind on a channel goes there if it is one of the 32 and has less than four addresses, and else changes nothing |
| Udp.UDPsocket.Unbind | SDL_net/SDLnetUDP.c:452-457 | the channel is empty, other channels and out-of-range numbers change nothing |
| Udp.UnbindEmpties | SDL_net/SDLnetUDP.c:452-457 | exactly the channel named is emptied, if there is one of that number |
| Udp.UDPsocket.GetPeerAddress | SDL_net/SDLnetUDP.c:463-482 | the socket's own address for -1, the primary address of a bound channel, else nothing |
| Udp.UDPsocket.SendV | SDL_net/SDLnetUDP.c:491-606 | every packet goes once to each of its targets in the code's order, the result counts the calls that succeeded, and a packet's status is that of its last success, also where a packet is listed twice |
| Udp.TargetsAre | SDL_net/SDLnetUDP.c:491-606 | a packet without channel goes to its own address, one with a channel to every address of it, from the last to the first |
| Udp.SuccessesCount | SDL_net/SDLnetUDP.c:541-600 | the count is the number of calls that returned no error |
| Udp.StatusIsLastSuccess | SDL_net/SDLnetUDP.c:541-600 | the status of a packet is what the last successful call for it returned; without one it stays |
| Udp.UDPsocket.LabelPacket | SDL_net/SDLnetUDP.c:731-746 | the two countdown loops and the goto find the highest channel that holds the source, or -1 |
| Udp.UDPsocket.RecvV | SDL_net/SDLnetUDP.c:672-762 | the packets hold, in order, the datagrams that arrived without an error, cut to size and labelled; a packet listed twice holds the last; failures take no packet, and a last one leaves the packet it was meant for empty with status -1 |
| Udp.GoodAreTheDatagrams | SDL_net/SDLnetUDP.c:672-762 | what packets are filled with are the datagrams among the arrivals, in order |
| Udp.PrimaryIsFirstBound | SDL_net/SDLnetUDP.c:417-457 | after any sequence of binds and unbinds, the primary address of a channel is the one a bind put there while it was empty, with no unbind of that channel since |
| Udp.LabelIsHighest | SDL_net/SDLnetUDP.c:731-746 | the label is the highest channel holding the address, and -1 only if none does |
| Udp.BindAnyTakesLowest | SDL_net/SDLnetUDP.c:430-448 | all channels below the one taken are full, and where nothing is taken all are |
| Udp.BindAnyIsFirstUnbound | SDL_net/SDLnetUDP.c:418-434 | the channel taken is the first unbound one, as documented, if and only if every channel below that is full |
| Udp.BindAnyExample | SDL_net/SDLnetUDP.c:430-436 | with one address on channel 0, the next one joins it there and not on channel 1 |
| Udp.StatusMeansFailure | SDL_net/SDLnetUDP.c:541-600 | after any calls the status is -1 if and only if it was -1 before and no call for that packet succeeded |
| Udp.FailureExample | SDL_net/SDLnetUDP.c:541-548 | a failed call for a packet of status 0 leaves it 0 |
| Udp.RepliesComeBack | SDL_net/SDLnetUDP.c:558-746 | a reply from an address a channel sends to is labelled with that channel or a higher one |

## Left out

- Context.ServerContext.Put: no wait and no signal; whether the caller must wait and whether a thread is to be counted is its result.
- Context.ServerContext.Take: like the other methods of the class, no wait and no signal; the class holds the fields and the critical sections; the signals and waits on condition variables are in the state machine only.
- WorkerPool.ShutdownCompletes: does not bound spurious wake-ups, which may go on for ever.
- WorkerPool.StopCompletes: does not bound spurious wake-ups either, and counts no further accepts; how many sockets the listener loop accepts after the stop depends on the listeners, and WorkerPool.MayBlockUntilFini says what they may do.
- Parsing.ParseHttpRequest: the scan of the version's numbers is a parameter, and the peer's address is not copied into the record.
- Body.RequestInfo.HandleRequestBody: the mode that writes the body to a file or a CGI program, and the text of the replies, are not modelled.
- Options.CheckAcl: the reading of an entry by sscanf is a parameter.
- Cgi.CgiEnvBlock.AddEnv: takes the formatted string and returns its position; which variables are set, and the conversion of header names to upper case afterwards, are not modelled.
- Ssi.Connection.RunDirective: running a command is an event; its output, and the sscanf that finds a file name in a tag, are outside.
- The choice of replies, the check that the version is 1.0 or 1.1 (4423-4430), keep-alive and pipelining in shift_to_next.
- Parsing the digest authorization header and checking a response against the hash that was found (2310-2365, 2386-2391).
- Passwords.ChangedFile: for names the format can hold (no colon, newline or NUL, not empty).
- Passwords.ChangedTextFile: the line-by-line forms, like that of Passwords.RemovedUser, are for text files whose lines fit the 512-byte buffer, the last piece with or without newline; for other files Passwords.ChangedFile speaks of the pieces the buffers cut.
- Passwords.PasswordsFile.Modify: failing to write, remove or rename a file is not modelled.
- Callback removal: remove_callback never lowers num_callbacks, so the table here is add-only.
- Option locking: mg_set_option locks by table position while readers lock by option number, so no mutual exclusion holds.
- The choice of query string or body in mg_get_var, and freeing its result.
- HTML pages, MIME types, logging, dates, SSL, process spawning, directories.
- Windows, WinCE and MacOS branches; SDLnetTCP.c, SDLnetselect.c and SDLnet.c, which add list and loop members without branching.
