# A Dafny model of the web server's shared library

The server is written in C. This project models six parts of it in Dafny and proves what they promise.

* **Worker pool** (`TaskLists`, `TaskPool`, `PoolProtocol`, `PoolSafety`, `PoolTheorems`, `PoolTokens`, `PoolShutdown`,
  `PoolLiveness`, with `Counting` and `Runs`). `TaskPool` is the pointer code of the critical sections, proved to act on two lists as the functions of `TaskLists` say.
  `PoolProtocol` is the protocol as a transition system over the same functions: one step is one critical section or one semaphore
  operation of one worker, of one enqueue call or of the thread that shuts the pool down. The theorems hold for every number of
  workers, every number of calls and every interleaving.
* **Strings** (`Strings`, `Splitting`, `Numbers`, `Scanning`, with `Basics`). The string object, its searches, trimming and
  splitting, and the integer formats that the other parts print and scan.
* **URIs** (`PercentCoding`, `UriText`, `UriParser`, `UriTiling`, `UriSyntax`, `UriAuthority`, `UriRoundTrip`, `UriSurvival`). The percent codec, the component
  parser and the printer. The grammar is that of RFC 3986, sections 2.1 to 2.3 and 3.1 to 3.5, with the deviations of the code: a
  scheme has no digits and keeps its ":" or "://"; the first character of a query is never taken for a number sign; a question mark
  at the very end starts a query that holds the terminator, and the parse then fails.
* **HTTP** (`HttpHeaders`, `HttpHead`, `HttpGrammar`, `HttpReceive`, `HttpRequests`, `HttpHeaderText`, `HttpRoundTrip`,
  `HttpResponses`). The header store with its recycled slots, the incremental request parser, and the response writer (RFC 7230,
  sections 3, 3.2 and 3.3.2).
* **Streams** (`Streams`). Buffer streams, the buffered reader and reading a whole stream.
* **Base64** (`Base64`). The codec of RFC 4648, section 4.
* **Alphabets** (`Alphabets`, `Tables`). Case folding, the hexadecimal digits, the characters that are not encoded and the Base64
  table, against the literal characters.

Code that works by loops and assignments is a class or a method with the source's loops, proved against functions on values; what
the source promises is then proved about those functions. Texts are Dafny strings, one character a byte. A `Str` holds a text
without its terminating NUL.

Three promises turned out false of the code. For each there is an input that shows it, and the exact condition under which it
holds:

* Whether a whole request is accepted depends on how its bytes are cut into reads, because the reading limit counts from the empty
  line and not from the body. `HttpRoundTrip.ShortRequestNeedsOneRead` gives a request that is accepted in one read and rejected when
  its last byte comes in a second one, and `HttpReceive.LastByteAlone` says that of every request with a body. For which reads a
  request is accepted is `HttpReceive.AcceptedExactly`; written responses, read by the same parser, are no exception
  (`HttpRoundTrip.ResponseComesBack`). The head does not depend on the reads (`HttpReceive.HeadIsIndependentOfReads`).
* Not every URI survives being printed and parsed, not even every URI that the parser stores: `UriRoundTrip.CodedQuestionMarkIsLost`
  shows that the path of "/a%3Fb" loses what follows its question mark. `UriRoundTrip.RoundTrip` has the exact condition,
  `UriRoundTrip.Survives`: a component is there; the scheme is one the parser could have stored, and without a scheme the authority
  does not look like one; user info and host hold none of "/", "?" and "#", the user info no "@", and neither does a host without
  user info; the host is not empty and in lower case, and without a port it is trimmed and has no colon that counts, or has no
  port behind its last colon and more than blanks before it; a port has a trimmed host, is below 65536 and is stored as it is printed; the path starts with a
  slash, with one only when there is no authority, and holds no "?" or "#"; the query is not empty and has no "#" after its first
  character; the fragment is not empty. `UriSurvival.ParsedSurvives` says for which texts the parsed URI has all this.
* Not every header survives being written and read: `HttpHeaderText.CommaPartsValue` shows that the value "b,c" comes back as two.
  `HttpHeaderText.HeaderComesBack` and `HttpRoundTrip.BlockComesBack` have the exact conditions, `HttpHeaderText.Writable` and
  `HttpRoundTrip.BlockWritable`: no NUL and no CRLF inside a name or a value; no colon in a name; at least one value; no comma in a
  value, except that the last value may end with one; the last of several values not empty; the first value not starting with a
  space or a tab; and names different up to case.

## Model

| member | source | states |
|---|---|---|
| `TaskPool.Pool.Link` | src/shared/worker_thread_pool.c:198-241 | The locked part of an enqueue call rejects just when the queue is full; otherwise the first free task, or a new one, is the last of the queue with its data set and its semaphore untouched, and every other task keeps its fields. |
| `TaskPool.Pool.Obtain` | src/shared/worker_thread_pool.c:205-224 | Takes the head of the free chain, or allocates a task with semaphore 0, and leaves both chains and counters consistent. |
| `TaskPool.Pool.Append` | src/shared/worker_thread_pool.c:233-241 | The first, last and next pointers stay a chain, now with the task at its end. |
| `TaskPool.Pool.Dequeue` | src/shared/worker_thread_pool.c:42-54 | The first task leaves the chain; the last pointer is null just when the queue is empty. |
| `TaskPool.Pool.Store` | src/shared/worker_thread_pool.c:61-64 | The callback's value is written where the result pointer points, and nothing is written without one. |
| `TaskPool.Pool.Finish` | src/shared/worker_thread_pool.c:69-81 | A timed-out task goes to the front of the free chain; any other is completed and posted once. |
| `TaskPool.Pool.Recycle` | src/shared/worker_thread_pool.c:72-74 | The free chain has the task at its front and its counter one more. |
| `TaskPool.Pool.Settle` | src/shared/worker_thread_pool.c:265-293 | The decision after a timed wait: completion beats a timeout, a timeout clears the result pointer and marks the task. |
| `PoolSafety.StepInv` | src/shared/worker_thread_pool.c:10-301 | Every step of every thread keeps the invariant on lists, tasks, calls, progress and history. |
| `PoolTheorems.RunGood` | src/shared/worker_thread_pool.c:10-301 | Every state of every run from an initial state satisfies the invariants. |
| `PoolTheorems.NoLostWakeUp` | src/shared/worker_thread_pool.c:13-46 | Before shutdown, tokens, posts still to come and tokens just taken are together at least the length of the queue, so workers that all wait with no post outstanding find a token for every queued task. |
| `PoolTheorems.NoDeadlock` | src/shared/worker_thread_pool.c:189-301 | Before shutdown, as long as a call has not returned some thread can take a step that is neither a timeout nor a new call. |
| `PoolTheorems.TaskConservation` | src/shared/worker_thread_pool.c:48-83 | Every task is in exactly one of the queue, one worker's hands, the free list and the completed tasks; no list holds it twice; only timed-out tasks with semaphore 0 are free. |
| `PoolTheorems.CompletedForEver` | src/shared/worker_thread_pool.c:205-231 | A completed task keeps its owner and stays completed for the rest of the run: it is never recycled. |
| `PoolTheorems.SettlingHasOneWinner` | src/shared/worker_thread_pool.c:261-297 | An unexpired timed wait means that the task is completed, so the branch at line 272 never runs and no settling recycles a task; the call succeeds just when the task is completed and times out just when it is marked. |
| `PoolTheorems.FinishingHasOneWinner` | src/shared/worker_thread_pool.c:66-83 | A worker recycles a task just when its call has returned a timeout, with semaphore 0, and otherwise completes it with semaphore 1, never both. |
| `PoolTheorems.SuccessMeansDelivered` | src/shared/worker_thread_pool.c:248-300 | A waiting call that returned success has a callback that returned, and its value is in the caller's int if the caller asked for it. |
| `PoolTheorems.NoWriteAfterReturn` | src/shared/worker_thread_pool.c:60-81 | From the return of a call that waited or failed on, its outcome and the caller's int never change again. |
| `PoolTheorems.CallbackRunsOnce` | src/shared/worker_thread_pool.c:60-61 | What the callback of a call returned never changes: it runs at most once. |
| `PoolTheorems.FirstInFirstOut` | src/shared/worker_thread_pool.c:198-242 | The calls whose tasks were dequeued are a prefix of the accepted calls in mutex order, the queue is the rest, and it never exceeds the bound the pool was made with. |
| `PoolTheorems.HistoryGrows` | src/shared/worker_thread_pool.c:48-54 | The orders of acceptance and of dequeuing are only ever extended. |
| `PoolTheorems.EnqueueDecides` | src/shared/worker_thread_pool.c:196-242 | In every state of every run, a new call is rejected exactly if as many accepted calls wait to be dequeued as the pool was made for; otherwise it is accepted, behind all that wait, with the task recycled last or a new one. |
| `PoolTokens.TokenConservation` | src/shared/worker_thread_pool.c:13-46 | Over every run, the tokens stored and those taken by workers are together one for each accepted call that has posted and one for each post of the shutdown. |
| `PoolTokens.ExpiryWakesAlike` | src/shared/worker_thread_pool.c:20-46 | A wait that expires has the effect of a token, apart from the token: the worker exits if its flag is cleared, and else looks at the queue again before it waits again. |
| `PoolLiveness.WorkIsBounded` | src/shared/worker_thread_pool.c:10-301 | Before a shutdown, a run without timeouts and new calls takes at most as many steps as its first state has work: tokens, queued tasks, calls that have not returned and workers not yet waiting, each weighted. |
| `PoolLiveness.DoneMeansReturned` | src/shared/worker_thread_pool.c:189-301 | When no such step is left before a shutdown, every call has returned. |
| `PoolLiveness.EveryCallReturns` | src/shared/worker_thread_pool.c:10-301 | Every run that has not come to a shutdown goes on, by at most as many such steps as its last state has work, to a state where all its calls have returned. |
| `PoolShutdown.ShutdownIsBounded` | src/shared/worker_thread_pool.c:134-152 | With all running flags cleared and no new calls, the rank of a state bounds the number of steps that can still follow. |
| `PoolShutdown.ShutdownJoinsAll` | src/shared/worker_thread_pool.c:141-152 | When only timeouts or new calls could still happen, every worker has exited: no worker is left waiting for a token, so every join returns without the five-second timeout. |
| `PoolShutdown.AtMostOneMore` | src/shared/worker_thread_pool.c:13-54 | With all flags cleared, each worker takes at most one more token and dequeues at most one more task. |
| `Strings.Str.AppendSubstr` | src/shared/string.c:135-154 | Appends the range, cut off at the end of the source; an empty range appends nothing. |
| `Strings.Str.SetSubstr` | src/shared/string.c:156-173 | The text becomes the range, also within one string, where an empty range leaves it as it was. |
| `Strings.Str.IndexNotOfAny` | src/shared/string.c:319-341 | The first character from a position on that is not among those sought, searching up to a NUL. |
| `Strings.Str.ReverseIndexNotOfAny` | src/shared/string.c:347-369 | The last character before a position that is not among those sought. |
| `Strings.Str.TrimAnyOf` | src/shared/string.c:541-544 | Trims both ends, in place or from another string. |
| `Strings.Str.TrimStartAnyOf` | src/shared/string.c:492-499 | Trims the start; nothing is left if all characters up to the end or a NUL are to be trimmed. |
| `Strings.Str.TrimEndAnyOf` | src/shared/string.c:522-529 | Trims the end. |
| `Strings.TrimmedStays` | src/shared/string.c:541-544 | Trimming leaves exactly those texts as they are that are empty, or start and end with other characters than those to be trimmed and do not start with NUL. |
| `Strings.StartTrimmed` | src/shared/string.c:492-499 | Trimming the start takes off all leading characters that are to be trimmed, and everything if a NUL follows them. |
| `Strings.EndTrimmed` | src/shared/string.c:522-529 | Trimming the end takes off all trailing characters that are to be trimmed. |
| `Strings.Str.SetLower` | src/shared/string.c:437-452 | Lower-cases ASCII letters in place or from another string and keeps all else. |
| `Strings.CompareIgnoringCase` | src/shared/string.c:418-435 | The result is 0 exactly for texts that are equal up to the case of ASCII letters. |
| `Tables.LowerCasing` | src/shared/string.c:437-452 | Lower-casing takes the k-th letter of "ABCDEFGHIJKLMNOPQRSTUVWXYZ" to the k-th of "abcdefghijklmnopqrstuvwxyz" and keeps every other character. |
| `Tables.SameNames` | src/shared/string.c:418-435 | Two names are the same up to case exactly if they have one length and hold, at each place, the same character or the same letter of the two alphabets. |
| `Splitting.Split` | src/shared/string.c:371-408 | Counts all pieces and stores as many as there is room for, whatever the room, and nothing behind them; with max_results 1 the text is still cut once. |
| `Splitting.SplitThenJoin` | src/shared/string.c:371-408 | The pieces follow each other with one delimiter between two, and joining them gives the text back. |
| `Splitting.RangesAreLeftmost` | src/shared/string.c:385-406 | No piece could have been cut earlier, there are at most max_results of them, and fewer only when nothing is left to cut; a delimiter that ends the text is never matched. |
| `Splitting.SplitIsUnique` | src/shared/string.c:371-408 | These properties determine the pieces. |
| `Splitting.WrittenAt` | src/shared/string.c:388-403 | The stored array entry by entry: starts at even, ends at odd positions, the rest as it was. |
| `Numbers.ScanDecimal` | src/shared/uri.c:292-293 | A number printed with "%d" or "%zu" scans with "%i%n" to itself and its length, and with "%zu" to itself if it fits. |
| `Scanning.SizeReads` | src/shared/http.c:281-282 | "%zu" reads white space, a sign and digits up to the first other character: their value, wrapped around if negative, the largest size if it does not fit in 64 bits. |
| `Scanning.SizeFails` | src/shared/http.c:281-287 | "%zu" reads nothing if no digit follows white space and sign. |
| `Scanning.AnyBaseReads` | src/shared/uri.c:292-293 | "%i%n" reads a decimal number, an octal one after "0", a hexadecimal one after "0x" or "0X", with sign, and counts the characters read. |
| `PercentCoding.AppendDecoded` | src/shared/uri.c:15-72 | Appends the decoded range and keeps what was there, also when the range lies in the destination. |
| `PercentCoding.AppendEncoded` | src/shared/uri.c:82-125 | Appends the encoded range and keeps what was there, also when the range lies in the destination. |
| `PercentCoding.DecodeUndoesEncode` | src/shared/uri.c:15-125 | decode(encode(s) followed by t) is s followed by decode(t). |
| `PercentCoding.EncodeIsInjective` | src/shared/uri.c:82-125 | Different byte strings have different encodings. |
| `PercentCoding.NormalisingIsIdempotent` | src/shared/uri.c:15-125 | Decoding and encoding again is idempotent. |
| `PercentCoding.EncodeConcat` | src/shared/uri.c:96-120 | Encoding works piece by piece. |
| `PercentCoding.EncodedChars` | src/shared/uri.c:96-120 | An encoded text holds only characters that stay as they are, percent signs and hexadecimal digits. |
| `Tables.EscapeDecodes` | src/shared/uri.c:29-64 | An escape decodes to its byte for each of the two digits in either case, taken from the literal digits, whatever follows. |
| `Tables.OthersDecode` | src/shared/uri.c:29-67 | Every other character stands for itself, also a percent sign without two hexadecimal digits behind it. |
| `Tables.HexDigits` | src/shared/uri.c:37-57 | The values of the characters are those of the literal digits in both cases, and no other character has one. |
| `Tables.PlainIsListed` | src/shared/uri.c:97-104 | Exactly the unreserved and reserved characters of RFC 3986, listed literally, stay as they are. |
| `Tables.CharEncodes` | src/shared/uri.c:96-120 | Every other byte becomes a percent sign and its two upper-case hexadecimal digits, the high one first. |
| `Tables.ListedStays` | src/shared/uri.c:96-120 | A text encodes to itself exactly if it holds listed characters only. |
| `UriParser.UriObject.ParseScheme` | src/shared/uri.c:189-219 | Sets the lower-cased scheme with its separator, if the text starts with one, and ends behind it. |
| `UriParser.UriObject.ScanAuthority` | src/shared/uri.c:226-241 | Ends at the first slash, question mark or number sign, with the first at sign and the last colon before it. |
| `UriParser.UriObject.SetAuthority` | src/shared/uri.c:250-303 | Sets user info, host and port of the authority; a text behind the colon that is not a port becomes part of the host again. |
| `UriParser.UriObject.ParseAuthority` | src/shared/uri.c:221-303 | The fields are those of the authority text that follows the scheme and an optional "//". |
| `UriParser.UriObject.ParsePath` | src/shared/uri.c:305-322 | A path is the decoded text from a slash to the first "?" or "#". |
| `UriParser.UriObject.ParseQuery` | src/shared/uri.c:324-342 | A query is the decoded text behind a "?" to the first "#" after its first character. |
| `UriParser.UriObject.ParseFragment` | src/shared/uri.c:344-356 | A fragment is the decoded, non-empty rest behind a "#". |
| `UriParser.UriObject.Parse` | src/shared/uri.c:170-368 | Whatever the object held, it now holds the components of the text, and the result is 0 exactly if there is one and the text was read to its end. |
| `UriParser.UriObject.AppendTo` | src/shared/uri.c:433-458 | Appends scheme, user info, host, port, and the encoded path, query and fragment. |
| `UriTiling.Tiling` | src/shared/uri.c:189-365 | On success the raw slices of the components, with the characters that introduce them, make up the text; no slice holds a character that would have ended it; the stored components are the lower-cased scheme, the authority and the decoded path, query and fragment. |
| `UriTiling.StopsOnlyAtTheEnd` | src/shared/uri.c:324-365 | The parser never stops in the middle of a text: only a "?" or "#" that ends it is left over or overrun. |
| `UriSyntax.SchemeExactly` | src/shared/uri.c:189-219 | A text has a scheme exactly if it starts with a name, a letter and then letters, "+", "-" and ".", and a colon. |
| `UriSyntax.SlicesExactly` | src/shared/uri.c:189-365 | The grammar in both directions: a text is read to its end, with the given raw slices, exactly if they make it up, hold none of the literal characters that end them, and the scheme and the slashes could not have been cut elsewhere. |
| `UriAuthority.AuthorityComesBack` | src/shared/uri.c:226-303 | User info, host and port are read back as printed exactly if they survive. |
| `UriRoundTrip.RoundTrip` | src/shared/uri.c:170-458 | Printing a URI and parsing the text succeeds and gives every component back, with the authority derived from them, exactly if the URI satisfies `Survives`. |
| `UriRoundTrip.CodedQuestionMarkIsLost` | src/shared/uri.c:305-343 | "/a%3Fb" is accepted and parses to the path "/a?b", which is printed as "/a?b" and parsed to the path "/a" and the query "b". |
| `UriSurvival.ParsedSurvives` | src/shared/uri.c:170-458 | For every accepted text of bytes the parsed URI survives exactly if: without a scheme the printed authority does not look like one; the text of a port is decimal without leading zeros; the path codes no "?" and no "#", and does not go on with a second slash unless an authority is printed; the query codes no "#" after its first character. |
| `UriSurvival.DecodedHolds` | src/shared/uri.c:29-67 | A character that is no part of escapes is in the decoded text exactly if the text holds it or codes it. |
| `UriSurvival.PortIsCanonical` | src/shared/uri.c:287-302 | A port is stored as it is printed exactly if its text is decimal without leading zeros; octal and hexadecimal texts, signs and blanks are not. |
| `UriSurvival.AuthorityOfSurvives` | src/shared/uri.c:226-303 | User info, host and port of every authority survive, unless the port is not canonical. |
| `HttpHeaders.HttpHeader.AppendValue` | src/shared/http.c:51-64 | Hands out the next value slot, recycled or new, and keeps the values before it. |
| `HttpHeaders.HttpHeader.GetValue` | src/shared/http.c:44-49 | The value at an index, and nothing past the live ones. |
| `HttpHeaders.HttpHeaders.Clear` | src/shared/http.c:92-94 | No header is left, and all slots are kept. |
| `HttpHeaders.HttpHeaders.Search` | src/shared/http.c:101-105 | Finds the first header of that name up to case. |
| `HttpHeaders.HttpHeaders.GetByName` | src/shared/http.c:100-123 | The header of that name up to case; a missing one is created at the end without values, whatever its recycled slot held. |
| `HttpHeaders.HttpHeaders.Append` | src/shared/http.c:51-64 | One value more for one header, behind those it has; all other headers as they were. |
| `HttpHeaders.AddingValues` | src/shared/http.c:100-123 | One addition under a name changes what is seen under that name only, keeps the order of arrival and of the names, and keeps names pairwise distinct up to case. |
| `HttpGrammar.AddingLines` | src/shared/http.c:290-324 | After any run of header lines names are distinct up to case and in order of arrival as first spelled, and under each name are its earlier values and then those of all lines with it, in order. |
| `HttpGrammar.HeadIsMultimap` | src/shared/http.c:201-331 | The headers of every complete head are this multimap of the lines that denote it. |
| `HttpGrammar.ScanKeepsDistinct` | src/shared/http.c:201-331 | However far a scan comes, the stored names are distinct up to case. |
| `HttpRequests.HttpRequest.ParseRequestLine` | src/shared/http.c:208-263 | The nested state machine finds the first two words and accepts just when a third part of two characters follows. |
| `HttpRequests.SplitInTwo` | src/shared/string.c:371-408 | With two results at most, the piece before the first delimiter and where the rest starts. |
| `HttpRequests.HttpRequest.CutHeaderLine` | src/shared/http.c:291-307 | The name before the first colon, and the rest trimmed at its start; no result without a colon that something follows. |
| `HttpRequests.HttpRequest.AppendPieces` | src/shared/http.c:308-323 | The value loop ends and has appended the pieces between commas, in order. |
| `HttpRequests.HttpRequest.ParseHeaderLine` | src/shared/http.c:290-324 | Stores the header of the line under its name up to case, or rejects the line. |
| `HttpRequests.HttpRequest.FindLength` | src/shared/http.c:269-288 | Absent, the number of the single value, or invalid. |
| `HttpRequests.HttpRequest.ScanBuffer` | src/shared/http.c:202-331 | Resumed at the last line end, the scan over the grown buffer arrives where a scan of the buffer from its start does. |
| `HttpRequests.HttpRequest.Receive` | src/shared/http.c:189-333 | The read loop stops, or breaks off, exactly as `HttpReceive.Received` says, and the object then holds what the scan of the buffer stores. |
| `HttpRequests.HttpRequest.Parse` | src/shared/http.c:175-353 | Whatever the request object held, the result is that of `HttpReceive.Parse` for what the reads give, and the object holds the buffer, the method, URI and headers that its scan stores, also after a malformed line or a failed read, and the body if the head is complete; names are distinct up to case, and the headers of a complete head are the multimap of its lines. |
| `HttpHead.ScanExtends` | src/shared/http.c:201-331 | More bytes do not change a finished scan; an unfinished one resumes at the start of its last line, also within a CRLF. |
| `HttpHead.PiecesStep` | src/shared/http.c:308-323 | Splitting off one piece at a time gives the same pieces as splitting at once. |
| `HttpGrammar.RequestLineExactly` | src/shared/http.c:208-263 | A request line is read exactly from texts of two words, parted and followed by spaces, and a third part of two characters or more. |
| `HttpGrammar.GrammarScans` | src/shared/http.c:201-331 | Every text of request line, header lines and empty line scans to what its lines mean, whatever follows. |
| `HttpGrammar.CompletesExactlyOnHeads` | src/shared/http.c:201-331 | A scan completes with a head exactly if the text starts with CRLF-free lines, each ended by CRLF, and an empty line that denote this head. |
| `HttpGrammar.DenotedLength` | src/shared/http.c:264-289 | The body size of a head is the one its lines tell: 0 if they have no Content-Length value, and otherwise the number that their only one reads as. |
| `HttpGrammar.CompletesIfSizeIsTold` | src/shared/http.c:264-289 | A request line and header lines that parse complete a head exactly if the lines tell a size; two Content-Length values, in one line or in two, or one that is no number are malformed. |
| `HttpReceive.HeadIsIndependentOfReads` | src/shared/http.c:191-331 | For all ways to cut the same bytes into reads, if the head ends within 65536 bytes or no more are sent, the head is rejected or is that of the whole text scanned at once. |
| `HttpReceive.AcceptedIsWellFormed` | src/shared/http.c:264-350 | What is accepted is a start of the bytes read: a request line, header lines, an empty line and a body whose size is told by the lines: by the one Content-Length value among them, or 0 if there is none. |
| `HttpReceive.AcceptedExactly` | src/shared/http.c:189-350 | For every request and every way to cut it into reads: it is accepted exactly if its head ends within 65536 bytes or within the read that passes them, and the first read to end at or past its last two bytes, and past its head, ends where the request does; the body is then what follows the empty line. A Content-Length so large that the limit wraps around is included. |
| `HttpReceive.AcceptedIsFinal` | src/shared/http.c:191-200 | Once the reads make a request, nothing that follows them changes it: no bytes, no end and no failure. |
| `HttpReceive.NothingAfterEnd` | src/shared/http.c:197-199 | An end of the stream is like no more reads, whatever follows. |
| `HttpReceive.FailureBreaksOff` | src/shared/http.c:191-196 | A failed read breaks the reception off just if the limit has not been reached before it. |
| `HttpReceive.LimitOfHead` | src/shared/http.c:187-191 | Until the head ends, reading goes on for just the first 65536 bytes. |
| `HttpReceive.LastByteAlone` | src/shared/http.c:264-283 | Every request with a body that is accepted as one read is rejected when its last byte comes in a read of its own. |
| `HttpRoundTrip.ShortRequestNeedsOneRead` | src/shared/http.c:264-283 | A request with the body "x" is accepted in one read and rejected when that byte comes in a second one. |
| `HttpHeaderText.SplittingUndoesJoining` | src/shared/http.c:308-323 | Splitting at commas gives joined values back exactly if they are separable. |
| `HttpHeaderText.PiecesRejoin` | src/shared/http.c:306-323 | The values of a header line joined by commas are its text trimmed at the start. |
| `HttpHeaderText.LineIsHeader` | src/shared/http.c:290-324 | Every line with a colon before its last character is a header: the name before the first colon, and the separable values that give the text behind the blanks when joined by commas; one empty value if a NUL follows the blanks. |
| `HttpHeaderText.LineIsNoHeader` | src/shared/http.c:294-298 | A line without a colon, or with its first one at its end, is no header. |
| `HttpHeaderText.CStrIs` | src/shared/http.c:567-591 | "%s" prints the text up to its first NUL. |
| `HttpHeaderText.HeaderComesBack` | src/shared/http.c:567-591 | A written header line is read back as the same header exactly if the header is writable. |
| `HttpHeaderText.CommaPartsValue` | src/shared/http.c:567-591 | The value "b,c" is written as "A: b,c" and read back as the values "b" and "c". |
| `HttpRoundTrip.LinesComeBack` | src/shared/http.c:567-591 | Written header lines are read back as the same list of headers exactly if all are writable and their names differ up to case. |
| `HttpRoundTrip.BlockComesBack` | src/shared/http.c:567-603 | A written header block scans to the same headers exactly if they are also free of CRLF; what follows its empty line is then the body. |
| `HttpRoundTrip.LengthIsSettled` | src/shared/http.c:526-551 | The writer's headers have one Content-Length value that reads as the size of the body, all other headers as before and names distinct; settling again changes nothing. |
| `HttpRoundTrip.LengthStaysWritable` | src/shared/http.c:526-551 | Settling the Content-Length keeps headers writable. |
| `HttpRoundTrip.ResponseScans` | src/shared/http.c:525-607 | The text of a response with writable headers scans to its status line, its headers and a Content-Length equal to the number of bytes behind the empty line, which are its body. |
| `HttpRoundTrip.StatusComesBack` | src/shared/http.c:560-562 | The first line of a written response is "HTTP/1.1", a word that "%i" reads, to its end, as the status, and the reason phrase up to a NUL, with a space between two; with writable headers the scan finds the first two as its words. |
| `HttpRoundTrip.ResponseComesBack` | src/shared/http.c:525-607 | For every way to cut such a response into reads, the request parser finds the writer's head if that ends within 65536 bytes, and accepts the response, with its body, exactly if the head is read and the first read to end at or past its last two bytes, and past its head, ends where the response does. |
| `HttpResponses.HttpResponse.SettleLength` | src/shared/http.c:526-551 | The header store after the writer's first part. |
| `HttpResponses.HttpResponse.WriteHeader` | src/shared/http.c:568-590 | One header line with its CRLF, or a part of it from its start if a write fails. |
| `HttpResponses.HttpResponse.Write` | src/shared/http.c:525-607 | The result is 0 just if all of the response has been written; otherwise a write failed and what precedes it has. |
| `Streams.BufferStream.SetPosition` | src/shared/stream.c:60-69 | Seeks to the position or to the last byte, which is as far as it goes. |
| `Streams.BufferStream.Read` | src/shared/stream.c:75-83 | Reads the lesser of the number wanted and what is left, at the position. |
| `Streams.BufferStream.Write` | src/shared/stream.c:85-94 | Overwrites at the position and grows the buffer as needed. |
| `Streams.BufferStream.WriteThenRead` | src/shared/stream.c:60-94 | Written bytes come back after a seek to where they were written, and no other byte changes. |
| `Streams.SeekArrives` | src/shared/stream.c:60-69 | A seek arrives where it was meant to exactly if a byte is there or an empty buffer's start is meant; otherwise it goes to the furthest position before it that has a byte. |
| `Streams.BufferedReader.SetPosition` | src/shared/stream.c:107-114 | Seeks within the cache. |
| `Streams.BufferedReader.Read` | src/shared/stream.c:120-140 | The cache stays what the input has given, and the bytes read are those of the specification. |
| `Streams.ReaderRefinesFile` | src/shared/stream.c:107-140 | Over any run of reads and seeks, on an input that gives what it is asked for, the reader gives what a file gives whose seeks stop at the furthest byte read so far. |
| `Streams.NothingIsReadAhead` | src/shared/stream.c:107-140 | Over any run and however much the input gives at a time, the cache is a start of the input that holds the position and is as long as the furthest position reached. |
| `Streams.ReadsAreTrue` | src/shared/stream.c:120-140 | A read gives the input's bytes at the position, and none only at the end of the input. |
| `Streams.ReadBuffer` | src/shared/stream.c:229-237 | What was read goes behind what the buffer holds; a failed read changes nothing. |
| `Streams.ReadAll` | src/shared/stream.c:239-259 | However much the input gives at a time, the loop ends with all of it appended, or as much as the limit allows; after a failed read, what came before it. |
| `Base64.EncodeInto` | src/shared/base64.c:378-419 | Fails just if there is no room, writing nothing; otherwise writes exactly four characters for each three bytes begun and a NUL, and nothing behind it. |
| `Base64.DecodeInto` | src/shared/base64.c:421-479 | Succeeds just if the text decodes and there is room; writes three bytes a block and, also on failure, nothing behind them. |
| `Base64.SameNumber` | src/shared/base64.c:404-414 | The four six-bit values are the digits to base 64 of the number that the three bytes are to base 256, highest first. |
| `Base64.TablesInvert` | src/shared/base64.c:8-376 | The two tables invert each other. |
| `Base64.DecodesExactly` | src/shared/base64.c:421-477 | A text decodes exactly if its length is a multiple of four and "=" occurs only as its last one or two characters, among characters of the alphabet. |
| `Tables.Base64Alphabet` | src/shared/base64.c:8-78 | The encoding table is the literal alphabet of RFC 4648, in its order. |
| `Base64.PaddingTells` | src/shared/base64.c:378-419 | An encoding ends with one "=" for each byte that its last block lacks, and holds no other. |
| `Base64.DecodeUndoesEncode` | src/shared/base64.c:378-479 | Decoding encoded bytes gives them back, with zeros up to a multiple of three. |
| `Base64.EncodeUndoesDecode` | src/shared/base64.c:378-479 | Encoding what a text decodes to gives the text back, with "A" for each padding. |

## Left out

- `TaskPool.Pool.Store`: the check of the result pointer and the write through it (lines 62-64) are one step, here and in the protocol, although the code does not lock them.
- `HttpRoundTrip.ResponseComesBack`: the table of reason phrases is not modelled; the phrase is a parameter of which `PlainReason` tells what is used, and every phrase of the table has it.
- `HttpResponses.HttpResponse.Write`: a write that takes fewer bytes than it was given counts as complete, as in the code, so such outputs are not modelled.
- `Streams.BufferedReader.Read`: the input is free of errors, since on the error path the result is unsigned and never tests negative.
- `Streams.ReadAll`: the total is unbounded, so an `int` result that overflows is not modelled.
- `Splitting.Split`: an empty delimiter, which the code would match everywhere.
- `UriParser.UriObject.Parse`: reading the character behind the end of the input gives the NUL of a terminated text, so a length that stops short of the terminator is not modelled.
- `Base64.DecodeInto`: characters outside ASCII, for which the decoding table is indexed with a negative number where `char` is signed; here they are illegal.
- Sockets, select and accept, file descriptors and address formatting, `main` and signals: foreign calls and output.
- Logging. One log call is not harmless: src/shared/http.c:136, reached from src/shared/http.c:343 on every complete head and from src/shared/http.c:556 on every write, passes header values as a printf format. A value with a conversion such as "%s" or "%n" is undefined behaviour there, before the result is returned; what the model says of such headers holds of the code without that line.
- The task data of the HTTP server (src/shared/http.c:609-744): on a timeout the accepting thread and the worker both finalize it, so it has no single owner.
- Worker pool: failures of `sem_timedwait` on a task other than a timeout (lines 282-286), interrupted waits, failures of `sem_init` and of thread creation, a null callback, and the freeing of the lists at the end of the shutdown. The shutdown theorems assume that no new call is made; all others allow one at any time.
- Worker pool: the difference between an error and a full queue, which have the same code; `semaphore_error`, read uninitialised at line 25, which only affects a log message.
- Strings: appending a string to itself, capacities and reallocation, sizes that wrap around (except in "%zu" and in the reading limit of a request), locales and non-ASCII letters, and `memcpy` of overlapping ranges, which is taken to copy forward.
- Numbers: only "%d", "%i", "%zu" and "%s" as they are used; "%i" on numbers that overflow; "0x" without a digit behind it, where C libraries differ, is not a number here.
- The getters of the URI, the writing side of a buffered reader, which always fails, and file descriptor streams.
- `buffer.c` on its own, allocation failures, and initialisation and deallocation of the objects.
