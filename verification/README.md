# Verification of the networking course programs

These Dafny modules model four programs of the repository and prove what their code promises:

* the HTTP request library `lab3/proxy_parse.c`: a parser that cuts its own buffer with `strtok_r`, a printer,
  and a growable header table with tombstones;
* the part of `lab3/proxy.c` that uses it: collecting a request from reads of any size, rewriting its headers,
  and the scan for a free connection slot;
* the chat server `Lab2/server/server.c`: an acceptor, and a receive and a send thread per connection, as
  interleaved steps over shared buffers, flags and mutexes; with it the file download shared with
  `Lab2/client/client.c`;
* the ping-pong controller `inclass1/temp.c`, driven by an unbounded sequence of timer and button readings.

`dafny verify dfyconfig.toml` checks everything.

## Map

| module | what it holds |
|---|---|
| `CStrings` | `strlen`, `strstr`, `strtok_r`, `memcpy` on text that a NUL ends; `StrtokR` writes NULs into an array |
| `Heaps` | `malloc`, `realloc`, `free` as a set of live blocks; `Free` demands a live block |
| `OrderedHeaders`, `HeaderTables` | the ordered map a header table stands for, and the table itself: slots, tombstones, doubling, printing |
| `RequestLines`, `RequestScan` | the request line as slices of the untouched line, and the destructive scan that computes them |
| `RequestGrammar` | the accepted lines as a grammar, without tokens and cuts |
| `HeaderLines` | the header loop, its cursor, and what decides its return value |
| `HeaderChains` | keys that run over line ends: what the loop sets for them, and why they survive printing and reading |
| `Messages` | parsing and printing of whole requests as functions, and the laws that connect them |
| `ParsedRequests`, `Lifetimes` | the request object with its heap blocks, and its whole life from create to destroy |
| `PrintLengths`, `Normalisation` | how long a printed request is, when it parses again, and the parse-measure-print example of the library's header file |
| `Proxy`, `Acceptors` | reassembly, header rewriting, and the accept loop of both servers |
| `Chat`, `ChatSafety`, `ChatThreads` | the chat server as a state machine; slots and mutexes; which threads there are |
| `ChatTrace`, `ChatDelivery`, `ChatUndisturbed` | what can be broadcast; whom a round reaches; the whole way of a message, a connection and a departure that nothing disturbs |
| `Download` | the send loop of the server and the receive loop of the client |
| `PingPong` | the controller and its state machine |

A class or method is proved against a function (`Messages.Parse`, `HeaderLines.Loop`, `OrderedHeaders.Put`,
`PingPong.Run`, ...), and the laws are lemmas about those functions. A pointer into a buffer is an index; a
search that would return NULL returns the end of the text.

## Assumptions

* Allocation succeeds. Blocks have no contents of their own; the strings they hold are fields.
* A buffer handed to the parser may hold NULs: the text is what comes before the first one, as for the C functions.
* Inputs on which the parser would read outside its buffers have no meaning. They are an outcome of the
  specification (`Overrun`, `Wild`, `OutOfBounds`), and `Messages.InBounds` excludes them: an address with no
  byte after it, so that the version pointer leaves the buffer (lab3/proxy_parse.c:419), and a colon, first behind the
  start of the last header line, that ends the text or has no CRLF behind the byte after it
  (lab3/proxy_parse.c:244-247). For input without NUL these are exactly the reads outside; in a buffer with a NUL the
  value search can step over it and find a CRLF that is still inside, which is excluded all the same.
* Printing excludes one case: a header block whose length, wrapped in the `int` it is summed in, passes for short
  enough, so that the code writes behind the buffer (`ParsedRequest.PrintFits`). It cannot happen below 2^31 bytes,
  and no parsed request gets there (`PrintLengths.HeadersFit`).
* The request that `Proxy.Reassemble` collects stays below 1024 bytes, since `strcat` does not check.
* A chat message is at most 1023 bytes and starts neither with `uTake ` nor with `iWant `; a client that leaves does
  so by an empty read.

## Where the code differs from its documentation

* Header names are compared case-sensitively, and of several lines with one name only the last survives, at the place
  of the last.
* The headers are kept in an array that doubles, not in the linked list lab3/proxy_parse.h describes.
* `strtok_r` takes "://" as a set of two delimiters, so leading colons and slashes before the protocol are skipped.
  The test for a missing path measures from a protocol length plus three bytes behind the start of the address, even
  when the authority does not start there (lab3/proxy_parse.c:447-459). For an address of the documented form it is
  right (`RequestLines.DocumentedFormIsTested`); `RequestLines.PathTestIsRight` has the exact condition,
  `MissingPathAccepted` and `PathRejected` a line for each way it fails.
* The search for a colon is not bounded by its line (lab3/proxy_parse.c:234). A header line without colon is no error
  as long as a colon follows anywhere behind the last header line's start, the body included: the key then runs over
  the line end, and the loop comes back to each line inside it (`HeaderLines.ColonFurtherDown`).
* A colon that ends its line has its CR skipped for the blank (lab3/proxy_parse.c:244). The value then starts at the LF
  and takes in the next line, which is a header of its own as well (`HeaderLines.ValueFurtherDown`).
* Both make a request print longer than it was read: `Normalisation.LongKeyGrows` and `LongValueGrows` have a request of
  each kind, `PrintLengths.PrintLengthIs` the exact length for all. A request line adds at most three bytes; header lines
  add nothing if and only if all are well-formed, and setting a key again takes its earlier line away.
* A -1 does not mean that the object is as before. When the request line is refused it is; when instead no colon follows
  from the last header line on, the object stays assigned to the request, with the headers before, and every later
  parse is refused (`Messages.ParseOutcome`, `Lifetimes.FailedParse`, `Lifetimes.RetryIsTransparent`).
* The client of the download cannot tell the end of a file whose length is a multiple of the chunk size
  (`Download.CopyIsRight` gives the exact condition).

## Model

| member | source | states |
|---|---|---|
| CStrings.StrtokR | lab3/proxy_parse.c:392 | on a buffer cut at known places, the token returned is the one that lies in the original line, the saved pointer stands behind it, and the only byte changed is the delimiter that ends it |
| CStrings.StrOfCut | lab3/proxy_parse.c:447-448 | a pointer into the cut buffer denotes exactly the range of the original line up to the next cut |
| CStrings.TokenIs | lab3/proxy_parse.c:438-450 | a delimiter-free range between delimiters is the token that will be found |
| OrderedHeaders.TableIsSurvivors | lab3/proxy_parse.c:41-103 | after any history of sets and removes the map holds exactly the sets that no later operation on the same key undid or repeated, in the order they were made |
| OrderedHeaders.LookupIsLastValue | lab3/proxy_parse.c:74-89 | looking up a key after any history gives the value last set and not since removed |
| OrderedHeaders.TableIsDistinct | lab3/proxy_parse.c:41-103 | after any history no key occurs twice |
| OrderedHeaders.PutDistinct | lab3/proxy_parse.c:41-70 | a set keeps keys distinct and changes the answer for its own key only |
| OrderedHeaders.PutAllIsSurvivors | lab3/proxy_parse.c:41-70 | sets made one after the other in an empty table leave those whose key is not set again, in order |
| HeaderTables.HeaderTable.constructor | lab3/proxy_parse.c:133-139 | a new table is empty, valid and owns one new block |
| HeaderTables.HeaderTable.Set | lab3/proxy_parse.c:41-70 | the live headers become those of the map after the set (the key moves to the end), one more slot is used, the growth bounds hold again (in the invariant: room for one more, length 8 times a power of two and at most twice the sets, fewer than two slots moved per set), and every other heap block stays as it was |
| HeaderTables.HeaderTable.Get | lab3/proxy_parse.c:74-89 | finds a live slot with the key whose value is the map's value, or none exactly when the map has none |
| HeaderTables.HeaderTable.Remove | lab3/proxy_parse.c:92-103 | clearing the first match removes the key from the map, -1 exactly when it was absent, and frees exactly the key and value of that slot |
| HeaderTables.HeaderTable.Double | lab3/proxy_parse.c:47-54 | the array doubles, keeps its slots, and the moved slots are accounted for |
| HeaderTables.HeaderTable.ParseHeader | lab3/proxy_parse.c:227-254 | sets the header found at the cursor or returns -1 leaving the table, and frees its two temporary blocks |
| HeaderTables.HeaderTable.ParseHeaders | lab3/proxy_parse.c:517-535 | the loop computes the function HeaderLines.Loop on the table's contents, and its cursor takes exactly the values HeaderLines.Visits |
| HeaderTables.HeaderTable.HeadersLen | lab3/proxy_parse.c:151-165 | the sum over the slots is the length of the printed block, reduced to an int and converted to size_t |
| HeaderTables.HeaderTable.PrintHeaders | lab3/proxy_parse.c:167-196 | succeeds exactly when what the headers are measured at fits, and then appends exactly the lines of the live headers and the blank line, tombstones printing nothing; otherwise writes nothing |
| HeaderTables.HeaderTable.Destroy | lab3/proxy_parse.c:212-224 | frees every block the table owns once, tombstones included, and no other |
| HeaderTables.HeaderTable.DestroyOne | lab3/proxy_parse.c:199-210 | frees the key and the value of a live slot and nothing for a tombstone |
| HeaderTables.ClearSlot | lab3/proxy_parse.c:92-103 | in slots with distinct live keys, clearing one slot is the removal of its key from the map |
| HeaderTables.OwnClear | lab3/proxy_parse.c:99-101 | the two blocks of a live slot belong to no other slot, so freeing them leaves the rest owned |
| RequestLines.CutsOf | lab3/proxy_parse.c:392-491 | the seven tokens follow one another, protocol, host, port and path inside the address |
| RequestLines.SplitIsProper | lab3/proxy_parse.c:391-501 | the fields of an accepted line: method GET, protocol and host nonempty without colon, slash or space, port absent or nonempty without slash or space, path with exactly one leading slash and no space, version starting with HTTP/ |
| RequestGrammar.AcceptedIs | lab3/proxy_parse.c:391-501 | the accepted lines are exactly those of a grammar of spaces, "GET", skipped delimiters, protocol, gap, host, port, path and version, less those whose path passes for missing; and each is read as its pieces |
| RequestGrammar.GrammarIsRead | lab3/proxy_parse.c:391-501 | every line of the grammar is rejected when its path passes for missing and accepted with its pieces otherwise |
| RequestGrammar.OverrunIs | lab3/proxy_parse.c:409-419 | the version pointer leaves the buffer if and only if the line is spaces, "GET", spaces and one word |
| RequestGrammar.PathlessLineSplits | lab3/proxy_parse.c:459-465 | every line as printed but without a path is rejected |
| RequestGrammar.PrintedLineSplits | lab3/proxy_parse.c:561-603 | every line printed from proper fields is accepted with exactly those fields |
| RequestLines.PointersDenoteSlices | lab3/proxy_parse.c:391-501 | after all seven cuts every saved pointer still denotes its slice of the original line |
| RequestLines.RestIsMeasured | lab3/proxy_parse.c:447-448 | strlen of the rest, taken when only the protocol is cut, is the length the pure decision uses |
| RequestLines.PathTestIs | lab3/proxy_parse.c:447-465 | what the test for a missing path comes to: as many bytes follow the authority as it starts before its expected place, or, behind three or more skipped delimiters, a comparison with those |
| RequestLines.PathTestIsRight | lab3/proxy_parse.c:447-465 | the test finds out whether the path is missing if and only if the authority starts where expected or has a path behind it that is not mistaken for the shift |
| RequestLines.DocumentedFormIsTested | lab3/proxy_parse.c:447-465 | behind a protocol followed by "://" and a byte that is no slash, the test fires exactly when no slash follows |
| RequestLines.MissingPathAccepted | lab3/proxy_parse.c:438-465 | a line without path that is accepted, with path "/" |
| RequestLines.PathRejected | lab3/proxy_parse.c:438-465 | a line with path that is rejected |
| RequestScan.ScanLine | lab3/proxy_parse.c:391-435 | method, address and version pointers, and rejection exactly where the pure decision rejects |
| RequestScan.ScanVerb | lab3/proxy_parse.c:392-407 | the method token, accepted exactly when it is GET |
| RequestScan.ScanTarget | lab3/proxy_parse.c:409-435 | the address token and the version behind it, accepted exactly when that starts with HTTP/ |
| RequestScan.ScanAddress | lab3/proxy_parse.c:438-488 | protocol, host with port, and path, with the same rejections as the pure decision |
| RequestScan.ScanAuthority | lab3/proxy_parse.c:490-501 | host and port, rejected exactly when the host is missing |
| HeaderLines.CursorStaysOnLines | lab3/proxy_parse.c:519-535 | the cursor visits only line starts, strictly advances, never passes the first blank line and never meets the NULL branch; it stops before the blank line only at a line that is not a header |
| HeaderLines.LastLineDecides | lab3/proxy_parse.c:227-254 | the loop fails if and only if no colon follows from the last header line on, and leaves its buffer if and only if the value behind that colon has no end |
| HeaderLines.ColonFurtherDown | lab3/proxy_parse.c:234 | a header line without colon that succeeds, because a later line has one |
| HeaderLines.ValueFurtherDown | lab3/proxy_parse.c:244 | a line that ends behind its colon, whose value is the next line |
| HeaderLines.LoopShift | lab3/proxy_parse.c:519-535 | the loop depends only on the text behind its cursor |
| HeaderLines.LoopIsSets | lab3/proxy_parse.c:517-535 | whatever the lines look like, the loop does to the table what its sets do one after the other |
| HeaderLines.HeaderInLine | lab3/proxy_parse.c:227-254 | in a well-formed line the unbounded searches for colon and CRLF find what bounded ones would |
| HeaderLines.LoopFoldsLines | lab3/proxy_parse.c:517-535 | when all lines are well-formed the loop stops at the first blank line with the fold of set over the lines before it, whatever bytes follow |
| HeaderChains.SetsAreLinked | lab3/proxy_parse.c:517-535 | after a key that runs over a line end the loop sets the rest of the key with the same value, or ends at the blank line inside it |
| HeaderChains.SurvivorsArePrintable | lab3/proxy_parse.c:517-535 | so in the table the rest of such a key stands behind it, and directly behind it when reading it would end the loop |
| HeaderChains.RereadLeavesAll | lab3/proxy_parse.c:517-535 | the sets made when such a table is printed and read again leave exactly that table |
| Messages.ParseOutcome | lab3/proxy_parse.c:351-538 | for every input and table: refused before the headers, out of bounds, or failed with the object assigned, each if and only if a condition on the text holds |
| Messages.ParsedIsPrintable | lab3/proxy_parse.c:351-538 | every field and header that any parse stores has the form the printer needs |
| Messages.WellFormedIsFold | lab3/proxy_parse.c:517-535 | with well-formed header lines a parse succeeds with the fold of set over them |
| Messages.PrintedParses | lab3/proxy_parse.c:299-311 | reading a printed request gives back its fields and headers, unless it is longer than 65535 bytes and then it is refused |
| Messages.PrintedIsWellFormed | lab3/proxy_parse.c:167-196 | headers whose keys stay within a line print to well-formed header lines |
| Messages.RoundTrip | lab3/proxy_parse.c:299-538 | for every input that a parse stores, whatever its header lines look like and even when it fails on them, parsing what is printed gives the same fields and headers if the print is at most 65535 bytes, and is refused otherwise |
| Messages.LoopReadsHeaderText | lab3/proxy_parse.c:517-535 | the loop over a printed header block makes exactly the sets of its headers, with those of keys that run over line ends |
| Messages.LoopReadsLine | lab3/proxy_parse.c:517-535 | one printed header makes its sets and moves the cursor behind it, or ends the loop at a blank line inside its key |
| Messages.ReadLine | lab3/proxy_parse.c:227-254 | one printed header line is read back as its header |
| Messages.ParseBehindLine | lab3/proxy_parse.c:351-538 | behind any acceptable request line, what the loop makes of the rest is what the parse returns and stores |
| Messages.PathlessIsRefused | lab3/proxy_parse.c:459-465 | a request whose address has no path is refused, whatever follows its first line |
| Messages.RefusedEarly | lab3/proxy_parse.c:365-380 | an input shorter than 4 bytes, longer than 65535, or without a blank line is refused |
| PrintLengths.LineGrows | lab3/proxy_parse.c:438-488 | printing an accepted request line adds at most three bytes: two slashes behind the protocol and the path "/" |
| PrintLengths.GainIs | lab3/proxy_parse.c:227-254 | a header prints at least as long as the line it was found in, and equally long if and only if the line is well-formed |
| PrintLengths.SetsText | lab3/proxy_parse.c:517-535 | the headers a successful loop sets print to the length of the header lines plus what these gain, which is nothing if and only if all are well-formed |
| PrintLengths.OverwrittenIs | lab3/proxy_parse.c:41-70 | what stays in the table prints shorter than all sets by exactly the headers set again, and equally long if and only if no key is set twice |
| PrintLengths.PrintLengthIs | lab3/proxy_parse.c:299-335 | for every input that parses, the exact length of its print: request line, header lines, gain and loss; an upper bound when it fails in its headers |
| PrintLengths.HeadersFit | lab3/proxy_parse.c:151-165 | the printed headers of every parsed request are shorter than 0x60000000 bytes, so the int they are summed in is exact |
| Normalisation.PrintIsBounded | lab3/proxy_parse.c:329-335 | every request that a parse stores prints to at most three bytes more than it was read from, beside the growth of its header lines |
| Normalisation.GrowthIs | lab3/proxy_parse.c:227-254 | well-formed header lines never grow, and when no key is set twice they are the only ones that do not |
| Normalisation.RoundTripIs | lab3/proxy_parse.c:299-538 | for every input that parses, printing and parsing gives the same object if and only if a length computed from its text is at most 65535 |
| Normalisation.LongKeyGrows | lab3/proxy_parse.c:234 | for every acceptable request line, a request with a key over a line end that prints six bytes longer than it is |
| Normalisation.LongValueGrows | lab3/proxy_parse.c:244 | the same with a value that starts at a line end, nine bytes longer |
| Normalisation.ShortRoundTrip | lab3/proxy_parse.c:299-538 | every request that a parse stores survives printing and parsing if its length, three and its growth are at most 65535 together |
| Normalisation.Reprint | lab3/proxy_parse.h:107-134 | parse; give up exactly when the request line is refused or no colon follows from the last header line on; otherwise predict the length, print into a buffer of that length, destroy: the buffer holds exactly the printed request and the heap is as before |
| ParsedRequests.ParsedRequest.constructor | lab3/proxy_parse.c:276-293 | a new object is unassigned with no headers |
| ParsedRequests.ParsedRequest.Parse | lab3/proxy_parse.c:351-538 | refuses an assigned object; otherwise returns and stores what Messages.Parse says; its temporary block is freed on every path and no other block of anybody is touched |
| ParsedRequests.ParsedRequest.ParseLine | lab3/proxy_parse.c:391-514 | the destructive scan accepts exactly when the pure split does and the pointers then denote its fields; a rejection leaves buf and path NULL and frees what was allocated |
| ParsedRequests.ParsedRequest.RequestLineLen | lab3/proxy_parse.c:544-559 | is the length of the printed request line |
| ParsedRequests.ParsedRequest.TotalLen | lab3/proxy_parse.c:329-335 | is the length of the printed request line plus what the header block is measured at; below 2^31 bytes of headers, the length of the printed request |
| ParsedRequests.ParsedRequest.PrintRequestLine | lab3/proxy_parse.c:561-603 | writes exactly the predicted bytes, sets tmp to their number, or writes nothing and returns -1 exactly when they do not fit |
| ParsedRequests.ParsedRequest.Unparse | lab3/proxy_parse.c:299-311 | succeeds exactly when the request line and what the headers are measured at fit, and then writes exactly the request and nothing behind it; a failure writes at most the request line |
| ParsedRequests.ParsedRequest.UnparseHeaders | lab3/proxy_parse.c:317-326 | the same for the header block alone |
| ParsedRequests.ParsedRequest.SetHeader | lab3/proxy_parse.c:41-70 | changes the headers of the object's value to the map after the set, and nothing else |
| ParsedRequests.ParsedRequest.RemoveHeader | lab3/proxy_parse.c:92-103 | changes the headers of the object's value to the map after the removal, and nothing else |
| ParsedRequests.ParsedRequest.Destroy | lab3/proxy_parse.c:260-274 | frees every block the object owns, and no other |
| Lifetimes.Lifetime | lab3/proxy_parse.c:260-293 | create, any sequence of parse, set and remove, then destroy: every block is freed exactly once, the heap ends as it began, and the object holds what the run of the specification says |
| Lifetimes.LifeOfHeaders | lab3/proxy_parse.c:41-103 | after any sequence of parse, set and remove on a new object its headers are the sets no later operation on the key undid or repeated, in order and with distinct keys, and a lookup gives the last value set and not since removed |
| Lifetimes.FailedParse | lab3/proxy_parse.c:360-538 | a parse on a new object returns -1 if and only if it is refused before its headers or no colon follows from the last header line on, and the object is still new if and only if the first is the case |
| Lifetimes.RetryIsTransparent | lab3/proxy_parse.c:360-514 | after any number of parse attempts an object equals a new one if and only if every one had a length out of range, no blank line, or a rejected request line |
| Lifetimes.BadHeaderIsNotRefused | lab3/proxy_parse.c:525-528 | an instance for every acceptable request line: with a line "x" behind it the parse returns -1 and the object is assigned |
| Proxy.Reassemble | lab3/proxy.c:80-92 | the loop computes Proxy.Collect |
| Proxy.CollectIs | lab3/proxy.c:80-92 | for all reads: the outcome is a request if and only if some first reads end with the blank line, no fewer do and none of them is empty, and the request is then all they delivered; it is a lost connection if and only if a read delivers nothing before that |
| Proxy.JoinedStopsAtNul | lab3/proxy.c:87 | a read adds what it delivers up to its first NUL |
| Proxy.ChunkingIndependence | lab3/proxy.c:80-92 | every way to split a request over nonempty reads ends with exactly the request after the last read, if and only if the request has no blank line before its end |
| Proxy.EarlyStop | lab3/proxy.c:80-92 | a request with an earlier blank line is cut short when a read ends there |
| Proxy.RewriteHeaders | lab3/proxy.c:107-110 | the block lists the live headers in order without Connection and Accept-Encoding, then one Connection header with value "close\n", then the blank line, and is written without failing into a buffer of the measured size |
| Proxy.HandleRequest | lab3/proxy.c:96-110 | for every collected request: it goes back to collecting, with nothing set or written, exactly when the request line is refused or no colon follows from the last header line on; otherwise it never fails, fills its buffer exactly with the rewritten block, and the object holds the original request line with the rewritten headers |
| Proxy.EditHeaders | lab3/proxy.c:107-108 | the table after the set and the removal |
| Proxy.RewriteMeans | lab3/proxy.c:107-108 | in the rewritten table Connection has the value "close\n", Accept-Encoding has none, every other key has the value it had, and keys are distinct |
| Proxy.ForwardedAt | lab3/proxy.c:107-108 | each header stays in its place if and only if its key is neither of the two |
| Proxy.PrintHead | lab3/proxy.c:109-110 | the buffer has the size the length function gives, and the block is written at its start without failing |
| Acceptors.Scan | Lab2/server/server.c:395-410 | the circular scan takes at most one turn, ends at the first free slot from the starting index on, and ends at an occupied slot only if all are occupied |
| Acceptors.AdvanceKeeps | Lab2/server/server.c:394-426 | one step of the accept loop keeps the chosen slot free and the scan exact, marks just the chosen slot, and gives the connection up exactly when all slots are occupied |
| Acceptors.ProxyMarksFreeSlots | lab3/proxy.c:268-295 | in every run, with slots freed at any moment without the lock, the slot about to be marked is free |
| ChatSafety.StepKeepsInv | Lab2/server/server.c:65-310 | every step of every thread keeps: each mutex, locked and unlocked only by the statements that do so, is owned by the one thread that stands where it is held, completed lock and unlock calls balance, slots are used by one receive thread, the scan is exact |
| ChatSafety.OwnersStandInside | Lab2/server/server.c:262-307 | in every run a mutex is owned exactly by the thread that stands between its lock and its unlock statement |
| ChatSafety.OnlyOwnersUnlock | Lab2/server/server.c:262-307 | in every run a thread that comes to an unlock statement, or to a condition wait, owns the mutex it gives back |
| ChatSafety.SlotsAreSafe | Lab2/server/server.c:268-426 | in every run no two receive threads share a slot between creation and the clearing of freeclients, and the acceptor never marks an occupied slot |
| ChatSafety.DropsOnlyWhenFull | Lab2/server/server.c:395-409 | in every run a connection is dropped exactly when all slots are occupied |
| ChatSafety.LockOrder | Lab2/server/server.c:262-307 | in every run the owner of client_lock requests no mutex, and the owner of a buf_lock requests no buf_lock |
| ChatSafety.NoCircularWait | Lab2/server/server.c:283-307 | in every run a chain of threads, each waiting for a mutex of the next, has at most three members and is no circle |
| ChatSafety.OneReleasePerRound | Lab2/server/server.c:65-76 | in every run a receive thread at the head of its loop, or behind it, has completed exactly one unlock of buf_lock for every round it began |
| ChatThreads.OccupiedIsServed | Lab2/server/server.c:268-272 | in every run a slot is occupied if and only if a receive thread serves it or is about to be created for it |
| ChatThreads.ThreadsArePaired | Lab2/server/server.c:422-432 | in every run each receive thread, but one just created, has one send thread on the same slot |
| ChatThreads.ScanResumes | Lab2/server/server.c:395-404 | in every run the next scan starts at the slot chosen last |
| ChatThreads.OnlyTheWordStops | Lab2/server/server.c:253-256 | in every run the server goes on if and only if no client has sent ";;;" |
| ChatTrace.BroadcastsAreImages | Lab2/server/server.c:251-307 | in every interleaving the nonempty broadcasts from a slot are, in order and each at most once, uppercase images of messages read on it, and each round sends the same whole image to every client it reaches, once |
| ChatTrace.ClientsHearImages | Lab2/server/server.c:295-303 | in every interleaving what a client receives from a slot is an in-order selection of the images of its messages |
| ChatTrace.ReachableTraces | Lab2/server/server.c:67-307 | in every run the buffer, the flag and the histories of each slot stand to each other as the position of the thread that holds its mutex requires |
| ChatTrace.UpperKeeps | Lab2/server/server.c:258-262 | converting byte by byte ends with the image of the whole message, not yet broadcast |
| ChatTrace.SubPicks | Lab2/server/server.c:295-303 | a subsequence comes from strictly increasing positions |
| ChatDelivery.UpperIs | Lab2/server/server.c:258-260 | each letter of the small alphabet becomes the one at the same place of the large alphabet, everything else stays |
| ChatDelivery.BroadcastsAreUpper | Lab2/server/server.c:258-303 | in every run a nonempty broadcast is, letter by letter by the two alphabets, a message of its slot, as long as that and without a small letter |
| ChatDelivery.PublishedWaits | Lab2/server/server.c:262-265 | in every run, when a receive thread frees its buffer after a message, the flag is set and the buffer holds the image of that message |
| ChatDelivery.RoundStep | Lab2/server/server.c:296-303 | in one step of a round the last broadcast gains the client of the slot exactly when the slot is occupied and the send works |
| ChatDelivery.RoundsReachAll | Lab2/server/server.c:295-306 | in every run without failing sends, a round that is over has reached exactly the occupied slots |
| ChatUndisturbed.MessageIsPublished | Lab2/server/server.c:65-266 | with its buffer free and nothing in between, a receive thread reads a message, leaves its image in the buffer with the flag set, and is back at the head of its loop |
| ChatUndisturbed.FlagIsServed | Lab2/server/server.c:281-310 | with both mutexes free and nothing in between, a set flag leads to one round with the bytes in the buffer to every occupied slot, and both mutexes are free again |
| ChatUndisturbed.MessageReachesAll | Lab2/server/server.c:65-310 | the two together: the message reaches every connected client in capitals |
| ChatUndisturbed.ClientLeaves | Lab2/server/server.c:70-76 | an empty read, with nothing in between, frees the slot, sets the flag and ends the thread |
| ChatUndisturbed.SenderEnds | Lab2/server/server.c:290-293 | when the server is stopped and the client gone, a woken send thread ends without a round |
| ChatUndisturbed.ConnectionIsServed | Lab2/server/server.c:394-432 | with nothing in between, a connection gets the first free slot from the last one on and two threads at the heads of their loops |
| ChatUndisturbed.DeliveriesAre | Lab2/server/server.c:296-303 | such a round reaches every occupied slot once, in order, with the same bytes, and nobody else |
| Download.SendFile | Lab2/server/server.c:230-240 | what is sent is the file, in full buffers up to the last piece |
| Download.SaveFile | Lab2/client/client.c:228-234 | what is written is the concatenation of the reads up to and including the first short one; otherwise the client still waits |
| Download.CopyIsRight | Lab2/client/client.c:228-234 | the client ends with exactly the server's file if and only if every read returned one send and the chunk size does not divide the length of the file or the next read is empty |
| Download.FramingIsUnique | Lab2/server/server.c:231-232 | there is one way to cut a file into full pieces and a nonempty rest |
| Download.SavesAll | Lab2/client/client.c:228-234 | for pieces of any sizes, the exact condition under which they are all saved and nothing else |
| Download.RestIsRemainder | Lab2/server/server.c:231-232 | the last piece is full exactly when the chunk size divides the length of the file |
| PingPong.Controller.RightPlay | inclass1/temp.c:186-223 | follows the state machine through one flight to the right, from the service to the outcome it returns: too late when the last look found the timer expired, a reset or a press too early by the button it found |
| PingPong.Controller.LeftPlay | inclass1/temp.c:227-263 | the same for a flight to the left |
| PingPong.Controller.AwaitStart | inclass1/temp.c:104-130 | follows the state machine until a service, resets included |
| PingPong.Controller.Play | inclass1/temp.c:98-182 | direction and scores after any readings are those of the state machine |
| PingPong.BallIsOneHot | inclass1/temp.c:189-263 | in every run exactly one of the four lamps is lit during a flight |
| PingPong.DirectionIsParity | inclass1/temp.c:123-146 | in every run the direction is RIGHT exactly when services plus returned hits since power-on are even |
| PingPong.ScoresAreGames | inclass1/temp.c:149-178 | in every run the two scores sum, modulo 2^32, to the games completed since the last reset |
| PingPong.PointsAreLosses | inclass1/temp.c:149-166 | in every run the left score is, modulo 2^32, the games since the last reset that were lost while the ball flew right, and the right score those lost while it flew left |
| PingPong.WaitingStays | inclass1/temp.c:104-130 | between games only the start and the reset button alone matter, a reset holds as long as its button is seen, and a hit ball waits for the timer alone |
| PingPong.WaitingEnds | inclass1/temp.c:104-130 | what each of these ends in: scores cleared, the wait for a release over, or a ball served to the other side |
| PingPong.RallyIsTimed | inclass1/temp.c:186-263 | a served ball is still flying exactly when no button was pressed and at most three periods passed, and their number says where it is |
| PingPong.HitIsTimed | inclass1/temp.c:208-219 | a flight ends in a hit exactly when the receiver's paddle alone is pressed first and after the third period; every other press, and a fourth period, loses |
| PingPong.RunMirrors | inclass1/temp.c:186-263 | with ball bits reversed, paddle buttons exchanged and scores swapped, a run is the mirror image of the run |
| PingPong.StepMirrors | inclass1/temp.c:225-263 | the same for one reading |

## Left out

- Sockets, address lookup, connecting, relaying, printing, signals and the arguments of `main`: reads are arbitrary inputs.
- The response cache `lab3/proxy_cache.c`: it is documented as not working, and the rest of it repeats `lab3/proxy.c`.
- `lab3/proxy.c:146-178`, the assembly and sending of the final request: the block is used there without its terminating NUL.
- `lab3/proxy.c:97-100`, what the jump back after a failed parse goes on to do: another request is collected into a new object, and the old one is never freed.
- The upload path and the transfer branches of the chat server, `Lab2/server/server.c:79-249` but for the send loop: they can skip an unlock or unlock twice, and the last uploaded chunk is shortened by an unrelated counter.
- ParsedRequests.ParsedRequest.ParseLine: the port check at lab3/proxy_parse.c:503-514 depends on a stale `errno`; it is modelled as accepting.
- Failing allocations, NULL arguments, and the fields `buflen`, `keylen` and `valuelen`, which nothing reads.
- HeaderTables.HeaderTable.Set: the header array is a sequence of fixed length that the methods reassign, so writing a slot in place and the dangling pointers a caller might keep over a `realloc` are not captured.
- Proxy.Reassemble: a failed read is treated like a lost connection; the two buffers the loop copies between are strings.
- Delivery of every chat message when threads interleave, and one send thread per slot: neither is claimed; the receive thread does not wait for the send thread, and nothing waits for the old send thread of a slot that is used again.
- ChatTrace.BroadcastsAreImages: orderly disconnects only; a read that fails leaves a negative length that the send loop passes on.
- Cancellation of threads: a cancelled thread takes no more steps, which every interleaving already allows.
- ChatSafety.NoCircularWait: about mutexes; waiting for a socket or for the flag `sendbool` is not waiting for a mutex.
- Failing sends and failing file writes in the download, and the question of which reads a connection produces.
- Lamps, timer loading and the pause after a reset in `inclass1/temp.c`.
- lab1, inclass2, hw2 and the mail scripts: thin echo programs and scripts.
