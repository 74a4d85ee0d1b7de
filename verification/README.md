# Verified model of the epoll coroutine http server

This project models the working parts of the server and proves what they promise:

- **The incremental http reader** (`httpbuf.cpp`). `HttpBuf` is a class over a growing buffer with a
  read cursor; a `Peer` behind the read callback hands over arbitrary slices of a byte stream, then an
  end of file or an error. `HaveEnd`, `ReadHeader`, `ReadBody`, `ReadChunked`, `ParseHeaders` and
  `ParseXHeaders` keep the source's loops and are proved against one-pass specifications of the whole
  stream: the automaton in `HeaderEnd`, the decoder in `Chunked`, the line parser in `HeaderText`.
  Those are proved to invert printers that end lines in CR LF or LF, and are characterised for every
  text beside that: `Chunked.DoneExactlyForMessages` says what counts as a complete message.
  `Messages` puts the operations together in the order the server's request loop calls them.
- **The timer wheel** (`evtimer.hpp`, `circarray.hpp`, `utility.hpp`). The wheel is proved to be a
  stable priority queue, `Agenda`, of (object, due instant) pairs, which knows nothing of slots or a
  rotating index; the bounds are exact to the nanosecond. `expire` with callbacks that set timers is
  proved to serve that queue, for every callback and however late it is called; `Serving` and
  `ServingEnds` say what this means for each timer and when it ends. `EvTimer` keeps the wheel in
  place in a circular array.
- **The scheduler** (`scheduler.cpp`, `scheduler.hpp`, `coroutine.hpp`). `Scheduling` is a step system
  over live services, ready list, wheels and epoll registry, with an invariant and properties of every
  reachable state; `Schedulers.Scheduler` performs a pass of `run` in place and is proved to be a run
  of the step system, in which every due timer that no turn sets anew is called back for and every
  reported service that lives on is resumed.
- **The compression pump** (`gzip.cpp`) around an unknown codec, and **the tokenisers** (`parse.hpp`).

A `char` stands for a byte, 0 to 255. Time is passed in as a parameter. Service objects are numbers,
and `live` maps those that exist to their state, so that deletion can be spoken of.

Where the source's comments or the standard say something else, the model follows the code:

- `have_end` is described as finding CR LF CR LF or LF LF. It does not look at a mismatched character
  again, so it misses terminators in text with mixed line ends (`HeaderEnd.MixedEndingsAreMissed`).
  `HeaderEnd.FoundExactlyWhenClear` says exactly which ones are found, in terms of the text alone, and
  `HeaderEnd.UniformEndingsAreExact` that with one line-end convention none is missed.
- A header value is cut at its first inner blank, so most values of several words do not come back
  whole (`HeaderText.ValueIsCutAtBlank`), and a line over the buffer's size fails the stream.
  `HeaderText.ParseInvertsPrint` covers every head of plain text and says exactly when it is read back
  as it was printed, and exactly when reading fails.
- A chunk size is hexadecimal in section 4.1 of RFC 7230, and a chunk extension may follow it. The code
  multiplies by ten while it takes the digits A to F as 10 to 15, and it goes on counting inside an
  extension: "5;a" announces 5 bytes and is read as 60 (`Chunked.ExtensionIsCounted`).
  `Chunked.StandardChunkIsAnnounced`: without such characters in its extension a chunk is understood
  exactly when it holds fewer than 16 bytes; below 16 bytes, exactly when its extension has none.
- The trailer part's length is kept in a `short`. `Messages.ComputedEnd` and
  `Messages.TrailerIsReadWhenReached` say exactly which lengths and positions survive that.
- A timer that runs out before its service was first entered throws nothing then; if the next entry is
  by an expiry too, that Timeout is lost for good. `Scheduling.TimeoutsMatchExpiries` counts exactly,
  `Scheduling.WhenTimeoutsAreLost` says when, and `LostTimeout.TimeoutIsLost` is a run in which it
  happens with the 1 ms timer that the server sets on every new service.
- `read_body` is described as returning the body size, and `read_chunked` likewise; both also return 0
  at end of file.
- The `EvTimer` constructor counts whole seconds twice, so its granule is the one asked for exactly
  when that is below 1000 ms (`TimerWheel.MakeIsEmpty`). The server itself makes one of 1000 ms.
- The clamp in `insert` lets a slot index equal to the number of slots through to `abort`
  (`TimerWheel.InsertOutcome`).
- A timer set from a callback while the wheel is behind can be clamped to an instant that is past
  already, and is then served in the same `expire`, before its deadline; or it hits that abort. With the
  server's 60 ms timer this takes a lag of 2 s (`LateWheel.ServedAgainTooEarly`,
  `LateWheel.AbortsInTheGap`); `ServingEnds.PatientPlace` gives the exact condition. The wheel falls
  behind while no event is reported, as timers run only in passes with one.
- `expire` need not end: a callback that sets its timer for less than what is left of the granule is
  called again at once (`ServingEnds.HastyNeverEnds`).
- After a header line over the buffer's size the stream has failed, and the server goes on: `read_body`
  returns at once with nothing, `read_chunked` reads the peer to its end and keeps nothing.
- `read_body` adds the announced length to the header's end in a `size_t`: where the sum wraps, as for
  every announcement of 2^64 or more, it waits for nothing (`Messages.WaitedFor`).
- `Scheduler::del` never finds anything (`Scheduling.DelFindsNothing`), as `add` does not fill `fdset`.
- The flat `parse_fields` loops for ever on text with a CR or LF (`Fields.FlatReturnsIffEolFree`).
- `s_casehash` and `s_casecmp` disagree on keys with a NUL inside (`CaseFold.NulBreaksHash`). The keys
  that `parse_tomap` stores do have one; header names do not.

## Model

| member | source | states |
|---|---|---|
| Clock.TruncDiv | evtimer.hpp:77 | C's division: the quotient is truncated toward zero, with exact bounds on both sides of zero |
| Clock.PlusIsExact | utility.hpp:54-63 | `+=` adds exactly and keeps 0 <= nsec <= 1e9; nsec 1e9 is left exactly when the nanoseconds add up to it |
| Clock.TicksAreExact | evtimer.hpp:91 | after n rounds of `epoch += incr` the epoch is epoch0 + n * incr to the nanosecond |
| Clock.AtMostIsOrder | utility.hpp:36-43 | `<=` is the numeric order on weakly normal operands, but for one pair of spellings of the same instant; with a normal right operand it is exact |
| Clock.MinusIsExact | utility.hpp:65-74 | `-=` of a weakly normal value from a normal one is exact and normal |
| Clock.MillisecsIsFloor | utility.hpp:76-79 | `millisecs` of a normal value is the true floor, below zero too |
| TimerWheel.InsertSetsTimer | evtimer.hpp:70-85 | an insert that does not abort replaces the object's pending timer in the agenda by one at its slot's instant, behind those already there |
| TimerWheel.PopServesEarliest | evtimer.hpp:92-98 | the first object of slot 0 is the entry a stable priority queue serves first, and popping it removes that entry and nothing else |
| TimerWheel.TickKeepsAgenda | evtimer.hpp:91-101 | advancing past an empty slot 0 changes no entry, and nothing was due at the old epoch |
| TimerWheel.NextIsEarliestDue | evtimer.hpp:89-103 | what `expire(now)` hands over next is due, earliest, and first set among equals; when it stops nothing due is left; nothing else changes |
| TimerWheel.DelayIsExact | evtimer.hpp:74-77 | millisecond floor and slot division together put a deadline in the slot whose granule contains it, to the nanosecond |
| TimerWheel.InsertOutcome | evtimer.hpp:70-85 | exactly which deadlines abort, which are clamped to the last slot, which land in slot 0 although past, and which land in their own granule |
| TimerWheel.MakeIsEmpty | evtimer.hpp:40-47 | a new wheel is empty and well formed, starts at the time given, has just the slots that cover the seconds asked for, and has the granule asked for if and only if that is below 1000 ms |
| TimerWheel.NoAbortAfterExpire | evtimer.hpp:70-103 | between an `expire` and the epoch it left, an insert with 1 <= ms <= 1000 * secs_max neither aborts nor is clamped |
| TimerWheel.NeverServed | evtimer.hpp:89-103 | over any run, an object that is not pending and never armed is never called back |
| TimerWheel.ServedOnTime | evtimer.hpp:68-103 | over any run, a pending timer is served at most once, never before its instant, and before the first `expire` at or after it ends |
| TimerWheel.ArmedTimerIsServedWithinAGranule | evtimer.hpp:68-103 | a timer set for deadline d is served at an instant at most d and less than one granule before it; for d before the epoch, less than one granule late |
| TimerWheel.RunServes | evtimer.hpp:89-103 | in a run, each round of expire is answered by what it hands over, from the wheel as the steps before have left it |
| TimerWheel.RunArms | evtimer.hpp:68-85 | an insert changes the wheel for the rest of the run, or ends it |
| TimerExpire.SlotIsGridFloor | evtimer.hpp:74-83 | the slot of a deadline is due at the last instant of the wheel's fixed grid not after the deadline, wherever the epoch has got to |
| TimerExpire.InsertPlaces | evtimer.hpp:70-85 | set while what is due at the epoch is served, a timer aborts exactly where the reference does and its slot is due exactly where that enters it |
| TimerExpire.FireStep | evtimer.hpp:94-99 | one callback, whatever timers it sets, leaves wheel and agenda in step, or aborts on both sides |
| TimerExpire.ExpireServesAgenda | evtimer.hpp:87-103 | for every callback and however far the epoch lags behind: after any number of callbacks, `expire` has handed out the objects that serving the agenda hands out, has ended, aborted or not exactly as that has, and left a matching state |
| TimerExpire.ExpiresToOne | evtimer.hpp:87-103 | an `expire` that ends or aborts does so in one way |
| TimerExpire.PatientExpireEnds | evtimer.hpp:91-101 | on two slots or more `expire` ends, or aborts, for all callbacks whose deadlines lie a granule or more after `now` |
| Serving.ServesDueInOrder | evtimer.hpp:87-103 | any callback: all that is served was due, no instant comes before an earlier one, each was pending or was set, and entered at that instant, by an earlier callback of this `expire`; at the end nothing is due |
| Serving.LeftAloneIsServed | evtimer.hpp:87-103 | any callback: a pending timer that no other object's callback sets is what its object is first served for; it is served by the end if it is due, and is still pending otherwise |
| Serving.LeftAloneInOrder | evtimer.hpp:92-98 | any callback: two such timers are served in order of instant and, among equals, first set first |
| Serving.NeverSetServedOnce | evtimer.hpp:92-98 | an object that no callback sets is served once at most |
| Serving.LastSetIsPending | evtimer.hpp:68-85 | the last timer a callback sets for an object is pending afterwards, at its slot's instant |
| Serving.NewTimerIsServed | evtimer.hpp:87-103 | any callback: so that timer too is what its object is served for next, by the end if it is due, and otherwise still pending |
| ServingEnds.SparingEnds | evtimer.hpp:91-101 | if no callback enters a timer at the very instant being served, `expire` ends or aborts |
| ServingEnds.EnteredAtOnce | evtimer.hpp:74-83 | which deadlines are entered at the very instant being served, exactly |
| ServingEnds.HastyNeverEnds | evtimer.hpp:94-99 | a callback that keeps setting its own timer for such a deadline is called for ever |
| ServingEnds.PatientPlace | evtimer.hpp:74-83 | a timer set for a granule or more after `now`, while what is due at e is served, is due again in the same `expire` if and only if its deadline is at least (slots + 1) granules after e and the last slot's instant, e + (slots - 1) granules, is not after `now`; it aborts if and only if its deadline is in the granule before that |
| ServingEnds.PatientEnds | evtimer.hpp:91-101 | such timers let serving end |
| ServingEnds.ServesOnceInOrder | evtimer.hpp:87-103 | if nothing that callbacks set falls due, each served timer was pending at the start, is served once, in order of instant and then first set first |
| ServingEnds.PatientDefers | evtimer.hpp:87-103 | which is so for deadlines a granule or more after `now` unless a pending timer is late by all slots but one |
| LateWheel.ServedAgainTooEarly | server.cpp:192 | the server's timer 0 and its 60 ms timer, set by a callback two seconds late or more: the service is called back twice, the second time before its deadline |
| LateWheel.AbortsInTheGap | server.cpp:192 | the same, 1.95 to 1.96 seconds late: the process aborts |
| CircArrays.CircArray.constructor | circarray.hpp:25-33 | a new array shows its elements in order from the head |
| CircArrays.CircArray.View | circarray.hpp:48-55 | the logical order: index x is the array element x places round from the head |
| CircArrays.CircArray.Advance | circarray.hpp:41-46 | advancing by n rotates the logical order by n modulo the size |
| CircArrays.CircArray.At | circarray.hpp:48-55 | indexing aborts exactly out of range and otherwise gives the cell behind the logical index |
| CircArrays.CircArray.Assign | circarray.hpp:48-55 | assigning through the reference changes that logical element alone |
| EvTimers.EvTimer.constructor | evtimer.hpp:40-47 | the timer in place is the new wheel |
| EvTimers.EvTimer.Unlink | evtimer.hpp:82 | the hook takes the object out of every slot |
| EvTimers.EvTimer.Insert | evtimer.hpp:68-85 | in place, `insert` is the wheel's insert, and aborts exactly when that does |
| EvTimers.EvTimer.Expire | evtimer.hpp:87-103 | in place, and wherever it ends at all, `expire` calls back exactly the objects of the wheel's expire, aborts exactly when that does, and leaves its state |
| EvTimers.EvTimer.DrainFirst | evtimer.hpp:92-99 | the inner loop empties the first slot, or aborts, and does nothing the rest of expire would not |
| EvTimers.EvTimer.Tick | evtimer.hpp:91-100 | the outer loop's step rotates the slots and adds one granule to the epoch |
| EvTimers.EvTimer.FireFront | evtimer.hpp:95-98 | the front object is popped before its callback runs and sets its timers |
| HeaderEnd.ScanResumes | httpbuf.cpp:42-113 | scanning a text is scanning any prefix and going on in the state left; a hit stands under appends |
| HeaderEnd.HitIsFirst | httpbuf.cpp:68-108 | no shorter prefix has a reported end |
| HeaderEnd.HitDelimitsTerminator | httpbuf.cpp:72-105 | every reported position and length delimit CR LF CR LF or LF LF |
| HeaderEnd.FoundFromRest | httpbuf.cpp:72-105 | a terminator that starts where the automaton is in its start state is reported, as the first |
| HeaderEnd.ClearIsRest | httpbuf.cpp:72-105 | at a clear position the automaton is in its start state, unless it has reported an end before |
| HeaderEnd.FoundExactlyWhenClear | httpbuf.cpp:72-105 | for every text: an end is reported if and only if some terminator starts at a clear position -- one that can be read off the text, after whole pieces: single characters other than CR and LF, and beginnings of a terminator with the character that breaks them off -- and then it is the one at the first such position |
| HeaderEnd.MixedEndingsAreMissed | httpbuf.cpp:72-105 | three texts holding a terminator that is not reported |
| HeaderEnd.PairedEndIsFound | httpbuf.cpp:72-105 | where lines end in CR LF up to it, the first CR LF CR LF is reported, whatever follows |
| HeaderEnd.LfEndIsFound | httpbuf.cpp:72-105 | on CR-free text the first LF LF is reported, whatever follows |
| HeaderEnd.UniformEndingsAreExact | httpbuf.cpp:72-105 | with one line-end convention an end is reported if and only if there is one |
| Chunked.SizeLineReads | httpbuf.cpp:236-245 | a size line ending in CR LF or LF is read to its end, to the value of the accumulator |
| Chunked.ChunkDecodes | httpbuf.cpp:236-261 | one announced chunk of arbitrary bytes decodes to its data and leaves the position just after it |
| Chunked.PastTrailerReads | httpbuf.cpp:264-280 | a trailer part, with lines ending in CR LF or LF, is skipped up to and with its empty line |
| Chunked.DecodeInvertsEncode | httpbuf.cpp:231-280 | for every list of announced chunks of any bytes, any trailer lines, either line end and any surroundings, decoding the encoding gives the data, the trailer's position and the exact end |
| Chunked.PastIsTrailer | httpbuf.cpp:264-280 | a trailer part is skipped only if it stands there whole: non-empty lines, each with its line end, CR LF, LF or CR, and an empty one |
| Chunked.TrailerIsPast | httpbuf.cpp:264-280 | and each such trailer part is skipped, to its end |
| Chunked.SizeLineAt | httpbuf.cpp:214-245 | a size line is read exactly where a line and its end stand, to its accumulated value |
| Chunked.DoneExactlyForMessages | httpbuf.cpp:214-283 | for every text: the decoder is done if and only if a whole message stands there -- chunks with the sizes announced, a chunk of size 0, a trailer part and its empty line, every line with its end -- and then with its data, trailer position and end |
| Chunked.MoreTextExtends | httpbuf.cpp:171-287 | for all texts: what is complete is not changed by anything that follows, and of what is cut short the body put out is the beginning of that with more text |
| Chunked.CutMessageIsStarved | httpbuf.cpp:281-283 | a message cut anywhere before its end is not complete, and gives a beginning of its body |
| Chunked.CutEncodingIsStarved | httpbuf.cpp:281-283 | so does every proper prefix of every encoding |
| Chunked.SizeCountsHexDigits | httpbuf.cpp:236-245 | the characters that count are the sixteen hexadecimal digits in either case, each at its value; each multiplies what stood before by ten |
| Chunked.SizeSkipsOthers | httpbuf.cpp:236-245 | every other character is skipped |
| Chunked.SizeAgainstHex | httpbuf.cpp:236-245 | the accumulated size never exceeds the hexadecimal one, and equals it exactly when all digits but the last are zero |
| Chunked.SizeWithExtension | httpbuf.cpp:236-245 | what follows the size on its line leaves it alone exactly when it holds no character that counts as a digit, and multiplies it by ten at least otherwise |
| Chunked.StandardChunkIsAnnounced | httpbuf.cpp:236-245 | a chunk announced in hexadecimal, with or without a chunk extension: below 16 bytes it is read at its length if and only if the extension is free of 0-9, a-f and A-F; with such an extension or none, if and only if it holds fewer than 16 bytes |
| Chunked.ExtensionIsCounted | httpbuf.cpp:236-245 | "5;a", announcing 5 bytes, is read as 60 |
| Chunked.ErrorsCanCancel | httpbuf.cpp:236-245 | beyond 16 bytes and with digits in the extension the two errors can cancel: an input that is read at its length |
| CaseFold.CaseHash | utility.hpp:81-96 | the loop computes the sum of the folded characters as signed chars, modulo 2^64, over the whole string with NULs |
| CaseFold.SameKeyHash | utility.hpp:81-102 | keys equal ignoring case hash equally if and only if their parts after a NUL do; always for NUL-free keys |
| CaseFold.NulBreaksHash | utility.hpp:81-102 | two keys that are equal under `s_casecmp` and hash differently |
| CaseFold.CaselessIsOrder | utility.hpp:104-108 | s_caseless is what std::map asks for: irreflexive, transitive, and total but for keys that s_casecmp holds equal, which compare alike |
| CaseFold.LowerFoldsCase | utility.hpp:98-108 | characters fold alike exactly when they are equal or one is a capital, code 65 to 90, and the other is that plus 32 |
| CaseFold.SameKeyIsCase | utility.hpp:98-102 | keys are equal exactly when their parts before a NUL are of one length and so in each character |
| CaseFold.LessIsFirstDifference | utility.hpp:104-108 | s_caseless compares the codes of the folded characters at the first difference, a key before its extensions |
| CaseFold.HashOfOne | utility.hpp:88-92 | what one character adds to the hash: a small letter as much as its capital, any other its code as a signed char |
| CaseFold.HashAdds | utility.hpp:81-96 | the hash of a text is the sum of those of its parts, modulo 2^64 |
| HeaderText.FindsIgnoringCase | httpbuf.hpp:16 | lookup by hash and comparison finds a NUL-free name exactly when it has the key's length and, in each place, the same character but for a letter's case |
| HeaderText.ForbiddenIgnoresCase | httpbuf.cpp:20-24 | a name is forbidden exactly when it is, but for the case of letters, one of these eight, written out |
| HeaderText.AllowedOne | httpbuf.cpp:415 | the filter drops a field exactly when its name is forbidden |
| HeaderText.GetLineReads | httpbuf.cpp:323-332 | every text: a line is read whole exactly when an LF stands among the next maxhdr characters, up to but without it, and reading goes on behind it; without an LF and with fewer characters left, it is all of these and the end; otherwise maxhdr - 1 characters and the stream fails |
| HeaderText.CutEndsAtEol | httpbuf.cpp:327-328 | what is cut off a line begins with its first CR, LF or NUL |
| HeaderText.ReadPrintedLine | httpbuf.cpp:323-332 | a line of plain text that ends in CR LF or LF and fits the buffer is read whole, and reading goes on behind it |
| HeaderText.NoMoreFields | httpbuf.cpp:329-331 | reading stops, without another field or request, at a line with no text before its first CR, LF or NUL, at one too long, and at the limit |
| HeaderText.LastLineUnended | httpbuf.cpp:323-346 | a last line that the text ends in the middle of gives its field, or request, and the stream fails |
| HeaderText.BlanksAre | httpbuf.cpp:334-353 | blanks are space, tab and backspace |
| HeaderText.ParseRequestReads | httpbuf.cpp:334-344 | every request line: method, path and version are its first three tokens, whatever blanks are between them and whatever follows; missing ones are empty |
| HeaderText.ParseFieldReads | httpbuf.cpp:347-355 | every line with a colon: the name is what stands before the first one, and the value the first word behind it, whatever follows |
| HeaderText.ParseNameOnly | httpbuf.cpp:356-358 | a line without a colon is a name with an empty value |
| HeaderText.TrimIsFirstWord | httpbuf.cpp:351-353 | the value kept is the first blank-delimited word, and the whole value exactly when that has no blank |
| HeaderText.ParsePrintedField | httpbuf.cpp:347-358 | a printed field comes back as its name up to a colon and the first word of what follows; as itself if and only if its name has no colon and its value no blank |
| HeaderText.ValueIsCutAtBlank | httpbuf.cpp:351-353 | a printed field whose value does not come back whole |
| HeaderText.ParsePrintedRequest | httpbuf.cpp:334-344 | a printed request line comes back if and only if it is three blank-free tokens, the last one empty if the path is |
| HeaderText.ParsePrintedFields | httpbuf.cpp:346-359 | printed fields of any plain text and their empty line, with lines ending in CR LF or LF: all come back as a single one does, in order, stopping there, if every line fits the buffer; otherwise those before the long line do, and the stream fails |
| HeaderText.AllAreReadWithin | httpbuf.cpp:392-403 | with a position limit, printed fields are all read if and only if it lies beyond the start of the last line |
| HeaderText.ParseInvertsPrint | httpbuf.cpp:310-360 | every head of plain text, with lines ending in CR LF or LF and whatever follows: reading fails if and only if a line is too long, with what stands before that line read; otherwise it stops at the head's end with every field read as a single one is; it comes back as printed if and only if, besides, the request is three tokens, no name has a colon and no value a blank |
| HeaderText.PrintedHeadEnds | httpbuf.cpp:42-113 | the end `have_end` reports in any head of plain text printed with either line end is the empty line at which parsing stops |
| HeaderText.StrToUlInvertsDecimal | httpbuf.cpp:371-372 | a printed length is read back, saturating at the width of an unsigned long |
| HeaderText.StrToUlReads | httpbuf.cpp:371-372 | every text: white space, a sign and digits give the digits' value, saturated, and negated modulo 2^64 after a minus; what follows the digits is ignored, and without digits it is 0 |
| HeaderText.SpacesAre | httpbuf.cpp:371-372 | the white space it skips: codes 9 to 13, and 32 |
| Peers.Peer.Receive | httpbuf.hpp:19 | a read hands over some next bytes of the stream, at least one, or at its end 0 or an error |
| HttpBufs.HttpBuf.Reset | httpbuf.cpp:293-299 | everything is cleared but the recorded trailer position |
| HttpBufs.HttpBuf.KeptByAppend | httpbuf.cpp:42-113 | appending never disturbs a scan in progress or finished |
| HttpBufs.HttpBuf.HaveEnd | httpbuf.cpp:42-113 | true exactly when one pass over all that has arrived finds an end, with its position and length; a miss leaves hdr_epos at the write position; the read cursor stays; no byte is fed twice |
| HttpBufs.HttpBuf.FeedBlock | httpbuf.cpp:69-107 | one block through the automaton keeps the state equal to a run over everything so far |
| HttpBufs.HttpBuf.WrapsBack | httpbuf.cpp:92-100 | the update of hdr_epos is right in size_t although the difference in it wraps when the end straddles blocks |
| HttpBufs.HttpBuf.ReadHeader | httpbuf.cpp:119-136 | succeeds exactly when the whole stream holds a reported end; no read is issued once one has arrived; nothing is lost or reordered |
| HttpBufs.HttpBuf.Fetch | httpbuf.cpp:128-133 | what a read brings is put behind the contents, and lost if the stream has failed |
| HttpBufs.HttpBuf.ReadBody | httpbuf.cpp:146-165 | reads until the header's end plus the announced length, in a size_t, has arrived, exactly if the stream is long enough; no read is issued after that, or at all if the sum wraps or the stream has failed; the value returned in each case |
| HttpBufs.ConversionsWrap | httpbuf.cpp:164 | conversions to `int` and `short` keep the values that fit and wrap the others into range modulo the width |
| HttpBufs.HttpBuf.AwaitBody | httpbuf.cpp:156-163 | the loop of read_body: whether and how far it reads |
| HttpBufs.HttpBuf.Body | httpbuf.cpp:436-449 | everything that arrived after the header's end, in order; nothing once the stream has failed |
| HttpBufs.HttpBuf.GetChar | httpbuf.cpp:185-193 | the next character of the stream, reading when none is left in the buffer, or the peer's ending; on a failed stream the peer is read to its end and nothing is kept |
| HttpBufs.HttpBuf.CopyUnch | httpbuf.cpp:195-202 | copies exactly n buffered characters, however few readsome gives at a time |
| HttpBufs.HttpBuf.ReadDat | httpbuf.cpp:204-212 | exactly n more bytes arrive, if and only if the stream has them |
| HttpBufs.HttpBuf.GotEol | httpbuf.cpp:214-224 | consumes CR, LF or CR LF and nothing more, needing one character of look-ahead after CR |
| HttpBufs.HttpBuf.ReadSize | httpbuf.cpp:236-245 | reads the size line the decoder reads, or drains the peer if the stream has failed |
| HttpBufs.HttpBuf.CopyChunk | httpbuf.cpp:248-260 | puts out the chunk's bytes however many had arrived; on failure a prefix of them |
| HttpBufs.HttpBuf.EatEol | httpbuf.cpp:226-229 | drops one character, and the LF of a CR LF |
| HttpBufs.HttpBuf.SkipTrailer | httpbuf.cpp:264-280 | ends just past the trailer part's empty line if that stands in the stream, and otherwise with the peer's ending |
| HttpBufs.HttpBuf.ReadChunk | httpbuf.cpp:232-262 | one round of the chunk loop is one step of the decoder |
| HttpBufs.HttpBuf.CopyChunks | httpbuf.cpp:232-262 | the chunk loop up to the chunk of size 0 |
| HttpBufs.HttpBuf.ReadChunks | httpbuf.cpp:231-280 | the whole try block against the decoder |
| HttpBufs.HttpBuf.ReadChunked | httpbuf.cpp:171-287 | for any buffered prefix and any slicing of the rest, succeeds exactly when the one-pass decoder of the whole stream does, with its body, trailer start, trailer length as a short, and end; on failure the output is a prefix of the decoder's, the recorded length is the old one, and so is the recorded position unless all chunks were there; on a failed stream the peer is drained, its ending returned, and nothing is stored, put out or recorded |
| HttpBufs.HttpBuf.ReadLine | httpbuf.cpp:392-403 | one line, cut at its line end; false at the empty line, the limit or a failed stream |
| HttpBufs.HttpBuf.AddFields | httpbuf.cpp:346-359 | the loop adds exactly the fields the line parser yields, less the forbidden ones when it checks |
| HttpBufs.HttpBuf.ReadLines | httpbuf.cpp:333-360 | request line and fields as the line parser reads them |
| HttpBufs.HttpBuf.ContentLength | httpbuf.cpp:367-372 | 0 without such a field, otherwise the value of one, looked up ignoring case |
| HttpBufs.HttpBuf.ParseHeaders | httpbuf.cpp:310-373 | the head of the whole buffer, and the cursor at the body unless a line is too long, which leaves the stream failed |
| HttpBufs.HttpBuf.ParseXHeaders | httpbuf.cpp:383-430 | adds exactly the trailer region's fields that are not forbidden, true exactly when it added one, and puts the cursor back; a stale position beyond the contents adds nothing and leaves the stream failed, and a failed stream adds nothing |
| Messages.LengthIsRead | httpbuf.cpp:367-372 | a sole printed Content-Length, in any case, is the length returned, up to the width of a size_t |
| Messages.ReceiveHead | server.cpp:76-99 | any request of plain text as a client prints it, with lines ending in CR LF or LF: its lines come out as they are read and the cursor is just after its empty line, if every line fits the buffer; otherwise, and only then, the stream has failed with the fields before the long line; no read is issued once the head is there |
| Messages.ReceiveRequest | server.cpp:76-137 | with any plain head: the body is all that has arrived behind it; with a Content-Length n that is n bytes at least unless the peer has ended; without one, or if n wraps, nothing is read for it; if the head does not fit, the body is empty and nothing is read for it |
| Messages.ReceiveBody | server.cpp:136-137 | read_body, then body: head, body and rest make up the stream, or the body is empty on a failed one |
| Messages.WaitedFor | httpbuf.cpp:147-156 | what read_body waits for: the head and n bytes if their sum fits a size_t, and otherwise less than has arrived |
| Messages.BodyIsSent | server.cpp:136-137 | hence a body sent whole comes out first |
| Messages.ComputedEnd | httpbuf.cpp:406 | the end computed from the recorded position and length, for every length: right when the length fits a short, beyond everything when it becomes negative there and the sum wraps round, and otherwise too small by 64k at least |
| Messages.TrailerIsReadWhenReached | httpbuf.cpp:383-430 | all fields of a printed trailer part are read if and only if the computed end lies beyond the start of its last line |
| Messages.ShortTrailerIsReached | httpbuf.cpp:406 | as it does for every trailer part below 32768 bytes |
| Messages.TrailerIsRead | httpbuf.cpp:383-430 | the recorded region of a printed trailer part that the computed end reaches yields its fields |
| Messages.ReceiveCoded | server.cpp:142-154 | whatever is on the wire: the body and the recorded region are the one-pass decoder's, the fields read in that region are added unless forbidden, and the cursor is at the decoder's end; on a failed stream the peer is drained and nothing comes of it |
| Messages.CodedIsRead | server.cpp:142-154 | of a good coding: the body as sent, all allowed trailer fields, and the cursor exactly at what follows |
| Messages.ReceiveChunkedRequest | server.cpp:76-154 | a chunked request with any plain head and anything behind it: the same for the whole request, with an over-long head line, a misread size line or a trailer end that is not reached; and for good codings the body as it was sent, all allowed trailer fields, and the cursor where the next request starts |
| Scheduling.UnlinkCancels | evtimer.hpp:15 | auto-unlink of a destroyed object is cancelling its timer |
| Scheduling.SetTimerKeepsTimers | scheduler.cpp:260-267 | after set_timer every wheel still holds its agenda and no service is in two |
| Scheduling.SetTimerSets | scheduler.cpp:260-267 | set_timer puts the service's timer, and nothing else, into that wheel's agenda, at its slot's instant and behind those there, and takes the service out of all others; it aborts exactly where the index or insert does |
| Scheduling.SpawnAdds | scheduler.cpp:53-61 | a new service is live with its descriptor, and registered there exactly if epoll took it; no other service or registration changes |
| Scheduling.ActsInOrder | server.cpp:226-240 | what a service does in its turn is performed one after the other, all of it |
| Scheduling.EnterKeeps | scheduler.cpp:269-279 | a resumed service's caller is the scheduler, its events are the expiry, the resumption and the Timeout thrown, and the pending Timeout of a service that had been entered is cleared |
| Scheduling.LeaveKeeps | server.cpp:62-67 | giving control back keeps the idle invariant; with null, the service is out of epoll, ready list, wheels and the live ones |
| Scheduling.TurnKeeps | coroutine.hpp:85-95 | a whole turn of a service: its exact events, and its death exactly when it ends with null |
| Scheduling.TurnPerforms | scheduler.cpp:107-130 | wheels, registry and services after a turn are as its acts leave them, but that a service that exits is gone from all of these |
| Scheduling.PopsEarliestDue | evtimer.hpp:91-98 | what expire takes out next is nothing if and only if nothing in the wheel's agenda is due, and otherwise the service of the earliest entry, which is due and leaves the agenda |
| Scheduling.LeavesNothingDue | scheduler.cpp:122-123 | the timer phase leaves a wheel if and only if nothing in its agenda is due |
| Scheduling.DueIsCalledBack | scheduler.cpp:107-123 | any callbacks: every timer due when the phase reaches its wheel, and that no turn sets anew before, is called back for that wheel |
| Scheduling.EarlyIsKept | scheduler.cpp:107-123 | any callbacks: a timer not due that no turn touches is not called back for, and stays pending |
| Scheduling.ReportKeeps | scheduler.cpp:97-105 | the ready list is the services registered for the reported descriptors, one by one; they are live and distinct |
| Scheduling.FireKeeps | scheduler.cpp:107-118 | the timer callback keeps the invariant although the service may be queued and may die |
| Scheduling.ExpireKeeps | scheduler.cpp:122-123 | a round of the timer phase keeps the invariant |
| Scheduling.DrainKeeps | scheduler.cpp:125-136 | a round of the ready loop resumes the first service, which is live, and moves it to those served |
| Scheduling.StepKeeps | scheduler.cpp:92-142 | every step keeps the invariant |
| Scheduling.RunKeeps | scheduler.cpp:92-142 | every run keeps the invariant |
| Scheduling.OnlyLiveServicesWait | scheduler.cpp:92-136 | in every reachable state, what is in the ready list, in a slot of a wheel or in the epoll registry has not been deleted |
| Scheduling.RegistryIsExact | scheduler.cpp:53-61 | in every reachable state, a descriptor is registered for a service if and only if that is live, the descriptor is its own, and its add succeeded, whoever made it and when |
| Scheduling.DeletedOnceAndForGood | scheduler.cpp:112-113 | a service is deleted at most once, exactly on a null transfer, and has no event afterwards, although it may have been queued |
| Scheduling.PassResumesReported | scheduler.cpp:92-136 | at epoll_wait the ready list is empty, and the pass has resumed each reported service once, in order, but for those that died in the timer phase |
| Scheduling.AtMostOneSlot | evtimer.hpp:82-83 | a service is in at most one slot of at most one wheel, whatever set_timer calls were made |
| Scheduling.TimeoutsMatchExpiries | scheduler.cpp:269-279 | every Timeout carries the wheel of the latest expiry; the expiries of a service are its Timeouts, plus one exactly when its only entry so far was by an expiry, which is then pending, or its first two entries were, the first of which is lost |
| Scheduling.WhenTimeoutsAreLost | scheduler.cpp:107-118 | a turn loses a Timeout exactly when the timer callback enters a service with an expiry still pending, and no service loses a second one |
| Scheduling.WhenTimeoutsAreThrown | scheduler.cpp:107-118 | an expiry throws its Timeout at once exactly when the service had been entered; a resumption throws one exactly when one is pending |
| LostTimeout.TimeoutIsLost | server.cpp:235 | a run from a fresh scheduler with the server's timer 0, at any time, that ends with two expiries and one Timeout |
| Scheduling.DelFindsNothing | scheduler.cpp:36-60 | del returns false in every reachable state |
| Scheduling.DelRemoves | scheduler.cpp:36-51 | were fdset filled, del would take the descriptor, and no other, out of it and epoll |
| Schedulers.NextShrinks | evtimer.hpp:91-101 | taking an expired service out brings the epoch nearer to now or shortens the first slot |
| Schedulers.FireSpares | scheduler.cpp:107-118 | a callback that only sets timers for a granule or more ahead leaves the wheel being served no fuller |
| Schedulers.PatientPassEnds | scheduler.cpp:120-123 | so for services that only do that, on wheels of two slots or more, the timer phase ends from every state |
| Schedulers.Scheduler.constructor | scheduler.cpp:17-21 | a new scheduler meets the invariant |
| Schedulers.Scheduler.AddTimer | scheduler.cpp:253-258 | the new timer's index, and every earlier timer kept -- emptied, when the vector had to move |
| Schedulers.Scheduler.CopiesAreEmpty | evtimer.hpp:49-56 | copied timers hold nothing, keep epoch, granule and slot count, and keep the invariant |
| Schedulers.Scheduler.GiveBack | server.cpp:62-67 | in place, the transfer back and what the scheduler does then |
| Schedulers.Scheduler.Resume | scheduler.cpp:129-130 | in place, one whole turn |
| Schedulers.Scheduler.TimerCallback | scheduler.cpp:107-118 | in place, the timer callback |
| Schedulers.Scheduler.PopNext | evtimer.hpp:91-97 | in place, expire's loops up to the next expired service: none if and only if nothing in the agenda is due, otherwise that of the earliest entry, which is due; the wheels are values here |
| Schedulers.Scheduler.ExpireOne | scheduler.cpp:122-123 | one callback of expire, whatever timers it sets, is a step of the step system; there is one exactly while something is due |
| Schedulers.Scheduler.ExpireTimer | scheduler.cpp:123 | expire of one timer with the scheduler's callback is a run of the step system, wherever it ends, and then nothing in that agenda is due |
| Schedulers.Scheduler.ExpireTimers | scheduler.cpp:120-123 | the timer phase is a run of the step system with the turns given, through all wheels in order |
| Schedulers.Scheduler.DrainOne | scheduler.cpp:125-136 | a round of the ready loop is a step, and the list gets shorter |
| Schedulers.Scheduler.DrainList | scheduler.cpp:125-136 | the ready phase is a run of the step system that empties the list |
| Schedulers.Scheduler.Collect | scheduler.cpp:97-105 | the report loop is the step system's report |
| Schedulers.Scheduler.RunPass | scheduler.cpp:92-137 | a pass of run whose timer phase ends is a run of the step system: it has called back every service whose timer was due and that no turn set anew, and has resumed every service registered for a reported descriptor once, in order, but for those that died in the timer phase; the list is empty |
| Pump.Codec.Deflate | gzip.cpp:90 | the codec: it consumes a prefix, fills at most the room, and gets on |
| Pump.Zlib.constructor | gzip.cpp:16-52 | empty buffers of the sizes asked for |
| Pump.Zlib.WriteCallback | gzip.cpp:214-223 | afterwards all the codec produced has been written |
| Pump.Zlib.Deflate | gzip.cpp:90 | a call of deflate keeps both ends transparent and all pointers in bounds |
| Pump.Zlib.PumpOnce | gzip.cpp:86-97 | the first half of the loop keeps the pump valid and gets on |
| Pump.Zlib.TakeMore | gzip.cpp:98-115 | the second half takes the next input that fits, in order |
| Pump.Zlib.Stuff | gzip.cpp:110-114 | bytes copied behind the pending ones are pending in order |
| Pump.Zlib.Compress | gzip.cpp:59-117 | all input is taken, for any buffer sizes; consumed input and pending input make up all that was put in; written output and pending output make up all the codec produced; terminates for any codec that gets on |
| Pump.Zlib.Finish | gzip.cpp:178-212 | the codec has consumed all that was put in and everything it produced is written; both remainders are empty |
| Pump.GzipCompress | gzip.cpp:233-260 | the text goes through one codec in order and without loss, however it is cut; an empty text aborts |
| Fields.ReturnsIffPassable | parse.hpp:45-57 | the tokenising loop returns if and only if no stop character stays unskipped, and then with the text's words |
| Fields.TokensInvertPrint | parse.hpp:45-57 | words printed with any separators are taken back apart |
| Fields.PrintInvertsTokens | parse.hpp:45-57 | any text is its words printed with its separators |
| Fields.TokensAreTheWords | parse.hpp:45-57 | a list is what the loop yields if and only if the text is that list of words with separators around them |
| Fields.FlatReturnsIffEolFree | parse.hpp:40-58 | the flat parse_fields returns if and only if its text has no CR or LF |
| Fields.ParseFields | parse.hpp:40-58 | the loop puts exactly the text's words, in order |
| Fields.FoldIsSameKey | utility.hpp:104-108 | two keys are one key to the map, neither less than the other, exactly when their C strings are equal ignoring case |
| Fields.ParsePair | parse.hpp:81-88 | one segment: cut at the first '=', the NUL left inside the stored key, an existing key's text kept |
| Fields.ParseToMap | parse.hpp:64-91 | the loop assigns the text's segments one after the other, and ends |
| Fields.PutMap | parse.hpp:113-118 | a map is appended unless its segment leaves it empty |
| Fields.ParseFieldMaps | parse.hpp:97-121 | the loop yields the maps of the text's segments, and ends |
| Fields.AssignSets | parse.hpp:81-88 | a new key gets its entry, found by the key in any case, with the value in full; a repeated key keeps its text and takes a new value if given one |
| Fields.ToMapInvertsPrint | parse.hpp:64-91 | a printed list of items, keys repeated or not, parses to the map with one entry for each key in any case, its text as first written and the last value given, whatever blanks and commas stand around them |
| Fields.DistinctItemsAreHeld | parse.hpp:81-88 | of keys distinct ignoring case, each keeps its own text and value |
| Fields.ToMapsInvertsPrint | parse.hpp:97-121 | a printed list of non-empty maps parses back to that list, whatever separators stand around maps and items |

## Left out

- Sockets, epoll_ctl, epoll_wait, clock_gettime and the retry loops of read_sock and write_sock: system calls. They appear as the peer behind the read callback, as the descriptors reported to a pass, as whether epoll accepted a registration, and as time parameters.
- Event masks (events.hpp) and the error flags kept per service: they decide what the kernel reports, and any report is allowed here.
- Context switching, stacks and the intrusive list's links: kept are what a transfer carries, who the caller is, and that a destroyed object leaves its lists.
- zlib itself, decompression and the return codes of inflate: the codec is an unknown that consumes, produces and gets on.
- HttpBuf::write (httpbuf.cpp:459-477): on short writes and on more than 2048 bytes it sends data again, so there is no exactly-once property to state.
- Response formatting, listening, logging and the keep-alive decision (server.cpp).
- A Timeout thrown through a read: the reader's operations are modelled for calls that return.
- Pipelined requests: the request loop's reset drops whatever of the next request has already arrived, which `ReceiveChunkedRequest` leaves in the buffer.
- Overflow of stream offsets, chunk sizes and seconds; except for hdr_epos, what read_body waits for, the 32-bit slot count, hash values and lengths converted to `short` and `int`, integers are mathematical.
- HttpBufs.HttpBuf.HaveEnd: the header is scanned on a stream that has not failed, as the request loop's reset leaves it; so are the header lines parsed.
- HttpBufs.HttpBuf.ContentLength: with several Content-Length fields the container returns any one of them.
- Messages.ReceiveChunkedRequest: the choice between this and `ReceiveRequest`, by the Transfer-Encoding field, is the caller's.
- TimerExpire.Expire: callbacks set timers; one that deletes another pending object is followed in the scheduler, `Scheduling.DoExpire`.
- EvTimers.EvTimer.Expire: for runs that end, as others have no result; `TimerExpire.ExpireServesAgenda` follows those too, up to any number of callbacks.
- Schedulers.Scheduler.RunPass: likewise; `Scheduling` follows every run step by step.
- TimerWheel.NoAbortAfterExpire: 1000 * secs_max fits 32 bits, as the source computes it there.
- EvTimers.EvTimer: the scheduler's wheels are held as values, as in its vector of EvTimer; the class shows the same operations in place in the circular array.
- Scheduling.DoAct: an act that no C++ program can perform -- a new service on an open descriptor, a timer for a deleted service -- is skipped.
- Scheduling.DoReport: epoll_wait reports a registered descriptor at most once; a pass without a report changes nothing, so timers run only in passes with one.
- Pump.Zlib.Finish: stated for compression, and once; calls after it use a codec that has ended.
- Pump.GzipCompress: for an empty text the source's finish calls inflate on a stream never initialised, which is taken to end in its assertion.
- Fields.ParseFields: the container is a list; the set containers hold the same words.
- Fields.ParseToMap: the map is the std::map ordered by s_caseless that the server uses; in a hashed map the NUL and value inside a stored key would count in its hash.
