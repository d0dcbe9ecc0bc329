# A verified model of tRPC

tRPC carries JSON-RPC 2.0 calls over one long-lived TCP stream with four-byte
big-endian length framing, on top of its own coroutine scheduler and JSON codec.
This project models the three hard cores of that program and composes them.

* **The JSON text layer** (`Json`, `Parser`, `CursorParser`, `Printer`, `NormalForm`,
  `Grammar`, `Language`, `Rejections`, `RoundTrip`, `Locality`): the lenient cursor parser, exactly as it
  branches, the language it takes, the printer, and what the two do to each other.
* **The connection** (`Framing`, `BestEffort`, `Attempts`, `Connection`, `Alignment`, `Draining`, `Runs`,
  `Matching`, `Overrun`, `WrongPlace`, `NulFreeText`, `ClientMachine`, `Rpc`, `RpcMachine`, `Server`,
  `ServerMachine`, `EndToEnd`, `CallMachine`, `Recovery`, `Traces`, `Deceit`, `HiddenWrite`, `Example`):
  the bounded retry loop, the drain state machine, the client protocol, the server loop, remote calls
  end to end, and concrete runs.
* **The scheduler** (`Coroutine`, `EventLoop`, `SchedulerMachine`, `Connect`): the
  resume/yield stack, context recycling, event registration and dispatch, and the back-off
  of `connect`.

Each core is written twice. Functions over values say what a step computes, and lemmas prove
properties of those functions, of their compositions and of whole runs. Classes with fields,
arrays and loops in the shape of the source (`Cursor`, `Stream`, `Socket`, `Health`, `Client`,
`Document`, `Server`, `Environment`, `PollConfig`) compute those functions, which their
`ensures` clauses say, so the lemmas hold of them too.

## What is not known in advance

A `Kernel` is any function from time to what happens to the attempt made then: how late the
loop is, what `poll` reports, how many bytes move, end of stream, `EINTR`, `EAGAIN` or an error.
A `World` adds the server's answers, dropped ones included, and the contents of uninitialised
buffers. A statement about a connection holds for every such kernel and world; that is
where late, short, cut off and lost responses come from. A duplicate event registration, for which
`co::read` and `co::write` return 0, looks like the end of the stream to the retry loop, and
is modelled as such.

On a *steady* kernel (`Attempts.Steady`) attempts may be interrupted, unavailable, silent or short, but
none is late, fails or ends the stream, and among any number of attempts in a row as large as the limit on
retries one is prompt. There every transfer gets through (`SteadyRun`). A server's kernel is *attentive*
(`Server.Attentive`) when it is steady and no wait for a first byte is silent or late.

A step to which C++ gives no meaning (a read past the memory, an `int` that overflows, an
exponent past its table) is a result of its own, `Undefined`. A content drain that runs past
its buffer marks the client `corrupt`, and nothing is promised about it from there on.

## Where code and design part

The design says that a client notes how much of an abandoned response it read and drains the
rest before its next request, so that it always knows where it stands. The code departs from it
in three places. None is repaired here.

* A drain that completes a header reads its last bytes into the *start* of its buffer, where
  the first bytes are missing (trpc/detail/Health.h:80-82, 110). The length it then goes by is
  right for every header exactly when no byte of it was read before (`SplitHeaderExactly`). A check
  keeps the client's place exactly when every header it completes gives the true length or one too
  large to be believed, or the check ends the connection (`CheckAlignedExactly`).
  Some kernel and stale buffer make a check pass in the wrong place exactly for some headers
  (`CheckMisplacesExactly`): for replies of less than 2^16 bytes, those whose length is a multiple of 256
  (`MultiplesOf256Mislead`), even when no byte of the header was read before the check, which can itself
  be given it in pieces. `SplitHeaderReached` is a run from a fresh client that passes its check in the
  wrong place.
* The retry loop returns -1 when it fails after progress (trpc/detail/bestEffort.h:44-46, 54,
  73-74), so its caller believes that nothing moved. `ProgressCanHide` says for which sizes,
  timeouts and retry limits a kernel can do that. A failed request on a socket left open leaves
  whole frames exactly when its header write did not (`WriteAlignmentExactly`), and so over every run an
  open client has written whole frames at every call boundary exactly when no header write hid its
  progress, whatever happens on the reading side (`EveryBoundaryIsWhole`). After reading a response the
  client is aligned exactly when neither its header read nor its content read did
  (`ReplyAligned`). `WritesCanMisalign` and `ReadsCanMisalign` say when a kernel can make it happen.
* A content drain asks for all that is left, whatever its buffer holds
  (trpc/detail/Health.h:92); only the header path checks. Some kernel makes a check overrun exactly when
  the client has noted a content of which more than the buffer is left, and has arrived
  (`CheckOverrunsExactly`); a fresh client gets there with any reply between the two buffer sizes
  (`OverrunReached`). Replies of at most 4096 bytes never lead there, over any run (`ShortRunIsSafe`,
  `ShortRunIsClean`).

Losing its place need not make a client hand out a wrong response. If replies are texts, what it
reads as a length in the wrong place is text, too large for any buffer, and the client closes or
gives the connection up. So responses match their requests over every run with headers split and
reads hidden as they may be (`EveryResponseIsOwn`, `EveryResponseMatches`); what remains to ask for is
that header writes hide no progress, that no drain overruns, and that no string in a reply holds a NUL.
Where replies fit 4096 bytes the second need not be asked for (`EveryShortResponseIsOwn`,
`EveryShortResponseMatches`). The other two are needed:

* `NulsDeceive` has a method that returns a string holding the bytes of a header, and a run that meets
  every other hypothesis of `EveryResponseMatches`, in which the second call is handed part of the
  first response.
* When one zero byte of a header goes out unnoticed, the server reads the next short request as a frame
  without content. It decodes what its buffer still holds, an earlier request (`EmptyFrameRepeats`), and
  answers that again. In a world where it does (`RepeatingMeets`, `AdderRepeats`) the third caller is handed
  the first caller's result, under the first caller's id (`SomebodyElsesResult`).

Three more places where the code and its own text differ: the first delay of `connect` is
2048 ms and not the second that base/co/posix.h:196 announces (`FirstDelay`); a bare integer does
not parse, because `parseInteger` demands a character after it (`BareIntegerNeverParses`); and
`addEvent` fills a slot only for a new entry, so a coroutine that waits for a second kind of event on a
descriptor is never resumed (`LostExactly`, and `SharedDescriptorLoses` for a run that gets there).

The server reads a frame into a buffer of 16 KiB without looking at its length, and the client puts
no limit on a request. The end-to-end results therefore ask of every request that it fits
(`Askable`), and nothing is said of a server that is sent a larger one (`Serves`). Every stream the
client then writes is one the server's loop is made for (`EveryRunFeeds`), and that loop supplies
the very replies the client reads (`EveryRunIsServed`, `SessionIsServed`).

The parser takes more than JSON. `ParsesExactly` says what: a lenient grammar in which a word counts by its
first letter, a value may be missing, a minus may stand alone and a decimal may have blanks around its
point. `ArrayThrowsExactly` and `ObjectThrowsExactly` say which arrays and objects it refuses.

`Example` shows that the hypotheses can be met: a session on a kernel that interrupts or disappoints every
other attempt, and a run in which a reply comes too late, is drained piece by piece by the next call, and
that call is answered.

## Model

| member | source | states |
|---|---|---|
| EndToEnd.EveryResponseMatches | trpc/Client.h:120-196 | over every run of calls on every kernel, headers split and reads hidden as they may be, every response that arrives is the one made for that very request: it carries its id, which is never compared, and decodes to what the method makes of the arguments; asked for are requests that fit the server's buffer, header writes that hide no progress, drains within their buffer and responses without a NUL |
| EndToEnd.EveryShortResponseMatches | trpc/Client.h:120-196 | the same in a caller's terms: where responses hold no NUL and fit 4096 bytes, nothing else is asked for but header writes that hide no progress |
| EndToEnd.AllShortIsSafe | trpc/Client.h:120-196 | over every such run every call's transfers are safe, drains included |
| EndToEnd.EveryCleanResponseMatches | trpc/Client.h:120-196 | every response is this very request's too when responses hold any bytes, over runs of clean calls, in which the client never loses its place |
| EndToEnd.LooseCall | trpc/Client.h:120-196 | one call of a client that may have lost its place: a response is its own, and the weaker invariant is kept |
| EndToEnd.EveryCallGives | trpc/detail/CallProxy.h:20-43 | on a steady kernel every call of a session of any length, whose requests fit the server's buffer and responses the client's, hands out the converted result of the method, or nothing when the method is unknown, the arity wrong or something threw |
| EndToEnd.RemoteCall | trpc/Client.h:120-196 | one call, with a request that fits the server's buffer, from any aligned client whose check is clean, drains included, on any kernel: a response gives the expected result and carries the request's id |
| EndToEnd.BoundCallGives | trpc/Client.h:120-196 | one call, after whatever happened before, of a bound method with arguments of its types: a response gives what that method returns for those very arguments, in that order |
| EndToEnd.BoundMethodRuns | trpc/detail/CallProxy.h:20-43 | a bound method is handed the arguments of the call, converted, each at its own place; of its own types, those very arguments |
| EndToEnd.ExpectedIsPromised | trpc/detail/resolve.h:65-76 | what a caller is promised is the result of that method for those arguments, converted |
| EndToEnd.CallSucceeds | trpc/Client.h:120-196 | on a steady kernel, interruptions, silence and short transfers included, an accepted call whose request and response fit their buffers yields and leaves the client ready for the next |
| EndToEnd.CallHandsOver | trpc/Client.h:120-196 | on a steady kernel such a call hands over the expected result with its own id, in one statement |
| EndToEnd.ServerFillsInbound | trpc/Server.h:266-333 | what the server loop writes when fed with what the client wrote is always a prefix of the stream the client reads from, and all of it on an attentive kernel of the server's |
| EndToEnd.EveryRunFeeds | trpc/Server.h:266-333 | over every run of calls on every kernel, what the client has written is a stream the server's loop is made for: whole requests that fit its buffer, the cut one at the end included |
| EndToEnd.EveryRunIsServed | trpc/Server.h:266-333 | so over every run the server's loop, fed with that stream on any kernel of its own, has written a prefix of the replies the client reads from, and all of them on an attentive one |
| EndToEnd.SessionIsServed | trpc/Server.h:266-333 | the same for every session on a steady kernel |
| EndToEnd.RequestFeeds | trpc/Client.h:139-150 | a request, written in full or cut short, keeps the stream one the server is made for |
| EndToEnd.RequestDecoded | trpc/Server.h:296-305 | the server decodes the very request object that was built, which fits its buffer, and answers it unless a callback drops it |
| EndToEnd.ResponseDecoded | trpc/detail/resolve.h:65-76 | the client decodes the very response object that was built, whatever its buffer holds behind it |
| EndToEnd.ResponseIsText | trpc/detail/Codec.h:74-80 | a response whose strings hold no NUL goes out as a text that starts with a brace |
| EndToEnd.AnswerKeepsInv | trpc/Client.h:139-192 | a call that yields a response hid no progress, so it keeps the stream aligned |
| CallMachine.CallRemote | trpc/Client.h:120-196 | the imperative call, of a client that is aligned with a clean check or has lost its place with safe transfers: an answer is the expected result and the respective invariant is kept; on a steady kernel there is an answer |
| Runs.EveryRunMatches | trpc/Client.h:120-196 | over every run of raw payloads whose checks are clean and transfers hide no progress, each response starts with the server's answer to that call's frame, the n-th of the stream, and the alignment invariant holds at every call boundary |
| Runs.EveryBoundaryIsWhole | trpc/Client.h:120-150 | over every run on every kernel, whatever is read: an open client has written whole requests at every call boundary if and only if no header write hid its progress |
| Runs.CallWritesWhole | trpc/Client.h:120-150 | the same for one call |
| Runs.EveryRequestHasItsId | trpc/Client.h:128-137 | over every run no two requests carry the same id, whatever became of them |
| Runs.CallTakesToken | trpc/Client.h:124-132 | a call takes a token if and only if its check passes; one that does not writes nothing |
| Runs.CallAligned | trpc/Client.h:120-196 | one clean call keeps the invariant and yields nothing but the reply to its own request |
| Runs.ExchangeAligned | trpc/Client.h:139-184 | the same for the write and read part of a call |
| Runs.DeadForever | trpc/detail/Health.h:55-99 | once the socket is closed or the health undefined, every later call yields nothing and neither writes nor reads a byte |
| Runs.CheckFailsClosed | trpc/detail/Health.h:55-99 | a check passes only on an open socket with nothing left to drain, in at most five reads each of which took something, and writes nothing |
| Runs.DrainAdvances | trpc/detail/Health.h:107-121 | every drain read strictly shortens the stage it is in, moves on to the next, or ends the connection |
| Draining.CheckEndsExactly | trpc/detail/Health.h:55-121 | a check makes the health undefined if and only if, in one of its five rounds, a read moves nothing or completes a header that announces more than the buffer holds |
| Draining.ContentCheckExactly | trpc/detail/Health.h:75-97 | a check of an abandoned content that has arrived passes if and only if at most four reads, each of which moves something, bring all that is left; and ends the connection if and only if one of five comes before that and moves nothing |
| Runs.SplitGoesUnnoticedExactly | trpc/detail/Health.h:80-88 | some stale buffer makes that length wrong yet believable if and only if the header was split and its last bytes alone are small enough |
| Runs.SplitHeaderExactly | trpc/detail/Health.h:80-82 | that length is right for every header and every stale buffer if and only if nothing of the header was read before |
| Runs.WritesCanMisalign | trpc/Client.h:140-143 | from whole frames some kernel makes a request fail, leave socket and health as they are, and leave a cut header on the wire, if and only if the timeout is not negative |
| Runs.ReadsCanMisalign | trpc/Client.h:155-184 | with a request outstanding some kernel makes the client lose its place in the replies if and only if there is a reply and the timeout is not negative |
| Runs.DrainOverrunsExactly | trpc/detail/Health.h:91-93 | one round of a drain in a content: some kernel makes it run past its buffer if and only if more is left of the content, and has arrived, than the buffer holds |
| Overrun.CheckOverrunsExactly | trpc/detail/Health.h:55-121 | a whole check: some kernel makes it overrun its buffer if and only if the client's own fields note a content of which more than the buffer is left, and that much has arrived |
| Overrun.EveryShortResponseIsOwn | trpc/Client.h:120-196 | over every run on every kernel with replies that are texts of at most 4096 bytes, asking for clean header writes and nothing else, every response is the reply to its own request |
| Overrun.ShortRunIsSafe | trpc/Client.h:120-196 | over such a run no check overruns, so every call is safe |
| Overrun.ShortCallIsSafe | trpc/Client.h:120-196 | one such call from a client that may have lost its place overruns nothing and leaves a client whose next check cannot overrun either |
| Overrun.ShortRunIsClean | trpc/Client.h:120-196 | with replies of at most 4096 bytes, of any kind, a run with sound headers and no hidden progress is clean: no check of it overruns |
| WrongPlace.CheckMisplacesExactly | trpc/detail/Health.h:55-121 | some kernel and some stale buffer make the check of an aligned client that has abandoned a header pass in the wrong place if and only if a reply that is not empty is outstanding whose header, with as many of its bytes read before, can mislead |
| WrongPlace.MultiplesOf256Mislead | trpc/detail/Health.h:80-88 | for replies of less than 2^16 bytes a header can mislead, however many of its bytes were read before, if and only if the length is a multiple of 256 |
| Matching.EveryResponseIsOwn | trpc/Client.h:120-196 | over every run on every kernel, with replies that are texts, safe header writes and no overrun: every response is the reply to its own request, even after the client has lost its place |
| Matching.CallMatches | trpc/Client.h:120-196 | one call keeps the weaker invariant and hands out nothing but the reply to its own request |
| Matching.CheckLoose | trpc/detail/Health.h:55-99 | a check without overruns keeps the weaker invariant: in front of the next reply lies nothing, or the end of an earlier one from its third byte on |
| Matching.HeaderStepLoose | trpc/detail/Health.h:79-89 | so does a drain step in a header, split or not: a piece that starts in old text gives no length to believe |
| Matching.ContentStepLoose | trpc/detail/Health.h:91-93 | and one in a content, whatever length it goes by |
| Matching.TailCloses | trpc/Client.h:159-178 | a client that reads old text where a header should be closes |
| Matching.ReplyLoose | trpc/Client.h:155-184 | reading a reply, in full or not, from the right place or not, hands out that reply only |
| Matching.AlignedIsLoose | trpc/detail/Health.h:55-121 | every aligned client meets the weaker invariant, when the reply it has not fully read is a text |
| NulFreeText.DumpNulFree | base/vsjson/Json.h:165-216 | a value without a NUL in its strings and keys is printed without one |
| Alignment.CheckAligned | trpc/detail/Health.h:55-99 | a clean check keeps the invariant, and one that passes has not overrun its buffer |
| Alignment.CheckAlignedExactly | trpc/detail/Health.h:55-99 | unless a drain overruns, a check keeps the invariant if and only if every header it completes gives the reply's own length or one too large to be believed, or it ends the connection |
| Alignment.CheckLoopAligned | trpc/detail/Health.h:75-97 | the same for every number of rounds of its loop: once misled there is no way back |
| Alignment.DrainStepAligned | trpc/detail/Health.h:76-93 | one round leaves the client where it believes to stand if and only if a header it completes gives the reply's own length or one too large to be believed |
| Alignment.WholeHeaderIsSound | trpc/detail/Health.h:80-82 | a header of which nothing was read before is sound, drained whole or in part |
| Alignment.SplitDrain | trpc/detail/Health.h:79-89 | the length a drain goes by after completing a header is that of the header's last bytes followed by stale ones |
| Alignment.WriteAlignmentExactly | trpc/Client.h:139-150 | a written request appends exactly its frame; one that fails on a socket left open leaves whole frames if and only if the header write did not hide its progress, and then moved no byte |
| Alignment.RequestAmount | trpc/Client.h:139-150 | a successful request moves its whole frame, a failed one on an open socket less than a header |
| Alignment.RequestClosesExactly | trpc/Client.h:139-150 | the client closes over a failed request if and only if part of it is out and the client knows |
| Alignment.RequestOnWire | trpc/Client.h:139-150 | whatever the two writes do, what goes out is a prefix of the frame |
| Alignment.ReplyAligned | trpc/Client.h:155-184 | reading a reply keeps the invariant if and only if neither its header read nor its content read hides its progress, and hands out that reply only |
| Alignment.ReplyClosesExactly | trpc/Client.h:159-178 | it closes over a reply if and only if its header was read whole and it is longer than 16380 bytes |
| Alignment.ReplyHeaderRead | trpc/Client.h:159-164 | the header read is that of the reply to the last request |
| Alignment.ContentAligned | trpc/Client.h:181-184 | what is noted about a content not read in full is right if and only if its read did not hide its progress, and a content handed out is the reply's own |
| Connection.Check | trpc/detail/Health.h:55-99 | a check writes nothing, changes nothing but health and position, and passes only in NO_READ on a valid socket |
| Connection.WriteRequest | trpc/Client.h:139-150 | a request takes nothing from the inbound stream and closes the socket only when it fails |
| Connection.ReadResponse | trpc/Client.h:155-184 | reading a response writes nothing and leaves a well-formed health behind |
| Connection.InboundGrows | trpc/Server.h:268-332 | writing more requests never takes back replies |
| BestEffort.RunAccounts | trpc/detail/bestEffort.h:36-91 | for every kernel a result other than -1 counts exactly the bytes moved, at most all of them, in at most `maxRetries` attempts whose waits add up to at most the timeout |
| BestEffort.RunAllOrLess | trpc/detail/bestEffort.h:79-82 | moving everything is reported as such |
| BestEffort.ProgressCanHide | trpc/detail/bestEffort.h:44-74 | some kernel makes the loop return -1 after moving bytes if and only if two bytes are wanted, one is there, two attempts are allowed and the timeout is not negative |
| BestEffort.FaultFreeRun | trpc/detail/bestEffort.h:36-91 | without faults the first attempt moves everything |
| BestEffort.SilentRun | trpc/detail/bestEffort.h:42-91 | a transfer that meets nothing but silence, from the start or after its first attempt, returns -1 or what that attempt moved, after all its attempts |
| Attempts.RunExactly | trpc/detail/bestEffort.h:36-91 | every transfer on every kernel: after interrupted, unavailable, silent and short attempts there is another, what they move adds up, and the first attempt that completes, fails, comes late or ends the stream, or the last one, decides what is returned, moved and counted |
| Attempts.RunSucceedsExactly | trpc/detail/bestEffort.h:36-91 | a transfer succeeds if and only if all of it is there and some number of attempts within the limit moves it before one fails, comes late or ends the stream |
| Attempts.IdleThenPrompt | trpc/detail/bestEffort.h:42-72 | attempts that are interrupted, unavailable or silent, fewer than the limit and followed by a prompt one, end with everything moved, and the clock counts each |
| Attempts.SteadyRun | trpc/detail/bestEffort.h:36-91 | on a steady kernel every transfer gets through within the limit |
| Attempts.RunWaitsExactly | trpc/detail/bestEffort.h:41-55 | the waits asked for are one interval for each attempt that is in time |
| BestEffort.PendingIsOneAttempt | trpc/Server.h:357-371 | what that loop comes to: pending succeeds if and only if its one attempt is in time and its poll reports something |
| BestEffort.Socket.BestEffort | trpc/detail/bestEffort.h:36-91 | the loop with its buffer and offset: exactly the bytes counted went through, in order, and nothing else changed |
| BestEffort.Socket.Attempt | trpc/detail/bestEffort.h:42-82 | one round of that loop |
| BestEffort.Socket.Move | trpc/detail/bestEffort.h:57-57 | the bytes of one transfer, one by one |
| BestEffort.ThroughComposes | trpc/detail/bestEffort.h:57-79 | two transfers in a row put their bytes side by side |
| Framing.HeaderRoundTrip | trpc/detail/Codec.h:44-49 | reading back a printed length gives the length |
| Framing.StreamFrames | trpc/detail/Codec.h:74-80 | framed payloads glued together split into the payloads |
| Framing.FramesAppend | trpc/detail/Codec.h:44-54 | splitting a stream does not depend on where it is cut in two |
| Framing.PartAppended | trpc/detail/Codec.h:44-54 | a cut frame adds no frame, and shows |
| Server.ServeRefines | trpc/Server.h:266-333 | for every chunking of well-formed frames that fit the buffer, and every kernel, what the loop has written is a prefix of the framed answers in request order; and exactly the answers to the frames received, unless a write failed |
| Server.SteadyAnswersAll | trpc/Server.h:266-333 | on an attentive kernel it is all the answers |
| Server.RoundRefines | trpc/Server.h:268-332 | one round answers exactly the frame it received and never throws |
| Server.ReceivesNext | trpc/Server.h:272-288 | what is received is the next frame of the stream; when nothing is, no whole frame was taken |
| Server.SendFrames | trpc/Server.h:325-330 | what is sent is a prefix of one frame, all of it on success |
| Server.ReceivesAll | trpc/Server.h:272-288 | on an attentive kernel the loop stops receiving only when no whole frame is left |
| Server.ReceivesExactly | trpc/Server.h:272-288 | a frame is received if and only if its first byte comes within the pending time and then its header and its content each within the timeout and six attempts |
| Server.IdlePeerStops | trpc/Server.h:272-274 | a peer from which nothing comes in time ends the loop at once, with nothing read and nothing more written |
| Server.NextFits | trpc/Server.h:278-286 | at a frame boundary the length announced fits the buffer |
| ServerMachine.Server.OnAccept | trpc/Server.h:266-333 | the loop over one reused buffer computes the specified loop, stale bytes and all |
| ServerMachine.Server.Round | trpc/Server.h:268-332 | one round of it |
| ServerMachine.Server.Receive | trpc/Server.h:269-288 | header and content end up at the front of the buffer |
| ServerMachine.Server.Decode | trpc/detail/Codec.h:56-58 | decoding parses the memory behind the header, ignoring the length, and gives the value of the content alone whenever that is a container |
| ServerMachine.Server.Answer | trpc/Server.h:296-325 | callbacks, dispatch and response of one request |
| ServerMachine.Server.Send | trpc/Server.h:327-330 | header, then content |
| ServerMachine.Server.Bind | trpc/Server.h:155-158 | binding overwrites one entry of the table with the function and its parameter types |
| ServerMachine.Server.BestEffortPending | trpc/Server.h:357-371 | the retry loop with one attempt and a transfer that always reports its one byte; it moves nothing |
| Rpc.ResponseShape | trpc/Server.h:302-319 | every response keeps id and version and has exactly one of result and error and nothing else; the code is decided by what was thrown |
| Rpc.ReportErrorFields | trpc/detail/Codec.h:60-72 | reporting an error removes the result, leaves the other fields, and omits an empty message |
| Rpc.ResultOfResponse | trpc/detail/resolve.h:65-76 | a value is extracted only from a response without an error, and it is the converted result |
| Rpc.AcceptAllExactly | trpc/detail/CallProxy.h:32-43 | arguments go by position: all convert if and only if each does, and the i-th result is what the i-th parameter makes of the i-th argument |
| Rpc.ConvertExactly | trpc/detail/CallProxy.h:39-43 | a conversion leaves a value of the type asked for unchanged, makes of one number another of the same amount or its truth, and of nothing else anything |
| Rpc.FailureCodes | trpc/Server.h:256-319 | a call of no such method is answered with -32601, one with another number of arguments with -32602, one with an argument of the wrong type with -32603, each with its message |
| Rpc.ThrownCodes | trpc/Server.h:311-319 | a method that throws is answered with its own code and message, -32700 or -32603 |
| Rpc.RequestFields | trpc/detail/resolve.h:33-45 | the fields of a request, sorted |
| Rpc.RequestPortable | trpc/detail/resolve.h:33-45 | a request with portable arguments survives text |
| Rpc.ResponsePortable | trpc/Server.h:302-325 | so does every response, error responses included |
| RpcMachine.Document.Request | trpc/detail/resolve.h:33-54 | the request built in place, its parameters appended one by one |
| RpcMachine.Document.Empty | trpc/detail/resolve.h:56-63 | the empty response built in place |
| RpcMachine.Document.ReportError | trpc/detail/Codec.h:60-72 | erasing the result and editing the error object in place |
| RpcMachine.Document.FillResult | trpc/detail/Codec.h:89-91 | writing the result in place |
| RpcMachine.Unpack | trpc/detail/CallProxy.h:32-43 | converting arguments one by one gives all conversions or fails with the first that cannot be done |
| RpcMachine.Dispatch | trpc/Server.h:256-264 | lookup, arity, conversion and call, each with its own error |
| ClientMachine.Client.Call | trpc/Client.h:120-184 | the object with its socket, health and token does what the call on values does |
| ClientMachine.Client.WriteRequest | trpc/Client.h:139-150 | the same for the two writes |
| ClientMachine.Client.ReadResponse | trpc/Client.h:152-184 | the same for the two reads into a stack buffer |
| ClientMachine.Client.ReadContent | trpc/Client.h:181-184 | the same for the second read |
| ClientMachine.Client.BestEffortRead | trpc/Client.h:159-159 | a read stores the next inbound bytes at its place in the buffer and moves nothing else |
| ClientMachine.Client.BestEffortWrite | trpc/Client.h:140-140 | a write appends the next bytes and moves nothing else |
| ClientMachine.Health.Check | trpc/detail/Health.h:55-99 | the countdown loop over the object's fields and its uninitialised buffer |
| ClientMachine.Health.Step | trpc/detail/Health.h:76-96 | one round of its switch |
| ClientMachine.Health.StateMachine | trpc/detail/Health.h:107-121 | one non-blocking read into the start of the buffer |
| ClientMachine.Health.Set | trpc/detail/Health.h:101-105 | the three fields |
| Locality.DecodeIgnoresStaleBytes | trpc/detail/Codec.h:56-58 | a message whose value is a container decodes the same whatever follows it in memory |
| Locality.ParseContainerLocal | base/vsjson/Parser.h:110-167 | a container parsed from k characters is parsed from every input that shares them |
| Locality.ParseValueLocal | base/vsjson/Parser.h:45-203 | so is every value once the character behind it is shared too |
| RoundTrip.BlanksDoNotMatter | base/vsjson/Parser.h:45-203 | the tokens of a dump, with any blanks between them and anything behind, parse back to the value printed and not past its last character |
| RoundTrip.EveryLayoutParses | base/vsjson/Parser.h:45-203 | every text of the grammar but a bare integer parses to its meaning |
| RoundTrip.DumpParsesBack | base/vsjson/Json.h:165-216 | parsing undoes printing |
| RoundTrip.RoundTripExactlyNormal | base/vsjson/Json.h:165-216 | a decimal-free value survives printing and parsing if and only if it is normal and not a bare integer |
| RoundTrip.BareIntegerNeverParses | base/vsjson/Parser.h:190-203 | a bare integer never parses |
| RoundTrip.ParsedPrintsBack | base/vsjson/Parser.h:26-32 | whatever was parsed can be printed and parsed again |
| RoundTrip.DumpIsInjective | base/vsjson/Json.h:194-220 | different values print differently |
| RoundTrip.CanonicalIsDump | base/vsjson/Json.h:194-216 | a dump is the layout without blanks |
| RoundTrip.LastDuplicateWins | base/vsjson/Parser.h:118-139 | a parsed object is strictly sorted and of members with one key the last counts |
| Language.ParsesExactly | base/vsjson/Parser.h:45-251 | the parser takes exactly the lenient grammar: a value and a cursor within the memory come out if and only if the text of one of its trees lies there, the value is its meaning and the cursor is behind it |
| Rejections.ArrayThrowsExactly | base/vsjson/Parser.h:143-167 | an array makes the parser throw if and only if, behind some items and their commas, lies a value that throws or one followed by neither a comma nor the bracket |
| Rejections.ObjectThrowsExactly | base/vsjson/Parser.h:110-141 | an object makes it throw if and only if, behind some members and their commas, there is no key, a key without its colon, a value that throws, or one followed by neither a comma nor the bracket |
| Rejections.KeyThrowsExactly | base/vsjson/Parser.h:122-129 | a key throws if and only if it begins with no quote or has no colon behind it |
| Rejections.ThrowStays | base/vsjson/Parser.h:45-203 | what makes the parser throw makes it throw whatever is appended: it never takes the end of the memory for an error |
| Rejections.CutIntegerThrows | base/vsjson/Parser.h:190-203 | an integer followed by nothing but blanks up to a NUL throws |
| Rejections.OverflowIsUndefined | base/vsjson/Parser.h:190-203 | digits that make no `int` have no meaning, whatever follows |
| Grammar.ValueParses | base/vsjson/Parser.h:45-84 | wherever a text of the lenient grammar lies in memory it parses to its meaning and the cursor stops behind it, unless what follows is read as part of it |
| Grammar.ObjectParses | base/vsjson/Parser.h:110-141 | the object case of it |
| Grammar.ArrayParses | base/vsjson/Parser.h:143-167 | the array case |
| Grammar.StringParses | base/vsjson/Parser.h:169-188 | the string case |
| Grammar.IntegerParses | base/vsjson/Parser.h:190-203 | the integer case |
| NormalForm.ParsedIsNormal | base/vsjson/Parser.h:45-203 | whatever parses has escape-closed strings and keys, strictly sorted keys and integers in range |
| NormalForm.StringBodyIsClosed | base/vsjson/Parser.h:176-187 | the body a string parse keeps has no open escape and no bare quote |
| Parser.ParseValue | base/vsjson/Parser.h:45-84 | the parser ends on every memory and never moves back; a container ends within the memory |
| Parser.ParseObject | base/vsjson/Parser.h:110-141 | an object moves the cursor on, within the memory |
| Parser.ParseArray | base/vsjson/Parser.h:143-167 | so does an array |
| Parser.ParseNumber | base/vsjson/Parser.h:86-108 | a number stops inside the memory and is no container |
| Parser.ParseString | base/vsjson/Parser.h:169-188 | a string moves the cursor on, within the memory |
| CursorParser.Cursor.ParseValue | base/vsjson/Parser.h:45-84 | the parser with one shared cursor computes the specified value and cursor |
| CursorParser.Cursor.ParseObject | base/vsjson/Parser.h:110-141 | its object loop, filled in place |
| CursorParser.Cursor.ParseArray | base/vsjson/Parser.h:143-167 | its array loop, filled in place |
| CursorParser.Cursor.ParseString | base/vsjson/Parser.h:169-188 | its string loop |
| CursorParser.Cursor.ParseInteger | base/vsjson/Parser.h:190-203 | its digit loop |
| CursorParser.Cursor.ParseNumber | base/vsjson/Parser.h:86-108 | its number branches |
| CursorParser.Cursor.SkipSpace | base/vsjson/Parser.h:40-43 | its blank loop |
| Printer.Stream.Print | base/vsjson/internal/TypeCompat.h:13-45 | printing a value appends its dump |
| Printer.Stream.PrintElems | base/vsjson/Json.h:194-204 | the array loop with its separators |
| Printer.Stream.PrintMembers | base/vsjson/Json.h:206-216 | the object loop with its separators |
| Json.PutIsMapUpdate | base/vsjson/Json.h:132-134 | assigning through an index keeps keys sorted and is a map update |
| Json.LessExactly | base/vsjson/JsonValue.h:10-10 | keys are in dictionary order: up to some place they agree, and there the smaller one ends or has the smaller character |
| Json.EraseIsMapRemoval | trpc/detail/Codec.h:61-64 | erasing is a map removal |
| Example.CallWorks | trpc/detail/CallProxy.h:20-43 | a concrete call meets what the results for steady kernels ask of it |
| Example.UnevenMeetsAll | trpc/Client.h:120-196 | a concrete world on a kernel that interrupts or disappoints every other attempt, a client that has just connected and a session of two calls meet all hypotheses of the results for steady kernels |
| Example.LateRun | trpc/detail/Health.h:55-99 | so does, for the run theorems, a concrete run whose first call abandons its reply, which then comes in pieces |
| Recovery.RunRecovers | trpc/detail/Health.h:55-121 | such a run is safe and clean, and its second call drains the reply and hands over its own |
| Recovery.CallRecovers | trpc/detail/Health.h:55-121 | after any abandoned reply that fits the drain's buffer and whose header was not split: when at most four reads, each of which moves something, bring what is left, and the kernel is steady after that, the next call hands over what was expected |
| Recovery.CheckDrains | trpc/detail/Health.h:55-99 | on every such kernel the check drains all that is left, cleanly, and leaves the client ready |
| Recovery.CheckDrainsExactly | trpc/detail/Health.h:55-99 | of an abandoned content on no other kernel; and whether it passes or not the client keeps its place |
| Traces.SplitHeaderReached | trpc/detail/Health.h:79-89 | in every world of a family, a fresh client abandons its first reply with a split header and is aligned; its next check goes by whatever length the stale buffer makes of the header and passes inside the reply |
| Traces.SplitsExist | trpc/detail/Health.h:79-89 | such worlds exist for every request, every reply of 256 bytes and every shorter length to be believed |
| Traces.OverrunReached | trpc/detail/Health.h:91-93 | in every world of another family, a fresh client abandons a content, cleanly and aligned, and the check of its next call runs past its buffer |
| Traces.OverrunsExist | trpc/Client.h:152-184 | such worlds exist for every request and every reply of 4097 to 16380 bytes |
| Traces.WrongBytesReached | trpc/Client.h:155-192 | when the split reply holds bytes that read as a header where the client is led, the second call hands out part of the first reply, with safe transfers in both calls |
| Deceit.NulsDeceive | trpc/Client.h:120-196 | a server with a real method, whose result holds a NUL, and a run of two calls that meets every hypothesis of `EveryResponseMatches` but the one on NULs, for which it fails |
| HiddenWrite.SomebodyElsesResult | trpc/Client.h:139-150 | for every service and any three requests, the last one short: when the second header write hides one byte and the server repeats its answer to a frame without content, the third call is handed the first one's result under the first one's id |
| HiddenWrite.FirstReplyHandedOutAgain | trpc/Client.h:139-150 | that run in bytes, of any payloads |
| HiddenWrite.RepeatingMeets | trpc/Server.h:284-296 | such a world exists for every service and every first call it answers |
| HiddenWrite.AdderRepeats | trpc/Client.h:139-150 | a service that adds two integers, asked three times, meets all that run asks for |
| HiddenWrite.EmptyFrameRepeats | trpc/Server.h:284-296 | after a frame without content what is decoded is the request still in the buffer, whatever lies behind it |
| HiddenWrite.GarbledFrames | trpc/Server.h:278-286 | a request, one zero byte and a request of less than 256 bytes read as that first request and a frame without content |
| Traces.FirstCallGivesUp | trpc/Client.h:155-162 | a first call whose reply stops short notes exactly what it read |
| Example.RequestSize | trpc/detail/resolve.h:33-45 | how long a request is at most, from the length of what is passed |
| Coroutine.StepKeeps | base/co/Coroutine.h:170-214 | every step keeps the invariant, also while an ending coroutine executes on a context already up for reuse |
| Coroutine.EveryRunOwnsOnce | base/co/Coroutine.h:141-214 | over every run main stays at the bottom, no context has two owners or is both owned and recycled, and the processor is never on a context of anyone but the current coroutine |
| Coroutine.WellBracketed | base/co/Coroutine.h:170-199 | when control comes back from a resume, after any nesting, the stack is what it was and the processor is on the context it left |
| Coroutine.RunBelow | base/co/Coroutine.h:170-199 | as long as control stays above them, the lowest coroutines and their contexts do not change |
| Coroutine.RunAges | base/co/Coroutine.h:170-178 | a coroutine goes only from fresh to running to ended, and an ended one never changes again |
| Coroutine.HighWaterMark | base/co/Coroutine.h:141-148 | while at most 255 coroutines run at once, exactly as many contexts are allocated besides main's as ran at the peak |
| Coroutine.StepTidy | base/co/Coroutine.h:170-214 | every step keeps the account of contexts: with main, with a running coroutine, or recycled |
| Coroutine.EndedContextIsNext | base/co/Coroutine.h:141-214 | the context of a coroutine that has ended and left is the one the next coroutine started executes on, and nothing is allocated |
| EventLoop.EveryRunPartitions | base/co/posix.h:442-478 | over every run under the convention, each running coroutine is in exactly one place: on the stack, in one slot, or on its way between them |
| EventLoop.NextKeeps | base/co/posix.h:104-187 | every step keeps that partition |
| EventLoop.ReportWakes | base/co/posix.h:451-474 | a report erases the entry and leaves one thing to do: resume exactly the coroutine waiting there, once, on its own context |
| EventLoop.ReregistrationSurvives | base/co/posix.h:456-474 | whatever the coroutine that was woken does before it waits again, on whatever descriptor, and whatever happens after, it stays registered there until that descriptor is reported |
| EventLoop.HeadWaits | base/co/posix.h:446-452 | at the head of the loop every running coroutine but main waits in exactly one slot |
| EventLoop.EveryReportWakes | base/co/posix.h:442-478 | over any number of reports, whoever waits on the descriptor reported when its turn comes is resumed in that turn, on its own context, and what it does then is done before the next report |
| EventLoop.FirstReportWakes | base/co/posix.h:442-478 | so who waits on a descriptor now is resumed in the first turn that reports it |
| EventLoop.WaitsForItsTurn | base/co/posix.h:442-478 | whatever happens in the turns before |
| EventLoop.TurnsAppend | base/co/posix.h:446-478 | any number of reports in two parts is first the one and then the other |
| EventLoop.OneTurn | base/co/posix.h:451-474 | one report of a registered descriptor is the report, the wake-up and what happens until control is back in main; of another it is nothing |
| EventLoop.NoLostWakeup | base/co/posix.h:442-478 | who waits on a descriptor waits there through every run in which it is not reported |
| EventLoop.WaitsOnFreeDescriptor | base/co/posix.h:109-123 | under the convention a coroutine never finds an entry in its way |
| EventLoop.WaitRegisters | base/co/posix.h:152-187 | waiting registers the current coroutine and hands control down |
| EventLoop.LostExactly | base/co/posix.h:120-149 | without the convention, waiting loses the coroutine if and only if the descriptor is registered for other events only |
| EventLoop.SharedDescriptorLoses | base/co/posix.h:109-123 | the convention is needed: a run under it reaches a state in which a wait on somebody else's descriptor loses the coroutine |
| SchedulerMachine.Environment.Resume | base/co/Coroutine.h:170-184 | the fields after the switch of a resume |
| SchedulerMachine.Environment.Yield | base/co/Coroutine.h:186-199 | the fields after the switch of a yield |
| SchedulerMachine.Environment.Finish | base/co/Coroutine.h:201-211 | the end of a coroutine before it leaves |
| SchedulerMachine.Environment.Prepare | base/co/Coroutine.h:174-179 | a context from the recycle stack, or a new one |
| SchedulerMachine.Environment.Reuse | base/co/Coroutine.h:141-144 | the top of the recycle array |
| SchedulerMachine.Environment.Recycle | base/co/Coroutine.h:146-148 | a new top of the recycle array |
| SchedulerMachine.Environment.CreateCoroutine | base/co/Coroutine.h:111-115 | a coroutine nobody has started |
| SchedulerMachine.Environment.constructor | base/co/Coroutine.h:134-139 | main alone on the stack, with the only context |
| SchedulerMachine.PollConfig.AddEvent | base/co/posix.h:104-150 | registration, with the slot filled only for a new entry |
| SchedulerMachine.PollConfig.WaitFor | base/co/posix.h:158-168 | register and yield, or do neither |
| SchedulerMachine.PollConfig.Report | base/co/posix.h:452-458 | find, move the routines out, erase |
| SchedulerMachine.PollConfig.Wake | base/co/posix.h:466-474 | resume what was moved out |
| SchedulerMachine.PollConfig.Loop | base/co/posix.h:442-478 | the loop over any number of reports computes the specified rounds |
| SchedulerMachine.PollConfig.Play | base/co/posix.h:466-474 | what coroutines do between a resume and the return to main, step by step |
| SchedulerMachine.PollConfig.Start | trpc/Server.h:140-144 | the current coroutine starts another |
| SchedulerMachine.PollConfig.Finish | base/co/Coroutine.h:205-211 | the current coroutine ends, still executing |
| SchedulerMachine.PollConfig.Leave | base/co/Coroutine.h:213-213 | the yield after that |
| Connect.Connect | base/co/posix.h:189-251 | the first attempt that decides, by the errno groups of the source, gives the result; the delays up to it were asked for and no other; when none decides it times out |
| Connect.ConnectsExactly | base/co/posix.h:202-249 | `connect` succeeds if and only if some attempt within the limit finds a peer and no error that stays, and every one before it found neither an error that stays nor a peer |
| Connect.ExhaustedWaits | base/co/posix.h:193-250 | when every configured attempt is to be retried, the waiting adds up to exactly 1024 * (2^(n-2) - 2) milliseconds |
| Connect.WaitedClosedForm | base/co/posix.h:193-200 | the delays before n >= 3 attempts add up to that closed form |
| Connect.FirstDelay | base/co/posix.h:195-200 | the first delay is 2048 milliseconds |
| Connect.DelayFitsExactly | base/co/posix.h:199-199 | the shift stays within an `int` if and only if it is for one of the first 23 attempts |

## Left out

- The value of decimals and exponents, and how a stream prints them: rounding is the point there. The parser keeps their lexemes, for locality; a server takes them as arguments, converted to `int` or `bool` by functions nothing is said of; round trips and results are stated without them.
- CursorParser.Cursor.ParseNumber: keeps a decimal as its lexeme and does not compute the double.
- Printer.Stream.Print: prints no decimals, because the digits a stream chooses for a double are not modelled.
- Printer.Stream.PrintElems: the same for decimals inside arrays.
- Printer.Stream.PrintMembers: the same for decimals inside objects.
- Registers, stacks and the switch itself (base/co/Context.h, base/co/contextswitch.h): a context is an identity.
- Sockets, epoll, timer descriptors, clocks and `_errno`: the kernel is a function; which errno a caller finds afterwards is not modelled. `epoll_ctl` succeeds.
- `co::poll`, `sleep` and `usleep` as such: they register on a descriptor of their own and yield, which is one `Wait` step; the collection of several descriptors in `poll` is not modelled.
- Malformed requests (no integer id, no method name) and frames larger than the server's buffer, which overrun it: the server is modelled for well-formed peers (`PeerOk`).
- Callbacks that rewrite the request or the response: they are predicates here.
- Bound functions with side effects, and those that return decimals: a bound function is a function of its arguments to decimal-free values.
- A coroutine as an object: `_runtime` and `_context` are tables of the environment indexed by coroutine, and coroutines are never destroyed, so the context of one that is dropped while suspended is not modelled.
- Closing a descriptor another coroutine waits on, reconnecting, moving or swapping clients, and the overflow of the token generator.
- The width of the `int` that holds the poll interval (trpc/detail/bestEffort.h:42): intervals are unbounded.
- Variants, visitors and type traits (base/vsjson/internal/): a datatype takes their place, and conversions are modelled for `int`, `bool`, `std::string` and `Json` only.
- Coroutine.HighWaterMark: says nothing once more than 255 coroutines run at once; then the recycle stack can be full and a context stays with the coroutine that ended.
