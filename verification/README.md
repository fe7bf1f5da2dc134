# A verified model of malloy's own logic

Malloy is a C++ library for HTTP and WebSocket servers and clients on top of
Boost.Asio and Boost.Beast. This project models the logic malloy itself adds
to those libraries, and proves what it is relied on for.

| file | models |
|---|---|
| Text.dfy | `split` and the substring arithmetic everything below rests on |
| UrlDecode.dfy, Bits.dfy | percent-decoding in place, and the bit operations of the decoders |
| Multipart.dfy, MultipartRoundTrip.dfy | multipart bodies, and which of them are read back |
| Forms.dfy | the three form encodings |
| Headers.dfy | header values, pairs and cookies |
| Base64.dfy, BasicAuth.dfy | the base64 decoder and the Basic credential check |
| ActionQueue.dfy | the asynchronous action queue |
| WebSocket.dfy | a WebSocket connection on two action queues |
| Router.dfy, ServerString.dfy | the router tree, its dispatch and its server strings |
| HttpConnection.dfy | the keep-alive loop of a server connection, composed with the router tree |
| Sessions.dfy | session manager, memory storage and sessions |
| CrlSet.dfy | the CRLSet parser |

Each component has a specification as functions on values, the code as methods
and classes proved equal to it, and theorems about the specification: decoders
undo independent encoders, systems of handlers keep invariants over every run,
and where a promise does not hold of all inputs, the lemma gives the condition
under which it does, as an equivalence.

The systems of handlers (`ActionQueues`, `WebSockets`, `HttpConnections`)
treat a handler on its strand as one atomic step. A state records the fields of
the object and what its environment still owes it (handlers posted, operations
outstanding, callbacks not yet called); a run is any list of steps that are
possible one after the other. The classes keep the same debts in ghost fields,
and each method is proved to take exactly its step.

Text is a `string` whose characters are C++ bytes. `size_t` has 64 bits, and
its wrap-around is written out where the code subtracts or adds to `npos`;
strings are at most `Text.MAX_SIZE` long, which no C++ string exceeds.

## Assumptions

- `ActionQueues`: `run()` is called once, before any push, as `go_active` does.
  `RunAgain` shows that a later call is harmless exactly when no action is in
  flight or about to start, and `RunAgainWitness` is a run in which it is not.
- `WebSockets`: the connection is active, and nothing was requested before.
  `force_disconnect` checks and sets the state in one step.
- `Sessions`: ids and session objects are new when `start` makes a session.
  `StartNeedsFreshId` shows that a colliding id gives out a session that is not
  stored.
- `Routing`: whether an expression matches, and what policies and handlers
  answer, are arbitrary functions of the request header.
- `UrlDecode`: every `%` the scan meets has a character behind it. At the very
  end of a text the C++ code reads past the string, which has no value to model.

## Where the code differs from its documentation

- `split` of an empty string gives no pieces, not one empty piece
  (lib/malloy/core/utils.hpp:75 and 89), as `NoPieces` states; a piece between
  two delimiters may be empty, and only one leading and one trailing delimiter
  are dropped.
- A boundary is looked for anywhere in a multipart body, not only at the start
  of a line as in section 5.1.1 of RFC 2046
  (lib/malloy/core/html/multipart_parser.cpp:55-68); `MidLineBoundary` has the
  contents that are lost.
- A part without headers, which section 5.1 of RFC 2046 allows, loses its content
  (lib/malloy/core/html/multipart_parser.cpp:106-131): `HeaderlessContentLost`.
- A quoted name or file name is cut at `"; "`, which a quoted string may
  contain (lib/malloy/core/html/form.cpp:217); `DispositionRead` says so.
- A text/plain field whose value has an equals sign is dropped, or shortened if
  the sign ends it, although that encoding does not escape it
  (lib/malloy/core/html/form.cpp:266-268): `EqualsInValue`.
- A cookie value with an equals sign is not found, or shortened if the sign ends
  it, although section 4.1.1 of RFC 6265 allows it
  (lib/malloy/core/http/utils.hpp:98-104): `PairOfNamed` and `PaddedCookie`.
- The names of urlencoded fields are not decoded
  (lib/malloy/core/html/form.cpp:180-186), and a plus sign stays one
  (lib/malloy/core/utils.hpp:143-150): `UrlRoundTrip` renders names as they are,
  and `DecodeOfEncode` has a plus sign written as itself.
- `connection::read` always invokes its callback, also when the connection is
  closed first (lib/malloy/core/websocket/connection.hpp:269 and 288).
- `add_subrouter` returns true for a resource that is taken, and drops the new
  sub-router (lib/malloy/server/routing/router.cpp:87).
- A CRLSet whose last set has no serials is read without that set
  (lib/malloy/client/3rdparty/boost/certify/impl/crlset_parser.ipp:65).

## Model

| member | source | states |
|---|---|---|
| Text.Split | lib/malloy/core/utils.hpp:83-123 | the loop terminates, every `substr` is in range, the wrapped `npos + delimiter.size()` decides nothing wrongly, and the result is the leftmost split without the dropped ends, for every string and delimiter |
| Text.PiecesCharacterized | lib/malloy/core/utils.hpp:99-120 | a list is the leftmost split of a string if and only if it joins back to it, each delimiter is the first one from its piece on, and the last piece has none |
| Text.LeftmostSplitUnique | lib/malloy/core/utils.hpp:99-120 | a string has only one leftmost split |
| Text.SplitOfJoin | lib/malloy/core/utils.hpp:97-122 | splitting joined delimiter-free parts, for an unbordered delimiter, gives the parts without one empty first and last part; so it gives them back exactly if the first and the last are non-empty |
| Text.SplitOfJoinExactly | lib/malloy/core/utils.hpp:97-122 | for any parts and an unbordered delimiter, splitting undoes joining if and only if no part contains the delimiter and neither the first nor the last is empty |
| Text.JoinOfSplit | lib/malloy/core/utils.hpp:97-122 | joining the pieces gives the string without the dropped leading and trailing delimiter |
| Text.SplitPiecesAreFree | lib/malloy/core/utils.hpp:99-120 | no piece contains the delimiter |
| Text.FirstAfterFreePart | lib/malloy/core/utils.hpp:101 | an unbordered delimiter behind a delimiter-free part is found first exactly there |
| Text.NoPieces | lib/malloy/core/utils.hpp:88-90 | a string has no pieces exactly if it is empty, whatever the delimiter |
| Text.WrappedCountIsSlice | lib/malloy/core/utils.hpp:110 | a count computed as a wrapped `size_t` difference takes the same substring as the difference itself, to the end if that is negative |
| UrlDecode.UrlDecode | lib/malloy/core/utils.hpp:140-152 | decoding in place: the write index never passes the read index, and what is kept is the pure decoding of the original text |
| UrlDecode.DecodeOfEncode | lib/malloy/core/utils.hpp:140-152 | decoding gives back the bytes from every way of writing them with escapes of either case (section 2.1 of RFC 3986) |
| UrlDecode.EncodeOfDecode | lib/malloy/core/utils.hpp:143-150 | every text whose `%` signs are followed by two hexadecimal digits is an encoding of what it decodes to, and loses two bytes for each escape |
| UrlDecode.DigitsOfUnescape | lib/malloy/core/utils.hpp:146-147 | the byte assembled from two hexadecimal digits is written with those digits |
| UrlDecode.DigitValues | lib/malloy/core/utils.hpp:58-70 | the digits of either case have their values, and every other byte its own code |
| UrlDecode.EscapeBits | lib/malloy/core/utils.hpp:145-148 | whatever two bytes follow a `%`, hexadecimal or not: bit for bit the byte they decode to |
| UrlDecode.LastEscape | lib/malloy/core/utils.hpp:145-148 | the same for a single byte behind a `%` at the end of the text |
| Bits.OrNibble | lib/malloy/core/utils.hpp:146-147 | shifting a digit by four bits and or-ing another adds them |
| Bits.OrSextet | examples/server/routing/policies/main.cpp:49 | or-ing six bits into a shifted accumulator adds them |
| Bits.OrBit | lib/malloy/core/utils.hpp:147 | a bit of the result is set if and only if it is in one of the operands |
| Multipart.Parse | lib/malloy/core/html/multipart_parser.cpp:43-95 | the two loops compute the specified parts, or end in the exception `substr` throws |
| Multipart.FindBoundaries | lib/malloy/core/html/multipart_parser.cpp:55-68 | the search loop finds the leftmost boundary lines, one behind the other |
| Multipart.ParsePart | lib/malloy/core/html/multipart_parser.cpp:97-134 | the line loop with its character counter computes the specified part, none for an empty text, or the exception |
| MultipartRoundTrips.ParseOfRender | lib/malloy/core/html/multipart_parser.cpp:43-95 | for all parts, boundaries and epilogues: parsing the rendered body gives exactly the parts, in order, if and only if no header has a line break, no part contains a boundary line, the last one no closing line, and none is completed behind the closing line; without parts, if and only if nothing stands between what boundary lines the epilogue completes |
| MultipartRoundTrips.NothingRead | lib/malloy/core/html/multipart_parser.cpp:43-95 | exactly which bodies have no parts: those with no boundary line, or no closing line behind the last, or nothing between any of them and the next |
| MultipartRoundTrips.OnlyReadBack | lib/malloy/core/html/multipart_parser.cpp:43-95 | the harder half: a line break in a header, a boundary line anywhere in a part, or a closing line in the last one, makes the parse differ |
| MultipartRoundTrips.BoundaryFreeReadsBack | lib/malloy/core/html/multipart_parser.cpp:43-95 | parts free of the boundary altogether meet the condition |
| MultipartRoundTrips.MidLineBoundary | lib/malloy/core/html/multipart_parser.cpp:55-68 | a content that ends in the boundary in the middle of a line is not read back, whatever is before it |
| Multipart.ParseOfRenderedPart | lib/malloy/core/html/multipart_parser.cpp:97-134 | a rendered part is read back with its disposition, type and content, which may be empty or have blank lines |
| MultipartRoundTrips.PartRoundTrip | lib/malloy/core/html/multipart_parser.cpp:97-134 | and of all parts exactly those whose headers have no line break |
| Multipart.ParseOfRenderedLines | lib/malloy/core/html/multipart_parser.cpp:106-131 | for any non-empty header lines and any text behind them: every header is read, and the content is the text without its last two characters |
| MultipartRoundTrips.LastHeadersCount | lib/malloy/core/html/multipart_parser.cpp:108-127 | header lines in any order and of any kind: the disposition is what stands behind `Content-Disposition: ` in the last line that starts with it, and the same for `Content-Type: ` |
| MultipartRoundTrips.OtherHeaderIgnored | lib/malloy/core/html/multipart_parser.cpp:108-127 | any other header line, inserted anywhere, changes nothing |
| MultipartRoundTrips.HeadersOnly | lib/malloy/core/html/multipart_parser.cpp:106-131 | a part of header lines alone is read, without content |
| MultipartRoundTrips.HeaderlessContentLost | lib/malloy/core/html/multipart_parser.cpp:106-131 | a part without headers loses its content |
| MultipartRoundTrips.AllTextsCount | lib/malloy/core/html/multipart_parser.cpp:78-92 | the parse throws if and only if one of the texts between the boundaries does |
| MultipartRoundTrips.EmptyTextPassedOver | lib/malloy/core/html/multipart_parser.cpp:89-91 | an empty text between two boundaries, wherever it stands, changes nothing |
| MultipartRoundTrips.OnePartInFull | lib/malloy/core/html/multipart_parser.cpp:43-95 | a body with one part, spelled out, is read |
| MultipartRoundTrips.StartsOfRender | lib/malloy/core/html/multipart_parser.cpp:55-68 | the boundary lines are found exactly where the renderer put them |
| MultipartRoundTrips.ClosingFound | lib/malloy/core/html/multipart_parser.cpp:72-76 | the closing line is found first where the renderer put it |
| MultipartRoundTrips.RawPartsOfRender | lib/malloy/core/html/multipart_parser.cpp:78-86 | the texts cut out between the boundaries are the rendered parts |
| MultipartRoundTrips.EmptyEpilogueIsClean | lib/malloy/core/html/multipart_parser.cpp:72-76 | nothing is completed behind the closing line of a body that ends with it |
| Multipart.PartThrows | lib/malloy/core/html/multipart_parser.cpp:106-131 | the counter passes the end of a part, so that `substr` throws, exactly if the part has no empty line and neither starts nor ends with a line break |
| Headers.CookieValue | lib/malloy/core/http/utils.hpp:79-107 | the search loop returns the second piece of the first pair of that name |
| Headers.PairOfRendered | lib/malloy/core/http/utils.hpp:96-104 | for all texts: `name=value` is read as that pair if and only if both are non-empty and free of equals signs |
| Headers.PairOfNamed | lib/malloy/core/http/utils.hpp:96-104 | what is read of `name=value` for every value: without one sign at its end, and nothing if it is empty or has another one |
| Headers.PairMeaning | lib/malloy/core/http/utils.hpp:96-104 | a text read as a pair is that pair around one equals sign, up to one dropped sign at either end |
| Headers.CookieValueOfRender | lib/malloy/core/http/utils.hpp:82-107 | looking a name up among rendered cookies, whose values may have equals signs as section 4.1.1 of RFC 6265 allows, gives what is read of the first cookie of that name of which anything is read |
| Headers.WholeValueRead | lib/malloy/core/http/utils.hpp:96-104 | and that is the value itself if and only if it is non-empty and free of equals signs |
| Headers.PaddedCookie | lib/malloy/core/http/utils.hpp:96-104 | the value of a cookie comes back without a sign at its end, and not at all if it ends in two |
| Headers.SecondCookie | lib/malloy/core/http/utils.hpp:82-107 | a cookie behind another one, spelled out, is found |
| Forms.ParseUrlencoded | lib/malloy/core/html/form.cpp:164-198 | the loop gives a field for each pair, its value percent-decoded |
| Forms.ParsePlain | lib/malloy/core/html/form.cpp:253-285 | the loop gives a field for each line that is a pair |
| Forms.ParseMultipart | lib/malloy/core/html/form.cpp:200-251 | the loops give a field for each part, and none at all where a part has no name or an exception is thrown |
| Forms.Decompose | lib/malloy/core/html/form.cpp:213-230 | the last quoted name and file name of a disposition, through the wrapping `substr` arithmetic |
| Forms.FindBoundary | lib/malloy/core/html/multipart_parser.cpp:13-34 | the last boundary given in a Content-Type |
| Forms.UrlRoundTrip | lib/malloy/core/html/form.cpp:164-198 | whatever the choice of escapes for the values: with names free of separators, decoding an urlencoded rendering gives the fields in order, without those whose name or value is empty; all fields come back if and only if all names are non-empty and free of separators and all values are non-empty |
| Forms.PlainRoundTrip | lib/malloy/core/html/form.cpp:253-285 | decoding a text/plain rendering gives fields free of equals signs and line breaks in order, without those whose name or value is empty; for all fields, it gives them back if and only if every name and value is non-empty and free of equals signs and line breaks |
| Forms.PlainBodyRead | lib/malloy/core/html/form.cpp:253-285 | what is read of values that have equals signs |
| Forms.EqualsInValue | lib/malloy/core/html/form.cpp:266-268 | a field whose value has an equals sign is dropped, or shortened if that is the last character |
| Forms.EqualsInValueWitness | lib/malloy/core/html/form.cpp:266-268 | the field `a` with the value `b=c` is dropped |
| Forms.NothingDropped | lib/malloy/core/html/form.cpp:176-178 | no field is lost exactly if all names and values are non-empty |
| Forms.MultipartRoundTrip | lib/malloy/core/html/form.cpp:200-251 | decoding a multipart rendering gives all fields in order (names, file names, types and contents, from the Content-Type and the body together) if and only if each field has a name, no name or file name contains "; ", and the parts are read back from the body |
| Forms.DispositionRead | lib/malloy/core/html/form.cpp:213-230 | the quoted name and file name are recovered if and only if neither contains "; " |
| Forms.DispositionMeaning | lib/malloy/core/html/form.cpp:217-230 | pieces in any order and of any kind: the last `name=` and the last `filename=` count, and one with nothing behind it is an exception |
| Forms.AllPartsCount | lib/malloy/core/html/form.cpp:211-243 | there are no fields at all if and only if some part has no name or such an exception |
| Forms.MultipartMeaning | lib/malloy/core/html/form.cpp:200-251 | nothing without a Content-Type, no fields without a boundary, nothing where an exception is thrown, and otherwise a field for each part |
| Forms.BoundaryRead | lib/malloy/core/html/multipart_parser.cpp:13-34 | a boundary in a Content-Type is read back if and only if it has no equals sign and no "; " |
| Forms.LastBoundaryCounts | lib/malloy/core/html/multipart_parser.cpp:20-32 | of parameters in any order, the last that gives a boundary counts |
| Forms.BoundaryAmongParameters | lib/malloy/core/html/multipart_parser.cpp:13-34 | a boundary is found in front of another parameter and behind one |
| Base64.Decode | examples/server/routing/policies/main.cpp:19-58 | the loop with its wrapping 32-bit accumulator throws exactly on a character that is neither in the alphabet nor skipped, otherwise writes the decoded bytes first and nothing else, within the prepared ceil(4n/3) |
| Base64.DecodeOfEncode | examples/server/routing/policies/main.cpp:39-57 | decoding the encoding of section 4 of RFC 4648, with whitespace and padding inserted or removed anywhere, gives exactly the bytes |
| Base64.PackLength | examples/server/routing/policies/main.cpp:49-56 | k significant characters give floor(6k/8) bytes |
| Base64.SameNumber | examples/server/routing/policies/main.cpp:49-56 | for every legal text: the letters are the digits of a number to the base 64, and the bytes those of the same number to the base 256 without the bits left over |
| Base64.TableOfLetters | examples/server/routing/policies/main.cpp:25-33 | the letters are those of table 1 of section 4 of RFC 4648 |
| Base64.LegalCharacters | examples/server/routing/policies/main.cpp:43-47 | legal are exactly the letters, the whitespace and the padding, and the last two are passed over |
| Base64.PassedOverAnywhere | examples/server/routing/policies/main.cpp:43-44 | whitespace and padding, wherever they stand, change nothing |
| Base64.LowBits | examples/server/routing/policies/main.cpp:49-50 | the wrapping of the accumulator never loses a pending bit |
| Base64.HighByte | examples/server/routing/policies/main.cpp:52-54 | the byte taken out is the high one of the pending bits, and the rest stays pending |
| BasicAuth.ParseAuthField | lib/malloy/server/auth/basic.hpp:38-62 | decoding into a zeroed buffer, cutting at the first NUL and splitting computes the specified field, or none |
| BasicAuth.EraseFromNul | lib/malloy/server/auth/basic.hpp:52 | what stays is the text up to the first NUL |
| BasicAuth.Check | lib/malloy/server/auth/basic.hpp:89-110 | the policy answers itself exactly if it does not let the request through |
| BasicAuth.CredentialsRoundTrip | lib/malloy/server/auth/basic.hpp:41-62 | the encoded credentials of a user are read back exactly if name and password are non-empty and free of colons and NUL (section 2 of RFC 7617) |
| BasicAuth.PolicyAccepts | lib/malloy/server/auth/basic.hpp:89-110 | for every configured user name and password, empty ones included, exactly which encoded credentials are let through: up to the first NUL the configured ones, with a colon more at either end or, beside an empty one, required there; none if one of them has a colon or NUL |
| BasicAuth.LetThroughExactly | lib/malloy/server/auth/basic.hpp:89-110 | every request, also one without the field: let through are exactly those whose field is "Basic " and a text of letters, whitespace and padding that decodes, up to the first NUL, to the configured name and password |
| BasicAuth.ParseMeaning | lib/malloy/server/auth/basic.hpp:40-61 | a field of any scheme is read exactly if its text is legal and decodes to two pieces |
| BasicAuth.BeforeNul | lib/malloy/server/auth/basic.hpp:52 | what is decoded counts up to the first NUL |
| ActionQueues.QueueDiscipline | lib/malloy/core/detail/action_queue.hpp:48-94 | in every interleaving: at most one action is in flight or about to start, the flag says exactly that, an idle queue has nothing waiting, and actions start in the order they were pushed |
| ActionQueues.AlongEveryRun | lib/malloy/core/detail/action_queue.hpp:48-94 | the invariant behind it holds from any state that has it |
| ActionQueues.Drains | lib/malloy/core/detail/action_queue.hpp:78-93 | without further pushes a run has at most `Work` steps, and at rest every pushed action has been started |
| ActionQueues.CanDrain | lib/malloy/core/detail/action_queue.hpp:78-93 | from every reachable state handlers and callbacks lead to rest |
| ActionQueues.RunAgain | lib/malloy/core/detail/action_queue.hpp:63-68 | calling `run()` again keeps the discipline if and only if nothing is in flight or about to start |
| ActionQueues.RunAgainWitness | lib/malloy/core/detail/action_queue.hpp:63-68 | a run in which a second `run()` puts two actions in flight |
| ActionQueues.InlineIsImmediate | lib/malloy/core/detail/action_queue.hpp:78 | running a dispatched handler at once is posting it and running it next |
| ActionQueues.ActionQueue.Push | lib/malloy/core/detail/action_queue.hpp:47-56 | takes the push step |
| ActionQueues.ActionQueue.OnExecute | lib/malloy/core/detail/action_queue.hpp:78-93 | takes the first action off and starts it, or clears the flag |
| ActionQueues.ActionQueue.OnDone | lib/malloy/core/detail/action_queue.hpp:82-87 | goes on with the next action, or clears the flag |
| WebSockets.OperationDiscipline | lib/malloy/core/websocket/connection.hpp:273-319 | in every run of an active connection and in either direction: at most one operation or close is outstanding, and callbacks, the outstanding operation and waiting operations are the requests in order, each once |
| WebSockets.AtMostOneClose | lib/malloy/core/websocket/connection.hpp:217-259 | any mix of disconnects issues async_close at most once, and exactly once if the connection is closing or closed |
| WebSockets.DisconnectCloses | lib/malloy/core/websocket/connection.hpp:217-259 | in every run, once nothing is left to do: the connection is closing or closed, and async_close issued, if and only if there was a disconnect or forced disconnect; each queue has taken in one close action for each disconnect that found the connection active |
| WebSockets.ClosedExactly | lib/malloy/core/websocket/connection.hpp:392-399 | in every run: closed if and only if an async_close has completed without an error |
| WebSockets.StateStep | lib/malloy/core/websocket/connection.hpp:385-400 | no step takes the state back, and an active connection becomes closing before it is closed |
| WebSockets.StateMovesForward | lib/malloy/core/websocket/connection.hpp:385-400 | nor does any run |
| WebSockets.InlineIsPosted | lib/malloy/core/detail/action_queue.hpp:78 | whichever handlers `dispatch` runs at once, a step of the connection is the step that posts them followed by execute handlers of the same queue |
| WebSockets.InlineRunIsPosted | lib/malloy/core/detail/action_queue.hpp:78 | every run with such choices ends as a run without them, of the same requests |
| WebSockets.InlineRunDiscipline | lib/malloy/core/websocket/connection.hpp:273-319 | so one operation at a time, callbacks in request order and a single close hold whatever runs at once |
| WebSockets.InlineDisconnectCloses | lib/malloy/core/websocket/connection.hpp:217-259 | the same of disconnects, whatever runs at once |
| WebSockets.LosingCloseReturns | lib/malloy/core/websocket/connection.hpp:225-230 | the close action that comes second completes at once, issues nothing, and its queue goes on |
| WebSockets.ConnectionDrains | lib/malloy/core/websocket/connection.hpp:273-319 | without further requests a run has a bounded number of steps; at rest both queues are empty, every request has been called back in order, and a requested close has been issued |
| WebSockets.AtRestMeansStuck | lib/malloy/core/websocket/connection.hpp:273-319 | a connection is at rest exactly if no handler and no completion is left |
| WebSockets.WebSocketConnection.Accept | lib/malloy/core/websocket/connection.hpp:176-189 | starts the handshake, and throws on a connection that is not inactive |
| WebSockets.WebSocketConnection.BecomeActive | lib/malloy/core/websocket/connection.hpp:349-360 | leads to the state in which runs of an active connection start |
| WebSockets.WebSocketConnection.DisconnectRequested | lib/malloy/core/websocket/connection.hpp:217-238 | takes the disconnect step |
| WebSockets.WebSocketConnection.ForceDisconnectRequested | lib/malloy/core/websocket/connection.hpp:247-259 | throws on an inactive connection, and otherwise takes the forced disconnect step |
| WebSockets.WebSocketConnection.OnExecute | lib/malloy/core/websocket/connection.hpp:285-318 | takes the step of either queue that starts its operation or the close |
| WebSockets.WebSocketConnection.OnRequested | lib/malloy/core/websocket/connection.hpp:273-319 | takes the step of a read or a send: the operation is pushed, nothing is started |
| WebSockets.WebSocketConnection.OnClosePushed | lib/malloy/core/websocket/connection.hpp:228-237 | takes the step in which a queue takes in its close action |
| WebSockets.WebSocketConnection.OnCompleted | lib/malloy/core/websocket/connection.hpp:287-290 | takes the step of an operation that ended: its callback is made, and its queue waits for the return |
| WebSockets.WebSocketConnection.OnReturn | lib/malloy/core/websocket/connection.hpp:287-290 | takes the step that tells the queue an action is over |
| WebSockets.WebSocketConnection.OnForcedCompleted | lib/malloy/core/websocket/connection.hpp:392-399 | closes, unless there was an error, and no queue is told |
| WebSockets.WebSocketConnection.OnCloseCompleted | lib/malloy/core/websocket/connection.hpp:392-399 | closes, unless there was an error, and owes the queue its callback |
| Routing.DispatchIsLongestMatch | lib/malloy/server/routing/router.hpp:461-478 | if no key is a prefix of a sibling, the ways down that some iteration order takes are exactly the longest match: the router all other matching routers lead to |
| Routing.OrderIrrelevant | lib/malloy/server/routing/router.hpp:462-478 | no target has two ways down, whatever the iteration order, if and only if no key that can match is a prefix of a sibling |
| Routing.AmbiguousTarget | lib/malloy/server/routing/router.hpp:462-478 | otherwise a target with two ways down |
| Routing.MatchingIsOnTheWay | lib/malloy/server/routing/router.hpp:462-478 | every router whose keys match lies on the way down |
| Routing.DescentChops | lib/malloy/server/routing/router.hpp:464-473 | the last router sees exactly what the keys leave of the target, with the query intact |
| Routing.SomeDescent | lib/malloy/server/routing/router.hpp:461-478 | the descent ends for every target |
| Routing.Chopped | lib/malloy/core/http/utils.hpp:14-33 | chopping a matched key off the target chops it off the resource string and leaves the query |
| Routing.ResourceOf | lib/malloy/core/http/utils.hpp:14-33 | the resource is what stands before the first `?` or `#` |
| Routing.ServeMeaning | lib/malloy/server/routing/router.hpp:449-486 | the recursive dispatch as a flat lookup: the first router on the way with a policy that responds answers, otherwise the last one |
| Routing.UpgradeMeaning | lib/malloy/server/routing/router.hpp:449-486 | a WebSocket request goes all the way down without asking a policy |
| Routing.VerdictMeaning | lib/malloy/server/routing/router.hpp:169-177 | the response is that of the first policy whose expression matches and which responds; only a missing server field is filled in |
| Routing.AnswerMeaning | lib/malloy/server/routing/router.hpp:550-568 | the first endpoint that matches answers, at once or from the body, and without one the response has status 400 |
| Routing.SocketMeaning | lib/malloy/server/routing/router.hpp:590-610 | a WebSocket request goes to the first socket of just the remaining resource that has a handler, or to nobody |
| HttpConnections.OneResponsePerRequest | lib/malloy/server/http/connection.hpp:199-348 | in every run and for every router tree: requests and responses alternate, the i-th response is one the tree gives to the i-th header and the body read for it, if the endpoint reads one, at most one stream operation is outstanding and one is until the connection ends, the response is held throughout its write, and the parser is there whenever a header is awaited |
| HttpConnections.RecordsOfRun | lib/malloy/server/http/connection.hpp:199-348 | the headers and bodies these responses answer are those of the run, in its order |
| HttpConnections.ResponsesExplained | lib/malloy/server/routing/router.hpp:444-569 | in every run, every response is, but for a missing server field, that of the first policy that responds on some way down or else of the first matching endpoint of its last router, for the header as that router sees it and the body read |
| HttpConnections.KeptAlive | lib/malloy/server/http/connection.hpp:281-348 | in every run, a connection ends exactly for a failure, by the peer, by an upgrade, or behind a response that asks for it; until then it awaits the next header as soon as all requests are answered |
| HttpConnections.ResponsesCarryRootString | lib/malloy/server/routing/router.hpp:79-94 | every response written by a tree with one server string carries it, unless a handler sets the field |
| HttpConnections.AlongEveryRun | lib/malloy/server/http/connection.hpp:199-348 | the invariant behind them holds along every run |
| HttpConnections.HandleRequest | lib/malloy/server/routing/router.hpp:444-487 | for some way down, whatever the iteration order: does to the connection exactly what the specification says, one write or one body read, and leaves the target chopped |
| HttpConnections.IsHandledByPolicies | lib/malloy/server/routing/router.hpp:511-523 | the first policy that matches and responds is the one whose response is written |
| HttpConnections.HandleHttpRequest | lib/malloy/server/routing/router.hpp:532-569 | the first matching endpoint answers, or the request is bad |
| HttpConnections.HandleWsRequest | lib/malloy/server/routing/router.hpp:578-611 | the first endpoint of just that resource that has a handler, or none |
| HttpConnections.SendResponse | lib/malloy/server/routing/router.hpp:77-94 | writes the response, with the server string if it has none |
| HttpConnections.Connection.OnRead | lib/malloy/server/http/connection.hpp:281-324 | takes the step of a header that was read |
| HttpConnections.Connection.OnReadError | lib/malloy/server/http/connection.hpp:286-294 | takes the step of a header that was not |
| HttpConnections.Connection.OnBody | lib/malloy/server/http/connection.hpp:76-82 | takes the step of a body that was read |
| HttpConnections.Connection.OnWrite | lib/malloy/server/http/connection.hpp:326-348 | takes the step of a write that ended |
| ServerStrings.UniformAfterEveryRun | lib/malloy/server/routing/router.cpp:58-112 | after any sequence of constructions, additions at any level and renamings of roots, every router in a tree has the string of its root |
| ServerStrings.EarlyReturnSound | lib/malloy/server/routing/router.cpp:101-112 | the early return gives the same tree as setting every router, for every string, if and only if the tree is uniform |
| ServerStrings.TreeKept | lib/malloy/server/routing/router.cpp:101-112 | setting the string keeps every router in its place with all it answers |
| ServerStrings.SubRouterAdded | lib/malloy/server/routing/router.cpp:58-93 | exactly what an addition changes, and when it fails |
| ServerStrings.AddedThere | lib/malloy/server/routing/router.cpp:58-93 | an addition further down is one to the router there |
| ServerStrings.NothingElseAdded | lib/malloy/server/routing/router.cpp:58-93 | and leaves every router that is not on the way there as it was |
| ServerStrings.PerformMeaning | lib/malloy/server/routing/router.cpp:58-112 | what each operation does to the routers a program owns |
| ServerStrings.UniformAlongRoutes | lib/malloy/server/routing/router.cpp:101-112 | every router of a uniform tree has the string of the root |
| ServerStrings.RouterNode.SetServerString | lib/malloy/server/routing/router.cpp:101-112 | on routers linked in memory: terminates, changes strings only to the new one and only below the router, and leaves no changed router at odds with its sub-routers |
| ServerStrings.RouterNode.AddSubRouter | lib/malloy/server/routing/router.cpp:58-93 | fails exactly without a resource or a router, keeps a taken resource, and keeps all routers in agreement with their owners |
| ServerStrings.SameStringBelow | lib/malloy/server/routing/router.cpp:101-112 | routers linked in memory that agree with their owners all have the string of the router they hang below |
| ServerStrings.AgreementKept | lib/malloy/server/routing/router.cpp:101-112 | where all routers agreed with their owners before, they do after |
| Sessions.SameSessionUntilEnded | lib/malloy/core/http/session/manager.cpp:45-79 | after any run, a request with the issued cookie, behind differently named ones, gets the same session object and no new cookie exactly if nothing destroyed or swept it; otherwise a new session with its cookie |
| Sessions.SessionLives | lib/malloy/core/http/session/storage_memory.hpp:70-105 | an id is stored after a run exactly if nothing in it took it out, and then it is the same session |
| Sessions.AlongEveryRun | lib/malloy/core/http/session/session.hpp:89-138 | in every run: no session stores an empty key or value, a stored session has its id, and no two sessions share one |
| Sessions.SweepIsExact | lib/malloy/core/http/session/manager.cpp:103-118 | a sweep removes exactly the sessions untouched for longer than a positive limit, and returns by how many there are fewer |
| Sessions.AccessTimeIsLastTouch | lib/malloy/core/http/session/session.hpp:236-284 | the access time is that of the last set, get or remove with a key (and value), or of the creation |
| Sessions.ValuesOfRun | lib/malloy/core/http/session/session.hpp:89-138 | after any run a session returns for a key exactly the value last set and not removed since, and its results say truly what was set or removed |
| Sessions.ValuesOfNewSession | lib/malloy/core/http/session/manager.cpp:61-76 | a session that `start` makes begins without values, with its id and the time it was made |
| Sessions.NoEmptyValue | lib/malloy/core/http/session/session.hpp:114-118 | an empty value is never returned |
| Sessions.DestroyMeaning | lib/malloy/core/http/session/manager.cpp:81-101 | a request with the session cookie loses just that session and gets the cookie cleared; without any cookie nothing happens |
| Sessions.StartNeedsFreshId | lib/malloy/core/http/session/storage_memory.hpp:70-81 | `start` stores the session it returns exactly if the new id is not in use |
| Sessions.IdOfRequest | lib/malloy/core/http/session/manager.cpp:132-141 | a request is known by the session cookie among any others, padded ones included |
| Sessions.StorageMemory.CreateSession | lib/malloy/core/http/session/storage_memory.hpp:70-81 | makes a new object and stores it unless the id is taken |
| Sessions.StorageMemory.EraseExpired | lib/malloy/core/http/session/storage_memory.hpp:101-104 | the loop erases exactly the expired sessions and counts them, with a clock that is read anew for each |
| Sessions.StorageMemory.DestroyExpired | lib/malloy/core/http/session/storage_memory.hpp:98-105 | the storage is left with the others, and no session is changed |
| Sessions.Manager.StartSession | lib/malloy/core/http/session/manager.cpp:45-79 | the specified state, session and added cookie |
| Sessions.Manager.DestroySession | lib/malloy/core/http/session/manager.cpp:81-101 | the specified state, and a clearing cookie if the request had an id |
| Sessions.Manager.DestroyExpired | lib/malloy/core/http/session/manager.cpp:103-118 | nothing for a limit that is not positive, otherwise the sweep |
| Sessions.Manager.Make | lib/malloy/core/http/session/manager.cpp:12-17 | throws exactly without a storage |
| Sessions.Session.SetValue | lib/malloy/core/http/session/session.hpp:89-97 | the specified fields and result |
| Sessions.Session.GetValue | lib/malloy/core/http/session/session.hpp:106-120 | the specified fields and result |
| Sessions.Session.RemoveValue | lib/malloy/core/http/session/session.hpp:130-138 | the specified fields and result |
| CrlSets.ParseCrlSet | lib/malloy/client/3rdparty/boost/certify/impl/crlset_parser.ipp:42-95 | both loops terminate, every read is in range, and sets and error are the specified ones, with the sets read before an error |
| CrlSets.ParseSerials | lib/malloy/client/3rdparty/boost/certify/impl/crlset_parser.ipp:77-91 | the inner loop reads as many serials as there are, up to the count |
| CrlSets.ParseOfRender | lib/malloy/client/3rdparty/boost/certify/impl/crlset_parser.ipp:42-95 | parsing a rendered CRLSet gives no error, and exactly the sets if and only if there are none or the last one has a serial |
| CrlSets.HeaderCut | lib/malloy/client/3rdparty/boost/certify/impl/crlset_parser.ipp:46-60 | a rendered CRLSet cut anywhere in its header gives the error that says so, and no sets |
| CrlSets.HeaderErrors | lib/malloy/client/3rdparty/boost/certify/impl/crlset_parser.ipp:46-60 | on every buffer, exactly when these errors occur, and that otherwise the sets behind the header are read |
| CrlSets.FirstHash | lib/malloy/client/3rdparty/boost/certify/impl/crlset_parser.ipp:65-75 | a set is read from more than 36 bytes, the first 32 of which are its hash |
| CrlSets.SetsAccount | lib/malloy/client/3rdparty/boost/certify/impl/crlset_parser.ipp:65-92 | on every buffer, what was read, rendered with the counts found, and what is left over are the buffer; what is left is too short for a set, or a serial that is cut off |
| CrlSets.SerialsAccount | lib/malloy/client/3rdparty/boost/certify/impl/crlset_parser.ipp:77-91 | the same for the serials of one set |

## Left out

- Sockets, TLS, timeouts, DNS, thread pools and coroutines: completions are steps that may happen at any time, with or without an error.
- Regular expressions: a match is an arbitrary predicate of the target or header.
- URL parsing, MIME types, files, HTML, logging and cookie formatting: input and output, or facts of one branch.
- `add_preflight` and the methods of other endpoints: they read the endpoint list and keep nothing.
- Random ids: `start` takes the generated id as a parameter.
- The mutex of the session manager: each call is one step.
- Bytes of a next request already in the buffer: the connection moves its buffer into the request and does not get it back, and the model has no buffers.
- Exceptions thrown by policies and handlers, and policies that depend on more than the header.
- The handshake and the client's `connect`: a run starts at `go_active`.
- Registering endpoints and policies: they are given with the tree.
- `form::populate`, `has_field` and the other members that only look fields up.
- Base64.Decode: `isspace` is that of the C locale.
- UrlDecode.UrlDecode: a `%` as the last character is excluded, because the C++ code then reads past the end of the string.
- Forms.MultipartRoundTrip: the boundary is one that `Forms.BoundaryRead` says is read back.
- Forms.UrlRoundTrip: it is about bodies in which the separators in values are escaped, as every encoder of this format does.
- BasicAuth.ParseAuthField: fields are at most half the largest string, so that the decoded text is a string too.
- Forms.ParseUrlencoded: values are those `UrlDecode.UrlDecode` accepts, for the same reason.
- ServerStrings.RouterNode.AddSubRouter: loggers are not modelled, and the string is a value rather than a view.
- Sessions.Manager.Make: the later null checks of the storage are not modelled, because the constructor has thrown.
