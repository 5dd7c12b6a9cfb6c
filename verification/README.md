# Verification of the quail server

This project models six parts of the quail server and proves what they promise. Each part is a
Dafny module (or a few) named after the component it follows.

* `UriTemplate`: the expansion of URI templates. The source replaces one parameter after another in
  the whole string, in hash-map order, and then erases leftover groups from the start of the string
  again and again. The model has these loops; the theorem is that they equal one left-to-right scan.
  `UriTemplateOrder` proves for which templates the order of the parameters plays no part in the
  replacements.
* `CivilTime`: UTC date-times to Unix seconds, with the leap-second path. The called time library is
  modelled by its meaning: the proleptic Gregorian calendar with carries between fields.
* `RefCount`: the reference-counted pointer, every constructor and assignment, as classes over a
  heap. Objects have counted pointers as members, so releasing one pointer may delete one object
  after another. `RefCountThreads`: the same operations cut into atomic steps and interleaved by any
  number of threads, which may also copy from pointers that are shared, their own, other threads' or
  objects' members, and move pointers into objects and out of them; a thread that deletes an object
  goes on to release its members. `RefCountThreadsRuns` has what holds in every run,
  `RefCountOperations` what each operation achieves whatever other threads do meanwhile, and
  `RefCountSelfCopy` when a pointer may be assigned to itself.
* `ServerStream`, `ServerStreamObject`: the HTTP/3 response stream, its functions as functions on the
  state of a stream and as methods of a class with their loops. `ServerStreamFraming` and
  `ServerStreamSending` prove what is written, `ServerStreamRuns` what holds in every run,
  `ServerStreamFaults` exactly when a run can go wrong, and `ServerStreamTunnels` exactly which runs
  of a CONNECT with an announced length do.
* `EchoSession`, `EchoVisitors`: the WebTransport echo session, as values and as objects.
* `ServerBackend`, `ServerBackendObject`: the parser for saved responses and the cache.
* `Text`: the string search that several of them use.

`dafny verify dfyconfig.toml` verifies everything.

## How to read it

Where the source updates fields or runs a loop, the model has a class or a method with that loop,
and the method's `ensures` ties the new state to a function of the old one; the table leaves out
methods of straight-line code, which are proved in the same way. The theorems are lemmas about those
functions, over all inputs and over all sequences of events. What the surroundings decide (how many bytes a read offers, whether a write blocks, what the backend answers, which thread
runs next, in which order a hash map is walked) is an argument or a choice that no proof restricts.

Assumptions, all of them about code that is not part of this model:

* Stream: request headers come once and first; the body is not offered after `StopReading` or after
  the FIN was read; a region that is offered is not empty; the backend answers once when asked (a
  100 leaves the answer owed) and adds data only to an open response that has no generated bytes
  pending; callbacks that the backend makes while it is being called are taken as the next event,
  which is the same because each of those calls is the last thing its caller does with the state. The
  status of a header block is what `ParseHeaderStatusCode` reports, whatever its rules.
* A failed parse of a path may leave any number in the byte counter.
* Echo session: a read appends what is available, a write takes everything or nothing, FIN is
  reported once, and `SendFinOnStream` succeeds after a successful write.
* Threads: steps are sequentially consistent; a pointer that is shared is not written before it is
  taken back, and it is not taken back while a copy from it is under way; a pointer is moved into or
  out of an object, shared or taken back there only while the object has references; and who copies
  from a member of an object holds that object meanwhile by another pointer than the one assigned to,
  or by one that is lent to the copy in the same way.
* One operation at a time, `RefCount` has no such rule: any pointer may be assigned from any other,
  and the theorems say exactly when that goes well. The members of an object are those it has when it
  is wrapped, and they are destroyed last to first.
* Templates: the encoder puts out no braces, and parameter names have none.

## Findings

Places where the code does less than its documentation or its callers might expect. Each has a lemma.

* A CONNECT that announces a content length and is handed to a backend can be refused after the
  backend has answered: a tunnel that outgrows the announced length gets an error response behind the
  first response, also behind its FIN (src/quit_server_stream.cc:69-96, 110-116). No other request can
  be answered twice. A run of such a CONNECT goes wrong in this way exactly if, after a response,
  more bytes are offered at once than were announced, or the backend answers after the refusal.
* A response of type `INCOMPLETE_RESPONSE` with status 100 and a body puts data before the response
  headers (src/quit_server_stream.cc:428-440). Other answers whose statuses do not fit their use break
  the framing too: a hint that is not informational, or an informational status on what is to be the
  final response. Apart from such a CONNECT, a run is well framed, with its final header block sent
  exactly if `response_sent_` is set, exactly when no such answer is sent and the next finding does
  not strike.
* A failed parse of the path can leave bytes to generate, which are then written after the FIN of the
  404 (src/quit_server_stream.cc:335-338, 378-392). Except on a CONNECT as above, nothing follows a FIN
  in any other way.
* A generated response is ended with a FIN, sooner or later, exactly if it has bytes; one of zero
  bytes never is (src/quit_server_stream.cc:385).
* The echo of an incoming unidirectional stream is ended with a FIN, sooner or later, exactly if its
  payload is not empty (src/quit_web_transport_visitors.h:153-155).
* Assignment gives up the old reference before it holds the new one
  (default/quiche_platform_impl/quiche_reference_counted_impl.h:84-112, 180-183). So it can delete the
  object that it then counts, or the pointer it reads from or writes to. Two inputs are a pointer
  assigned from itself when no other holds the object, and `head = head->next` when `head` and that
  member are all that hold the two nodes. Copy assignment leaves the heap in order exactly if the
  assigned pointer survives the release of what it held, and the new target is null or still held by
  another pointer that does; move assignment exactly if both pointers survive it. The pointers that do
  not survive are the members of objects that lose all their holders, found as a least set.
* Between threads, assigning a pointer from itself reaches a deleted object in some run unless the
  thread has another pointer to the object, or no other thread exists and something else holds it.
* The path of a saved response is cut by a count that starts at the path instead of the base, so host
  and path end at the comma only if that comes after a host of one character
  (src/core/quail_server_backend.cc:101-103).
* `GetResponse` is documented as a lookup for a host and path
  (src/core/quail_server_backend.h:68-69); the code looks up one fixed key
  (src/core/quail_server_backend.cc:142), so it does what is documented exactly for the hosts and
  paths that make up that key. The model follows the code.
* The replacements of a template depend on the order in which the hash map yields the parameters
  exactly if some closed group contains a closed group
  (default/quiche_platform_impl/quiche_url_utils_impl.cc:29-41). What the caller gets then may depend
  on it too, but need not: a template that ends in an unclosed group fails in every order.

## Model

| member | source | states |
|---|---|---|
| UriTemplate.ExpandURITemplate | default/quiche_platform_impl/quiche_url_utils_impl.cc:23-59 | for every template and parameters, the loops compute the replacements in the order the map was walked, then the erasure, and the names replaced; and a level 1 template becomes its literals and the encoded values of its variables |
| UriTemplate.AnyOrderExpands | default/quiche_platform_impl/quiche_url_utils_impl.cc:27-58 | for non-nested templates every order gives one and the same result: a single left-to-right scan, and exactly the parameters whose group occurs |
| UriTemplate.ReplaceStep | default/quiche_platform_impl/quiche_url_utils_impl.cc:36-37 | one whole-string replacement leaves the scan's result as it was with that parameter defined |
| UriTemplate.ReplaceKeepsOthers | default/quiche_platform_impl/quiche_url_utils_impl.cc:36-40 | replacing one name neither creates nor destroys an occurrence of another |
| UriTemplate.EraseLeftovers | default/quiche_platform_impl/quiche_url_utils_impl.cc:43-53 | the restarting erase loop terminates and equals the scan that drops groups, on every string |
| UriTemplate.EraseSucceedsIff | default/quiche_platform_impl/quiche_url_utils_impl.cc:43-53 | the loop succeeds exactly on brace-free texts and groups up to their first closing brace, followed by a tail without an opening one, returns the texts and the tail, and leaves no opening brace |
| UriTemplate.Level1Expands | default/quiche_platform_impl/quiche_url_utils_impl.h:23-26 | the scan of a level 1 template is the concatenation of its literals and, for each variable n, of `encode(parameters[n])` if n is defined and of nothing if not |
| UriTemplate.Level1InAnyOrder | default/quiche_platform_impl/quiche_url_utils_impl.h:22-26 | every level 1 template expands, in any order, to that meaning, with exactly its defined variables reported |
| UriTemplate.OccursIsSubstring | default/quiche_platform_impl/quiche_url_utils_impl.cc:32-40 | a name is found exactly when its group is a substring |
| UriTemplateOrder.OrderIsIrrelevantIff | default/quiche_platform_impl/quiche_url_utils_impl.cc:27-41 | for all parameters, encoded values and orders the replaced text and the names found are the same exactly if no closed group contains a closed group |
| UriTemplateOrder.TameInAnyOrder | default/quiche_platform_impl/quiche_url_utils_impl.cc:27-41 | where they are the same they are one simultaneous substitution and the names that occur |
| UriTemplateOrder.NestingDependsOnOrder | default/quiche_platform_impl/quiche_url_utils_impl.cc:27-41 | parameters and two orders with two results for every text that nests closed groups |
| UriTemplateOrder.OutcomeIsIrrelevantIf | default/quiche_platform_impl/quiche_url_utils_impl.cc:27-58 | what the caller gets is the same for all orders if no closed group contains a closed group, and also if the template ends in an unclosed group, when every order fails |
| UriTemplate.NestedGroupsDependOnOrder | default/quiche_platform_impl/quiche_url_utils_impl.cc:29-58 | two orders with two results after the erasure |
| CivilTime.AcceptsExactlyValid | default/quiche_platform_impl/quiche_time_utils_impl.cc:13-27 | apart from second 60, exactly the valid proleptic Gregorian date-times are accepted, with their count of seconds |
| CivilTime.NormalizeFixesExactlyValid | default/quiche_platform_impl/quiche_time_utils_impl.cc:17-21 | normalisation changes nothing exactly when every field is in range |
| CivilTime.NormalizeKeepsInstant | default/quiche_platform_impl/quiche_time_utils_impl.cc:17-25 | carrying fields of any size gives valid fields of the same instant |
| CivilTime.AcceptedValuesAreOrdered | default/quiche_platform_impl/quiche_time_utils_impl.cc:13-27 | accepted values order date-times as their fields do and separate them |
| CivilTime.EverySecondHasOneDate | default/quiche_platform_impl/quiche_time_utils_impl.cc:24-25 | every integer is the value of exactly one valid date-time |
| CivilTime.EpochIsZero | default/quiche_platform_impl/quiche_time_utils_impl.cc:24-25 | the count starts at 1970-01-01 00:00:00 |
| CivilTime.LeapSecondIsFollowingMinute | default/quiche_platform_impl/quiche_time_utils_impl.cc:34-42 | second 60 is accepted exactly when second 59 is valid, and is second 0 of the following minute |
| CivilTime.LeapSecondEqualsNextCall | default/quiche_platform_impl/quiche_time_utils_impl.cc:34-45 | the function answers the same for second 60 and for second 0 of the next minute, across hour, day, month, leap February and year |
| CivilTime.FollowingMinuteIsLater | default/quiche_platform_impl/quiche_time_utils_impl.cc:41 | the next minute by the rules of the calendar is 60 seconds later |
| CivilTime.ExemptionIsNeverUsed | default/quiche_platform_impl/quiche_time_utils_impl.cc:18-21 | the inner function would accept anything for second 60, and the outer one never asks it |
| CivilTime.ValuesFitInt64 | default/quiche_platform_impl/quiche_time_utils_impl.cc:30-46 | every value fits in int64 for every 32-bit input |
| RefCount.ReleaseFrees | default/quiche_platform_impl/quiche_reference_counted_impl.h:169-178 | giving up a pointer deletes exactly the least set of objects that are held by it and by members of the set alone, destroys their members and touches no other pointer; the heap stays in order exactly if the pointer itself is not such a member |
| RefCount.DeletedIffUnheld | default/quiche_platform_impl/quiche_reference_counted_impl.h:169-178 | in a heap in order an object is deleted exactly when no pointer refers to it |
| RefCount.Pointer.RemoveReference | default/quiche_platform_impl/quiche_reference_counted_impl.h:169-178 | the fetch_sub, the deletion with its members in turn, and the null left behind are the release that the theorem is about |
| RefCount.Counted.DeleteMembers | default/quiche_platform_impl/quiche_reference_counted_impl.h:174-176 | destroying an object destroys its members last to first, each with what it releases |
| RefCount.Pointer.Empty | default/quiche_platform_impl/quiche_reference_counted_impl.h:41-53 | a null pointer joins the heap, which stays in order |
| RefCount.Pointer.Wrap | default/quiche_platform_impl/quiche_reference_counted_impl.h:46-50 | a new object has one pointer, and its count is that |
| RefCount.Pointer.Copy | default/quiche_platform_impl/quiche_reference_counted_impl.h:56-66 | counts equal pointers after copying |
| RefCount.Pointer.Move | default/quiche_platform_impl/quiche_reference_counted_impl.h:69-72 | counts equal pointers after moving, and the other is null |
| RefCount.Pointer.ConvertingMove | default/quiche_platform_impl/quiche_reference_counted_impl.h:73-81 | the same effect on the heap as the plain move |
| RefCount.Pointer.Destroy | default/quiche_platform_impl/quiche_reference_counted_impl.h:42 | the pointer releases what it holds and is gone |
| RefCount.DestroyKeepsOrder | default/quiche_platform_impl/quiche_reference_counted_impl.h:42 | the heap stays in order when a pointer that is no member is destroyed |
| RefCount.CopyKeepsOrderIff | default/quiche_platform_impl/quiche_reference_counted_impl.h:84-96 | for any two pointers: copy assignment leaves the heap in order exactly if the pointer assigned to survives the release and the new target is null or held by another pointer that survives it; otherwise something destroyed is reached |
| RefCount.MoveKeepsOrderIff | default/quiche_platform_impl/quiche_reference_counted_impl.h:99-104 | move assignment leaves the heap in order exactly if both pointers survive the release, self-assignment included |
| RefCount.ConvertingMoveKeepsOrderIff | default/quiche_platform_impl/quiche_reference_counted_impl.h:105-112 | adding a reference and giving one up does so in the same cases, and then has the same effect as the plain move |
| RefCount.NextOfLast | default/quiche_platform_impl/quiche_reference_counted_impl.h:84-104 | the input that fails: assigning, by copy or move, from a member of the object whose last reference is given up, when that member holds the last reference to the new one |
| RefCount.Pointer.AssignCopy | default/quiche_platform_impl/quiche_reference_counted_impl.h:84-96 | the steps compute that copy assignment, and the heap is in order after it exactly under its condition |
| RefCount.Pointer.AssignMove | default/quiche_platform_impl/quiche_reference_counted_impl.h:99-104 | the same for move assignment |
| RefCount.Pointer.AssignConvertingMove | default/quiche_platform_impl/quiche_reference_counted_impl.h:105-112 | the same for converting move assignment |
| RefCount.Pointer.AssignRaw | default/quiche_platform_impl/quiche_reference_counted_impl.h:121-127 | the old object is released and the new one held once; in order exactly if the pointer survives the release |
| RefCount.Pointer.AssignNull | default/quiche_platform_impl/quiche_reference_counted_impl.h:121-127 | the old object is released; in order exactly if the pointer survives that |
| RefCountThreadsRuns.EveryRunIsSafe | default/quiche_platform_impl/quiche_reference_counted_impl.h:21-35 | in every interleaving, with members released by whoever deletes their object, counts are the references held, zero is seen once per object, and no step touches a deleted object |
| RefCountThreadsRuns.QuiescentMeansFreedIffUnheld | default/quiche_platform_impl/quiche_reference_counted_impl.h:169-178 | between operations an object is deleted exactly when no pointer of a thread or of an object refers to it, and then its members are gone |
| RefCountThreadsRuns.UniqueIsAlone | default/quiche_platform_impl/quiche_reference_counted_impl.h:30-32 | a holder reads count 1 exactly when it is the only holder |
| RefCountThreadsRuns.UniqueIsStable | default/quiche_platform_impl/quiche_reference_counted_impl.h:30-32 | and stays it through every run of actions of other threads, as long as its pointer is not shared |
| RefCountThreadsRuns.NoThreadIsStuck | default/quiche_platform_impl/quiche_reference_counted_impl.h:161-183 | a thread with steps left can take the next one |
| RefCountThreads.OperationsAreBalanced | default/quiche_platform_impl/quiche_reference_counted_impl.h:41-127 | the steps of every constructor, assignment and destructor only add references to objects the thread itself holds |
| RefCountOperations.OperationAchieves | default/quiche_platform_impl/quiche_reference_counted_impl.h:41-127 | from the start of an operation to its last step, whatever other threads do in between: after a copy the slot holds what the other held, which keeps it; after a move or converting move it holds what the other held, which is null; after destruction or a move from itself it is null; after wrapping it holds the new object; no other slot is changed, and the members of objects deleted on the way are released |
| RefCountOperations.SharedCopyAchieves | default/quiche_platform_impl/quiche_reference_counted_impl.h:56-66 | after a copy from a shared slot the slot holds what that one held when the copy began |
| RefCountOperations.HandOverMoves | default/quiche_platform_impl/quiche_reference_counted_impl.h:69-81 | a pointer handed over, to a thread or into an object, is with its new owner alone and holds what it held |
| RefCountOperations.TakeOutMoves | default/quiche_platform_impl/quiche_reference_counted_impl.h:69-81 | so is one that a thread takes out of an object |
| RefCountThreads.CopyIsBalanced | default/quiche_platform_impl/quiche_reference_counted_impl.h:56-66 | so do the steps of a copy from a shared pointer, for what that pointer keeps |
| RefCountThreads.MembersToRelease | default/quiche_platform_impl/quiche_reference_counted_impl.h:174-176 | so do the steps of a thread that has deleted an object and releases its members before it goes on |
| RefCountThreads.ApplyKeeps | default/quiche_platform_impl/quiche_reference_counted_impl.h:161-183 | every action of every thread keeps the invariant behind these |
| RefCountThreads.SelfCopyIsBalancedIff | default/quiche_platform_impl/quiche_reference_counted_impl.h:84-89 | self-assignment only adds to an object the thread holds exactly when another pointer of the thread keeps it |
| RefCountSelfCopy.ReleaseEnds | default/quiche_platform_impl/quiche_reference_counted_impl.h:169-178 | a thread that only releases comes to the end of it, however many objects it deletes on the way |
| RefCountSelfCopy.SelfCopyIsSafeIff | default/quiche_platform_impl/quiche_reference_counted_impl.h:84-89 | from any state between operations no run after it reaches a deleted object exactly if the pointer is null, or the thread has another one to the object, or there is no other thread and something else holds it |
| ServerStreamFaults.RulesAreKeptIff | src/quit_server_stream.cc:51-116 | for all request headers: in every run after them headers are supplied exactly when no response was sent, exactly unless they are a CONNECT with an announced length that is handed to a backend |
| ServerStreamFaults.LateRefusal | src/quit_server_stream.cc:110-116 | a run of every such CONNECT in which a second header block follows the first |
| ServerStreamFaults.EveryRunIsWellFramedIff | src/quit_server_stream.cc:51-485 | for all request headers but those of such a CONNECT, in every run after them the message is well formed, with a final block exactly if response_sent_, exactly when every answer's statuses fit their use and no leftover bytes could be written |
| ServerStreamFaults.OnlyLeftoverPassesFinIff | src/quit_server_stream.cc:51-392 | for all request headers: in every run after them something follows a FIN only where a failed parse has left bytes to generate, exactly unless they are a CONNECT with an announced length that is handed to a backend |
| ServerStreamFaults.LateData | src/quit_server_stream.cc:110-116 | a run of every such CONNECT that writes behind a FIN though every answer fits and no parse failed |
| ServerStreamTunnels.TunnelIsWellFramedIff | src/quit_server_stream.cc:93-160 | in every run of such a CONNECT the rules hold and the message is well formed, with a final block exactly if response_sent_, exactly when the statuses fit, no leftover bytes could be written, and after a response no more bytes were offered at once than announced and no answer came |
| ServerStreamTunnels.RefusesIff | src/quit_server_stream.cc:99-118 | the read loop refuses exactly if the body kept and the bytes offered in one call exceed the announced length, and else takes in all bytes offered |
| ServerStreamTunnels.OfferedConnectOutcome | src/quit_server_stream.cc:99-160 | each time body is offered to a CONNECT it is refused for its length, or all of it is handed to the backend, with data_complete exactly at the end |
| ServerStreamTunnels.ConnectWithoutBackend | src/quit_server_stream.cc:143-152 | without a backend the write side is closed and nobody is asked |
| ServerStreamRuns.RequestIsRead | src/quit_server_stream.cc:99-118 | the bytes consumed and those still unread are all that has arrived, in order and once |
| ServerStreamRuns.RunIsWellFramedIff | src/quit_server_stream.cc:274-485 | for all requests but a CONNECT with an announced length, the same as EveryRunIsWellFramedIff in terms of the whole run, and: something follows a FIN exactly when leftover bytes could be written, which takes a failed parse |
| ServerStreamRuns.ConnectDataIsTheStream | src/quit_server_stream.cc:99-160 | the data handed to HandleConnectData and the body kept are the bytes consumed, which are a prefix of those that arrived, in order and once; data_complete comes once, last, and covers all that arrived |
| ServerStreamRuns.BackendSeesWholeBody | src/quit_server_stream.cc:99-219 | however reads are cut, the backend gets all bytes that arrived, once, and of the announced length, 0 included, and gets them exactly when the request is acceptable |
| ServerStreamRuns.TerminatedStreamAsksNoMore | src/quit_server_stream.cc:132-134 | after TerminateStreamWithError, in every run, the backend is asked for nothing more and not told that the data are complete |
| ServerStreamRuns.StepKeeps | src/quit_server_stream.cc:51-392 | every event keeps the invariant behind these |
| ServerStreamSending.RespondEffect | src/quit_server_stream.cc:274-355 | an answer keeps the frames sound exactly if its statuses fit their use and, unless it writes nothing, no response was sent before |
| ServerStreamFaults.EarlyBodyBreaksFraming | src/quit_server_stream.cc:428-440 | a run of an ordinary request in which a 100 with a body puts data before the headers |
| ServerStreamFaults.LeftoverBreaksFin | src/quit_server_stream.cc:332-338 | whatever run has led to it, when an answer for generated bytes is sent, at once or by its alarm, whose path is no number: nothing is written after FIN in any continuation exactly if the parse has left zero |
| ServerStreamFraming.WellFramedIffPhase | src/quit_server_stream.cc:449-485 | the frame-by-frame reading used in the proofs recognises exactly the messages of section 4.1 of RFC 9114, interim blocks being those with a status from 100 to 199 |
| ServerStreamFraming.ChunksCover | src/quit_server_stream.cc:383-392 | n bytes make ceil(n / 1024) pieces of at most 1024 bytes, all of them 'a', with FIN on the last only |
| ServerStreamFraming.GeneratedAcrossCalls | src/quit_server_stream.cc:378-392 | over any calls and any blocking, bytes written and counter make n, and what is written is a prefix of the pieces |
| ServerStreamFraming.GeneratedResponseAnnouncesItsLength | src/quit_server_stream.cc:340-347 | the content-length sent is the number of bytes the finished response carries |
| ServerStreamFraming.ZeroGeneratedBytesNeverEnd | src/quit_server_stream.cc:340-347 | for zero bytes the header block is all that is ever written |
| ServerStreamFraming.GeneratedEndsIff | src/quit_server_stream.cc:340-392 | some sequence of calls of OnCanWrite ends a generated response with FIN exactly if it has bytes |
| ServerStreamFraming.OwnResponsesAnnounceTheirLength | src/quit_server_stream.cc:394-417 | error and not-found responses: their frames, their status, 404 for the latter, and their content-length |
| ServerStreamFraming.RegularResponseIsMessage | src/quit_server_stream.cc:449-485 | a regular response adds one message |
| ServerStreamFraming.MessageIsComplete | src/quit_server_stream.cc:449-485 | which has the headers first, the body as content, the trailers last and FIN at its end alone, and is well formed exactly if its status is not informational |
| ServerStreamFraming.SpecialAnswers | src/quit_server_stream.cc:274-322 | hints in order, then 502, 500, nothing or a closed connection |
| ServerStreamFraming.RespondWrites | src/quit_server_stream.cc:274-355 | on any stream an answer adds its hints in order and then: a regular one a whole response with its headers, body and trailers; an incomplete one its headers and body, left open; a request for n bytes its headers with content-length n and bytes that with those still to come make n; a path that is no number the 404; an answer without a status 500; a backend error 502; else nothing |
| ServerStreamFraming.StopsAtFirstBlock | src/quit_server_stream.cc:383-392 | pieces are written up to the first answer that says the stream is blocked, or all of them |
| ServerStreamFraming.IncompleteResponseIsCompleted | src/quit_server_stream.cc:357-441 | an incomplete response, data in any pieces and a closing piece make one message whose content is body, pieces and last piece in order, with FIN at its end alone, well formed exactly if the status is not informational; the caller rules hold exactly if no piece is empty and nothing was sent before |
| ServerStreamFraming.StreamDataIsOnePiece | src/quit_server_stream.cc:357-369 | data from the backend is one piece, with FIN exactly when the stream is to be closed |
| ServerStreamFraming.DelayOnlyPostpones | src/quit_server_stream.cc:233-272 | a delayed response writes nothing before its alarm and then what it would have written at once; no response is a 404 |
| ServerStreamFraming.RequestHeadersOutcome | src/quit_server_stream.cc:51-97 | which request headers lead to 400, to 500, to a CONNECT at the backend, or to waiting |
| ServerStreamRuns.OfferedBodyOutcome | src/quit_server_stream.cc:99-219 | an offered body leads to waiting, to a fetch of all bytes, or to 500: at its end exactly if the request is not acceptable, before only for a body that is too long |
| ServerStreamObject.QuitServerStream.WriteGeneratedBytes | src/quit_server_stream.cc:383-392 | the loop writes the pieces of the counter up to the first block and leaves the rest in the counter |
| ServerStreamObject.QuitServerStream.Respond | src/quit_server_stream.cc:274-355 | the loop over the hints and every branch after it leave the whole state as specified |
| ServerStreamObject.QuitServerStream.ReadBody | src/quit_server_stream.cc:100-118 | the read loop terminates on the unread bytes and takes in what the regions offer, up to an overflow |
| ServerStreamObject.QuitServerStream.OnBodyAvailable | src/quit_server_stream.cc:99-141 | reading, then handing over, closing or refusing, with the whole state as specified |
| EchoSession.EchoIsFaithful | src/quit_web_transport_visitors.h:49-106 | bytes echoed and buffer are the bytes that the callbacks read; FIN once, last, with everything echoed, and only after FIN or a reset |
| EchoSession.NothingAfterStopSending | src/quit_web_transport_visitors.h:61-64 | nothing is sent after a stop-sending callback |
| EchoSession.OneWritableCatchesUp | src/quit_web_transport_visitors.h:61-83 | one callback that may write sends everything, and FIN exactly if FIN or a reset has come |
| EchoSession.CallbackCatchesUp | src/quit_web_transport_visitors.h:49-95 | every callback but stop-sending sends all that was read and not yet echoed, unless stop-sending came or the write fails, and then FIN exactly if the input has ended |
| EchoSession.DataAfterFinIsWritten | src/quit_web_transport_visitors.h:49-83 | data read after FIN is written after it exactly when there is some and the write succeeds |
| EchoSession.EchoesInCompletionOrder | src/quit_web_transport_visitors.h:214-232 | payloads given to outgoing streams and the queue are what was read from the incoming streams whose FIN was read, the read on accepting included, in the order of those |
| EchoSession.OutgoingIsAllOrNothing | src/quit_web_transport_visitors.h:152-167 | an outgoing stream carries nothing or its whole payload, with FIN exactly when it was written |
| EchoSession.EchoEndsIff | src/quit_web_transport_visitors.h:152-167 | after any callbacks, an outgoing stream can still be or has been ended with FIN exactly if its payload is not empty |
| EchoSession.WrittenIffLet | src/quit_web_transport_visitors.h:152-167 | an outgoing stream has been written exactly if it had been before, or its payload is not empty and it may write now: at once when it opens, or in its callback |
| EchoSession.NothingWaitsThatCouldBeSent | src/quit_web_transport_visitors.h:240-264 | between callbacks the queue is empty or no stream may be opened; streams opened are the lesser of the credit granted and the streams finished; one bidirectional stream is opened if it ever could, and no second |
| EchoSession.TrySendingSettles | src/quit_web_transport_visitors.h:252-264 | the sending loop ends with the queue or the credit used up |
| EchoVisitors.BidirectionalEchoVisitor.OnCanRead | src/quit_web_transport_visitors.h:49-59 | the read and the write it triggers are the step that EchoIsFaithful is about |
| EchoVisitors.ReadVisitor.OnCanRead | src/quit_web_transport_visitors.h:119-129 | the buffer grows, and on FIN the session gets all of it |
| EchoVisitors.SessionVisitor.EchoPayloadBack | src/quit_web_transport_visitors.h:226-229 | the payload joins the queue, which is then sent as far as possible |
| EchoVisitors.SessionVisitor.SendOneStream | src/quit_web_transport_visitors.h:255-262 | the front of the queue gets a stream, and its first write |
| EchoVisitors.SessionVisitor.AcceptOneStream | src/quit_web_transport_visitors.h:217-230 | an accepted stream is read at once |
| EchoVisitors.SessionVisitor.TrySendingUnidirectionalStreams | src/quit_web_transport_visitors.h:252-264 | the loop over new visitors equals the function |
| EchoVisitors.SessionVisitor.OnIncomingUnidirectionalStreamAvailable | src/quit_web_transport_visitors.h:214-232 | the accept loop, with its reentrant callback, equals the function |
| EchoVisitors.SessionVisitor.OnCanCreateNewOutgoingUnidirectionalStream | src/quit_web_transport_visitors.h:248-250 | sends what the new credit allows |
| ServerBackend.PrintedIsReadBack | src/core/quail_server_backend.cc:37-88 | printing and reading gives back the body, the status and every header but connection, a key in any letters having all its values in order, for any mix of line endings; x-original-url overrides host and path |
| ServerBackend.HeadersAreRead | src/core/quail_server_backend.cc:38-77 | printed headers are taken in one by one |
| ServerBackend.HeaderMapIsExact | src/core/quail_server_backend.cc:74-76 | the headers read back are exactly the printed ones, a key in any letters having all its values in order, joined by its separator |
| ServerBackend.IsReadIff | src/core/quail_server_backend.cc:38-77 | reading gets to its end exactly on lines with a newline each, all of them status lines with a space or lines with a colon and a space, followed by nothing or by an empty line and the body, which is the body read; on all other contents it gives up |
| ServerBackend.SchemeIsRemoved | src/core/quail_server_backend.cc:109-117 | either scheme is dropped and nothing else |
| ServerBackend.BaseIsRestOfName | src/core/quail_server_backend.cc:181-191 | the base of a file is its name below the directory with URL separators |
| ServerBackend.BaseAfterSlash | src/core/quail_server_backend.cc:181-191 | the same for a directory named with its last slash |
| ServerBackend.HostAndPathArePrefix | src/core/quail_server_backend.cc:90-107 | host and path are a prefix of the base that keeps everything before its first comma, and all of it if there is none |
| ServerBackend.PathEndsAtCommaIff | src/core/quail_server_backend.cc:90-107 | they end exactly at the first comma only if that comes after a host of one character |
| ServerBackend.PathIsCut | src/core/quail_server_backend.cc:98-106 | with a slash and a comma they are the front of the base that is as long as the positions of the two together, less one, or all of it |
| ServerBackend.KeyIgnoresPort | src/core/quail_server_backend.cc:128-135 | a port in the host does not change the key |
| ServerBackend.FirstEntryWins | src/core/quail_server_backend.cc:221-237 | a key holds what it held, or the first entry added with it, or nothing |
| ServerBackend.AddingGoesOn | src/core/quail_server_backend.cc:223-227 | a present entry never changes |
| ServerBackend.EveryLookupIsTheFixedOne | src/core/quail_server_backend.cc:137-161 | after loading, a lookup of any host and path answers exactly if some file is stored under the fixed key, by its own URL or its place in the directory |
| ServerBackend.LoadedPageIsServed | src/core/quail_server_backend.cc:137-201 | if the first of those files is a printed page, every lookup returns its status, its headers but connection, and its body |
| ServerBackend.UnreadableIsServedEmpty | src/core/quail_server_backend.cc:27-77 | if it cannot be read, or reading gives up, the headers taken in so far and no body |
| ServerBackend.PageIsStoredUnderName | src/core/quail_server_backend.cc:90-107 | a page that names no URL is stored under its host and path below the directory |
| ServerBackend.MissIsAnswered | src/core/quail_server_backend.cc:143-160 | without a file under the fixed key: the generated bytes response if there is one and the path after its first character is a number, else the default if there is one |
| ServerBackend.LookupIsDocumentedIff | src/core/quail_server_backend.cc:137-161 | a lookup of a host and path is the documented one in every cache, with any other responses set up, exactly if theirs is the fixed key |
| ServerBackend.LoadedLookupIsDocumentedIff | src/core/quail_server_backend.cc:137-201 | the same over everything that can be loaded from a directory |
| ServerBackendObject.ResourceFile.ReadHeaders | src/core/quail_server_backend.cc:38-77 | the loop over positions equals the parser over lines |
| ServerBackendObject.ResourceFile.Read | src/core/quail_server_backend.cc:27-88 | leaves headers, body, host and path as the function says, also when it gives up |
| ServerBackendObject.QuailServerBackend.GetResponse | src/core/quail_server_backend.cc:137-161 | the fixed entry, else generated bytes if the path after its first character is a number, else the default |
| ServerBackendObject.QuailServerBackend.InitializeBackend | src/core/quail_server_backend.cc:163-201 | the loop adds the entry of every file in turn, or changes nothing when it refuses; in an empty cache the first page stored under the fixed key is there with its headers and body |
| ServerBackendObject.ToUrlSeparators | src/core/quail_server_backend.cc:183-187 | the loop turns every backslash |

## Left out

- The WebTransport branches of the response stream (src/quit_server_stream.cc:76-92, 199-213): they depend on a session that is not part of this model.
- The WebTransport requests of the backend, its callbacks by path and its signal (src/core/quail_server_backend.cc:281-339): lookups in a map, with foreign calls.
- `AsciiUrlDecodeImpl` (default/quiche_platform_impl/quiche_url_utils_impl.cc:61-77): a thin filter around a foreign call.
- src/quit_server.cc, src/quit_server_session.cc, src/quit_dispatcher.cc, src/quit_converter.cc, src/api, src/impl, demo: sockets, factories, signals and start-up.
- src/quit_stream_visitor.h, src/quit_uni_stream_visitor.h, src/quit_uni_stream_write_visitor.h: cut-down copies of the echo visitors.
- Datagrams and the discarding visitor of the echo session (src/quit_web_transport_visitors.h:21-41, 234-238): they keep no state.
- The QUICHE base classes, alarms, clocks, locks, logging and file access: events or arguments.
- Memory orders weaker than interleaved atomic steps, and a count that exceeds 32 bits.
- ServerStreamObject.QuitServerStream.Respond: an empty `:path` makes the source take a substring past the end (src/quit_server_stream.cc:334); the number in the path is an argument here, so that failure is not modelled.
- ServerBackendObject.ResourceFile.Read: requires contents that do not begin with a newline, where the source reads before the first character (src/core/quail_server_backend.cc:46).
- ServerBackend.GetResponse: which strings are numbers is an argument; an empty path, of which the source reads the character after the end (src/core/quail_server_backend.cc:146), counts as none.
- UriTemplateOrder.OutcomeIsIrrelevantIf: a sufficient condition only; whether every order fails depends on which groups share a name, as in `{{a}}{{a}` and `{{a}}{{b}`.
- Assignments to and from members between threads: a member is moved out, assigned and moved in again, or copied from while it is shared; assigning to a member in place, and releasing the object it lives in by the same assignment, is in `RefCount` alone.
- Status 101, which HTTP/3 does not have (section 4.5 of RFC 9114): it counts as informational like the other statuses from 100 to 199.
- The order of headers within a block: blocks are maps.
