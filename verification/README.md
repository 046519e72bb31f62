# Verification of the usbip-win2 core

usbip-win2 is a USB/IP client for Windows: an emulated host controller that forwards the requests
of a USB device to a server over TCP. This project models the parts of it whose correctness is not
obvious from one function, and proves what they promise, for every input, run or interleaving.

One module per part; each file says which source files it follows.

| module | what it models |
|---|---|
| `Seqnum` | sequence numbers: a 31-bit number that is never zero, and the transfer direction |
| `RequestList` | the list of requests that wait for a reply, and the endpoint purge loop |
| `RequestLifecycle` | the race of send completion, reply, cancel callback and purge for a request |
| `InvokeGate` | the counter that lets a socket be closed only when no call on it is in progress |
| `Isoch` | the packet table of isochronous requests and the expansion of a compacted reply in place |
| `Pdu`, `ReceiveLoop` | byte order and validation of headers; framing of the reply stream |
| `DescriptorParser` | the configuration descriptor parser of the device-type filter |
| `DescriptorPatch` | the patch of low- and full-speed configurations in place |
| `FilterPolicy` | the whitelist policy, its registry value, and the decision on a class triple |
| `DeviceFilter` | the descriptor snapshot: taken against any server, registered, released |
| `EventQueues` | device state events, one queue for each open file |
| `RootHub` | the port table of the emulated hub: claim, reclaim, detach |
| `Reattach` | back-off of the attempts to attach a device again |
| `MultiSz`, `PersistentDevices` | the stored list of devices, written by the library, read by it and by the driver |
| `Words` | machine words and a few shared types |

How the model relates to the program:

- What runs under a lock, or is one interlocked operation, is one step. `RequestLifecycle`,
  `InvokeGate`, `EventQueues` and `RootHub` are state machines over such steps, for any number of
  threads, files or devices; the theorems are about every run. `RequestLifecycle` and `InvokeGate`
  take the framework (WDF) and the scheduler as steps of an environment.
- Code that updates fields, lists or buffers is a method, proved equal to a function of the old
  state; the lemmas are about that function. In-place algorithms work on arrays.
- 32-bit and 64-bit arithmetic wraps in the model where it can wrap in the program.
- The server, the registry, memory allocation and the results of framework calls are arbitrary
  parameters.

Where the model follows the code and the code falls short of what it is for, or its own comments or
assertions say otherwise:

- The failure branch of `send_complete` (drivers/ude/device_ioctl.cpp, line 66) looks its request up by handle, and
  handles are reused (drivers/ude/request_list.cpp, lines 69-74). If the failure is reported only after the request was
  completed by a purge and its handle was used again, the later request is taken instead. When this one was already
  marked cancelable, it is not unmarked, and the cancel callback can complete it a second time.
  `RequestLifecycle.ExactlyOneOwner` holds for every interleaving in which no failed send finds an entry that is already
  flagged cancelable; `RequestLifecycle.StraySendDoublesOwner`: whenever one does, a second owner can follow;
  `RequestLifecycle.HandleReused` is such an interleaving. `RequestLifecycle.LateSendCompletion` says exactly which
  requests a late completion leaves alone.
- The assertion at the end of `wait_invokers` (drivers/libdrv/wsk_cpp.cpp, line 358) says that the
  count is zero. `InvokeGate.CountIsZeroExactly`: it holds if and only if no refused caller is between its
  increment and its decrement; so it holds when nobody calls once the close began
  (`InvokeGate.CountIsZeroWithoutCallers`), and `InvokeGate.RefusedCallerIsCounted` is a run on which it
  fails. That no admitted call is in progress always holds (`InvokeGate.ClosedForGood`).
- A comment there (line 355) says of a closer that found no caller that the event is not to be set, "it's all over".
  `InvokeGate.NoSignalAfterClose`: nobody signals after a successful close if and only if no caller has already set
  EVENT_SET and is about to signal; `InvokeGate.SignalAfterClose` is a run on which one has.
- The assertion at the end of `repack` (drivers/ude/device_ioctl.cpp, line 344) says that the lengths
  add up to the transfer buffer. `Isoch.LengthsFillBuffer`: it holds if and only if the first offset is zero,
  or there is no packet and the buffer is empty; `Isoch.FirstOffsetNotZero` is a table for which it fails.
- The bounds check of `fill_isoc_data` (drivers/ude/wsk_receive.cpp, line 145) adds two 32-bit numbers.
  A move out of the transfer buffer is the outcome `OutsideBuffer` of the model. `Isoch.LeavesBufferExactly`:
  some reply to a table that `repack` accepts makes the loop move bytes out of the buffer if and only if the
  buffer has more than 2^31 bytes.
- A truncated registry value of the filter policy allows less than the whole value, unless the whole value is
  longer than the policy: this is an error and denies everything. `FilterPolicy.TruncationExactly` says for
  which values it holds, `FilterPolicy.OneByteTooLong` is a value for which it does not.
- A comment of `add_snapshot_descriptors` (drivers/ude/device.cpp, line 519) speaks of a device that has
  no snapshot because filtering is disabled; `check_device` takes a snapshot in that mode too.
- The back-off of `get_next_delay` never grows from a first delay of one second
  (`Reattach.ReachesTheLongestDelay`).
- A location with a comma is accepted by `make_multi_sz` of persistent devices but not read back;
  `PersistentDevices.RoundTrip` says exactly which lists survive, `PersistentDevices.CommaIsLost` is one that does not.
- Endpoint interval 0 fails a debug assertion of `to_high_speed_interval`; the model has the value that the
  code computes, 1.

## Model

| member | source | states |
|---|---|---|
| `Seqnum.Counter.Tick` | drivers/ude/context.cpp:108-121 | one interlocked increment gives the next number of the cyclic sequence with the direction bit, or zero exactly once a period |
| `Seqnum.Counter.Next` | drivers/ude/context.cpp:108-121 | the retry loop ends and issues exactly one number, whatever the counter held before |
| `Seqnum.Issued` | drivers/ude/context.h:277-279 | number and direction can be recovered from a sequence number, and the number is not zero |
| `Seqnum.SameSeqnum` | drivers/ude/context.cpp:108-121 | two calls issue the same sequence number if and only if their directions agree and they are whole periods of 2^31-1 calls apart |
| `Seqnum.DistinctWithinPeriod` | drivers/ude/context.cpp:108-121 | any 2^31-1 consecutive calls issue distinct numbers, whatever their directions |
| `RequestList.DeviceCtx.AppendRequest` | drivers/ude/request_list.cpp:54-67 | the request is linked last, not cancelable |
| `RequestList.DeviceCtx.MarkRequestCancelable` | drivers/ude/request_list.cpp:77-99 | the loop over the list marks or unlinks as MarkResult says, and counts marks |
| `RequestList.DeviceCtx.RemoveRequest` | drivers/ude/request_list.cpp:106-139 | the loop, which goes on after an entry owned by a cancel callback when many can match, removes as RemoveResult says |
| `RequestList.DeviceCtx.EndpointPurge` | drivers/ude/device.cpp:172-192 | terminates; takes exactly the requests of the endpoint that no dispatched callback owns, in order; leaves the other endpoints' entries in order and none of its own |
| `RequestList.RemoveByEndpoint` | drivers/ude/request_list.cpp:106-139 | one removal takes the head of the available requests, and none only if there are none and all entries of the endpoint are gone |
| `RequestList.FirstAvailableIsTaken` | drivers/ude/request_list.cpp:106-139 | the first match not owned by a callback is returned; only it and the owned matches before it are unlinked; the order of the rest stays |
| `RequestList.MarkFound` | drivers/ude/request_list.cpp:77-99 | marking affects the one entry with the number: marked, or unlinked if a cancel was already requested |
| `RequestList.MarkNotFound` | drivers/ude/request_list.cpp:77-99 | marking an unknown number changes nothing |
| `RequestList.MarkFirst` | drivers/ude/request_list.cpp:77-99 | the whole effect of marking: the first entry with the number is flagged in its place, its request marked and counted; if a cancel was requested it is unlinked and nothing is marked |
| `RequestList.RemoveSingle` | drivers/ude/request_list.cpp:106-139 | the whole effect of a removal by number or handle: the first match is unlinked, the others keep their order; it is returned and unmarked unless a dispatched callback owns it |
| `RequestList.RemoveKeepsOthers` | drivers/ude/request_list.cpp:106-139 | removal unlinks nothing but the returned request and entries a dispatched callback owns |
| `RequestList.RemoveOutcome` | drivers/ude/request_list.cpp:106-139 | a returned request matches, is no longer linked and will get no cancel callback; otherwise the framework's state is as before |
| `RequestLifecycle.StepKeepsInv` | drivers/ude/request_list.cpp:38-139 | every step of submit, send completion, reply, purge, cancel and completion keeps the ownership invariant, unless a failed send finds by its handle an entry that is already cancelable; what each step takes is said by the rows below |
| `RequestLifecycle.UnlinkKeepsInv` | drivers/ude/wsk_receive.cpp:516-529 | taking a request by number or by endpoint with unmarking keeps it, even against a dispatched callback |
| `RequestLifecycle.ExactlyOneOwner` | drivers/ude/request_list.cpp:38-139 | in every interleaving in which no failed send finds an entry that is already cancelable, each pending request has exactly one owner, is completed at most once, no other handle is completed, and cancelable means marked or callback dispatched |
| `RequestLifecycle.StraySendDoublesOwner` | drivers/ude/device_ioctl.cpp:66-67 | whenever a failed send does find one, that request can get a second owner: the assumption is needed at each step |
| `RequestLifecycle.HandleReused` | drivers/ude/request_list.cpp:69-74 | an interleaving, for any handle, that leads there |
| `RequestLifecycle.TwoOwners` | drivers/ude/device_ioctl.cpp:66-67 | an interleaving, for any handle, that ends with two owners of one request |
| `RequestLifecycle.IdleRequestsAreReachable` | drivers/ude/device_ioctl.cpp:47-79 | on the same interleavings no request is lost: once all actors are idle each pending request is linked and marked |
| `RequestLifecycle.LookupFindsOwn` | drivers/ude/device_ioctl.cpp:60-65 | the lookup by number finds the entry of the very request that was sent, or nothing |
| `RequestLifecycle.LateSendCompletion` | drivers/ude/request_list.cpp:69-99 | a send completion, however late, leaves a request of another instance alone, if and only if it is not a failed one whose handle that request reuses while it is linked; a successful one always does |
| `RequestLifecycle.NumberIsFresh` | drivers/ude/context.cpp:108-121 | on the same interleavings a new number is one that no linked request has, and is used up |
| `RequestLifecycle.SubmitLinks` | drivers/ude/request_list.cpp:54-67 | the request is linked last with its number and endpoint and pending from then on; all others stay untouched |
| `RequestLifecycle.SendCompletes` | drivers/ude/device_ioctl.cpp:47-79 | on the same interleavings: the request that was sent, if still linked, is marked; or taken, if the send failed or a cancel was requested; if it is not linked, nothing happens to any request |
| `RequestLifecycle.ReplyTakes` | drivers/ude/wsk_receive.cpp:516-529 | on the same interleavings a reply unlinks and unmarks the request with its number and holds it; one whose cancel callback was dispatched is only unlinked; an unknown number changes nothing; all others stay untouched |
| `RequestLifecycle.PurgeTakes` | drivers/ude/device.cpp:172-192 | on the same interleavings a turn of the purge takes the first request of the endpoint that no dispatched callback owns, and otherwise only unlinks the endpoint's entries; all others stay untouched |
| `RequestLifecycle.CallbackTakes` | drivers/ude/request_list.cpp:38-47 | on the same interleavings the cancel callback unlinks its request, unless that was done, and holds it; all others stay untouched |
| `RequestLifecycle.CompleteEnds` | drivers/ude/wsk_receive.cpp:647-684 | on the same interleavings whoever holds a request completes a pending instance that was not completed before, and no other |
| `InvokeGate.Socket.BeginInvoke` | drivers/libdrv/wsk_cpp.cpp:244-252 | counts the caller and admits it unless a close began |
| `InvokeGate.Socket.EndInvoke` | drivers/libdrv/wsk_cpp.cpp:254 | the decrement, and whether exactly CLOSING is left |
| `InvokeGate.Socket.TakeEvent` | drivers/libdrv/wsk_cpp.cpp:255 | of the callers that saw this, one gets to set EVENT_SET |
| `InvokeGate.Socket.SignalEvent` | drivers/libdrv/wsk_cpp.cpp:256 | that one signals |
| `InvokeGate.Socket.BeginClose` | drivers/libdrv/wsk_cpp.cpp:348-351 | refuses a second close; otherwise waits exactly if callers are counted |
| `InvokeGate.Socket.CloseUnused` | drivers/libdrv/wsk_cpp.cpp:355-359 | a closer that found no caller sets EVENT_SET and is done |
| `InvokeGate.Socket.EndWait` | drivers/libdrv/wsk_cpp.cpp:353-359 | the wait ends only once the event is signalled |
| `InvokeGate.StepKeepsInv` | drivers/libdrv/wsk_cpp.cpp:229-260 | each interlocked operation keeps the count in the low bits, the flags, EVENT_SET after a close, and the wake-up guarantee |
| `InvokeGate.ClosedForGood` | drivers/libdrv/wsk_cpp.cpp:344-360 | after a successful wait_invokers no admitted call is in progress, none is ever admitted and every other close is refused, on every continuation |
| `InvokeGate.SignalledOnce` | drivers/libdrv/wsk_cpp.cpp:254-257 | the event is signalled at most once, EVENT_SET implies CLOSING, one closer gets through |
| `InvokeGate.AdmittedExactly` | drivers/libdrv/wsk_cpp.cpp:244-252 | on every run a call is admitted if and only if no close has begun; the first close waits if and only if callers are counted, and any other is refused |
| `InvokeGate.ClosedMeansEventSet` | drivers/libdrv/wsk_cpp.cpp:353-359 | on every run EVENT_SET is set once a close has succeeded, so no caller sets it afterwards |
| `InvokeGate.NoSignalAfterClose` | drivers/libdrv/wsk_cpp.cpp:254-257 | after a successful close the event is not signalled on any continuation, if and only if no caller had set EVENT_SET and not signalled yet |
| `InvokeGate.SignalAfterClose` | drivers/libdrv/wsk_cpp.cpp:348-356 | a run on which one had: a refused caller between the two operations of the closer |
| `InvokeGate.NoLostWakeup` | drivers/libdrv/wsk_cpp.cpp:348-356 | while a closer waits unsignalled some caller is counted or on its way to signal; when all callers returned the closer can go on |
| `InvokeGate.CountIsZeroExactly` | drivers/libdrv/wsk_cpp.cpp:358 | on every run, after a successful close, the count is zero if and only if no refused caller is between its increment and its decrement |
| `InvokeGate.CountIsZeroWithoutCallers` | drivers/libdrv/wsk_cpp.cpp:358 | the count is zero on every run on which nobody calls invoke once the close began |
| `InvokeGate.RefusedCallerIsCounted` | drivers/libdrv/wsk_cpp.cpp:358 | a run on which it is not |
| `Isoch.Repack` | drivers/ude/device_ioctl.cpp:322-346 | accepts exactly non-decreasing offsets within the buffer; each entry gets its offset and the distance to the next, and zeros |
| `Isoch.LengthsTelescope` | drivers/ude/device_ioctl.cpp:324-344 | the lengths of the table add up to the buffer size less the first offset |
| `Isoch.LengthsFillBuffer` | drivers/ude/device_ioctl.cpp:344 | they are the whole buffer if and only if the first offset is zero, or there is no packet and no buffer |
| `Isoch.FirstOffsetNotZero` | drivers/ude/device_ioctl.cpp:344 | every table of one packet that starts elsewhere is a case where they are not |
| `Isoch.PlacePacket` | drivers/ude/wsk_receive.cpp:128-158 | a packet is moved from the end of the compacted data to its offset, or rejected with no byte changed |
| `Isoch.FillIsocData` | drivers/ude/wsk_receive.cpp:104-169 | succeeds exactly for replies that fit; then each packet has its old offset, for IN the received length and for OUT its old one, and status 0 or the translated error; every byte of the buffer is that of Expand, and without overlaps the packets read one after the other are the received bytes; nothing beyond the transfer buffer changes; a failure is that of the last packet that does not fit |
| `Isoch.ExpansionIsFaithful` | drivers/ude/wsk_receive.cpp:104-169 | for an accepted reply every packet gets its own bytes for all buffer contents if and only if no two slots overlap |
| `Isoch.KeptTableIsAccepted` | drivers/ude/wsk_receive.cpp:112-168 | a reply that keeps the table that was sent is accepted if and only if its lengths add up, and its slots do not overlap |
| `Isoch.KeptReplyIsIntact` | drivers/ude/wsk_receive.cpp:104-169 | a reply that keeps the table repack made, with as much data as its packets say, is accepted and every packet gets its own bytes |
| `Isoch.CompactInvertsExpand` | drivers/ude/wsk_receive.cpp:88-169 | removing the padding again gives the bytes that were received |
| `Isoch.ReceivedInOrder` | drivers/ude/wsk_receive.cpp:88-169 | the slices that offset and length of the packets cut from the expanded buffer, joined in order, are the bytes that were received |
| `Isoch.StaysInside` | drivers/ude/wsk_receive.cpp:112-168 | for a table in a buffer of at most 2^31 bytes no reply makes the loop leave the buffer |
| `Isoch.LeavesBufferExactly` | drivers/ude/wsk_receive.cpp:112-168 | some reply makes the loop leave the transfer buffer if and only if this has more than 2^31 bytes |
| `Isoch.BoundsCheckIsExact` | drivers/ude/wsk_receive.cpp:145 | the 32-bit sum is exact for all packets if and only if the buffer has at most 2^31 bytes |
| `Pdu.ByteswapHeader` | drivers/libdrv/pdu.cpp:64-83 | swaps the basic header before or after the part that the command selects, as the direction of the swap demands; `ReceiveLoop.SentBytes` and `ReceiveLoop.FrameExactly` say what this means for the bytes |
| `Pdu.SwapsAreInverse` | drivers/libdrv/pdu.cpp:64-83 | the two directions are inverse to each other on all headers, whatever the command |
| `Pdu.ValidateHeader` | drivers/ude/wsk_receive.cpp:533-566 | accepts exactly replies with a valid number and packet count, and restores the direction from the sequence number |
| `ReceiveLoop.LoadInvertsStore` | drivers/libdrv/pdu.cpp:16-60 | words written to memory are read back |
| `ReceiveLoop.SentBytes` | drivers/libdrv/pdu.cpp:16-83 | the bytes of a swapped header: ten words for submit and six for unlink, command and reply alike, most significant byte first; the rest as in memory |
| `ReceiveLoop.WireOfHeader` | drivers/libdrv/pdu.cpp:40-83 | the big-endian words of a server's reply are what swapping its header gives |
| `ReceiveLoop.FrameExactly` | drivers/ude/wsk_receive.cpp:533-583 | for any bytes: which headers are accepted, what their words become and how much payload follows, in terms of the big-endian words of the stream |
| `ReceiveLoop.StopsWhenUnplugged` | drivers/ude/wsk_receive.cpp:588-611 | for any bytes: nothing is read once the device is unplugged, and after a payload only if that was read or drained; the next header is behind the payload |
| `ReceiveLoop.RecvLoop` | drivers/ude/wsk_receive.cpp:588-611 | the loop accepts the headers that Headers says, whatever happens to requests and memory |
| `ReceiveLoop.HeaderIsRecovered` | drivers/libdrv/pdu.cpp:114-152 | the payload size computed from a conforming reply's header is what the server sends after it |
| `ReceiveLoop.ReplyIsFramed` | drivers/ude/wsk_receive.cpp:570-583 | reading a header where the big-endian bytes of a reply start gives that reply's header and payload size, even if the payload is missing |
| `ReceiveLoop.FramingIsKept` | drivers/ude/wsk_receive.cpp:471-611 | for any replies of a conforming server and any stream that carries them or breaks off anywhere, the i-th header is read at the i-th message boundary, known request or not; while nothing stops the loop exactly the headers that arrived are read |
| `DescriptorParser.EvaluateConfiguration` | drivers/ude/device_filter_parser.h:96-186 | the loop with its table of interface numbers computes Evaluate, for all bytes and policies |
| `DescriptorParser.AcceptsExactlyConfigurations` | drivers/ude/device_filter_parser.h:78-186 | accepts exactly the bytes that split into good descriptors with the header, the total length, an interface, and the declared number of distinct interface numbers |
| `DescriptorParser.ReportsFirstOffender` | drivers/ude/device_filter_parser.h:129-175 | during the walk the error is that of the first offending descriptor; the distinct interface numbers up to there are counted, and an interface that is not allowed is counted and named with all five fields |
| `DescriptorParser.ErrorCases` | drivers/ude/device_filter_parser.h:130-174 | what is wrong with a descriptor, by its bytes and in order |
| `DescriptorParser.HeaderErrors` | drivers/ude/device_filter_parser.h:106-123 | the result for a header that is short, of the wrong type, or tells another length |
| `DescriptorParser.GoodResult` | drivers/ude/device_filter_parser.h:176-186 | the whole result when every descriptor is good: no interface, another number than declared, or valid |
| `DescriptorParser.NumbersAre` | drivers/ude/device_filter_parser.h:139-150 | the numbers that are counted are the third bytes of the interface descriptors |
| `DescriptorPatch.ToHighSpeedInterval` | drivers/ude/descriptor_patch.cpp:19-30 | the search loop finds HighSpeedInterval |
| `DescriptorPatch.IntervalIsLeast` | drivers/ude/descriptor_patch.cpp:19-30 | the interval is the least exponent whose period is at least the requested one; the period is less than doubled; the fallback 16 is never reached |
| `DescriptorPatch.IsochronousPeriod` | drivers/ude/descriptor_patch.cpp:73-80 | the isochronous period stays the same up to the longest that can be told |
| `DescriptorPatch.ConvertedEndpoint` | drivers/ude/descriptor_patch.cpp:69-85 | bulk endpoints get 512 bytes a packet, periodic ones another interval, and no other byte changes; other or short descriptors stay |
| `DescriptorPatch.Patch` | drivers/ude/descriptor_patch.cpp:47-88 | below high speed (3) the walk over the buffer converts every descriptor in place; from high speed on no byte changes |
| `DescriptorPatch.OnlyEndpointsChange` | drivers/ude/descriptor_patch.cpp:47-88 | the split stays, and only bytes 4 to 6 of endpoint descriptors can differ |
| `DescriptorPatch.PatchKeepsResult` | drivers/ude/descriptor_patch.cpp:47-88 | the parser's whole result is the same before and after the patch, for all bytes and every policy |
| `DescriptorPatch.PatchedConfiguration` | drivers/ude/descriptor_patch.cpp:47-88 | a configuration of some descriptors becomes a configuration of the converted ones |
| `FilterPolicy.IsAllowed` | drivers/ude/device_filter.cpp:55-72 | true exactly if the filter is off or an entry agrees in every field that its flags select |
| `FilterPolicy.SanitizeLoadedPolicy` | drivers/ude/device_filter_policy.h:54-83 | a bad value gives the empty whitelist; otherwise the entries are those present in the bytes, at most 64, the others zero |
| `FilterPolicy.Load` | drivers/ude/device_filter.cpp:498-531 | the loaded policy is a function of the registry value alone, not of what the buffer held before |
| `FilterPolicy.LoadAfterStore` | drivers/ude/device_filter_policy.h:85-108 | load after store gives the policy with a known mode and at most 64 entries |
| `FilterPolicy.SameDecision` | drivers/ude/device_filter.cpp:537-561 | and decides every class triple as before |
| `FilterPolicy.TruncationAllowsLess` | drivers/ude/device_filter_policy.h:46-83 | any truncation of a value that fits the policy allows a subset of the triples, and none at all below the entries |
| `FilterPolicy.AllowsNothingExactly` | drivers/ude/device_filter_policy.h:46-83 | a value that fits allows nothing if and only if it has no header, or is a whitelist of which no entry is there |
| `FilterPolicy.TruncationExactly` | drivers/ude/device_filter.cpp:498-531 | truncation allows a subset if and only if the value fits the policy or begins with an empty whitelist |
| `FilterPolicy.OneByteTooLong` | drivers/ude/device_filter.cpp:516-523 | a stored policy that is off and full, and one byte: denied as a whole, allowed without the byte |
| `FilterPolicy.FailsClosed` | drivers/ude/device_filter_policy.h:46-53 | a missing, foreign, short or oversized value denies every triple |
| `FilterPolicy.GetAfterSet` | drivers/ude/vhci_ioctl.cpp:804-868 | the entries that were set are reported in order if they fit the caller's buffer, and which error is reported otherwise |
| `FilterPolicy.SetDecides` | drivers/ude/vhci_ioctl.cpp:804-829 | from the caller of set to a later decision: accepted exactly if all entries are there and at most 64; a triple is then allowed if and only if the mode is off or an entry that was given agrees in each field its flags select |
| `FilterPolicy.StoredBytes` | drivers/ude/device_filter.cpp:537-561 | the registry value byte by byte |
| `FilterPolicy.LoadedDecides` | drivers/ude/device_filter.cpp:498-531 | for any registry value that fits: a triple is allowed if and only if the first byte is zero or an entry that the header counts and that is wholly there agrees |
| `DeviceFilter.DeviceExt.SnapshotDeviceDescriptor` | drivers/ude/device_filter.cpp:354-404 | succeeds exactly if the device descriptor is valid and has the imported identity; a generated serial gets a string index |
| `DeviceFilter.DeviceExt.CheckConfiguration` | drivers/ude/device_filter.cpp:412-491 | succeeds exactly if the two answers of the server make an accepted configuration and there is memory; the buffer then holds its patched image, otherwise nothing stays allocated |
| `DeviceFilter.DeviceExt.CheckDevice` | drivers/ude/device_filter.cpp:565-643 | for every transcript: ready exactly if class, identity and all configurations pass; then the snapshot has exactly bNumConfigurations patched images; in any case each block is owned once |
| `DeviceFilter.DeviceExt.AddSnapshotDescriptors` | drivers/ude/device.cpp:513-553 | registers the device descriptor and every configuration in order, or a prefix of them with the reason; all of them only if no call is refused; nothing without a snapshot |
| `DeviceFilter.DeviceExt.Destroy` | drivers/ude/context.cpp:65-73 | after any run, also a half-finished one, every block is freed once and none is left |
| `DeviceFilter.RegisteredIsAllowed` | drivers/ude/device_filter.cpp:463-484 | the patched bytes that are registered are themselves a configuration that the policy allows |
| `DeviceFilter.EveryInterfaceIsAllowed` | drivers/ude/device_filter.cpp:463-466 | each interface descriptor in such a configuration has an allowed class triple |
| `DeviceFilter.DevicePassesExactly` | drivers/ude/device_filter.cpp:354-391 | the device descriptor passes if and only if the first answer is a RET_SUBMIT without error of 18 bytes, each field of the imported identity at its offset |
| `DeviceFilter.BodyExactly` | drivers/ude/device_filter.cpp:412-457 | a configuration has exactly the bytes that the second of two answers carries, as many as the nine bytes of the first announce |
| `DeviceFilter.PassesExactly` | drivers/ude/device_filter.cpp:565-643 | a device passes if and only if its class is allowed or stands for its interfaces, it has a configuration and the right descriptor, and every configuration is one of allowed interfaces |
| `DeviceFilter.RegistersTheDevice` | drivers/ude/device_filter.cpp:393-403 | the registered device descriptor is the one that the server sent; byte 16 alone becomes 255, exactly if it was zero and a serial is generated |
| `DeviceFilter.RegistersTheSnapshot` | drivers/ude/device.cpp:513-553 | what is registered is the imported identity and exactly the patched image of what the server sent for each configuration; from high speed on, exactly what it sent |
| `DeviceFilter.WhatIsRegisteredIsAllowed` | drivers/ude/device.cpp:513-553 | when the check and the registration succeed, each registered configuration is one that the loaded policy allows, whatever the server sent |
| `DeviceFilter.NoEntryIsEmpty` | drivers/ude/device.cpp:533-538 | no entry of a ready snapshot is empty, so the check for that never fails |
| `EventQueues.Vhci.ProcessEvent` | drivers/ude/vhci.cpp:790-839 | the loop serves every subscribed file of the list, and their number is events_subscribers |
| `EventQueues.Vhci.Read` | drivers/ude/vhci_ioctl.cpp:1011-1045 | the first read subscribes; a read takes the oldest event, or waits, or is refused |
| `EventQueues.Vhci.Cleanup` | drivers/ude/vhci.cpp:540-557 | the file leaves the list and the count of subscribers |
| `EventQueues.StepKeepsInv` | drivers/ude/vhci.cpp:790-839 | create, publish, read, cleanup and cancellation keep the equation, the bound and the count |
| `EventQueues.EveryRun` | drivers/ude/vhci.cpp:790-839 | on every run the events since the first read are those delivered or dropped, in order, and then the queue; at most 4*devices_cnt are queued; no queued event meets a pending read; subscribers are counted exactly |
| `EventQueues.PublishEffect` | drivers/ude/vhci.cpp:790-819 | a waiting read takes the event; otherwise it is queued and the oldest is dropped only from a full queue |
| `EventQueues.PublishCompletesReads` | drivers/ude/vhci.cpp:790-839 | an event completes one pending read of each subscribed file that has one, and no other |
| `EventQueues.ReadEffect` | drivers/ude/vhci_ioctl.cpp:1011-1045 | a read with the wrong length does nothing; otherwise it subscribes the file and takes the oldest event, or waits if it is accepted, or takes nothing; other files stay as they are |
| `EventQueues.OpenAndClose` | drivers/ude/vhci.cpp:540-557 | a new file comes last, without events; a closed one leaves the list and the count, the others stay |
| `RootHub.SetUsbPortsCnt` | drivers/ude/vhci.cpp:127-151 | for all registry numbers both ranges have a port and there are at most 255; USB 3 gets what is configured (1 to 254, 30 by default), the USB 2 range gives way |
| `RootHub.Vhci.ClaimRoothubPort` | drivers/ude/vhci.cpp:849-876 | the loop claims the first free slot of the range |
| `RootHub.Vhci.ReclaimRoothubPort` | drivers/ude/vhci.cpp:881-904 | frees the slot of the device and drops the table's reference, once |
| `RootHub.Vhci.Get` | drivers/ude/vhci.cpp:931-946 | the device found under a port has that port; no device for an invalid port |
| `RootHub.Vhci.Detach` | drivers/ude/device.cpp:820-846 | only the first detach acts: it closes the socket, joins the thread, frees exactly the slot of the device, and only then plugs out and deletes; no other device changes |
| `RootHub.Vhci.Plugin` | drivers/ude/vhci_ioctl.cpp:175-203 | claims a port, plugs in, and tells how far it came |
| `RootHub.Vhci.Connected` | drivers/ude/vhci_ioctl.cpp:277-311 | plug-in succeeds or leaves the table as it was and disposes of the device; it finds no port exactly if the range is full |
| `RootHub.DetachReleasesOnce` | drivers/ude/device.cpp:820-858 | every detach releases the slot once, after closing the socket and joining the thread and before it plugs out, deletes or attaches again |
| `RootHub.DetachDoes` | drivers/ude/device.cpp:820-858 | which calls a detach makes, each at most once: socket and thread always, plug out, delete and attach exactly under their conditions |
| `RootHub.FailedPlugInDoes` | drivers/ude/vhci_ioctl.cpp:297-303 | which calls follow a failed plug-in; the object is deleted unless it had been plugged in |
| `RootHub.ReleasedSlot` | drivers/ude/vhci.cpp:881-904 | a release frees the slot of the device and changes no other slot or device |
| `RootHub.FailedPlugInDisposes` | drivers/ude/vhci_ioctl.cpp:297-303 | so does every failed plug-in, and the last thing it does is to dispose of the device |
| `RootHub.ClaimedSlot` | drivers/ude/vhci.cpp:717-730 | a claim takes the first free slot of the range of the speed and fails exactly if all are taken |
| `RootHub.RangesSplitTheTable` | drivers/ude/vhci.cpp:717-730 | devices below super speed (5) get one of the first usb2 ports, the others one of the rest; neither range is empty |
| `RootHub.StepKeepsInv` | drivers/ude/vhci.cpp:849-904 | claim, flag, release and deletion keep the table and the devices' ports consistent |
| `RootHub.EveryRun` | drivers/ude/vhci.cpp:849-946 | on every run from the empty table slot p-1 holds a device exactly if its port is p, in the range of its speed, with one reference; a port is released at most once |
| `Reattach.GetNextDelay` | drivers/ude/persistent.h:62-72 | the delay grows by at most half, from two seconds on and up to the longest |
| `Reattach.ReachesTheLongestDelay` | drivers/ude/persistent.h:62-72 | the back-off gets to the longest delay if and only if it starts with two seconds or more, or one is the longest |
| `Reattach.GetMaxAttachAttempts` | drivers/ude/vhci.cpp:233-249 | terminates without wrap-around and returns the largest number of delays whose sum is within the limit |
| `Reattach.DefaultAttempts` | drivers/ude/vhci.cpp:261-267 | the default of 20 attempts is the largest number that fits in two hours |
| `Reattach.InitConstants` | drivers/ude/vhci.cpp:255-315 | for all registry numbers the delays are ordered within 1 and 3600 seconds and the attempts take 72 hours at most; the configured number is cut only if it must be |
| `Reattach.AttachCtx.OnPluginHardware` | drivers/ude/persistent.cpp:230-269 | a timer starts exactly if the attempt failed, may be repeated, the controller stays and the request can be used again |
| `Reattach.EveryRun` | drivers/ude/persistent.cpp:230-269 | every run ends; its timers never get shorter, stay between the first and the longest delay and total at most 72 hours |
| `Reattach.TimerExactly` | drivers/ude/persistent.cpp:230-269 | on every run another attempt came only after one that failed, may be repeated, with the controller staying, the request reusable and attempts left, a delayed start counted; and after the last outcome a timer runs exactly then |
| `MultiSz.SplitMultiSz` | userspace/libusbip/src/strconv.cpp:88-98 | the loop over the view computes Split, also when the end is missing |
| `MultiSz.MakeMultiSz` | userspace/libusbip/src/strconv.cpp:100-113 | the loop computes Make |
| `MultiSz.SplitInvertsMake` | userspace/libusbip/src/strconv.cpp:88-113 | splitting what was made gives the strings cut at the first NUL, without empty ones |
| `MultiSz.SplitCases` | userspace/libusbip/src/strconv.cpp:88-98 | the split of any view: up to the NUL and on behind it, the whole if there is none, nothing from an empty string on |
| `PersistentDevices.StrChr` | drivers/libdrv/strconv.cpp:113-124 | the index of the first separator, or -1 |
| `PersistentDevices.SplitInTwo` | drivers/libdrv/strconv.cpp:128-152 | head and tail are right also when the string that is split is one of them |
| `PersistentDevices.Attributes.ParseDeviceStr` | drivers/ude/persistent.cpp:171-193 | three aliased splits give the four fields; succeeds exactly for a valid serial and a non-empty location that can be hashed |
| `PersistentDevices.ParsePersistentDevice` | userspace/libusbip/src/persistent.cpp:60-82 | the library's split into pieces with a remaining suffix gives the same four fields as the driver's |
| `PersistentDevices.FieldsOfText` | userspace/libusbip/src/persistent.cpp:60-82 | the text hostname,service,busid,serial gives these four fields |
| `PersistentDevices.MakePersistent` | userspace/libusbip/src/persistent.cpp:29-58 | refuses a malformed device; otherwise lines, each with a NUL, and one more, or two NULs |
| `PersistentDevices.AcceptedExactly` | userspace/libusbip/src/persistent.cpp:18-27 | a device is accepted if and only if no part of the location is empty and the serial has at most 15 characters, ASCII digits or letters |
| `PersistentDevices.EndsTwice` | userspace/libusbip/src/persistent.cpp:51-55 | a stored value always ends with two NULs |
| `PersistentDevices.GetPersistent` | userspace/libusbip/src/persistent.cpp:130-158 | parses every string of the value and skips malformed ones |
| `PersistentDevices.RoundTrip` | userspace/libusbip/src/persistent.cpp:29-158 | a list that can be stored is read back unchanged if and only if no location has a comma or a NUL |
| `PersistentDevices.CommaIsLost` | userspace/libusbip/src/persistent.cpp:29-82 | a hostname with a comma is stored and not read back |
| `PersistentDevices.DriverReadsTheSame` | drivers/ude/persistent.cpp:171-193 | the driver's parse of each string that the library stored succeeds with the same device |

## Left out

- `InvokeGate.NoLostWakeup`: the wait of 30 seconds has no time limit in the model, and fewer than 2^61 calls are counted at once.
- `RequestLifecycle.ExactlyOneOwner`: fewer than 2^31-1 numbers are issued while one of them is in use, on all runs considered. The CMD_UNLINK that a cancel sends only takes a number; its own reply is a reply to no request.
- `RequestLifecycle.LateSendCompletion`: the same bound on numbers in use, and runs on which no failed send found a cancelable entry before.
- `RequestLifecycle.CompleteEnds`: like the other statements about single steps on all interleavings, it is about those on which no failed send found a cancelable entry before.
- `RequestLifecycle.StepKeepsInv`: a failed send that finds an entry that is already cancelable is left to `RequestLifecycle.StraySendDoublesOwner`.
- `ReceiveLoop.FramingIsKept`: what is done with a payload is not part of the loop; draining and receiving are both "read exactly that many bytes".
- `EventQueues.EveryRun`: adding an event to a collection succeeds, reads and the cleanup come while the file is open.
- `RootHub.EveryRun`: nobody but its creator knows a device before its port is claimed, so a detach does not precede the claim.
- `RootHub.Vhci.Detach`: what closing the socket, joining the thread (for at most a minute) and deleting the object do is not modelled, only that and in which order they are done.
- `RootHub.Vhci.Connected`: the import of the remote device and the creation of the object come before; another thread does not detach the device while it is plugged in (`RootHub.EveryRun` covers such interleavings of the table).
- `DeviceFilter.DeviceExt.CheckDevice`: sending a request is part of receiving its answer; the sequence number selects the answer.
- `FilterPolicy.Load`: a registry value larger than the policy is an error of the framework's query.
- `PersistentDevices.RoundTrip`: conversion between UTF-8 and UTF-16 is taken as the identity on valid strings.
- `PersistentDevices.Attributes.ParseDeviceStr`: the value of the hash is a parameter; the strings of a stored value have no NUL.
- `Reattach.EveryRun`: the fixed 30 seconds of a delayed start are not counted; whether a failure allows another attempt is a parameter.
- `Isoch.FillIsocData`: the translation of packet statuses is a parameter.
- Memory descriptor lists, lookaside lists, IRQL, paging, tracing and event log entries.
- The descriptor walk of the system library is taken to be the plain walk of drivers/libdrv/usbdsc.cpp.
- URB packing of control, bulk and interrupt transfers, set-configuration and set-interface shortcuts: single-branch facts.
- Collection of running attach requests and its limit; the connection of sockets; keep-alive options.
- The graphical and command-line programs, the USB id database and the installer.
