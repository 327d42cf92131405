# aisrepeater relay core, modelled in Dafny

aisrepeater (`main.go`) reads NMEA sentences line by line from a serial device and
fans each one out to every connected TCP client. One goroutine reads the device and
publishes. One goroutine accepts connections. Each connection gets its own goroutine
and a buffered channel of capacity 5. The channels are kept in a shared `readers`
slice, guarded by a mutex.

This project models the sequential core inside that plumbing:

- **Framing** (`framing.dfy`): a scanned line becomes the line followed by CR LF.
- **Bounded channel** (`bounded_queue.dfy`): a non-blocking send with drop-oldest
  overflow. Pushing any run of messages keeps exactly the newest five. A history of
  sends and receives on one channel never reorders messages, and loses none except
  those dropped by a send into a full channel.
- **Registry** (`registry.dfy`): the `readers` slice of channel handles. Registering
  appends. Unregistering swap-removes, that is, copies the last entry into the gap
  and truncates.
- **Broadcast** (`broadcast.dfy`): one publishing pass over the registry, as a fold
  over the slice.
- **Relay** (`relay.dfy`): class `Hub`, the shared state. Its fields are `readers`
  (a `seq` of handles), `queues` (a `map` from handle to buffered messages) and a
  counter for fresh handles. The methods are the steps the goroutines take:
  - `MakeChannel` and `Register`, combined in `Connect`, for a new connection;
  - `Unregister`, the scan loop with its in-place swap and truncation;
  - `Publish` and `Forward`, for the reader goroutine's loop;
  - `Receive` and `Deliver`, for a session's delivery loop and its deferred cleanup.

A Go channel is compared by reference (`reader == ch`). Here an integer handle stands
for that reference, and `MakeChannel` hands out a new one for each `make(chan string, 5)`.
Each method is one atomic step. `Publish`, `Register` and `Unregister` run under the
registry lock. A receive is atomic with respect to a publish, so the receive-then-send
on a full channel always succeeds. `Hub.Valid()` holds between steps:
- `readers` has no duplicates;
- every registered handle owns a channel;
- every channel holds at most 5 messages.

`Unregister` mirrors Go's `range` semantics. The range runs over the slice's length
at loop entry and reads the shared backing array while the slice is truncated. On a
duplicate-free slice, the model proves that `readers[i]` is always in range at the
swap (`SwapRemoveScan`). With duplicates, the Go scan may panic (e.g. `[h, h]`) or
remove several copies (e.g. `[h, h, a]` becomes `[a]`); neither is modelled. The
class invariant rules duplicates out: each session registers its own new channel
once.

## Model

| member | source | states |
|---|---|---|
| Framing.Frame | main.go:33 | the delivered unit is the scanned line followed by exactly CR LF; removing its last two characters gives the line back |
| Framing.Unframe | main.go:33 | a client's reading of one unit: it yields a line exactly when the unit ends in CR LF, and the unit is then that line plus CR LF |
| Framing.FrameRoundTrip | main.go:33 | unframing a framed line gives the line; a unit that unframes to a line is that line's frame |
| Framing.FrameInjective | main.go:33 | two lines give the same unit only if they are equal |
| BoundedQueue.Push | main.go:38-44 | a send never fails and keeps the channel within capacity 5; it grows by one when there is room, keeps its length when full, and the new message is last |
| BoundedQueue.PushKeepsNewest | main.go:38-44 | below capacity the message is appended and nothing is removed; at capacity exactly the oldest element is removed, then the message is appended, so survivors keep their order; in both cases the result is the newest 5 of old contents plus the message |
| BoundedQueue.PushAll | main.go:37-46 | pushing a run of messages with no receives in between never exceeds capacity |
| BoundedQueue.PushTimes | main.go:37-46 | pushing the same message repeatedly never exceeds capacity |
| BoundedQueue.PushAllKeepsNewest | main.go:37-46 | after any run of pushes, the channel holds exactly the newest 5 of its old contents followed by the pushed messages, in push order |
| BoundedQueue.FromEmptyKeepsNewest | main.go:37-46 | from an empty channel, k pushes leave exactly the last min(5, k) messages in push order |
| BoundedQueue.TenPushesKeepLastFive | main.go:37-46 | pushing m1..m10 into an unread channel leaves [m6..m10] |
| BoundedQueue.PushTimesIsPushAll | main.go:37-46 | n publishes of one message equal one run of n copies of it |
| BoundedQueue.Puts | main.go:37-46 | the messages sent in a history, in send order: the reference sequence for `RunPreservesOrder` and `RunConservesMessages` |
| BoundedQueue.Run | main.go:38-94 | replaying any interleaving of sends and receives on one channel keeps it within capacity |
| BoundedQueue.PutKeepsOrder | main.go:38-44 | a send keeps the channel equal to the newest part of everything sent, and what was received a subsequence of the older part |
| BoundedQueue.TakeKeepsOrder | main.go:94 | a receive takes the oldest buffered message and preserves the same ordering invariant |
| BoundedQueue.RunPreservesOrder | main.go:38-94 | for a channel that starts empty, the buffer is always a suffix of what was sent since, and the messages received form a subsequence of the rest: never reordered, nothing from before the channel existed |
| BoundedQueue.Dropped | main.go:40-43 | counts the sends that met a full channel, each discarding one message; never more than the events of the history |
| BoundedQueue.RunConservesMessages | main.go:38-94 | for a channel that starts empty, received plus still buffered plus dropped equals sent: the only gaps in what a subscriber receives come from drops on a full channel |
| Registry.SwapRemove | main.go:79-80 | the slice loses one slot; every position except the removed one keeps its entry; the removed position receives the former last entry |
| Registry.SwapRemoveSplice | main.go:79-80 | away from the end, swap-remove puts the last entry into the gap and keeps the rest |
| Registry.SwapRemoveMultiset | main.go:79-80 | swap-remove takes out exactly the one entry at the index; all other entries remain, as a multiset |
| Registry.SwapRemoveDistinct | main.go:79-80 | on a duplicate-free slice, swap-remove leaves no duplicates and no copy of the removed entry |
| Registry.Removed | main.go:77-82 | removing a handle that is not registered leaves the slice unchanged |
| Registry.RemovedSpec | main.go:77-82 | on a duplicate-free registry, removing a handle leaves it absent and the registry duplicate-free; the length drops by one exactly when the handle was present; all other handles remain, as a multiset and as members |
| Registry.RemovedIdempotent | main.go:76-83 | unregistering twice is the same as unregistering once |
| Registry.AppendFresh | main.go:89 | appending a new handle keeps the registry duplicate-free, leaves every existing entry at its position, and puts the new handle last |
| Registry.RemoveAfterAppend | main.go:77-89 | unregistering the most recently registered handle restores the registry |
| Registry.DistinctCount | main.go:37-46 | in a duplicate-free registry a handle occurs once if registered and not at all otherwise |
| Broadcast.PublishTo | main.go:37-46 | a publishing pass keeps the same set of channels |
| Broadcast.PublishToCounts | main.go:37-46 | each channel receives the message once per occurrence of its handle in the slice; channels that are not registered are unchanged |
| Broadcast.PublishToDistinct | main.go:37-46 | with a duplicate-free registry, every registered channel receives exactly one push of the message, and every other channel is unchanged |
| Relay.SwapRemoveScan | main.go:77-82 | the range loop with in-place swap and truncation computes the swap-removal of the handle's position, or leaves the slice unchanged if the handle is absent; the write `readers[i]` is always in range |
| Relay.Hub.constructor | main.go:14 | the relay starts with no registered channels |
| Relay.Hub.MakeChannel | main.go:73 | a connection's channel is new, empty, and not registered |
| Relay.Hub.Register | main.go:88-90 | the handle is appended at the end of `readers`; every existing entry keeps its position; channels are untouched |
| Relay.Hub.Unregister | main.go:76-83 | afterwards the handle is absent; if it was present, the length drops by one and the other handles remain, as a multiset; an absent handle changes nothing |
| Relay.Hub.Publish | main.go:36-47 | every registered channel receives one drop-oldest push of the message; every other channel is unchanged; the registry is unchanged |
| Relay.Hub.Receive | main.go:94 | a receive takes the oldest buffered message (FIFO) and changes no other channel; an empty channel would block and yields nothing |
| Relay.Hub.Deliver | main.go:74-101 | messages are written oldest first; while writes succeed the loop drains the channel and the registry is unchanged; on the first failed write, the written messages, the lost one and the rest are exactly the old buffer, and the deferred cleanup leaves the handle unregistered |
| Relay.Hub.Connect | main.go:73-90 | a new connection's channel is empty and registered last, so it receives nothing published before it connected |
| Relay.Hub.Forward | main.go:30-48 | each scanned line is framed and published in arrival order; every registered channel that is not read meanwhile ends up with the newest 5 of its old contents followed by the new units; other channels are unchanged |

## Left out

- Opening `/dev/ttyACM0` and exiting when that fails (main.go:21-25) is device I/O. `Forward` takes the scanned lines as a parameter.
- Line splitting by `bufio.Scanner` (main.go:29-30) belongs to Go's library. Lines are given strings, so its CR stripping and token-size limit are not modelled.
- The TCP listener, `Accept` and its retry on error, `RemoteAddr` and `c.Close` (main.go:52-67, 70) are network plumbing.
- `c.Write` (main.go:96) is outside the model. In `Deliver`, each write's success is an arbitrary choice, and the contract holds for every choice.
- Goroutines, `sync.RWMutex` and `close(ch)` (main.go:18, 36, 47, 69, 76, 83-84) are concurrency. Each method is one atomic step. A closed channel stays in `queues`, unregistered, and nothing sends to it again.
- Relay.Hub.Publish: the race is not modelled in which a session drains the channel between the failed non-blocking send and the receive at main.go:43. In Go that can block the publisher under the lock. The model treats the receive-then-send as atomic, so the receive always finds the oldest message.
- Relay.Hub.Deliver: the Go loop never returns while its connection is writable, because an empty channel blocks the receive at main.go:94. The model returns `Suspended` at that point. Later publishes followed by another `Deliver` call stand for the resumed loop. Interleavings finer than one drain are covered per channel by `BoundedQueue.RunPreservesOrder` and `BoundedQueue.RunConservesMessages`.
- Relay.Hub.Register: the requirement that the handle is not yet registered reflects that each session registers its own new channel exactly once. With duplicates the Go scan may panic (e.g. `[h, h]`) or remove several copies (e.g. `[h, h, a]` becomes `[a]`, where `Removed` would give `[a, h]`); neither is modelled.
- `fmt.Printf` logging (main.go:23, 54, 63, 67, 98) has no effect on the relay's state.
- Source-device reconnection and idle timeouts for clients do not exist in the source, so they are not modelled.
