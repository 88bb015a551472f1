# Verified model of the chat server

This project models the stateful parts of the chat server and the data structures behind it, and
proves what they guarantee. `dafny verify dfyconfig.toml` checks all of it.

Code that changes state is written as classes and methods that are proved against functions on values;
what the source promises is then proved about those functions, for every input and every run.

* **Dirty words** (`WordScan`, `WordStretch`, `WordSafety`, `Trie`). The trie is a tree of heap nodes with maps of edges.
  `Replace` masks in place, in the very array it is still reading, and is proved equal to a pure scan of the
  original text. About that scan: which runes are hidden, that no contiguous word survives, and which
  dictionary words have any effect at all. The scan never goes back, so it can miss a word that is only a
  subsequence (`GreedyMisses`), and masking twice can mask more (`NotIdempotent`);
  `WordSafety` proves for which dictionaries it never misses and for which `HasDirty` is exact, both if and
  only if, and when a second pass changes nothing.
* **Room directory** (`Directory`, `DirectoryLaws`, `DirectoryInvariant`, `DirectoryRuns`, `DeadSeats`,
  `LinkedList`, `RoomManager`, `Handlers`). A run of the server is a sequence of handler calls. `Inv` holds after every run,
  whatever clients send. The exact directory (rooms leave the list exactly when full, every player in one
  room, names and players matching one to one) is kept by a step if and only if no joined player logs in
  under another name, a check that the source does not make. Seats alone need less: `KeepsSeat` is their exact
  guard. `SecondLoginLeavesName` and `DeadSeats` say what goes wrong otherwise: a name that outlives its player,
  when exactly a second login costs a seat for good, and when exactly "no room valid" means 10000 players.
* **Framed stream** (`Bytes`, `HeadCodec`, `Cipher`, `Reassembly`, `Framing`, `FrameProcessor`,
  `FrameStream`). The head is a concrete proto3 message with base-128 varints. `Reassembly` holds for any
  packet reader; `FrameStream` instantiates it for any way of cutting a stream into reads. The body path is
  followed with compression and encryption switched on as well: the reader compresses a packed body again
  (`BodyRoundTripIff` says when a body comes back all the same), and the built-in default key has 14 bytes,
  so encryption without a key of one's own always fails (`DefaultKeyUnusable`).
* **Chat pipeline** (`TaskPool`, `PoolRuns`, `PoolLaws`, `ChatPipeline`, `ChatHistory`, `ChatLaws`,
  `ChatServer`). `PoolRuns` is the task pool at work: several queues, a worker for each, keys that share
  queues by their hash, and the bounded call queue of the loop. Connections, loops and workers take turns in
  any order, and every queue drops what does not fit. In `ChatPipeline` each room's filter is such a pool
  with one key, and all rooms share the call queue; `ChatServer` builds this from objects.
* **Word frequency** (`WordFrequency`), **heap build** (`MaxHeap`), **complete tree** (`CompleteTree`) and
  **id generator** (`Uuid`). The order of ids is characterised exactly, by the clock readings alone, with
  the wrap-around of both the counter and the id.

Each handler, each channel operation and each `Get` is one atomic step. Clock readings, read chunks, the
AES block mode, the compressor, the message handler and the comparison of the heap are parameters.

## Model

| member | source | states |
|---|---|---|
| Trie.Trie.constructor | common/containers/trie/trie.go:20-31 | a new trie holds no word |
| Trie.Trie.Grow | common/containers/trie/trie.go:70-72 | a missing edge gets one new, unmarked node, and the nodes stay a tree without sharing |
| Trie.Trie.Descend | common/containers/trie/trie.go:69-74 | one round of insert adds at most the one path asked for, keeps the nodes a tree without sharing, and ends at that path |
| Trie.Trie.Walk | common/containers/trie/trie.go:67-74 | the insert loop adds exactly the prefixes of the key and ends at the key's node |
| Trie.Trie.Insert | common/containers/trie/trie.go:63-82 | adds only its word; the empty word and duplicates change nothing; `count` stays the size of the word set under duplicates and shared prefixes |
| Trie.Trie.RepresentsWords | common/containers/trie/trie.go:63-82 | nodes are exactly the prefixes of inserted words, marked nodes exactly the words |
| Trie.Trie.FindEnd | common/containers/trie/trie.go:126-144 | the inner loop ends where a word is spelled greedily from its start, and nowhere else |
| Trie.Star | common/containers/trie/trie.go:135-138 | masking one interval turns the mask of the done intervals into the mask with that interval added |
| Trie.Trie.MaskFrom | common/containers/trie/trie.go:125-147 | one outer round masks in the array it reads, advances the scan of the original text, and reports whether it masked |
| Trie.Trie.HasDirty | common/containers/trie/trie.go:84-115 | true exactly when some stretch of the text spells a word greedily |
| Trie.Trie.Replace | common/containers/trie/trie.go:117-153 | despite `chars` aliasing `key`, hides exactly the runes of the stretches that the scan meets and keeps all others |
| WordScan.IntervalsSound | common/containers/trie/trie.go:125-147 | masked intervals are increasing, disjoint, and each hides a dictionary word of two or more runes as a subsequence that uses both ends |
| WordStretch.MatchIffStretch | common/containers/trie/trie.go:126-144 | a match from i ends at j if and only if a word, with no shorter one before, is spelled from i to j and every rune passed over leads towards no word |
| WordStretch.ScanIffStretches | common/containers/trie/trie.go:125-147 | the masked intervals are the stretches from left to right such that no stretch begins outside them, and these are unique |
| WordStretch.MaskedIffHidden | common/containers/trie/trie.go:117-153 | the output hides exactly the runes of those stretches |
| WordStretch.DirtyIffStretch | common/containers/trie/trie.go:84-115 | dirty if and only if there is a stretch |
| WordScan.OccurrenceMasked | common/containers/trie/trie.go:117-153 | every contiguous occurrence of a word of two or more runes loses its first rune |
| WordScan.OutputClean | common/containers/trie/trie.go:117-153 | no star-free word of two or more runes occurs contiguously in the output |
| WordScan.DirtyBounds | common/containers/trie/trie.go:84-115 | dirty only with a word as a subsequence, certainly dirty with one contiguously, and a clean text is returned unchanged |
| WordScan.OnlyEffectiveWordsMatter | common/containers/trie/trie.go:93-112 | one-rune words and words behind a shorter word of two or more runes never influence the scan |
| WordScan.RedundantInsert | common/containers/trie/trie.go:63-153 | inserting an extension of a word of two or more runes, or a one-rune word, changes no result on any text |
| WordSafety.NeverMissesIffSafe | common/containers/trie/trie.go:126-144 | wherever a word of two or more runes starts as a subsequence the scan finds a match, for all texts, if and only if every detour in the dictionary is rescued |
| WordSafety.SafeIsExact | common/containers/trie/trie.go:84-115 | with a dictionary that never misses HasDirty is exact |
| WordSafety.DirtyExactIffCaught | common/containers/trie/trie.go:84-115 | HasDirty is true exactly on the texts that hold a word of two or more runes as a subsequence, for all texts, if and only if every detour that loses a word is caught by a match from another place, a finite check on pairs of words |
| WordSafety.LateBranchesAreSafe | common/containers/trie/trie.go:126-144 | words that start alike and differ in the last rune only are never missed |
| WordSafety.HarmlessBranch | common/containers/trie/trie.go:126-144 | abc with ac branches without misses, abc with ad does not |
| WordSafety.ChangedIffDirty | common/containers/trie/trie.go:117-153 | Replace changes exactly the dirty texts if and only if no word consists of stars |
| WordScan.NotIdempotent | common/containers/trie/trie.go:117-153 | a second pass can mask more (abc, ad, be on abed) |
| WordSafety.SecondPassIff | common/containers/trie/trie.go:117-153 | for every dictionary a second pass changes nothing if and only if all it would hide are stars; without words of stars, if and only if HasDirty is false on the output of the first |
| WordSafety.SafeIsIdempotent | common/containers/trie/trie.go:117-153 | with a safe, star-free dictionary Replace is idempotent on every text and leaves no word even as a subsequence |
| LinkedList.List.PushBack | serverimpl/chat/game/mgr.go:64-67 | appends a new element and returns it as the handle |
| LinkedList.List.Remove | serverimpl/chat/game/mgr.go:115-118 | takes out the element with that handle only |
| RoomManager.Room.Join | serverimpl/chat/game/room.go:53-64 | refuses at 100 members, otherwise adds the member and answers full from the size before |
| RoomManager.Room.Leave | serverimpl/chat/game/room.go:66-68 | removes the member |
| RoomManager.Manager.constructor | serverimpl/chat/game/mgr.go:32-46 | the new manager stands for the empty directory |
| RoomManager.Manager.NewTid | serverimpl/chat/game/mgr.go:48-54 | the next room id, starting over at the largest int64 |
| RoomManager.Manager.Push | serverimpl/chat/game/mgr.go:64-67 | lists the room and makes the list element its back-pointer |
| RoomManager.Manager.AddRoom | serverimpl/chat/game/mgr.go:69-75 | the objects stand for the directory with one more, empty, listed room |
| RoomManager.Manager.Seat | serverimpl/chat/game/mgr.go:114-118 | entering the front room unlists it through its back-pointer exactly when it answers full |
| RoomManager.Manager.Note | serverimpl/chat/game/mgr.go:119-121 | the room id and both player maps follow the directory; rooms and list are untouched |
| RoomManager.Manager.Admit | serverimpl/chat/game/mgr.go:102-131 | front room, new room, or "no room valid", as in the directory |
| RoomManager.Manager.Join | serverimpl/chat/game/mgr.go:95-132 | result and all objects follow `Directory.Join` |
| RoomManager.Manager.Vacate | serverimpl/chat/game/mgr.go:139-142 | leaving lists an unlisted room again and no other |
| RoomManager.Manager.Forget | serverimpl/chat/game/mgr.go:147-148 | removes the player and its current name from the two maps |
| RoomManager.Manager.Leave | serverimpl/chat/game/mgr.go:134-151 | result and all objects follow `Directory.Leave`, error paths included |
| Handlers.Login | serverimpl/chat/game/cb.go:8-27 | a login step of the directory; the username changes even when the join fails |
| Handlers.JoinRoom | serverimpl/chat/game/cb.go:63-78 | a join step under the agent's current username |
| Handlers.HandleCS | serverimpl/chat/game/handler.go:34-68 | requests of destroyed agents change nothing; all others are steps of the directory, and the answer names the room in which the player now sits, or says exactly why it sits in none |
| Handlers.NewPlayer | serverimpl/chat/game/player.go:30-55 | a new connection joins nothing |
| Handlers.Destroy | serverimpl/chat/game/player.go:120-129 | a destroy step of the directory |
| Handlers.InvSteady | serverimpl/chat/game/mgr.go:95-151 | the invariant gives the handlers everything they rely on |
| DirectoryLaws.JoinLaw | serverimpl/chat/game/mgr.go:95-132 | what a join answers and changes: duplicate name if and only if the name was used, no room if and only if 100 rooms are full, else the first listed room or a new one, which is answered, entered and unlisted with its 100th place |
| DirectoryLaws.LoginRenames | serverimpl/chat/game/cb.go:8-27 | after a login the username is the requested one, whatever the join answered |
| DirectoryLaws.DestroyLaw | serverimpl/chat/game/mgr.go:134-151 | destroy frees the seat and the last name, and lists a room that was full behind all others |
| DirectoryInvariant.EnterOk | serverimpl/chat/game/mgr.go:111-118 | the chosen room always has space, so Room.Join never answers invalid, and bounds and list stay in order |
| DirectoryInvariant.StepKeepsInv | serverimpl/chat/game/mgr.go:95-151 | every legal step keeps: at most 100 rooms of at most 100 members, the list holding exactly the rooms with a back-pointer, once each, all of them with space |
| DirectoryRuns.RunKeepsInv | serverimpl/chat/game/mgr.go:95-151 | so does every run, repeated logins included |
| DirectoryRuns.NoNameJoinsTwice | serverimpl/chat/game/mgr.go:96-100 | no username joins twice in any run |
| DirectoryRuns.AnyRunOfAServer | serverimpl/chat/game/mgr.go:95-151 | every run from the empty server keeps the directory in order |
| DirectoryRuns.RoomJoinIffNameless | serverimpl/chat/game/cb.go:63-78 | REQ_JOIN_ROOM joins if and only if the agent is not destroyed and has no name, the empty name is unused and there is space |
| DirectoryRuns.RoomJoinsOnce | serverimpl/chat/game/cb.go:63-78 | hence it succeeds at most once in the server's life, and never when the empty name is used up |
| DirectoryRuns.StepExactIffGuarded | serverimpl/chat/game/cb.go:16-24 | a step keeps the exact directory if and only if no joined player logs in under another name |
| DirectoryRuns.GuardedRunExact | serverimpl/chat/game/mgr.go:95-151 | guarded runs keep it: unlisted exactly at 100 members, one room per player, names and players one to one |
| DirectoryRuns.MembersPartitionPlayers | serverimpl/chat/game/mgr.go:114-121 | member sets are disjoint, together the joined players, and their sizes add up |
| DirectoryRuns.StepSeatedIffKeepsSeat | serverimpl/chat/game/mgr.go:95-151 | whatever the names, a step keeps every seat with the one player whose room it is if and only if no joined player joins again but into its own room with two places left |
| DirectoryRuns.SeatsKeptRun | serverimpl/chat/game/mgr.go:95-151 | so does every run of such steps |
| DirectoryRuns.GuardedKeepsSeats | serverimpl/chat/game/cb.go:16-24 | runs in which players join only while not joined are of that kind |
| DirectoryRuns.NoRoomIffTenThousand | serverimpl/chat/game/mgr.go:103-109 | while seats are kept, "no room valid" is answered to a fresh name exactly when 10000 players are joined |
| DirectoryRuns.RoomsBoundedByPeak | serverimpl/chat/game/mgr.go:102-112 | when a run that keeps seats opened a room, 100 * (rooms - 1) is below the peak number of joined players |
| DirectoryRuns.RoomsOfAServer | serverimpl/chat/game/mgr.go:102-112 | the same from the empty server, together with exactness |
| DirectoryRuns.SecondLoginLeavesName | serverimpl/chat/game/cb.go:8-27 | without the guard there is a run after which nobody is joined and a name still leads to a player |
| DeadSeats.SeatLostIff | serverimpl/chat/game/mgr.go:95-151 | a second login of a joined player costs its seat, also after Destroy, if and only if it succeeds and the next room is another one |
| DeadSeats.DeadSeatStays | serverimpl/chat/game/mgr.go:134-151 | no later run of the server ever frees that seat |
| DeadSeats.DeadSeatTakesRoom | serverimpl/chat/game/mgr.go:95-132 | from then on fewer than 10000 players can be joined |
| DeadSeats.NoRoomMeansTenThousandIffSeated | serverimpl/chat/game/mgr.go:103-109 | on every directory with the invariant: when "no room valid" is answered, 10000 players are joined if and only if every seat belongs to the one player whose room it is |
| DeadSeats.NoRoomOfAServer | serverimpl/chat/game/mgr.go:103-109 | the same after every run of a server, whatever clients send |
| DeadSeats.NoRoomWithEmptySeats | serverimpl/chat/game/mgr.go:103-109 | the other case can be reached: "no room valid" to every fresh name with fewer than 10000 players joined |
| HeadCodec.VarintRoundTrip | pb/raw/cs.proto:37-41 | every 64-bit value survives a base-128 varint, whatever follows it |
| HeadCodec.VarintIsBase128 | pb/raw/cs.proto:37-41 | a varint is the shortest row of base-128 digits, least significant first, with the top bit on all but the last |
| HeadCodec.DecodeField | pb/raw/cs.proto:37-41 | parsing one written field sets exactly that field |
| HeadCodec.SetFieldMeans | pb/raw/cs.proto:37-41 | which field is which, a bool being true for every value but 0 |
| HeadCodec.UnknownVarintSkipped | pb/raw/cs.proto:37-41 | an unknown varint field is passed over whole |
| HeadCodec.UnknownFixedSkipped | pb/raw/cs.proto:37-41 | so is one of 4 or 8 bytes |
| HeadCodec.UnknownBytesSkipped | pb/raw/cs.proto:37-41 | and one of counted bytes |
| HeadCodec.HeadSample | pb/raw/cs.proto:37-41 | the bytes of one head |
| HeadCodec.HeadRoundTrip | pb/raw/cs.proto:37-41 | every head survives, negative and unknown message ids included |
| HeadCodec.HeadLength | framework/msg/cs/cs.go:209-215 | a head fits its one length byte and is empty only when all fields have their defaults |
| Cipher.PaddingRoundTrip | common/encrypt/aes/aes.go:72-85 | unpadding undoes padding for every text, as in section 6.3 of RFC 5652 |
| Cipher.PaddingBytes | common/encrypt/aes/aes.go:72-77 | 1 to 16 bytes up to a whole block, each saying how many |
| Cipher.CipherRoundTrip | common/encrypt/aes/aes.go:31-70 | encryption succeeds exactly with a usable key, and then decryption gives the text back |
| Cipher.DecryptFails | common/encrypt/aes/aes.go:51-70 | which text and key are refused, and for what |
| Cipher.DefaultKeyUnusable | common/encrypt/aes/aes.go:31-38 | without a key of one's own encryption always fails |
| Framing.FrameRoundTrip | framework/msg/cs/cs.go:76-111 | in front of any bytes a written frame is taken off exactly when head and body fit the limits and the head is not empty; otherwise which error |
| Framing.FrameParts | framework/msg/cs/cs.go:196-236 | a frame is the head length, the head and the body, in that order |
| Framing.RoundLaw | framework/msg/cs/cs.go:109-143 | a frame that fits is taken off whatever comes of it, and the handler is given its body once, if it can be unsealed |
| Framing.NoPacketLaw | framework/msg/cs/cs.go:76-109 | on anything else nothing is taken off and nothing is handed over |
| Framing.UnsealFails | framework/msg/cs/cs.go:112-136 | what a body is refused for |
| Framing.PartialFrame | framework/msg/cs/cs.go:77-109 | a frame cut short anywhere is waited for, never an error |
| Framing.SealRoundTrip | framework/msg/cs/cs.go:111-129 | an uncompressed body that could be sealed is unsealed to itself |
| Framing.BodyRoundTripIff | framework/msg/cs/cs.go:131-172 | exactly when a body survives with compression on, given that the reader compresses instead of unpacking |
| Framing.PackedIff | framework/msg/cs/cs.go:148-172 | a body is sent packed exactly when it has the least length and packing makes it shorter |
| Framing.PackedBodyLost | framework/msg/cs/cs.go:131-143 | a packed body is lost whenever packing it again does not make it longer |
| Framing.SomeBodyIsLost | framework/msg/cs/cs.go:131-143 | a compressor and a body for which the handler sees something else |
| FrameProcessor.Copy | framework/msg/cs/cs.go:230-233 | overwrites exactly the copied range |
| FrameProcessor.DoWriteData | framework/msg/cs/cs.go:196-236 | the allocated bytes are the frame |
| FrameProcessor.Reader.Front | framework/msg/cs/cs.go:77-109 | the checks at the head of the loop, in their order |
| FrameProcessor.Reader.Body | framework/msg/cs/cs.go:100-109 | those of them that follow the parsed head |
| FrameProcessor.Reader.Handle | framework/msg/cs/cs.go:112-143 | decrypts, compresses and hands over, or fails without handing over |
| FrameProcessor.Reader.Round | framework/msg/cs/cs.go:76-144 | one round of the loop |
| FrameProcessor.Reader.Deal | framework/msg/cs/cs.go:76-145 | the loop is the drain of its buffer for any bound |
| FrameProcessor.Reader.DealMsgExt | framework/msg/cs/cs.go:60-146 | one call drains old buffer and chunk with 16 rounds |
| Reassembly.CallRounds | framework/msg/cs/cs.go:76-145 | on any bytes: a call hands over what each of its rounds gives, the last one included, keeps what that one left, and fails with its error |
| Reassembly.DrainOnStream | framework/msg/cs/cs.go:76-145 | on a piece of a stream a call hands over its complete frames, at most the bound, and keeps the rest |
| Reassembly.StreamDelivery | framework/msg/cs/cs.go:60-146 | any reader that carries the frames delivers a prefix in order and loses no byte, for any cut into reads |
| Reassembly.LeavesWorkOnlyWhenFull | framework/msg/cs/cs.go:76-145 | on any bytes, a call that could go on has used all its rounds |
| Reassembly.LeavesFrameIff | framework/msg/cs/cs.go:75-145 | on a piece of a stream, a call leaves a complete frame if and only if its buffer held more than the bound |
| Reassembly.NeverLagsIff | framework/msg/cs/cs.go:60-146 | over a run, no call ever leaves one if and only if no read completes more than the bound |
| Reassembly.BigFramesNeverLag | framework/msg/cs/cs.go:76-145 | reads of at most n * size bytes and frames of at least size never leave a complete frame waiting |
| FrameStream.FrameCarries | framework/msg/cs/cs.go:196-236 | every sendable message travels whole, encryption included |
| FrameStream.Delivery | framework/msg/cs/cs.go:60-146 | delivered messages are a prefix of those sent, and their frames, the buffer and the unread bytes are the stream |
| FrameStream.LeavesFrameOnlyAfterSixteen | framework/msg/cs/cs.go:75-145 | on any bytes, a call without error leaves a complete frame only after 16 deliveries |
| FrameStream.BigFramesNeverLag | serverimpl/chat/game/player.go:131-152 | with 4096-byte reads and frames of at least 256 bytes no call ever leaves a complete frame |
| FrameStream.LeavesFrameIffMoreThanSixteen | framework/msg/cs/cs.go:75-145 | on a piece of a stream, a call leaves a complete frame if and only if its buffer held more than 16 |
| FrameStream.NeverLagsIff | framework/msg/cs/cs.go:60-146 | over a run, no call ever leaves one if and only if no read completes more than 16 frames |
| TaskPool.TaskQueues.constructor | common/task/pool.go:41-67 | default sizes, empty queues |
| TaskPool.HashSample | common/task/pool.go:190-196 | the hash of keys is FNV-1a |
| TaskPool.TaskQueues.TrySend | common/task/pool.go:134-147 | a full queue loses the task, any other appends it |
| TaskPool.TaskQueues.TakeTask | common/task/pool.go:168-175 | a worker receives the oldest task of its queue |
| TaskPool.TaskQueues.FindQueue | common/task/pool.go:98-109 | the scan ends within one lap, at the first queue with space or at the cursor again |
| TaskPool.TaskQueues.AddTask | common/task/pool.go:94-147 | a keyless task goes to the scanned queue and the cursor moves past it |
| TaskPool.TaskQueues.AddKeyedTask | common/task/pool.go:113-147 | the key alone decides the queue; the others are untouched |
| TaskPool.TaskQueues.AddFixedTask | common/task/pool.go:219-237 | an index out of range moves on by one; -1 exactly when the task was lost |
| TaskPool.LostOnlyWhenAllFull | common/task/pool.go:97-112 | a keyless task is lost exactly when every queue is full |
| TaskPool.DealOne | common/task/pool.go:94-147 | while not all queues are full the queue under the cursor gets the task |
| TaskPool.RoundRobin | common/task/pool.go:94-147 | from empty queues m submissions leave min(m, queues * bound) tasks, dealt out in turn |
| TaskPool.EvenLengths | common/task/pool.go:94-147 | dealt queues differ by at most one task |
| PoolRuns.StepKeepsInv | common/task/pool.go:86-188 | whoever moves next, every queue with its worker and its callbacks stays in submission order, each task worked on exactly once before its callback |
| PoolRuns.KeyOrder | common/task/pool.go:86-188 | under every interleaving, with drops at all queues and keys sharing queues, the tasks executed for a key, with or without callbacks, and the callbacks run for it are in-order, repeat-free selections of its submissions |
| PoolLaws.CallsPosted | framework/rpc/rpc.go:138-149 | a callback is appended to the call queue while that has space, and dropped only when it is full |
| PoolLaws.StepLosesIffHarmful | common/task/pool.go:86-188 | a step loses a task or a callback if and only if the queue that it needs is full, for a task without a key all queues, or the task panics |
| PoolLaws.HarmlessRunIsComplete | common/task/pool.go:86-188 | a run without such steps loses nothing |
| PoolLaws.OldestIsServed | common/task/pool.go:150-188 | the oldest task of a queue can be taken, executed and answered |
| TaskPool.ScanStopsOnce | common/task/pool.go:97-112 | the scan of a keyless task ends in one place only, the one that the run model uses |
| PoolRuns.TwoKeyless | common/task/pool.go:94-147 | from empty queues the scan puts two tasks into two neighbouring queues |
| PoolRuns.KeylessInOrderIff | common/task/pool.go:94-112 | callbacks of tasks without a key run in order of submission in every run if and only if there is one queue, or no callback can be posted |
| ChatPipeline.ChatStepIsPoolRun | common/word/filter/filter.go:42-64 | every step of the chat is a run of the task pool of each room's filter, for which everybody else's calls are foreign |
| ChatPipeline.StepAsSaid | framework/rpc/rpc.go:138-172 | lines reach a filter in the order in which connections posted them, without repeats |
| ChatHistory.SaidIsPosted | framework/rpc/rpc.go:152-172 | what was said is what connections posted: sender, text and order |
| ChatLaws.SayPosts | framework/rpc/rpc.go:138-149 | a chat request is dropped only when the call queue is full |
| ChatLaws.ReplyPosts | common/task/pool.go:150-166 | so is the callback of a masked line |
| ChatLaws.CallsFill | framework/rpc/rpc.go:138-149 | of m requests in a row the first min(m, space) are kept, in order |
| ChatLaws.TurnHands | serverimpl/chat/game/mgr.go:157-178 | a turn hands the oldest request to the filter of its sender's room and does nothing else |
| ChatHistory.StepInOrder | common/task/pool.go:134-188 | whoever moves next, lines, pool and history of a room stay in order |
| ChatHistory.ShowKeepsLast | serverimpl/chat/game/room.go:32-47 | the history stays the last 50 of all lines shown |
| ChatHistory.HistoryIsSelection | serverimpl/chat/game/mgr.go:157-178 | after any interleaving, with drops everywhere, the history is the last 50 of an in-order, repeat-free selection of the lines that connections posted in this run, each masked |
| ChatLaws.LineArrives | serverimpl/chat/game/mgr.go:173-176 | a line said in a quiet room becomes, masked, the newest message of its history |
| ChatLaws.HistoryHasNoGaps | serverimpl/chat/game/mgr.go:157-178 | if no queue is full on the way of a room's lines and no task of its filter panics, the history is the last 50 of the first lines that the filter was given, without a gap |
| ChatLaws.OpenLaw | common/word/filter/filter.go:23-33 | a new room has no messages and a filter of 300 empty queues for 10000 tasks each |
| ChatHistory.HistoryIsMasked | serverimpl/chat/game/mgr.go:173-176 | every message of a history is one of the lines that connections posted, masked |
| ChatHistory.HistoryIsClean | serverimpl/chat/game/mgr.go:173-176 | no run puts a star-free dictionary word of two or more runes into a history |
| ChatServer.ChatRoom.constructor | serverimpl/chat/game/room.go:20-30 | a room with an unused pool of its own and an empty list of messages |
| ChatServer.ChatRoom.AddMsg | serverimpl/chat/game/room.go:32-47 | the linked list holds the last 50 messages; returns the new length |
| ChatServer.ChatRoom.Check | common/word/filter/filter.go:42-64 | submits to the queue that the filter's key selects in the room's own pool |
| ChatServer.Server.OpenRoom | serverimpl/chat/game/mgr.go:69-75 | adds a room that shares nothing with the others |
| ChatServer.Server.SayLine | framework/rpc/rpc.go:152-172 | a posted line enters the shared call queue or is dropped, and no room changes |
| ChatServer.Server.RunTurn | framework/module/server.go:137-143 | one turn of the loop over the objects is a turn of the pipeline, and changes one room only |
| ChatServer.Server.WorkAt | common/task/pool.go:168-175 | an idle worker receives from its queue in the room's pool |
| ChatServer.Server.ReplyFrom | common/task/pool.go:150-166 | the line is masked and its callback posted or dropped |
| ChatServer.Server.Recover | common/task/pool.go:151-157 | a task that panics posts nothing |
| WordFrequency.AcceptedIsPrefix | common/word/frequency/wordsbysec/wordsbysec.go:27-33 | a slot counts a prefix of the offered words: all of them, or up to its last distinct word |
| WordFrequency.AcceptedUntilFull | common/word/frequency/wordsbysec/wordsbysec.go:27-33 | and nothing is refused before that |
| WordFrequency.CountsAppend | common/word/frequency/wordsbysec/wordsbysec.go:32-37 | the incremental maximum stays a true maximum of exact counts |
| WordFrequency.Words.constructor | common/word/frequency/wordsbysec/wordsbysec.go:15-21 | an empty slot |
| WordFrequency.Words.Add | common/word/frequency/wordsbysec/wordsbysec.go:27-38 | counts and maximum are those of the accepted prefix |
| WordFrequency.LessIsStrictWeak | common/word/frequency/wordmeta/meta.go:16-27 | what sort.Sort needs of Less, nil entries included |
| WordFrequency.Sort | common/word/frequency/frequency.go:178-180 | a permutation sorted by Less |
| WordFrequency.Frequency.constructor | common/word/frequency/frequency.go:29-39 | one empty slot |
| WordFrequency.Frequency.OnTimePassed | common/word/frequency/frequency.go:76-82 | the window keeps 1 to 60 slots, drops only its oldest, and starts an empty one |
| WordFrequency.Frequency.OnWord | common/word/frequency/frequency.go:52-65 | a word is offered to the newest slot only |
| WordFrequency.WindowIsLastSeconds | common/word/frequency/frequency.go:52-82 | after any run of ticks and words the window holds the words of the last 60 seconds, second by second |
| WordFrequency.SecondsCutWords | common/word/frequency/frequency.go:52-82 | those seconds are the offered words in their order, cut at the ticks |
| WordFrequency.Frequency.StartSlot | common/word/frequency/frequency.go:147-154 | max(0, offset) slots back, or none |
| WordFrequency.Frequency.Collect | common/word/frequency/frequency.go:156-174 | a largest entry of every slot asked for that counted a word, and nothing else |
| WordFrequency.First | common/word/frequency/frequency.go:176-184 | an entry with the largest count, or none |
| WordFrequency.Frequency.ProcessTask | common/word/frequency/frequency.go:120-185 | asked for N slots from max(0, ts - newest) back: none if they counted nothing; an answer is a word with its exact count in one of them, and no word has a larger count in any |
| MaxHeap.SwapUnlessLess | common/containers/maxHeap/heap.go:18-28 | heapify stops exactly when every child is less; a tie is swapped |
| MaxHeap.SwapDown | common/containers/maxHeap/heap.go:18-28 | swapping the largest child up, ties included, leaves at most one misplaced value, one level down |
| MaxHeap.SwapLargest | common/containers/maxHeap/heap.go:11-28 | the body of heapify up to its recursive call |
| MaxHeap.Heapify | common/containers/maxHeap/heap.go:11-33 | terminates even when equal elements are swapped, and restores the order |
| MaxHeap.SiftBySwaps | common/containers/maxHeap/heap.go:11-33 | its result is reached by a list of swaps, at most as many as the node is high |
| MaxHeap.BuildBySwaps | common/containers/maxHeap/heap.go:35-42 | so is that of the whole loop, within the sum of the heights |
| MaxHeap.HeightsBelowSize | common/containers/maxHeap/heap.go:35-42 | the heights of all nodes add up to less than their number |
| MaxHeap.New | common/containers/maxHeap/heap.go:35-42 | for any strict weak order: a permutation, no parent less than a child, a maximum in front, reached by at most n - 1 swaps that are listed |
| CompleteTree.Fill | common/containers/completebt/completebt.go:49-51 | stores the entry and hangs two new empty nodes below |
| CompleteTree.CompleteBT | common/containers/completebt/completebt.go:44-54 | every node of the subtree holds the entry of its index, nil entries included, and has the children 2k + 1 and 2k + 2 |
| CompleteTree.FromSlice | common/containers/completebt/completebt.go:58-66 | the same for the whole slice, on new nodes |
| CompleteTree.EveryIndexHasNode | common/containers/completebt/completebt.go:44-54 | no index is left out |
| CompleteTree.EmptyNodesOf | common/containers/completebt/completebt.go:44-66 | 2n + 1 nodes, exactly n + 1 of them empty, on the level of index n or the next |
| CompleteTree.DepthIsLog | common/containers/completebt/completebt.go:52-53 | the depth of index k is the whole part of log2(k + 1) |
| CompleteTree.VisitsEachOnce | common/containers/completebt/completebt.go:26-41 | the pre-order walk visits every entry exactly once |
| CompleteTree.PreOrderIsPre | common/containers/completebt/completebt.go:26-41 | no node is visited behind one below it, and nothing of a right subtree before anything of the left one |
| CompleteTree.Literal | common/containers/completebt/completebt.go:26-41 | prints the entries in that order, each in brackets, skipping empty strings |
| CompleteTree.LiteralReadsBack | common/containers/completebt/completebt.go:26-41 | the non-empty texts in pre-order can be read back from the print, if no text holds a separator |
| CompleteTree.SeparatorInside | common/containers/completebt/completebt.go:26-41 | otherwise two trees can print the same |
| Uuid.UUID.Reset | common/uuid/uuid.go:11-18 | a new second restarts the counter |
| Uuid.UUID.Get | common/uuid/uuid.go:20-24 | one tick of the generator, with the int32 counter wrapping around |
| Uuid.IdsIncreaseIffPaced | common/uuid/uuid.go:11-24 | ids strictly increase if and only if the clock never goes back, no second sees 2^31 calls, and at most d * 2^24 calls come before a step of d seconds |
| Uuid.CalmIdsIncrease | common/uuid/uuid.go:5-24 | with at most 2^24 calls a second, a clock that never goes back and any clock below 2^39, ids strictly increase and stay positive in int64 if and only if second 2^39 - 1 does not see all its 2^24 calls |
| Uuid.CalmId | common/uuid/uuid.go:11-24 | in a calm run the n-th call of second t is answered t * 2^24 + n |
| Uuid.IdsFitInt64 | common/uuid/uuid.go:23-23 | for clocks below 2^39 - 128 no counter value leaves int64 |

## Left out

- Trie.Trie.Replace: texts are rune sequences, so the replacement of invalid UTF-8 by the conversion to runes and back is not modelled; neither is reading the word list from a file.
- HeadCodec.DecodeHead: protobuf groups, deprecated in proto3, count as malformed; unknown fields of every other wire type are skipped as in the library.
- FrameProcessor.DoWriteData: only the one-byte length that the source is compiled with; the allocation is required not to overflow 32 bits, where the source panics.
- Handlers.Destroy: runs once for each agent, since only the read loop of a connection ends in it; the inactivity check that could close a connection twice has no caller on the server.
- ChatHistory.HistoryIsSelection: a history entry keeps the sender's fd; the source looks up the sender's username when the callback runs and adds the time of day. Which room the sender is in when its request runs is an input of the step.
- WordSafety.SafeIsIdempotent: for a dictionary the condition is sufficient; the exact condition is stated for each text (`SecondPassIff`).
- WordFrequency.Sort: stands for the library's sort by its contract; an insertion sort takes its place.
- Data races: broadcasts read member sets on worker goroutines, and `UUID.Get` and `curIndex` are not synchronised. Each call is one atomic step here.
- The broadcast and history notifications of `Join` and of chat callbacks: they send messages and change no directory state.
- Splitting a sentence into words and the bounded word and query channels of the frequency counter.
- Sockets, connection limits, timers, logging, configuration, module life cycle, RPC client calls, closing of pools and servers.
- GM commands, private chat, `GetRoomList`, `SetName`: formatting and lookups over the same maps.
- `DeleteRoom`: has no caller.
- The terminal client, which repeats the frame parser with other limits.
