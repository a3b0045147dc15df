# Models and proofs for the ZooKeeper 3.4.9 C clients

The repository bundles ZooKeeper 3.4.9 with its C client library, a tool that keeps node trees in files
(zktreeutil) and a file system over ZooKeeper (zkfuse). This project models the parts of them that keep state over
many calls, and proves what they are for:

- **Trees** (`ZkPath`, `PathScan`, `Chroot`, `ZkTree`, `ZkTreeDiff`, `ZkTreeSync`, `ZkTreeExact`, `ZkTreeOrder`,
  `ZkAdaptor`, `ZkTreeUtil`, `ZkTreeMeaning`). A server is a map from paths to values; a saved tree is a tree. The
  breadth-first diff is shown to be correct, minimal, ordered and idempotent against an independent definition of
  the merge, for the loop with its two growing vectors; writing and loading are inverse.
- **Request pipeline** (`ClientPipeline`, `PipelineFifo`, `PipelineFrames`, `PipelineOrder`, `PipelineSession`,
  `PipelineCauses`, `PipelineOutcomes`, `ZHandle`, `LinkedQueue`, `Framing`). A transition system for all
  interleavings of the client's threads, with theorems over every run; a class with the loops of the code, each of
  them proved to perform steps of that system; the linked lists; and the byte stream under partial sends and receives.
- **Watches** (`HashTable`, `Watches`). The chained hash table as a map, with the expansion that relinks entries;
  exactly when a watch fires, over every run.
- **File handles** (`HandleManager`, `ZkFuseManager`, `FileMetadata`, `ZkFusePath`). Reference counts, free list
  and cache under any interleaving; the text form of metadata; the mapping of paths.
- **Wire format** (`Codec`, `WireVectors`, `RecordIO`, `Records`). Round trips for all types, for the archives that
  grow and are consumed, and for some generated records; when a vector that was read is the one on the wire.

Classes keep the fields that the code updates. A ghost field or function gives their abstract state, every method
ensures what happens to it, and the theorems are lemmas about that state. Exceptions and error codes are results.

`dafny verify dfyconfig.toml` checks everything.

## Model

| member | source | states |
|---|---|---|
| ZkTreeSync.DiffReachesMerge | zookeeper-3.4.9/contrib/zktreeutil/src/ZkTreeUtil.cc:506-619 | Executing the diff of a saved and a live tree in order, on any server that holds the live tree at that path, raises no exception, leaves exactly the merged tree there and leaves every path outside it alone. |
| ZkTreeSync.WorkReachesTarget | zookeeper-3.4.9/contrib/zktreeutil/src/ZkTreeUtil.cc:529-616 | The growing worklist, run to its end from any state in which its pairs wait, leaves the target at every path. |
| ZkTreeSync.AddTreeEffect | zookeeper-3.4.9/contrib/zktreeutil/src/ZkTreeUtil.cc:150-172 | On any server with the parent, executing the actions for a saved tree raises no exception and lays exactly that tree over what is there: a path of the tree gets its value unless that is empty and the path was there already, and every other path stays as it was. |
| ZkTreeSync.DiffKidsEffect | zookeeper-3.4.9/contrib/zktreeutil/src/ZkTreeUtil.cc:563-607 | One pass over the saved children copies the missing ones, gives the common ones their saved value, skips flagged ones, and touches no other path. |
| ZkTreeSync.DeleteAllEffect | zookeeper-3.4.9/contrib/zktreeutil/src/ZkTreeUtil.cc:609-615 | The deletions of one round remove exactly the subtrees of the live children that were not matched. |
| ZkTreeSync.RoundEffect | zookeeper-3.4.9/contrib/zktreeutil/src/ZkTreeUtil.cc:546-616 | One round of the worklist settles every path below its pair except what lies below the pairs it queues. |
| ZkTreeSync.MergeAt | zookeeper-3.4.9/contrib/zktreeutil/src/ZkTreeUtil.cc:529-616 | What the merged tree holds at a path, computed from the saved and the live value of its next component alone. |
| ZkTreeSync.MergeWF | zookeeper-3.4.9/contrib/zktreeutil/src/ZkTreeUtil.cc:529-616 | Merging well-formed trees gives a well-formed tree: sibling names stay distinct and valid. |
| ZkTreeMeaning.MergeMeaning | zookeeper-3.4.9/contrib/zktreeutil/src/ZkTreeUtil.cc:529-616 | What the diff is for, path by path: the live value where a saved node on the way, below the top and with a live parent, is flagged; the saved value everywhere else. |
| ZkTree.LessIff | zookeeper-3.4.9/contrib/zktreeutil/src/ZkAdaptor.cc:418-420 | The order of siblings and of child paths: a proper beginning first, otherwise by the first character that differs. |
| ZkTreeExact.DiffEmptyIff | zookeeper-3.4.9/contrib/zktreeutil/src/ZkTreeUtil.cc:506-619 | The diff is empty if and only if the live tree already looks like the merged one. |
| ZkTreeExact.DiffIsIdempotent | zookeeper-3.4.9/contrib/zktreeutil/src/ZkTreeUtil.cc:506-619 | Diffing the same saved tree against whatever tree the server holds after a diff was executed gives no action. |
| ZkTreeExact.DiffIsMinimal | zookeeper-3.4.9/contrib/zktreeutil/src/ZkTreeUtil.cc:506-619 | Every action is needed: a path is created only if the live tree lacks it and the merge has it, deleted only if the other way round, and set only to its merged value where that differs, with the live value as the old one. So no path is both created and deleted. |
| ZkTreeOrder.CreateFollowsParent | zookeeper-3.4.9/contrib/zktreeutil/src/ZkTreeUtil.cc:150-172 | The parent of every path that the diff creates is in the live tree or is created by an earlier action. |
| ZkTreeOrder.CreatesOnce | zookeeper-3.4.9/contrib/zktreeutil/src/ZkTreeUtil.cc:506-619 | The diff creates no path twice. |
| ZkTreeExact.MergeStable | zookeeper-3.4.9/contrib/zktreeutil/src/ZkTreeUtil.cc:529-616 | Merging the same saved tree into a tree that looks like the merge changes nothing. |
| ZkTreeDiff.DiffZkTree | zookeeper-3.4.9/contrib/zktreeutil/src/ZkTreeUtil.cc:506-619 | The loop over two vectors that grow while an index walks over them terminates and emits exactly the actions of the breadth-first specification. |
| ZkTreeDiff.CompareNodes | zookeeper-3.4.9/contrib/zktreeutil/src/ZkTreeUtil.cc:546-616 | One round appends the actions and the pairs that the specification of a round names. |
| ZkTreeDiff.CompareChild | zookeeper-3.4.9/contrib/zktreeutil/src/ZkTreeUtil.cc:563-607 | One saved child: creation, value change, skipping or queueing, and the removal of its key from the live map. |
| ZkTreeDiff.DeleteRemaining | zookeeper-3.4.9/contrib/zktreeutil/src/ZkTreeUtil.cc:609-615 | A DELETE for every live child that is left in the map, in key order. |
| ZkTreeDiff.AddTreeZkAction | zookeeper-3.4.9/contrib/zktreeutil/src/ZkTreeUtil.cc:150-172 | Recursion that appends to the passed vector: a CREATE, a VALUE if the value is not empty, then the same for the children, whatever their flags. |
| ZkTreeDiff.WeightShrinks | zookeeper-3.4.9/contrib/zktreeutil/src/ZkTreeUtil.cc:546-616 | Why the growing worklist ends: a round queues less than it takes off. |
| ZkTreeUtil.ExecuteZkActions | zookeeper-3.4.9/contrib/zktreeutil/src/ZkTreeUtil.cc:621-702 | With the execute flag the adapter ends up in the state that the confirmed actions mean, up to the first exception; without it nothing changes. |
| ZkTreeUtil.ChosenConcat | zookeeper-3.4.9/contrib/zktreeutil/src/ZkTreeUtil.cc:640-695 | The actions executed interactively are those confirmed, in order. |
| ZkTreeUtil.LoadSubtree | zookeeper-3.4.9/contrib/zktreeutil/src/ZkTreeUtil.cc:32-62 | Loading recursively gives the subtree at a path: every node, siblings in order, no flags, each value as a bounded read returns it. |
| ZkTreeUtil.LoadZkTree | zookeeper-3.4.9/contrib/zktreeutil/src/ZkTreeUtil.cc:333-359 | An exception exactly for an invalid path or a missing node; otherwise the tree has exactly the paths at and below the path that are on the server, each with the first 131071 characters of its value, or all of it if that is shorter, siblings in order and no flags. |
| ZkTreeUtil.ShownIsRead | zookeeper-3.4.9/contrib/zktreeutil/src/ZkTreeUtil.cc:32-62 | What the recursion ensures, put as in the row above: a tree that shows the server has its paths, with these beginnings of the values. |
| ZkTreeUtil.NodeNameIs | zookeeper-3.4.9/contrib/zktreeutil/src/ZkTreeUtil.cc:32-62 | A loaded node is named by its last component, the root by "/". |
| ZkTreeUtil.Update | zookeeper-3.4.9/contrib/zktreeutil/src/ZkTreeUtil.cc:506-702 | Load, diff and execute: an exception exactly for an invalid or missing path, and then nothing changes; otherwise each path of the subtree has the value of the merge of the saved tree and the one that was read, or, where that is what was read, the value it had; no other path changes. |
| ZkTreeUtil.DiffAsRead | zookeeper-3.4.9/contrib/zktreeutil/src/ZkTreeUtil.cc:506-619 | A diff against values that were cut by the read still executes without exception, and every path ends up so. |
| ZkTreeUtil.UpdateIsMergeIff | zookeeper-3.4.9/contrib/zktreeutil/src/ZkTreeUtil.cc:506-702 | After an update the subtree reads as the merge, and it is the merge exactly when the merge changes or removes every value that was too long for the read buffer. |
| ZkTreeUtil.WriteNode | zookeeper-3.4.9/contrib/zktreeutil/src/ZkTreeUtil.cc:118-148 | The recursive writer does to the server what its actions mean and stops at the first exception. |
| ZkTreeUtil.WriteZkTree | zookeeper-3.4.9/contrib/zktreeutil/src/ZkTreeUtil.cc:422-467 | With force the subtree at the path goes first, or, at the root, every child but the one reserved for ZooKeeper; then the tree is written. |
| ZkTreeUtil.DeleteRooted | zookeeper-3.4.9/contrib/zktreeutil/src/ZkTreeUtil.cc:448-461 | The loop over the children of the root leaves the root and the reserved subtree only. |
| ZkTreeUtil.WriteEffect | zookeeper-3.4.9/contrib/zktreeutil/src/ZkTreeUtil.cc:118-148 | With or without force, at any valid path that exists or whose parent does, writing raises no exception and lays the tree, pruned at flagged nodes, over the server. |
| ZkTreeUtil.RootWritten | zookeeper-3.4.9/contrib/zktreeutil/src/ZkTreeUtil.cc:422-467 | After forced writing at the root every path outside the reserved subtree is as the pruned tree has it. |
| ZkTreeUtil.WriteIsCopy | zookeeper-3.4.9/contrib/zktreeutil/src/ZkTreeUtil.cc:118-148 | Writing a tree at any path is the same actions as copying the tree without the children of flagged nodes. |
| ZkTreeMeaning.PruneMeaning | zookeeper-3.4.9/contrib/zktreeutil/src/ZkTreeUtil.cc:118-148 | What is written, path by path: nothing below a flagged node, and everywhere else what the tree has. |
| ZkTreeUtil.WriteThenLoad | zookeeper-3.4.9/contrib/zktreeutil/src/ZkTreeUtil.cc:422-467 | Forced writing at a non-root path with an existing parent raises no exception and changes no other path; loading it then gives the tree back with flagged nodes pruned, flags cleared and siblings sorted. |
| ZkTreeUtil.CanonicalUnique | zookeeper-3.4.9/contrib/zktreeutil/src/ZkTreeUtil.cc:32-62 | Two sorted trees without flags that look the same to the server are equal: a loaded tree is determined by the server. |
| ZkTreeUtil.CreateMeaning | zookeeper-3.4.9/contrib/zktreeutil/src/ZkTreeUtil.cc:621-702 | The creation that the actions are read by is the adapter's creation without ancestors. |
| ZkAdaptor.ZooKeeperAdapter.CreateNode | zookeeper-3.4.9/contrib/zktreeutil/src/ZkAdaptor.cc:261-329 | Throws exactly for an invalid path or, without ancestors, a missing parent; returns true exactly when the path was absent; then the path has the value, missing ancestors are empty, and nothing else changed. |
| ZkAdaptor.ZooKeeperAdapter.DeleteNode | zookeeper-3.4.9/contrib/zktreeutil/src/ZkAdaptor.cc:331-380 | Throws exactly for an invalid path, the root, or children without recursion; removes exactly the subtree; the recursion ends because subtrees shrink. |
| ZkAdaptor.ZooKeeperAdapter.GetNodeChildren | zookeeper-3.4.9/contrib/zktreeutil/src/ZkAdaptor.cc:382-423 | The absolute paths of exactly the children, sorted. |
| ZkAdaptor.ZooKeeperAdapter.GetNodeData | zookeeper-3.4.9/contrib/zktreeutil/src/ZkAdaptor.cc:455-486 | The beginning of the value, all of it if it has less than 131072 characters and 131071 otherwise; an exception for an invalid path or a missing node. |
| ZkAdaptor.ZooKeeperAdapter.SetNodeData | zookeeper-3.4.9/contrib/zktreeutil/src/ZkAdaptor.cc:488-511 | The node has the new value and no other node changed; an exception for a missing node. |
| ZkAdaptor.RemoveByChildren | zookeeper-3.4.9/contrib/zktreeutil/src/ZkAdaptor.cc:345-380 | Removing the subtree of every child and then the node is removing the subtree of the node. |
| ZkAdaptor.CreateLast | zookeeper-3.4.9/contrib/zktreeutil/src/ZkAdaptor.cc:284-329 | After all ancestors of a path were created one by one, creating the path gives the state of creation with ancestors. |
| ZkAdaptor.CreateDeepAt | zookeeper-3.4.9/contrib/zktreeutil/src/ZkAdaptor.cc:284-329 | What creation with ancestors leaves at each path: the value at the path, what was there where something was, the empty value on the way, nothing new elsewhere. |
| ZkAdaptor.AncestorsExist | zookeeper-3.4.9/contrib/zktreeutil/src/ZkAdaptor.cc:284-329 | A server in which every node has its parent has every ancestor of an existing node. |
| PathScan.IsValidPath | zookeeper-3.4.9/src/c/src/zookeeper.c:2558-2600 | The scan accepts, with flags 0, exactly "/" and the concatenations of "/" and components that are not empty, ".", ".." and have no character below 0x1f; for sequence nodes the last component may be unfinished. |
| PathScan.AcceptableIff | zookeeper-3.4.9/src/c/src/zookeeper.c:2558-2600 | The accepted paths, built from components: "/" and the non-empty chains of components that are not empty, ".", ".." and have neither slash nor control character; for sequence nodes such a chain and a last part of which only slashes and control characters are excluded. |
| Chroot.PrependKeepsValid | zookeeper-3.4.9/src/c/src/zookeeper.c:896-907 | A valid chroot before a valid client path is a valid path. |
| Chroot.SubUndoesPrepend | zookeeper-3.4.9/src/c/src/zookeeper.c:896-930 | Removing the chroot undoes prepending it exactly for "/" and paths of two characters or more, so for every valid client path. |
| Chroot.SubStringValidIff | zookeeper-3.4.9/src/c/src/zookeeper.c:913-930 | Removing the chroot from a valid server path that starts with it gives a valid path exactly when a component ends there. |
| Chroot.SubStringCutsInsideName | zookeeper-3.4.9/src/c/src/zookeeper.c:913-930 | The chroot "/ab" turns "/abc" into "c", which is no path. |
| Chroot.AcceptedIff | zookeeper-3.4.9/src/c/src/zookeeper.c:2606-2622 | Which client strings the check of the prepended path accepts: all of one character, and those whose part up to the first slash extends the last component of the chroot to a valid name and whose rest is valid. |
| Chroot.AcceptedInsideIff | zookeeper-3.4.9/src/c/src/zookeeper.c:896-907 | An accepted string stays at or below the chroot exactly when it is empty, has one character or is a valid path. |
| Chroot.OutsideIsAccepted | zookeeper-3.4.9/src/c/src/zookeeper.c:2606-2622 | Under the chroot "/ab" the string "cd", no valid path, is accepted and names "/abcd", outside the chroot. |
| PipelineFifo.RequestsAreFifo | zookeeper-3.4.9/src/c/src/zookeeper.c:2184-2307 | Over every run of submissions, sends, arbitrary received frames, failures and deliveries: asynchronous requests in submission order are those delivered, then those queued for delivery, then those outstanding; the count of blocked callers is exact. |
| PipelineFrames.CompletionsAreExact | zookeeper-3.4.9/src/c/src/zookeeper.c:2201-2307 | Over every run, the frames processed and those waiting are the frames received on the connection, in order, and the completions delivered and queued are exactly what the frames of all connections give rise to, in frame order, each connection closed by a faked reply for every asynchronous request it left open: a notification for every watch event, a reply for every frame that answers the oldest request. |
| PipelineFrames.EveryWatchEventIsNotified | zookeeper-3.4.9/src/c/src/zookeeper.c:2220-2239 | No watch event that was processed is lost, doubled or reordered: the notifications delivered, then queued, are the watch events of all processed frames. |
| PipelineFifo.CleanupConserves | zookeeper-3.4.9/src/c/src/zookeeper.c:1159-1233 | Giving up a connection turns every outstanding asynchronous request into a faked reply, in order, behind what is queued. |
| PipelineFifo.ErrorConserves | zookeeper-3.4.9/src/c/src/zookeeper.c:1235-1255 | The same for the whole error handling, with its session event. |
| PipelineFifo.ProcessConserves | zookeeper-3.4.9/src/c/src/zookeeper.c:2201-2307 | One processed frame neither loses nor doubles a request, in any branch. |
| PipelineFifo.DeliverConserves | zookeeper-3.4.9/src/c/src/zookeeper.c:2112-2141 | Delivering takes the oldest completion. |
| PipelineCauses.FakedRepliesHaveCause | zookeeper-3.4.9/src/c/src/zookeeper.c:1159-1255 | Over every run the faked replies delivered and waiting are exactly those owed, by a step that gave up a connection, to the asynchronous requests outstanding then, each with the error code of that step. |
| PipelineCauses.StepFakes | zookeeper-3.4.9/src/c/src/zookeeper.c:1179-1211 | The items that one step adds hold a faked reply for exactly the asynchronous requests outstanding, with the code of the failure, if the step fails, and none if it does not. |
| PipelineCauses.StepLoses | zookeeper-3.4.9/src/c/src/zookeeper.c:1235-1255 | Exactly the failing steps give up a connection, and record it with their code. |
| PipelineOutcomes.StateReachedIff | zookeeper-3.4.9/src/c/src/zookeeper.c:1557-1794 | For each state of the session, by its number, exactly which steps lead into it from another one. |
| PipelineOutcomes.AfterFailure | zookeeper-3.4.9/src/c/src/zookeeper.c:1222-1255 | A failing step closes the socket, empties the queues and goes on to the next address; the state is 0 unless the session ended. |
| PipelineOutcomes.FrameEffect | zookeeper-3.4.9/src/c/src/zookeeper.c:2201-2307 | What each kind of frame does, by its number: nothing, a notification, or the completion of the oldest request alone, through the queue or to a blocked caller. |
| PipelineOutcomes.StopsIff | zookeeper-3.4.9/src/c/src/zookeeper.c:2256-2271 | The assertion about the request of a reply fails exactly for an ordinary reply with none outstanding. |
| PipelineOutcomes.AddressesInTurn | zookeeper-3.4.9/src/c/src/zookeeper.c:1576-1649 | Calls that find no server try the addresses one after the other; after the last, one call starts over. |
| PipelineOutcomes.FlushSends | zookeeper-3.4.9/src/c/src/zookeeper.c:3273-3336 | A connected client sends as many packets as there is room for, from the front; any other sends none. |
| PipelineOutcomes.FrontGoesFirst | zookeeper-3.4.9/src/c/src/zookeeper.c:1777-1785 | What the start of a session puts in front is sent before everything that was queued. |
| PipelineOutcomes.QueuePlaces | zookeeper-3.4.9/src/c/src/zookeeper.c:982-1012 | A packet queued in front is sent next; a ping and a request are sent last. |
| PipelineOutcomes.StepTakesIn | zookeeper-3.4.9/src/c/src/zookeeper.c:1740-1755 | The frames received grow by exactly those that come in on an established connection, the accepted asynchronous requests by exactly those submitted. |
| PipelineOutcomes.RequestIsAnswered | zookeeper-3.4.9/src/c/src/zookeeper.c:2184-2307 | On an idle connection a request that is submitted, sent, answered, processed and delivered hands its caller the reply, or wakes him, and leaves the connection idle. |
| PipelineOutcomes.LastZxidIsLastProcessed | zookeeper-3.4.9/src/c/src/zookeeper.c:2204-2208 | Over every run, the zxid that the next handshake claims is that of the last processed frame that had one, on whichever connection. |
| PipelineOrder.RepliesMeetRequests | zookeeper-3.4.9/src/c/src/zookeeper.c:2256-2283 | With a server that answers in order what it has received, across any number of reconnects, the outstanding requests are those sent and unanswered on this connection followed by those still to be sent; the null-completion assertion and the xid mismatch are never reached. |
| PipelineOrder.HeadReplyMatches | zookeeper-3.4.9/src/c/src/zookeeper.c:2256-2283 | In such a state the next reply belongs to the oldest outstanding request. |
| PipelineOrder.StepKeepsAlignmentIff | zookeeper-3.4.9/src/c/src/zookeeper.c:2256-2283 | Of all steps, whatever the server sends, exactly those break the alignment of aligned queues that take a reply for the oldest request while all outstanding requests still wait to be sent. |
| PipelineOrder.RunKeepsAlignmentIff | zookeeper-3.4.9/src/c/src/zookeeper.c:2256-2283 | The queues are aligned in every state of a run from an aligned state if and only if none of its steps is of that kind. |
| PipelineOrder.ReplyKeepsAlignmentIff | zookeeper-3.4.9/src/c/src/zookeeper.c:2256-2283 | A reply with the xid of the oldest request keeps the queues aligned exactly when a request was sent and is unanswered, that is, when more requests are outstanding than wait to be sent. |
| PipelineOrder.EarlyReplyMisaligns | zookeeper-3.4.9/src/c/src/zookeeper.c:2256-2283 | A run of five steps from the start after which the queues are not aligned: connect, submit, and a reply before the request is sent. |
| PipelineSession.SessionEventsFollowPattern | zookeeper-3.4.9/src/c/src/zookeeper.c:1235-1255 | Over every run the session events delivered, then those waiting in the completion queue, are a prefix of (CONNECTED CONNECTING)* ended by at most one EXPIRED or, connected, AUTH_FAILED, and fit the state; connect_index never exceeds addrs_count and is below it while a socket is open. |
| PipelineSession.RunAnnounced | zookeeper-3.4.9/src/c/src/zookeeper.c:1830-1867 | If the session events queued so far are those delivered, then those waiting, in order, they are so after any further run: none is lost, doubled or reordered. |
| PipelineSession.NegativeStatesAbsorb | zookeeper-3.4.9/src/c/src/zookeeper.c:1235-1255 | A negative state never changes again. |
| ZHandle.ZHandle.SubmitRequest | zookeeper-3.4.9/src/c/src/zookeeper.c:2645-2681 | An API call refuses a path that is not valid behind the chroot, then a negative state; else it registers the request and queues its packet in one step of the model. |
| ZHandle.ZHandle.SendPing | zookeeper-3.4.9/src/c/src/zookeeper.c:1534-1548 | Queues one ping behind everything else. |
| ZHandle.ZHandle.ZooAddAuth | zookeeper-3.4.9/src/c/src/zookeeper.c:3396-3439 | Refuses in a negative state or while the connection is closed; a client that is connected or associating puts its authentication packet in front of the queue. |
| ZHandle.ZHandle.FlushSendQueue | zookeeper-3.4.9/src/c/src/zookeeper.c:3273-3336 | The loop sends packets while connected, as many as the socket takes: one step of the model. |
| ZHandle.ZHandle.FreeCompletions | zookeeper-3.4.9/src/c/src/zookeeper.c:1159-1220 | The loop wakes every blocked caller and queues a faked reply for every asynchronous request, in order. |
| ZHandle.ZHandle.CleanupBufs | zookeeper-3.4.9/src/c/src/zookeeper.c:1222-1233 | Both packet queues and the outstanding requests are gone, the faked replies queued. |
| ZHandle.ZHandle.HandleError | zookeeper-3.4.9/src/c/src/zookeeper.c:1235-1255 | One step of the model: socket closed, event queued, requests given up, next address. |
| ZHandle.ZHandle.QueueSessionEvent | zookeeper-3.4.9/src/c/src/zookeeper.c:1830-1867 | The event joins the completions. |
| ZHandle.ZHandle.ZookeeperInterest | zookeeper-3.4.9/src/c/src/zookeeper.c:1557-1649 | Opening a socket for the next address is one step of the model, in every outcome. |
| ZHandle.ZHandle.CheckEvents | zookeeper-3.4.9/src/c/src/zookeeper.c:1708-1794 | Writes, then reads one frame or the handshake reply: the steps of the model it names, and the return code. |
| ZHandle.ZHandle.ProcessFrame | zookeeper-3.4.9/src/c/src/zookeeper.c:2201-2307 | Handling the frame at the head of the queue is one step of the model in each branch, with the return code of that branch. |
| ZHandle.ZHandle.ZookeeperProcess | zookeeper-3.4.9/src/c/src/zookeeper.c:2184-2311 | A whole call of the I/O thread is a run of the model: the socket steps, then one step for each frame; the return code is that of the socket steps or of the first frame that ends the connection. |
| ZHandle.CheckRcTells | zookeeper-3.4.9/src/c/src/zookeeper.c:1708-1794 | Checking an open socket returns an error exactly when that gives up the connection, and then the code with which it does. |
| ZHandle.CheckTransfers | zookeeper-3.4.9/src/c/src/zookeeper.c:1730-1755 | On an established connection that does not break, packets go out when they may be written and a whole frame comes in when it may be read. |
| ZHandle.CheckConnects | zookeeper-3.4.9/src/c/src/zookeeper.c:1712-1729 | A connect under way comes to the handshake, or fails. |
| ZHandle.CheckHandshake | zookeeper-3.4.9/src/c/src/zookeeper.c:1756-1785 | The reply to the handshake establishes the session or ends it; a failing read gives up the connection. |
| ZHandle.FrameRcTells | zookeeper-3.4.9/src/c/src/zookeeper.c:2201-2307 | The return code for a frame is ZOK exactly when it neither costs the connection nor fails the assertion; otherwise it is the code of the loss. |
| ZHandle.LoopRcTells | zookeeper-3.4.9/src/c/src/zookeeper.c:2184-2311 | That of the loop is ZOK exactly when all frames that were there are processed on this connection. |
| ZHandle.ServerPathIs | zookeeper-3.4.9/src/c/src/zookeeper.c:896-907 | A request for a valid client path is made for a valid path at or below the chroot that leads back to it. |
| ZHandle.ZHandle.ProcessCompletions | zookeeper-3.4.9/src/c/src/zookeeper.c:2112-2141 | The loop delivers every queued completion, in order. |
| LinkedQueue.Queue.Enqueue | zookeeper-3.4.9/src/c/src/zookeeper.c:982-1003 | Linking an entry in at the end or, if asked, before the head: the list has it there and is otherwise the same. |
| LinkedQueue.Queue.Dequeue | zookeeper-3.4.9/src/c/src/zookeeper.c:956-970 | The head leaves the list; the last pointer goes with the last entry, and the assertion about it holds. |
| LinkedQueue.Queue.TakeAll | zookeeper-3.4.9/src/c/src/zookeeper.c:1159-1176 | The list is taken over at once and the old one is empty. |
| Framing.ReceivedIsPrefix | zookeeper-3.4.9/src/c/src/zookeeper.c:1042-1151 | When frames received, partial frame, bytes under way and unsent bytes make up the packets submitted, the frames received are the first packets submitted, one by one; with nothing under way they are all. |
| Framing.FramesPrefix | zookeeper-3.4.9/src/c/src/zookeeper.c:1042-1151 | Frames that start a stream of frames are its first frames: the stream can be cut in one way only. |
| Framing.CompleteFrame | zookeeper-3.4.9/src/c/src/zookeeper.c:1096-1151 | A payload of the announced length is a packet that was submitted. |
| Framing.Link.SendBuffer | zookeeper-3.4.9/src/c/src/zookeeper.c:1042-1086 | Whatever the socket takes, the bytes sent are those of the frame between the old offset and the new; 1 is returned only when the frame is out, 0 only when the socket took less than it was offered, -1 only when it failed. |
| Framing.Link.FlushSendQueue | zookeeper-3.4.9/src/c/src/zookeeper.c:3273-3336 | Nothing is lost or repeated however far the socket goes; sending ends only when the queue is empty, the socket took less than it was offered, or it failed, which is reported. |
| Framing.Link.RecvBuffer | zookeeper-3.4.9/src/c/src/zookeeper.c:1096-1151 | Reads the missing bytes of the length, then of the payload, and never beyond its frame; 1 exactly when the frame is complete, 0 only when the socket gave less than it was asked for, -1 only when it failed. |
| Framing.Link.Receive | zookeeper-3.4.9/src/c/src/zookeeper.c:1096-1151 | What has been received is at all times a prefix of what was submitted. |
| Framing.Link.Submit | zookeeper-3.4.9/src/c/src/zookeeper.c:1005-1012 | A packet queued at the end follows all others. |
| Framing.Link.SubmitFront | zookeeper-3.4.9/src/c/src/zookeeper.c:982-1003 | Queued in front of a head of which nothing is sent, a packet comes before all unsent ones and nothing is lost or repeated. |
| Framing.FrontInsertIntactIff | zookeeper-3.4.9/src/c/src/zookeeper.c:1314-1337 | An authentication or set-watches packet put before a head with an ordinary number leaves both frames whole if and only if no byte of the head is sent yet or the unsent rest of its frame commutes with the new frame. |
| Framing.FrontInsertSafeIff | zookeeper-3.4.9/src/c/src/zookeeper.c:1314-1337 | It leaves them whole for every such packet if and only if no byte of the head is sent yet, and already the authentication packets under any one scheme, with a credential of one byte, decide that. |
| HashTable.Hashtable.Insert | zookeeper-3.4.9/src/c/src/hashtable/hashtable.c:135-159 | Map update for a new key, growing first when over the load limit; every entry stays in the bucket of its hash and the count is the number of linked entries. |
| HashTable.Hashtable.Search | zookeeper-3.4.9/src/c/src/hashtable/hashtable.c:162-177 | Map lookup. |
| HashTable.Hashtable.Remove | zookeeper-3.4.9/src/c/src/hashtable/hashtable.c:180-211 | Map removal: returns the value and unlinks that entry only. |
| HashTable.Hashtable.Locate | zookeeper-3.4.9/src/c/src/hashtable/hashtable.c:189-210 | The walk with a predecessor pointer finds the entry of the key, with its predecessor, exactly when the key is in the map. |
| HashTable.Hashtable.Expand | zookeeper-3.4.9/src/c/src/hashtable/hashtable.c:70-126 | Moves to the next prime unless it is the last; the map is the same although chains are reversed and split. |
| HashTable.Hashtable.CreateHashtable | zookeeper-3.4.9/src/c/src/hashtable/hashtable.c:28-53 | Null exactly for a size above 2^30; else an empty map with the smallest prime of the table above the size. |
| HashTable.LoadLimitIs | zookeeper-3.4.9/src/c/src/hashtable/hashtable.c:28-53 | The load limit is the smallest number not below 65 per cent of the size. |
| HashTable.MoveKeeps | zookeeper-3.4.9/src/c/src/hashtable/hashtable.c:88-95 | Moving one entry keeps every entry in the bucket of its hash, keys unique, no key in both tables, and the number of entries. |
| HashTable.MoveBucket | zookeeper-3.4.9/src/c/src/hashtable/hashtable.c:89-94 | The inner loop empties one bucket into the new table. |
| HashTable.MoveAll | zookeeper-3.4.9/src/c/src/hashtable/hashtable.c:88-95 | The whole transfer: the new table holds the map of the old one. |
| HashTable.LinkAgrees | zookeeper-3.4.9/src/c/src/hashtable/hashtable.c:135-159 | An entry with a new key in front of its bucket makes the table hold the map with that key. |
| HashTable.UnlinkAgrees | zookeeper-3.4.9/src/c/src/hashtable/hashtable.c:198-206 | Cutting an entry out of its chain makes the table hold the map without its key. |
| Watches.FiresIff | zookeeper-3.4.9/src/c/src/zk_hashtable.c:285-337 | After any run a node event reaches a watcher if and only if an earlier reply armed it for that path in a table the event selects and no event since has used it up. |
| Watches.EventReachesIff | zookeeper-3.4.9/src/c/src/zk_hashtable.c:285-337 | After any run, without reference to tables: a child event reaches whoever asked for the children successfully since the last child or deletion event; a creation or change whoever asked for the data, or for the existence of a node found or missing, since the last creation, change or deletion; a deletion both; other node events nobody. |
| Watches.SessionEventReachesIff | zookeeper-3.4.9/src/c/src/zk_hashtable.c:253-293 | A session event reaches the default watcher and everyone who waits for any path, and uses nothing up. |
| Watches.RegisteredIff | zookeeper-3.4.9/src/c/src/zk_hashtable.c:285-337 | The same for what a single table holds. |
| Watches.OneShot | zookeeper-3.4.9/src/c/src/zk_hashtable.c:285-316 | A repeated event without a new registration for its path reaches nobody. |
| Watches.WatchTables.CollectWatchers | zookeeper-3.4.9/src/c/src/zk_hashtable.c:285-316 | Each concerned watcher is in the list once; a node event removes its path from the tables it selects and nothing else; a session event takes the default watcher and all others and removes nothing. |
| Watches.WatchTables.ActivateWatcher | zookeeper-3.4.9/src/c/src/zk_hashtable.c:326-337 | A reply arms the watch in the table that request type and return code select, or not at all. |
| Watches.CopyTable | zookeeper-3.4.9/src/c/src/zk_hashtable.c:238-250 | Whatever order the table is walked in, the list gains exactly the watchers of all paths, none twice. |
| Watches.AddForEvent | zookeeper-3.4.9/src/c/src/zk_hashtable.c:260-270 | The path leaves the table, its watchers join the list without duplicates. |
| Watches.CopyWatchers | zookeeper-3.4.9/src/c/src/zk_hashtable.c:228-236 | Adds the watchers of one list to another, one by one, unless they are there. |
| Watches.AddToList | zookeeper-3.4.9/src/c/src/zk_hashtable.c:161-178 | Adds a watcher in front unless function and context are there already. |
| Watches.DoInsertWatcherObject | zookeeper-3.4.9/src/c/src/zk_hashtable.c:180-200 | Registers a watcher for a path and tells whether that is new. |
| Watches.WatchTables.DeliverWatchers | zookeeper-3.4.9/src/c/src/zk_hashtable.c:272-283 | One call for each watcher of the list, in order, with the path as the client knows it. |
| Watches.NotifiedWithClientPath | zookeeper-3.4.9/src/c/src/zk_hashtable.c:272-283 | Under a chroot a watch set through a client path is reported with that path. |
| HandleManager.HeldHandleKeepsPath | zookeeper-3.4.9/contrib/zkfuse/src/zkfuse.cc:3020-3111 | Over any interleaving, a handle names the same path for as long as somebody holds it: it is neither reclaimed nor reused. |
| HandleManager.OneHandlePerPath | zookeeper-3.4.9/contrib/zkfuse/src/zkfuse.cc:3020-3111 | Two held handles are equal exactly when their paths are. |
| HandleManager.CacheIsBounded | zookeeper-3.4.9/contrib/zkfuse/src/zkfuse.cc:3083-3099 | In every reachable state the number of closed files that are kept is 0 or below the cache size, the in-use count is exact, and the unsigned subtraction does not wrap. |
| HandleManager.RunInv | zookeeper-3.4.9/contrib/zkfuse/src/zkfuse.cc:3020-3111 | In every reachable state: path map and files are inverse, the free list is exactly the vacant handles above 0, the counts are the numbers of holders. |
| HandleManager.StepInv | zookeeper-3.4.9/contrib/zkfuse/src/zkfuse.cc:3020-3111 | Every step keeps that. |
| HandleManager.ChecksPass | zookeeper-3.4.9/contrib/zkfuse/src/zkfuse.cc:2060-2077 | No assertion of the code about a file or a count can fail for a user who holds what he releases. |
| HandleManager.HolderIsSafe | zookeeper-3.4.9/contrib/zkfuse/src/zkfuse.cc:2060-2077 | A held handle has a file, with the counts that releasing it needs. |
| HandleManager.KeptIff | zookeeper-3.4.9/contrib/zkfuse/src/zkfuse.cc:3083-3099 | The last close keeps a file if and only if slot 0, the free slots and all closed files with this one do not exceed the cache size. |
| HandleManager.FollowsRuleIff | zookeeper-3.4.9/contrib/zkfuse/src/zkfuse.cc:498-521 | The code reclaims as the words of its comment say exactly when the closed files exceed the cache size anyway or the vacant slots fit in, too; otherwise it reclaims a file that they keep, and never the other way round. |
| HandleManager.CacheOfOneKeepsNone | zookeeper-3.4.9/contrib/zkfuse/src/zkfuse.cc:3083-3099 | With a cache size of one, a file that is opened and closed is not kept. |
| HandleManager.EventIsNeutral | zookeeper-3.4.9/contrib/zkfuse/src/zkfuse.cc:3127-3158 | Telling a file of an event changes nothing if it is in use; a cached file stays or loses its place. |
| ZkFuseManager.ZkFuseHandleManager.GetFile | zookeeper-3.4.9/contrib/zkfuse/src/zkfuse.cc:488-491 | Whoever holds a handle finds the file of its path. |
| ZkFuseManager.ZkFuseHandleManager.Allocate | zookeeper-3.4.9/contrib/zkfuse/src/zkfuse.cc:3020-3070 | A step of the model; the handle names the path and is held, and a new file is reported exactly when there was none. |
| ZkFuseManager.ZkFuseHandleManager.Deallocate | zookeeper-3.4.9/contrib/zkfuse/src/zkfuse.cc:3072-3111 | A step of the model: one holder less, at zero the file is kept or reclaimed; negative handles are ignored. |
| ZkFuseManager.ZkFuseHandleManager.Open | zookeeper-3.4.9/contrib/zkfuse/src/zkfuse.cc:3337-3359 | A failed update gives the handle back; otherwise it is held and names the path. |
| ZkFuseManager.ZkFuseHandleManager.OpenDir | zookeeper-3.4.9/contrib/zkfuse/src/zkfuse.cc:3690-3718 | A step of the model: the holder counts as an open directory from now on, and the count of the file goes up by one. |
| ZkFuseManager.ZkFuseHandleManager.CloseDir | zookeeper-3.4.9/contrib/zkfuse/src/zkfuse.cc:3746-3767 | A step of the model: the holder no longer counts as an open directory, and the count of the file goes down by one. |
| ZkFuseManager.ZkFuseHandleManager.NodeEvent | zookeeper-3.4.9/contrib/zkfuse/src/zkfuse.cc:3125-3158 | The file of the path, if there is one, is told, and no other; the state is then as EventIsNeutral says. |
| ZkFuseManager.ZkFuseHandleManager.ConnectingEvent | zookeeper-3.4.9/contrib/zkfuse/src/zkfuse.cc:3171-3195 | The loop tells every file, once and in the order of the handles, with the effect of EventIsNeutral for each. |
| HandleManager.LostConnection | zookeeper-3.4.9/contrib/zkfuse/src/zkfuse.cc:3171-3195 | That leaves everything as it is if slot 0, free slots and closed files fit into the cache size; otherwise it reclaims all closed files and no other. |
| ZkFuseManager.ZkFuseHandleManager.constructor | zookeeper-3.4.9/contrib/zkfuse/src/zkfuse.cc:455-468 | One slot that is never allocated, and nothing else. |
| FileMetadata.DecodeUndoesEncode | zookeeper-3.4.9/contrib/zkfuse/src/zkfuse.cc:1385-1439 | Decoding gives back the 32-bit version and the 64-bit times that were encoded, whatever was there before. |
| FileMetadata.ParseUndoesPrint | zookeeper-3.4.9/contrib/zkfuse/src/zkfuse.cc:1385-1439 | Parsing a printed 64-bit number with a guessed base gives it back. |
| FileMetadata.NumeralParsed | zookeeper-3.4.9/contrib/zkfuse/src/zkfuse.cc:1417-1430 | Numbers are parsed in all three bases, whatever follows the digits; too large ones give the largest, and a minus sign the negative modulo 2^64. |
| FileMetadata.SpaceSkipped | zookeeper-3.4.9/contrib/zkfuse/src/zkfuse.cc:1417-1430 | The six space characters in front of a number do not matter, nor does a plus sign; any other character in front makes it 0. |
| FileMetadata.UpperCaseRead | zookeeper-3.4.9/contrib/zkfuse/src/zkfuse.cc:1417-1430 | Digits beyond 9 may be upper-case, and so may the sign of the base 16. |
| FileMetadata.EncodedText | zookeeper-3.4.9/contrib/zkfuse/src/zkfuse.cc:1385-1393 | The text for one set of attributes, character by character. |
| FileMetadata.LineRead | zookeeper-3.4.9/contrib/zkfuse/src/zkfuse.cc:1402-1439 | One "key value" line is taken off the stream whole and sets its attribute. |
| FileMetadata.DecodeMetadata | zookeeper-3.4.9/contrib/zkfuse/src/zkfuse.cc:1402-1439 | For a text on which the loop ends: the attributes that the lines set, and the others as they were. |
| FileMetadata.LoopEndsIff | zookeeper-3.4.9/contrib/zkfuse/src/zkfuse.cc:1402-1439 | Some number of rounds reaches the end of the stream if and only if the text can be cut into records by the three extractions, each within its buffer; a condition on the text alone. |
| FileMetadata.DecodesIff | zookeeper-3.4.9/contrib/zkfuse/src/zkfuse.cc:1402-1439 | The decoder gives a result for exactly those texts. |
| FileMetadata.FailedStreamIsFixed | zookeeper-3.4.9/contrib/zkfuse/src/zkfuse.cc:1409-1416 | A round on a stream that failed before its end changes neither the stream nor the attributes. |
| FileMetadata.ShortEndsIff | zookeeper-3.4.9/contrib/zkfuse/src/zkfuse.cc:1402-1439 | On texts of less than 127 characters the loop runs for ever exactly when some record begins with a space. |
| FileMetadata.RecordLimits | zookeeper-3.4.9/contrib/zkfuse/src/zkfuse.cc:1406-1416 | The buffer sizes: one record with a key of up to 158 characters is decoded exactly if its value has at most 1023. |
| FileMetadata.SpaceIsEndless | zookeeper-3.4.9/contrib/zkfuse/src/zkfuse.cc:1402-1439 | On the text " " no number of rounds reaches the end. |
| ZkFusePath.RootMapped | zookeeper-3.4.9/contrib/zkfuse/src/zkfuse.cc:3554-3576 | The mount point is the root node as a directory and its data file the data of the root node, under the name of the root, which stays if no component of it ends in the suffix. |
| ZkFusePath.DefaultRootMapped | zookeeper-3.4.9/contrib/zkfuse/src/zkfuse.cc:3554-3576 | With the default names "/" is the directory "/" and "/_data_" the data of "/". |
| ZkFusePath.NodePathMapped | zookeeper-3.4.9/contrib/zkfuse/src/zkfuse.cc:3540-3624 | A path without suffixes is itself; with the data name behind it is the data of the node; with the suffix it is the node as a directory. |
| ZkFusePath.MarkedPathMapped | zookeeper-3.4.9/contrib/zkfuse/src/zkfuse.cc:3540-3624 | Any components may carry the suffix, and may contain it elsewhere as long as no other occurrence reaches the end of the plain component: the node is that of the plain path, as a directory when the last one has it. |
| ZkFusePath.MarkedDataMapped | zookeeper-3.4.9/contrib/zkfuse/src/zkfuse.cc:3540-3624 | The same with the data name at the end; the suffix of the last component stays exactly when the component contains it also just before its last character and the search steps there. |
| ZkFusePath.DataSuffixStays | zookeeper-3.4.9/contrib/zkfuse/src/zkfuse.cc:3604-3617 | With the default names, the data path of "/abcde._dir_f._dir_" keeps the suffix. |
| ZkFusePath.NoOverlapSettled | zookeeper-3.4.9/contrib/zkfuse/src/zkfuse.cc:3595-3619 | For a suffix that does not overlap itself these are all components that do not end in it. |
| ZkFusePath.StripExactIff | zookeeper-3.4.9/contrib/zkfuse/src/zkfuse.cc:3595-3619 | All suffixes go, on every path of components that do not contain the suffix, if and only if the suffix does not overlap itself. |
| ZkFusePath.OverlapIsMissed | zookeeper-3.4.9/contrib/zkfuse/src/zkfuse.cc:3595-3619 | A path on which an overlapping suffix stays, for every such suffix. |
| ZkFusePath.GetZkPath | zookeeper-3.4.9/contrib/zkfuse/src/zkfuse.cc:3540-3624 | The method computes the mapping. |
| ZkFusePath.Strip | zookeeper-3.4.9/contrib/zkfuse/src/zkfuse.cc:3595-3619 | The loop ends on every input and removes what the specification removes. |
| Codec.WordAppendsByte | zookeeper-3.4.9/src/c/src/recordio.c:71-82 | The order of the bytes of an int: a byte that joins a number at its low end joins the word at its end. |
| Codec.LongAppendsByte | zookeeper-3.4.9/src/c/src/recordio.c:99-110 | The same for the eight bytes of a long. |
| Codec.NegativeIsComplement | zookeeper-3.4.9/src/c/src/recordio.c:71-82 | A negative int has the complements of the bytes of the number that it mirrors. |
| Codec.NegativeLongIsComplement | zookeeper-3.4.9/src/c/src/recordio.c:99-110 | The same for a long. |
| Codec.ShortNumbers | zookeeper-3.4.9/src/c/src/recordio.c:188-234 | A number that is not all there gives an error and leaves its place, which was zeroed, and the offset as they were. |
| Codec.ReadErrors | zookeeper-3.4.9/src/c/src/recordio.c:235-279 | Which error a string and a buffer give for which length, by number, and where the offset is then. |
| Codec.RoundTrip | zookeeper-3.4.9/src/c/src/recordio.c:71-279 | For every value of every type built from ints, longs, 0/1 bools, strings, buffers (null included), vectors and records: decoding its encoding, at any offset of any buffer, gives it back and consumes exactly its bytes. |
| Codec.MessageRoundTrip | zookeeper-3.4.9/src/c/generated/zookeeper.jute.c:337-354 | A header followed by a body decodes to both, and uses up the message. |
| Codec.EncodingIsPrefixFree | zookeeper-3.4.9/src/c/src/recordio.c:71-279 | No encoding is the beginning of another one of its type. |
| WireVectors.VectorIsOnWireIff | zookeeper-3.4.9/src/c/generated/zookeeper.jute.c:240-251 | Reading a vector reports success on any input; the vector it returns is the one on the wire, with the offset behind it, exactly when the buffer holds the announced number of elements. |
| WireVectors.StringVectorIsOnWireIff | zookeeper-3.4.9/src/c/generated/zookeeper.jute.c:240-251 | For vectors of strings: exactly when the count and then the announced lengths, one after the other, are not negative and stay within the buffer. |
| WireVectors.AclVectorIsOnWireIff | zookeeper-3.4.9/src/c/generated/zookeeper.jute.c:499-510 | For vectors of ACLs: the same, with four bytes of permissions before the two strings of each entry. |
| WireVectors.ShortVectorIsPadded | zookeeper-3.4.9/src/c/generated/zookeeper.jute.c:240-251 | A count of two with one string behind it gives that string, a null pointer and no error. |
| RecordIO.OArchive.ResizeBuffer | zookeeper-3.4.9/src/c/src/recordio.c:48-61 | Doubling ends with room for the next write and keeps the bytes written. |
| RecordIO.OArchive.SerializeInt | zookeeper-3.4.9/src/c/src/recordio.c:71-82 | Appends four bytes, most significant first, and keeps the others. |
| RecordIO.OArchive.SerializeLong | zookeeper-3.4.9/src/c/src/recordio.c:99-110 | Appends eight bytes, most significant first. |
| RecordIO.OArchive.SerializeBytes | zookeeper-3.4.9/src/c/src/recordio.c:133-180 | Appends a length, or -1 for null, and the bytes. |
| RecordIO.OArchive.SerializeBool | zookeeper-3.4.9/src/c/src/recordio.c:119-132 | Appends one byte, 0 or 1. |
| RecordIO.Reverse8 | zookeeper-3.4.9/src/c/src/recordio.c:83-97 | The loop that swaps bytes in place reverses the word. |
| RecordIO.ZooHtonll | zookeeper-3.4.9/src/c/src/recordio.c:83-97 | The bytes of a long as the network has them. |
| RecordIO.IArchive.DeserializeInt | zookeeper-3.4.9/src/c/src/recordio.c:189-199 | Reads what the format says, or reports that the input is too short. |
| RecordIO.IArchive.DeserializeLong | zookeeper-3.4.9/src/c/src/recordio.c:201-213 | The same for a long. |
| RecordIO.IArchive.DeserializeBool | zookeeper-3.4.9/src/c/src/recordio.c:222-234 | The same for a bool, which is a signed byte. |
| RecordIO.IArchive.DeserializeBuffer | zookeeper-3.4.9/src/c/src/recordio.c:235-257 | The same for a buffer, null included; a bad length is an error. |
| RecordIO.IArchive.DeserializeString | zookeeper-3.4.9/src/c/src/recordio.c:258-279 | The same for a string, which ends at its first NUL. |
| Records.SetWatchesRoundTrip | zookeeper-3.4.9/src/c/generated/zookeeper.jute.c:252-271 | The bytes written for a SetWatches record decode to it, at any offset. |
| Records.CreateRequestRoundTrip | zookeeper-3.4.9/src/c/generated/zookeeper.jute.c:487-530 | The same for a CreateRequest with its list of ACLs. |
| Records.ReplyHeaderRoundTrip | zookeeper-3.4.9/src/c/generated/zookeeper.jute.c:337-354 | The same for a reply header. |
| Records.ReplyHeaderLayout | zookeeper-3.4.9/src/c/generated/zookeeper.jute.c:337-345 | The header has xid in bytes 0 to 3, zxid in 4 to 11 and err in 12 to 15. |
| Records.ReplyHeaderRead | zookeeper-3.4.9/src/c/generated/zookeeper.jute.c:346-354 | A header that was read has its numbers from these places. |
| Records.SetWatchesLayout | zookeeper-3.4.9/src/c/generated/zookeeper.jute.c:252-261 | Read one after the other, the record gives the zxid and the paths of data, exist and child watches in this order. |
| Records.CreateRequestLayout | zookeeper-3.4.9/src/c/generated/zookeeper.jute.c:511-520 | The same for path, data, ACLs and flags of a request to create a node. |
| Records.AclLayout | zookeeper-3.4.9/src/c/generated/zookeeper.jute.c:22-49 | The same for permissions, scheme and id of an entry of an access control list. |
| Records.SerializeSetWatches | zookeeper-3.4.9/src/c/generated/zookeeper.jute.c:252-261 | Writes exactly the bytes of the record, in field order. |
| Records.SerializeReplyHeader | zookeeper-3.4.9/src/c/generated/zookeeper.jute.c:337-345 | Writes exactly the sixteen bytes of the header. |
| Records.SerializeAclVector | zookeeper-3.4.9/src/c/generated/zookeeper.jute.c:487-498 | The loop writes the count and the entries. |
| Records.SerializeCreateRequest | zookeeper-3.4.9/src/c/generated/zookeeper.jute.c:511-520 | Writes exactly the bytes of the record, in field order. |
| Records.SerializeStringVector | zookeeper-3.4.9/src/c/generated/zookeeper.jute.c:228-239 | The loop writes the count and the strings. |
| Records.DeserializeStringVector | zookeeper-3.4.9/src/c/generated/zookeeper.jute.c:240-251 | The loop reads what the format says; the error of an element is lost. |
| Records.DeserializeReplyHeader | zookeeper-3.4.9/src/c/generated/zookeeper.jute.c:346-354 | Reads the three fields in order. |

## Left out

Where code and documentation differ the model follows the code:

- Adding authentication puts its packet in front of the queue even when the head is partly sent, which cuts that frame in two (`FrontInsertIntactIff`, `FrontInsertSafeIff`).
- The chroot is removed by a prefix test that ignores component boundaries (`SubStringValidIff`), and every client path of one character is taken for the root (`SubUndoesPrepend`). Client paths are checked only behind the chroot, so that some strings that are no paths are accepted, outside the chroot even (`AcceptedIff`, `AcceptedInsideIff`).
- A reply is matched with the oldest request even when that was never sent on this connection (`RunKeepsAlignmentIff`, `EarlyReplyMisaligns`).
- Vector deserializers end with a call that overwrites the error of an element (`VectorIsOnWireIff`, `StringVectorIsOnWireIff`, `ShortVectorIsPadded`).
- Decoding metadata never ends once an extraction fails before the end of the input; `DecodeMetadata` returns None for exactly those texts (`LoopEndsIff`, `ShortEndsIff`, `SpaceIsEndless`).
- A directory suffix that overlaps itself can stay in a path (`StripExactIff`), and so can that of a last component that contains it twice (`MarkedDataMapped`, `DataSuffixStays`).
- The comment on reclaiming says that closed files are kept up to the cache size. The formula beside these words is what the code computes, and it also counts slot 0 and free slots, so fewer are kept (`KeptIff`, `FollowsRuleIff`, `CacheOfOneKeepsNone`).

Contracts that state less than the code does:

- Framing.Link.FlushSendQueue: models the call without a timeout only.
- ZHandle.ZHandle.FlushSendQueue: whole packets only, without return codes and timeouts; partly sent packets are the matter of Framing.
- ZHandle.ZHandle.ZooAddAuth: one credential with no callback; the list of credentials is not kept.
- ZHandle.ZHandle.FreeCompletions: does not call the callbacks of pending authentications.
- ZHandle.ZHandle.CleanupBufs: does not drop the partly received frame, which is the matter of Framing.
- ZHandle.ZHandle.QueueSessionEvent: does not attach the watchers collected for the event, which are the matter of Watches.
- ZHandle.ZHandle.ZookeeperInterest: does not compute the receive timeout, send the idle ping or return the events to wait for.
- ZHandle.ZHandle.ProcessFrame: does not arm or collect watches, which is the matter of Watches.
- ZkAdaptor.ZooKeeperAdapter.CreateNode: persistent nodes only, the one kind that the tool creates.
- ZkAdaptor.ZooKeeperAdapter.DeleteNode: any version, as the tool always asks; conditional deletion is not modelled.
- ZkAdaptor.ZooKeeperAdapter.SetNodeData: any version, as the tool always asks; conditional writing is not modelled.
- ZkFusePath.MarkedPathMapped: components in which the suffix ends the plain name, or that are the suffix alone, are not covered; the path is ambiguous there.
- ZkFusePath.MarkedDataMapped: the same components are not covered.
- Records.DeserializeReplyHeader: fields that a short input does not reach are zero, where the code leaves what was in memory.
- RecordIO.OArchive.ResizeBuffer: assumes totals below 2^27 bytes; the overflow of the doubled 32-bit length beyond that is not modelled.
- HashTable.Hashtable.Insert: keys must be new, as the comment in the source asks; duplicate keys and the wrap-around of the 32-bit counter are not modelled.
- Records.DeserializeStringVector: a negative count, or an uninitialised one after a failed read, is taken as no elements.

Not modelled:

- Sockets, poll, DNS, clocks, threads, locks and logging: a socket takes or gives some bytes, and a region under a lock is one step. Retries and reconnection inside the adapter.
- The single-threaded build of the C client, closing and destroying a handle, the list of pending authentication callbacks, multi-operations, and callbacks that call the client again.
- Allocation failures, and with them the plan B of the hash table's expansion; the load limit is an exact ceiling of 0.65 times the size, without rounding of floats; keys are compared by equality, where the table takes any function that respects the hash.
- Watch tables are maps from paths to lists: the hash table that holds them is modelled separately. Sending registered watches again after a reconnect is part of the pipeline only as a packet.
- The queues of the pipeline are sequences; the linked lists are modelled separately. Requests are numbered outside the special range.
- XML files and dumping of trees; what is printed and asked before an action is confirmed; ephemeral and sequence nodes; other writers during a load or an update.
- Walking down from the root of a saved tree to the subtree of a path, and the ancestors that are made for a loaded one: subtree roots are inputs and results. On "/" that walk looks for a child with an empty name and throws.
- Data caching, reading, truncation and attributes of files, and everything that only passes calls through to FUSE. The mapping of components that end in the suffix twice, or are the suffix alone.
- Integer widths other than those stated: counts and lengths are unbounded where the code would run out of memory first.
