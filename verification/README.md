# Proofs about the ICP bus and the MQTT client library

The repository joins a small bus protocol between nodes (ICP) to an MQTT 3.1.1 client library in C. This project models
the parts of it that are hard to get right and proves what they promise. Code that works by changing things step by
step is modelled as classes and loops, and each method is proved against a specification whose own properties are
proved as lemmas.

| files | what is modelled and proved |
|---|---|
| `SortedEntries`, `RedBlackTree`, `ReplacementExample` | the red-black tree with parent links: over every run of additions and removals it is a finite map, and it stays balanced as long as no addition replaces an equal content; a replacement keeps it balanced exactly if the start node of the fix-up is one that the fix-up can deal with |
| `HeapTracking` | the record of live allocations kept in that tree |
| `QosProtocol`, `QosProgress`, `MessageLists`, `StoreKeys`, `ClientStore`, `RestoreOrder`, `Restoring`, `ProtocolClient`, `Disk`, `TwoClients`, `DeliveryLaws` | QoS 2 delivery (section 4.3.3 of MQTT 3.1.1) with message lists, persistent store and its bytes, restarts, crashes inside a handler, lost packets and reuse of message ids: two clients with their handlers take steps of an abstract protocol, whose every run delivers each publication exactly once; and exactly which exchanges can still be finished; beside it, what every run of the two clients promises for QoS 0 and 1, for PUBACK and for the DUP flag |
| `MessageQueue` | the persisted queue of messages for the application, over restarts |
| `PublicationStore` | the reference counts of stored publications |
| `Wire`, `PacketBytes`, `SocketReader`, `SocketWriter` | packets as bytes (sections 2.2.3 and 3.3 of MQTT 3.1.1), reading that can be interrupted at every byte, and writing that can stop anywhere |
| `Connection` | a writer and a reader at the two ends of one connection |
| `LinkedList` | the doubly linked list with its search cursor |
| `Crc`, `Icp` | the checksum as polynomial division (the generator of ITU-T V.41), frames, and a node of the bus |
| `Utf8` | the acceptance of UTF-8 strings (section 4 of RFC 3629) |
| `CommandQueue`, `Dispatch` | the queue of commands of the asynchronous client, and the sockets that they write to |
| `Sequences` | sequences with an element put in, one taken out, or turned |

Three specifications meet in more than one file. `QosProtocol` describes a sender and a receiver by value, and its steps
are the reference for the handlers of `ProtocolClient.Client`; `TwoClients` puts two such clients on one lossy connection
and shows that every action of theirs is a step of the reference. `Wire.FirstOf` and `Wire.AllOf` say which packets a
stream of bytes holds, and both the sending side (`Wire.StreamRoundTrip`, `Wire.PartOfStream`) and the interrupted reader
(`SocketReader.Reader.ReadAll`) are measured by them; `Connection.Run` joins the two ends. `SortedEntries` is the finite
map that the tree is measured by.

Where the code does not do what one would expect of it, the code is what is modelled:

- Adding an equal content a second time runs the fix-up of an addition from a node that may be black. Black heights then
  stay equal exactly if the node is `Fixable`: it is red, or its uncle is red, or it is an outer child, or its parent is
  black (`RedBlackTree.Tree.Add`, `ReplacementExample.ReplacementUnbalances`).
- A restart gives the outbound messages back in the order in which they were sent exactly if that order `ComesBack`: the
  ids descend at most once, all ids behind the descent are smaller than the first one, and the gap there is the first
  largest one (`RestoreOrder.RestoredExactly`). A window of less than half the id range is sufficient
  (`RestoreOrder.RestoredInSendOrder`). A wider one is not (`RestoreOrder.WideWindowTurns`), nor is an order in which an
  id was passed over because it was still in flight (`RestoreOrder.PassedOverTurns`, `ProtocolClient.PassesOver`).
- A PUBREL for an unknown id is answered only if its dup flag is set, and it is never sent with that flag. A PUBCOMP that
  is lost therefore keeps the message and its id for ever, over retries and restarts; every other exchange can still be
  finished (`QosProgress.FinishesExactly`, `QosProgress.LostPubcompSticks`, `DeliveryLaws.FinishesExactly`).
- A QoS 1 publication can be lost exactly if a packet of an earlier message under its id is still on its way when it is
  sent: a PUBACK, or a PUBLISH that will be answered with one (`DeliveryLaws.LosesExactly`). A new connection has no such
  packets, and within one connection an id comes again only when the ids have gone around.
- With `msgID` 0 and all 65535 ids taken the search for an id does not end (`ProtocolClient.NeverEnds`).
- A record that does not decode is removed by the restart when its key comes up, but until then it counts as being there.
  The restored messages are the same for every order of the keys exactly if no QoS 2 message has a bad sc- record
  (`Restoring.MessagesForAllOrders`); messages and store are the same exactly if, besides, no sc- record has a bad s-
  record (`Restoring.SameForAllOrders`). Otherwise the order decides whether a message goes on with PUBREL or is sent again as
  PUBLISH (`ProtocolClient.BadReleaseRecord`), or whether an orphaned sc- record is left.
- The message callback of the synchronous client takes a message off the queue and leaves its record in the store, so that
  a restart brings the message back (`MessageQueue.Mailbox.CallBack`, `MessageQueue.CallbackRedelivers`). Delivery is once
  and in order exactly if no restart meets such a record (`MessageQueue.Run`).
- When the continuation of a write fails, it counts as complete and what is left of it is dropped; the stream equality
  then fails for that connection, and for no other (`SocketWriter.Writer.CompleteExactly`). This happens exactly if a
  failing continuation meets a pending write (`SocketWriter.Run`, `SocketWriter.FailureLoses`).
- After a reallocation the tree has a block under a size that is too small, by the size and the file name of the block as
  it was (`HeapTracking.Heap.Realloc`).
- The key of a queue record fits its buffer only up to the number 999999 (`StoreKeys.QueueKeyFits`).
- An entry of the message queue is freed before its number is read for the key of its record
  (`MessageQueue.Mailbox.Deliver`).
- The ICP counter that is compared with the 16-bit acknowledgement timeout is 8 bits wide and is not reset by an
  acknowledgement: a sender gives up only if the timeout is at most 255, and earlier when a count is left over
  (`Icp.Node.WaitInVain`).
- The host of an ICP node reports the number of bytes that it has put out as one byte. A frame of at most 255 bytes goes
  out once; of a longer one all but the first |frame| % 256 bytes go out again in every reservation that follows
  (`Icp.Node.SendRepeatedly`). A last single byte is never offered (`Icp.Node.ProcessTx`).
- The ICP sender refuses payloads of one byte, the receiver accepts them (`Icp.Node.SendPacket`, `Icp.ParsesExactly`).

## Model

| member | source | states |
|---|---|---|
| RedBlackTree.Tree.Rotate | mqtt/source/Tree.c:129-145 | a rotation in either direction keeps the in-order sequence of the nodes and every parent and child link consistent, and changes no other links than those it names |
| RedBlackTree.Tree.BalanceAfterAddStep | mqtt/source/Tree.c:148-170 | one step of the fix-up keeps the shape, moves strictly upwards while the parent is red, keeps "only this node may be red below red", and unbalances the tree exactly when started from a black inner child with a black uncle |
| RedBlackTree.Tree.BalanceAfterAdd | mqtt/source/Tree.c:173-183 | the loop ends; from a fixable start it leaves a red-black tree, from any other start a tree that no assignment of black heights fits |
| RedBlackTree.Tree.Add | mqtt/source/Tree.c:192-249 | adding is map insertion with `count` and `size` kept, the replaced content is returned, an absent key keeps the tree red-black, and a replacement keeps it so if and only if the start node is fixable |
| RedBlackTree.Tree.FindIndex | mqtt/source/Tree.c:264-278 | a node is found exactly if the map has a matching entry, along the path that the comparisons tell, with at most 2*log2(n+1) comparisons in a red-black tree |
| RedBlackTree.Tree.ShortSearch | mqtt/source/Tree.c:264-278 | a red-black tree of n nodes has no search path longer than 2*log2(n+1) |
| RedBlackTree.Tree.ManyNodes | mqtt/source/Tree.c:264-278 | a subtree of black height b holds at least 2^b - 1 nodes, counting a black root |
| RedBlackTree.Tree.Minimum | mqtt/source/Tree.c:299-305 | the node reached is the first in order of the subtree |
| RedBlackTree.Tree.Successor | mqtt/source/Tree.c:308-323 | the result is the next node in order, by the right subtree or by the parent links, or none after the last |
| RedBlackTree.Tree.NextElement | mqtt/source/Tree.c:326-333 | from NULL the first node, from a node the next one in order |
| RedBlackTree.Tree.Walk | mqtt/source/Tree.c:326-339 | repeated next-element calls from NULL visit every entry exactly once and in order |
| RedBlackTree.Tree.BalanceAfterRemoveStep | mqtt/source/Tree.c:342-376 | one step moves the missing black node upwards or ends the fix-up, in all sibling cases, also when it starts at the unlinked sentinel |
| RedBlackTree.Tree.BalanceAfterRemove | mqtt/source/Tree.c:379-390 | the loop ends, and a tree that is short of one black node at the start node is red-black afterwards |
| RedBlackTree.Tree.RemoveNode | mqtt/source/Tree.c:398-457 | exactly the entry of that node is taken out and returned, `count` and `size` follow, links and order stay sound and a red-black tree stays red-black, whether the node has no, one or two children |
| RedBlackTree.Tree.Remove | mqtt/source/Tree.c:465-504 | removal by content or key is map deletion and returns the entry that the map had |
| RedBlackTree.Tree.Run | mqtt/source/Tree.c:192-504 | over every sequence of additions and removals the tree equals the reference map, and it stays red-black if no addition replaces |
| RedBlackTree.Tree.HeightUnique | mqtt/source/Tree.c:175 | where a subtree is balanced, every assignment of black heights to the tree agrees with the recorded one |
| RedBlackTree.Tree.Skewed | mqtt/source/Tree.c:175 | a node with two balanced subtrees of different black height makes the whole tree unbalanced |
| RedBlackTree.Tree.RedBlackHasHeights | mqtt/source/Tree.c:175 | a red-black tree is never one of the unbalanced ones: the two outcomes of a replacement exclude each other |
| ReplacementExample.AddThreeAgain | mqtt/source/Tree.c:214-247 | a concrete red-black tree of five nodes: adding one of its keys again changes no entry and unbalances it |
| SortedEntries.LookupInserted | mqtt/source/Tree.c:192-249 | insertion into the reference is map update: only probes that match the new content see a change |
| SortedEntries.LookupDeleted | mqtt/source/Tree.c:465-504 | deletion from the reference is map deletion: exactly the matched entry is gone |
| SortedEntries.SplicedIsInserted | mqtt/source/Tree.c:225-245 | putting an entry in at the place where the search ended is insertion |
| SortedEntries.ReplacedIsInserted | mqtt/source/Tree.c:214-223 | putting an entry in the place of the matching one is insertion |
| SortedEntries.WithoutIsDeleted | mqtt/source/Tree.c:398-457 | taking the matching entry out of its place is deletion |
| SortedEntries.SumSpliced | mqtt/source/Tree.c:239-243 | the sum of the sizes grows by that of the new entry |
| SortedEntries.SumWithout | mqtt/source/Tree.c:451-455 | the sum of the sizes shrinks by that of the entry taken out |
| HeapTracking.Roundup | mqtt/source/Heap.c:78-85 | the result is the least multiple of 16 that is large enough |
| HeapTracking.AddressesAscend | mqtt/source/Heap.c:94-121 | in the order of the tree the addresses of the blocks ascend |
| HeapTracking.BlockAdded | mqtt/source/Heap.c:139-180 | a new address changes the record and the size of that address only, and adds its size to both sums |
| HeapTracking.BlockRemoved | mqtt/source/Heap.c:206-228 | removing an address removes its record and size only, and takes them off both sums |
| HeapTracking.Heap.Count | mqtt/source/Heap.c:175-177 | `max_size` is always the largest value that `current_size` has taken |
| HeapTracking.Heap.Malloc | mqtt/source/Heap.c:139-180 | the tree then holds exactly the blocks from before and the new one under its address, `current_size` is the sum of the rounded sizes, and the size of the tree grows by all that was allocated |
| HeapTracking.Heap.Unlink | mqtt/source/Heap.c:206-228 | the block is known exactly if it was live; then its record and its sizes are gone and nothing else |
| HeapTracking.Heap.Realloc | mqtt/source/Heap.c:274-312 | the record moves from the old address to the new one with the new size, in a tree that stays ordered although the key of a record changes; its size in the tree is short of what is allocated by the old size and the old file name, and right only if both are empty; an unknown block changes nothing |
| HeapTracking.Heap.FindItem | mqtt/source/Heap.c:321-329 | the record of a live block is found by the address that the caller has, and no other |
| QosProtocol.InvMeansExactlyOnce | mqtt/source/MQTTProtocolClient.c:278-300 | in every state of the invariant each publication is delivered at most once, is one that was accepted, and is dropped by the sender only when delivered exactly once; a delivered one is not on its way as PUBLISH |
| QosProtocol.SenderExchange | mqtt/source/MQTTProtocolClient.c:352-501 | receiving PUBACK, PUBREC or PUBCOMP keeps the state of the exchange under every message id |
| QosProtocol.PublishExchange | mqtt/source/MQTTProtocolClient.c:256-304 | receiving a first or repeated PUBLISH keeps the state of the exchange under every message id |
| QosProtocol.PubrelExchange | mqtt/source/MQTTProtocolClient.c:401-452 | receiving PUBREL, which delivers, keeps the state of the exchange under every message id |
| QosProtocol.SenderBooks | mqtt/source/MQTTProtocolClient.c:312-501 | a handler of the sender keeps store and memory in step, and drops only what has been delivered exactly once |
| QosProtocol.ReceiverBooks | mqtt/source/MQTTProtocolClient.c:256-452 | a handler of the receiver keeps store and memory in step, and delivers only what was accepted |
| QosProtocol.RestoreMirrored | mqtt/source/MQTTPersistence.c:171-259 | with a store that mirrors the memory a restart of the sender changes nothing |
| QosProtocol.CrashInPubrecIsPubrec | mqtt/source/MQTTProtocolClient.c:382-387 | a crash after the PUBREL record is written leaves what the completed PUBREC handler leaves |
| QosProtocol.CrashInPubcompIsPubcomp | mqtt/source/MQTTPersistence.c:395-420 | a crash between the two removals of a finished message leaves what the completed handler leaves: the restart deletes the orphan record and the message is never sent again |
| QosProtocol.CrashInPublishIsPublish | mqtt/source/MQTTProtocolClient.c:142-160 | a crash after the PUBLISH record is written leaves what a publish call with a lost packet leaves |
| QosProtocol.CrashIsLostStep | mqtt/source/MQTTProtocolClient.c:142-501 | every crash inside a handler of the sender is a step of the whole handler with its packet lost |
| QosProtocol.StepKeepsInv | mqtt/source/MQTTProtocolClient.c:142-616 | every step (publish, receive, retry, loss of a suffix in flight, restart, crash) keeps the invariant |
| QosProtocol.RunKeepsInv | mqtt/source/MQTTProtocolClient.c:142-616 | the invariant holds in every state of every run, with reuse of message ids |
| QosProtocol.DeliveredExactlyOnce | mqtt/source/MQTTProtocolClient.c:278-300 | exactly-once delivery in every state of every run |
| QosProgress.StepStaysStuck | mqtt/source/MQTTProtocolClient.c:401-452 | a QoS 2 exchange whose PUBCOMP is lost stays as it is in every step, crashes and restarts included |
| QosProgress.FinishesExactly | mqtt/source/MQTTProtocolClient.c:256-616 | from any state of a run, some further run finishes an exchange if and only if it is not one whose PUBCOMP is lost |
| QosProgress.LostPubcompSticks | mqtt/source/MQTTProtocolClient.c:427-452 | publish, PUBREC, PUBREL and a lost PUBCOMP: a run of four steps into that state, with the publication delivered |
| StoreKeys.DecimalInjective | mqtt/source/MQTTPersistence.c:336-383 | different message ids have different decimal forms |
| StoreKeys.KeysFit | mqtt/source/MQTTPersistence.c:336-420 | every key of a message record fits the buffer it is printed to |
| StoreKeys.KeysApart | mqtt/source/MQTTPersistence.c:336-420 | keys are equal only for the same kind of record and the same id |
| StoreKeys.KindsAreTold | mqtt/source/MQTTPersistence.c:186-236 | the substring tests of the restoring loop tell the three kinds of message record apart, for every id |
| StoreKeys.IgnoredExactly | mqtt/source/MQTTPersistence.c:186-190 | exactly the keys that begin with c- or q- are passed over |
| StoreKeys.KindByText | mqtt/source/MQTTPersistence.c:186-236 | any other key is told by the substrings r-, s- and sc-, asked for in this order |
| StoreKeys.KeysByText | mqtt/source/MQTTPersistence.c:336-420 | the keys as they are printed: their prefixes, and the id in decimal |
| StoreKeys.QueueKeyFits | mqtt/source/MQTTPersistence.c:520 | the key of a queue record fits its buffer if and only if the number is at most 999999 |
| StoreKeys.AtoiDecimal | mqtt/source/MQTTPersistence.c:625 | the number of a queue record is read back from its key |
| ClientStore.StoredIsMirrored | mqtt/source/MQTTPersistence.c:336-420 | a store with one s- record per outbound message and sc- records exactly for those awaiting PUBCOMP mirrors the outbound list, message by message |
| ClientStore.ReceivedIsMirrored | mqtt/source/MQTTPersistence.c:336-420 | a store with one r- record per inbound message mirrors the inbound list |
| ClientStore.MoveStarted | mqtt/source/MQTTProtocolClient.c:120-160 | appending a message and writing its s- record is the publish step, with the mirroring kept |
| ClientStore.MovePubrec | mqtt/source/MQTTProtocolClient.c:382-387 | writing the sc- record and expecting PUBCOMP is the PUBREC step, with the mirroring kept |
| ClientStore.MovePuback | mqtt/source/MQTTProtocolClient.c:326-338 | removing message and record of a QoS 1 message is the PUBACK step, with the mirroring kept |
| ClientStore.MovePubcomp | mqtt/source/MQTTProtocolClient.c:486-495 | removing message and both records is the PUBCOMP step, with the mirroring kept |
| ClientStore.MoveRewritten | mqtt/source/MQTTProtocolClient.c:571-610 | the records that a retry writes again change nothing |
| ClientStore.MoveReceived | mqtt/source/MQTTProtocolClient.c:278-300 | writing the r- record and keeping the message is the PUBLISH step of the receiver, also when it takes the place of one with the same id |
| ClientStore.MoveDelivered | mqtt/source/MQTTProtocolClient.c:427-447 | removing the r- record and the message is the PUBREL step, which delivers that publication and answers PUBCOMP |
| RestoreOrder.InsertInOrder | mqtt/source/MQTTPersistence.c:305-319 | the loop inserts before the first larger id |
| RestoreOrder.AllSortedInAscending | mqtt/source/MQTTPersistence.c:305-319 | insertion in any order gives the messages in ascending order of id, none lost and none doubled |
| RestoreOrder.WrapMsgID | mqtt/source/MQTTPersistence.c:428-465 | the list is turned at the first largest gap between neighbouring ids, the gap around the end counted |
| RestoreOrder.RestoredExactly | mqtt/source/MQTTPersistence.c:305-465 | whatever the order of the keys and for every order of distinct ids, the send order comes back if and only if it descends at most once, all behind the descent is smaller than the first id, and the gap there is the first largest |
| RestoreOrder.WindowComesBack | mqtt/source/MQTTPersistence.c:428-465 | ids in a cyclic window of span W with 2*W < 65535 are such an order |
| RestoreOrder.RestoredInSendOrder | mqtt/source/MQTTPersistence.c:305-465 | with ids in flight in a cyclic window of span W with 2*W < 65535 the send order comes back, whatever the order of the keys |
| RestoreOrder.WideWindowTurns | mqtt/source/MQTTPersistence.c:428-465 | the ids 1 and 40000, sent in this order, come back the other way round |
| RestoreOrder.PassedOverTurns | mqtt/source/MQTTPersistence.c:305-465 | the ids 5, 3 and 6, sent in this order, come back as 3, 5 and 6 |
| Restoring.OutRestored | mqtt/source/MQTTPersistence.c:207-236 | whatever the order of the keys, the restored outbound list is what the store says of the sender, with orphan sc- records deleted; a bad record counts until its key comes up |
| Restoring.InRestored | mqtt/source/MQTTPersistence.c:195-206 | the restored inbound list is what the store says of the receiver, and mirrored by it |
| Restoring.TurnedMirrors | mqtt/source/MQTTPersistence.c:171-259 | after sorting and turning the store mirrors the list again |
| Restoring.UndisturbedExactly | mqtt/source/MQTTPersistence.c:183-252 | bad records make no difference if and only if no QoS 2 message has a bad sc- record behind its s- record, and no orphaned sc- record has a bad s- record behind it |
| Restoring.MessagesForAllOrders | mqtt/source/MQTTPersistence.c:183-252 | the restored messages are the same for all orders of the keys if and only if no QoS 2 s- record has a bad sc- record |
| Restoring.SameForAllOrders | mqtt/source/MQTTPersistence.c:183-252 | restored messages and store are the same for all orders of the keys if and only if, besides, no sc- record has a bad s- record |
| Restoring.RestartKeepsOrder | mqtt/source/MQTTPersistence.c:171-259 | the restored list is the lost one, message by message and in its order, if and only if the lost order is one that comes back |
| Restoring.SameProtocolState | mqtt/source/MQTTPersistence.c:171-259 | at every handler boundary a restart rebuilds the same protocol state |
| ProtocolClient.NoneFree | mqtt/source/MQTTProtocolClient.c:69-89 | the result 0 means that every id except possibly the last assigned one is taken |
| ProtocolClient.NeverEnds | mqtt/source/MQTTProtocolClient.c:69-89 | with nothing assigned before and all ids taken every try is a taken id, and none is the 0 that ends the search |
| ProtocolClient.PassesOver | mqtt/source/MQTTProtocolClient.c:69-89 | with 5 in flight the id after 4 is 6 |
| ProtocolClient.Client.AssignMsgId | mqtt/source/MQTTProtocolClient.c:69-89 | the first id cyclically after `msgID` that no outbound message uses, or 0 when there is none; the loop ends, except where `NeverEnds` says that it does not |
| ProtocolClient.Client.StartPublish | mqtt/source/MQTTProtocolClient.c:120-160 | the call is the publish step of the protocol: PUBLISH goes out without DUP if the connection is up, the message joins the end of the outbound list, and its record is written under the s- key |
| ProtocolClient.Client.StartPublishQoS0 | mqtt/source/MQTTProtocolClient.c:120-160 | the packet is sent if the connection is up, and nothing is stored |
| ProtocolClient.Client.HandlePuback | mqtt/source/MQTTProtocolClient.c:312-343 | exactly a QoS 1 message of that id goes, with its s- record and no other |
| ProtocolClient.Client.HandlePubrec | mqtt/source/MQTTProtocolClient.c:352-392 | exactly a QoS 2 message that awaits PUBREC is released: the sc- record is written, PUBREL goes out and PUBCOMP is awaited; any other PUBREC changes nothing |
| ProtocolClient.Client.HandlePubcomp | mqtt/source/MQTTProtocolClient.c:461-501 | exactly a QoS 2 message that awaits PUBCOMP goes, with its s- and sc- records |
| ProtocolClient.Client.HandlePublish | mqtt/source/MQTTProtocolClient.c:256-304 | QoS 0 and 1 reach the application, QoS 2 is kept and its r- record written; what goes out is nothing, PUBACK or PUBREC of that id; other values of the QoS bits change nothing |
| ProtocolClient.Client.HandlePubrel | mqtt/source/MQTTProtocolClient.c:401-452 | a known id reaches the application, is answered with PUBCOMP and goes with its r- record; an unknown one is answered only with DUP set |
| ProtocolClient.Client.HandlePacket | mqtt/source/MQTTProtocolClient.c:256-501 | any packet moves the client as the abstract sender and receiver move, and brings the application exactly the publications that this packet can bring |
| ProtocolClient.Client.Retries | mqtt/source/MQTTProtocolClient.c:555-616 | the messages that are due are sent again in list order up to the first write that stays pending or fails; every PUBLISH among them has DUP set and is that of a due message that is not released, every PUBREL that of one that is; the records are written again with DUP, and the protocol state does not change; the session is closed exactly by a failure or by a PUBREL that is left pending |
| ProtocolClient.Client.RestoreKey | mqtt/source/MQTTPersistence.c:186-240 | one key of the restoring loop adds what its record says, by what is still in the store under the other key of the same message, and keeps the list sorted; a record that is no packet is removed and adds nothing |
| ProtocolClient.Client.Restore | mqtt/source/MQTTPersistence.c:171-259 | for every store, all bad records and every order of the keys the restored client is what the store says: a QoS 2 message waits for PUBCOMP exactly if its sc- record is there, or is bad and comes after the s- record; orphans and bad records are deleted, and the list is turned at the largest gap |
| ProtocolClient.Client.Reboot | mqtt/source/MQTTPersistence.c:171-259 | the same from any state of the memory, with `msgID` 0 afterwards; the records under c- and q- keys are all left |
| ProtocolClient.Client.Restart | mqtt/source/MQTTPersistence.c:171-259 | between two handlers: the same protocol state comes back if and only if no QoS 2 message has a bad sc- record behind its s- record; then the order comes back if and only if it is one that does. The records under c- and q- keys are all left |
| ProtocolClient.Client.CrashInPubrec | mqtt/source/MQTTProtocolClient.c:382-387 | the process ends behind the write of the sc- record: the restart leaves what the crash step of the protocol leaves |
| ProtocolClient.Client.CrashInPubcomp | mqtt/source/MQTTPersistence.c:395-420 | the process ends between the two removals: the restart leaves what the crash step of the protocol leaves |
| ProtocolClient.Client.CrashInPublish | mqtt/source/MQTTProtocolClient.c:142-160 | the process ends behind the write of the s- record: the restart leaves what the crash step of the protocol leaves, and that record |
| ProtocolClient.BadReleaseRecord | mqtt/source/MQTTPersistence.c:207-236 | a bad sc- record beside an s- record: with the keys in one order the message awaits PUBCOMP, in the other PUBREC |
| Disk.PublishReadBack | mqtt/source/MQTTPersistence.c:267-383 | the bytes written for a PUBLISH record are never refused and give the record back |
| Disk.PubrelReadBack | mqtt/source/MQTTPersistence.c:267-383 | the same for a PUBREL record, whatever its dup flag |
| Disk.ReadStore | mqtt/source/MQTTPersistence.c:171-296 | from the bytes of a disk exactly the records come back that the client has written, and exactly the others are bad |
| Disk.RestartFrom | mqtt/source/MQTTPersistence.c:171-296 | a restart from nothing but the bytes is the restart from the records, with the refused ones as the bad ones; what is on the disk under c- and q- keys is left there, readable as a packet or not, and a recorded queue is recorded afterwards |
| TwoClients.RetriesKeep | mqtt/source/MQTTProtocolClient.c:555-616 | a whole round of retries keeps the invariant of the connection |
| TwoClients.AllTaken | mqtt/source/MQTTProtocolClient.c:69-89 | 65535 outbound messages with distinct ids leave no id free |
| TwoClients.Act | mqtt/source/MQTTProtocolClient.c:120-616 | every action of two clients on one connection, crashes inside a handler included, is a step of the abstract protocol, or no change where none is possible; what an end writes goes out exactly if that end is up, the application gets what the packet brings, and a round of retries sends one packet for each message that is due, as many as there is room for |
| TwoClients.TraceSound | mqtt/source/MQTTProtocolClient.c:120-616 | along every trace of such steps the invariant of the protocol holds, and the application agrees with it |
| TwoClients.TraceReachesOnce | mqtt/source/MQTTProtocolClient.c:278-300 | along every trace of such steps, a QoS 2 publication that was ever in flight is at the application at most once, and exactly once when it is in flight no more |
| TwoClients.Run | mqtt/source/MQTTProtocolClient.c:120-616 | for every script of publishes, deliveries, retries, connects, losses, restarts and crashes of the sender the two clients go through a trace of the script, and deliver QoS 2 exactly once |
| TwoClients.AgreedOnce | mqtt/source/MQTTProtocolClient.c:278-300 | what the application of the receiver holds agrees with the protocol on every accepted publication |
| DeliveryLaws.PubackIsDelivered | mqtt/source/MQTTProtocolClient.c:256-277 | in every state of every trace in which a PUBACK is on its way, the receiver has taken a QoS 1 PUBLISH of that id, and its publication is at the application |
| DeliveryLaws.FirstOnlyOnce | mqtt/source/MQTTProtocolClient.c:118-160 | along every trace a PUBLISH without DUP is written by the publish call whose publication it carries, and by no other action, and once |
| DeliveryLaws.AtMostOnce | mqtt/source/MQTTProtocolClient.c:118-160 | along every trace a QoS 0 publication is at the application at most once |
| DeliveryLaws.AtLeastOnce | mqtt/source/MQTTProtocolClient.c:256-343 | along every trace a QoS 1 publication whose id was fresh is at the application or waits for its PUBACK, at every later point |
| DeliveryLaws.LosesExactly | mqtt/source/MQTTProtocolClient.c:312-343 | from the state after the publish call some way of going on loses the publication if and only if its id was not fresh: a PUBACK or a QoS 1 PUBLISH of that id was still on its way |
| DeliveryLaws.LostStays | mqtt/source/MQTTProtocolClient.c:256-616 | what has been lost so is lost for good |
| DeliveryLaws.FinishesExactly | mqtt/source/MQTTProtocolClient.c:256-616 | from every state that the two clients can be in: on a new connection that holds, one retry and the deliveries after it bring a waiting message to the application and finish it, except exactly a QoS 2 message that the receiver is done with; QoS 2 has then been delivered exactly once |
| DeliveryLaws.FirstIsDelivered | mqtt/source/MQTTProtocolClient.c:120-501 | connect, publish with QoS 2, and four deliveries: the application has got exactly that publication, nothing waits and nothing is on its way |
| MessageQueue.RestoreQueueEntry | mqtt/source/MQTTPersistence.c:534-577 | an entry is given back if and only if the whole of it is laid out in the record; otherwise the source reads behind the record |
| MessageQueue.EntryByNumber | mqtt/source/MQTTPersistence.c:496-517 | the layout of a queue record: length and payload, QoS, retained, dup and id, the topic with its NUL, and the topic length; numbers are four bytes with the lowest first |
| MessageQueue.RecordIsRestored | mqtt/source/MQTTPersistence.c:500-577 | a record that was written from an entry gives back that entry, with its topic up to the first NUL |
| MessageQueue.UpToNulExactly | mqtt/source/MQTTPersistence.c:514-515 | a topic survives in its record if and only if it holds no NUL |
| MessageQueue.InsertInSeqOrder | mqtt/source/MQTTPersistence.c:580-593 | insertion keeps the numbers ascending and adds exactly that entry |
| MessageQueue.SameAscending | mqtt/source/MQTTPersistence.c:580-593 | an ascending queue is determined by what is in it, so the order of the keys does not matter |
| MessageQueue.Mailbox.Arrive | mqtt/source/MQTTAsync.c:1854-1911 | a message is handed over at once only when nothing waits before it; otherwise it joins the queue and the store under a key that no waiting message has |
| MessageQueue.Mailbox.Deliver | mqtt/source/MQTTAsync.c:1507-1530 | the head is delivered and leaves the queue exactly if the application takes it; the record that goes is that of the number read from the freed entry, and queue and store stay in step if and only if this is still the number of the head |
| MessageQueue.Mailbox.CallBack | mqtt/source/MQTTClient.c:533-556 | the callback of the synchronous client takes the head off the queue and leaves its record in the store |
| MessageQueue.RestoreAll | mqtt/source/MQTTPersistence.c:601-642 | for every order of the keys the restored queue is the recorded one in its order, and numbering goes on after the last |
| MessageQueue.Mailbox.Restart | mqtt/source/MQTTPersistence.c:601-642 | the queue comes back in its order together with every message whose record was left; it is the old queue, and delivery stays once and in order, if and only if none was |
| MessageQueue.Run | mqtt/source/MQTTAsync.c:1854-1911 | over every run with restarts each message is delivered once in the order of arrival or still waits, if and only if no restart meets a record that the synchronous callback has left |
| MessageQueue.CallbackRedelivers | mqtt/source/MQTTClient.c:533-556 | arrival, callback and restart: the message is delivered and waits again |
| PublicationStore.State.StorePublication | mqtt/source/MQTTProtocolClient.c:206-232 | a new publication is stored with count 1 |
| PublicationStore.State.RemovePublication | mqtt/source/MQTTProtocolClient.c:238-248 | a publication leaves the list exactly when its last reference goes |
| PublicationStore.State.StartPublish | mqtt/source/MQTTProtocolClient.c:142-160 | every count stays the number of messages and pending writes that point to the publication |
| PublicationStore.State.StartShared | mqtt/source/MQTTProtocolClient.c:171-197 | the same when a message shares the publication of another |
| PublicationStore.State.FinishOutbound | mqtt/source/MQTTProtocolClient.c:325-339 | the same when an outbound message ends; the publication stays exactly if something else points to it |
| PublicationStore.State.Receive | mqtt/source/MQTTProtocolClient.c:278-300 | the same when an inbound message comes, also in the place of one with the same id |
| PublicationStore.State.Deliver | mqtt/source/MQTTProtocolClient.c:427-447 | the PUBREL handler, which does not look at the count, takes out a publication whose count is 1 |
| PublicationStore.State.StoreQoS0 | mqtt/source/MQTTProtocolClient.c:92-109 | the same when an unfinished QoS 0 write keeps a copy |
| PublicationStore.State.CheckPendingWrites | mqtt/source/MQTTAsync.c:803-823 | exactly the copies of the finished writes go, the others stay in order, and every count is right |
| Wire.EncodeLength | mqtt/source/MQTTPacket.c:264-280 | the loop writes the encoding of section 2.2.3 of MQTT 3.1.1 |
| Wire.LengthByNumber | mqtt/source/MQTTPacket.c:264-280 | seven bits to a byte, the lowest first, and the eighth bit in all bytes but the last |
| Wire.LengthLimits | mqtt/source/MQTTPacket.c:264-280 | the bytes at the limits that section 2.2.3 of MQTT 3.1.1 tables |
| Wire.LengthRoundTrip | mqtt/source/MQTTPacket.c:264-319 | every length of 0 to 268435455 is written in 1 to 4 bytes and read back |
| Wire.LengthRoundTripExactly | mqtt/source/MQTTPacket.c:264-319 | a length is read back if and only if it is at most 268435455 |
| Wire.EncodeIsMinimal | mqtt/source/MQTTPacket.c:264-280 | no shorter bytes are read as the same length, and no others as short |
| Wire.PrefixFree | mqtt/source/MQTTPacket.c:264-280 | no encoding is the beginning of another |
| Wire.DecodeStable | mqtt/source/MQTTPacket.c:289-319 | what has been read does not depend on what follows |
| Wire.BuffersOfPublish | mqtt/source/MQTTPacket.c:221-718 | the buffers handed to the socket, one behind the other, are the PUBLISH packet of section 3.3 of MQTT 3.1.1: by number the type and flags of the first byte, and the high byte of every length and id before the low one |
| Wire.ReadBack | mqtt/source/MQTTPacket.c:481-504 | a PUBLISH body is parsed to the topic, id, payload, QoS and flags it was made of |
| Wire.ReadBackExactly | mqtt/source/MQTTPacket.c:481-504 | this holds if and only if the topic has at most 65535 bytes |
| Wire.FirstOfBytes | mqtt/source/MQTTPacket.c:95-164 | the first packet of a stream that begins with a packet is that packet |
| Wire.StreamRoundTrip | mqtt/source/MQTTPacket.c:95-255 | packets sent one behind the other are read as the same packets |
| Wire.PartOfStream | mqtt/source/MQTTPacket.c:95-255 | from a stream that breaks off anywhere only packets that were sent are read, in order |
| Wire.PublishRoundTrip | mqtt/source/MQTTPacket.c:481-718 | a PUBLISH that is sent is read from the stream with equal topic, id, payload, QoS and flags |
| Wire.AckRoundTrip | mqtt/source/MQTTPacket.c:529-547 | an acknowledgement is read back with its type, id and dup flag |
| Wire.AckByNumber | mqtt/source/MQTTPacket.c:529-547 | by number: PUBACK, PUBREC, PUBREL and PUBCOMP begin with 0x40, 0x50, 0x62 and 0x70, and 8 more with DUP; then come 2 and the id with its high byte first |
| Wire.RestorePacket | mqtt/source/MQTTPersistence.c:267-296 | what a record is restored to is given for every record; the source reads behind it exactly if no length byte ends the length |
| Wire.RecordOfBytes | mqtt/source/MQTTPersistence.c:267-296 | a packet of any length is restored from its bytes if it is one that can be read |
| Wire.StoreAndRestore | mqtt/source/MQTTPersistence.c:267-383 | a PUBLISH that is stored and restored has equal topic, id, payload, QoS and flags |
| Wire.HasReaderExactly | mqtt/source/MQTTPacket.c:68-86 | exactly these types of packet have a reader |
| Wire.ReadableExactly | mqtt/source/MQTTPacket.c:481-504 | by number: a packet is refused if its type has no reader, or if it is a PUBLISH whose topic is not whole |
| PacketBytes.SentIsUnderstood | mqtt/source/MQTTPacket.c:481-718 | a packet of the delivery protocol, sent as bytes by one client, is understood by the other as the same packet, by the number of its type, whatever follows |
| SocketReader.FirstAfterHeader | mqtt/source/MQTTPacket.c:95-164 | once the header is whole, the packet is the header byte and the announced number of bytes |
| SocketReader.Reader.GetQueuedChar | mqtt/source/SocketBuffer.c:185-210 | a saved header byte is read again, or all of them have been; nothing is lost |
| SocketReader.Reader.QueueChar | mqtt/source/SocketBuffer.c:263-293 | a byte just received is saved behind the others, at most five of them |
| SocketReader.Reader.Interrupted | mqtt/source/SocketBuffer.c:218-234 | what has been read of the packet is pending again, for this socket only |
| SocketReader.Reader.Complete | mqtt/source/SocketBuffer.c:242-255 | nothing stays saved for the socket, and the other sockets keep what they have |
| SocketReader.Reader.GetQueuedData | mqtt/source/SocketBuffer.c:145-176 | the buffer has room for the packet and keeps the data saved so far |
| SocketReader.Reader.Getch | mqtt/source/Socket.c:293-320 | the next byte of what is pending, saved or fresh; or all is pending again |
| SocketReader.Reader.DecodeLength | mqtt/source/MQTTPacket.c:289-319 | the length loop reads a whole header, or gives all bytes back, or finds a fifth length byte announced |
| SocketReader.Reader.Getdata | mqtt/source/Socket.c:331-372 | the data is read whole, also when part of it was saved before, or all of it is pending again behind its header |
| SocketReader.Reader.Factory | mqtt/source/MQTTPacket.c:95-164 | one call takes exactly the first packet off what is pending, or leaves what is pending unchanged when the connection delivered too little |
| SocketReader.Reader.Cleanup | mqtt/source/SocketBuffer.c:124-135 | after an error the socket has no queue, and the others are as they were |
| SocketReader.Reader.ReadAll | mqtt/source/MQTTPacket.c:95-164 | for any schedule of reads from several sockets, interrupted anywhere: what each has received with what is pending is what its unbroken stream holds, and every read that is not cut short brings a packet |
| SocketWriter.Writer.PutDatas | mqtt/source/Socket.c:436-487 | all buffers are offered at once; what is not taken is due, and completion is reported exactly if nothing is; a failing call keeps nothing |
| SocketWriter.Writer.AddPending | mqtt/source/SocketBuffer.c:305-330 | the pending write holds exactly the bytes behind those already taken |
| SocketWriter.Writer.Remaining | mqtt/source/Socket.c:725-742 | a round offers exactly what is due up to the end of a buffer that the last write stopped inside, which is a non-empty beginning of what is due |
| SocketWriter.Writer.ContinueWrite | mqtt/source/Socket.c:705-801 | a round sends a beginning of what is due and of nothing else, and reports completion exactly if nothing is left; a failure drops what is left and counts as completion |
| SocketWriter.Writer.StreamEquality | mqtt/source/Socket.c:436-801 | unless the continuation of a write on it has failed, what a socket has sent is a beginning of what was accepted for it, and all of it exactly if no write is pending |
| SocketWriter.Writer.CompleteExactly | mqtt/source/Socket.c:436-801 | with nothing pending as many bytes are sent as were accepted if and only if no continuation has failed |
| SocketWriter.Run | mqtt/source/Socket.c:436-801 | over any script of opens, writes and continued writes the writer is in the state that a ledger by value tells: which writes are accepted, what each connection has got, what is pending, and which connections are broken; for every socket that is not broken the stream equality holds, and a socket is broken if and only if a failing continuation has met a pending write on it |
| SocketWriter.BrokenExactly | mqtt/source/Socket.c:705-801 | in the ledger a connection is broken if and only if some continuation of the script fails while a write is pending |
| SocketWriter.FailureLoses | mqtt/source/Socket.c:705-801 | open, a write of which nothing is taken, and a continuation that fails: the connection has got nothing, nothing is pending, and it is broken |
| Connection.FirstOfPart | mqtt/source/MQTTPacket.c:95-255 | a beginning of a stream of packets is never malformed, and its first packet is the first one sent |
| Connection.TraceWrites | mqtt/source/Socket.c:436-801 | the packets accepted, and what the connection has taken of them, are what the script alone tells: a packet is refused exactly if a write is pending or the call fails |
| Connection.TraceReads | mqtt/source/MQTTPacket.c:95-164 | until the reader has closed its end every Receive of the script is a read |
| Connection.TraceDelivers | mqtt/source/MQTTPacket.c:95-255 | in every state of every trace the packets read are a beginning of those accepted; with nothing pending at the writer the bytes of all the others are pending at the reader; each read that is not cut short brings a packet |
| Connection.Run | mqtt/source/MQTTPacket.c:95-255 | over any script of packets given to a writer, continued writes and reads at the other end, each cut short anywhere, a writer and a reader go through a trace of such states, one step for each action |
| LinkedList.CursorAgrees | mqtt/source/LinkedList.c:150-185 | a hit of the cursor is the first match exactly if nothing before it matches; with unique keys always |
| LinkedList.List.AppendNoMalloc | mqtt/source/LinkedList.c:70-82 | the element joins the end of both chains, and its size is added |
| LinkedList.List.Append | mqtt/source/LinkedList.c:91-95 | the contents grow by one at the end, and the size is added |
| LinkedList.List.Insert | mqtt/source/LinkedList.c:106-127 | the contents grow by one before the given element, or at the end, both chains agree, and the size is added |
| LinkedList.List.NextElement | mqtt/source/LinkedList.c:400-403 | the element at the next place, from the place before the first on |
| LinkedList.List.PrevElement | mqtt/source/LinkedList.c:413-416 | the element at the place before, from the place behind the last on |
| LinkedList.List.FindItem | mqtt/source/LinkedList.c:150-185 | a match is found exactly if a plain scan finds one, and it is the same unless the cursor stood on another match |
| LinkedList.List.Unlink | mqtt/source/LinkedList.c:197-229 | one matching element goes out of both chains, the cursor goes back or on to the next element, and never dangles; the size is not reduced |
| LinkedList.List.DetachHead | mqtt/source/LinkedList.c:261-279 | the first content comes out, the rest stays in order, and the cursor never dangles |
| LinkedList.List.PopTail | mqtt/source/LinkedList.c:299-317 | the last content comes out, the rest stays in order, and the cursor never dangles |
| LinkedList.List.Rotate | mqtt/source/MQTTPersistence.c:454-463 | relinking at an element turns the list and keeps it well formed |
| Crc.ComputeCrc | icp/source/icp_config.c:44-53 | the loop computes the checksum of the whole buffer |
| Crc.CheckValue | icp/source/icp_config.c:34-53 | the checksum of the digits 1 to 9 is 0x31C3 |
| Crc.StepDivides | icp/source/icp_config.c:34-43 | the shifts and xors of one byte are eight steps of the division by x^16 + x^12 + x^5 + 1, bit by bit |
| Crc.CrcIsRemainder | icp/source/icp_config.c:34-53 | the checksum is the remainder of the message, with seed 0 |
| Crc.CrcLinear | icp/source/icp_config.c:34-53 | over messages of equal length the checksum of the difference is the difference of the checksums |
| Crc.ValidExactly | icp/source/icp_config.c:34-53 | a message with two more bytes has remainder 0 if and only if these are its checksum |
| Crc.BurstLeavesRemainder | icp/source/icp_config.c:34-53 | a non-zero difference inside sixteen consecutive bits leaves a remainder |
| Crc.BurstDetected | icp/source/icp_config.c:34-53 | two valid messages of equal length never differ only inside sixteen consecutive bits |
| Icp.ParsesExactly | icp/source/icp.c:388-460 | the receiver takes a buffer for a packet if and only if it begins with the frame of that packet |
| Icp.FrameByNumber | icp/source/icp.c:214-230 | the layout of a frame: destination, source, length and checksum with the high byte first; a frame can be delivered exactly with node numbers up to 6 and 1 to 32761 bytes |
| Icp.FrameIsValid | icp/source/icp.c:188-243 | a frame has checksum 0 as a whole |
| Icp.FramesFarApart | icp/source/icp.c:188-243 | two frames of equal length that differ at all differ in bits more than sixteen places apart |
| Icp.Node.SendPacket | icp/source/icp.c:163-244 | the transmit buffer holds the frame, exactly for payloads of 2 to 32761 bytes and valid destinations; otherwise nothing changes |
| Icp.Node.BytesIn | icp/source/icp.c:102-154 | a chunk, which may be empty, is appended or refused whole; a node that is not addressed drops out, counts it and flushes |
| Icp.Node.ProcessRx | icp/source/icp.c:388-460 | exactly a frame in the buffer is delivered, and the buffer flushed; anything else changes nothing |
| Icp.Node.Receive | icp/source/icp.c:102-154 | a frame that comes in any non-empty chunks after the access signal is delivered once with source, destination, length and data by the addressed node and by one that listens to all, by no other; buffer flushed, no role |
| Icp.Node.TakeIn | icp/source/icp.c:102-154 | the bytes of a transmission in any non-empty chunks fill the buffer of the addressed node and of one that listens to all, and of no other |
| Icp.Node.ProcessTx | icp/source/icp.c:362-380 | bytes go out only when the bus is reserved, in the order of the buffer and from where the last report of the host stopped; a last single byte is not offered |
| Icp.Node.Update | icp/source/icp.c:316-343 | a frame in the buffer is delivered; exactly a node that then has no role starts its frame if it can; one that has a role puts nothing out, and counts if it waits |
| Icp.Node.SendRepeatedly | icp/source/icp.c:163-380 | a packet is sent and the bus reserved n times by a host that puts out all it is offered: a frame of at most 255 bytes goes out once, of a longer one all but (length of the frame) % 256 bytes go out again each time |
| Icp.Node.AccessInactive | icp/source/icp.c:265-289 | for a waiting sender it is the acknowledgement, for a receiver the end of the frame with the buffer flushed; the count is kept |
| Icp.Node.WaitInVain | icp/source/icp.c:316-360 | a sender without acknowledgement gives up if and only if the timeout is at most 255 and there are enough updates, after exactly the timeout plus one less the count left over; it puts nothing more out, and a frame left in its receive buffer is delivered |
| Icp.AcrossBus | icp/source/icp.c:102-460 | of a frame the first bytes go out in one reservation and reach another node: the packet is delivered if and only if that node is addressed or listens to all, and the missing bytes, if any, are all 0xFF |
| Utf8.EncodedMatches | mqtt/source/utf-8.c:52-63 | the shortest form of every scalar value matches a row of the table, of the length its first byte announces |
| Utf8.MatchedDecodes | mqtt/source/utf-8.c:52-63 | whatever matches a row is the shortest form of a scalar value |
| Utf8.WellFormedStep | mqtt/source/utf-8.c:124-143 | a string is well formed if and only if it begins with a character and the rest is well formed |
| Utf8.SignMakesNoDifference | mqtt/source/utf-8.c:98-99 | the comparisons answer the same with signed and unsigned chars |
| Utf8.MatchRow | mqtt/source/utf-8.c:93-107 | the inner loop accepts exactly what matches the row, and never looks behind the terminator |
| Utf8.CharValidate | mqtt/source/utf-8.c:72-115 | a character is accepted exactly if one stands there, although the length given is that of the whole string |
| Utf8.ValidateString | mqtt/source/utf-8.c:124-159 | a NUL-terminated string is accepted if and only if it is a sequence of shortest forms of scalar values; surrogates, values above 0x10FFFF and cut tails are rejected |
| CommandQueue.TakenFirst | mqtt/source/MQTTAsync.c:945-978 | taking the first command of a client takes the head of its commands and leaves the other clients alone |
| CommandQueue.StartedInOrder | mqtt/source/MQTTAsync.c:945-978 | started and waiting commands of each client stay in its order |
| CommandQueue.Queue.AddCommand | mqtt/source/MQTTAsync.c:733-770 | a command joins the end; CONNECT and internal DISCONNECT go before the others of their client, unless the same is at the head already |
| CommandQueue.Queue.Choose | mqtt/source/MQTTAsync.c:945-978 | the choice is the earliest queued command of its client; a PUBLISH, SUBSCRIBE or UNSUBSCRIBE is chosen only with a client that is connected, not connecting, with no pending write and fewer than 65534 messages outbound, and a first command that is passed over is one of these whose client is not so |
| CommandQueue.Queue.ProcessCommand | mqtt/source/MQTTAsync.c:930-978 | over any run the commands of each client start in their order, and only as the choice allows |
| Dispatch.StartOne | mqtt/source/MQTTAsync.c:945-978 | a started PUBLISH, SUBSCRIBE or UNSUBSCRIBE finds no write pending on its socket: its write is refused only if the system call fails, and is accepted whole otherwise |

## Left out

- ProtocolClient.Client.AssignMsgId: the one state in which the loop of the source does not end (`ProtocolClient.NeverEnds`) is required away. MQTTClient.c:1423 waits while `maxInflightMessages` messages are in flight, which keeps that caller out of it.
- TwoClients.Run: the restarts of the script find no bad records; what bad records do is stated of single restarts (`ProtocolClient.Client.Restart`, `Disk.RestartFrom`).
- Disk.ReadStore: a corrupted record that decodes to another packet, or whose length has no end, is not modelled; the source casts the one to the type that its key tells, and reads behind the other.
- ProtocolClient.Client.Retries: time and retry intervals are a parameter (`due`), and so is what becomes of the writes (`room`, `last`).
- QosProgress.FinishesExactly: some run finishes the exchange; `DeliveryLaws.FinishesExactly` names one, and that every fair run does is not stated.
- QosProtocol.Next: handlers of the receiver are atomic with respect to crashes; a crash between the delivery and the removal of the r- record is not modelled. Clean sessions and several clients that share the retry loop are left out.
- QosProtocol.Publication: `serial` tells publish calls apart in the proofs; no handler looks at it.
- DeliveryLaws.LosesExactly: the two clients are joined without a server, and the connection of the model keeps what is on its way over a restart of either end unless the script loses it; a server between them is not modelled.
- MessageQueue.Mailbox.Arrive: numbers above 999999, whose key does not fit its buffer, are required away.
- MessageQueue.Run: the source frees an entry with ListRemove (MQTTAsync.c:1522) and reads its number for the key only afterwards (MQTTAsync.c:1525); the runs take it that the number is still there, and `MessageQueue.Mailbox.Deliver` says what happens if not. A crash between the delivery to the application and the removal of the record is not modelled.
- Wire.PublishOf: the source reads the message id without looking at the end of the data; a body that ends there is `PastTheEnd`.
- SocketReader.Reader: after an error the socket is cleaned up, as the callers do. Queue entries are objects; their buffers are values.
- SocketWriter.Writer: the way Socket_continueWrites advances its cursor over the list of sockets and the closing of sockets are left out; the stream properties are per socket.
- Connection.Run: one direction of one connection; what the connection has taken is at the other end at once, where each read may find as little of it as it likes.
- PublicationStore.State: of a message only its publication is kept; freeing of memory is left out.
- LinkedList.List: the freeing of contents is left out.
- RedBlackTree.Tree: the second index is left out; comparison functions are total.
- HeapTracking.Heap: failing allocations, eyecatchers and the dump are left out.
- Icp.Node: arbitration between nodes, the signals of the host and the checks of the access signal in the notifications are left out. The source copies one byte more than the payload to the host; the model delivers the payload.
- CommandQueue.Queue.AddCommand: the record that a command gets in the store is left out.
- CommandQueue.Queue: the work that a started command does, completion of connects over several URIs, and restored commands are left out.
- Asynchronous message ids: that allocator looks only at queued commands and responses, and says nothing of outbound messages.
- Widths of counters in C are unbounded here, except where they are named: message ids, lengths, ICP buffer lengths and the acknowledgement count.
- Logging, tracing, threads, TLS, sockets, clocks, files and the main programs.
