# Seasocks in Dafny

Seasocks is an embeddable HTTP and WebSocket server in C++. This project models the parts of it that keep
state and depend on invariants, and proves what those invariants give. `dafny verify dfyconfig.toml` checks all
of it (Dafny 4.11).

## What is modelled

**The epoll emulation of wepoll.c.**
`TreeNodes`, `RedBlackShape`, `RedBlackInsert`, `RedBlackRemove` and `RedBlackRuns` hold the red-black tree as a
value, with its rules, contents and height; `TreeLinks`, `TreeUnlink` and `Tree` hold the same tree as nodes with
left, right and parent links that are rewritten in place, and prove that the links draw that value after every call.
`TreeRuns` plays any additions and removals on them.
`Queue` is the intrusive ring, proved against sequences. `PollGroups` is the allocator of poll-group slots.
`PortModel` and `Port` are the port with its sockets: first as a value with one function for each call, then as
objects that methods update, each method proved to do what its function says. `PortRuns` has what holds in every
run, whatever the system answers, `PortInterest` what the user is told, from the calls and the AFD conditions alone,
and `PortTree` ties the map of the runs to the red-black tree. `Reflock` is the reference count that guards a port
against being destroyed while in use: a step system of any number of threads. `ReflockRuns` says what a thread gets
from a lookup, a close and the creation of a node in its runs.

**getopt of win_getopt.h.** `Euclid` and `BlockExchange` are the exchange of two blocks of an array in place, cycle
by cycle; `Getopt` is the scan that calls it, `LongOptions` the search for long options. `GetoptPrinted` writes options
and operands out in every permitted form and proves that the scan gives them back.

**The hash functions.** `Sha1Spec` and `Md5Spec` state the standards, `Sha1`, `Md5Process` and `Md5` the classes that
take a message in pieces, and `HashBlocks` and `ByteNumbers` what they share. `Sequences` has what many modules share.

**The byte streams of a connection.** `HybiFrames` states the WebSocket frames of RFC 6455 and what the decoder
makes of any bytes, `HybiPacketDecoder` is the decoder, and `HybiInput` the connection that reads frames from a stream
cut into reads. `OutputModel` and `Connection` are the output buffer with partial sends, its limit, and the write-event
subscription. `ChunkedCoding` and `ResponseWriter` are the calls that write responses, and `ServedReplies` says what the
peer reads of them. `Hixie` is the older WebSocket framing.

**URIs.** `StringUtil` has split and replace, `CrackedUri` takes a URI apart.

Where the C++ changes objects step by step, the model is a class whose methods do the same steps, with a
specification as a pure function beside it; the laws are lemmas about that function. Answers of the system (bytes
taken by a send, completions, failed allocations, the fate of a cancel request) are parameters, so that every
statement holds for all of them. `Wrong`, `PastEnd` and error results stand for failed asserts, reads outside a
buffer and exceptions: the model has them, and the theorems say when they occur.

## Where the code does not do what one might expect

The model follows the code. Each of these has a lemma that says exactly when.

- `tree_del` rebalances only if the removed node had two children (wepoll.c:2164). Equal black height is lost exactly
  when a black leaf below the root is removed (`RemoveRedBlack`, `BlackLeafWitness`). Search order, contents, links and
  the colour rule are kept in any tree (`RemoveElems`, `RemoveNoRedRed`, `Tree.Del`, `PlayKeeps`). But where balance is
  lost, the loop may look at a sibling that is not there: `RemoveExactly` says exactly when (the predicate `Stuck`, which
  reads the colours along one path), and `MissingSiblingRun` is a run of eight calls on four keys that ends so.
- getopt gives -1 from inside a cluster such as `-a-` without moving on and without the permutation
  (win_getopt.h:561-562). For one call, `Next` says exactly when. For a whole scan, `ScanAll` does: exactly if the
  elements given say so (`ReadAll`), which `CutShortNeeds` traces to an element that starts and ends with '-' in a scan
  without long options. `ScanCutShort` is a vector that is left unpartitioned.
- The WebSocket decoder compares the size of the whole buffer where it means what is left of it
  (HybiPacketDecoder.cpp:73 and 81). `PastEndExactly` and `Incomplete` say when that lets it read past the end: only
  for a later frame whose long length has not arrived (`PastEndWitness`, `CutMatters`).
- The limit on WebSocket messages is on what a read leaves unfinished (Connection.cpp:693 and 773), so whether a longer
  frame closes the connection depends on how it is cut into reads (`LongFrameMatters`). `HybiInput.AnyCut` gives the
  outcome of every cut, `HybiInput.CutsExactly` and `StreamsExactly` the cuts and the streams for which it is what the
  stream means.
- For Hixie frames `Hixie.CutsExactly` says exactly for which streams the reads do not matter: up to 16385 bytes for a
  whole frame, and 16384 for an unfinished one.
- A WebSocket text is handed on as a C string (Connection.cpp:682-685 and 746-749), so a zero byte in it ends it
  (`Hixie.TextsExactly`, `HybiInput.FramesExactly`).
- `flush` gives up before it looks whether a closing connection is empty, if the unsubscription fails
  (Connection.cpp:428-431). `DrainExactly` says that then, and only then, no later flush ends the connection.
- The 32-bit chunk counter decides whether a line end is written before a chunk (Connection.cpp:1041). After 2^32
  chunks it is not, and the body is malformed (`BodyDecodes`).
- A URI whose path is a single empty segment cannot be told from the root (`RoundTrip`): its path is empty, as that of
  any URI with nothing between the first slash and the query (`NoSegments`), until it is shifted (`ShiftedNotEmpty`).
- No AFD event stands for EPOLLMSG, which user masks may hold and polls never report (`Reportable`).

## Model

| member | source | states |
|---|---|---|
| `WepollTree.Tree.Add` | src/main/c/seasocks/win32/wepoll.c:2040-2073 | on linked nodes: a key that is there gives -1 with every node as it was; a new one gives 0, and all parent and child links, colours and keys draw exactly the shape that `Insert` defines |
| `WepollTree.Tree.Del` | src/main/c/seasocks/win32/wepoll.c:2104-2177 | of any node of any tree, balanced or not: the node leaves the tree and all links agree afterwards; the call fails exactly where `Stuck` says, and otherwise the links draw the shape that `Remove` defines for the place of the node |
| `WepollTree.Tree.Find` | src/main/c/seasocks/win32/wepoll.c:2183-2194 | the node at the place of the key, or none; a node that is found has the key |
| `WepollTree.Tree.RotateAt` | src/main/c/seasocks/win32/wepoll.c:1984-2011 | the six writes of a rotation, at any place of the tree, draw the rotated shape with all links agreeing |
| `WepollTree.Tree.FixAfterInsert` | src/main/c/seasocks/win32/wepoll.c:2063-2070 | the fix-up loop ends and does what the recursive `FixInsert` says |
| `WepollTree.Tree.FixAfterRemove` | src/main/c/seasocks/win32/wepoll.c:2161-2176 | from any place of any tree the loop with its guard ends and does what `FixRemove` says; it fails exactly when that misses a sibling |
| `TreeLinks.RotateLinked` | src/main/c/seasocks/win32/wepoll.c:1984-2003 | after a rotation the parent and child links of the rotated subtree agree |
| `TreeLinks.RotateDraws` | src/main/c/seasocks/win32/wepoll.c:1984-2011 | and so do the links of the whole tree, wherever in it the rotation is done |
| `TreeUnlink.SpliceDrawn` | src/main/c/seasocks/win32/wepoll.c:2121-2153 | putting the successor in the place of a node with two children leaves links that agree |
| `TreeUnlink.BypassDrawn` | src/main/c/seasocks/win32/wepoll.c:2121-2153 | so does putting the only child there |
| `RedBlackInsert.LocateAbsent` | src/main/c/seasocks/win32/wepoll.c:2043-2056 | the search ends at the key if the tree has it, and otherwise at the one empty place between its neighbours |
| `RedBlackInsert.InsertElems` | src/main/c/seasocks/win32/wepoll.c:2040-2073 | a new key goes in between, in search order, and nothing else changes or moves |
| `RedBlackInsert.InsertRules` | src/main/c/seasocks/win32/wepoll.c:2013-2073 | no red node gets a red child, the root stays black, and equal black height on all paths is kept |
| `RedBlackRemove.RemoveElems` | src/main/c/seasocks/win32/wepoll.c:2104-2177 | in any tree, the contents are those before without exactly the given node, in the same order |
| `RedBlackRemove.RemoveNoRedRed` | src/main/c/seasocks/win32/wepoll.c:2104-2177 | in any tree with the colour rule and a black root, balanced or not: no red node has a red child afterwards, and the root is black |
| `RedBlackRemove.RemoveRedBlack` | src/main/c/seasocks/win32/wepoll.c:2161-2176 | in a red-black tree no sibling is missing, and the tree stays red-black if and only if the node was not a black leaf below the root |
| `RedBlackRemove.BlackLeafWitness` | src/main/c/seasocks/win32/wepoll.c:2164 | a tree of three black nodes that loses equal black height |
| `RedBlackRemove.RemoveExactly` | src/main/c/seasocks/win32/wepoll.c:2104-2177 | in any tree at all, tree_del reads through a missing sibling if and only if the node has two children, its successor is black without a red child, and on the way up from there a sibling the loop looks at is missing |
| `RedBlackRemove.SafeExactly` | src/main/c/seasocks/win32/wepoll.c:2075-2098 | the loop as a whole ends well exactly if, from its place up for as long as it climbs, every sibling is there |
| `RedBlackRemove.ShortSafe` | src/main/c/seasocks/win32/wepoll.c:2075-2098 | one black node short in a tree that keeps the rules elsewhere, every sibling is there |
| `RedBlackRuns.RemoveOrdered` | src/main/c/seasocks/win32/wepoll.c:2104-2177 | in any tree in search order, balanced or not: the order is kept and the key set loses that key alone |
| `RedBlackRuns.Play` | src/main/c/seasocks/win32/wepoll.c:2040-2177 | in every run of additions and removals: no red node has a red child, and the root is black |
| `RedBlackRuns.PlayKeeps` | src/main/c/seasocks/win32/wepoll.c:2040-2177 | in every such run: search order, and the contents of a plain map |
| `RedBlackRuns.PlayLookup` | src/main/c/seasocks/win32/wepoll.c:2183-2194 | after any additions and removals, a search finds a key exactly if the map has it, and the same node |
| `RedBlackRuns.StopsExactly` | src/main/c/seasocks/win32/wepoll.c:2075-2177 | the next change of a run fails if and only if it removes a key that is there from a place where `Stuck` holds |
| `RedBlackRuns.MissingSiblingRun` | src/main/c/seasocks/win32/wepoll.c:2078-2085 | a run of four additions and two removals, with one key added again, after which the removal of the root misses a sibling |
| `TreeRuns.FocusLocates` | src/main/c/seasocks/win32/wepoll.c:2183-2194 | the node a search ends at stands where the search ended |
| `TreeRuns.DelKey` | src/main/c/seasocks/win32/wepoll.c:1938-1951 | a key is looked up and its node taken out; a key that is not there changes nothing |
| `TreeRuns.Perform` | src/main/c/seasocks/win32/wepoll.c:1919-1951 | any additions and removals on linked nodes: after every one the links agree and draw the shape of the run, with its order, colours and contents; the run stops early exactly at a removal that is stuck |
| `RedBlackRuns.BuildKeeps` | src/main/c/seasocks/win32/wepoll.c:2040-2073 | after any additions from empty: red-black, in search order, with the contents of a plain map |
| `RedBlackRuns.BuildLookup` | src/main/c/seasocks/win32/wepoll.c:2183-2194 | after any additions, a search finds a key exactly if the map has it, and the same node |
| `RedBlackRuns.LookupExact` | src/main/c/seasocks/win32/wepoll.c:2183-2194 | in an ordered tree the search finds a node exactly if it is in the tree with that key |
| `RedBlackRuns.HeightBound` | src/main/c/seasocks/win32/wepoll.c:2013-2073 | a red-black tree of n nodes and height h has 2^h <= (n+1)^2 |
| `RedBlackRuns.BuildSteps` | src/main/c/seasocks/win32/wepoll.c:2045-2053 | so a search after any additions takes s steps with 2^s <= (n+1)^2 |
| `IntrusiveQueue.Queue.constructor` | src/main/c/seasocks/win32/wepoll.c:1465-1472 | an empty queue is a head linked to itself |
| `IntrusiveQueue.Queue.First` | src/main/c/seasocks/win32/wepoll.c:1479-1481 | the first member, or none if and only if there is none |
| `IntrusiveQueue.Queue.Last` | src/main/c/seasocks/win32/wepoll.c:1483-1485 | the last member, or none |
| `IntrusiveQueue.Queue.Prepend` | src/main/c/seasocks/win32/wepoll.c:1487-1492 | four writes put a node in front; all links of the ring agree again |
| `IntrusiveQueue.Queue.Append` | src/main/c/seasocks/win32/wepoll.c:1494-1499 | four writes put a node at the end |
| `IntrusiveQueue.Detach` | src/main/c/seasocks/win32/wepoll.c:1474-1477 | two writes take any one node out of a ring and leave a ring |
| `IntrusiveQueue.Queue.MoveToStart` | src/main/c/seasocks/win32/wepoll.c:1501-1504 | the node is first, the others keep their order |
| `IntrusiveQueue.Queue.MoveToEnd` | src/main/c/seasocks/win32/wepoll.c:1506-1509 | the node is last, the others keep their order |
| `IntrusiveQueue.Queue.Remove` | src/main/c/seasocks/win32/wepoll.c:1511-1514 | exactly that node leaves, and is linked to itself |
| `IntrusiveQueue.Queue.IsEmpty` | src/main/c/seasocks/win32/wepoll.c:1516-1518 | true exactly when there is no member |
| `IntrusiveQueue.SelfLinked` | src/main/c/seasocks/win32/wepoll.c:1520-1522 | in a ring a node is linked to itself exactly if it is alone, so the test for being enqueued tells members from others |
| `QueueContents.WithoutAt` | src/main/c/seasocks/win32/wepoll.c:1474-1477 | the sequence form of removal takes out one place and keeps the rest |
| `WepollPort.EpollPort.PollGroupAcquire` | src/main/c/seasocks/win32/wepoll.c:998-1016 | a slot in the last group, or in a new one if that is full; a group that gets full goes to the front |
| `WepollPort.EpollPort.PollGroupRelease` | src/main/c/seasocks/win32/wepoll.c:1018-1028 | the slot is given back and the group goes to the end |
| `PollGroups.AcquireKeeps` | src/main/c/seasocks/win32/wepoll.c:998-1016 | full groups stay in front of groups with room, no group exceeds 32, and as many groups exist as the peak number of slots needs |
| `PollGroups.ReleaseKeeps` | src/main/c/seasocks/win32/wepoll.c:1018-1028 | the same for giving a slot back |
| `PollGroups.EveryRun` | src/main/c/seasocks/win32/wepoll.c:998-1028 | in every run: full groups first, each size is the number of its holders and at most 32, and the number of groups made is the peak number of held slots over 32, rounded up |
| `WepollPort.EpollPort.SockNew` | src/main/c/seasocks/win32/wepoll.c:1639-1678 | registers a new object with a slot; 0, the invalid socket, one without a base socket, a registered key, or no memory leave all but the poll groups as they were, and no slot taken |
| `WepollPort.EpollPort.SockDelete` | src/main/c/seasocks/win32/wepoll.c:1680-1707 | cancels, dequeues and unregisters once; frees now or waits in the deleted queue, as `Delete` says |
| `WepollPort.EpollPort.SockSetEvent` | src/main/c/seasocks/win32/wepoll.c:1717-1732 | stores the mask with errors and hang-ups added, as `PortInterest.CallKept` says over whole runs, and asks for an update if the pending poll does not cover it |
| `WepollPort.EpollPort.SockUpdate` | src/main/c/seasocks/win32/wepoll.c:1776-1836 | the three poll states and each answer of AFD, with the mask that AFD is asked for, and the failing calls leaving everything unchanged |
| `WepollPort.EpollPort.SockFeedEvent` | src/main/c/seasocks/win32/wepoll.c:1838-1891 | a completion makes the poll idle, then frees, drops or reports and asks for a new poll, as `Feed` says, which `PortInterest.FeedTells` ties to the conditions that occurred |
| `WepollPort.EpollPort.UpdateEvents` | src/main/c/seasocks/win32/wepoll.c:1172-1188 | the loop over the update queue ends, and stops at the first error |
| `WepollPort.EpollPort.UpdateEventsIfPolling` | src/main/c/seasocks/win32/wepoll.c:1190-1193 | does so only while some thread polls |
| `WepollPort.EpollPort.FeedEvent` | src/main/c/seasocks/win32/wepoll.c:1203-1207 | one completion packet keeps the invariant and reports at most one event, with the data of the user |
| `WepollPort.EpollPort.FeedEvents` | src/main/c/seasocks/win32/wepoll.c:1195-1211 | the loop over all packets: the reports of those that have one, in order (`PortInterest.AllTold` says which), and their number |
| `PortModel.FeedFirst` | src/main/c/seasocks/win32/wepoll.c:1195-1211 | any completions that are owed, one for a socket, may arrive in one array: each is still owed when its turn comes |
| `WepollPort.EpollPort.CtlAdd` | src/main/c/seasocks/win32/wepoll.c:1323-1338 | succeeds exactly if the key is a new socket with a base socket and memory suffices, and then the new socket has the wanted events; otherwise all but the poll groups is as it was |
| `WepollPort.EpollPort.CtlMod` | src/main/c/seasocks/win32/wepoll.c:1340-1353 | succeeds exactly for a registered key |
| `WepollPort.EpollPort.CtlDel` | src/main/c/seasocks/win32/wepoll.c:1355-1363 | succeeds exactly for a registered key, and then it is registered no more |
| `WepollPort.EpollPort.PortDelete` | src/main/c/seasocks/win32/wepoll.c:1141-1170 | all three loops end; the asserts on empty groups (984) and on the empty update queue (1163) hold, and no object stays live |
| `PortModel.SetEventKeeps` | src/main/c/seasocks/win32/wepoll.c:1717-1732 | what the port invariant says of every live socket (which queue, which poll status, what is owed, who is registered) is kept |
| `PortModel.DeleteKeeps` | src/main/c/seasocks/win32/wepoll.c:1680-1707 | kept by a deletion, forced or not, whatever comes of the cancel request |
| `PortModel.UpdateKeeps` | src/main/c/seasocks/win32/wepoll.c:1776-1836 | kept by an update; each one that succeeds shortens the update queue |
| `PortModel.FeedKeeps` | src/main/c/seasocks/win32/wepoll.c:1838-1891 | kept by a completion |
| `PortModel.AddKeeps` | src/main/c/seasocks/win32/wepoll.c:1323-1338 | kept by an addition |
| `PortModel.NewFailsKeeps` | src/main/c/seasocks/win32/wepoll.c:1670-1677 | kept when a slot is taken and given back |
| `PortModel.ReportWanted` | src/main/c/seasocks/win32/wepoll.c:1867-1890 | an event is reported only if the user asked for it |
| `PortModel.UpdateAllLeavesNoneIdle` | src/main/c/seasocks/win32/wepoll.c:1172-1188 | after an update of all that succeeds, no registered socket is idle |
| `PortModel.ForcedDelete` | src/main/c/seasocks/win32/wepoll.c:1141-1156 | each forced delete makes exactly one object less, so the loops of port_delete end |
| `PortModel.Emptied` | src/main/c/seasocks/win32/wepoll.c:1153-1163 | with the tree and the deleted queue empty nothing is live, no update is queued and every group is unused |
| `PortRuns.EveryRun` | src/main/c/seasocks/win32/wepoll.c:1172-1188 | the invariant holds in every state of every run of calls and completions |
| `PortRuns.NeverWrong` | src/main/c/seasocks/win32/wepoll.c:1776-1779 | in no run does a call use an object that is not live, or fail the assert that an updated socket is not being deleted |
| `PortTree.StepTree` | src/main/c/seasocks/win32/wepoll.c:1396-1407 | each section adds at most one key to the socket tree or takes one out |
| `PortTree.TreeFollows` | src/main/c/seasocks/win32/wepoll.c:1396-1407 | in every run the map of the port is the one that its tree changes give |
| `PortTree.TreeHolds` | src/main/c/seasocks/win32/wepoll.c:1396-1413 | so in every run a search of the red-black tree finds exactly the registered sockets, as long as no tree_del was stuck |
| `PortTree.NextStuck` | src/main/c/seasocks/win32/wepoll.c:1405-1407 | the next section is stuck if and only if it takes a socket out of a place where tree_del is |
| `PortInterest.NoInterestLost` | src/main/c/seasocks/win32/wepoll.c:1776-1836 | in every run each registered socket is queued for an update, or is cancelled with a completion owed, or is polled: then AFD was asked for all conditions of every event that the last EPOLL_CTL_ADD or EPOLL_CTL_MOD for the key named, or of errors and hang-ups, unless a one-shot report has been given since |
| `PortInterest.CallKept` | src/main/c/seasocks/win32/wepoll.c:1717-1732 | in every run a registered socket has the data of the last successful call for its key, and waits for just what that call named, with errors and hang-ups; for nothing if and only if that call asked for one report and a report has been given since |
| `PortInterest.LastCall` | src/main/c/seasocks/win32/wepoll.c:1323-1353 | in every run there is such a call for each registered key |
| `PortInterest.ReportsCall` | src/main/c/seasocks/win32/wepoll.c:1838-1891 | in every run the completion of its poll is reported to the user as that call asked for, with its data (`Told`) |
| `PortInterest.FeedTells` | src/main/c/seasocks/win32/wepoll.c:1838-1891 | for a socket that goes on: the report holds each epoll event exactly if the user waits for it and one of the AFD conditions behind it has occurred; a failed request reports EPOLLERR if the user waits for that, and a cancelled or empty one nothing; the mask is taken back exactly when something was reported and it has EPOLLONESHOT |
| `PortInterest.ToldOnce` | src/main/c/seasocks/win32/wepoll.c:1755-1774 | there is just one report that says so |
| `PortInterest.FeedEnds` | src/main/c/seasocks/win32/wepoll.c:1846-1866 | for a socket that was closed or is being deleted: nothing is reported, and the object is freed and registered no more |
| `PortInterest.AllTold` | src/main/c/seasocks/win32/wepoll.c:1195-1211 | in an array of packets each is reported as it would be alone, with the data of its socket, in the order of the packets |
| `PortInterest.PollAsks` | src/main/c/seasocks/win32/wepoll.c:1734-1753 | a poll that covers what the user waits for asks AFD for all conditions of each of these events |
| `PortInterest.PollOnly` | src/main/c/seasocks/win32/wepoll.c:1734-1753 | and for no condition of no such event, apart from the closing of the socket, for which it always asks |
| `PortInterest.Heard` | src/main/c/seasocks/win32/wepoll.c:1734-1774 | so what AFD was not asked for is missed in no report |
| `PortInterest.WorkedOff` | src/main/c/seasocks/win32/wepoll.c:1172-1193 | if no request fails, the update queue is worked off exactly while a thread polls, and then every registered socket is polled for all conditions of what it waits for, or has a completion to come |
| `PortInterest.PollReplaced` | src/main/c/seasocks/win32/wepoll.c:1776-1799 | an update cancels a pending poll exactly if the user waits for a known event that is not in its mask, and otherwise leaves it alone |
| `PortInterest.Removed` | src/main/c/seasocks/win32/wepoll.c:1680-1707 | a removal takes the socket out of tree and update queue at once; it is freed exactly if no completion is owed, and otherwise its poll is cancelled, if AFD agrees, and it waits in the deleted queue |
| `PortModel.NothingHidden` | src/main/c/seasocks/win32/wepoll.c:1734-1774 | a poll whose recorded events cover what the user waits for reports, of whatever happens, all that the user waits for: the two translations of event masks fit |
| `PortModel.Reportable` | src/main/c/seasocks/win32/wepoll.c:1734-1774 | the known events of a mask that a poll for it can report are all but EPOLLMSG, which has no AFD flag |
| `PortRuns.QueuesApart` | src/main/c/seasocks/win32/wepoll.c:1416-1446 | in every run members of the update queue are not being deleted; members of the deleted queue are, are not idle, and have a completion owed |
| `PortRuns.UsedGrows` | src/main/c/seasocks/win32/wepoll.c:1696-1704 | no step brings an object back, and a step ends the life of none but the object it is about |
| `PortRuns.DeadStaysDead` | src/main/c/seasocks/win32/wepoll.c:1696-1704 | an object that was freed is never live again: it is freed at most once |
| `PortRuns.FreedWhenIdle` | src/main/c/seasocks/win32/wepoll.c:1693-1704 | an object is freed only with no completion owed, or by taking that completion |
| `PortRuns.FreedOnCompletion` | src/main/c/seasocks/win32/wepoll.c:1846-1851 | an object being deleted is freed by its completion |
| `Reflock.Masks` | src/main/c/seasocks/win32/wepoll.c:1524-1528 | the masks of the lock word are quotient and remainder by 2^28 |
| `Reflock.FindRefs` | src/main/c/seasocks/win32/wepoll.c:1558-1564 | taking a reference under the shared lock passes the assert at 1562 and keeps the invariant |
| `Reflock.CloseRefs` | src/main/c/seasocks/win32/wepoll.c:1938-1951 | so does the reference taken under the exclusive lock once the node left the tree |
| `Reflock.UnrefKeeps` | src/main/c/seasocks/win32/wepoll.c:1566-1574 | dropping a reference passes the assert at 1570, and signals exactly if it was the last one with a destroyer waiting |
| `Reflock.BeginKeeps` | src/main/c/seasocks/win32/wepoll.c:1576-1586 | beginning to destroy passes the assert at 1582, and waits exactly if references are left |
| `Reflock.EndKeeps` | src/main/c/seasocks/win32/wepoll.c:1587-1589 | the exchange finds no reference left: the assert at 1588 |
| `Reflock.MeetKeeps` | src/main/c/seasocks/win32/wepoll.c:1544-1556 | the meeting of signal and wait on the keyed event keeps the invariant |
| `Reflock.ApplyKeeps` | src/main/c/seasocks/win32/wepoll.c:1540-1589 | every atomic step of every thread succeeds and keeps the invariant |
| `Reflock.NeverWrong` | src/main/c/seasocks/win32/wepoll.c:1558-1589 | for any number of threads below 2^28 and any interleaving: no assert fails and freed memory is not used |
| `Reflock.OverQuiet` | src/main/c/seasocks/win32/wepoll.c:606-618 | when reflock_unref_and_destroy has returned, no thread has a reference or is about to touch the lock |
| `Reflock.NeverAgain` | src/main/c/seasocks/win32/wepoll.c:1954-1966 | and in no continuation does one take a reference or touch it, since the node is in no tree |
| `Reflock.WaiterHasWaker` | src/main/c/seasocks/win32/wepoll.c:1584-1585 | while a destroyer waits some thread has a reference or is about to signal |
| `Reflock.SignalledOnce` | src/main/c/seasocks/win32/wepoll.c:1572-1573 | a signal always has its waiter; a destroyer that waited was signalled exactly once, one that did not wait never |
| `ReflockRuns.LookupOutcome` | src/main/c/seasocks/win32/wepoll.c:1954-1966 | in every run, whatever the other threads do: if the node was in the tree when a lookup began, the thread leaves the shared section with a reference that the word of the lock counts, on a node that is not freed; if it was not, with nothing |
| `ReflockRuns.CloseOutcome` | src/main/c/seasocks/win32/wepoll.c:1938-1951 | likewise of a close: if the node was in the tree, the thread leaves the exclusive section as the one owner, with a reference and the node out of the tree; if not, with nothing |
| `ReflockRuns.CreateOutcome` | src/main/c/seasocks/win32/wepoll.c:560-578 | the thread that creates the node has it in the tree when it leaves the exclusive section |
| `ReflockRuns.EndOutcome` | src/main/c/seasocks/win32/wepoll.c:1576-1589 | the owner stays in reflock_unref_and_destroy until it has destroyed the lock |
| `ReflockRuns.EndGoes` | src/main/c/seasocks/win32/wepoll.c:1576-1589 | on the way it waits exactly if another thread has a reference, and once none has, a thread is there to wake it |
| `ReflockRuns.EndReached` | src/main/c/seasocks/win32/wepoll.c:1576-1589 | so from every state in which no other thread has a reference, two steps at most lead to the end |
| `ReflockRuns.HolderGoes` | src/main/c/seasocks/win32/wepoll.c:1566-1574 | a thread that has a reference can always drop it |
| `ReflockRuns.InsideGoes` | src/main/c/seasocks/win32/wepoll.c:1938-1966 | inside the lock of the tree no thread ever waits, and at most three steps of its own take it out again |
| `ReflockRuns.ReadersTogether` | src/main/c/seasocks/win32/wepoll.c:1957 | a lookup may begin while another is under way |
| `Euclid.ComputeGcd` | src/main/c/seasocks/win32/win_getopt.h:162-175 | the loop computes the function below |
| `Euclid.GcdDivides` | src/main/c/seasocks/win32/win_getopt.h:162-175 | its result divides both operands |
| `Euclid.GcdGreatest` | src/main/c/seasocks/win32/win_getopt.h:162-175 | and no common divisor is greater |
| `BlockExchange.PermuteArgs` | src/main/c/seasocks/win32/win_getopt.h:182-210 | in place, for any two blocks that are not empty: A ++ B becomes B ++ A, with the order inside each block kept and nothing outside touched |
| `BlockExchange.TurnOfRank` | src/main/c/seasocks/win32/win_getopt.h:195-209 | every place of a cycle is visited: the cycles cover the range |
| `BlockExchange.RankOfTurn` | src/main/c/seasocks/win32/win_getopt.h:195-209 | no place is visited twice in a round: a cycle has just the length the code computes |
| `BlockExchange.NextTurn` | src/main/c/seasocks/win32/win_getopt.h:199-202 | the comparison of the loop gives the next place of the cycle |
| `BlockExchange.MoveSwaps` | src/main/c/seasocks/win32/win_getopt.h:203-207 | each turn swaps the visited place with the start of the cycle, which serves as the spare slot |
| `BlockExchange.OriginEnds` | src/main/c/seasocks/win32/win_getopt.h:195-209 | after a round every element of the cycle is where the exchange wants it |
| `BlockExchange.BlocksOf` | src/main/c/seasocks/win32/win_getopt.h:190-193 | as many cycles as the gcd, each of the length computed |
| `Getopt.ArgScanner.PermutePutOff` | src/main/c/seasocks/win32/win_getopt.h:497-503 | at its call in mid-scan and at the end, permute_args gets two blocks that are not empty, and moves the operands put off behind the options since |
| `Getopt.ArgScanner.Advance` | src/main/c/seasocks/win32/win_getopt.h:456-528 | the scan to the next option, with the bookkeeping of both indices, for all three modes; what was passed over and what is ahead are together what the elements say (`ReadAll`), and at the end they are all of it |
| `Getopt.ArgScanner.TakeLetter` | src/main/c/seasocks/win32/win_getopt.h:553-608 | one letter of a cluster, with or without its argument: what it gives back and what it passes over is what `ReadLetter` says, which `GetoptPrinted.PrintedRead` ties to what was written; it returns -1 from inside a cluster exactly at a final '-' that is no option |
| `Getopt.ArgScanner.TakeListed` | src/main/c/seasocks/win32/win_getopt.h:570-608 | a letter the option string lists: -W, without an argument, or with one, which is required or optional as the marks behind the letter say |
| `Getopt.ArgScanner.EndLetter` | src/main/c/seasocks/win32/win_getopt.h:587-589 | behind a letter without an argument comes the next letter or the next element |
| `Getopt.ArgScanner.TakeArgument` | src/main/c/seasocks/win32/win_getopt.h:590-606 | the argument of a letter: the rest of the cluster, or the next element unless the argument is optional, or none left |
| `Getopt.ArgScanner.Finish` | src/main/c/seasocks/win32/win_getopt.h:459-473 | the end of the scan leaves options and their arguments in order, then operands in order |
| `Getopt.ArgScanner.Next` | src/main/c/seasocks/win32/win_getopt.h:420-609 | every call gives back what the elements ahead say, keeps the layout of options and operands, and either ends or moves on to where the elements say the same without it; it gives -1 from inside a cluster under exactly the condition of `TakeOption` |
| `Getopt.ArgScanner.ScanAll` | src/main/c/seasocks/win32/win_getopt.h:420-609 | a whole scan ends; what its calls give back, the roles of the elements, and whether it is cut short are what `ReadAll` says of the elements; if it is not, it has looked at everything up to the first "--" that is an option, the vector is the stable partition by these roles, and optind is the first operand |
| `GetoptPrinted.PrintedRead` | src/main/c/seasocks/win32/win_getopt.h:420-609 | for any declared letters, each without, with a required or with an optional argument, and any long options: elements written in any permitted form ("-abc", "-ovalue", "-o" "value", "--name", "--name=value", "--name" "value", true abbreviations, operands, a final "--") are read as exactly those letters and options with exactly those values, in order, and wrong letters, wrong names, unwanted and missing arguments as what they are |
| `GetoptPrinted.TakeAll` | src/main/c/seasocks/win32/win_getopt.h:420-609 | so a caller that takes all options of such a vector gets just them, and the vector has all options with their values in front and all operands behind them, both in order, with optind at the first operand |
| `GetoptPrinted.Found` | src/main/c/seasocks/win32/win_getopt.h:553-606 | how the option string printed for the declarations answers the questions of the scan: a letter is in it exactly if it is declared, one mark behind it says that it takes an argument and a second that it need not |
| `GetoptPrinted.Writable` | src/main/c/seasocks/win32/win_getopt.h:590-606 | every declared letter can be written with every value it may have |
| `Getopt.ReadsComplete` | src/main/c/seasocks/win32/win_getopt.h:456-528 | a scan that is not cut short looks at all elements, or up to a "--" that is an option; one that is cut short leaves some |
| `Getopt.CutShortNeeds` | src/main/c/seasocks/win32/win_getopt.h:553-562 | a scan is cut short only without long options, with an option string without '-', at an element that starts and ends with one and has letters in between |
| `Getopt.CutShortWitness` | src/main/c/seasocks/win32/win_getopt.h:553-562 | the vector "p", "x", "-a-" with the option 'a' is such a case |
| `Getopt.ScanCutShort` | src/main/c/seasocks/win32/win_getopt.h:420-609 | a scan of that vector leaves the operand in front of the option, which is no partition of it |
| `LongOptions.ParseLongOptions` | src/main/c/seasocks/win32/win_getopt.h:295-414 | the one pass over the table finds what `Finds` says, with the argument behind an '=', or the next element for an option that must have one, or an argument that is not wanted |
| `LongOptions.FindsOne` | src/main/c/seasocks/win32/win_getopt.h:320-351 | there is only one such answer: the first name in full, or else the first abbreviation if all options abbreviated mean the same, or ambiguous, or unknown |
| `LongOptions.FullNames` | src/main/c/seasocks/win32/win_getopt.h:326-331 | a name in full is found whatever it abbreviates, with an argument behind '=' or without |
| `LongOptions.Abbreviations` | src/main/c/seasocks/win32/win_getopt.h:332-344 | a true abbreviation is found if and only if all options it abbreviates mean the same |
| `LongOptions.ScanLong` | src/main/c/seasocks/win32/win_getopt.h:612-632 | a whole scan with getopt_long or getopt_long_only is never cut short: it looks at everything up to the first "--" that is an option, and what it gives back and the stable partition it leaves are what the elements and the table say |
| `Getopt.LayoutExchanged` | src/main/c/seasocks/win32/win_getopt.h:497-503 | one exchange turns options, operands, options into options, operands |
| `Getopt.PickedAll` | src/main/c/seasocks/win32/win_getopt.h:182-210 | options and operands together are all elements, none lost or doubled |
| `Sha1.Sha1.constructor` | src/main/c/sha1/sha1.cpp:59-93 | an object as after Reset, with the initial words |
| `Sha1.Sha1.ProcessMessageBlock` | src/main/c/sha1/sha1.cpp:369-448 | the unrolled schedule and the four loops compute the compression of sections 5 to 7 of FIPS PUB 180-1 |
| `Sha1.Sha1.Input` | src/main/c/sha1/sha1.cpp:149-179 | for any piece of any size the object holds the digest state of everything fed so far; it gets corrupted exactly by bytes after Result, or at 2^61 bytes |
| `Sha1.Sha1.CountByte` | src/main/c/sha1/sha1.cpp:163-171 | the two 32-bit words are one count of bits, and overflow at 2^64 is noticed |
| `Sha1.Sha1.PadMessage` | src/main/c/sha1/sha1.cpp:471-508 | with one block more or two, the state becomes the digest of the message padded as section 4 says |
| `Sha1.OneBlock` | src/main/c/sha1/sha1.cpp:488-493 | the short branch of the padding is the one padding rule |
| `Sha1.TwoBlocks` | src/main/c/sha1/sha1.cpp:477-487 | and so is the long one |
| `Sha1.Sha1.Result` | src/main/c/sha1/sha1.cpp:112-129 | the digest of all that was fed, as often as it is asked for; nothing if corrupted |
| `Sha1.DigestOfPieces` | src/main/c/sha1/sha1.cpp:149-179 | any cut of a message below 2^61 bytes into pieces gives the digest of the whole |
| `HashBlocks.FoldConcat` | src/main/c/sha1/sha1.cpp:173-175 | whole blocks may be folded in at any boundary |
| `HashBlocks.PaddedLength` | src/main/c/sha1/sha1.cpp:471-508 | a padded message is a whole number of blocks, with at most one block more than it needs |
| `ByteNumbers.TwoWords` | src/main/c/sha1/sha1.cpp:498-505 | two words of a count give the eight bytes of the whole |
| `Md5Process.ConstantsOne` | src/main/c/md5/md5.cpp:92-107 | the masked constants T1 to T16 are those of section 3.4 of RFC 1321 |
| `Md5Process.RoundTwo` | src/main/c/md5/md5.cpp:252-276 | sixteen written-out operations with their word order, shifts and constants are round 2 of the standard |
| `Md5Process.RoundFour` | src/main/c/md5/md5.cpp:304-328 | and likewise round 4 |
| `Md5Process.FourSteps` | src/main/c/md5/md5.cpp:226-250 | four operations on the registers in turn bring each register back to its place |
| `Md5.Md5State.Process` | src/main/c/md5/md5.cpp:158-337 | md5_process is the block operation of the standard |
| `Md5.Md5State.Append` | src/main/c/md5/md5.cpp:351-385 | for any piece: partial block, full blocks and remainder give the state of everything appended, and the count is 8 times the bytes modulo 2^64 |
| `Md5.CountSum` | src/main/c/md5/md5.cpp:360-364 | the addition with its carry test is one addition modulo 2^64 |
| `Md5.PadLength` | src/main/c/md5/md5.cpp:399-400 | the pad length of the source is the mark and the zeros of the standard |
| `Md5.Md5State.Finish` | src/main/c/md5/md5.cpp:387-405 | the 16 bytes of the digest of the message padded as sections 3.1 and 3.2 say, in the order of section 3.5 |
| `Md5.Md5State.WriteOut` | src/main/c/md5/md5.cpp:403-404 | the loop writes the bytes of the four registers, each from its lowest |
| `Md5Spec.BytesRead` | src/main/c/md5/md5.cpp:403-404 | read as a word of a block is read, the four bytes of a register give it back |
| `Md5.DigestOfPieces` | src/main/c/md5/md5.cpp:351-405 | any cut of a message into pieces gives the 16 bytes of the digest of the whole |
| `HybiPacketDecoder.PacketDecoder.DecodeNextMessage` | src/main/c/HybiPacketDecoder.cpp:48-128 | on any bytes the outcome and the new position are those of the specified decoder |
| `HybiPacketDecoder.PacketDecoder.TakePayload` | src/main/c/HybiPacketDecoder.cpp:104-110 | the loop unmasks the payload |
| `HybiFrames.RoundTrip` | src/main/c/HybiPacketDecoder.cpp:48-128 | a frame encoded anywhere in a buffer, masked or not, with any of the three length forms, is decoded to its opcode and payload |
| `HybiFrames.ValueOfBig` | src/main/c/Connection.cpp:634-656 | a length written in 2 or 8 bytes is read back |
| `HybiFrames.UnmaskMasked` | src/main/c/HybiPacketDecoder.cpp:89-110 | unmasking with the word undoes masking with the key bytes |
| `HybiFrames.PastEndExactly` | src/main/c/HybiPacketDecoder.cpp:72-88 | on any bytes, exactly when the length checks, which look at the whole buffer, let the decoder read past its end; never for the first frame |
| `HybiFrames.Incomplete` | src/main/c/HybiPacketDecoder.cpp:72-102 | of a frame cut anywhere the decoder waits for the rest, except in exactly that case |
| `HybiInput.PastEndWitness` | src/main/c/HybiPacketDecoder.cpp:72-75 | an empty text followed by two bytes of a frame with length code 126: the second call of the decoder goes beyond the end of the buffer |
| `HybiPacketDecoder.DecodeAll` | src/main/c/HybiPacketDecoder.cpp:48-132 | any list of frames comes back in order, then there is no message, and numBytesDecoded is the whole length |
| `HybiInput.DecodeShifts` | src/main/c/HybiPacketDecoder.cpp:48-128 | the decoder finds the same frame wherever in the buffer it begins, except where it goes beyond the end |
| `HybiInput.DecodeMore` | src/main/c/HybiPacketDecoder.cpp:48-128 | a frame that is there in full is found as it was when more bytes follow |
| `HybiInput.ScanMore` | src/main/c/Connection.cpp:699-777 | more bytes only add to what a stream means |
| `HybiInput.FrameInput.HandleHybiWebSocket` | src/main/c/Connection.cpp:699-777 | on any buffer: what `Scan` says of it, every message up to the end of whole frames in order (`FramesExactly` says what comes of each), a close on a refused, compressed or closing frame or too long a rest, and a read beyond the buffer exactly if `Overruns` holds of what is left |
| `HybiInput.ReceiveAll` | src/main/c/Connection.cpp:699-777 | on any reads the connection does what `Reads` says |
| `HybiInput.CutsExactly` | src/main/c/Connection.cpp:699-777 | for any stream and any cut into reads: what comes of it is what the stream means if and only if no read leaves more than 16384 bytes or ends inside the long length of a later frame, or the first such read left too much when nothing more would have come of a stream that ends in a close |
| `HybiInput.AnyCut` | src/main/c/Connection.cpp:699-777 | the outcome of every cut of every stream: what the stream means; or, decided by the first read at fault, a decoder beyond its buffer or a connection closed with just the messages up to there |
| `HybiInput.StreamsExactly` | src/main/c/Connection.cpp:699-777 | exactly the streams that mean the same however they are cut: no part of them, come in at once, overruns the buffer or leaves too much with something still to come |
| `HybiInput.LongFrameMatters` | src/main/c/Connection.cpp:773-776 | any longer frame comes through in one cut into reads of at most 16384 bytes, with just what it gives, and closes the connection in another, with no overrun in either |
| `HybiInput.FramesExactly` | src/main/c/Connection.cpp:699-777 | the bytes of any frames of at most 16385 bytes, cut in any way, give for each text frame one text, its payload up to the first zero byte, for each binary frame its payload, for each ping one pong with the same payload, and nothing for a pong, in order with nothing left over; and a close frame, a fragment or a reserved bit behind them closes the connection; all this if and only if no read ends inside the long length of a frame behind another |
| `HybiInput.UnknownOpcode` | src/main/c/HybiPacketDecoder.cpp:112-116 | a frame with an opcode the standard does not know is no message |
| `HybiInput.CutMatters` | src/main/c/Connection.cpp:699-777 | four bytes that overrun the buffer in one read and not in two |
| `Connection.Connection.SendHybi` | src/main/c/Connection.cpp:615-656 | unless the connection closes, exactly one unmasked frame more is owed to the peer; if it does close, a prefix of it. It closes exactly if the buffer has no room for the frame or the send fails, and otherwise the buffer holds what the socket did not take |
| `Connection.SendAll` | src/main/c/Connection.cpp:615-656 | any list of messages: while the connection is open, the bytes sent and the buffer are their frames in order, which `DecodeAll` gives back; one that closes has sent a prefix; which it is follows from the answers of the socket and the limit (`RoomAfter`) |
| `Connection.RoomForAll` | src/main/c/Connection.cpp:335-368 | with room for all frames and no failing send it stays open |
| `Connection.WriteBehind` | src/main/c/Connection.cpp:335-368 | a write behind a buffered header closes the connection exactly if the limit is met or the send fails |
| `Connection.Connection.SafeSend` | src/main/c/Connection.cpp:311-333 | the bytes taken, 0 if it would block, -1 and a shutdown on an error, -1 and no change once shut down |
| `Connection.Connection.Write` | src/main/c/Connection.cpp:335-368 | direct send, buffering, limit and flush, as specified, with the conservation law kept |
| `Connection.Connection.Flush` | src/main/c/Connection.cpp:414-439 | sends, follows with the subscription, and ends a connection that is to close when empty; on one that was shut down nothing changes |
| `Connection.Connection.CloseWhenEmpty` | src/main/c/Connection.cpp:269-275 | closes now or later |
| `Connection.Connection.HandleDataReadyForWrite` | src/main/c/Connection.cpp:407-412 | a write event flushes an open connection |
| `OutputModel.WriteConserves` | src/main/c/Connection.cpp:335-368 | a write keeps: bytes sent then buffer are the bytes written, bytesSent is their number, and the buffer is below its limit |
| `OutputModel.FlushConserves` | src/main/c/Connection.cpp:414-439 | so does a flush, on any connection |
| `OutputModel.EveryRun` | src/main/c/Connection.cpp:311-439 | in every run: sent bytes followed by the buffer are all that was written while open and not closing; a shutdown for being empty has sent all of it |
| `OutputModel.FixedAfter` | src/main/c/Connection.cpp:311-439 | after a shutdown the sent bytes are a fixed prefix of what was written |
| `OutputModel.NoStall` | src/main/c/Connection.cpp:423-433 | if no change of the subscription fails, after every flush an open connection asks for write events exactly when its buffer is not empty |
| `OutputModel.DrainExactly` | src/main/c/Connection.cpp:423-437 | a flush that empties the buffer ends a closing connection exactly if no unsubscription was due or it succeeds; otherwise no later flush ends it |
| `OutputModel.ClosesWhenEmpty` | src/main/c/Connection.cpp:269-275 | in every run in which no change of the subscription fails: a closeWhenEmpty ends an open connection at once if its buffer is empty; otherwise nothing more is taken on, and the connection is open only while it has something to send |
| `OutputModel.DrainCloses` | src/main/c/Connection.cpp:407-439 | and the first flush that can send all of it does so and ends the connection, and the peer has got all that was written before |
| `OutputModel.FlushSends` | src/main/c/Connection.cpp:414-421 | a flush sends as much of the buffer as the socket has room for |
| `OutputModel.WriteSends` | src/main/c/Connection.cpp:335-350 | a write that flushes, with nothing in front of it, sends everything at once if there is room |
| `ResponseWriter.Writer.Begin` | src/main/c/Connection.cpp:1002-1014 | only in its state: status line, common headers, and the encoding header if chunked |
| `ResponseWriter.Writer.Header` | src/main/c/Connection.cpp:1016-1023 | only while headers are sent: one line |
| `ResponseWriter.Writer.Payload` | src/main/c/Connection.cpp:1024-1038 | the blank line once, then the data, in a chunk of its own if chunked and not empty |
| `ResponseWriter.Writer.WriteChunkHeader` | src/main/c/Connection.cpp:1039-1047 | the end of the chunk before, the size, and the 32-bit counter |
| `ResponseWriter.Writer.Finish` | src/main/c/Connection.cpp:1049-1070 | ends header or body, and leaves the writer ready for the next request |
| `ResponseWriter.Serve` | src/main/c/Connection.cpp:972-1070 | for any calls in any order, what is written is the finished responses, one after the other, and what there is of the current one |
| `ResponseWriter.ResponseParses` | src/main/c/Connection.cpp:1002-1070 | each response is one header block and one body; a chunked body decodes to its payloads joined exactly if they are fewer than 2^32 chunks |
| `ResponseWriter.AllParse` | src/main/c/Connection.cpp:1002-1070 | all responses of a connection, one after the other, are read back with their heads and bodies and nothing left over, if and only if no chunked one has 2^32 chunks or more |
| `ResponseWriter.HeadsStayClean` | src/main/c/Connection.cpp:1016-1023 | header text without line ends gives header blocks without line ends |
| `ServedReplies.RepliesRead` | src/main/c/Connection.cpp:972-1070 | for any replies, made with the calls of the writer in their order: the peer reads exactly the lines of the head (common lines, "Transfer-encoding: chunked" if chunked, one "name: value" for each header call) and the payloads joined, reply by reply, up to the first that does not keep the connection open, with nothing behind it, if and only if none of them that is chunked has 2^32 chunks or more |
| `ServedReplies.ReplyMade` | src/main/c/Connection.cpp:972-1070 | from any state without a response, the calls of one reply make just that response, and close the connection for what follows exactly as `finish` was told |
| `ChunkedCoding.BodyDecodes` | src/main/c/Connection.cpp:1039-1061 | under the grammar of section 7.1 of RFC 9112 a body decodes to all payloads, empty or not, exactly if the counter does not come round |
| `ChunkedCoding.HexRoundTrip` | src/main/c/Connection.cpp:1043 | a size in hexadecimal is read back, whatever follows |
| `Hixie.HixieInput.HandleHixieWebSocket` | src/main/c/Connection.cpp:663-697 | delivers the messages of the buffer up to the first malformed frame, keeps only the unfinished frame, closes on a malformed frame or too long a rest |
| `Hixie.ScanMore` | src/main/c/Connection.cpp:663-697 | more bytes only add to what a stream means |
| `Hixie.ShortTails` | src/main/c/Connection.cpp:693-696 | a stream leaves no read with more than 16384 bytes if its whole frames have at most 16385 bytes with their marks and the unfinished one at most 16384 |
| `Hixie.ReceiveAll` | src/main/c/Connection.cpp:663-697 | on any reads the connection does what `Reads` says |
| `Hixie.ReadsScan` | src/main/c/Connection.cpp:663-697 | for any stream and any cut into reads: an open connection has handed on all messages so far and keeps the unfinished frame; a closed one has handed on the first of them, and misses none unless some read left too much |
| `Hixie.LongTail` | src/main/c/Connection.cpp:693-696 | a longer frame is too long for a read that ends right before its end mark |
| `Hixie.LongFrameCloses` | src/main/c/Connection.cpp:693-696 | read byte by byte, a stream with a longer frame closes the connection too early |
| `Hixie.CutsExactly` | src/main/c/Connection.cpp:663-697 | a stream means the same however it is cut into reads (the same messages in order, the same rest, closed just for a malformed frame) if and only if up to the first malformed frame whole ones have at most 16385 bytes and the unfinished one at most 16384 |
| `Hixie.TextsExactly` | src/main/c/Connection.cpp:663-697 | for any texts sent without a byte 0xff, each between 0x00 and 0xff, and what follows the last of them: however the bytes are cut into reads, exactly these texts are handed on, each up to its first zero byte, and a frame that is begun is kept, or the connection closed if none is, if and only if no frame has more than 16385 bytes with its marks and one that is begun no more than 16384 |
| `StringUtil.SplitText` | src/main/c/StringUtil.cpp:106-120 | the loop computes the pieces |
| `StringUtil.JoinPieces` | src/main/c/StringUtil.cpp:106-120 | joining undoes splitting, and no piece holds the separator |
| `StringUtil.SplitJoin` | src/main/c/StringUtil.cpp:106-120 | splitting undoes joining of pieces without the separator, except exactly for one empty piece |
| `StringUtil.ReplaceText` | src/main/c/StringUtil.cpp:122-134 | one pass from left to right, which ends even if the replacement holds what is looked for |
| `CrackedUri.Unescape` | src/main/c/util/CrackedUri.cpp:47-66 | rewriting in place decodes each escape once, and fails as the specified decoder does |
| `CrackedUri.EscapesDecode` | src/main/c/util/CrackedUri.cpp:47-66 | any way of escaping a text is decoded to the text |
| `CrackedUri.Crack` | src/main/c/util/CrackedUri.cpp:72-104 | the constructor, with an error result for each exception |
| `CrackedUri.RoundTrip` | src/main/c/util/CrackedUri.cpp:72-104 | segments and parameters printed with any escapes are read back, segments in order, parameters as a multiset, if and only if the segments are not a single empty one |
| `CrackedUri.Printable` | src/main/c/util/CrackedUri.cpp:72-104 | any text can be escaped and any parameter printed, so the round trip is for all lists |
| `CrackedUri.Refused` | src/main/c/util/CrackedUri.cpp:73-75 | a URI is refused for its form exactly if it does not start with a slash |
| `CrackedUri.RefusedParameter` | src/main/c/util/CrackedUri.cpp:94-102 | and a parameter exactly if it has more than one '=' |
| `CrackedUri.ShiftedPath` | src/main/c/util/CrackedUri.cpp:123-132 | after n shifts the first n segments are gone; then the path is one empty segment for ever |
| `CrackedUri.ShiftedNotEmpty` | src/main/c/util/CrackedUri.cpp:123-132 | a path that was shifted is never empty |
| `CrackedUri.NoSegments` | src/main/c/util/CrackedUri.cpp:82-87 | one that was not shifted is empty exactly if nothing stands between the first slash and the query |
| `WepollTree.Tree.Descend` | src/main/c/seasocks/win32/wepoll.c:2043-2056 | the search loop of tree_add: the key, or the empty place and the side of its parent |
| `WepollTree.Tree.Hang` | src/main/c/seasocks/win32/wepoll.c:2013-2019 | the new node is linked in as a red leaf at that place |
| `WepollTree.Tree.RebalanceAfterInsert` | src/main/c/seasocks/win32/wepoll.c:2021-2038 | one turn with a black uncle: one or two rotations and the colours |
| `WepollTree.Tree.RecolourAt` | src/main/c/seasocks/win32/wepoll.c:2025-2028 | one turn with a red uncle |
| `WepollTree.Tree.FindNext` | src/main/c/seasocks/win32/wepoll.c:2115-2119 | the successor is the leftmost node on the right |
| `WepollTree.Tree.BypassAt` | src/main/c/seasocks/win32/wepoll.c:2111-2128 | a node with at most one child gives its place to it |
| `WepollTree.Tree.SpliceAt` | src/main/c/seasocks/win32/wepoll.c:2121-2146 | a node with two children gives its place, its children and its colour to its successor, near or far |
| `WepollTree.Tree.UncoverAt` | src/main/c/seasocks/win32/wepoll.c:2078-2083 | a red sibling is rotated out of the way |
| `WepollTree.Tree.BorrowAt` | src/main/c/seasocks/win32/wepoll.c:2084-2097 | a sibling with a red child makes up for the missing black node |
| `WepollTree.Tree.RebalanceAfterRemove` | src/main/c/seasocks/win32/wepoll.c:2075-2098 | one rebalancing turn, for either side, in any tree; it fails exactly if the sibling is missing, at first or once a red one is rotated away |
| `WepollTree.Tree.FinishRemove` | src/main/c/seasocks/win32/wepoll.c:2154-2176 | what follows the unlinking, by the colours, in any tree; it fails exactly as the loop does |
| `IntrusiveQueue.QueueNode.constructor` | src/main/c/seasocks/win32/wepoll.c:1469-1472 | a new node is linked to itself |
| `WepollPort.EpollPort.constructor` | src/main/c/seasocks/win32/wepoll.c:1102-1110 | a new port has no sockets, no groups and empty queues |
| `WepollPort.EpollPort.PortNew` | src/main/c/seasocks/win32/wepoll.c:1090-1119 | no port without memory or a completion port, and a new one otherwise |
| `WepollPort.EpollPort.Listen` | src/main/c/seasocks/win32/wepoll.c:1323-1353 | what an addition and a change end with: the events are set, and looked at if a thread is polling |
| `WepollPort.EpollPort.RequestSocketUpdate` | src/main/c/seasocks/win32/wepoll.c:1416-1422 | joins the update queue unless in a queue already |
| `WepollPort.EpollPort.DequeueSocket` | src/main/c/seasocks/win32/wepoll.c:1424-1446 | leaves whichever queue it is in |
| `WepollPort.EpollPort.AddDeletedSocket` | src/main/c/seasocks/win32/wepoll.c:1432-1438 | joins the deleted queue unless in a queue already |
| `WepollPort.EpollPort.SockCancelPoll` | src/main/c/seasocks/win32/wepoll.c:1627-1637 | a cancel request that succeeds marks the poll, one that fails changes nothing |
| `WepollPort.EpollPort.SockRetire` | src/main/c/seasocks/win32/wepoll.c:1683-1691 | cancel, dequeue, unregister and mark, once |
| `WepollPort.EpollPort.SockFree` | src/main/c/seasocks/win32/wepoll.c:1696-1700 | dequeue, give back the slot, end of life |
| `WepollPort.EpollPort.SockNotify` | src/main/c/seasocks/win32/wepoll.c:1873-1890 | asks for a new poll, reports what the user wants, and disarms a one-shot socket |
| `WepollPort.EpollPort.ForceDelete` | src/main/c/seasocks/win32/wepoll.c:1713-1715 | exactly that object is live no more |
| `Reflock.AddKeeps` | src/main/c/seasocks/win32/wepoll.c:1919-1927 | entering the tree keeps the invariant |
| `Reflock.RemoveKeeps` | src/main/c/seasocks/win32/wepoll.c:1938-1947 | leaving it under the exclusive lock does, too: from then on nobody else can find the node |
| `Reflock.FreeKeeps` | src/main/c/seasocks/win32/wepoll.c:613 | so does freeing the port |
| `BlockExchange.OneCycle` | src/main/c/seasocks/win32/win_getopt.h:196-208 | the inner loop moves one cycle by one place |
| `BlockExchange.AllMoved` | src/main/c/seasocks/win32/win_getopt.h:182-210 | with all cycles moved the blocks are exchanged |
| `Getopt.ArgScanner.constructor` | src/main/c/seasocks/win32/win_getopt.h:433-455 | the scan after a reset, with the mode chosen by the option string and the environment |
| `Getopt.ArgScanner.PassOperand` | src/main/c/seasocks/win32/win_getopt.h:494-507 | an operand is put off, with an exchange first if options came since the last |
| `Getopt.ArgScanner.EndOperands` | src/main/c/seasocks/win32/win_getopt.h:508-509 | an option ends the operands before it |
| `Getopt.ArgScanner.EnterOption` | src/main/c/seasocks/win32/win_getopt.h:508-528 | an option is entered with nothing passed over, or "--" ends the scan with the partition, itself the last element passed over |
| `Getopt.ArgScanner.TakeOption` | src/main/c/seasocks/win32/win_getopt.h:536-608 | a long option if it matches, else one letter, as the elements and the table say; it gives -1 from inside a cluster if and only if there are no long options, the cluster is down to a final '-', and that is no option |
| `Getopt.ArgScanner.TakeLong` | src/main/c/seasocks/win32/win_getopt.h:536-551 | an element taken for a long option: which one, with its argument, or what is wrong with it |
| `Getopt.ArgScanner.TellLong` | src/main/c/seasocks/win32/win_getopt.h:363-400 | the argument of a long option that must have one is the next element, or lacking if there is none |
| `Getopt.ArgScanner.TakeLongW` | src/main/c/seasocks/win32/win_getopt.h:570-586 | -W, with its argument attached or not |
| `Sha1.Sha1.Reset` | src/main/c/sha1/sha1.cpp:79-93 | the initial words and an empty message |
| `Sha1.Sha1.Schedule` | src/main/c/sha1/sha1.cpp:380-392 | the 80 words of section 7, steps a and b |
| `Sha1.Sha1.RoundFunction` | src/main/c/sha1/sha1.cpp:400-439 | the function and the constant of each loop are those of sections 5 and 6 |
| `Sha1.Sha1.OneRound` | src/main/c/sha1/sha1.cpp:401-407 | one round is step d of section 7 |
| `Sha1.Sha1.InputByte` | src/main/c/sha1/sha1.cpp:160-175 | one byte: stored, counted, and the block processed when full |
| `Sha1.Sha1.PutLength` | src/main/c/sha1/sha1.cpp:498-505 | the last eight bytes are the length in bits |
| `Md5Process.ConstantsTwo` | src/main/c/md5/md5.cpp:108-123 | T17 to T32 |
| `Md5Process.ConstantsThree` | src/main/c/md5/md5.cpp:124-139 | T33 to T48 |
| `Md5Process.ConstantsFour` | src/main/c/md5/md5.cpp:140-155 | T49 to T64 |
| `Md5Process.RoundOne` | src/main/c/md5/md5.cpp:226-250 | the written-out operations are round 1 |
| `Md5Process.RoundThree` | src/main/c/md5/md5.cpp:278-302 | and round 3 |
| `Md5.Md5State.constructor` | src/main/c/md5/md5.cpp:343-349 | the initial words and an empty message |
| `Md5.Md5State.Count` | src/main/c/md5/md5.cpp:360-364 | the two words grow by the bits of the piece, modulo 2^64 |
| `Md5.Md5State.AppendBytes` | src/main/c/md5/md5.cpp:366-384 | the three cases of a piece: it stays in the buffer, it fills it, there was nothing in it |
| `Md5.Md5State.FullBlocks` | src/main/c/md5/md5.cpp:378-384 | the loop over full blocks and the rest behind them |
| `HybiPacketDecoder.PacketDecoder.TakeRest` | src/main/c/HybiPacketDecoder.cpp:89-128 | mask, size check, payload and opcode |
| `Connection.Connection.UpdateSubscription` | src/main/c/Connection.cpp:423-433 | asks for write events or takes that back, or fails |
| `Connection.Connection.BufferLength` | src/main/c/Connection.cpp:634-655 | the three forms of the length, or a prefix of it if the connection closes |
| `OutputModel.WriteTidies` | src/main/c/Connection.cpp:335-368 | a write that flushes leaves write events asked for exactly when needed |
| `ResponseWriter.Writer.Respond` | src/main/c/Connection.cpp:972-983 | while no response is under way, a new request waits for its response, with no chunk written |
| `ResponseWriter.Writer.EndHead` | src/main/c/Connection.cpp:1026-1028 | the blank line |
| `ResponseWriter.HeadParses` | src/main/c/Connection.cpp:1293-1302 | header lines and a blank line are read back as those lines |
| `ChunkedCoding.ComesRound` | src/main/c/Connection.cpp:1041-1045 | when the counter has come round to 0 the chunk before is not ended |
| `Hixie.HixieInput.CutFrame` | src/main/c/Connection.cpp:668-688 | one turn of the loop: a malformed start, no end yet, or one message |
| `Hixie.HixieInput.Deliver` | src/main/c/Connection.cpp:682-685 | the end mark is overwritten and the text up to its first zero byte is handed on |
| `Hixie.HixieInput.Receive` | src/main/c/Connection.cpp:382-405 | a closed connection reads no more |
| `StringUtil.PiecesJoin` | src/main/c/StringUtil.cpp:106-120 | a list of pieces without the separator comes back from its joined text |
| `CrackedUri.UnescapeAll` | src/main/c/util/CrackedUri.cpp:87 | every piece in order, up to the first error |
| `CrackedUri.TakeParameter` | src/main/c/util/CrackedUri.cpp:94-102 | one parameter, with its value or without |
| `CrackedUri.TakeParameters` | src/main/c/util/CrackedUri.cpp:89-103 | empty pieces are skipped, the others go into a multiset |
| `CrackedUri.EscapesHide` | src/main/c/util/CrackedUri.cpp:72-104 | an escaped text shows no separator |

## Left out

- Connection.Connection.Write: for writes below 2^31 bytes, since the code compares the size as an int.
- HybiInput.FrameInput.HandleHybiWebSocket: a connection that agreed on compression, what a handler does in its callback, and a pong whose sending closes the connection are not modelled; after such a pong the code goes on decoding the buffer it has.
- HybiPacketDecoder.PacketDecoder.DecodeNextMessage: for buffers below 2^32 bytes, since the loop over the payload counts in 32 bits; what happens after a read past the end is not modelled.
- Md5.Md5State.Append: a piece whose length added to the bytes already buffered exceeds what int holds is outside, as that sum overflows in the code.
- Md5.Md5State.Count: the shift of the length of a piece by 3 (md5.cpp:354) is taken modulo 2^32, which from 2^28 bytes on C leaves open for an int.
- Getopt.ArgScanner.Next: messages to the user and the environment variable are not modelled; the index of a long option stands for what the code returns or stores through its flag; the vector holds at least the program name.
- GetoptPrinted.PrintedRead: for getopt and getopt_long; with getopt_long_only a cluster of letters can be a long option, and -W can name one only if ';' is behind the W in the option string. `Getopt.ArgScanner.Next` covers both.
- WepollPort.EpollPort.CtlAdd: the socket tree is a map and the queues are sequences there; the tree and the queue are proved separately, and `PortTree.TreeHolds` says that the map is what the tree holds as long as no tree_del is stuck. Whether a socket has a base socket is a parameter; the codes of failed system calls are not modelled.
- WepollPort.EpollPort.FeedEvents: the packets are parameters; waiting for them and the time-outs of port_wait are not modelled.
- PortRuns.EveryRun: one step is one section under the lock of the port; the runs take tree_del for the removal of a key, which it is exactly until one is stuck (`PortTree.NextStuck`).
- Reflock.WaiterHasWaker: that a thread which can signal is scheduled some day is left to the system.
- Reflock.NeverWrong: one node from its creation to its end; that a handle value may be used again for another node does not matter to it.
- ResponseWriter.Writer.Respond: takes effect only while no response is under way; the code asserts that there is none and reads no request in between.
- ResponseWriter.AllParse: the size of a body that is not chunked is taken as known to the peer, which learns it from the head or from the close.
- ResponseWriter.Writer.Begin: the texts of the status line and of the common headers are a parameter.
- ResponseWriter.Serve: `written` is what an open connection takes on; a connection closed by an error or by its buffer limit takes on no more, which the output model covers. The error call is not modelled.
- ChunkedCoding.BodyDecodes: the reference grammar has no chunk extensions and no trailers, which the server never writes.
- Hixie.ReceiveAll: what a handler does in its callback is not modelled.
- Md5.Md5State.Process: the choice of byte order for the machine at hand; words are read low byte first.
- CrackedUri.Crack: an exception is an error result, without its message.
- zlib and permessage-deflate: frames are neither compressed nor expanded.
- The event loop, accepting connections, socket options and queued tasks of Server.cpp: system calls, with easy invariants.
- HTTP request parsing, static files, embedded content, byte ranges, MIME types and error pages: string and file handling.
- The Hixie handshake, protocol choice, credentials, logging, the status page, and the HTML and JSON builders.
- Base64 and header case folding: they would add easy members only.
