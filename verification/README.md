# INET core algorithms, verified

This project models the independent cores of the INET simulation framework and proves what each of them is
for. `dafny verify dfyconfig.toml` checks all of it. Where a proof begins with `hide`, it does not need the
definitions named there, and is quicker without them.

Objects that the framework changes in place are classes here, with methods proved against functions on values;
the properties of those values are lemmas.

**Interval tree** (`Interval*.dfy`). An augmented red-black tree with parent pointers and two sentinels.
`IntervalTree` holds the linked nodes; its ghost state is the sequence of nodes in key order and a value `t`
that records every link by position. The pure files treat one subject each: shapes and rotations
(`IntervalCells`), colours and max_high under rotation with both mirror images argued once
(`IntervalColours`), adding and cutting out positions (`IntervalGraft`, `IntervalEdits`), the steps of the two
fixups (`IntervalInsert`, `IntervalDelete`), the overlap query (`IntervalQuery`) and the balance that the
colours give (`IntervalHeight`). Assignments to links go through one-field setters that carry the same change
to the value. Times are whole numbers; `MAX_TIME` is the greatest representable simulation time. When a query
starts exactly at the time stored in `nil`, the search descends into `nil` and then skips a right branch;
`Sighted` is the exact condition under which no interval is lost, and `CanBeBlind` is a tree of two intervals
for which it does not hold.

**Shortest paths** (`ShortestPaths.dfy`, `FewestHops.dfy`, `Topology.dfy`). Weights are real numbers or
infinite. Nodes are numbered in the theory and objects in `Topology`; a ghost graph argument states what the
nodes and links form. A path must use enabled links and, except for the target, enabled nodes; its cost is the
sum of link weights and of the weights of the nodes between its ends.

The second half of `Topology.dfy` treats the edits: every link stands once in the lists of its two ends, and
the nodes are ordered by module id compared without sign. `Lists.dfy` has the facts about lists without
repetition that these and the interval tree need.

**DHCP** (`Dhcp.dfy`, `DhcpServer.dfy`, `DhcpClient.dfy`, `DhcpReplies.dfy`, `DhcpAnswers.dfy`,
`DhcpProtocol.dfy`, `DhcpRenewal.dfy`, `DhcpLeaseLost.dfy`). The single steps of server and client, which
reply each message gets (`DhcpReplies`) and what each message and timer makes of a client (`DhcpAnswers`),
field by field, the classes that perform them, and runs of one server with any number of clients on a network
that loses, repeats, reorders and broadcasts. Assumptions: client MACs are distinct, transaction ids are drawn
fresh, the server does not restart, and timers due at the same time expire in the order in which they were
set. A client may be stopped and started again with the lease it remembers; its interface then has no address.
`TimesInOrder` shows that only lease times below 3 s need the assumption about equal times. A request that is
not answered in time takes the lease timer from the client but not the address (`CoverLostIff`), so an address
can outlive its lease; `CoveredExcept` says in which states. `DhcpRenewal` shows that what a waiting client
sent last is on the network and, served and answered, ends in a lease.

**State machine engine** (`StateTree.dfy`, `Macho.dfy`). States are numbered so that a state comes after its
superstate, 0 being Root. Init actions choose any proper substate or none. `trace` records entry and exit
actions; replaying it as a stack machine gives the active states.

**128-bit integer** (`Bits.dfy`, `Words.dfy`, `LongDivision.dfy`, `Int128.dfy`, `Int128Text.dfy`,
`Int128Radix.dfy`). Two words with explicit wrap-around; bitwise operators are defined digit by digit and then
computed. Signed overflow is taken to wrap around. The unsigned bit counter of the division is modelled with
its wrap-around. When a number is read, the letter one behind the last digit of the radix passes the test for
digits (`DigitTable`), so that "1a" is 20 (`LetterInDecimal`).

**Glob matcher** (`Patterns.dfy`, `PatternFill.dfy`, `PatternSyntax.dfy`, `PatternEscape.dfy`,
`PatternText.dfy`, `PatternMeaning.dfy`, `PatternMatcher.dfy`). The declarative meaning of a tokenised
pattern, the tokeniser and the backtracking matcher with its shortcuts. The documentation says that a
backslash takes away the special meaning of the next character; for a "[" that opens a number range the code
does not do that (`BackslashBracket`). `EscapeWorksIff` says for which texts escaping the special characters
works; a backslash before every character always does (`QuotedIsEquality`). When case is ignored, the shortcut
for a final "**" and literal still compares case (`TailShortcutMisses`); `Answer` is what the matcher says,
and `AlwaysRightIff` when that is right; `PatternFill.dfy` decides whether a pattern accepts anything.
`PatternText.dfy` writes parts as text, with the side conditions under which a text stands for its parts
(`Proper`), and takes it to pieces again; `PatternMeaning.dfy` says what each kind of wildcard accepts.

**Bit streams and the DHCP codec** (`BitStreams.dfy`, `MemoryOutputStream.dfy`, `MemoryInputStream.dfy`,
`StreamRuns.dfy`, `DhcpCodec.dfy`, `DhcpRoundTrip.dfy`, `DhcpWire.dfy`, `DhcpSerializer.dfy`,
`DhcpParser.dfy`, `DhcpUnended.dfy`). A byte vector stands for a bit sequence; the output stream's ghost state
is what was asked to be written, and `Valid` says that the bytes represent it. `StreamRuns` writes any
sequence of typed values to one stream and reads it from another. The two shift amounts of an unaligned byte
write are interchanged in the source, which is right at offset 4 and for the byte zero only. The codec is
given as bytes: `Encode` of a message, `Decode` of any bytes, and what keeps the two from undoing each other;
`DhcpWire` gives both in plain numbers. MAC addresses are six bytes, option times whole seconds, and
assertions of the parser are taken to stop it. `DhcpUnended` tells which bytes make the parser fail an
assertion, run over a string field, or not come to an end.

**Message dispatchers** (`DispatcherTree.dfy`, `MessageDispatcher.dfy`). Gates with the same index form a
pair, and pairs of gates connect the dispatchers to a tree, numbered from a root outwards; every connected
network without cycles can be numbered so (`DispatcherNumbering.dfy`). Modules at the other gates are
endpoints. A refused registration is the error that the source raises.

## Model

| member | source | states |
|---|---|---|
| IntervalTree.IntervalTree.constructor | inet4/src/inet/common/IntervalTree.cc:58-77 | a new tree is valid: two sentinels, nothing stored, no search under way |
| IntervalTree.IntervalTree.Insert | inet4/src/inet/common/IntervalTree.cc:196-257 | one node holding the interval is added at one place of the key order and nothing else changes; the tree stays a search tree with exact max_high, black root, no red node with a red child and equal black heights |
| IntervalTree.IntervalTree.RecursiveInsert | inet4/src/inet/common/IntervalTree.cc:164-185 | the new leaf is hung at the gap after the last key that is not above its own; all other links stay |
| IntervalTree.IntervalTree.LeftRotate | inet4/src/inet/common/IntervalTree.cc:116-138 | the links after the rotation are those of the rotated tree, with max_high of both nodes recomputed; no other node is touched |
| IntervalTree.IntervalTree.RightRotate | inet4/src/inet/common/IntervalTree.cc:140-162 | the mirror image of leftRotate |
| IntervalTree.IntervalTree.FixupMaxHigh | inet4/src/inet/common/IntervalTree.cc:187-194 | max_high is exact everywhere again when it was exact at all nodes that do not contain the starting point |
| IntervalTree.IntervalTree.InsertFixup | inet4/src/inet/common/IntervalTree.cc:207-256 | from a red node that may have a red parent, the loop ends with a proper colouring and a black root |
| IntervalTree.IntervalTree.DeleteFixup | inet4/src/inet/common/IntervalTree.cc:346-417 | from a subtree short of one black node, the loop ends with a proper colouring although root_left_node is remembered across rotations |
| IntervalTree.IntervalTree.DeleteNode | inet4/src/inet/common/IntervalTree.cc:444-501 | exactly the given node is taken out, its interval is returned, and the tree stays valid |
| IntervalTree.IntervalTree.DeleteInterval | inet4/src/inet/common/IntervalTree.cc:419-424 | one node holding the interval object is deleted if there is one, otherwise nothing changes |
| IntervalTree.IntervalTree.RecursiveSearch | inet4/src/inet/common/IntervalTree.cc:426-442 | finds a node holding the interval exactly when one lies below the starting node |
| IntervalTree.IntervalTree.GetSuccessor | inet4/src/inet/common/IntervalTree.cc:273-289 | the next node in key order; for the last one it is root |
| IntervalTree.IntervalTree.GetPredecessor | inet4/src/inet/common/IntervalTree.cc:291-307 | the previous node in key order; for the first one it is nil |
| IntervalTree.IntervalTree.Query | inet4/src/inet/common/IntervalTree.cc:516-563 | every interval found is stored and overlaps, each node is found once, the recursion stack is empty again and the tree unchanged; the result is complete if and only if the start of the query is above the time of nil or no node is blind to it |
| IntervalQuery.OverlapMeaning | inet4/src/inet/common/IntervalTree.cc:504-514 | two closed intervals overlap exactly when they share a point |
| IntervalQuery.CanBeBlind | inet4/src/inet/common/IntervalTree.cc:531-560 | a properly coloured tree of two intervals and a query that overlaps both but finds one |
| IntervalQuery.SearchMissesNoneIff | inet4/src/inet/common/IntervalTree.cc:516-563 | of any intervals, also ones that end before they start, the search misses no overlapping one that reaches the start of the query if and only if no node is blind to it |
| IntervalQuery.MaxHighExact | inet4/src/inet/common/IntervalTree.cc:119-137 | max_high is the greatest high in the subtree: an upper bound that one node attains |
| IntervalQuery.SearchSound | inet4/src/inet/common/IntervalTree.cc:516-563 | the search finds only nodes below its start that overlap, each once |
| IntervalQuery.SearchComplete | inet4/src/inet/common/IntervalTree.cc:516-563 | nothing is lost by trying right branches only after a hit on the left |
| IntervalQuery.SearchMisses | inet4/src/inet/common/IntervalTree.cc:516-563 | a query starting at the time of nil misses the right neighbour of a node without left child |
| IntervalQuery.SearchExactIff | inet4/src/inet/common/IntervalTree.cc:516-563 | with intervals that do not end before they start the search is right for every stored interval if and only if no node is blind to the query |
| IntervalHeight.Balanced | inet4/src/inet/common/IntervalTree.cc:196-257 | a tree of height h holds at least 2^ceil(h/2) - 1 nodes |
| IntervalColours.LackingRedSibling | inet4/src/inet/common/IntervalTree.cc:353-361 | deletion, red sibling: after recolouring and rotation the short side has a black sibling |
| IntervalColours.LackingPassUp | inet4/src/inet/common/IntervalTree.cc:362-366 | deletion, black sibling with black children: the parent is short in turn |
| IntervalColours.LackingNearRed | inet4/src/inet/common/IntervalTree.cc:369-375 | deletion, black sibling with only the near child red: the far child of the new sibling is red |
| IntervalColours.LackingFarRed | inet4/src/inet/common/IntervalTree.cc:376-380 | deletion, black sibling with red far child: the colouring is proper again |
| IntervalColours.InsertFlip | inet4/src/inet/common/IntervalTree.cc:211-218 | insertion, red uncle: the conflict moves up to the grandparent |
| IntervalColours.InsertOuter | inet4/src/inet/common/IntervalTree.cc:226-230 | insertion, black uncle: recolouring and rotation remove the conflict |
| Topology.Topology.CalculateWeightedSingleShortestPathsTo | inet4/src/inet/common/Topology.cc:418-475 | final dist is the least cost over all enabled paths and infinite exactly when none has a finite cost; the outPath links and the order of removal from the queue certify it; a missing target is refused without effect |
| Topology.Topology.CalculateUnweightedSingleShortestPathsTo | inet4/src/inet/common/Topology.cc:378-416 | final dist is the fewest links on an enabled path, and infinite exactly when there is no such path |
| Topology.Topology.RelaxLink | inet4/src/inet/common/Topology.cc:444-473 | one link into the node just removed: its source gets a better label and its place in the sorted queue, or nothing changes because nothing improves |
| Topology.Topology.WhereQueued | inet4/src/inet/common/Topology.cc:460-461 | a node with a finite label that has not been removed yet is in the queue, once |
| ShortestPaths.FinalIsShortest | inet4/src/inet/common/Topology.cc:418-475 | final labels are the least costs, attained by the path of next hops |
| ShortestPaths.FollowCosts | inet4/src/inet/common/Topology.cc:462-463 | following outPath reaches the target at a total cost equal to dist |
| ShortestPaths.Earlier | inet4/src/inet/common/Topology.cc:462-463 | each next hop leads to a node with smaller dist that was removed from the queue earlier |
| ShortestPaths.LowerBound | inet4/src/inet/common/Topology.cc:456-459 | no path costs less than a label that no link can improve |
| ShortestPaths.ShortestUnique | inet4/src/inet/common/Topology.cc:418-475 | least costs are unique, and infinite exactly when no path has a finite cost |
| ShortestPaths.Improve | inet4/src/inet/common/Topology.cc:459-473 | after improving a label the queue is sorted and free of duplicates, and links relaxed before stay relaxed |
| ShortestPaths.NotExpanded | inet4/src/inet/common/Topology.cc:459-461 | a label that can still be improved belongs to a node not removed from the queue yet |
| ShortestPaths.Pop | inet4/src/inet/common/Topology.cc:436-438 | a node is removed from the queue at most once |
| FewestHops.UnitShortest | inet4/src/inet/common/Topology.cc:378-416 | least cost at unit weights means fewest links |
| FewestHops.SearchesAgree | inet4/src/inet/common/Topology.cc:378-475 | with all link weights one and node weights zero both searches give the same labels |
| DhcpServer.DhcpServer.ProcessDhcpMessage | inet4/src/inet/applications/dhcp/DhcpServer.cc:161-290 | the lease table and the reply after any message are those of the server step |
| DhcpServer.DhcpServer.GetLeaseByMac | inet4/src/inet/applications/dhcp/DhcpServer.cc:491-504 | the entry found first in address order, or none exactly if no entry has the MAC |
| DhcpServer.DhcpServer.GetAvailableLease | inet4/src/inet/applications/dhcp/DhcpServer.cc:506-543 | the requested address, or the first free one of the pool, with its entry; none if the pool is used up |
| DhcpReplies.RenewalReply | inet4/src/inet/applications/dhcp/DhcpServer.cc:260-276 | a REQUEST with an address in ciaddr that names no server is acknowledged, with the times of the server, if and only if the table has the address, and refused otherwise |
| DhcpReplies.RebootReply | inet4/src/inet/applications/dhcp/DhcpServer.cc:236-258 | a REQUEST that names neither is acknowledged if and only if the table has the address asked for; otherwise the server is silent |
| DhcpReplies.WrongNetworkReply | inet4/src/inet/applications/dhcp/DhcpServer.cc:245-258 | the NAK for an entry of another network, on any table |
| DhcpReplies.SelectingReply | inet4/src/inet/applications/dhcp/DhcpServer.cc:208-234 | a REQUEST that names this server is acknowledged if and only if the address asked for is recorded for its sender, and refused otherwise |
| DhcpReplies.AvailableEntry | inet4/src/inet/applications/dhcp/DhcpServer.cc:506-543 | the address asked for, or else the least one of the pool that is free, with a new entry unless there is one that is not leased |
| DhcpReplies.KnownClientReply | inet4/src/inet/applications/dhcp/DhcpServer.cc:196-202 | a DISCOVER from a MAC with an entry is offered its address again |
| DhcpReplies.NewClientReply | inet4/src/inet/applications/dhcp/DhcpServer.cc:183-196 | any other is offered the least free address of the pool, recorded for its sender; without one there is no answer |
| DhcpReplies.AskedForReply | inet4/src/inet/applications/dhcp/DhcpServer.cc:183-196 | an address asked for is offered whoever has it |
| DhcpReplies.AnsweredIff | inet4/src/inet/applications/dhcp/DhcpServer.cc:176-284 | all other messages are dropped; a DISCOVER gets an OFFER if and only if its sender has an entry, asks for an address, or an address is free |
| DhcpClient.DhcpClient.HandleTimer | inet4/src/inet/applications/dhcp/DhcpClient.cc:218-270 | state, timers, lease, address and message sent after a timer are those of the client step |
| DhcpClient.DhcpClient.HandleDhcpMessage | inet4/src/inet/applications/dhcp/DhcpClient.cc:395-501 | the same after a message, which is dropped unless it is a reply with the current transaction id |
| DhcpAnswers.AckBinds | inet4/src/inet/applications/dhcp/DhcpClient.cc:676-683 | an ACK in REQUESTING, RENEWING, REBINDING or REBOOTING leads to BOUND, with the address configured and T1, T2 and lease timer set by the times of the message |
| DhcpAnswers.NakRestarts | inet4/src/inet/applications/dhcp/DhcpClient.cc:428-497 | a NAK in these states starts over with a DISCOVER; except in REQUESTING the address is given up |
| DhcpAnswers.OfferIsRequested | inet4/src/inet/applications/dhcp/DhcpClient.cc:416-427 | the first OFFER is recorded and requested from the server that made it |
| DhcpAnswers.ActsIff | inet4/src/inet/applications/dhcp/DhcpClient.cc:395-501 | exactly these messages, with the current transaction id, change anything or are answered; an error is raised exactly in the two states passed through |
| DhcpAnswers.T1Renews | inet4/src/inet/applications/dhcp/DhcpClient.cc:241-246 | T1: RENEWING, with the request for the address in ciaddr |
| DhcpAnswers.T2Rebinds | inet4/src/inet/applications/dhcp/DhcpClient.cc:247-261 | T2: the same in REBINDING, only the lease timer going on; an error in any state but RENEWING |
| DhcpAnswers.TimeoutRestarts | inet4/src/inet/applications/dhcp/DhcpClient.cc:233-240 | a response timeout starts over and leaves the address |
| DhcpAnswers.LeaseEnds | inet4/src/inet/applications/dhcp/DhcpClient.cc:262-267 | the end of the lease starts over without the address |
| DhcpAnswers.StartAsks | inet4/src/inet/applications/dhcp/DhcpClient.cc:222-232 | at the start the address of a remembered lease is asked for in the option, otherwise servers are looked for |
| DhcpProtocol.NextKeeps | inet4/src/inet/applications/dhcp/DhcpServer.cc:161-290 | every step of server, clients and network keeps the invariant, and no entry is lost or changes owner |
| DhcpProtocol.ConfiguredIsLeased | inet4/src/inet/applications/dhcp/DhcpServer.cc:161-290 | in every reachable state a configured address is recorded by the server for that MAC and lies in the pool |
| DhcpProtocol.NoSharedAddress | inet4/src/inet/applications/dhcp/DhcpClient.cc:317-319 | no two clients ever have the same address configured |
| DhcpProtocol.OneEntryPerMac | inet4/src/inet/applications/dhcp/DhcpServer.cc:178-199 | each MAC has at most one entry, and all entries lie in the pool |
| DhcpProtocol.OwnerForever | inet4/src/inet/applications/dhcp/DhcpServer.cc:506-543 | an entry keeps its owner for the rest of the run |
| DhcpProtocol.NoErrors | inet4/src/inet/applications/dhcp/DhcpClient.cc:254-257 | the errors "T2 occurred in wrong state" and "invalid client state" are never raised |
| DhcpProtocol.PendingT2 | inet4/src/inet/applications/dhcp/DhcpClient.cc:676-705 | for lease times from 3 s on, a pending T2 means BOUND with T1 pending before it, or RENEWING, and precedes the end of the lease |
| DhcpProtocol.CoveredExcept | inet4/src/inet/applications/dhcp/DhcpClient.cc:374-386 | while an address is configured the timer for the end of its lease is pending, except exactly in SELECTING and REQUESTING |
| DhcpProtocol.CoverLostIff | inet4/src/inet/applications/dhcp/DhcpClient.cc:237-240 | of all steps only the response timeout takes the lease timer from a client and leaves it the address |
| DhcpLeaseLost.LeaseTimerLost | inet4/src/inet/applications/dhcp/DhcpClient.cc:237-247 | a run in which that happens: the answer to the request of T1 does not come in time |
| DhcpProtocol.TimesInOrder | inet4/src/inet/applications/dhcp/DhcpServer.cc:355-359 | T1 <= T2 <= lease; T1 < T2 exactly from 3 s on |
| DhcpProtocol.AlwaysAcceptable | inet4/src/inet/applications/dhcp/DhcpClient.cc:272-290 | whatever arrives, the lease the client refers to exists |
| DhcpRenewal.RequestIsAcked | inet4/src/inet/applications/dhcp/DhcpServer.cc:204-277 | in every reachable state the last request of a client that waits for an ACK is on the network, and serving it gives the ACK for its address |
| DhcpRenewal.ServedIsBound | inet4/src/inet/applications/dhcp/DhcpClient.cc:428-497 | along any run: when that request is served, and the answer delivered at any later time while the client still waits, the lease is bound from then on for the full lease time of the server |
| DhcpRenewal.BoundLater | inet4/src/inet/applications/dhcp/DhcpServer.cc:178-199 | once a client has a lease its address never changes |
| DhcpRenewal.CanBeAcked | inet4/src/inet/applications/dhcp/DhcpClient.cc:428-497 | from every reachable state a client that waits for an ACK can be bound in two steps |
| DhcpRenewal.CanBeServed | inet4/src/inet/applications/dhcp/DhcpClient.cc:416-436 | from every reachable state a client that looks for a server can be bound in four steps if its MAC has an entry or an address is free |
| DhcpProtocol.DiscoverSteals | inet4/src/inet/applications/dhcp/DhcpServer.cc:512-521 | a DISCOVER overwrites an entry exactly when it names a leased address and its sender has no entry |
| Macho.Machine.EnterState | inet4/src/inet/common/Macho.cc:139-154 | entry actions and boxes: the state itself at first, then superstates that do not contain the previous state, outermost first |
| Macho.Machine.ExitState | inet4/src/inet/common/Macho.cc:156-173 | exit actions and boxes: from the inside out while the state does not contain the next one |
| Macho.Machine.SetHistorySuper | inet4/src/inet/common/Macho.h:727-739 | histories of all superstates after a state is left |
| Macho.Machine.InitState | inet4/src/inet/common/Macho.cc:175-187 | history is used if asked for and recorded, and cleared in any case |
| Macho.Machine.RattleOn | inet4/src/inet/common/Macho.cc:339-403 | the chain of transitions started by one setState strictly deepens, and is at most one longer than there are levels below its first state; actions, histories and the path taken are exactly stated |
| StateTree.ChainOfInits | inet4/src/inet/common/Macho.cc:339-403 | every init transition goes at least one level deeper |
| Macho.Machine.Shutdown | inet4/src/inet/common/Macho.cc:268-278 | all active states are left, and every state has been left as often as entered |
| Macho.Machine.ActiveStates | inet4/src/inet/common/Macho.cc:339-403 | between transitions exactly the current state and its superstates are active and have boxes |
| StateTree.TransitionActive | inet4/src/inet/common/Macho.cc:139-173 | exits and entries of a transition turn the active states of the old state into those of the new one, always leaving the innermost and entering below it |
| StateTree.StopsAgree | inet4/src/inet/common/Macho.cc:139-173 | leaving and entering stop at the same superstate |
| StateTree.TransitionExact | inet4/src/inet/common/Macho.cc:139-173 | which actions a transition runs, in which order: exits from the inside out down to the innermost superstate of both that is not the target, then entries from there to the target |
| StateTree.EntriesMinusExits | inet4/src/inet/common/Macho.cc:139-173 | a state has been entered once more than left while active, else as often |
| StateTree.RememberExact | inet4/src/inet/common/Macho.h:276-297 | superstates with HISTORY record their direct substate on the path, those with DEEPHISTORY the state left, nothing else changes |
| StateTree.RememberOk | inet4/src/inet/common/Macho.h:276-297 | a recorded history is a proper substate |
| StateTree.BoxesFollow | inet4/src/inet/common/Macho.cc:139-173 | active states have boxes, and boxes that do not persist belong to active states |
| StateTree.OtherBoxesStay | inet4/src/inet/common/Macho.cc:139-173 | a box that is not deleted on exit is there if and only if it was or the state has been entered |
| Int128.Int128.AddAssign | inet4/src/inet/common/int128.cc:204-214 | addition modulo 2^128, also of a number to itself |
| Int128.Int128.Negated | inet4/src/inet/common/int128.cc:162-168 | negation modulo 2^128 |
| Int128.Int128.SubtractAssign | inet4/src/inet/common/int128.h:128-131 | subtraction modulo 2^128 |
| Int128.Int128.MulAssign | inet4/src/inet/common/int128.cc:216-237 | multiplication modulo 2^128 |
| Int128.Int128.ShiftLeftAssign | inet4/src/inet/common/int128.cc:352-380 | multiplication by 2^n modulo 2^128, for every n |
| Int128.Int128.ShiftRightAssign | inet4/src/inet/common/int128.cc:321-350 | floor division of the signed value by 2^n, for every n |
| Int128.Int128.SetBit | inet4/src/inet/common/int128.cc:302-312 | setting a clear bit adds its weight |
| Int128.Int128.Bit | inet4/src/inet/common/int128.cc:291-300 | the bit of the two's complement representation |
| Int128.Int128.Increment | inet4/src/inet/common/int128.cc:170-177 | adds one modulo 2^128 |
| Int128.Int128.Decrement | inet4/src/inet/common/int128.cc:179-186 | subtracts one modulo 2^128 |
| Int128.Int128.Less | inet4/src/inet/common/int128.cc:382-392 | the order of the numbers when the high words differ or are not negative |
| Words.LessExactIff | inet4/src/inet/common/int128.cc:382-392 | operator< is the order of the numbers unless the high words are equal and negative and exactly one low word has its top bit set |
| Int128.Int128.Assign | inet4/src/inet/common/int128.h:86-90 | assigning a machine word gives its value exactly when it is not negative |
| Int128.Int128.Div | inet4/src/inet/common/int128.cc:239-289 | truncated quotient and remainder for divisors other than 0 and INT128_MIN and every dividend but INT128_MIN, for which it answers 0 and the dividend |
| Int128.Int128.Align | inet4/src/inet/common/int128.cc:256-262 | the bit counter may wrap below zero, and is right again after the increment |
| LongDivision.TruncatedUnique | inet4/src/inet/common/int128.cc:239-289 | truncated quotient and remainder are unique |
| LongDivision.LeastDividend | inet4/src/inet/common/int128.cc:246-252 | the answer for INT128_MIN as dividend is never the truncated quotient |
| LongDivision.LeastDivisor | inet4/src/inet/common/int128.cc:264-277 | with INT128_MIN as divisor the loop only sees 0 and INT128_MIN, neither below the divisor |
| Int128Text.ToString | inet4/src/inet/common/int128.cc:37-62 | prints sign and digits, at most 128 characters, so that the buffer suffices; INT128_MIN comes out as "-0" |
| Int128Text.Set | inet4/src/inet/common/int128.cc:64-109 | the value of the digits read, modulo 2^128 |
| Int128Text.RoundTripIff | inet4/src/inet/common/int128.cc:37-109 | parsing what was printed in decimal gives the number back for every number but INT128_MIN |
| Int128Radix.NotationsRead | inet4/src/inet/common/int128.cc:83-105 | hexadecimal behind "0x" in either case, octal behind "0", and decimal: what is printed of a positive number in that radix is read back, and reading stops at what is no digit |
| Int128Radix.SignRead | inet4/src/inet/common/int128.cc:78-109 | a minus sign negates what is read behind it, whatever the notation |
| Int128Radix.LiteralsRead | inet4/src/inet/common/int128.cc:64-109 | "0x10", "010", "10" and "-0xfF" are 16, 8, 10 and -255 |
| Int128Radix.DigitTable | inet4/src/inet/common/int128.cc:94-101 | the value of every character in every radix; the letter behind the last digit passes the test and is read as one digit more |
| Int128Radix.NoDigitIff | inet4/src/inet/common/int128.cc:94-101 | exactly at which characters reading stops |
| Int128Radix.LetterInDecimal | inet4/src/inet/common/int128.cc:96-99 | "1a" is read as 20 |
| Int128Radix.PrintedDigits | inet4/src/inet/common/int128.cc:51-54 | the characters printed for the digits 0 to 36, the last of which is no letter |
| Int128Radix.PrintedForms | inet4/src/inet/common/int128.cc:39-62 | zero in any radix, the answer to a radix outside 2 to 37, and otherwise sign and digits |
| PatternMatcher.PatternMatcher.Matches | inet4/src/inet/common/PatternMatcher.cc:358-382 | the exact answer for every pattern, line and mode: the element-by-element meaning, except that in case-insensitive mode a pattern of at least three elements ending in "**" and a literal also requires the line to end in the literal as it is written |
| PatternMatcher.PatternMatcher.DoMatch | inet4/src/inet/common/PatternMatcher.cc:258-356 | the same for the search from any element on |
| PatternMatcher.AlwaysRightIff | inet4/src/inet/common/PatternMatcher.cc:358-382 | the answer is right for all lines if and only if case counts, the shortcut does not apply, its literal has no letter, or the elements cannot be filled at all |
| PatternFill.FillableIff | inet4/src/inet/common/PatternMatcher.cc:258-356 | a test on the elements, for empty sets and ranges and for numbers followed by a digit, says whether any line is accepted |
| PatternMatcher.TailShortcutMisses | inet4/src/inet/common/PatternMatcher.cc:323-324 | ignoring case, "**a" accepts "A" but the answer is no |
| Patterns.LastLiteral | inet4/src/inet/common/PatternMatcher.cc:358-378 | a pattern ending in a literal only accepts lines ending in it |
| Patterns.FinalLiteral | inet4/src/inet/common/PatternMatcher.cc:319-324 | a final "**" and literal accept exactly what ends in the literal |
| Patterns.FinalAnySeq | inet4/src/inet/common/PatternMatcher.cc:321-322 | a final "**" accepts everything |
| PatternMatcher.MaximalRun | inet4/src/inet/common/PatternMatcher.cc:302-310 | a number takes the maximal run of digits |
| PatternMatcher.PatternMatcher.SetPattern | inet4/src/inet/common/PatternMatcher.cc:49-110 | the elements of the pattern string, or the error, and a pattern fit for matching |
| PatternText.TokensBack | inet4/src/inet/common/PatternMatcher.cc:49-110 | a pattern put together from texts, their characters as they are or behind a backslash and with number ranges in brackets, "?", sets and negated sets, number ranges in braces, "*" and "**" is cut into exactly the elements of its parts, for dotted paths or not, with case or not |
| PatternText.BraceError | inet4/src/inet/common/PatternMatcher.cc:112-146 | behind any such parts a brace that is never closed is an error |
| PatternText.BackslashError | inet4/src/inet/common/PatternMatcher.cc:148-162 | so is a final backslash |
| PatternMeaning.StarFits | inet4/src/inet/common/PatternMatcher.cc:80-89 | "*" accepts a line if and only if it has no dot or paths are not dotted |
| PatternMeaning.StarStarFits | inet4/src/inet/common/PatternMatcher.cc:80-89 | "**" accepts every line |
| PatternMeaning.QuestionFits | inet4/src/inet/common/PatternMatcher.cc:59-62 | "?" accepts one character, of dotted paths any but a dot |
| PatternMeaning.SetFits | inet4/src/inet/common/PatternMatcher.cc:112-146 | a set in braces accepts one character that a member covers |
| PatternMeaning.NegatedSetFits | inet4/src/inet/common/PatternMatcher.cc:112-146 | a negated set accepts one character that no member covers |
| PatternMeaning.LetterFits | inet4/src/inet/common/PatternMatcher.cc:112-146 | "{a-z}" and "{^a-z}" accept small letters and all else; with case ignored letters and all else |
| PatternMeaning.NumbersFit | inet4/src/inet/common/PatternMatcher.cc:164-191 | a number range accepts digits whose number is within the bounds there are |
| PatternMeaning.NumberFits | inet4/src/inet/common/PatternMatcher.cc:164-191 | a number written in decimal is accepted by bounds written in decimal if and only if it lies between them |
| PatternMeaning.TextFits | inet4/src/inet/common/PatternMatcher.cc:148-162 | a text accepts itself only; with case ignored, what differs from it in the case of letters only |
| PatternMeaning.StarBetween | inet4/src/inet/common/PatternMatcher.cc:49-110 | "*" between two texts accepts the lines that begin with the one and end in the other, with no dot between if paths are dotted |
| PatternMeaning.IndexFits | inet4/src/inet/common/PatternMatcher.cc:64-69 | a number range in brackets between two texts accepts the texts, the brackets, and a number within the bounds |
| PatternMeaning.HostApp | inet4/src/inet/common/PatternMatcher.cc:49-110 | what "host*.app" accepts |
| PatternMeaning.NodeApp | inet4/src/inet/common/PatternMatcher.cc:49-110 | what "node[5..10].app" accepts |
| PatternMeaning.SubstringMode | inet4/src/inet/common/PatternMatcher.cc:98-109 | in substring mode any elements accept a line if and only if they accept a stretch of it, although "**" is left out where it stands already |
| PatternSyntax.EnclosedEnded | inet4/src/inet/common/PatternMatcher.cc:96-110 | what setPattern leaves behind ends in END and has it nowhere else |
| PatternMatcher.ContainsWildcards | inet4/src/inet/common/PatternMatcher.cc:410-415 | true exactly for strings with ?, *, a backslash, { or .. |
| PatternSyntax.PlainIsEquality | inet4/src/inet/common/PatternMatcher.cc:410-415 | for a pattern without wildcards matching the full string is equality |
| PatternSyntax.PlainIsSubstring | inet4/src/inet/common/PatternMatcher.cc:96-107 | in substring mode such a pattern matches the lines it occurs in |
| PatternSyntax.QuotedIsEquality | inet4/src/inet/common/PatternMatcher.cc:148-162 | with a backslash before every character a pattern matches only its text |
| PatternSyntax.BackslashBracket | inet4/src/inet/common/PatternMatcher.cc:155-159 | a single backslash does not take away the meaning of a "[" that opens a number range |
| PatternEscape.EscapeWorksIff | inet4/src/inet/common/PatternMatcher.cc:148-162 | the pattern made by putting a backslash before every ?, *, {, [ and backslash of a text is never in error; it matches the text and nothing else if and only if no "[" of the text is followed by a number range, and otherwise does not match the text |
| MemoryOutputStreams.MemoryOutputStream.WriteBit | inet4/src/inet/common/MemoryOutputStream.h:99-108 | the bytes, most significant bit first and padded with zeros, represent what was written before and this bit |
| MemoryOutputStreams.MemoryOutputStream.WriteByte | inet4/src/inet/common/MemoryOutputStream.h:134-144 | afterwards the bytes represent what was written if and only if the offset in the last byte was 0 or 4 or the byte is zero |
| MemoryOutputStreams.MemoryOutputStream.WriteBytes | inet4/src/inet/common/MemoryOutputStream.h:159-168 | whole bytes on a byte-aligned stream |
| MemoryOutputStreams.MemoryOutputStream.WriteUint4 | inet4/src/inet/common/MemoryOutputStream.h:195-200 | the four lowest bits, most significant first |
| MemoryOutputStreams.MemoryOutputStream.WriteUint16Le | inet4/src/inet/common/MemoryOutputStream.h:223-226 | two bytes, least significant first |
| MemoryOutputStreams.MemoryOutputStream.WriteUint32Be | inet4/src/inet/common/MemoryOutputStream.h:252-257 | the 32 bits, most significant first, at safe offsets |
| MemoryOutputStreams.MemoryOutputStream.WriteUint64Be | inet4/src/inet/common/MemoryOutputStream.h:274-283 | the 64 bits, most significant first, at safe offsets |
| MemoryOutputStreams.MemoryOutputStream.WriteNBitsOfUint64Be | inet4/src/inet/common/MemoryOutputStream.h:344-352 | the n lowest bits, most significant first; 0 and more than 64 are refused without effect |
| BitStreams.BitWritten | inet4/src/inet/common/MemoryOutputStream.h:99-108 | setting one bit of the last byte appends one bit to the sequence and keeps the padding zero |
| BitStreams.ByteWritten | inet4/src/inet/common/MemoryOutputStream.h:134-144 | distributing a byte over two appends its bits exactly at safe offsets or for zero |
| BitStreams.TwoBytesRight | inet4/src/inet/common/MemoryOutputStream.h:137-142 | the number in the last two bytes is the old one followed by the byte exactly when the offset is four or the byte is zero |
| BitStreams.ByteReadRight | inet4/src/inet/common/MemoryInputStream.h:197-207 | the byte put together from two is the next eight bits, at every position |
| StreamRuns.WriteAll | inet4/src/inet/common/MemoryOutputStream.h:99-352 | any sequence of typed writes, with bytes other than zero at safe offsets, appends exactly the bits of the values, and the bytes represent them |
| StreamRuns.ReadAll | inet4/src/inet/common/MemoryInputStream.h:145-460 | any sequence of typed reads returns what the bits stand for, uses up exactly these bits and does not set the flag |
| StreamRuns.WriteThenRead | inet4/src/inet/common/MemoryOutputStream.h:99-352 | what any such sequence of typed writes leaves in a stream is read back by the same sequence of typed reads |
| BitStreams.ReadBack | inet4/src/inet/common/MemoryOutputStream.h:99-352 | of bits alone: decoding the bits of any sequence of values by their types gives the values, whatever follows |
| BitStreams.BeValueIn | inet4/src/inet/common/MemoryInputStream.h:296-379 | putting a number together from bytes, most significant first, is reading its bits, wherever they are |
| BitStreams.ByteInAt | inet4/src/inet/common/MemoryInputStream.h:191-210 | the bytes read are the next bits by eights, and zero where these are not there completely |
| MemoryInputStreams.MemoryInputStream.ReadUint4 | inet4/src/inet/common/MemoryInputStream.h:275-282 | the number that the next four bits write, zeros for missing bits, and the flag set if any is missing |
| BitStreams.BeRoundTrip | inet4/src/inet/common/MemoryOutputStream.h:252-283 | the value of the bytes of a number is the number modulo the width |
| MemoryInputStreams.MemoryInputStream.ReadBit | inet4/src/inet/common/MemoryInputStream.h:145-159 | the next bit; false and the flag set when nothing is left |
| MemoryInputStreams.MemoryInputStream.ReadByte | inet4/src/inet/common/MemoryInputStream.h:191-210 | the next eight bits at every alignment; zero, the flag set and the stream used up when fewer are left |
| MemoryInputStreams.MemoryInputStream.ReadBytes | inet4/src/inet/common/MemoryInputStream.h:227-240 | as many whole bytes as are left, at most the number asked for |
| MemoryInputStreams.MemoryInputStream.ReadUint16Le | inet4/src/inet/common/MemoryInputStream.h:307-312 | two bytes, least significant first |
| MemoryInputStreams.MemoryInputStream.ReadUint32Be | inet4/src/inet/common/MemoryInputStream.h:342-349 | four bytes, most significant first, zeros for missing bytes |
| MemoryInputStreams.MemoryInputStream.ReadUint64Be | inet4/src/inet/common/MemoryInputStream.h:368-379 | eight bytes, most significant first, zeros for missing bytes |
| MemoryInputStreams.MemoryInputStream.ReadNBitsToUint64Be | inet4/src/inet/common/MemoryInputStream.h:448-460 | the number that the next n bits write, zeros for missing bits |
| DhcpSerializer.Serialize | inet4/src/inet/applications/dhcp/DhcpMessageSerializer.cc:24-225 | appends exactly the encoded message, or the part before a string that is too long; the result says whether the counted length is the chunk length |
| DhcpSerializer.WriteFixedPart | inet4/src/inet/applications/dhcp/DhcpMessageSerializer.cc:31-50 | the 44 bytes before the server name |
| DhcpSerializer.WriteStringField | inet4/src/inet/applications/dhcp/DhcpMessageSerializer.cc:52-63 | the characters, a zero, and a number of zeros that is an unsigned difference |
| DhcpSerializer.WriteOptions | inet4/src/inet/applications/dhcp/DhcpMessageSerializer.cc:92-218 | the options that are present, in order, without the host name, and the 16-bit length counter |
| DhcpWire.Wire | inet4/src/inet/applications/dhcp/DhcpMessageSerializer.cc:24-223 | all bytes of a message in plain numbers: header, names, cookie, the options by code, size and payload, end |
| DhcpWire.TypeAt240 | inet4/src/inet/applications/dhcp/DhcpMessageSerializer.cc:92-102 | bytes 240 to 242 of a message with a type are 53, 1 and the type |
| DhcpWire.OptionsWritten | inet4/src/inet/applications/dhcp/DhcpMessageSerializer.cc:97-219 | the options that are present, in plain numbers and in order |
| DhcpWire.FourBytes | inet4/src/inet/applications/dhcp/DhcpMessageSerializer.cc:35-46 | numbers are written most significant byte first |
| DhcpSerializer.WrittenIsRead | inet4/src/inet/applications/dhcp/DhcpMessageSerializer.cc:24-402 | what the serializer leaves in an empty stream for a message in limits is read back as that message to the last byte, and the counter is the number of bytes |
| DhcpRoundTrip.RoundTripIff | inet4/src/inet/applications/dhcp/DhcpMessageSerializer.cc:24-402 | parsing gives back the message that was serialized if and only if every field is within its limits: server name below 64 and file below 128 characters, at most 255 parameters and 63 addresses per list, no host name, numbers within their widths |
| DhcpRoundTrip.RoundTrip | inet4/src/inet/applications/dhcp/DhcpMessageSerializer.cc:24-402 | a message in limits comes back, reported correct, and exactly its bytes are consumed whatever follows |
| DhcpRoundTrip.DecodedInLimits | inet4/src/inet/applications/dhcp/DhcpMessageSerializer.cc:227-402 | whatever the bytes, a parsed message is in limits but for a host name |
| DhcpRoundTrip.LongestNameLost | inet4/src/inet/applications/dhcp/DhcpMessageSerializer.cc:54-63 | a server name of 64 characters passes the check, makes the padding count wrap around and is not read back |
| DhcpRoundTrip.CounterIsLength | inet4/src/inet/applications/dhcp/DhcpMessageSerializer.cc:29-225 | the running length counter is the number of bytes written modulo its 16 bits |
| DhcpRoundTrip.InLimitsCounted | inet4/src/inet/applications/dhcp/DhcpMessageSerializer.cc:225 | for a message in limits the counter is the number of bytes, at most 1308 |
| DhcpParser.Deserialize | inet4/src/inet/applications/dhcp/DhcpMessageSerializer.cc:227-402 | the message, correctness mark and length that the bytes stand for; a refused assertion, a string field without end and a missing end option are told apart |
| DhcpParser.ReadOptions | inet4/src/inet/applications/dhcp/DhcpMessageSerializer.cc:271-399 | the option loop on any bytes does what splitting them into options and applying these in turn does |
| DhcpWire.BytesRead | inet4/src/inet/applications/dhcp/DhcpMessageSerializer.cc:278-311 | options 53, 12, 55 and 61: what is read from any payload behind any options and before any other bytes, and which sizes are refused |
| DhcpWire.NumberRead | inet4/src/inet/applications/dhcp/DhcpMessageSerializer.cc:312-386 | options 50, 1, 54, 58, 59 and 51: the number of four bytes, any other size being refused |
| DhcpWire.ListRead | inet4/src/inet/applications/dhcp/DhcpMessageSerializer.cc:326-358 | options 3, 6 and 42: the addresses, sizes that are no multiple of four being refused |
| DhcpWire.AddressRead | inet4/src/inet/applications/dhcp/DhcpMessageSerializer.cc:326-336 | each of these addresses is the number that its four bytes write |
| DhcpWire.OtherRead | inet4/src/inet/applications/dhcp/DhcpMessageSerializer.cc:387-399 | any other option is skipped but makes the message incorrect |
| DhcpWire.HeaderRead | inet4/src/inet/applications/dhcp/DhcpMessageSerializer.cc:227-271 | every field of the header from its place, and no message without the cookie |
| DhcpUnended.OutcomeIff | inet4/src/inet/applications/dhcp/DhcpMessageSerializer.cc:227-402 | the outcome of any bytes: a string runs on behind its field if and only if one of the two has no zero; otherwise an assertion fails if and only if the cookie is wrong or an option has a size that is not accepted; otherwise the parser does not end if and only if the end option is missing |
| DhcpUnended.EndlessMeaning | inet4/src/inet/applications/dhcp/DhcpMessageSerializer.cc:274-399 | the option loop of the source makes any number of rounds if and only if the bytes are endless in this sense |
| DhcpUnended.CutOffIsEndless | inet4/src/inet/applications/dhcp/DhcpMessageSerializer.cc:227-402 | on every message in limits that breaks off behind a whole option, or just before the end option, the parser does not end |
| DhcpParser.NoEndNoStop | inet4/src/inet/applications/dhcp/DhcpMessageSerializer.cc:274-399 | once the bytes have run out a round of the option loop changes nothing but the counter and the mark |
| Topology.Topology.AddLink | inet4/src/inet/common/Topology.cc:297-314 | the link is taken from where it was and put at the end of the lists of its two nodes; a gate is forgotten when its end moves; the topology stays consistent |
| Topology.Topology.DeleteLink | inet4/src/inet/common/Topology.cc:339-344 | exactly this link leaves the lists and the graph |
| Topology.Topology.DeleteNode | inet4/src/inet/common/Topology.cc:271-295 | the node and exactly the links that touch it are gone, self-loops included; all other lists keep their order |
| Topology.Topology.AddNode | inet4/src/inet/common/Topology.cc:256-269 | the node is put at one place of the order of module ids, which stays ascending |
| Topology.Topology.GetNodeFor | inet4/src/inet/common/Topology.cc:369-376 | a node with the module id, and none only if there is none |
| Topology.RemovedAscends | inet4/src/inet/common/Topology.cc:290-292 | deleting a node keeps the order of module ids |
| Topology.Topology.ConsistentMirrors | inet4/src/inet/common/Topology.cc:297-360 | a topology kept consistent by the edits has the form that the searches work on |
| Topology.Topology.ConsistentPriced | inet4/src/inet/common/Topology.cc:418-475 | with node weights that are not negative and positive weights on usable links the weighted search applies to it |
| MessageDispatchers.DispatcherNetwork.HandleRegisterService | inet4/src/inet/common/MessageDispatcher.cc:132-143 | on a tree of dispatchers the registration is refused if and only if a dispatcher it has to visit knows the service; otherwise it ends, exactly the dispatchers not behind the gate it came through have a new entry, each made once, with the gate that leads back, and nothing else changes |
| MessageDispatchers.DispatcherNetwork.Forward | inet4/src/inet/common/MessageDispatcher.cc:57-74 | from every dispatcher packets for a registered service reach the dispatcher and gate of the registrant in fewer hops than there are dispatchers |
| MessageDispatchers.RegisteredEverywhere | inet4/src/inet/common/MessageDispatcher.cc:132-143 | after a registration from outside the tree every dispatcher knows the way |
| MessageDispatchers.OthersKeepTheWay | inet4/src/inet/common/MessageDispatcher.cc:132-143 | registrations of other services leave it alone |
| MessageDispatchers.OnlyOnce | inet4/src/inet/common/MessageDispatcher.cc:136-137 | a second registration of the service from anywhere outside the tree is refused |
| DispatcherNumbering.CanBeNumbered | inet4/src/inet/common/MessageDispatcher.cc:132-143 | every connected network of dispatchers without cycles can be numbered outwards from any of its dispatchers, which is the form that the other results assume |
| DispatcherTree.Behind | inet4/src/inet/common/IProtocolRegistrationListener.cc:22-28 | what is visited by a registration that leaves through a gate is exactly what lies behind that gate |
| DispatcherTree.WayBack | inet4/src/inet/common/IProtocolRegistrationListener.cc:22-28 | the gates that lead back across a connection |
| DispatcherTree.OneHopCloser | inet4/src/inet/common/MessageDispatcher.cc:66-70 | one hop leaves fewer dispatchers between a packet and its destination |

## Left out

- Int128.Int128.Div: does not cover INT128_MIN or zero as divisor, for which the loop does not end and the code divides by zero.
- Int128.Int128.Less: does not promise the integer order when both high words are equal and negative; `Words.LessExactIff` says exactly when it is.
- IntervalTree.IntervalTree.Insert: intervals must end at a representable time, at or after the time stored in `nil`.
- Topology.Topology.CalculateWeightedSingleShortestPathsTo: requires what the code asserts on the way for all nodes and enabled links: node weights not negative, link weights positive.
- The prefix-matching variant of the glob matcher, number ranges beyond the width of a machine word, and characters outside ASCII.
- PatternText.TokensBack: covers texts of parts under the side conditions of `Proper`; "***", or a set in which a "-" could be read in two ways, is cut up by the same functions but not described as parts.
- Patterns with a trailing backslash: reading past the end of the string is represented by an error result.
- Floating-point conversions of the 128-bit integer, its bitwise and, or and xor operators, and clearing a bit.
- The static buffer that successive printed numbers share.
- Extracting a topology from a running simulation, finding networks, and adding a link by its gates.
- Memory management: freeing nodes, the intervals they own, and the dangling interval pointer that deleteNode returns.
- The interval tree's print functions and destructor.
- DHCP relays, several interfaces, routes, statistics, declining an address, and servers that stop or crash.
- Subnet masks, gateways and name servers inside DHCP leases; only address, owner, times and transaction ids are modelled.
- Event dispatch, snapshots and deprecated transitions of the state machine engine, and its template layer. Events matter only as callers of setState.
- Registrations of protocols and interfaces, which spread like those of services, and the choice of the table by the tags of a packet.
- DHCP times of fractions of a second: the serializer writes whole seconds, and times are whole seconds in the model.
- MemoryOutputStreams.MemoryOutputStream.WriteNBitsOfUint64Be: counts from 32 to 64 are excluded, because the source shifts an int by that much.
- Stream functions for 24 bits, 32 and 64 bits in little endian order, strings and IPv6 addresses, and reading repeated bits and bytes, which have the form of those modelled.
- StreamRuns.WriteThenRead: covers bytes other than zero at safe offsets and counts of 1 to 31 bits; `BitStreams.ByteWritten` says what happens elsewhere.
- Random numbers: transaction ids are parameters that are assumed to be fresh.
- Infinite weights and times beyond what is stated above, and rounding of real weights.
