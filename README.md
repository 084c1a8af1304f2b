# A Dafny model of the TRA network simulator and of a set of LeetCode solutions

The project models two things.

**The simulator** of `OOP_HW2_412410110.cpp` is a discrete-event simulator of a switched
network that routes by label stacks.
- The global state is one object, `Simulator.Simulation`. It holds:
  - the node table, the link table and the packet-id counter;
  - the clock and the end time;
  - the event queue, a `std::priority_queue` ordered by `mycomp`.
- Each `TRA_switch` is a `Switches.TraSwitch` object. It holds the neighbour set, the
  label budget, the last packet id seen per advertiser, the entry table and the network
  table.
- Headers, payloads, packets, links and events are values, in modules `Packets`, `Links`
  and `EventQueue`.
- What one event's `trigger()` does is written as a function, `Scheduler.Fire`. The run
  loop of `start_simulate` is `Scheduler.Run`.
- What `recv_handler` does to a switch is written as functions in `Routing`. The fan-out
  of `node::send` is `Transmit.SendFrom`.
- The objects' methods are proved to follow these functions step by step, loop by loop.
- The properties are proved about the functions:
  - the queue pops in `mycomp` order;
  - no link ever exceeds its capacity;
  - the entry lists stay non-empty and free of duplicates;
  - control packets are flooded exactly when `isNewPacket` holds, and never crash a switch;
  - the label and detour behaviour of the data plane.

**The LeetCode solutions** under `LeetCode/` are one module each (files `lc_*.dfy`):
- array and string loops become methods with loop invariants, proved against reference
  functions;
- linked-list rewiring keeps heap nodes (`ListNodes.ListNode`);
- matrices that are updated in place are `array2`;
- the stacks and memo vectors that persist across calls are fields of a `Solution` class.

## Model

| member | source | states |
|---|---|---|
| SimBase.AddU32 | OOP_HW2_412410110.cpp:1646 | unsigned addition: a + b, less 2^32 when the sum does not fit |
| SimBase.SubU32 | OOP_HW2_412410110.cpp:1842 | unsigned subtraction: a - b, plus 2^32 when b > a |
| SimBase.DecimalRoundTrip | OOP_HW2_412410110.cpp:962 | to_string of an unsigned value is all digits and reads back as the number |
| Packets.DataHeader.GetLabel | OOP_HW2_412410110.cpp:124 | the top label, or 0 on an empty stack |
| Packets.DataHeader.LabelCost | OOP_HW2_412410110.cpp:114-121 | pushing costs 1 exactly when the id is the source or the top, or the next hop is the top; 2 otherwise |
| Packets.DataHeader.PushLabel | OOP_HW2_412410110.cpp:114-121 | the id becomes the new top, used_labels grows by the cost (unsigned), and the other fields are kept |
| Packets.DataHeader.PopLabel | OOP_HW2_412410110.cpp:122 | removes exactly the top label and keeps everything else |
| Packets.DataHeader.Visit | OOP_HW2_412410110.cpp:127-128 | afterwards exactly the ids visited before and the new one count as visited |
| Packets.Packet.WithHdr | OOP_HW2_412410110.cpp:1896-1898 | setting the header fields keeps the id, size, kind, labels, visits and payload |
| Links.NewSimpleLink | OOP_HW2_412410110.cpp:1494-1546 | a new simple link has nothing occupied, capacity 100 and latency ONE_HOP_DELAY unless arguments give them |
| Links.Reserve | OOP_HW2_412410110.cpp:1522-1526 | with a pkt_size argument occupied grows by exactly that size, without one the link is unchanged, and the ends, capacity and latency are always kept |
| Links.ReserveAdmitted | OOP_HW2_412410110.cpp:1516-1526 | reserving what canTransmit admitted adds exactly the packet size and stays within capacity |
| Links.NoSizeNoEffect | OOP_HW2_412410110.cpp:1516-1526 | without a pkt_size argument, reserve changes nothing and canTransmit refuses |
| EventQueue.Rank | OOP_HW2_412410110.cpp:867-880 | an event's place in the order is trigger time first, then priority |
| EventQueue.MyCompIsRankOrder | OOP_HW2_412410110.cpp:867-880 | mycomp(lhs, rhs) holds exactly when lhs ranks after rhs, and the reverse flag flips it |
| EventQueue.Insert | OOP_HW2_412410110.cpp:737 | push grows the queue by one |
| EventQueue.InsertContents | OOP_HW2_412410110.cpp:737 | push adds exactly the new event |
| EventQueue.InsertBounded | OOP_HW2_412410110.cpp:737 | a lower bound on every rank, the new event's included, still holds after push |
| EventQueue.InsertKeepsOrder | OOP_HW2_412410110.cpp:737 | push keeps the queue in pop order and adds exactly the new event |
| EventQueue.InsertAll | OOP_HW2_412410110.cpp:1632-1659 | pushing a batch grows the queue by the batch's length |
| EventQueue.InsertAllKeepsOrder | OOP_HW2_412410110.cpp:1632-1659 | pushing a batch keeps pop order and adds exactly the batch |
| EventQueue.HeadIsTop | OOP_HW2_412410110.cpp:827-835 | the first event of a queue in pop order is one that no pending event precedes under mycomp |
| EventQueue.PopKeepsOrder | OOP_HW2_412410110.cpp:827-835 | pop keeps the rest in pop order |
| Routing.NewSwitch | OOP_HW2_412410110.cpp:672-716 | a new switch has no neighbours, no label budget and empty tables |
| Routing.InsertSorted | OOP_HW2_412410110.cpp:1484 | adding a neighbour keeps the key order and adds exactly that id |
| Routing.Remove | OOP_HW2_412410110.cpp:1489-1492 | erasing a neighbour keeps the key order and removes exactly that id |
| Routing.OwnInfo | OOP_HW2_412410110.cpp:1729-1747 | the own advertisement holds exactly the neighbours, each with its link's (capacity, occupied), or (0, 0) when there is no link |
| Routing.Advertised | OOP_HW2_412410110.cpp:1762-1778 | an advertisement of a becomes exactly the entries (a, nb) -> info[nb] |
| Routing.Flooded | OOP_HW2_412410110.cpp:1798-1803 | the flooded copy keeps id, size and payload, and is addressed from this switch to every neighbour |
| Routing.DetourScan | OOP_HW2_412410110.cpp:1869-1880 | a detour found is an entry of the first half plus one, not visited, with more headroom than the size |
| Routing.Relabel | OOP_HW2_412410110.cpp:1846-1853 | the label step changes neither the header fields nor the visited set |
| Routing.SelfAdvertisement | OOP_HW2_412410110.cpp:1729-1747 | an own advertisement not newer than the recorded one is dropped; otherwise every neighbour's link view goes into the payload and the network table, the id is recorded and the copy is flooded |
| Routing.FirstSighting | OOP_HW2_412410110.cpp:1762-1771 | a first advertisement creates entry_table[a] = [preID] if absent, records the id, adds the advertised links without replacing any, and floods |
| Routing.NewerAdvertisement | OOP_HW2_412410110.cpp:1772-1778 | a newer advertisement overwrites the advertised links, records the id, keeps the entry table, and floods |
| Routing.StaleAdvertisement | OOP_HW2_412410110.cpp:1779-1786 | a stale advertisement crashes exactly when the advertiser has no entry list; otherwise it is not flooded and adds preID to that list once |
| Routing.FloodedHeader | OOP_HW2_412410110.cpp:1798-1803 | every flooded copy keeps id, size and source, and goes from this switch to BROCAST_ID |
| Routing.AppendAbsent | OOP_HW2_412410110.cpp:1779-1786 | appending an absent id keeps an entry list free of duplicates |
| Routing.CtrlRecvKeepsInv | OOP_HW2_412410110.cpp:1722-1807 | the control branch keeps the entry lists non-empty and duplicate-free, and keeps the id and the neighbours |
| Routing.FloodIffNew | OOP_HW2_412410110.cpp:1691-1706 | with consistent tables, an advertisement never crashes, is flooded exactly when isNewPacket holds, and keeps the tables consistent |
| Routing.DetourScanFirst | OOP_HW2_412410110.cpp:1869-1880 | the detour loop returns the first qualifying entry, finds none only when every entry was passed over, and crashes only on an entry without a network link |
| Routing.DataNotRouted | OOP_HW2_412410110.cpp:1842-1845 | a data packet is ignored before the entry table knows nodeNum - 1 advertisers, and at its destination |
| Routing.DataForwarded | OOP_HW2_412410110.cpp:1808-1900 | the data branch never changes the switch; a forwarded packet keeps id, size, message, source and destination, comes from this switch to an unvisited next hop, adds this switch to the visited set, and carries the relabelled stack, with at most a detour label on top |
| Routing.UncongestedNextHop | OOP_HW2_412410110.cpp:1856-1860 | without congestion the next hop is the first entry towards the top label, and the packet goes there unless it was visited |
| Routing.SourcePushesDestination | OOP_HW2_412410110.cpp:1846-1851 | the source pushes the destination as the top label |
| Routing.LabelSwitchPops | OOP_HW2_412410110.cpp:1852-1853 | a switch named by the top label pops it |
| Routing.CongestedOverBudget | OOP_HW2_412410110.cpp:1860-1889 | congestion with the label budget spent drops the packet |
| Routing.NoDetourKeepsNextHop | OOP_HW2_412410110.cpp:1869-1886 | congestion with no detour other than the first entry keeps the original next hop, and the packet is not dropped for that |
| Routing.DetourTaken | OOP_HW2_412410110.cpp:1869-1886 | congestion with budget left and a detour other than the first entry always forwards the packet to that detour (the scan skips visited entries), pushed as a label on the relabelled stack |
| Routing.DetourWithinBudget | OOP_HW2_412410110.cpp:1863-1886 | when a detour label is pushed with a budget of at least one, used_labels stays at most num_of_label |
| Transmit.SendFrom | OOP_HW2_412410110.cpp:1626-1661 | the fan-out creates at most one receive event per neighbour |
| Transmit.SendFromFrame | OOP_HW2_412410110.cpp:1632-1659 | the fan-out keeps the set of links and only adds to the occupied bandwidth of links from the sender to addressed neighbours |
| Transmit.SendFromCapacity | OOP_HW2_412410110.cpp:1643-1645 | the fan-out never takes a link over its capacity |
| Transmit.SendFromArrivals | OOP_HW2_412410110.cpp:1647-1657 | every receive event carries the packet unchanged to an addressed neighbour at now + latency, in ascending receiver order |
| Transmit.SendFromReceivers | OOP_HW2_412410110.cpp:1632-1659 | without a crash, a neighbour receives exactly when it is addressed and its link admits the packet |
| Scheduler.InsertAllOk | OOP_HW2_412410110.cpp:1632-1659 | scheduling well-formed events keeps the queue in order and well-formed |
| Scheduler.InsertOk | OOP_HW2_412410110.cpp:1614-1624 | scheduling one well-formed event keeps the queue in order and well-formed |
| Scheduler.FireSendKeepsInv | OOP_HW2_412410110.cpp:1053-1067 | a send event keeps the simulator invariant |
| Scheduler.DeliverKeepsInv | OOP_HW2_412410110.cpp:1614-1624 | installing well-formed tables and scheduling a well-formed copy keeps the invariant |
| Scheduler.FireRecvKeepsInv | OOP_HW2_412410110.cpp:944-958 | a receive event keeps the invariant, and a control packet never crashes |
| Scheduler.FireKeepsInv | OOP_HW2_412410110.cpp:944-1361 | every trigger keeps the invariant |
| Scheduler.RunKeepsInv | OOP_HW2_412410110.cpp:836-865 | the run loop keeps the invariant, never moves the clock back, never frees bandwidth and never removes a link |
| Scheduler.FireLinks | OOP_HW2_412410110.cpp:944-1361 | a trigger keeps the clock, the end time and the links, and never frees bandwidth |
| Scheduler.RunPopsTop | OOP_HW2_412410110.cpp:836-865 | each round triggers the event no pending event precedes, after setting the clock to its time |
| Switches.AdvertisedUpdate | OOP_HW2_412410110.cpp:1762-1778 | advertising one more neighbour adds one network entry |
| Switches.MergeStep | OOP_HW2_412410110.cpp:1767-1770 | one step of the insert loop extends the non-replacing merge by one neighbour |
| Switches.OverwriteStep | OOP_HW2_412410110.cpp:1774-1776 | one step of the assignment loop extends the overwrite by one neighbour |
| Switches.OwnLinksAdvertised | OOP_HW2_412410110.cpp:1735-1743 | the own-advertisement loop's entries are the advertisement of the own link views |
| Switches.TraSwitch.constructor | OOP_HW2_412410110.cpp:672-716 | a new switch object holds NewSwitch's tables |
| Switches.TraSwitch.SetNumOfLabel | OOP_HW2_412410110.cpp:612 | only the label budget changes |
| Switches.TraSwitch.AddNeighbor | OOP_HW2_412410110.cpp:1484 | only the neighbour set changes, by adding the id in order |
| Switches.TraSwitch.DelPhyNeighbor | OOP_HW2_412410110.cpp:1489-1492 | only the neighbour set changes, by removing the id |
| Switches.TraSwitch.AdvertiseOwnLinks | OOP_HW2_412410110.cpp:1735-1743 | the loop puts every neighbour's link view into the payload and the network table, and changes nothing else |
| Switches.TraSwitch.MergeFirstSighting | OOP_HW2_412410110.cpp:1767-1770 | the insert loop adds the advertised links without replacing existing entries |
| Switches.TraSwitch.OverwriteAdvertised | OOP_HW2_412410110.cpp:1774-1776 | the assignment loop overwrites the advertised links |
| Switches.TraSwitch.CtrlHandler | OOP_HW2_412410110.cpp:1722-1807 | the control branch leaves the tables, the forwarded copy and the crash flag as Routing.CtrlRecv says |
| Switches.TraSwitch.ContainsId | OOP_HW2_412410110.cpp:1781-1784 | the scan of an entry list finds preID exactly when it is there |
| Switches.TraSwitch.FindDetour | OOP_HW2_412410110.cpp:1869-1880 | the detour loop returns Routing.DetourScan's answer |
| Switches.TraSwitch.DataHandler | OOP_HW2_412410110.cpp:1808-1900 | the data branch forwards, drops or crashes as Routing.DataRecv says |
| Switches.TraSwitch.SteerPacket | OOP_HW2_412410110.cpp:1860-1899 | the congestion and forwarding step forwards, drops or crashes as Routing.Steer says |
| Switches.TraSwitch.RecvHandler | OOP_HW2_412410110.cpp:1710-1944 | recv_handler leaves the tables and the forwarded copy as Routing.Receive says, and changes nothing on a crash |
| Simulator.CrashSticky | OOP_HW2_412410110.cpp:1639-1643 | once the fan-out has crashed, the remaining neighbours change nothing |
| Simulator.InsertAllSnoc | OOP_HW2_412410110.cpp:1655 | pushing one more event after a batch is pushing the longer batch |
| Simulator.SendStep | OOP_HW2_412410110.cpp:1632-1659 | one more neighbour of the fan-out extends its result as the loop body does |
| Simulator.InvNewNode | OOP_HW2_412410110.cpp:640-659 | a fresh switch keeps the simulator invariant |
| Simulator.InvDelNode | OOP_HW2_412410110.cpp:614-618 | removing a node keeps the invariant |
| Simulator.InvSetLabels | OOP_HW2_412410110.cpp:612 | changing a label budget keeps the invariant |
| Simulator.InvAddNeighbor | OOP_HW2_412410110.cpp:1476-1487 | adding a neighbour other than the node itself keeps the invariant |
| Simulator.InvDelNeighbor | OOP_HW2_412410110.cpp:1489-1492 | removing a neighbour keeps the invariant |
| Simulator.InvNewLink | OOP_HW2_412410110.cpp:1538-1546 | a new simple link keeps the invariant |
| Simulator.InvSchedule | OOP_HW2_412410110.cpp:1557-1605 | scheduling a generation event keeps the invariant |
| Simulator.DelLinkMissesTarget | OOP_HW2_412410110.cpp:1413-1418 | del_link as written leaves a link other than (0, 0) in place |
| Simulator.Simulation.constructor | OOP_HW2_412410110.cpp:810-814 | the simulator starts with no nodes, no links, and the packet ids and the clock at 0 |
| Simulator.Simulation.GenerateNode | OOP_HW2_412410110.cpp:640-659 | a node is created exactly when the id is new, not BROCAST_ID, and the type is TRA_switch; then a fresh switch is registered, and otherwise nothing changes |
| Simulator.Simulation.DelNode | OOP_HW2_412410110.cpp:614-618 | the id is unregistered if present |
| Simulator.Simulation.SetNumOfLabel | OOP_HW2_412410110.cpp:612 | only that switch's label budget changes |
| Simulator.Simulation.GenerateLink | OOP_HW2_412410110.cpp:1444-1463 | a link is created exactly when the pair is new, neither end is BROCAST_ID, and the type is simple_link; otherwise nothing changes |
| Simulator.Simulation.AddPhyNeighbor | OOP_HW2_412410110.cpp:1476-1487 | itself, an unknown node or an existing neighbour is ignored; otherwise the neighbour is added and the link generated, even when the link is refused |
| Simulator.Simulation.LinkNeighbor | OOP_HW2_412410110.cpp:1484 | the neighbour joins the node's neighbour set and nothing else changes |
| Simulator.Simulation.DelPhyNeighbor | OOP_HW2_412410110.cpp:1489-1492 | the neighbour leaves the node's neighbour set and nothing else changes |
| Simulator.Simulation.DelLink | OOP_HW2_412410110.cpp:1413-1418 | as written: only the link (0, 0) is erased, whatever ends are given |
| Simulator.Simulation.DelLinkByIds | OOP_HW2_412410110.cpp:1413-1418 | as intended: the link with the given ends is erased and every other link is kept |
| Simulator.Simulation.DataPacketEvent | OOP_HW2_412410110.cpp:1557-1576 | a data-generation event is scheduled exactly when src exists and dst exists or is BROCAST_ID |
| Simulator.Simulation.CtrlPacketEvent | OOP_HW2_412410110.cpp:1580-1605 | a broadcast control-generation event of size 0 is scheduled exactly when src exists |
| Simulator.Simulation.GetNextEvent | OOP_HW2_412410110.cpp:827-835 | pops the front, which on a queue in pop order is the event no pending event precedes; None on an empty queue |
| Simulator.Simulation.Send | OOP_HW2_412410110.cpp:1626-1661 | the links, the new events and the crash flag are those of Transmit.SendFrom |
| Simulator.Simulation.SendHandler | OOP_HW2_412410110.cpp:1614-1624 | schedules a send event now, from preID to nexID, with the same packet |
| Simulator.Simulation.TriggerCtrlGen | OOP_HW2_412410110.cpp:1317-1361 | the new state is Scheduler.Fire's: a fresh control packet received by its source |
| Simulator.Simulation.TriggerDataGen | OOP_HW2_412410110.cpp:1169-1219 | the new state is Scheduler.Fire's: a fresh data packet received by its source, when source and destination check out |
| Simulator.Simulation.TriggerSend | OOP_HW2_412410110.cpp:1053-1067 | the new state is Scheduler.Fire's: the sender's fan-out |
| Simulator.Simulation.Install | OOP_HW2_412410110.cpp:944-958 | the switch's new tables are installed and a forwarded copy is scheduled, as Scheduler.Deliver says |
| Simulator.Simulation.TriggerRecv | OOP_HW2_412410110.cpp:944-958 | the new state is Scheduler.Fire's: the receiver's recv_handler |
| Simulator.Simulation.Trigger | OOP_HW2_412410110.cpp:944-1361 | the new state and the crash flag are Scheduler.Fire's |
| Simulator.Simulation.Step | OOP_HW2_412410110.cpp:845-864 | one round pops and triggers the next event or stops, as one step of Scheduler.Run |
| Simulator.Simulation.SetEndTime | OOP_HW2_412410110.cpp:836-840 | only the end time changes |
| Simulator.Simulation.StartSimulate | OOP_HW2_412410110.cpp:836-865 | the final state and the stop reason are Scheduler.Run's from the state with the new end time |
| ListNodes.ListNode.constructor | LeetCode/0002_add_two_numbers.cpp:6 | a new node holds 0 and has no successor |
| ListNodes.Values | LeetCode/0002_add_two_numbers.cpp:4 | the values of a list, one per node |
| ListNodes.Link | LeetCode/0024_swap_nodes_in_pairs.cpp:23-29 | setting one node's next changes only that node's successor |
| TwoSum.TwoSum | LeetCode/0001_two_sums.cpp:4-21 | the answer is empty iff no two distinct indices sum to target; otherwise it is [i, j] with i != j and nums[i] + nums[j] == target, j is the first index pairing with i, and no earlier index pairs with another index |
| TwoSum.BuildComplement | LeetCode/0001_two_sums.cpp:7-10 | looking nums[i] up in the map built from target - nums[j] yields the first j pairing with i (insert keeps the first index for a key) |
| TwoSum.NoPairFound | LeetCode/0001_two_sums.cpp:12-20 | when every index's first partner is itself or missing, no two distinct indices sum to target |
| AddTwoNumbers.AddDigits | LeetCode/0002_add_two_numbers.cpp:21-42 | the sum's digits are digits, and there are as many as the longer list has, or one more |
| AddTwoNumbers.AddDigitsValue | LeetCode/0002_add_two_numbers.cpp:21-42 | the value of the sum's digits is the sum of the two values and the carry |
| AddTwoNumbers.AddDigitsCommute | LeetCode/0002_add_two_numbers.cpp:21-42 | the addition is symmetric in the two lists |
| AddTwoNumbers.TopDigit | LeetCode/0002_add_two_numbers.cpp:21-42 | adding numbers without a leading zero gives one without a leading zero |
| AddTwoNumbers.AddTwoNumbers | LeetCode/0002_add_two_numbers.cpp:16-46 | the result is a list of fresh nodes holding the digits of the sum, and the inputs are only read |
| AddTwoNumbers.AddInto | LeetCode/0002_add_two_numbers.cpp:21-42 | the loop appends fresh nodes holding the digits of the sum and leaves the inputs intact |
| AddTwoNumbers.Round | LeetCode/0002_add_two_numbers.cpp:23-41 | one round appends the digit of carry plus the current digits, carries the rest, and makes progress |
| LongestSubstring.LengthOfLongestSubstring | LeetCode/0003_longest_substring_without_repeating_characters.cpp:4-28 | the result is the length of the longest substring without a repeated character: every repeat-free substring is at most that long and one reaches it |
| LongestSubstring.Grow | LeetCode/0003_longest_substring_without_repeating_characters.cpp:13-17 | inserting a character absent from the set keeps the window repeat-free, and no repeat-free substring ending at the new right end starts before the window |
| LongestSubstring.Shrink | LeetCode/0003_longest_substring_without_repeating_characters.cpp:20-24 | while s[r] is in the set the window is non-empty, and erasing its leftmost character leaves the set equal to the shorter window |
| LongestSubstring.StayBlocked | LeetCode/0003_longest_substring_without_repeating_characters.cpp:18-25 | a start whose window already repeats or contains s[r] can never begin a repeat-free substring past r |
| ReverseInteger.ReverseDigits | LeetCode/0007_reverse_integer.cpp:6-18 | the result is the number whose digits are those of x reversed, with x's sign, or 0 when that lies outside the 32-bit range; the 64-bit accumulator never overflows |
| ReverseInteger.TrailingZerosVanish | LeetCode/0007_reverse_integer.cpp:9-14 | trailing zeros vanish: reversing 10x gives the same as reversing x |
| ReverseInteger.ReverseTwice | LeetCode/0007_reverse_integer.cpp:9-14 | without a trailing zero, reversing twice gives back x |
| ContainerWithMostWater.MaxArea | LeetCode/0011_container_with_most_water.cpp:4-18 | for non-negative heights the result is the maximum of min(h[i], h[j]) * (j - i) over all i < j, and 0 with fewer than two bars |
| ContainerWithMostWater.ShorterLeftDone | LeetCode/0011_container_with_most_water.cpp:11-12 | when the left bar is shorter, no pair using it inside the window beats the current pair, so moving it loses nothing |
| ContainerWithMostWater.ShorterRightDone | LeetCode/0011_container_with_most_water.cpp:13-14 | when the right bar is not taller, no pair using it inside the window beats the current pair (ties move the right pointer) |
| CommonPrefix.CheckBit | LeetCode/0014_longest_common_prefix.cpp:3-12 | true iff strs[0] has a character other than '\0' at idx and every string has that same character at idx |
| CommonPrefix.LongestCommonPrefix | LeetCode/0014_longest_common_prefix.cpp:15-23 | for non-empty strs the result is a prefix of every string and the longest such prefix without a '\0' character |
| CommonPrefix.ExtendPrefix | LeetCode/0014_longest_common_prefix.cpp:19-20 | a shared column extends the common prefix by one character |
| CommonPrefix.LongerPrefixSharesColumn | LeetCode/0014_longest_common_prefix.cpp:19-21 | any common prefix reaching past column idx makes that column shared, so the first rejected column bounds every common prefix |
| ValidParentheses.Run | LeetCode/0020_valid_parentheses.cpp:11-23 | the scan only ever leaves open brackets on the stack |
| ValidParentheses.Solution.constructor | LeetCode/0020_valid_parentheses.cpp:3 | a new object starts with an empty stack |
| ValidParentheses.Solution.IsValid | LeetCode/0020_valid_parentheses.cpp:6-25 | the stack after the call is where the scan stopped (it is never cleared), and the answer is true exactly when the scan ran to the end with an empty stack |
| ValidParentheses.RunConcat | LeetCode/0020_valid_parentheses.cpp:11-23 | scanning a concatenation scans the second part from where the first left off |
| ValidParentheses.BalancedRestores | LeetCode/0020_valid_parentheses.cpp:11-23 | a properly nested string is scanned to the end and leaves the stack as it found it |
| ValidParentheses.InsertPair | LeetCode/0020_valid_parentheses.cpp:11-23 | inserting a matched pair into a properly nested string keeps it properly nested |
| ValidParentheses.AcceptedIsBalanced | LeetCode/0020_valid_parentheses.cpp:11-24 | a scan ending with an empty stack has read a properly nested string: the leftover stack followed by s |
| ValidParentheses.PushAll | LeetCode/0020_valid_parentheses.cpp:13-14 | open brackets alone are all pushed |
| ValidParentheses.ValidIffBalanced | LeetCode/0020_valid_parentheses.cpp:6-25 | the call answers true exactly when the brackets left by earlier calls followed by s are properly nested; from a fresh object, exactly when s is |
| MergeKLists.MergeMultiset | LeetCode/0023_merge_k_sorted_lists.cpp:13-36 | merging keeps exactly the elements of both lists, each as often as it occurs |
| MergeKLists.MergeMembers | LeetCode/0023_merge_k_sorted_lists.cpp:13-36 | an element is in the merge exactly when it is in one of the lists |
| MergeKLists.MergeSorted | LeetCode/0023_merge_k_sorted_lists.cpp:13-36 | merging ascending lists gives an ascending list |
| MergeKLists.TiesTakeSecond | LeetCode/0023_merge_k_sorted_lists.cpp:19-28 | a node of l1 is placed before a node of l2 only when its value is strictly smaller |
| MergeKLists.MergeStep | LeetCode/0023_merge_k_sorted_lists.cpp:19-28 | one round takes the head with the smaller value, or l2's head on a tie |
| MergeKLists.MergeTwoLists | LeetCode/0023_merge_k_sorted_lists.cpp:13-36 | the result is the list of the input nodes in merge order (ascending, l2 first on ties), relinked without a dummy node |
| MergeKLists.Weave | LeetCode/0023_merge_k_sorted_lists.cpp:17-30 | the loop links nodes in merge order until one list is used up |
| MergeKLists.Finish | LeetCode/0023_merge_k_sorted_lists.cpp:31 | the leftover list is linked behind, completing the merge |
| MergeKLists.Round | LeetCode/0023_merge_k_sorted_lists.cpp:19-29 | one round links the next node of the merge and moves its list on |
| MergeKLists.MergeRange | LeetCode/0023_merge_k_sorted_lists.cpp:38-49 | the range merge returns an ascending list of exactly the nodes of lists[head..rear], stores it in lists[head], and touches no slot outside the range |
| MergeKLists.MergeSecond | LeetCode/0023_merge_k_sorted_lists.cpp:45-48 | merging the second half and combining keeps every node of both halves and nothing else |
| MergeKLists.Combine | LeetCode/0023_merge_k_sorted_lists.cpp:46 | lists[head] becomes the merge of the two halves and holds exactly their nodes |
| MergeKLists.MergeKLists | LeetCode/0023_merge_k_sorted_lists.cpp:52-58 | no lists give null; otherwise the result is an ascending list of exactly the input nodes |
| SwapPairs.SwappedAt | LeetCode/0024_swap_nodes_in_pairs.cpp:14-34 | in the swapped order, each element moves to its pair mate's place and an odd last element stays |
| SwapPairs.SwappedTwice | LeetCode/0024_swap_nodes_in_pairs.cpp:14-34 | swapping twice restores the order |
| SwapPairs.SwapPairs | LeetCode/0024_swap_nodes_in_pairs.cpp:14-34 | the result heads the list of the same nodes swapped pairwise |
| SwapPairs.SwapPair | LeetCode/0024_swap_nodes_in_pairs.cpp:20-31 | one round swaps the current pair and links the previous pair to it |
| SwapPairs.SuccStep | LeetCode/0024_swap_nodes_in_pairs.cpp:23-29 | a round changes the successors of exactly the pair's two nodes and of the previous pair's first node |
| SwapPairs.SwappedList | LeetCode/0024_swap_nodes_in_pairs.cpp:18-33 | once every pair is swapped, the nodes form the swapped list |
| SwapPairs.SwappedDistinct | LeetCode/0024_swap_nodes_in_pairs.cpp:14-34 | swapping keeps distinct elements distinct |
| SwapPairs.SwappedValues | LeetCode/0024_swap_nodes_in_pairs.cpp:14-34 | the values are swapped the same way as the nodes |
| TrappingRainWater.Trap | LeetCode/0042_trapping_rain_water.cpp:4-29 | for a non-empty bar list the result is the total water: the sum over bars of min(highest bar on its left, highest on its right) minus its height |
| TrappingRainWater.LeftStep | LeetCode/0042_trapping_rain_water.cpp:11-18 | moving the left pointer (over the lower bar) adds exactly the water above the new bar, and height_l stays the running maximum of the prefix |
| TrappingRainWater.RightStep | LeetCode/0042_trapping_rain_water.cpp:19-26 | moving the right pointer adds exactly the water above the new bar, and height_r stays the running maximum of the suffix |
| TrappingRainWater.SumWater | LeetCode/0042_trapping_rain_water.cpp:6-28 | the water above any range of bars is non-negative |
| RotateImage.Rotate | LeetCode/0048_rotate_image.cpp:4-19 | afterwards matrix[r][c] is the old matrix[n-1-c][r] for every cell |
| RotateImage.RotateCycle | LeetCode/0048_rotate_image.cpp:12-16 | the four cells of a cycle each take the value of the cell rotating onto them, and no other cell changes |
| RotateImage.RotateStep | LeetCode/0048_rotate_image.cpp:10-17 | one inner pass marks its cycle done and keeps the cycles done rotated and the rest untouched |
| RotateImage.CycleDone | LeetCode/0048_rotate_image.cpp:8-18 | each step adds exactly the four cells of its cycle to the cycles done, none of them done before |
| RotateImage.AllDone | LeetCode/0048_rotate_image.cpp:8-18 | once the loops end every cell holds its rotated original (the centre of an odd matrix is its own rotation) |
| MergeIntervals.Merge | LeetCode/0056_merge_intervals.cpp:4-21 | for intervals with start <= end: the input ends sorted and a permutation of itself; the result has no more intervals than the input, each well formed and ending before the next starts, and covers exactly the points, halves included, that the input covers |
| MergeIntervals.MergeSorted | LeetCode/0056_merge_intervals.cpp:8-19 | the scan over sorted intervals outputs at most as many separated intervals as it reads, covering exactly what the input covers |
| MergeIntervals.FoldNext | LeetCode/0056_merge_intervals.cpp:12-15 | an interval starting at or before the current end is absorbed: the extended interval covers exactly the current one and the absorbed one |
| MergeIntervals.AppendMerged | LeetCode/0056_merge_intervals.cpp:17 | pushing the finished interval keeps the output separated and covering the input read so far |
| MergeIntervals.CoverPermutation | LeetCode/0056_merge_intervals.cpp:7 | sorting changes neither the covered points nor the start <= end property |
| MergeIntervals.MergeIsUnique | LeetCode/0056_merge_intervals.cpp:4-21 | two lists of well-formed, separated intervals covering the same points are equal, so the contract pins the output to the single merge |
| MergeIntervals.GapKeepsApart | LeetCode/0056_merge_intervals.cpp:12 | [1,2],[3,4] and [1,4] do not cover the same points, so touching-by-one intervals stay apart as the strict >= test keeps them |
| LastWord.LengthOfLastWord | LeetCode/0058_length_of_last_word.cpp:4-18 | the result is the length of the last word: the run of non-separators (neither ' ' nor '\0') before the trailing separators, the terminator included in the scan |
| LastWord.ScanStep | LeetCode/0058_length_of_last_word.cpp:9-15 | a separator ends the run without changing the last word; any other character extends the run by one |
| LastWord.TerminatorIsTrimmed | LeetCode/0058_length_of_last_word.cpp:7 | visiting the terminating '\0' does not change the answer |
| LastWord.LastWordIsLastRun | LeetCode/0058_length_of_last_word.cpp:6-18 | the answer is a maximal run of non-separators followed only by separators, and it is 0 exactly when the string holds no non-separator |
| RotateList.Rotated | LeetCode/0061_rotate_list.cpp:14-36 | rotating right by r moves the last r elements to the front and keeps the others in order |
| RotateList.RotateRight | LeetCode/0061_rotate_list.cpp:14-36 | null for an empty list; otherwise the result heads the same nodes rotated right by k mod n |
| RotateList.RotatedIsList | LeetCode/0061_rotate_list.cpp:32-34 | closing the ring and cutting it before the new head gives the rotated list |
| RotateList.RotatedDistinct | LeetCode/0061_rotate_list.cpp:14-36 | rotation keeps distinct nodes distinct |
| RotateList.RotatedValues | LeetCode/0061_rotate_list.cpp:14-36 | the values rotate with their nodes |
| RotateList.RotateBack | LeetCode/0061_rotate_list.cpp:14-36 | rotating by 0 or by n changes nothing, and rotating by r then n - r gives the list back |
| UniquePaths.UniquePaths | LeetCode/0062_unique_paths.cpp:4-23 | for m, n >= 1 the result is the number of right/down paths across an m x n grid: 1 along the first row and column, else the sum of the counts above and to the left |
| UniquePaths.PathsClosedForm | LeetCode/0062_unique_paths.cpp:11-22 | the count for (i, j) times i! j! is (i + j)!, so the answer is C(m + n - 2, m - 1) |
| UniquePaths.PathsSymmetric | LeetCode/0062_unique_paths.cpp:11-22 | the count is symmetric in m and n |
| UniquePathsII.UniquePathsWithObstacles | LeetCode/0063_unique_paths_II.cpp:4-20 | for a non-empty rectangular grid the result is the table value at the last cell; on a grid of 0s and 1s it is the number of right/down move sequences from the start to the last cell that only visit 0 cells |
| UniquePathsII.WaysCountsPaths | LeetCode/0063_unique_paths_II.cpp:10-17 | on a grid of 0s and 1s every table value is the number of obstacle-free right/down paths to its cell |
| UniquePathsII.ClearPathsExact | LeetCode/0063_unique_paths_II.cpp:10-17 | a move sequence is among the counted paths to (i, j) exactly when it has i downs and j rights, stays inside the grid and only visits 0 cells |
| UniquePathsII.CountStep | LeetCode/0063_unique_paths_II.cpp:16-17 | the paths to an inner clear cell are the disjoint union of those arriving from above and from the left |
| UniquePathsII.NoObstacles | LeetCode/0063_unique_paths_II.cpp:10-17 | without obstacles the count equals the plain grid's path count |
| UniquePathsII.BlockedStart | LeetCode/0063_unique_paths_II.cpp:10-17 | an obstacle at the start makes every count 0 |
| UniquePathsII.WaysNonNegative | LeetCode/0063_unique_paths_II.cpp:10-17 | on a grid of 0s and 1s every count is non-negative and an obstacle cell (the end included) has count 0 |
| MinimumPathSum.MinPathSum | LeetCode/0064_minimum_path_sum.cpp:4-20 | for a non-empty rectangular grid the result is the table value at the last cell: prefix sums on the first row and column, else the cell plus the smaller of its upper and left values |
| MinimumPathSum.MinSumIsMinimal | LeetCode/0064_minimum_path_sum.cpp:10-19 | no right/down path from the top-left cell to (i, j) has a smaller cell sum than the table value |
| MinimumPathSum.BestPath | LeetCode/0064_minimum_path_sum.cpp:10-19 | some right/down path to (i, j) has exactly the table value as its cell sum, so the table value is the minimum |
| AddBinary.AddBinary | LeetCode/0067_add_binary.cpp:4-31 | the result is a binary string whose value is the sum of the two values, as long as the longer input plus one digit for a final carry |
| AddBinary.Round | LeetCode/0067_add_binary.cpp:13-28 | one round prepends the digit of the two digits read plus the carry and carries the rest |
| AddBinary.PrependBit | LeetCode/0067_add_binary.cpp:22-25 | putting a digit in front adds it at the place of the current length |
| AddBinary.ValueBound | LeetCode/0067_add_binary.cpp:4-31 | a binary string of length k is worth less than 2^k |
| ClimbingStairs.Stairs | LeetCode/0070_climbing_stairs.cpp:6-12 | there is at least one way to climb any number of stairs |
| ClimbingStairs.Solution.constructor | LeetCode/0070_climbing_stairs.cpp:3 | the memo starts as {1, 1}, which holds the counts for 0 and 1 stairs |
| ClimbingStairs.Solution.ClimbStairs | LeetCode/0070_climbing_stairs.cpp:6-12 | the answer is the number of ways to climb n stairs; a hit leaves the memo alone and a miss fills it up to n |
| ClimbingStairs.StairsFibonacci | LeetCode/0070_climbing_stairs.cpp:6-12 | the number of ways for n stairs is the Fibonacci number F(n + 1) |
| SimplifyPath.FindSlash | LeetCode/0071_simplify_path.cpp:12 | find returns the first slash, or npos when there is none |
| SimplifyPath.Solution.constructor | LeetCode/0071_simplify_path.cpp:3 | a new object starts with an empty stack |
| SimplifyPath.Solution.SimplifyPath | LeetCode/0071_simplify_path.cpp:6-37 | the answer is the path the token fold gives from the stack left by earlier calls, and the stack is empty afterwards |
| SimplifyPath.FoldStep | LeetCode/0071_simplify_path.cpp:13-28 | cutting off the first token applies it to the stack |
| SimplifyPath.FoldComponents | LeetCode/0071_simplify_path.cpp:16-25 | only directory names are ever on the stack |
| SimplifyPath.FoldNames | LeetCode/0071_simplify_path.cpp:23-24 | directory names are pushed one by one |
| SimplifyPath.TokensOfJoin | LeetCode/0071_simplify_path.cpp:11-28 | cutting a joined path of names at its slashes gives back the names |
| SimplifyPath.RootIsSimplified | LeetCode/0071_simplify_path.cpp:36 | the root simplifies to itself |
| SimplifyPath.JoinIsSimplified | LeetCode/0071_simplify_path.cpp:30-36 | a joined non-empty path of names simplifies to itself |
| SimplifyPath.Idempotent | LeetCode/0071_simplify_path.cpp:6-37 | simplifying a simplified path changes nothing |
| SetMatrixZeroes.SetZeroes | LeetCode/0073_set_matrix_zeroes.cpp:4-24 | afterwards a cell is 0 exactly when its row or column originally held a 0, and every other cell keeps its value |
| DigitRoot.AddDigits | LeetCode/0258_add_digits.cpp:4-19 | num < 10 (negatives included) is returned unchanged; otherwise the result is the digital root (digit sums repeated until one digit remains) |
| DigitRoot.DigitalRootClosedForm | LeetCode/0258_add_digits.cpp:8-18 | for num > 0 the digital root is 1 + (num - 1) mod 9 |
| DigitRoot.AddDigitsRange | LeetCode/0258_add_digits.cpp:8 | for num >= 0 the answer is in 0..9 |
| Digits.DigitSumMod9 | LeetCode/0258_add_digits.cpp:11-15 | a number and its digit sum are congruent modulo 9 |
| FibonacciNumber.Solution.constructor | LeetCode/0509_fibonacci_number.cpp:3 | as written: the memo starts as {1, 1} |
| FibonacciNumber.Solution.Corrected | LeetCode/0509_fibonacci_number.cpp:3 | as intended: the memo starts as {0, 1}, the first two Fibonacci numbers |
| FibonacciNumber.Solution.Fib | LeetCode/0509_fibonacci_number.cpp:6-12 | the answer is the recurrence seeded by the memo's first two entries; a hit leaves the memo alone and a miss fills it up to n |
| FibonacciNumber.AsWrittenShifted | LeetCode/0509_fibonacci_number.cpp:3-12 | with the memo as written, fib(n) answers F(n + 1) |
| FibonacciNumber.AsWrittenFibZero | LeetCode/0509_fibonacci_number.cpp:3-12 | with the memo as written, fib(0) = 1 and fib(2) = 2, against F(0) = 0 and F(2) = 1 |
| FibonacciNumber.CorrectedIsFibonacci | LeetCode/0509_fibonacci_number.cpp:3-12 | with the corrected memo, fib(n) answers F(n) for every n |
| JewelsAndStones.NumJewelsInStones | LeetCode/0771_jewels_and_stones.cpp:4-27 | the result is the number of stones whose character occurs in jewels (duplicate jewel letters never count twice), and at most the number of stones |
| JewelsAndStones.CountJewels | LeetCode/0771_jewels_and_stones.cpp:11-25 | the two-iterator scan over the sorted copies counts the matching stones; each step advances one iterator |
| JewelsAndStones.NotAJewel | LeetCode/0771_jewels_and_stones.cpp:22-23 | a stone smaller than the current jewel and larger than every earlier jewel is no jewel |
| JewelsAndStones.RestNotJewels | LeetCode/0771_jewels_and_stones.cpp:11 | when the jewels run out, no remaining (larger) stone is a jewel |
| JewelsAndStones.MatchesPermutation | LeetCode/0771_jewels_and_stones.cpp:7-9 | sorting the stones does not change the count |
| JewelsAndStones.MatchesSameJewels | LeetCode/0771_jewels_and_stones.cpp:7-8 | sorting the jewels does not change the count |
| BooleanExpression.Gather | LeetCode/1106_parsing_a_boolean_expression.cpp:13-21 | the do-while loop stops at a '(' strictly inside the stack, and the counts only grow |
| BooleanExpression.Solution.constructor | LeetCode/1106_parsing_a_boolean_expression.cpp:3 | a new object starts with an empty stack |
| BooleanExpression.Solution.ParseBoolExpr | LeetCode/1106_parsing_a_boolean_expression.cpp:6-55 | the stack after the call is the scan's result from the stack left by earlier calls, and the answer is whether its top is 't' |
| BooleanExpression.PopOperands | LeetCode/1106_parsing_a_boolean_expression.cpp:13-22 | the do-while loop pops the group's operands and counts its t and f entries |
| BooleanExpression.RunConcat | LeetCode/1106_parsing_a_boolean_expression.cpp:9-52 | reading a concatenation reads the second part from where the first left off |
| BooleanExpression.GatherGroup | LeetCode/1106_parsing_a_boolean_expression.cpp:13-22 | on a group, the do-while loop pops exactly the operands above its '(' and counts them |
| BooleanExpression.CloseGroup | LeetCode/1106_parsing_a_boolean_expression.cpp:11-44 | closing a group replaces it by its operator and the value the switch pushes |
| BooleanExpression.ReadGroup | LeetCode/1106_parsing_a_boolean_expression.cpp:9-52 | reading "op(" inner ")" leaves the operator and the group's value |
| BooleanExpression.ResidueCounts | LeetCode/1106_parsing_a_boolean_expression.cpp:11-44 | an operand leaves exactly one t or f, its value |
| BooleanExpression.ResiduesCounts | LeetCode/1106_parsing_a_boolean_expression.cpp:26-43 | a group's operands leave an f exactly when not all hold and a t exactly when one holds |
| BooleanExpression.ReadExpr | LeetCode/1106_parsing_a_boolean_expression.cpp:9-52 | reading a well-formed expression leaves exactly its residue on top of the earlier stack |
| BooleanExpression.ReadArgs | LeetCode/1106_parsing_a_boolean_expression.cpp:9-52 | reading comma-separated operands leaves their residues in order |
| BooleanExpression.Evaluates | LeetCode/1106_parsing_a_boolean_expression.cpp:6-55 | a well-formed expression never reads an empty stack, and the answer is its value |
| Maximum69.LastIndexOf | LeetCode/1323_maximum_69_number.cpp:8-14 | the index of the most significant occurrence of a digit, or -1 when it does not occur |
| Maximum69.Maximum69Number | LeetCode/1323_maximum_69_number.cpp:4-23 | num <= 0 is returned unchanged; otherwise the most significant 6 becomes 9 (num unchanged when there is no 6) |
| Maximum69.Flip69Digits | LeetCode/1323_maximum_69_number.cpp:16-22 | the result's digits are num's with the most significant 6 replaced by 9, and the result is >= num |
| Maximum69.Flip69IsMaximal | LeetCode/1323_maximum_69_number.cpp:16-22 | for a number of 6s and 9s, no single 6/9 digit change gives more |
| Sorting.Sort | LeetCode/1512_number_of_good_pairs.cpp:7 | std::sort: afterwards the array is ordered by the given total preorder and holds the same multiset of elements |
| GoodPairs.NumIdenticalPairs | LeetCode/1512_number_of_good_pairs.cpp:4-24 | for a non-empty array, nums ends sorted and a permutation of its old contents, and the result is the number of pairs i < j with equal values in the original array |
| GoodPairs.CountRuns | LeetCode/1512_number_of_good_pairs.cpp:9-22 | over a sorted non-empty array, summing t(t - 1)/2 per run of t equal values gives the number of equal pairs |
| GoodPairs.SameRun | LeetCode/1512_number_of_good_pairs.cpp:13-14 | a value equal to its predecessor pairs with exactly the temp earlier copies, and t(t+1)/2 = t(t-1)/2 + t |
| GoodPairs.NewRun | LeetCode/1512_number_of_good_pairs.cpp:15-20 | in sorted order a value different from its predecessor occurs nowhere before it, so it adds no pair |
| GoodPairs.PairsPermutation | LeetCode/1512_number_of_good_pairs.cpp:7 | sorting does not change the number of equal pairs: it depends only on the multiset of values |
| LaserBeams.NumberOfBeams | LeetCode/2125_number_of_laser_beams_in_a_bank.cpp:4-19 | the result is the sum, over consecutive rows holding devices, of the product of their device counts, and it is never negative |
| LaserBeams.RowDevices | LeetCode/2125_number_of_laser_beams_in_a_bank.cpp:9-11 | a row's count is the sum of its characters' offsets from '0', which for a row of '0'/'1' is its number of '1's |
| LaserBeams.RowStep | LeetCode/2125_number_of_laser_beams_in_a_bank.cpp:12-16 | a row with devices joins the rows that count; a row without devices is skipped |
| LaserBeams.AppendRow | LeetCode/2125_number_of_laser_beams_in_a_bank.cpp:14-15 | a row with c devices adds last * c beams (0 for the first such row) and becomes last |
| LaserBeams.BinaryRowCount | LeetCode/2125_number_of_laser_beams_in_a_bank.cpp:9-11 | for a row of '0' and '1' characters the count is the number of '1's |
| LaserBeams.EmptyRowNoBeams | LeetCode/2125_number_of_laser_beams_in_a_bank.cpp:12 | removing a row without devices does not change the rows that count, so it does not reset last |
| InsertGcd.Rem | LeetCode/2807_insert_greatest_common_divisors_in_linked_list.cpp:13 | C++'s % has a remainder smaller in magnitude than the divisor |
| InsertGcd.RemSplit | LeetCode/2807_insert_greatest_common_divisors_in_linked_list.cpp:13 | a is the magnitude of b times the truncated quotient plus C++'s remainder, so % truncates toward zero |
| InsertGcd.GcdDivides | LeetCode/2807_insert_greatest_common_divisors_in_linked_list.cpp:13 | gcd is zero exactly when both arguments are, and otherwise divides both |
| InsertGcd.GcdGreatest | LeetCode/2807_insert_greatest_common_divisors_in_linked_list.cpp:13 | every common divisor of the arguments divides gcd, so it is the greatest |
| InsertGcd.GcdNonNegative | LeetCode/2807_insert_greatest_common_divisors_in_linked_list.cpp:13 | for non-negative arguments gcd is non-negative |
| InsertGcd.Interleave | LeetCode/2807_insert_greatest_common_divisors_in_linked_list.cpp:20-30 | interleaving n originals with n - 1 inserted elements gives 2n - 1 elements |
| InsertGcd.InterleaveAt | LeetCode/2807_insert_greatest_common_divisors_in_linked_list.cpp:20-30 | the originals land at the even places and the inserted elements at the odd places |
| InsertGcd.EvensInterleave | LeetCode/2807_insert_greatest_common_divisors_in_linked_list.cpp:20-30 | taking the even places of the result gives back the original list |
| InsertGcd.InterleaveMembers | LeetCode/2807_insert_greatest_common_divisors_in_linked_list.cpp:20-30 | the result holds the originals and the inserted elements and nothing else |
| InsertGcd.InterleaveDistinct | LeetCode/2807_insert_greatest_common_divisors_in_linked_list.cpp:20-30 | interleaving distinct, disjoint nodes gives a list without repetition |
| InsertGcd.Gcds | LeetCode/2807_insert_greatest_common_divisors_in_linked_list.cpp:23 | one gcd per adjacent pair |
| InsertGcd.InsertGcds | LeetCode/2807_insert_greatest_common_divisors_in_linked_list.cpp:16-35 | the result is the original nodes interleaved with fresh nodes, each holding the gcd of its two neighbours' values |
| InsertGcd.Rounds | LeetCode/2807_insert_greatest_common_divisors_in_linked_list.cpp:20-29 | the loop links a fresh gcd node behind every node but the last |
| InsertGcd.Round | LeetCode/2807_insert_greatest_common_divisors_in_linked_list.cpp:22-28 | one round links the head node and a fresh node holding the gcd of it and its successor |
| InsertGcd.Close | LeetCode/2807_insert_greatest_common_divisors_in_linked_list.cpp:30-34 | linking the last node completes the interleaved list behind the dummy node |
| InsertGcd.InterleavedValues | LeetCode/2807_insert_greatest_common_divisors_in_linked_list.cpp:20-30 | the values of an interleaved list interleave the values |

## Left out

- Routing.DataRecv: a path on which the C++ has undefined behaviour or throws is the outcome `Crashed`, and the run stops with `Fault`. These paths are `network.at` and `entry_table.at` on a missing key (:1859, :1866, :1873), the unchecked `entry_table.find(top)->second[0]` (:1857), and `pop_label` on an empty stack (:1852-1853). What the real program would do after such a path is not modelled.
- Routing.Steer: the same crash outcome for `entry_table.at(dst)` and for `network.at` inside the detour loop (:1866-1880).
- Routing.CtrlRecv: the stale branch's `entry_table.at(src)` (:1781) on a missing key is the outcome `Crashed`. Routing.FloodIffNew shows it cannot happen with consistent tables.
- Simulator.Simulation.Send: the null link pointer dereferenced at :1639-1643, when a neighbour has no link, is the flag `ok == false`, and the run stops with `Fault`.
- EventQueue.Insert: an event goes behind every event of equal rank (FIFO among ties). `std::priority_queue` leaves the order of equal-rank events unspecified; FIFO is one order it allows, and every property proved about the queue holds for any order among ties.
- EventQueue.Priority: `std::hash<string>` is the uninterpreted parameter `hash`. Nothing depends on its values, and every result holds for any hash function.
- Routing.NewSwitch: `num_of_label` starts at 0. In the C++ the member is uninitialised until `setNumOfLabel` is called.
- Simulator.Simulation.StartSimulate: the loop runs at most `fuel` rounds and then stops with `OutOfFuel`, because a loop that need not terminate cannot be written in a function. Runs longer than the bound are not modelled.
- Scheduler.Run: the same `fuel` bound, for the same reason.
- Links.NewSimpleLink: capacity and occupied are `double` in the C++ and naturals here. They are only ever set from unsigned arguments and increased by unsigned packet sizes, so no fraction arises. A `link_args` value that is fractional or outside the unsigned range is not modelled: link arguments are read through `uint`.
- Packets.Packet: `size` is a `double` that is only set and read through `uint` (:340, :379-380). Fractional sizes given to `data_packet_event` are truncated before they reach the model.
- Simulator.Simulation.GenerateNode: `dynamic_cast` and the prototype registries of the generators are replaced by datatypes and a fixed set of types: TRA_switch for nodes and simple_link for links.
- Simulator.Simulation.DelLink: models `del_link` as written, erasing only (0, 0); see Findings.
- Simulator.Simulation: `main`, the console and error output, `packet::discard`, and the deletion of packets and events are not modelled. Memory management has no observable effect on the tables.
- AddBinary.AddBinary: the loop advances both reverse iterators every round, also one that already stands at `rend()`, and then compares it with `rend()`; in C++ that is undefined behaviour. The model reads a finished string's digit as 0, as the source's guards intend. The inputs are required to be binary strings, as the problem states; for other characters, `*it - '0'` would give digits that are not 0 or 1.
- LastWord.LengthOfLastWord: the source dereferences `s.end()`. The model reads that position as the string's terminator '\0', which `std::string` guarantees since C++11 for `s[s.size()]`. Formally, dereferencing the end iterator is undefined.
- ClimbingStairs.Solution.ClimbStairs: `int` is unbounded here. `climbStairs(46) = F(47)` exceeds INT_MAX, so the C++ overflows for n >= 46 (signed overflow is undefined); the model returns the exact count.
- ClimbingStairs.Solution.ClimbStairs: requires n >= 0. For negative n the C++ compares `n < f.size()` as unsigned, misses, and recurses without end.
- FibonacciNumber.Solution.Fib: `int` is unbounded here. With the memo as written, `fib(46) = F(47)` overflows INT_MAX; the model returns the exact value.
- FibonacciNumber.Solution.Fib: requires n >= 0, for the same reason as ClimbStairs: negative n recurses without end in the C++.
- ValidParentheses.Solution.IsValid: requires the input to consist of the six bracket characters, as the problem states. For any other character the C++ `right.at` throws, or the stack top is looked up in `left`; that is not modelled.
- BooleanExpression.Solution.ParseBoolExpr: requires the scan never to read an empty stack and to end with a non-empty one. Otherwise `s.top()` on an empty `std::stack` is undefined behaviour. BooleanExpression.Evaluates shows that every well-formed expression meets this.
- RotateList.RotateRight: requires k >= 0, as the problem states. For negative k the C++ `k %= n` gives a negative remainder and the loop bound `nNode - k - 1` walks past the tail.
- ContainerWithMostWater.MaxArea: requires heights >= 0, as the problem states. With negative heights the two-pointer argument does not apply and the result is not the maximum.
- MergeIntervals.Merge: requires every interval to have start <= end, as the problem states. Malformed intervals cover nothing, and the merge would not describe their union.
- RotateImage.Rotate: requires a square matrix, as the problem states. The C++ uses `matrix.size()` for both dimensions.
- AddTwoNumbers.AddTwoNumbers: requires digits 0..9, as the problem states.
- InsertGcd.InsertGcds: requires a non-empty list. The C++ dereferences `head->next` at :20 without a null check.
- InsertGcd.Rem: the quotient `INT_MIN / -1` overflows in C++ and is not modelled. `int` is unbounded here.
- TwoSum.TwoSum: `target - nums[j]` and `nums[i] + nums[j]` are exact here. For int overflow in these sums, the C++ is undefined.
- TrappingRainWater.Trap: the total water is exact here; an `int` overflow of the sum is not modelled.
- TrappingRainWater.Trap: requires a non-empty height, as the problem states. On an empty vector the C++ dereferences `height.end() - 1` (:7-8), which is undefined.
- LaserBeams.NumberOfBeams: the sum of products is exact here; an `int` overflow is not modelled.
- GoodPairs.NumIdenticalPairs: the pair count is exact here; an `int` overflow is not modelled.
- GoodPairs.NumIdenticalPairs: requires a non-empty array, as the problem states. On an empty vector the C++ reads `nums[0]` (:10), which is undefined.
- CommonPrefix.LongestCommonPrefix: requires a non-empty strs, as the problem states. On an empty vector `checkBit` reads `strs[0]` (:5), which is undefined.
- Maximum69.Maximum69Number: the result is exact here. `num + 3 * temp` (:22) exceeds INT_MAX for inputs above the problem's bound of 10^4, e.g. 2147483646, where the C++ overflows; that is not modelled.
- ContainerWithMostWater.MaxArea: each area `height * width` (:12, :14) is exact here. For heights outside the problem's bound, e.g. [1073741824, 0, 1073741824], the C++ product reaches 2^31 and overflows; that is not modelled.
- MinimumPathSum.MinPathSum: the path sums are exact here; an `int` overflow is not modelled.
- UniquePaths.UniquePaths: the path counts are exact here; an `int` overflow is not modelled.
- UniquePaths.UniquePaths: requires m >= 1 and n >= 1, as the problem states. For m or n of 0 the C++ reads `dp[m - 1][n - 1]` (:22) outside the table.
- UniquePathsII.UniquePathsWithObstacles: the path counts are exact here; an `int` overflow is not modelled.
- MergeKLists.MergeKLists: requires each input list to be ascending and no node to be shared between lists, as the problem states. `mergeTwoLists` relinks `next` pointers in place, so shared nodes or unsorted input would break the merge.
- MergeKLists.MergeTwoLists: the dummy node is dropped from the model's view; its `delete` (:34) is not modelled.
- AddTwoNumbers.AddTwoNumbers: the dummy node of `addTwoNumbers` is never freed in the C++; the model does not track memory.
- InsertGcd.InsertGcds: the `delete` of the dummy node (:33) is not modelled.

## Findings

| source | as written | input that shows it | evidently intended | confidence | as-written member | corrected member |
|---|---|---|---|---|---|---|
| LeetCode/0509_fibonacci_number.cpp:3 | the memo starts as {1, 1}, so fib(n) returns F(n + 1) | n = 0 returns 1 and n = 2 returns 2, where F(0) = 0 and F(2) = 1 | the memo starts as {0, 1}, so fib(n) returns F(n) | not executed | FibonacciNumber.AsWrittenFibZero | FibonacciNumber.CorrectedIsFibonacci |
| OOP_HW2_412410110.cpp:1415 | del_link looks up a default-constructed pair, (0, 0), and never uses its arguments | with a link (1, 2) present, del_link(1, 2) leaves it in place | del_link erases the link (_id1, _id2) | not executed | Simulator.DelLinkMissesTarget | Simulator.Simulation.DelLinkByIds |
