# Butterfly OpenFlow controller, modelled in Dafny

This project models the core of the "butterfly" OpenFlow 1.1 experiment, which has three parts.

- **The flow-mod builder** (`butterfly_app/ofp_builder.cc`). `b_flow_mod` is a fluent
  builder for one flow-table modification.
  - It holds a standard match, a table and a priority.
  - Its instruction list (`b_instructions`) and action lists (`b_actions`) are linked
    chains that the builder extends in place.
  - A repeated apply-actions or write-actions call merges into the last instruction when
    that instruction has the same kind.
  - `build` flattens the chains, takes a fresh transaction id and hands the message to
    the packer.
- **The controller component** (`butterfly_app/butterfly_app.cc`). It reads its mode, its
  link table and its greedy coordinates from the component arguments. When a datapath
  joins, it sends that switch either the greedy-routing rule or the Bloom-filter tables.
- **The Mininet front end** (`butterfly_app/butterfly.py`).
  - MAC text helpers: `format_mac`, `mac_addr_to_hex`, `get_id`, `get_mac_from_route`
    and `get_greedy_mac`.
  - `is_switch`.
  - The topology that `ButterflyTopo.__init__` loads from the link and coordinate tables.

Modules, in dependency order:

- `Wrappers`: `Option`.
- `Bytes`: fixed-width integers, byte orders, `htonl` and `hton_48`.
- `OpenFlow`: the OpenFlow 1.1 constants, match, actions, instructions and the flow-mod
  message.
- `FlowModSpec`: what each builder call does to the value of a flow mod, and the
  properties of those functions.
- `OfpBuilder`: the builder classes.
  - `ActionList` and `InstructionList` keep a chain of nodes as a sequence field, plus the
    index of the last node.
  - `FlowMod` owns the match, the fields and an optional instruction list.
  - `XidCounter` is the static transaction-id counter.
- `ButterflyRules`: the rules the join handlers send, as values.
- `ButterflyApp`: the component as the class `App`, whose fields are the mode, the current
  datapath, the link and coordinate maps, and the channel of sent commands.
- `Bits`: Python's `|` on unbounded integers.
- `HexText`: `'%.Nx'`, `int(s, base)`, the twelve-character `re.sub` and colon removal.
- `Butterfly`: the `butterfly.py` helpers.
- `Topology`: `ButterflyTopo`, a class whose constructor runs the loading steps as methods.

Assumptions and abstractions:

- The controller runs on a little-endian host. `htonl`, `hton_48` and the `memcpy` of
  host integers are written out byte by byte.
- The OpenFlow packer is a function parameter. When it rejects a message, the process
  exits; the model records this as the `Exited` outcome, and the channel stops sending.
- Sending a command appends (datapath, message, wire bytes) to the channel.
- The configuration files and CSV tables arrive as sequences of parsed records.

Where the specification and the code disagree, the model follows the code:

- **Coordinate bytes.** `update_distance_in_metadata` copies the low three bytes of each
  host-order coordinate. For (1, 2) the field is `01 00 00 02 00 00`, least significant
  byte first, not the big-endian `00 00 01 00 00 02`. `get_greedy_mac` writes the host
  MAC in the same reversed order, so the two sides agree.
- **Coalescing.** Only a call directly on an instruction of the same kind merges. The
  greedy rule therefore carries two apply-actions instructions, separated by a
  write-metadata.
- **Packer errors.** `b_flow_mod::build` calls `exit(0)` on a packer error instead of
  returning the error.

The topology loader adds an edge only from its smaller endpoint, and only when that
endpoint lists the neighbour. So a link recorded only under its larger node id never
becomes an edge (`Topology.TopoEdges` states exactly which edges are added).

## Model

| member | source | states |
|---|---|---|
| Bytes.Hton48Bytes | butterfly_app/ofp_builder.cc:78-82 | the six low bytes of `hton_48(addr)` in memory are addr's low 48 bits in network (big-endian) order |
| Bytes.HtonlBytes | butterfly_app/ofp_builder.cc:135-145 | the four bytes of `htonl(v)` in memory are v in network order |
| Bytes.ToInt32 | butterfly_app/butterfly_app.cc:517-530 | a 32-bit port number passed as `int`: equal to it modulo 2^32, and non-negative exactly when it is below 2^31 |
| Bytes.Complement64 | butterfly_app/butterfly_app.cc:476 | `~bloom_addr` on 64 bits: value plus complement is 2^64 - 1 |
| OfpBuilder.ActionList.constructor | butterfly_app/ofp_builder.cc:373-376 | a new action list is a single empty head node |
| OfpBuilder.ActionList.New | butterfly_app/ofp_builder.cc:379-388 | an empty head is reused; otherwise one empty node is added at the end; the returned index is the new last node |
| OfpBuilder.ActionList.Output | butterfly_app/ofp_builder.cc:391-402 | the chain becomes the old chain with an output action pushed (appended to the actions, by FlowModSpec.PushActionIsAppend); the same list is returned |
| OfpBuilder.ActionList.SetMplsLabel | butterfly_app/ofp_builder.cc:405-415 | pushes a set-MPLS-label action with that label |
| OfpBuilder.ActionList.DecrementMplsTtl | butterfly_app/ofp_builder.cc:418-427 | pushes a decrement-MPLS-TTL action |
| OfpBuilder.ActionList.DecrementIpv4Ttl | butterfly_app/ofp_builder.cc:430-439 | pushes a decrement-IP-TTL action |
| OfpBuilder.ActionList.SetFieldFromMetadata | butterfly_app/ofp_builder.cc:442-455 | pushes the experimenter action with field and offset |
| OfpBuilder.ActionList.SetMetadataFromPacket | butterfly_app/ofp_builder.cc:458-471 | pushes the experimenter action with field and offset |
| OfpBuilder.ActionList.SetMetadataFromCounter | butterfly_app/ofp_builder.cc:474-486 | pushes the experimenter action with the counter bound |
| OfpBuilder.ActionList.SetMplsLabelFromCounter | butterfly_app/ofp_builder.cc:489-500 | pushes the experimenter action that labels from the counter |
| OfpBuilder.ActionList.PushMplsHeader | butterfly_app/ofp_builder.cc:503-513 | pushes a push-MPLS action with the MPLS ethertype |
| OfpBuilder.ActionList.PopMplsHeader | butterfly_app/ofp_builder.cc:516-527 | pushes a pop-MPLS action with the given ethertype (IP by default) |
| OfpBuilder.ActionList.SetEthDst | butterfly_app/ofp_builder.cc:530-542 | pushes a set-field action whose Ethernet address is `hton_48(addr)` (bytes by FlowModSpec.SetEthDstBytes) |
| OfpBuilder.ActionList.SetIpv4Destination | butterfly_app/ofp_builder.cc:545-556 | pushes a set-IPv4-destination action with that address |
| OfpBuilder.ActionList.OutputByMetadata | butterfly_app/ofp_builder.cc:559-571 | pushes the output-by-metadata experimenter action |
| OfpBuilder.ActionList.XorEncode | butterfly_app/ofp_builder.cc:574-587 | pushes the XOR-encode experimenter action with both labels |
| OfpBuilder.ActionList.XorDecode | butterfly_app/ofp_builder.cc:590-603 | pushes the XOR-decode experimenter action with both labels |
| OfpBuilder.ActionList.UpdateDistanceInMetadata | butterfly_app/ofp_builder.cc:606-622 | pushes the update-distance action with the port and the coordinate bytes (FlowModSpec.CoordinateBytesOrder) |
| OfpBuilder.ActionList.Serialize | butterfly_app/ofp_builder.cc:625-639 | pushes the serialize experimenter action with label and timeout |
| OfpBuilder.ActionList.GetNum | butterfly_app/ofp_builder.cc:648-655 | the number of nodes: 1 for a list with an empty head, otherwise the number of actions |
| OfpBuilder.ActionList.Build | butterfly_app/ofp_builder.cc:658-669 | a fresh array holding the chain's nodes in order |
| OfpBuilder.InstructionList.constructor | butterfly_app/ofp_builder.cc:235-238 | a new instruction list is a single empty head node that owns no action list |
| OfpBuilder.InstructionList.New | butterfly_app/ofp_builder.cc:241-255 | the returned node: the empty head, else the last node when an apply- or write-actions request matches its kind, else one new node at the end |
| OfpBuilder.InstructionList.GotoTable | butterfly_app/ofp_builder.cc:258-269 | the instruction value gains a goto-table instruction at the end (FlowModSpec.AddInstructionAppends) |
| OfpBuilder.InstructionList.WriteMetadata | butterfly_app/ofp_builder.cc:272-283 | the instruction value gains a write-metadata instruction at the end |
| OfpBuilder.InstructionList.ApplyActions | butterfly_app/ofp_builder.cc:286-303 | the value becomes the apply-actions request of the old value; the returned list is the last node's list; it is a fresh list exactly when a new instruction was made |
| OfpBuilder.InstructionList.WriteActions | butterfly_app/ofp_builder.cc:306-323 | the same for write-actions |
| OfpBuilder.InstructionList.GetNum | butterfly_app/ofp_builder.cc:332-339 | the number of nodes: 1 with an empty head, otherwise the number of instructions |
| OfpBuilder.InstructionList.Build | butterfly_app/ofp_builder.cc:342-362 | a fresh array holding the instruction chain, each actions instruction carrying its list's actions |
| OfpBuilder.XidCounter.GetNewXid | butterfly_app/ofp_builder.hh:64-70 | pre-increment of the shared 32-bit counter, wrapping at 2^32; returns the new value |
| OfpBuilder.FlowMod.constructor | butterfly_app/ofp_builder.cc:84-105 | a new flow mod has the default fields and an all-wildcard match, no instruction list and an empty buffer |
| OfpBuilder.FlowMod.Table | butterfly_app/ofp_builder.cc:108-113 | only the table id changes |
| OfpBuilder.FlowMod.Priority | butterfly_app/ofp_builder.cc:116-121 | only the priority changes |
| OfpBuilder.FlowMod.MatchMplsLabel | butterfly_app/ofp_builder.cc:124-132 | only the match changes, to the MPLS-label match of the old one |
| OfpBuilder.FlowMod.MatchSrc | butterfly_app/ofp_builder.cc:135-145 | only the match changes, to the UDP/IP source match of the old one |
| OfpBuilder.FlowMod.MatchDst | butterfly_app/ofp_builder.cc:148-158 | only the match changes, to the UDP/IP destination match of the old one |
| OfpBuilder.FlowMod.MatchEthDst | butterfly_app/ofp_builder.cc:161-170 | only the Ethernet destination and its mask change |
| OfpBuilder.FlowMod.MatchMetadata | butterfly_app/ofp_builder.cc:173-179 | only the metadata and its mask change |
| OfpBuilder.FlowMod.Instructions | butterfly_app/ofp_builder.cc:182-188 | the instruction list is created once and then reused; the instructions are unchanged |
| OfpBuilder.FlowMod.WriteMetadata | butterfly_app/ofp_builder.cc:191-194 | appends a write-metadata instruction; match and fields unchanged |
| OfpBuilder.FlowMod.ApplyActions | butterfly_app/ofp_builder.cc:197-200 | the chain becomes the apply-actions request; the returned list is its last instruction's list |
| OfpBuilder.FlowMod.WriteActions | butterfly_app/ofp_builder.cc:203-206 | the same for write-actions |
| OfpBuilder.FlowMod.Build | butterfly_app/ofp_builder.cc:209-225 | takes the next xid and packs the message with it; a packed message is stored in the buffer, and a packer failure is the `Exited` outcome with the buffer untouched |
| FlowModSpec.DefaultMatchWellFormed | butterfly_app/ofp_builder.cc:97-105 | the default match is well formed: every wildcarded field is zero and the Ethernet fields are six bytes |
| FlowModSpec.MatchMplsLabelWellFormed | butterfly_app/ofp_builder.cc:124-132 | matching an MPLS label keeps a match well formed |
| FlowModSpec.MatchSrcWellFormed | butterfly_app/ofp_builder.cc:135-145 | matching a source address keeps a match well formed |
| FlowModSpec.MatchDstWellFormed | butterfly_app/ofp_builder.cc:148-158 | matching a destination address keeps a match well formed |
| FlowModSpec.MatchEthDstWellFormed | butterfly_app/ofp_builder.cc:161-170 | matching an Ethernet destination keeps a match well formed |
| FlowModSpec.MatchMetadataWellFormed | butterfly_app/ofp_builder.cc:173-179 | matching metadata keeps a match well formed |
| FlowModSpec.MatchMplsLabelWildcards | butterfly_app/ofp_builder.cc:124-132 | a field is wildcarded afterwards iff it was before and is neither the ethertype nor the MPLS label |
| FlowModSpec.MatchSrcWildcards | butterfly_app/ofp_builder.cc:135-145 | a field is wildcarded afterwards iff it was before and is neither the ethertype nor the IP protocol |
| FlowModSpec.MatchDstWildcards | butterfly_app/ofp_builder.cc:148-158 | the same for the destination match |
| FlowModSpec.MatchAddressLastWriteWins | butterfly_app/ofp_builder.cc:135-158 | matching a source (destination) twice equals matching only the second address |
| FlowModSpec.MatchSrcNetworkOrder | butterfly_app/ofp_builder.cc:135-158 | the stored source and destination addresses lie in memory in network byte order |
| FlowModSpec.MatchEthDstBytes | butterfly_app/ofp_builder.cc:161-170 | the stored Ethernet address and mask are the low 48 bits in network order; the wildcards are not touched |
| FlowModSpec.ChainLength | butterfly_app/ofp_builder.cc:332-339 | a chain has one node when its head is empty and otherwise one node per filled entry; the head is empty iff nothing is filled |
| FlowModSpec.PushActionIsAppend | butterfly_app/ofp_builder.cc:379-402 | pushing an action keeps a valid chain and appends that action to the list's actions |
| FlowModSpec.ActionsInCallOrder | butterfly_app/ofp_builder.cc:379-388 | pushing a sequence of actions appends them in call order |
| FlowModSpec.PushActionsConcat | butterfly_app/ofp_builder.cc:379-388 | pushing xs and then ys equals pushing xs + ys |
| FlowModSpec.FreshListFlattened | butterfly_app/ofp_builder.cc:658-669 | a fresh list after n > 0 pushes builds to exactly those actions; with none it builds to one empty node |
| FlowModSpec.RequestActionsShape | butterfly_app/ofp_builder.cc:241-303 | an actions request reuses the chain when its last instruction has that kind; otherwise it appends one empty instruction of that kind; either way the request ends the chain |
| FlowModSpec.AddInstructionAppends | butterfly_app/ofp_builder.cc:258-283 | goto-table and write-metadata always append one instruction |
| FlowModSpec.ActionsCallsCoalesce | butterfly_app/ofp_builder.cc:241-303 | two consecutive actions calls of one kind equal a single call with the actions concatenated |
| FlowModSpec.ActionsCallOnOtherTail | butterfly_app/ofp_builder.cc:241-303 | after an instruction of another kind, an actions call adds one instruction holding exactly the pushed actions and keeps the earlier ones |
| FlowModSpec.NewFlowModDefaults | butterfly_app/ofp_builder.cc:84-105 | a new flow mod is well formed and, built without instructions, carries no instructions |
| FlowModSpec.SetEthDstBytes | butterfly_app/ofp_builder.cc:530-542 | the set-field address is the low 48 bits of addr in network order |
| FlowModSpec.CoordinateBytesOrder | butterfly_app/ofp_builder.cc:606-622 | for coordinates below 2^24 the six bytes are each coordinate's three bytes, least significant first, and read back to x and y |
| FlowModSpec.CoordinateBytesExample | butterfly_app/ofp_builder.cc:606-622 | coordinates (1, 2) give the bytes 1, 0, 0, 2, 0, 0 |
| FlowModSpec.XidsCount | butterfly_app/ofp_builder.hh:64-70 | without wrap-around the k-th id taken after xid is xid + k + 1 |
| FlowModSpec.XidsIncrease | butterfly_app/ofp_builder.hh:64-70 | from a fresh counter, ids strictly increase and the first is 1 |
| ButterflyRules.DefaultCoordsKeys | butterfly_app/butterfly_app.cc:452 | reading neighbours' coordinates adds exactly their keys, and each reads as before or (0, 0) |
| ButterflyRules.GreedyHopsShape | butterfly_app/butterfly_app.cc:444-459 | after the first write-metadata, the per-link apply-actions calls leave a single apply-actions instruction holding one distance update per link, in link order, or nothing when there are no links |
| ButterflyRules.GreedyCallsMakeRule | butterfly_app/butterfly_app.cc:444-461 | the handler's calls build the greedy rule: write-metadata all ones, the distance updates, write-metadata 0 under mask 0xFFFFFFFFFFFF0000, then apply output-by-metadata |
| ButterflyRules.GreedyFieldsStay | butterfly_app/butterfly_app.cc:444-461 | the greedy rule keeps the default table, priority and match |
| ButterflyRules.BloomMatchRuleShape | butterfly_app/butterfly_app.cc:474-482 | the matching rule of a Bloom table: in table t, match Ethernet destination bloom_addr under mask ~bloom_addr, apply the rewrite (if any) and the output, then go to table t + 1 |
| ButterflyRules.BloomMissRuleShape | butterfly_app/butterfly_app.cc:484-487 | the fall-through rule of table t matches everything and goes to table t + 1 |
| ButterflyRules.BloomTableZeroShape | butterfly_app/butterfly_app.cc:505-509 | table 0 decrements the IP TTL and goes to table 1 |
| ButterflyRules.BloomRuleCount | butterfly_app/butterfly_app.cc:505-531 | a node with n links is sent 1 + 2n rules |
| ButterflyRules.BloomLinkRulesAt | butterfly_app/butterfly_app.cc:513-531 | the i-th link gives rules 2i and 2i + 1, filled for table i + 1 |
| ButterflyRules.LinkRulesShape | butterfly_app/butterfly_app.cc:514-530 | both rules of a link are in its table; the first rewrites to the neighbour host and outputs on the link's port, and both go to the next table |
| ButterflyRules.BloomLinkTables | butterfly_app/butterfly_app.cc:513-531 | the rules of the i-th link are in table i + 1 and end by going to table i + 2 |
| ButterflyRules.HostRewrite | butterfly_app/butterfly_app.cc:522-528 | the rewrite happens iff the neighbour has exactly one link with a nonzero address; it sets that address and IP 10.0.0.id, before the output |
| ButterflyRules.BloomHostRewrite | butterfly_app/butterfly_app.cc:514-530 | the first instruction of the i-th link's matching rule applies exactly that rewrite and output |
| ButterflyRules.WithNeighboursKeys | butterfly_app/butterfly_app.cc:524 | looking up the neighbours' lists adds exactly their keys, each with an empty list, and keeps existing entries |
| ButterflyApp.NewGreedyRule | butterfly_app/butterfly_app.cc:444-461 | the builder calls of the greedy handler produce the greedy rule and the defaulted coordinate map |
| ButterflyApp.NewBloomMatchRule | butterfly_app/butterfly_app.cc:474-482 | the first flow mod of `bloom_fill_table` is the Bloom matching rule |
| ButterflyApp.NewBloomMissRule | butterfly_app/butterfly_app.cc:484-487 | the second flow mod of `bloom_fill_table` is the fall-through rule |
| ButterflyApp.NewBloomTableZeroRule | butterfly_app/butterfly_app.cc:505-509 | the table-0 flow mod of the Bloom handler |
| ButterflyApp.SendRulesProgress | butterfly_app/butterfly_app.cc:63-69 | sending n rules sends all n with n fresh xids, or stops at the first rule the packer rejects, with one xid used for it; earlier commands are kept |
| ButterflyApp.SendRulesCommand | butterfly_app/butterfly_app.cc:63-69 | the i-th command sent goes to the datapath with the i-th rule, under the (i + 1)-th xid, as the packer encodes it |
| ButterflyApp.ModeAfterLastWord | butterfly_app/butterfly_app.cc:557-573 | the mode is set by the last of "nc", "greedy" and "bloom" among the arguments, and is unchanged when none occurs |
| ButterflyApp.AddLinksPorts | butterfly_app/butterfly_app.cc:583-602 | each nonzero source id gets its records' ports appended in file order; id 0 is never added |
| ButterflyApp.AddLinksConcat | butterfly_app/butterfly_app.cc:574-603 | reading two link files in turn equals reading their concatenation |
| ButterflyApp.AddCoordsLastWins | butterfly_app/butterfly_app.cc:612-623 | a node's coordinates are those of its last record |
| ButterflyApp.AddCoordsOthers | butterfly_app/butterfly_app.cc:612-623 | nodes without records, and node 0, keep their entries |
| ButterflyApp.AddCoordsConcat | butterfly_app/butterfly_app.cc:612-623 | reading two coordinate files in turn equals reading their concatenation |
| ButterflyApp.CoordsAfterRecords | butterfly_app/butterfly_app.cc:604-624 | the coordinate map after configuration is the old map plus the records of every readable `coords=` file, in argument order, so a later file overrides an earlier one and nodes no file names keep their entries |
| ButterflyApp.LinksAfterRecords | butterfly_app/butterfly_app.cc:574-603 | the link map after configuration is the old map plus the records of every readable `links=` file, in argument order |
| ButterflyApp.App.constructor | butterfly_app/butterfly_app.hh:67-69 | the component starts in MPLS-multicast mode with no links, no coordinates and nothing sent |
| ButterflyApp.App.Send | butterfly_app/butterfly_app.cc:63-69 | `b_send`: builds the flow mod and sends it to the current datapath; configuration unchanged |
| ButterflyApp.App.BloomFillTable | butterfly_app/butterfly_app.cc:467-488 | sends the matching rule and then the fall-through rule of the table |
| ButterflyApp.App.GreedyJoin | butterfly_app/butterfly_app.cc:427-465 | records the datapath; an unknown node sends nothing; a known node reads its neighbours' coordinates and sends the greedy rule for its links |
| ButterflyApp.App.BloomJoin | butterfly_app/butterfly_app.cc:490-534 | records the datapath; an unknown node sends nothing; a known node sends table 0 and two rules per link, and gains an empty entry for each neighbour it lacked |
| ButterflyApp.App.BloomLinks | butterfly_app/butterfly_app.cc:511-531 | the loop over the links sends the link rules of tables 1..n and inserts the missing neighbours |
| ButterflyApp.App.DatapathJoin | butterfly_app/butterfly_app.cc:536-549 | dispatch on the mode: the greedy and Bloom handlers as above; the other two record the datapath and leave the link and coordinate maps unchanged |
| ButterflyApp.App.Configure | butterfly_app/butterfly_app.cc:551-626 | the mode, link map and coordinate map after the arguments; the datapath and the channel unchanged |
| ButterflyApp.App.AddLinkRecords | butterfly_app/butterfly_app.cc:583-602 | one `links=` file's records are added to the link map; nothing else changes |
| ButterflyApp.App.AddCoordRecords | butterfly_app/butterfly_app.cc:612-623 | one `coords=` file's records are added to the coordinate map; nothing else changes |
| Bits.OrBit | butterfly_app/butterfly.py:233 | bit k of a \| b is set iff it is set in a or in b, on all integers including negative ones |
| Bits.OrCommutes | butterfly_app/butterfly.py:233 | \| is commutative |
| Bits.OrAssociates | butterfly_app/butterfly.py:233 | \| is associative |
| Bits.OrIdempotent | butterfly_app/butterfly.py:233 | a \| a == a |
| Bits.OrZero | butterfly_app/butterfly.py:230-233 | 0 is the unit of \| |
| HexText.ParseDigits | butterfly_app/butterfly.py:219-221 | `int(s, base)` reads every non-empty string of lower-case digits of the base, and the number it yields prints back, zero-padded to the same width, as s |
| HexText.RemoveColons | butterfly_app/butterfly.py:220 | the result has no colon |
| HexText.ParseSigned | butterfly_app/butterfly.py:219-226 | reading back the text `'%x'` writes gives the number back, negatives included |
| HexText.HexFormatFixed | butterfly_app/butterfly.py:223-226 | `'%.12x'` of a number below 16^12 is exactly twelve digits |
| HexText.RemoveColonsSubstitute | butterfly_app/butterfly.py:219-226 | inserting colons with the pair template and removing them gives the text back, after colon removal |
| HexText.FixedDigitsBytes | butterfly_app/butterfly.py:223-226 | 2k hex digits of n are the two-digit texts of n's k big-endian bytes |
| Butterfly.MacAddrRoundTrip | butterfly_app/butterfly.py:219-226 | `mac_addr_to_hex(format_mac(n)) == n` for every integer n |
| Butterfly.FormatMacBytes | butterfly_app/butterfly.py:223-226 | for n below 2^48, `format_mac(n)` is the colon form of n's six big-endian bytes |
| Butterfly.MacOfBytesShape | butterfly_app/butterfly.py:223-226 | the colon form of six bytes has 17 characters: colons exactly at positions 2, 5, ..., 14 and hex digits elsewhere |
| Butterfly.StripHs | butterfly_app/butterfly.py:206-208 | `re.sub('[hs]', '', s)` leaves no h or s |
| Butterfly.GetIdOfNames | butterfly_app/butterfly.py:204-217 | for names like `h3` and `s12`, the Bloom id of the link between those ids, or twelve zeros for an unknown link |
| Butterfly.GetIdOfBadName | butterfly_app/butterfly.py:209-217 | a name that is not a number after stripping makes both ends 0 |
| Butterfly.UnknownIdIsZero | butterfly_app/butterfly.py:213-217 | the unknown-link id reads as 0, which leaves the OR unchanged |
| Butterfly.HopsAreZip | butterfly_app/butterfly.py:231 | the hops of a sub-route are exactly the pairs Python's `zip(r[:-1], r[1:])` yields, which stops at the shorter list and yields nothing for a route of fewer than two nodes |
| Butterfly.GetMacFromRoute | butterfly_app/butterfly.py:228-240 | the loop returns the formatted OR of the ids of all hops, or fails when some hop's id is not hex |
| Butterfly.RouteMacMeaning | butterfly_app/butterfly.py:228-240 | the route MAC fails iff some hop's id does not read; otherwise bit k is set iff some hop's id has bit k |
| Butterfly.RouteMacSameHops | butterfly_app/butterfly.py:228-240 | the MAC depends only on the set of hops, not on their order or repetition |
| Butterfly.RouteMacUnknownHop | butterfly_app/butterfly.py:213-233 | a hop over an unknown link does not change the MAC |
| Butterfly.GreedyMacBytes | butterfly_app/butterfly.py:246-251 | for coordinates below 2^24, `get_greedy_mac` is the colon form of the six coordinate bytes the controller's distance update carries |
| Butterfly.ReorderedPairs | butterfly_app/butterfly.py:249-250 | the template `\3:\2:\1:\6:\5:\4` reverses the byte order within each coordinate |
| Butterfly.GreedyMacExample | butterfly_app/butterfly.py:246-251 | coordinates (1, 2) give `01:00:00:02:00:00` |
| Topology.EdgesDbOfKeys | butterfly_app/butterfly.py:415-427 | a node is in `edges_db` iff some row starts at it, and a neighbour is under it iff some row links the two |
| Topology.EdgesDbOfLast | butterfly_app/butterfly.py:415-427 | a link's address is that of the last row for the pair |
| Topology.CoordsOfKeys | butterfly_app/butterfly.py:448-456 | a node has coordinates iff some row names it |
| Topology.CoordsOfLast | butterfly_app/butterfly.py:448-456 | a node's coordinates are those of its last row |
| Topology.SortedKeys | butterfly_app/butterfly.py:429-431 | the sorted key list is strictly increasing and holds exactly the keys |
| Topology.IncreasingUnique | butterfly_app/butterfly.py:429-431 | two strictly increasing lists with the same elements are equal, so the sort is determined |
| Topology.TopoNodes | butterfly_app/butterfly.py:429-435 | one node per key of `edges_db`, in increasing id order, flagged as a switch iff `is_switch` holds for it |
| Topology.EdgesOfMember | butterfly_app/butterfly.py:437-443 | an edge is added from the listed nodes iff its first end is listed, the second is its neighbour, and the first is smaller |
| Topology.TopoEdges | butterfly_app/butterfly.py:437-443 | the edges are exactly the pairs (a, b) with b a neighbour of a and a < b, and no edge is added twice in either direction |
| Topology.ButterflyTopo.constructor | butterfly_app/butterfly.py:409-456 | the loaded `edges_db`, the nodes, the edges and the coordinates are those of the two tables |
| Topology.ButterflyTopo.LoadLinks | butterfly_app/butterfly.py:415-427 | the read loop builds `edges_db` from the rows; nothing else changes |
| Topology.ButterflyTopo.AddNodes | butterfly_app/butterfly.py:429-435 | the node loop adds one node per id, in order, with its switch flag |
| Topology.ButterflyTopo.AddEdges | butterfly_app/butterfly.py:437-443 | the edge loop adds, for each id in order, its edges to larger neighbours |
| Topology.ButterflyTopo.AddEdgesFrom | butterfly_app/butterfly.py:439-443 | the inner loop adds an edge for each larger neighbour, in neighbour order |
| Topology.ButterflyTopo.LoadCoords | butterfly_app/butterfly.py:448-456 | the read loop builds the coordinate dictionary from the rows |

## Left out

- ButterflyApp.App.DatapathJoin: `general_join_handler` and `network_coding_join_handler` only record the datapath here. Their hard-coded per-switch MPLS and network-coding tables are fixed call sequences on the builder; modelling them would add no property beyond the builder's own contracts.
- The `default` branch of `datapath_join_handler` cannot be reached, because the mode is a closed datatype.
- The binary layout of the packed message is not modelled. `ofl_msg_pack` and `get_ofl_exp` live in the OpenFlow library, which is not part of this model. The packer is a function parameter, so any encoding is allowed.
- The BME experimenter identifier and sub-type numbers are defined in a header that is not part of this model. Experimenter actions carry their kind as a constructor, not a number.
- `end()` on instruction and action lists only returns the parent pointer. Callers in the model keep their handles instead.
- The destructors and `delete` only free memory. Garbage collection makes them unnecessary.
- Logging (`lg`, `info`, the `print_info` output of `get_mac_from_route`) has no effect on state.
- `install` and `getInstance` are component-framework registration.
- `send_openflow_command` is a foreign call. It is modelled as appending to a channel.
- File and CSV input are modelled as record sequences. This covers the `ifstream` parsing in `configure` (including its partial-line quirks), Python's `csv.reader`, `int()` and `strip()`. A `links=` or `coords=` file that cannot be opened yields no records, and rows whose id reads as 0 are skipped, as in the source.
- HexText.ParseInt: accepts an optional sign followed by digits only. It does not accept the surrounding whitespace, underscores or `0x` prefix that Python's `int()` also takes. The texts it reads in this program never contain them.
- Python exceptions become `None`: the `ValueError` of `int()`, and the `KeyError` of a missing node in `get_greedy_mac`.
- `Butterfly.IsSwitch` and `Butterfly.GetGreedyMac` have no separate rows. Their properties are stated by `Topology.TopoNodes` and `Butterfly.GreedyMacBytes`.
- Mininet plumbing is not modelled: `add_node` and `add_edge` become the `nodes` and `edges` sequences, and `Node` objects become their switch flag. `enable_all` and `Topo.__init__` have no counterpart. The command-line interface, the shell commands and the rest of `butterfly.py` are outside this model.
- The controller is assumed to run on a little-endian host.
