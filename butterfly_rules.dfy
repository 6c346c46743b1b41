/** The rules the controller application derives from its link and coordinate tables:
    which flow mods the greedy-routing and Bloom-filter join handlers build, as values of
    the builder's specification. */
module ButterflyRules {
  import opened Wrappers
  import opened Bytes
  import opened OpenFlow
  import opened FlowModSpec

  /** `app_type`: which join handler runs. */
  datatype AppType = MplsMulticast | NetworkCoding | GreedyRouting | BloomFilter

  /** `port_t`: a link to node `toNode` through local port `portNo`; `addr` is the link's
      Bloom identifier, or the Ethernet address of a host. */
  datatype Port = Port(toNode: uint32, portNo: uint32, addr: uint64)

  /** `coord_t`. */
  datatype Coord = Coord(x: uint32, y: uint32)

  /** `links_t` and `coord_map_t`. */
  type Links = map<uint32, seq<Port>>
  type Coords = map<uint32, Coord>

  /** The node a datapath joins as: its identifier converted to the uint32_t key type. */
  function NodeOf(dp: uint64): uint32
  {
    dp % UINT32_LIMIT
  }

  /** The actions array of a fresh action list after appending `acts`. */
  function Flat(acts: seq<Action>): (r: seq<Option<Action>>)
    ensures |r| == |acts|
  {
    seq(|acts|, i requires 0 <= i < |acts| => Some(acts[i]))
  }

  lemma FreshListIsFlat(acts: seq<Action>)
    requires acts != []
    ensures PushActions([None], acts) == Flat(acts)
  {
    FreshListFlattened(acts);
  }

  // ------------------------------------------------------------------
  // Greedy routing

  const METADATA_ALL: uint64 := UINT64_MAX
  const DISTANCE_MASK: uint64 := 0xFFFF_FFFF_FFFF_0000

  /** `greedy_coords[n]`: a node without coordinates reads as (0, 0). */
  function CoordOf(coords: Coords, n: uint32): Coord
  {
    if n in coords then coords[n] else Coord(0, 0)
  }

  /** The map after `greedy_coords[n]` for every neighbour n in l, in list order: a
      missing key is inserted with the value (0, 0). */
  function DefaultCoords(coords: Coords, l: seq<Port>): Coords
    decreases |l|
  {
    if l == [] then coords
    else
      var d := DefaultCoords(coords, l[..|l| - 1]);
      var n := l[|l| - 1].toNode;
      if n in d then d else d[n := Coord(0, 0)]
  }

  /** The reads add exactly the neighbours' keys, and every lookup reads as before. */
  lemma {:induction false} DefaultCoordsKeys(coords: Coords, l: seq<Port>, n: uint32)
    ensures n in DefaultCoords(coords, l) <==> n in coords || exists p :: p in l && p.toNode == n
    ensures n in DefaultCoords(coords, l) ==> DefaultCoords(coords, l)[n] == CoordOf(coords, n)
    decreases |l|
  {
    if l != [] {
      DefaultCoordsKeys(coords, l[..|l| - 1], n);
      assert forall p :: p in l <==> p in l[..|l| - 1] || p == l[|l| - 1];
    }
  }

  /** One more read: the map after the first i + 1 reads, and the coordinates the
      (i + 1)-th read returns. */
  lemma DefaultCoordsStep(coords: Coords, l: seq<Port>, i: nat)
    requires i < |l|
    ensures var d := DefaultCoords(coords, l[..i]);
            var n := l[i].toNode;
            DefaultCoords(coords, l[..i + 1]) == (if n in d then d else d[n := Coord(0, 0)]) &&
            DefaultCoords(coords, l[..i + 1])[n] == CoordOf(coords, n)
  {
    assert l[..i + 1][..i] == l[..i];
    assert l[..i + 1][i] == l[i];
    DefaultCoordsKeys(coords, l[..i + 1], l[i].toNode);
  }

  /** The distance-update action for one link. */
  function DistanceUpdate(coords: Coords, p: Port): Action
  {
    var c := CoordOf(coords, p.toNode);
    UpdateDistanceAction(c.x, c.y, p.portNo)
  }

  /** One distance update per link, in list order. */
  function DistanceUpdates(coords: Coords, l: seq<Port>): (r: seq<Action>)
    ensures |r| == |l|
    decreases |l|
  {
    if l == [] then [] else DistanceUpdates(coords, l[..|l| - 1]) + [DistanceUpdate(coords, l[|l| - 1])]
  }

  /** The flow mod after the loop over the links: one apply_actions call per link. */
  function GreedyHops(v: FlowModValue, coords: Coords, l: seq<Port>): (r: FlowModValue)
    requires ChainWellFormed(v)
    ensures ChainWellFormed(r) && r.fields == v.fields && r.stdMatch == v.stdMatch
    decreases |l|
  {
    if l == [] then v
    else WithActions(GreedyHops(v, coords, l[..|l| - 1]), OFPIT_APPLY_ACTIONS,
                     [DistanceUpdate(coords, l[|l| - 1])])
  }

  /** The loop over the links one pass further. */
  lemma GreedyHopsStep(v: FlowModValue, coords: Coords, l: seq<Port>, i: nat)
    requires ChainWellFormed(v) && i < |l|
    ensures GreedyHops(v, coords, l[..i + 1]) ==
            WithActions(GreedyHops(v, coords, l[..i]), OFPIT_APPLY_ACTIONS, [DistanceUpdate(coords, l[i])])
  {
    assert l[..i + 1][..i] == l[..i];
  }

  /** The first instruction of the greedy rule. */
  function GreedyStart(): (r: FlowModValue)
    ensures ChainWellFormed(r)
  {
    WithInstruction(NewFlowMod(), WriteMetadata(METADATA_ALL, METADATA_ALL))
  }

  /** The builder calls of the greedy handler for a node with links l, one by one. */
  function GreedyCalls(coords: Coords, l: seq<Port>): (r: FlowModValue)
    ensures ChainWellFormed(r)
  {
    var v := GreedyHops(GreedyStart(), coords, l);
    WithActions(WithInstruction(v, WriteMetadata(0, DISTANCE_MASK)), OFPIT_APPLY_ACTIONS,
                [Experimenter(OutputByMetadata)])
  }

  /** An apply_actions call on a chain whose tail is not an apply-actions instruction (or
      that is still empty) adds one instruction holding exactly the appended actions. */
  lemma ApplyOnOtherTail(c: seq<Option<Instruction>>, acts: seq<Action>)
    requires IsInstructionChain(c) && acts != []
    requires c[0].Some? ==> Last(c).value.Type() != OFPIT_APPLY_ACTIONS
    ensures ActionsCall(c, OFPIT_APPLY_ACTIONS, acts) ==
            (if c[0].None? then [] else c) + [Some(ApplyActions(Flat(acts)))]
  {
    ChainLength(c);
    RequestActionsShape(c, OFPIT_APPLY_ACTIONS);
    var r := RequestActions(c, OFPIT_APPLY_ACTIONS);
    if c[0].None? {
      assert r == [Some(ApplyActions([None]))];
    } else {
      assert r == c + [Some(ApplyActions([None]))];
    }
    FreshListIsFlat(acts);
  }

  /** An apply_actions call on a chain whose tail is an apply-actions instruction appends
      to that instruction's list. */
  lemma ApplyOnApplyTail(c: seq<Option<Instruction>>, xs: seq<Action>, ys: seq<Action>)
    requires IsInstructionChain(c) && c[0].Some? && xs != []
    requires Last(c) == Some(ApplyActions(Flat(xs)))
    ensures ActionsCall(c, OFPIT_APPLY_ACTIONS, ys) ==
            c[..|c| - 1] + [Some(ApplyActions(Flat(xs + ys)))]
  {
    RequestActionsShape(c, OFPIT_APPLY_ACTIONS);
    assert RequestActions(c, OFPIT_APPLY_ACTIONS) == c;
    FreshListIsFlat(xs);
    PushActionsConcat([None], xs, ys);
    FreshListIsFlat(xs + ys);
  }

  /** After the loop the chain is the first write-metadata followed, when there is a
      link, by one apply-actions instruction holding one distance update per link in
      list order: the per-link calls coalesce. */
  lemma {:induction false} HopsShape(v: FlowModValue, coords: Coords, l: seq<Port>)
    requires ChainWellFormed(v)
    requires ChainOf(v) == [Some(WriteMetadata(METADATA_ALL, METADATA_ALL))]
    ensures ChainOf(GreedyHops(v, coords, l)) ==
            ChainOf(v) + (if l == [] then [] else [Some(ApplyActions(Flat(DistanceUpdates(coords, l))))])
    decreases |l|
  {
    if l != [] {
      var init := l[..|l| - 1];
      var u := DistanceUpdate(coords, l[|l| - 1]);
      HopsShape(v, coords, init);
      var c := ChainOf(GreedyHops(v, coords, init));
      assert ChainOf(GreedyHops(v, coords, l)) == ActionsCall(c, OFPIT_APPLY_ACTIONS, [u]);
      if init == [] {
        assert c == ChainOf(v);
        ApplyOnOtherTail(c, [u]);
        assert DistanceUpdates(coords, l) == [u];
      } else {
        var us := DistanceUpdates(coords, init);
        assert c == ChainOf(v) + [Some(ApplyActions(Flat(us)))];
        ApplyOnApplyTail(c, us, [u]);
        assert c[..|c| - 1] == ChainOf(v);
      }
    }
  }

  lemma GreedyHopsShape(coords: Coords, l: seq<Port>)
    ensures ChainOf(GreedyHops(GreedyStart(), coords, l)) ==
            [Some(WriteMetadata(METADATA_ALL, METADATA_ALL))] +
            (if l == [] then [] else [Some(ApplyActions(Flat(DistanceUpdates(coords, l))))])
  {
    var v := GreedyStart();
    assert ChainOf(v) == [Some(WriteMetadata(METADATA_ALL, METADATA_ALL))];
    HopsShape(v, coords, l);
  }

  /** The single rule of the greedy handler for a node with links l: every field and the
      match as the constructor leaves them, then write-metadata(all ones, all ones), the
      distance updates in one apply-actions instruction (absent without links),
      write-metadata(0, 0xFFFFFFFFFFFF0000) and output by metadata. With links there are
      two apply-actions instructions, not one. */
  function GreedyRule(coords: Coords, l: seq<Port>): FlowModValue
  {
    NewFlowMod().(chain := Some(
      [Some(WriteMetadata(METADATA_ALL, METADATA_ALL))] +
      (if l == [] then [] else [Some(ApplyActions(Flat(DistanceUpdates(coords, l))))]) +
      [Some(WriteMetadata(0, DISTANCE_MASK)),
       Some(ApplyActions([Some(Experimenter(OutputByMetadata))]))]))
  }

  /** The handler's calls build that rule: the per-link apply_actions calls coalesce into
      one instruction, and the last one, after a write-metadata, does not. */
  lemma GreedyCallsMakeRule(coords: Coords, l: seq<Port>)
    ensures GreedyCalls(coords, l) == GreedyRule(coords, l)
  {
    GreedyHopsShape(coords, l);
    var v := GreedyHops(GreedyStart(), coords, l);
    var c := ChainOf(WithInstruction(v, WriteMetadata(0, DISTANCE_MASK)));
    assert c == ChainOf(v) + [Some(WriteMetadata(0, DISTANCE_MASK))];
    ApplyOnOtherTail(c, [Experimenter(OutputByMetadata)]);
    assert Flat([Experimenter(OutputByMetadata)]) == [Some(Experimenter(OutputByMetadata))];
    GreedyFieldsStay(coords, l);
    var r := GreedyCalls(coords, l);
    var hops := if l == [] then [] else [Some(ApplyActions(Flat(DistanceUpdates(coords, l))))];
    var wm, out := Some(WriteMetadata(0, DISTANCE_MASK)), Some(ApplyActions([Some(Experimenter(OutputByMetadata))]));
    assert ChainOf(r) == c + [out];
    assert c + [out] == [Some(WriteMetadata(METADATA_ALL, METADATA_ALL))] + hops + [wm, out];
    assert r.chain == Some(ChainOf(r));
    assert r.fields == NewFlowMod().fields && r.stdMatch == NewFlowMod().stdMatch;
  }

  lemma {:induction false} GreedyFieldsStay(coords: Coords, l: seq<Port>)
    ensures GreedyHops(GreedyStart(), coords, l).fields == NewFlowMod().fields
    ensures GreedyHops(GreedyStart(), coords, l).stdMatch == DefaultMatch()
    decreases |l|
  {
    if l != [] {
      GreedyFieldsStay(coords, l[..|l| - 1]);
    }
  }

  // ------------------------------------------------------------------
  // Bloom filters

  /** The table-0 rule: decrement the IPv4 TTL, then continue in table 1. */
  function BloomTableZero(): (r: FlowModValue)
    ensures ChainWellFormed(r)
  {
    var v := WithActions(WithTable(NewFlowMod(), 0), OFPIT_APPLY_ACTIONS, [DecNwTtl]);
    WithInstruction(v, GotoTable(1))
  }

  /** The `int` table number narrowed to the uint8_t table field. */
  function TableOf(tableId: int): uint8
  {
    tableId % 256
  }

  /** The actions of the first rule of `bloom_fill_table`: for a host link
      (eth_dst_addr != 0) the destination rewrite comes first, then the output. */
  function BloomActions(portNo: int32, ethDstAddr: uint64, ipDstAddr: uint32): (r: seq<Action>)
    ensures r != [] && Last(r) == OutputAction(portNo)
  {
    (if ethDstAddr != 0 then [SetEthDstAction(ethDstAddr), SetIpv4DstAction(ipDstAddr)] else []) +
    [OutputAction(portNo)]
  }

  /** The first rule of `bloom_fill_table`: in table table_id (an `int` narrowed to the
      uint8_t table field), match the Bloom identifier with mask ~bloom_addr, apply the
      rewrite (only for a host link) and the output, then go to the next table. */
  function BloomMatchRule(tableId: int, portNo: int32, bloomAddr: uint64, ethDstAddr: uint64,
                          ipDstAddr: uint32): (r: FlowModValue)
    ensures ChainWellFormed(r)
  {
    var v := WithHostRewrite(BloomMatchBase(tableId, bloomAddr), ethDstAddr, ipDstAddr);
    WithInstruction(WithActions(v, OFPIT_APPLY_ACTIONS, [OutputAction(portNo)]), GotoTable(TableOf(tableId + 1)))
  }

  /** The table and the match of the first rule of `bloom_fill_table`. */
  function BloomMatchBase(tableId: int, bloomAddr: uint64): (r: FlowModValue)
    ensures r.chain.None?
  {
    var v := WithTable(NewFlowMod(), TableOf(tableId));
    WithMatch(v, MatchEthDst(v.stdMatch, bloomAddr, Complement64(bloomAddr)))
  }

  /** The rewrite towards a host, present only when eth_dst_addr is not zero. */
  function WithHostRewrite(v: FlowModValue, ethDstAddr: uint64, ipDstAddr: uint32): (r: FlowModValue)
    requires ChainWellFormed(v)
    ensures ChainWellFormed(r)
  {
    if ethDstAddr != 0 then
      WithActions(v, OFPIT_APPLY_ACTIONS, [SetEthDstAction(ethDstAddr), SetIpv4DstAction(ipDstAddr)])
    else v
  }

  /** The second rule of `bloom_fill_table`: every other packet goes to the next table. */
  function BloomMissRule(tableId: int): (r: FlowModValue)
    ensures ChainWellFormed(r)
  {
    WithInstruction(WithTable(NewFlowMod(), TableOf(tableId)), GotoTable(TableOf(tableId + 1)))
  }

  /** `bloom_fill_table(table_id, port_no, bloom_addr, eth_dst_addr, ip_dst_addr)`. */
  function BloomFill(tableId: int, portNo: int32, bloomAddr: uint64, ethDstAddr: uint64,
                     ipDstAddr: uint32): (r: seq<FlowModValue>)
    ensures |r| == 2
  {
    [BloomMatchRule(tableId, portNo, bloomAddr, ethDstAddr, ipDstAddr), BloomMissRule(tableId)]
  }

  /** The first rule carries a single apply-actions instruction (the second apply_actions
      call merges into the first) followed by the goto. */
  lemma BloomMatchRuleShape(tableId: int, portNo: int32, bloomAddr: uint64, ethDstAddr: uint64,
                            ipDstAddr: uint32)
    ensures var r := BloomMatchRule(tableId, portNo, bloomAddr, ethDstAddr, ipDstAddr);
            r.fields.tableId == TableOf(tableId) &&
            r.stdMatch == MatchEthDst(DefaultMatch(), bloomAddr, Complement64(bloomAddr)) &&
            ChainOf(r) == [Some(ApplyActions(Flat(BloomActions(portNo, ethDstAddr, ipDstAddr)))),
                           Some(GotoTable(TableOf(tableId + 1)))]
  {
    var out := OutputAction(portNo);
    var acts := BloomActions(portNo, ethDstAddr, ipDstAddr);
    var c: seq<Option<Instruction>>;
    if ethDstAddr != 0 {
      var xs := [SetEthDstAction(ethDstAddr), SetIpv4DstAction(ipDstAddr)];
      ApplyOnOtherTail([None], xs);
      var c1 := ActionsCall([None], OFPIT_APPLY_ACTIONS, xs);
      assert c1 == [Some(ApplyActions(Flat(xs)))];
      ApplyOnApplyTail(c1, xs, [out]);
      c := ActionsCall(c1, OFPIT_APPLY_ACTIONS, [out]);
      assert acts == xs + [out];
    } else {
      ApplyOnOtherTail([None], [out]);
      c := ActionsCall([None], OFPIT_APPLY_ACTIONS, [out]);
      assert acts == [out];
    }
    assert c == [Some(ApplyActions(Flat(acts)))];
    assert AddInstruction(c, GotoTable(TableOf(tableId + 1))) == c + [Some(GotoTable(TableOf(tableId + 1)))];
  }

  /** The second rule matches everything and only goes to the next table. */
  lemma BloomMissRuleShape(tableId: int)
    ensures BloomMissRule(tableId).fields.tableId == TableOf(tableId)
    ensures BloomMissRule(tableId).stdMatch == DefaultMatch()
    ensures ChainOf(BloomMissRule(tableId)) == [Some(GotoTable(TableOf(tableId + 1)))]
  {
  }

  /** The destination rewrite for a link to `toNode`: only a neighbour with exactly one
      link of its own is a host, whose Ethernet address is that link's address and whose
      IPv4 address is 10.0.0.toNode (uint32_t arithmetic). */
  function HostEth(links: Links, toNode: uint32): uint64
  {
    if toNode in links && |links[toNode]| == 1 then links[toNode][0].addr else 0
  }

  function HostIp(links: Links, toNode: uint32): uint32
  {
    if toNode in links && |links[toNode]| == 1 then (0x0a00_0000 + toNode) % UINT32_LIMIT else 0
  }

  /** The map after `links[p.toNode]` for every link p of l, in list order: a missing
      neighbour is inserted with an empty list. */
  function WithNeighbours(links: Links, l: seq<Port>): Links
    decreases |l|
  {
    if l == [] then links
    else
      var d := WithNeighbours(links, l[..|l| - 1]);
      var n := l[|l| - 1].toNode;
      if n in d then d else d[n := []]
  }

  /** The lookups add exactly the neighbours' keys, each with an empty list, and change no
      list already present. */
  lemma {:induction false} WithNeighboursKeys(links: Links, l: seq<Port>, n: uint32)
    ensures n in WithNeighbours(links, l) <==> n in links || exists p :: p in l && p.toNode == n
    ensures n in WithNeighbours(links, l) ==>
              WithNeighbours(links, l)[n] == (if n in links then links[n] else [])
    decreases |l|
  {
    if l != [] {
      WithNeighboursKeys(links, l[..|l| - 1], n);
      assert forall p :: p in l <==> p in l[..|l| - 1] || p == l[|l| - 1];
    }
  }

  /** One more lookup: the map after the first i + 1 lookups. */
  lemma WithNeighboursStep(links: Links, l: seq<Port>, i: nat)
    requires i < |l|
    ensures var d := WithNeighbours(links, l[..i]);
            var n := l[i].toNode;
            WithNeighbours(links, l[..i + 1]) == (if n in d then d else d[n := []])
  {
    assert l[..i + 1][..i] == l[..i];
  }

  /** The inserted empty lists do not make a neighbour a host. */
  lemma WithNeighboursHosts(links: Links, l: seq<Port>, n: uint32)
    ensures HostEth(WithNeighbours(links, l), n) == HostEth(links, n)
    ensures HostIp(WithNeighbours(links, l), n) == HostIp(links, n)
  {
    WithNeighboursKeys(links, l, n);
  }

  /** The two rules `bloom_fill_table` adds for link p in table `tableId`. */
  function LinkRules(links: Links, p: Port, tableId: int): (r: seq<FlowModValue>)
    ensures |r| == 2
  {
    BloomFill(tableId, ToInt32(p.portNo), p.addr, HostEth(links, p.toNode), HostIp(links, p.toNode))
  }

  /** The per-link rule builder of the loop over the links. */
  function LinkRulesFor(links: Links): (Port, nat) -> seq<FlowModValue>
  {
    (p: Port, t: nat) => LinkRules(links, p, t)
  }

  /** The rules of the loop over the links: the i-th link (from 1) fills table i. */
  function BloomLinkRules(links: Links, l: seq<Port>): (r: seq<FlowModValue>)
    ensures |r| == 2 * |l|
  {
    BlocksLength(l, LinkRulesFor(links));
    Blocks(l, LinkRulesFor(links))
  }

  /** The concatenation of f(l[i], i + 1) over the list, in order. */
  function Blocks<T>(l: seq<Port>, f: (Port, nat) -> seq<T>): seq<T>
    decreases |l|
  {
    if l == [] then [] else Blocks(l[..|l| - 1], f) + f(l[|l| - 1], |l|)
  }

  lemma {:induction false} BlocksLength<T>(l: seq<Port>, f: (Port, nat) -> seq<T>)
    requires forall p: Port, t: nat :: |f(p, t)| == 2
    ensures |Blocks(l, f)| == 2 * |l|
    decreases |l|
  {
    if l != [] {
      BlocksLength(l[..|l| - 1], f);
    }
  }

  /** With blocks of two, the i-th element's block sits at 2i and 2i + 1. */
  lemma {:induction false} BlocksAt<T>(l: seq<Port>, f: (Port, nat) -> seq<T>, i: nat)
    requires forall p: Port, t: nat :: |f(p, t)| == 2
    requires i < |l|
    ensures |Blocks(l, f)| == 2 * |l|
    ensures Blocks(l, f)[2 * i] == f(l[i], i + 1)[0]
    ensures Blocks(l, f)[2 * i + 1] == f(l[i], i + 1)[1]
    decreases |l|
  {
    var init := l[..|l| - 1];
    BlocksLength(init, f);
    if i < |init| {
      BlocksAt(init, f, i);
      assert init[i] == l[i];
    }
  }

  function BloomRules(links: Links, l: seq<Port>): (r: seq<FlowModValue>)
  {
    [BloomTableZero()] + BloomLinkRules(links, l)
  }

  /** The loop over the links one pass further: the (i + 1)-th link adds the two rules of
      table i + 1. */
  lemma BloomLinkRulesStep(links: Links, l: seq<Port>, i: nat)
    requires i < |l|
    ensures BloomLinkRules(links, l[..i + 1]) == BloomLinkRules(links, l[..i]) + LinkRules(links, l[i], i + 1)
  {
    assert l[..i + 1][..i] == l[..i];
  }

  /** One rule for table 0 and two per link: 1 + 2n rules. */
  lemma BloomRuleCount(links: Links, l: seq<Port>)
    ensures |BloomRules(links, l)| == 1 + 2 * |l|
  {
  }

  /** The table-0 rule: apply [decrement IPv4 TTL], then goto table 1. */
  lemma BloomTableZeroShape()
    ensures BloomTableZero().fields.tableId == 0
    ensures ChainOf(BloomTableZero()) == [Some(ApplyActions([Some(DecNwTtl)])), Some(GotoTable(1))]
  {
    ApplyOnOtherTail([None], [DecNwTtl]);
    assert Flat([DecNwTtl]) == [Some(DecNwTtl)];
  }

  /** The rules of the i-th link (from 0) are those `bloom_fill_table` gives for table
      i + 1. */
  lemma BloomLinkRulesAt(links: Links, l: seq<Port>, i: nat)
    requires i < |l|
    ensures BloomLinkRules(links, l)[2 * i] == LinkRules(links, l[i], i + 1)[0]
    ensures BloomLinkRules(links, l)[2 * i + 1] == LinkRules(links, l[i], i + 1)[1]
  {
    BlocksAt(l, LinkRulesFor(links), i);
  }

  /** The two rules of one link, as `bloom_fill_table` builds them for table t. */
  lemma LinkRulesShape(links: Links, p: Port, t: int)
    ensures var r := LinkRules(links, p, t);
            r[0].fields.tableId == TableOf(t) && r[1].fields.tableId == TableOf(t) &&
            ChainOf(r[0]) == [Some(ApplyActions(Flat(BloomActions(ToInt32(p.portNo), HostEth(links, p.toNode), HostIp(links, p.toNode))))),
                              Some(GotoTable(TableOf(t + 1)))] &&
            ChainOf(r[1]) == [Some(GotoTable(TableOf(t + 1)))]
  {
    BloomMatchRuleShape(t, ToInt32(p.portNo), p.addr, HostEth(links, p.toNode), HostIp(links, p.toNode));
    BloomMissRuleShape(t);
  }

  lemma BloomLinkTables(links: Links, l: seq<Port>, i: nat)
    requires i < |l|
    ensures var r := BloomLinkRules(links, l);
            r[2 * i].fields.tableId == TableOf(i + 1) && r[2 * i + 1].fields.tableId == TableOf(i + 1) &&
            ChainOf(r[2 * i]) != [] && Last(ChainOf(r[2 * i])) == Some(GotoTable(TableOf(i + 2))) &&
            ChainOf(r[2 * i + 1]) == [Some(GotoTable(TableOf(i + 2)))]
  {
    BloomLinkRulesAt(links, l, i);
    LinkRulesShape(links, l[i], i + 1);
  }

  /** A link's actions rewrite the destination exactly when its neighbour has a single
      link of its own with a non-zero address; the rewrite targets that address and
      10.0.0.toNode (uint32_t arithmetic), and the packet then leaves through the port. */
  lemma HostRewrite(links: Links, toNode: uint32, portNo: int32)
    ensures var host := toNode in links && |links[toNode]| == 1 && links[toNode][0].addr != 0;
            BloomActions(portNo, HostEth(links, toNode), HostIp(links, toNode)) ==
            (if host then [SetEthDstAction(links[toNode][0].addr),
                           SetIpv4DstAction((0x0a00_0000 + toNode) % UINT32_LIMIT)] else []) +
            [OutputAction(portNo)]
  {
  }

  /** The first rule of the i-th link applies the rewrite (for a host neighbour) and the
      output in one apply-actions instruction. */
  lemma BloomHostRewrite(links: Links, l: seq<Port>, i: nat)
    requires i < |l|
    ensures var p := l[i];
            var host := p.toNode in links && |links[p.toNode]| == 1 && links[p.toNode][0].addr != 0;
            var acts := (if host then [SetEthDstAction(links[p.toNode][0].addr),
                                       SetIpv4DstAction((0x0a00_0000 + p.toNode) % UINT32_LIMIT)] else []) +
                        [OutputAction(ToInt32(p.portNo))];
            ChainOf(BloomLinkRules(links, l)[2 * i]) != [] &&
            ChainOf(BloomLinkRules(links, l)[2 * i])[0] == Some(ApplyActions(Flat(acts)))
  {
    BloomLinkRulesAt(links, l, i);
    LinkRulesShape(links, l[i], i + 1);
    HostRewrite(links, l[i].toNode, ToInt32(l[i].portNo));
  }
}
