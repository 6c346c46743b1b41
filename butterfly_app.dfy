/** The controller component (`butterfly_app`): its state, the flow mods its join handlers
    build and send, and `configure`. The switch connection is modelled as a channel that
    records every packed command in order; the packer is a parameter that may fail, and a
    failure ends the process, after which nothing more is sent. */
module ButterflyApp {
  import opened Wrappers
  import opened Bytes
  import opened OpenFlow
  import opened FlowModSpec
  import opened OfpBuilder
  import opened ButterflyRules

  // ------------------------------------------------------------------
  // The channel to the switches

  /** A packed flow mod sent to datapath `dp`. */
  datatype Command = Command(dp: uint64, msg: Message, wire: seq<byte>)

  /** The commands sent so far, whether the process has exited, and the class-wide xid. */
  datatype Channel = Channel(sent: seq<Command>, halted: bool, xid: uint32)

  /** `b_send` of a flow mod of value v: build it with the next xid and send it to dp; a
      packer error ends the process. Once the process has ended nothing happens. */
  function SendRule(ch: Channel, dp: uint64, v: FlowModValue, pack: Message -> Option<seq<byte>>): Channel
  {
    if ch.halted then ch
    else
      var x := NextXid(ch.xid);
      var msg := ToMessage(v, x);
      match pack(msg)
      case None => Channel(ch.sent, true, x)
      case Some(wire) => Channel(ch.sent + [Command(dp, msg, wire)], false, x)
  }

  /** `b_send` of each flow mod of vs, in order. */
  function SendRules(ch: Channel, dp: uint64, vs: seq<FlowModValue>, pack: Message -> Option<seq<byte>>): Channel
    decreases |vs|
  {
    if vs == [] then ch else SendRule(SendRules(ch, dp, vs[..|vs| - 1], pack), dp, vs[|vs| - 1], pack)
  }

  /** Sending two rules is sending the first, then the second. */
  lemma SendTwoRules(ch: Channel, dp: uint64, a: FlowModValue, b: FlowModValue,
                     pack: Message -> Option<seq<byte>>)
    ensures SendRules(ch, dp, [a, b], pack) == SendRule(SendRule(ch, dp, a, pack), dp, b, pack)
  {
    assert SendRules(ch, dp, [a], pack) == SendRule(ch, dp, a, pack) by {
      assert [a][..0] == [];
    }
    assert [a, b][..1] == [a];
  }

  /** Sending a + b is sending a, then b. */
  lemma {:induction false} SendRulesConcat(ch: Channel, dp: uint64, a: seq<FlowModValue>, b: seq<FlowModValue>,
                                           pack: Message -> Option<seq<byte>>)
    ensures SendRules(ch, dp, a + b, pack) == SendRules(SendRules(ch, dp, a, pack), dp, b, pack)
    decreases |b|
  {
    if b != [] {
      SendRulesConcat(ch, dp, a, b[..|b| - 1], pack);
      assert (a + b)[..|a + b| - 1] == a + b[..|b| - 1];
      assert (a + b)[|a + b| - 1] == b[|b| - 1];
    } else {
      assert a + b == a;
    }
  }

  /** Sending the rules of the first i + 1 links is sending those of the first i, then the
      two rules that fill table i + 1 for link i. */
  lemma BloomLinkSent(ch: Channel, dp: uint64, links: Links, l: seq<Port>, i: nat,
                      pack: Message -> Option<seq<byte>>)
    requires i < |l|
    ensures SendRules(ch, dp, BloomLinkRules(links, l[..i + 1]), pack) ==
            SendRules(SendRules(ch, dp, BloomLinkRules(links, l[..i]), pack), dp,
                      BloomFill(i + 1, ToInt32(l[i].portNo), l[i].addr, HostEth(links, l[i].toNode), HostIp(links, l[i].toNode)), pack)
  {
    BloomLinkRulesStep(links, l, i);
    SendRulesConcat(ch, dp, BloomLinkRules(links, l[..i]), LinkRules(links, l[i], i + 1), pack);
  }

  /** The xid the counter holds k draws after x. */
  function XidAfter(x: uint32, k: nat): uint32
  {
    (x + k) % UINT32_LIMIT
  }

  lemma NextXidAfter(x: uint32, k: nat)
    ensures NextXid(XidAfter(x, k)) == XidAfter(x, k + 1)
  {
  }

  /** A run of sends stops at the first packer error: without one every flow mod is sent
      and the counter advanced once per flow mod; with one, the flow mods before it were
      sent and the failing one drew the last xid. */
  lemma {:induction false} SendRulesProgress(ch: Channel, dp: uint64, vs: seq<FlowModValue>,
                                             pack: Message -> Option<seq<byte>>)
    requires !ch.halted
    ensures var out := SendRules(ch, dp, vs, pack);
            var n := |out.sent| - |ch.sent|;
            0 <= n <= |vs| && out.sent[..|ch.sent|] == ch.sent &&
            (!out.halted ==> n == |vs| && out.xid == XidAfter(ch.xid, |vs|)) &&
            (out.halted ==> n < |vs| && out.xid == XidAfter(ch.xid, n + 1) &&
                            pack(ToMessage(vs[n], out.xid)) == None)
    decreases |vs|
  {
    if vs != [] {
      var init := vs[..|vs| - 1];
      SendRulesProgress(ch, dp, init, pack);
      var mid := SendRules(ch, dp, init, pack);
      if mid.halted {
        assert vs[|mid.sent| - |ch.sent|] == init[|mid.sent| - |ch.sent|];
      } else {
        NextXidAfter(ch.xid, |init|);
        var out := SendRules(ch, dp, vs, pack);
        assert out.sent[..|mid.sent|] == mid.sent;
      }
    } else {
      assert XidAfter(ch.xid, 0) == ch.xid;
    }
  }

  /** The i-th command of a run of sends carries the i-th flow mod with xid old + i + 1, and
      the bytes the packer produced for that message. */
  lemma {:induction false} SendRulesCommand(ch: Channel, dp: uint64, vs: seq<FlowModValue>,
                                            pack: Message -> Option<seq<byte>>, i: nat)
    requires !ch.halted && |ch.sent| + i < |SendRules(ch, dp, vs, pack).sent|
    ensures i < |vs|
    ensures var c := SendRules(ch, dp, vs, pack).sent[|ch.sent| + i];
            var msg := ToMessage(vs[i], XidAfter(ch.xid, i + 1));
            c.dp == dp && c.msg == msg && pack(msg) == Some(c.wire)
    decreases |vs|
  {
    SendRulesProgress(ch, dp, vs, pack);
    var init := vs[..|vs| - 1];
    var mid := SendRules(ch, dp, init, pack);
    SendRulesProgress(ch, dp, init, pack);
    if |ch.sent| + i < |mid.sent| {
      SendRulesCommand(ch, dp, init, pack, i);
      assert vs[i] == init[i];
    } else {
      NextXidAfter(ch.xid, |init|);
    }
  }

  // ------------------------------------------------------------------
  // configure

  /** A parsed line of a links file: `from_id, to_id, port_no, addr`. */
  datatype LinkRecord = LinkRecord(fromId: uint32, port: Port)

  /** A parsed line of a coordinates file: `node_id, x, y`. */
  datatype CoordRecord = CoordRecord(nodeId: uint32, coord: Coord)

  /** The mode after one argument: "nc", "greedy" and "bloom" select a handler, anything
      else leaves the mode. */
  function ModeWord(mode: AppType, arg: string): AppType
  {
    if arg == "nc" then NetworkCoding
    else if arg == "greedy" then GreedyRouting
    else if arg == "bloom" then BloomFilter
    else mode
  }

  predicate IsModeWord(arg: string)
  {
    arg == "nc" || arg == "greedy" || arg == "bloom"
  }

  function ModeAfter(mode: AppType, args: seq<string>): AppType
    decreases |args|
  {
    if args == [] then mode else ModeWord(ModeAfter(mode, args[..|args| - 1]), args[|args| - 1])
  }

  /** The mode is the one the last mode word names, or the old one without a mode word. */
  lemma {:induction false} ModeAfterLastWord(mode: AppType, args: seq<string>)
    ensures (forall i :: 0 <= i < |args| ==> !IsModeWord(args[i])) ==> ModeAfter(mode, args) == mode
    ensures forall i :: 0 <= i < |args| && IsModeWord(args[i]) &&
                        (forall j :: i < j < |args| ==> !IsModeWord(args[j])) ==>
              ModeAfter(mode, args) == ModeWord(mode, args[i])
    decreases |args|
  {
    if args != [] {
      var init := args[..|args| - 1];
      ModeAfterLastWord(mode, init);
      forall i | 0 <= i < |args| && IsModeWord(args[i]) && (forall j :: i < j < |args| ==> !IsModeWord(args[j]))
        ensures ModeAfter(mode, args) == ModeWord(mode, args[i])
      {
        if i < |init| {
          assert init[i] == args[i];
          assert forall j :: i < j < |init| ==> init[j] == args[j];
        }
      }
      if forall i :: 0 <= i < |args| ==> !IsModeWord(args[i]) {
        assert forall i :: 0 <= i < |init| ==> init[i] == args[i];
      }
    }
  }

  /** The list of node n, empty for a node without one. */
  function PortsOf(links: Links, n: uint32): seq<Port>
  {
    if n in links then links[n] else []
  }

  /** The records of a links file, in order: a record with from_id 0 is skipped, every
      other one is appended to its node's list. */
  function AddLinks(links: Links, recs: seq<LinkRecord>): Links
    decreases |recs|
  {
    if recs == [] then links
    else
      var d := AddLinks(links, recs[..|recs| - 1]);
      var r := recs[|recs| - 1];
      if r.fromId == 0 then d else d[r.fromId := PortsOf(d, r.fromId) + [r.port]]
  }

  /** The ports of the records from node n, in record order. */
  function PortsFrom(recs: seq<LinkRecord>, n: uint32): seq<Port>
    decreases |recs|
  {
    if recs == [] then []
    else PortsFrom(recs[..|recs| - 1], n) +
         (if recs[|recs| - 1].fromId == n then [recs[|recs| - 1].port] else [])
  }

  /** After the records, node n != 0 has its old list followed by its records' ports in
      order, and is known exactly when it was known or has a record; node 0 is untouched. */
  lemma {:induction false} AddLinksPorts(links: Links, recs: seq<LinkRecord>, n: uint32)
    ensures n != 0 ==> PortsOf(AddLinks(links, recs), n) == PortsOf(links, n) + PortsFrom(recs, n)
    ensures n != 0 ==> (n in AddLinks(links, recs) <==>
                        n in links || exists i :: 0 <= i < |recs| && recs[i].fromId == n)
    ensures n == 0 ==> (n in AddLinks(links, recs) <==> n in links) &&
                       PortsOf(AddLinks(links, recs), n) == PortsOf(links, n)
    decreases |recs|
  {
    if recs != [] {
      var init := recs[..|recs| - 1];
      AddLinksPorts(links, init, n);
      if exists i :: 0 <= i < |init| && init[i].fromId == n {
        var i :| 0 <= i < |init| && init[i].fromId == n;
        assert recs[i] == init[i];
      }
      if exists i :: 0 <= i < |recs| && recs[i].fromId == n {
        var i :| 0 <= i < |recs| && recs[i].fromId == n;
        if i < |init| {
          assert init[i] == recs[i];
        }
      }
    }
  }

  /** Records of two files accumulate as one run. */
  lemma {:induction false} AddLinksConcat(links: Links, a: seq<LinkRecord>, b: seq<LinkRecord>)
    ensures AddLinks(links, a + b) == AddLinks(AddLinks(links, a), b)
    decreases |b|
  {
    if b != [] {
      AddLinksConcat(links, a, b[..|b| - 1]);
      assert (a + b)[..|a + b| - 1] == a + b[..|b| - 1];
      assert (a + b)[|a + b| - 1] == b[|b| - 1];
    } else {
      assert a + b == a;
    }
  }

  /** The records of a coordinates file: a record with node_id 0 is skipped, every other
      one sets its node's coordinates. */
  function AddCoords(coords: Coords, recs: seq<CoordRecord>): Coords
    decreases |recs|
  {
    if recs == [] then coords
    else
      var d := AddCoords(coords, recs[..|recs| - 1]);
      var r := recs[|recs| - 1];
      if r.nodeId == 0 then d else d[r.nodeId := r.coord]
  }

  /** Records of two files accumulate as one run. */
  lemma {:induction false} AddCoordsConcat(coords: Coords, a: seq<CoordRecord>, b: seq<CoordRecord>)
    ensures AddCoords(coords, a + b) == AddCoords(AddCoords(coords, a), b)
    decreases |b|
  {
    if b != [] {
      AddCoordsConcat(coords, a, b[..|b| - 1]);
      assert (a + b)[..|a + b| - 1] == a + b[..|b| - 1];
      assert (a + b)[|a + b| - 1] == b[|b| - 1];
    } else {
      assert a + b == a;
    }
  }

  /** The last record of a node wins. */
  lemma {:induction false} AddCoordsLastWins(coords: Coords, recs: seq<CoordRecord>, i: nat)
    requires i < |recs| && recs[i].nodeId != 0
    requires forall j :: i < j < |recs| ==> recs[j].nodeId != recs[i].nodeId
    ensures recs[i].nodeId in AddCoords(coords, recs)
    ensures AddCoords(coords, recs)[recs[i].nodeId] == recs[i].coord
    decreases |recs|
  {
    var init := recs[..|recs| - 1];
    if i < |init| {
      assert init[i] == recs[i];
      assert forall j :: i < j < |init| ==> init[j] == recs[j];
      AddCoordsLastWins(coords, init, i);
    }
  }

  /** A node without a record keeps its entry, or its absence. */
  lemma {:induction false} AddCoordsOthers(coords: Coords, recs: seq<CoordRecord>, n: uint32)
    requires n == 0 || forall i :: 0 <= i < |recs| ==> recs[i].nodeId != n
    ensures n in AddCoords(coords, recs) <==> n in coords
    ensures n in coords ==> AddCoords(coords, recs)[n] == coords[n]
    decreases |recs|
  {
    if recs != [] {
      var init := recs[..|recs| - 1];
      assert forall i :: 0 <= i < |init| ==> init[i] == recs[i];
      AddCoordsOthers(coords, init, n);
    }
  }

  /** `strncmp(arg, prefix, |prefix|) == 0`. */
  predicate HasPrefix(arg: string, prefix: string)
  {
    |prefix| <= |arg| && arg[..|prefix|] == prefix
  }

  /** The links after all arguments: every "links=<path>" argument whose file opens adds
      that file's records. */
  function LinksAfter(links: Links, args: seq<string>, readLinks: string -> Option<seq<LinkRecord>>): Links
    decreases |args|
  {
    if args == [] then links
    else
      var d := LinksAfter(links, args[..|args| - 1], readLinks);
      var arg := args[|args| - 1];
      if !IsModeWord(arg) && HasPrefix(arg, "links=") && readLinks(arg[6..]).Some? then
        AddLinks(d, readLinks(arg[6..]).value)
      else d
  }

  /** Every record of every links file, in argument order. */
  function LinkRecordsOf(args: seq<string>, readLinks: string -> Option<seq<LinkRecord>>): seq<LinkRecord>
    decreases |args|
  {
    if args == [] then []
    else
      var arg := args[|args| - 1];
      LinkRecordsOf(args[..|args| - 1], readLinks) +
      (if !IsModeWord(arg) && HasPrefix(arg, "links=") && readLinks(arg[6..]).Some? then
         readLinks(arg[6..]).value else [])
  }

  /** The files accumulate as one run of records, so a node's list is its records from all
      files in argument order. */
  lemma {:induction false} LinksAfterRecords(links: Links, args: seq<string>, readLinks: string -> Option<seq<LinkRecord>>)
    ensures LinksAfter(links, args, readLinks) == AddLinks(links, LinkRecordsOf(args, readLinks))
    decreases |args|
  {
    if args != [] {
      var init := args[..|args| - 1];
      LinksAfterRecords(links, init, readLinks);
      var arg := args[|args| - 1];
      if !IsModeWord(arg) && HasPrefix(arg, "links=") && readLinks(arg[6..]).Some? {
        AddLinksConcat(links, LinkRecordsOf(init, readLinks), readLinks(arg[6..]).value);
      } else {
        assert LinkRecordsOf(args, readLinks) == LinkRecordsOf(init, readLinks) + [];
        assert LinkRecordsOf(args, readLinks) == LinkRecordsOf(init, readLinks);
      }
    }
  }

  /** The coordinates after all arguments: every "coords=<path>" argument whose file opens
      applies that file's records. */
  function CoordsAfter(coords: Coords, args: seq<string>, readCoords: string -> Option<seq<CoordRecord>>): Coords
    decreases |args|
  {
    if args == [] then coords
    else
      var d := CoordsAfter(coords, args[..|args| - 1], readCoords);
      var arg := args[|args| - 1];
      if !IsModeWord(arg) && HasPrefix(arg, "coords=") && readCoords(arg[7..]).Some? then
        AddCoords(d, readCoords(arg[7..]).value)
      else d
  }

  /** Every record of every coordinates file, in argument order. */
  function CoordRecordsOf(args: seq<string>, readCoords: string -> Option<seq<CoordRecord>>): seq<CoordRecord>
    decreases |args|
  {
    if args == [] then []
    else
      var arg := args[|args| - 1];
      CoordRecordsOf(args[..|args| - 1], readCoords) +
      (if !IsModeWord(arg) && HasPrefix(arg, "coords=") && readCoords(arg[7..]).Some? then
         readCoords(arg[7..]).value else [])
  }

  /** The files accumulate as one run of records, so a later file overrides an earlier one
      and a node no file names keeps its entry (AddCoordsLastWins, AddCoordsOthers). */
  lemma {:induction false} CoordsAfterRecords(coords: Coords, args: seq<string>,
                                              readCoords: string -> Option<seq<CoordRecord>>)
    ensures CoordsAfter(coords, args, readCoords) == AddCoords(coords, CoordRecordsOf(args, readCoords))
    decreases |args|
  {
    if args != [] {
      var init := args[..|args| - 1];
      CoordsAfterRecords(coords, init, readCoords);
      var arg := args[|args| - 1];
      if !IsModeWord(arg) && HasPrefix(arg, "coords=") && readCoords(arg[7..]).Some? {
        AddCoordsConcat(coords, CoordRecordsOf(init, readCoords), readCoords(arg[7..]).value);
      } else {
        assert CoordRecordsOf(args, readCoords) == CoordRecordsOf(init, readCoords) + [];
        assert CoordRecordsOf(args, readCoords) == CoordRecordsOf(init, readCoords);
      }
    }
  }

  // ------------------------------------------------------------------
  // The component

  /** The handler `datapath_join_handler` runs for a mode. */
  datatype Handler = GeneralHandler | NetworkCodingHandler | GreedyHandler | BloomHandler

  function HandlerFor(mode: AppType): Handler
  {
    match mode
    case MplsMulticast => GeneralHandler
    case NetworkCoding => NetworkCodingHandler
    case GreedyRouting => GreedyHandler
    case BloomFilter => BloomHandler
  }

  class App {
    var appType: AppType
    var dpId: uint64
    var links: Links
    var greedyCoords: Coords
    var sent: seq<Command>
    var halted: bool
    const counter: XidCounter
    const pack: Message -> Option<seq<byte>>

    ghost function Chan(): Channel
      reads this, counter
    {
      Channel(sent, halted, counter.xid)
    }

    /** The component starts in MPLS multicast mode with empty tables. */
    constructor (counter: XidCounter, pack: Message -> Option<seq<byte>>)
      ensures appType == MplsMulticast && links == map[] && greedyCoords == map[]
      ensures sent == [] && !halted && this.counter == counter && this.pack == pack
    {
      appType := MplsMulticast;
      dpId := 0;
      links := map[];
      greedyCoords := map[];
      sent := [];
      halted := false;
      this.counter := counter;
      this.pack := pack;
    }

    /** `b_send`: build the flow mod and send it to the current datapath. */
    method Send(b: FlowMod)
      requires b.Valid()
      modifies this, b, counter
      ensures Chan() == SendRule(old(Chan()), dpId, old(b.Value()), pack)
      ensures appType == old(appType) && dpId == old(dpId)
      ensures links == old(links) && greedyCoords == old(greedyCoords)
    {
      if halted {
        return;
      }
      var r := b.Build(counter, pack);
      match r
      case Exited =>
        halted := true;
      case Packed(msg, wire) =>
        sent := sent + [Command(dpId, msg, wire)];
    }

    /** `bloom_fill_table`: the match rule and the miss rule of one table. */
    method BloomFillTable(tableId: int, portNo: int32, bloomAddr: uint64,
                          ethDstAddr: uint64 := 0, ipDstAddr: uint32 := 0)
      modifies this, counter
      ensures Chan() == SendRules(old(Chan()), dpId, BloomFill(tableId, portNo, bloomAddr, ethDstAddr, ipDstAddr), pack)
      ensures appType == old(appType) && dpId == old(dpId)
      ensures links == old(links) && greedyCoords == old(greedyCoords)
    {
      ghost var ch := Chan();
      var b := NewBloomMatchRule(tableId, portNo, bloomAddr, ethDstAddr, ipDstAddr);
      Send(b);
      b := NewBloomMissRule(tableId);
      Send(b);
      SendTwoRules(ch, dpId, BloomMatchRule(tableId, portNo, bloomAddr, ethDstAddr, ipDstAddr),
                   BloomMissRule(tableId), pack);
    }

    /** What `greedy_routing_join_handler` leaves behind for datapath dp: dp is the
        current datapath; an unknown node changes nothing else; a known node has read its
        neighbours' coordinates (inserting (0, 0) for a missing one) and sent one rule. */
    twostate predicate GreedyJoined(dp: uint64)
      reads this, counter
    {
      dpId == dp && appType == old(appType) && links == old(links) &&
      (NodeOf(dp) !in links ==> greedyCoords == old(greedyCoords) && Chan() == old(Chan())) &&
      (NodeOf(dp) in links ==>
         greedyCoords == DefaultCoords(old(greedyCoords), links[NodeOf(dp)]) &&
         Chan() == SendRule(old(Chan()), dp, GreedyRule(old(greedyCoords), links[NodeOf(dp)]), pack))
    }

    /** What `bloom_filter_join_handler` leaves behind for datapath dp: dp is the current
        datapath; an unknown node changes nothing else; a known node has looked up every
        neighbour (inserting an empty list for a missing one) and sent the table-0 rule and
        two rules per link. */
    twostate predicate BloomJoined(dp: uint64)
      reads this, counter
    {
      dpId == dp && appType == old(appType) && greedyCoords == old(greedyCoords) &&
      (NodeOf(dp) !in old(links) ==> links == old(links) && Chan() == old(Chan())) &&
      (NodeOf(dp) in old(links) ==>
         links == WithNeighbours(old(links), old(links)[NodeOf(dp)]) &&
         Chan() == SendRules(old(Chan()), dp, BloomRules(old(links), old(links)[NodeOf(dp)]), pack))
    }

    /** `greedy_routing_join_handler`: for a known node, one rule that starts the metadata
        at all ones, keeps the least distance over the links (reading each neighbour's
        coordinates, (0, 0) for a neighbour without any) and outputs by metadata; an
        unknown datapath only becomes the current one. */
    method GreedyJoin(dp: uint64)
      modifies this, counter
      ensures GreedyJoined(dp)
    {
      dpId := dp;
      var node := NodeOf(dp);
      if node !in links {
        return;
      }
      var l := links[node];
      var b;
      b, greedyCoords := NewGreedyRule(greedyCoords, l);
      Send(b);
    }

    /** `bloom_filter_join_handler`: for a known node, the table-0 rule, then the two rules
        of table i for the i-th link; an unknown datapath only becomes the current one. */
    method BloomJoin(dp: uint64)
      modifies this, counter
      ensures BloomJoined(dp)
    {
      dpId := dp;
      var node := NodeOf(dp);
      if node !in links {
        return;
      }
      ghost var ch := Chan();
      var b := NewBloomTableZeroRule();
      Send(b);
      var l := links[node];
      BloomLinks(l);
      SendRulesConcat(ch, dp, [BloomTableZero()], BloomLinkRules(old(links), l), pack);
      assert SendRules(ch, dp, [BloomTableZero()], pack) == SendRule(ch, dp, BloomTableZero(), pack) by {
        assert [BloomTableZero()][..0] == [];
      }
    }

    /** The loop over the links of `bloom_filter_join_handler`: the i-th link (from 1)
        looks its neighbour up, which inserts an empty list for a missing one, and fills
        table i, with the rewrite towards the neighbour when the neighbour has exactly one
        link. */
    method BloomLinks(l: seq<Port>)
      modifies this, counter
      ensures appType == old(appType) && dpId == old(dpId) && greedyCoords == old(greedyCoords)
      ensures links == WithNeighbours(old(links), l)
      ensures Chan() == SendRules(old(Chan()), dpId, BloomLinkRules(old(links), l), pack)
    {
      ghost var links0 := links;
      var numLinks := 0;
      var i := 0;
      while i < |l|
        invariant 0 <= i <= |l| && numLinks == i
        invariant appType == old(appType) && dpId == old(dpId) && greedyCoords == old(greedyCoords)
        invariant links == WithNeighbours(links0, l[..i])
        invariant Chan() == SendRules(old(Chan()), dpId, BloomLinkRules(links0, l[..i]), pack)
      {
        numLinks := numLinks + 1;
        BloomLink(links0, old(Chan()), l, i, numLinks);
        i := i + 1;
      }
      assert l[..i] == l;
    }

    /** One pass of the loop over the links: link i (from 0) fills table numLinks = i + 1. */
    method BloomLink(ghost links0: Links, ghost ch: Channel, l: seq<Port>, i: nat, numLinks: int)
      requires i < |l| && numLinks == i + 1
      requires links == WithNeighbours(links0, l[..i])
      requires Chan() == SendRules(ch, dpId, BloomLinkRules(links0, l[..i]), pack)
      modifies this, counter
      ensures appType == old(appType) && dpId == old(dpId) && greedyCoords == old(greedyCoords)
      ensures links == WithNeighbours(links0, l[..i + 1])
      ensures Chan() == SendRules(ch, dpId, BloomLinkRules(links0, l[..i + 1]), pack)
    {
      var p := l[i];
      BloomLinkSent(ch, dpId, links0, l, i, pack);
      var hostEth, hostIp := VisitNeighbour(links0, l, i);
      BloomFillTable(numLinks, ToInt32(p.portNo), p.addr, hostEth, hostIp);
    }

    /** The `links[p.to_node]` lookup of link i, which inserts an empty list for a neighbour
        without links, and the host rewrite it gives. */
    method VisitNeighbour(ghost links0: Links, l: seq<Port>, i: nat) returns (hostEth: uint64, hostIp: uint32)
      requires i < |l| && links == WithNeighbours(links0, l[..i])
      modifies this
      ensures links == WithNeighbours(links0, l[..i + 1])
      ensures hostEth == HostEth(links0, l[i].toNode) && hostIp == HostIp(links0, l[i].toNode)
      ensures appType == old(appType) && dpId == old(dpId) && greedyCoords == old(greedyCoords)
      ensures sent == old(sent) && halted == old(halted)
    {
      var p := l[i];
      WithNeighboursStep(links0, l, i);
      var ls: Links := links;
      if p.toNode !in ls {
        ls := ls[p.toNode := []];
      }
      hostEth, hostIp := BloomHost(links0, l, i, ls);
      links := ls;
    }

    /** The host rewrite of link i: the neighbour's only link's address and 10.0.0.0 plus
        the neighbour's id when the neighbour has exactly one link, zero otherwise. */
    static method BloomHost(ghost links0: Links, l: seq<Port>, i: nat, links: Links) returns (hostEth: uint64, hostIp: uint32)
      requires i < |l| && links == WithNeighbours(links0, l[..i + 1])
      ensures hostEth == HostEth(links0, l[i].toNode) && hostIp == HostIp(links0, l[i].toNode)
    {
      var p := l[i];
      WithNeighboursHosts(links0, l[..i + 1], p.toNode);
      WithNeighboursKeys(links0, l[..i + 1], p.toNode);
      hostEth, hostIp := 0, 0;
      var lTo := links[p.toNode];
      if |lTo| == 1 {
        hostEth := lTo[0].addr;
        hostIp := (0x0a00_0000 + p.toNode) % UINT32_LIMIT;
      }
    }

    /** `datapath_join_handler`: the handler of the current mode runs. The MPLS multicast
        and network-coding handlers send hard-coded tables that are not part of this model;
        here they only make dp the current datapath. */
    method DatapathJoin(dp: uint64) returns (h: Handler)
      modifies this, counter
      ensures h == HandlerFor(old(appType)) && appType == old(appType)
      ensures h == GreedyHandler ==> GreedyJoined(dp)
      ensures h == BloomHandler ==> BloomJoined(dp)
      ensures h == GeneralHandler || h == NetworkCodingHandler ==> dpId == dp
      ensures h == GeneralHandler || h == NetworkCodingHandler ==>
                links == old(links) && greedyCoords == old(greedyCoords)
    {
      h := HandlerFor(appType);
      match appType
      case MplsMulticast =>
        dpId := dp;
      case NetworkCoding =>
        dpId := dp;
      case GreedyRouting =>
        GreedyJoin(dp);
      case BloomFilter =>
        BloomJoin(dp);
    }

    /** `configure`: the arguments in order. "nc", "greedy" and "bloom" select the mode;
        "links=<path>" appends the records of a file that opens, "coords=<path>" applies
        them. The files are read by the `readLinks` / `readCoords` parameters, `None` for a
        file that does not open. */
    method Configure(args: seq<string>, readLinks: string -> Option<seq<LinkRecord>>,
                     readCoords: string -> Option<seq<CoordRecord>>)
      modifies this
      ensures appType == ModeAfter(old(appType), args)
      ensures links == LinksAfter(old(links), args, readLinks)
      ensures greedyCoords == CoordsAfter(old(greedyCoords), args, readCoords)
      ensures dpId == old(dpId) && sent == old(sent) && halted == old(halted)
    {
      var i := 0;
      while i < |args|
        invariant 0 <= i <= |args|
        invariant appType == ModeAfter(old(appType), args[..i])
        invariant links == LinksAfter(old(links), args[..i], readLinks)
        invariant greedyCoords == CoordsAfter(old(greedyCoords), args[..i], readCoords)
        invariant dpId == old(dpId) && sent == old(sent) && halted == old(halted)
      {
        var arg := args[i];
        assert args[..i + 1][..i] == args[..i];
        if arg == "nc" {
          appType := NetworkCoding;
        } else if arg == "greedy" {
          appType := GreedyRouting;
        } else if arg == "bloom" {
          appType := BloomFilter;
        } else {
          if HasPrefix(arg, "links=") {
            var recs := readLinks(arg[6..]);
            if recs.Some? {
              AddLinkRecords(recs.value);
            }
          }
          if HasPrefix(arg, "coords=") {
            var recs := readCoords(arg[7..]);
            if recs.Some? {
              AddCoordRecords(recs.value);
            }
          }
        }
        i := i + 1;
      }
      assert args[..i] == args;
    }

    /** The record loop of a links file: a record with from_id 0 is skipped, every other
        one is appended to its node's list (a new list for a new node). */
    method AddLinkRecords(recs: seq<LinkRecord>)
      modifies this
      ensures links == AddLinks(old(links), recs)
      ensures appType == old(appType) && greedyCoords == old(greedyCoords)
      ensures dpId == old(dpId) && sent == old(sent) && halted == old(halted)
    {
      var j := 0;
      while j < |recs|
        invariant 0 <= j <= |recs|
        invariant links == AddLinks(old(links), recs[..j])
        invariant appType == old(appType) && greedyCoords == old(greedyCoords)
        invariant dpId == old(dpId) && sent == old(sent) && halted == old(halted)
      {
        var r := recs[j];
        assert recs[..j + 1][..j] == recs[..j];
        if r.fromId != 0 {
          var l: seq<Port>;
          if r.fromId in links {
            l := links[r.fromId];
          } else {
            l := [];
          }
          l := l + [r.port];
          links := links[r.fromId := l];
        }
        j := j + 1;
      }
      assert recs[..j] == recs;
    }

    /** The record loop of a coordinates file: a record with node_id 0 is skipped, every
        other one sets its node's coordinates. */
    method AddCoordRecords(recs: seq<CoordRecord>)
      modifies this
      ensures greedyCoords == AddCoords(old(greedyCoords), recs)
      ensures appType == old(appType) && links == old(links)
      ensures dpId == old(dpId) && sent == old(sent) && halted == old(halted)
    {
      var j := 0;
      while j < |recs|
        invariant 0 <= j <= |recs|
        invariant greedyCoords == AddCoords(old(greedyCoords), recs[..j])
        invariant appType == old(appType) && links == old(links)
        invariant dpId == old(dpId) && sent == old(sent) && halted == old(halted)
      {
        var r := recs[j];
        assert recs[..j + 1][..j] == recs[..j];
        if r.nodeId != 0 {
          greedyCoords := greedyCoords[r.nodeId := r.coord];
        }
        j := j + 1;
      }
      assert recs[..j] == recs;
    }
  }

  /** The rule of `greedy_routing_join_handler` for a node with links l: the metadata
      starts at all ones, one distance update per link in list order, each with the
      coordinates `greedy_coords[to_node]` reads (a missing neighbour is inserted at
      (0, 0)), then the masked reset and the output by metadata. Returns the rule and the
      coordinate map after the reads. */
  method NewGreedyRule(coords: Coords, l: seq<Port>) returns (b: FlowMod, coords': Coords)
    ensures fresh(b) && b.Valid() && b.Value() == GreedyRule(coords, l)
    ensures coords' == DefaultCoords(coords, l)
  {
    b := new FlowMod();
    var il := b.WriteMetadata(METADATA_ALL, METADATA_ALL);
    coords' := AddDistanceUpdates(b, coords, l);
    il := b.WriteMetadata(0, DISTANCE_MASK);
    ApplyOutputByMetadata(b);
    GreedyCallsMakeRule(coords, l);
  }

  /** The loop over the links of the greedy handler: one distance update per link, in
      list order, each with the coordinates the map holds for the neighbour once the read
      has inserted (0, 0) for a missing one. */
  method AddDistanceUpdates(b: FlowMod, coords: Coords, l: seq<Port>) returns (coords': Coords)
    requires b.Valid()
    modifies b.Footprint
    ensures b.Valid() && fresh(b.Footprint - old(b.Footprint))
    ensures b.Value() == GreedyHops(old(b.Value()), coords, l)
    ensures coords' == DefaultCoords(coords, l)
  {
    b.ValueWellFormed();
    ghost var v := b.Value();
    coords' := coords;
    var i := 0;
    while i < |l|
      invariant 0 <= i <= |l|
      invariant b.Valid() && fresh(b.Footprint - old(b.Footprint))
      invariant b.Value() == GreedyHops(v, coords, l[..i])
      invariant coords' == DefaultCoords(coords, l[..i])
    {
      coords' := GreedyHop(b, v, coords, l, i, coords');
      i := i + 1;
    }
    assert l[..i] == l;
  }

  /** One pass of the loop over the links of the greedy handler: read the neighbour's
      coordinates from the map (inserting (0, 0) when it is missing) and append its
      distance update to the rule. */
  method GreedyHop(b: FlowMod, ghost v: FlowModValue, coords: Coords, l: seq<Port>, i: nat, cur: Coords)
    returns (next: Coords)
    requires i < |l| && b.Valid() && ChainWellFormed(v)
    requires b.Value() == GreedyHops(v, coords, l[..i])
    requires cur == DefaultCoords(coords, l[..i])
    modifies b.Footprint
    ensures b.Valid() && fresh(b.Footprint - old(b.Footprint))
    ensures b.Value() == GreedyHops(v, coords, l[..i + 1])
    ensures next == DefaultCoords(coords, l[..i + 1])
  {
    var p := l[i];
    DefaultCoordsStep(coords, l, i);
    GreedyHopsStep(v, coords, l, i);
    next := cur;
    if p.toNode !in next {
      next := next[p.toNode := Coord(0, 0)];
    }
    var c := next[p.toNode];
    ApplyDistanceUpdate(b, c.x, c.y, p.portNo);
  }

  /** `b->apply_actions()->set_eth_dst(eth)->set_ipv4_destination(ip)`: the host rewrite. */
  method ApplyRewrite(b: FlowMod, ethDstAddr: uint64, ipDstAddr: uint32)
    requires b.Valid()
    modifies b.Footprint
    ensures b.Valid() && fresh(b.Footprint - old(b.Footprint))
    ensures b.Value() == WithActions(old(b.Value()), OFPIT_APPLY_ACTIONS, [SetEthDstAction(ethDstAddr), SetIpv4DstAction(ipDstAddr)])
  {
    b.ValueWellFormed();
    ghost var v := b.Value();
    var acts := b.ApplyActions();
    label L:
    ghost var c := acts.nodes;
    acts := acts.SetEthDst(ethDstAddr);
    acts := acts.SetIpv4Destination(ipDstAddr);
    PushTwoActions(c, SetEthDstAction(ethDstAddr), SetIpv4DstAction(ipDstAddr));
    b.ActionsCallDone@L([SetEthDstAction(ethDstAddr), SetIpv4DstAction(ipDstAddr)]);
    RequestThenPush(v, OFPIT_APPLY_ACTIONS, [SetEthDstAction(ethDstAddr), SetIpv4DstAction(ipDstAddr)]);
  }

  /** `b->apply_actions()->output(port)`. */
  method ApplyOutput(b: FlowMod, port: int32)
    requires b.Valid()
    modifies b.Footprint
    ensures b.Valid() && fresh(b.Footprint - old(b.Footprint))
    ensures b.Value() == WithActions(old(b.Value()), OFPIT_APPLY_ACTIONS, [OutputAction(port)])
  {
    b.ValueWellFormed();
    ghost var v := b.Value();
    var acts := b.ApplyActions();
    label L:
    acts := acts.Output(port);
    b.ActionsCallDone@L([OutputAction(port)]);
    RequestThenPush(v, OFPIT_APPLY_ACTIONS, [OutputAction(port)]);
  }

  /** `b->apply_actions()->decrement_ipv4_ttl()`. */
  method ApplyDecrementTtl(b: FlowMod)
    requires b.Valid()
    modifies b.Footprint
    ensures b.Valid() && fresh(b.Footprint - old(b.Footprint))
    ensures b.Value() == WithActions(old(b.Value()), OFPIT_APPLY_ACTIONS, [DecNwTtl])
  {
    b.ValueWellFormed();
    ghost var v := b.Value();
    var acts := b.ApplyActions();
    label L:
    acts := acts.DecrementIpv4Ttl();
    b.ActionsCallDone@L([DecNwTtl]);
    RequestThenPush(v, OFPIT_APPLY_ACTIONS, [DecNwTtl]);
  }

  /** `b->apply_actions()->update_distance_in_metadata(x, y, port)`. */
  method ApplyDistanceUpdate(b: FlowMod, x: uint32, y: uint32, port: uint32)
    requires b.Valid()
    modifies b.Footprint
    ensures b.Valid() && fresh(b.Footprint - old(b.Footprint))
    ensures b.Value() == WithActions(old(b.Value()), OFPIT_APPLY_ACTIONS, [UpdateDistanceAction(x, y, port)])
  {
    b.ValueWellFormed();
    ghost var v := b.Value();
    var acts := b.ApplyActions();
    label L:
    acts := acts.UpdateDistanceInMetadata(x, y, port);
    b.ActionsCallDone@L([UpdateDistanceAction(x, y, port)]);
    RequestThenPush(v, OFPIT_APPLY_ACTIONS, [UpdateDistanceAction(x, y, port)]);
  }

  /** `b->apply_actions()->output_by_metadata()`. */
  method ApplyOutputByMetadata(b: FlowMod)
    requires b.Valid()
    modifies b.Footprint
    ensures b.Valid() && fresh(b.Footprint - old(b.Footprint))
    ensures b.Value() == WithActions(old(b.Value()), OFPIT_APPLY_ACTIONS, [Experimenter(OutputByMetadata)])
  {
    b.ValueWellFormed();
    ghost var v := b.Value();
    var acts := b.ApplyActions();
    label L:
    acts := acts.OutputByMetadata();
    b.ActionsCallDone@L([Experimenter(OutputByMetadata)]);
    RequestThenPush(v, OFPIT_APPLY_ACTIONS, [Experimenter(OutputByMetadata)]);
  }

  /** `b->instructions()->goto_table(t)`. */
  method GotoNext(b: FlowMod, t: uint8)
    requires b.Valid()
    modifies b.Footprint
    ensures b.Valid() && fresh(b.Footprint - old(b.Footprint))
    ensures b.Value() == WithInstruction(old(b.Value()), GotoTable(t))
  {
    var il := b.Instructions();
    label L:
    il := il.GotoTable(t);
    b.InstructionCallDone@L(GotoTable(t));
  }

  /** The builder calls of the first rule of `bloom_fill_table`. */
  method NewBloomMatchRule(tableId: int, portNo: int32, bloomAddr: uint64, ethDstAddr: uint64,
                           ipDstAddr: uint32) returns (b: FlowMod)
    ensures fresh(b) && b.Valid()
    ensures b.Value() == BloomMatchRule(tableId, portNo, bloomAddr, ethDstAddr, ipDstAddr)
  {
    b := new FlowMod();
    b := b.Table(TableOf(tableId));
    b := b.MatchEthDst(bloomAddr, Complement64(bloomAddr));
    ghost var v := b.Value();
    assert v == BloomMatchBase(tableId, bloomAddr);
    if ethDstAddr != 0 {
      ApplyRewrite(b, ethDstAddr, ipDstAddr);
    }
    ghost var w1 := b.Value();
    assert w1 == WithHostRewrite(v, ethDstAddr, ipDstAddr);
    ApplyOutput(b, portNo);
    ghost var w2 := b.Value();
    GotoNext(b, TableOf(tableId + 1));
    assert b.Value() == WithInstruction(w2, GotoTable(TableOf(tableId + 1)));
  }

  /** The builder calls of the table-0 rule of `bloom_filter_join_handler`. */
  method NewBloomTableZeroRule() returns (b: FlowMod)
    ensures fresh(b) && b.Valid() && b.Value() == BloomTableZero()
  {
    b := new FlowMod();
    b := b.Table(0);
    ApplyDecrementTtl(b);
    GotoNext(b, 1);
  }

  /** The builder calls of the second rule of `bloom_fill_table`. */
  method NewBloomMissRule(tableId: int) returns (b: FlowMod)
    ensures fresh(b) && b.Valid() && b.Value() == BloomMissRule(tableId)
  {
    b := new FlowMod();
    b := b.Table(TableOf(tableId));
    GotoNext(b, TableOf(tableId + 1));
  }
}
