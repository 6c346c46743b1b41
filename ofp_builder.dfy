/** The flow-mod builder (`b_flow_mod`, `b_instructions`, `b_actions`).

    Both chains of the builder are singly linked lists of nodes whose head is the object the
    caller holds. A node owns one `ofl` record; the head's record is null until the first
    append, every later node is created and filled in the same call. A chain is modelled by
    its head object, whose `nodes` field lists the nodes' records in chain order and whose
    `last` field is the index of the node the head's `last` pointer designates. An
    action-bearing instruction node owns an action chain, which is a separate object because
    `apply_actions()` hands it out and the caller appends to it directly. */
module OfpBuilder {
  import opened Wrappers
  import opened Bytes
  import opened OpenFlow
  import opened FlowModSpec

  /** A `b_actions` chain. */
  class ActionList {
    var nodes: seq<Option<Action>>
    var last: nat

    ghost predicate Valid()
      reads this
    {
      IsChain(nodes) && last == |nodes| - 1
    }

    /** `new b_actions(parent)`: a single empty node that is its own last node. */
    constructor ()
      ensures Valid() && nodes == [None]
    {
      nodes := [None];
      last := 0;
    }

    /** `b_actions::New`: the head while its record is null, otherwise a fresh empty node
        linked after the old last node; either way the returned node is the last one. */
    method New() returns (k: nat)
      requires Valid()
      modifies this
      ensures k == last == |nodes| - 1 && nodes[k] == None
      ensures old(nodes[0]).None? ==> nodes == old(nodes)
      ensures old(nodes[0]).Some? ==> nodes == old(nodes) + [None]
    {
      if nodes[0].None? {
        k := 0;
        return;
      }
      nodes := nodes + [None];
      last := |nodes| - 1;
      k := last;
    }

    /** The body every appender shares: `last = New()` and fill the node's record. */
    method Append(a: Action)
      requires Valid()
      modifies this
      ensures Valid() && nodes == PushAction(old(nodes), a)
    {
      var k := New();
      nodes := nodes[k := Some(a)];
    }

    method Output(portNo: int32) returns (r: ActionList)
      requires Valid()
      modifies this
      ensures r == this && Valid() && nodes == PushAction(old(nodes), OutputAction(portNo))
    {
      Append(OutputAction(portNo));
      r := this;
    }

    method SetMplsLabel(mplsLabel: uint32) returns (r: ActionList)
      requires Valid()
      modifies this
      ensures r == this && Valid() && nodes == PushAction(old(nodes), Action.SetMplsLabel(mplsLabel))
    {
      Append(Action.SetMplsLabel(mplsLabel));
      r := this;
    }

    method DecrementMplsTtl() returns (r: ActionList)
      requires Valid()
      modifies this
      ensures r == this && Valid() && nodes == PushAction(old(nodes), DecMplsTtl)
    {
      Append(DecMplsTtl);
      r := this;
    }

    method DecrementIpv4Ttl() returns (r: ActionList)
      requires Valid()
      modifies this
      ensures r == this && Valid() && nodes == PushAction(old(nodes), DecNwTtl)
    {
      Append(DecNwTtl);
      r := this;
    }

    method SetFieldFromMetadata(field: uint32, offset: uint8) returns (r: ActionList)
      requires Valid()
      modifies this
      ensures r == this && Valid()
      ensures nodes == PushAction(old(nodes), Experimenter(BmeAction.SetFieldFromMetadata(field, offset)))
    {
      Append(Experimenter(BmeAction.SetFieldFromMetadata(field, offset)));
      r := this;
    }

    method SetMetadataFromPacket(field: uint32, offset: uint8) returns (r: ActionList)
      requires Valid()
      modifies this
      ensures r == this && Valid()
      ensures nodes == PushAction(old(nodes), Experimenter(BmeAction.SetMetadataFromPacket(field, offset)))
    {
      Append(Experimenter(BmeAction.SetMetadataFromPacket(field, offset)));
      r := this;
    }

    method SetMetadataFromCounter(maxNum: uint32) returns (r: ActionList)
      requires Valid()
      modifies this
      ensures r == this && Valid()
      ensures nodes == PushAction(old(nodes), Experimenter(BmeAction.SetMetadataFromCounter(maxNum)))
    {
      Append(Experimenter(BmeAction.SetMetadataFromCounter(maxNum)));
      r := this;
    }

    method SetMplsLabelFromCounter() returns (r: ActionList)
      requires Valid()
      modifies this
      ensures r == this && Valid()
      ensures nodes == PushAction(old(nodes), Experimenter(BmeAction.SetMplsLabelFromCounter))
    {
      Append(Experimenter(BmeAction.SetMplsLabelFromCounter));
      r := this;
    }

    /** `push_mpls_header`: the pushed tag's ethertype is always the unicast MPLS one. */
    method PushMplsHeader() returns (r: ActionList)
      requires Valid()
      modifies this
      ensures r == this && Valid() && nodes == PushAction(old(nodes), PushMpls(ETH_TYPE_MPLS))
    {
      Append(PushMpls(ETH_TYPE_MPLS));
      r := this;
    }

    /** `pop_mpls_header`: the ethertype of the uncovered payload defaults to IPv4. */
    method PopMplsHeader(ethertype: uint16 := ETH_TYPE_IP) returns (r: ActionList)
      requires Valid()
      modifies this
      ensures r == this && Valid() && nodes == PushAction(old(nodes), PopMpls(ethertype))
    {
      Append(PopMpls(ethertype));
      r := this;
    }

    method SetEthDst(addr: uint64) returns (r: ActionList)
      requires Valid()
      modifies this
      ensures r == this && Valid() && nodes == PushAction(old(nodes), SetEthDstAction(addr))
    {
      Append(SetEthDstAction(addr));
      r := this;
    }

    method SetIpv4Destination(addr: uint32) returns (r: ActionList)
      requires Valid()
      modifies this
      ensures r == this && Valid() && nodes == PushAction(old(nodes), SetIpv4DstAction(addr))
    {
      Append(SetIpv4DstAction(addr));
      r := this;
    }

    method OutputByMetadata() returns (r: ActionList)
      requires Valid()
      modifies this
      ensures r == this && Valid()
      ensures nodes == PushAction(old(nodes), Experimenter(BmeAction.OutputByMetadata))
    {
      Append(Experimenter(BmeAction.OutputByMetadata));
      r := this;
    }

    method XorEncode(labelA: uint32, labelB: uint32) returns (r: ActionList)
      requires Valid()
      modifies this
      ensures r == this && Valid()
      ensures nodes == PushAction(old(nodes), Experimenter(BmeAction.XorEncode(labelA, labelB)))
    {
      Append(Experimenter(BmeAction.XorEncode(labelA, labelB)));
      r := this;
    }

    method XorDecode(labelA: uint32, labelB: uint32) returns (r: ActionList)
      requires Valid()
      modifies this
      ensures r == this && Valid()
      ensures nodes == PushAction(old(nodes), Experimenter(BmeAction.XorDecode(labelA, labelB)))
    {
      Append(Experimenter(BmeAction.XorDecode(labelA, labelB)));
      r := this;
    }

    method UpdateDistanceInMetadata(x: uint32, y: uint32, port: uint32) returns (r: ActionList)
      requires Valid()
      modifies this
      ensures r == this && Valid() && nodes == PushAction(old(nodes), UpdateDistanceAction(x, y, port))
    {
      Append(UpdateDistanceAction(x, y, port));
      r := this;
    }

    method Serialize(mplsLabel: uint32, timeout: uint32) returns (r: ActionList)
      requires Valid()
      modifies this
      ensures r == this && Valid()
      ensures nodes == PushAction(old(nodes), Experimenter(BmeAction.Serialize(mplsLabel, timeout)))
    {
      Append(Experimenter(BmeAction.Serialize(mplsLabel, timeout)));
      r := this;
    }

    /** `get_num`: walks the chain and counts its nodes, the head included even while it
        is empty, so the count is the number of appended actions, or 1 when there is none. */
    method GetNum() returns (n: int)
      requires Valid()
      ensures n == |nodes|
      ensures n == if nodes[0].None? then 1 else |Filled(nodes)|
    {
      ChainLength(nodes);
      n := 0;
      var b := 0;
      while b < |nodes|
        invariant 0 <= b <= |nodes| && n == b
      {
        n := n + 1;
        b := b + 1;
      }
    }

    /** `build`: an array of `get_num()` entries holding each node's record in chain
        order. */
    method Build() returns (list: array<Option<Action>>)
      requires Valid()
      ensures fresh(list) && list[..] == nodes
    {
      var num := GetNum();
      list := new Option<Action>[num];
      var i := 0;
      while i < num
        invariant 0 <= i <= num && list[..i] == nodes[..i]
      {
        list[i] := nodes[i];
        i := i + 1;
      }
    }
  }

  /** The state of one `b_instructions` node: its record is null, a goto-table or
      write-metadata record, or an apply- or write-actions record together with the action
      chain the node owns. The record of an action-bearing instruction gets its action
      array only in `build`, so until then the chain is the whole content. */
  datatype InstrNode =
    | EmptyNode
    | GotoTableNode(tableId: uint8)
    | WriteMetadataNode(metadata: uint64, metadataMask: uint64)
    | ActionsNode(kind: uint16, list: ActionList)

  /** The record `build` leaves in a node: an action-bearing instruction carries the array
      its action chain flattens to. */
  function NodeValue(n: InstrNode): Option<Instruction>
    reads if n.ActionsNode? then {n.list} else {}
  {
    match n
    case EmptyNode => None
    case GotoTableNode(t) => Some(GotoTable(t))
    case WriteMetadataNode(m, mask) => Some(WriteMetadata(m, mask))
    case ActionsNode(kind, l) =>
      Some(if kind == OFPIT_APPLY_ACTIONS then ApplyActions(l.nodes) else WriteActions(l.nodes))
  }

  /** The `type` field of a node's record. */
  function NodeType(n: InstrNode): (t: uint16)
    requires !n.EmptyNode?
    reads if n.ActionsNode? then {n.list} else {}
    ensures NodeValue(n).Some? && t == NodeValue(n).value.Type()
  {
    match n
    case GotoTableNode(_) => OFPIT_GOTO_TABLE
    case WriteMetadataNode(_, _) => OFPIT_WRITE_METADATA
    case ActionsNode(kind, _) => if kind == OFPIT_APPLY_ACTIONS then kind else OFPIT_WRITE_ACTIONS
  }

  /** A `b_instructions` chain. */
  class InstructionList {
    var nodes: seq<InstrNode>
    var last: nat

    /** The action chains the instruction nodes own. */
    ghost function Lists(): set<ActionList>
      reads this
    {
      set i | 0 <= i < |nodes| && nodes[i].ActionsNode? :: nodes[i].list
    }

    /** Slot 0 is the head, empty only while it is the only node; every action chain is
        owned by exactly one node of an apply- or write-actions type. */
    ghost predicate Valid()
      reads this, Lists()
    {
      |nodes| >= 1 && last == |nodes| - 1 &&
      (nodes[0].EmptyNode? ==> |nodes| == 1) &&
      (forall i :: 1 <= i < |nodes| ==> !nodes[i].EmptyNode?) &&
      (forall i :: 0 <= i < |nodes| && nodes[i].ActionsNode? ==>
         (nodes[i].kind == OFPIT_APPLY_ACTIONS || nodes[i].kind == OFPIT_WRITE_ACTIONS) &&
         nodes[i].list.Valid()) &&
      (forall i, j :: 0 <= i < j < |nodes| && nodes[i].ActionsNode? && nodes[j].ActionsNode? ==>
         nodes[i].list != nodes[j].list)
    }

    /** The last node of the chain. */
    ghost function LastNode(): InstrNode
      reads this
    {
      if |nodes| == 0 then EmptyNode else nodes[|nodes| - 1]
    }

    /** The records in chain order, as `build` flattens them. */
    ghost function Value(): (c: seq<Option<Instruction>>)
      reads this, Lists()
      ensures |c| == |nodes|
    {
      seq(|nodes|, i requires 0 <= i < |nodes| reads this, Lists() => NodeValue(nodes[i]))
    }

    /** A valid chain flattens to an instruction chain whose action arrays are chains. */
    lemma ValueIsChain()
      requires Valid()
      ensures IsInstructionChain(Value())
    {
      var c := Value();
      forall i | 0 <= i < |c| && c[i].Some? && !c[i].value.GotoTable? && !c[i].value.WriteMetadata?
        ensures IsChain(c[i].value.actions)
      {
        assert nodes[i].ActionsNode?;
      }
    }

    /** `new b_instructions(parent)`: a single empty node. */
    constructor ()
      ensures Valid() && nodes == [EmptyNode] && Value() == [None] && Lists() == {}
    {
      nodes := [EmptyNode];
      last := 0;
    }

    /** `b_instructions::New(type)`: the head while its record is null; the last node when
        an apply- or write-actions request finds a last node of that very type; otherwise a
        fresh empty node linked after the last one. The type defaults to 0, so only an
        actions request can reuse a node. */
    method New(t: int := 0) returns (k: nat)
      requires Valid()
      modifies this
      ensures k == NewIndex(old(Value()), t) && k == last == |nodes| - 1
      ensures k < |old(nodes)| ==> nodes == old(nodes)
      ensures k == |old(nodes)| ==> nodes == old(nodes) + [EmptyNode]
    {
      ValueIsChain();
      if nodes[0].EmptyNode? {
        k := 0;
        return;
      }
      var oldLast := last;
      if t == OFPIT_APPLY_ACTIONS as int || t == OFPIT_WRITE_ACTIONS as int {
        if NodeType(nodes[oldLast]) as int == t {
          k := oldLast;
          return;
        }
      }
      nodes := nodes + [EmptyNode];
      last := |nodes| - 1;
      k := last;
    }

    /** `goto_table`: always a new record at the end of the chain. */
    method GotoTable(tableId: uint8) returns (r: InstructionList)
      requires Valid()
      modifies this
      ensures r == this && Valid() && Lists() == old(Lists())
      ensures Value() == AddInstruction(old(Value()), Instruction.GotoTable(tableId))
    {
      ghost var c := Value();
      ValueIsChain();
      label L:
      var k := New();
      nodes := nodes[k := GotoTableNode(tableId)];
      last := k;
      SameLists@L(k);
      AfterFill(c, k, Instruction.GotoTable(tableId));
      r := this;
    }

    /** `write_metadata`: always a new record at the end of the chain, so two calls give
        two instructions. */
    method WriteMetadata(metadata: uint64, metadataMask: uint64) returns (r: InstructionList)
      requires Valid()
      modifies this
      ensures r == this && Valid() && Lists() == old(Lists())
      ensures Value() == AddInstruction(old(Value()), Instruction.WriteMetadata(metadata, metadataMask))
    {
      ghost var c := Value();
      ValueIsChain();
      label L:
      var k := New();
      nodes := nodes[k := WriteMetadataNode(metadata, metadataMask)];
      last := k;
      SameLists@L(k);
      AfterFill(c, k, Instruction.WriteMetadata(metadata, metadataMask));
      r := this;
    }

    /** Filling the empty slot k adds to the owned chains at most the chain the new record
        owns. */
    twostate lemma SameLists(k: nat)
      requires old(Valid()) && k < |nodes|
      requires |nodes| == |old(nodes)| || (|nodes| == |old(nodes)| + 1 && k == |old(nodes)|)
      requires k < |old(nodes)| ==> old(nodes[k]).EmptyNode?
      requires forall i :: 0 <= i < |old(nodes)| && i != k ==> nodes[i] == old(nodes[i])
      ensures Lists() == old(Lists()) + (if nodes[k].ActionsNode? then {nodes[k].list} else {})
    {
      forall l | l in Lists()
        ensures l in old(Lists()) || (nodes[k].ActionsNode? && l == nodes[k].list)
      {
        var i :| 0 <= i < |nodes| && nodes[i].ActionsNode? && nodes[i].list == l;
        if i != k {
          assert old(nodes[i]) == nodes[i];
        }
      }
      forall l | l in old(Lists())
        ensures l in Lists()
      {
        var i :| 0 <= i < |old(nodes)| && old(nodes[i]).ActionsNode? && old(nodes[i]).list == l;
        assert nodes[i] == old(nodes[i]);
      }
    }

    /** `apply_actions`: New(APPLY); a node that already has a record is the last node,
        of this type, and its action chain is returned; otherwise the node gets an
        apply-actions record and a fresh, empty action chain, which is returned. */
    method ApplyActions() returns (acts: ActionList)
      requires Valid()
      modifies this
      ensures Valid() && Value() == RequestActions(old(Value()), OFPIT_APPLY_ACTIONS)
      ensures LastNode() == ActionsNode(OFPIT_APPLY_ACTIONS, acts)
      ensures acts in old(Lists()) || (fresh(acts) && Lists() == old(Lists()) + {acts})
      ensures acts in old(Lists()) ==> Lists() == old(Lists())
    {
      acts := RequestList(OFPIT_APPLY_ACTIONS);
    }

    /** `write_actions`: the same with the write-actions type. */
    method WriteActions() returns (acts: ActionList)
      requires Valid()
      modifies this
      ensures Valid() && Value() == RequestActions(old(Value()), OFPIT_WRITE_ACTIONS)
      ensures LastNode() == ActionsNode(OFPIT_WRITE_ACTIONS, acts)
      ensures acts in old(Lists()) || (fresh(acts) && Lists() == old(Lists()) + {acts})
      ensures acts in old(Lists()) ==> Lists() == old(Lists())
    {
      acts := RequestList(OFPIT_WRITE_ACTIONS);
    }

    /** The body `apply_actions` and `write_actions` share. */
    method RequestList(t: uint16) returns (acts: ActionList)
      requires Valid() && (t == OFPIT_APPLY_ACTIONS || t == OFPIT_WRITE_ACTIONS)
      modifies this
      ensures Valid() && Value() == RequestActions(old(Value()), t)
      ensures LastNode() == ActionsNode(t, acts)
      ensures acts in old(Lists()) || (fresh(acts) && Lists() == old(Lists()) + {acts})
      ensures acts in old(Lists()) ==> Lists() == old(Lists())
    {
      ghost var c := Value();
      ValueIsChain();
      label L:
      var k := New(t as int);
      if !nodes[k].EmptyNode? {
        acts := nodes[k].list;
        assert acts in old(Lists());
        return;
      }
      acts := new ActionList();
      nodes := nodes[k := ActionsNode(t, acts)];
      last := k;
      SameLists@L(k);
      FilledValid(k);
      AfterFill(c, k, EmptyActions(t));
    }

    /** Filling the empty slot k with a fresh, valid action chain keeps the chain valid. */
    twostate lemma FilledValid(k: nat)
      requires old(Valid()) && unchanged(old(Lists())) && k < |nodes| && last == |nodes| - 1
      requires |nodes| == |old(nodes)| || (|nodes| == |old(nodes)| + 1 && k == |old(nodes)|)
      requires k < |old(nodes)| ==> old(nodes[k]).EmptyNode?
      requires old(nodes[0]).EmptyNode? ==> k == 0
      requires forall i :: 0 <= i < |old(nodes)| && i != k ==> nodes[i] == old(nodes[i])
      requires nodes[k].ActionsNode? && fresh(nodes[k].list) && nodes[k].list.Valid()
      requires nodes[k].kind == OFPIT_APPLY_ACTIONS || nodes[k].kind == OFPIT_WRITE_ACTIONS
      ensures Valid()
    {
      forall i | 0 <= i < |nodes| && i != k && nodes[i].ActionsNode?
        ensures nodes[i].list.Valid() && nodes[i].list != nodes[k].list
      {
        assert nodes[i] == old(nodes[i]);
        assert nodes[i].list in old(Lists());
      }
    }

    /** A caller that appends to the action chain of slot k, and changes nothing else the
        chain owns, changes only the action array of that instruction. */
    twostate lemma ListGrew(k: nat)
      requires old(Valid()) && unchanged(this)
      requires k < |nodes| && nodes[k].ActionsNode? && nodes[k].list.Valid()
      requires forall l :: l in old(Lists()) && l != nodes[k].list ==> unchanged(l)
      ensures Valid() && Lists() == old(Lists())
      ensures Value() == ReplaceActions(old(Value()), k, nodes[k].list.nodes)
    {
      forall i | 0 <= i < |nodes| && i != k
        ensures Value()[i] == old(Value()[i])
        ensures nodes[i].ActionsNode? ==> nodes[i].list.Valid()
      {
        if nodes[i].ActionsNode? {
          assert nodes[i].list in old(Lists());
        }
      }
    }

    /** `get_num`: counts the nodes, the head included even while it is empty, so the
        count is the number of instructions, or 1 when there is none. */
    method GetNum() returns (n: int)
      requires Valid()
      ensures n == |Value()|
      ensures n == if Value()[0].None? then 1 else |Filled(Value())|
    {
      ValueIsChain();
      ChainLength(Value());
      n := 0;
      var b := 0;
      while b < |nodes|
        invariant 0 <= b <= |nodes| && n == b
      {
        n := n + 1;
        b := b + 1;
      }
    }

    /** `build`: first every action-bearing record gets its action array, then an array
        of `get_num()` entries receives the records in chain order. */
    method Build() returns (list: array<Option<Instruction>>)
      requires Valid()
      ensures fresh(list) && list[..] == Value()
    {
      ghost var v := Value();
      var records: seq<Option<Instruction>> := [];
      var b := 0;
      while b < |nodes|
        invariant 0 <= b <= |nodes| && records == v[..b]
      {
        var rec: Option<Instruction>;
        match nodes[b] {
          case EmptyNode =>
            rec := None;
          case GotoTableNode(t) =>
            rec := Some(Instruction.GotoTable(t));
          case WriteMetadataNode(m, mask) =>
            rec := Some(Instruction.WriteMetadata(m, mask));
          case ActionsNode(kind, l) =>
            var arr := l.Build();
            rec := Some(if kind == OFPIT_APPLY_ACTIONS then Instruction.ApplyActions(arr[..])
                        else Instruction.WriteActions(arr[..]));
        }
        records := records + [rec];
        b := b + 1;
      }
      assert v[..b] == v;
      var num := GetNum();
      list := new Option<Instruction>[num];
      var i := 0;
      while i < num
        invariant 0 <= i <= num && list[..i] == records[..i]
      {
        list[i] := records[i];
        i := i + 1;
      }
      assert list[..] == list[..num];
    }

    /** The filled slot k is the one `New()` handed back, and every other slot is
        unchanged. */
    lemma AfterFill(c: seq<Option<Instruction>>, k: nat, ins: Instruction)
      requires k <= |c| && |nodes| == (if k == |c| then |c| + 1 else |c|)
      requires NodeValue(nodes[k]) == Some(ins)
      requires forall i :: 0 <= i < |nodes| && i != k ==> NodeValue(nodes[i]) == c[i]
      ensures Value() == Place(c, k, ins)
    {
    }
  }

  /** The class-wide counter `b_flow_mod::xid`, which starts at 0; every flow mod draws
      from the same object. */
  class XidCounter {
    var xid: uint32

    constructor ()
      ensures xid == 0
    {
      xid := 0;
    }

    /** `get_new_xid`: pre-increment of a uint32_t. */
    method GetNewXid() returns (x: uint32)
      modifies this
      ensures xid == NextXid(old(xid)) && x == xid
    {
      xid := (xid + 1) % UINT32_LIMIT;
      x := xid;
    }
  }

  /** The end of `build`: the packed message, or the process exits because the packer
      reported an error. */
  datatype BuildOutcome = Packed(msg: Message, wire: seq<byte>) | Exited

  /** A `b_flow_mod`: the message fields, the standard match, the instruction chain once
      `instructions()` has created it, and the buffer of the last packed message. */
  class FlowMod {
    var ofl: FlowModFields
    var stdMatch: Match
    var instr: InstructionList?
    var buffer: seq<byte>
    /** The objects the flow mod owns, kept for framing. */
    ghost var Footprint: set<object>

    /** The footprint holds the flow mod, its chain and every action chain the chain owns. */
    ghost predicate Valid()
      reads this, Footprint
    {
      this in Footprint && WellFormedMatch(stdMatch) &&
      (instr != null ==> instr in Footprint && instr.Lists() <= Footprint && instr.Valid())
    }

    ghost function Value(): FlowModValue
      requires Valid()
      reads this, Footprint
    {
      FlowModValue(ofl, stdMatch, if instr == null then None else Some(instr.Value()))
    }

    /** A setter that assigns only the flow mod's own fields leaves the chain's value as it
        was. */
    twostate lemma ChainUnchanged()
      requires old(instr) == instr
      requires instr != null ==> unchanged(instr) && unchanged(instr.Lists())
      ensures instr != null ==> instr.Value() == old(instr.Value())
    {
    }

    /** A call on the chain alone changes the flow mod's value only through the chain. */
    twostate lemma ChainAdvanced()
      requires old(Valid()) && instr != null && instr == old(instr)
      requires ofl == old(ofl) && stdMatch == old(stdMatch) && Footprint >= old(Footprint)
      requires instr.Valid() && instr.Lists() <= Footprint
      ensures Valid() && Value() == old(Value()).(chain := Some(instr.Value()))
    {
    }

    /** Assigning the footprint leaves the chain as it was. */
    twostate lemma KeepsChain()
      requires instr != null && old(instr) == instr && unchanged(instr) && unchanged(old(instr.Lists()))
      requires old(instr.Valid())
      ensures instr.Valid() && instr.Lists() == old(instr.Lists()) && instr.Value() == old(instr.Value())
      ensures instr.LastNode() == old(instr.LastNode())
    {
    }

    lemma ValueWellFormed()
      requires Valid()
      ensures WellFormed(Value())
    {
      if instr != null {
        instr.ValueIsChain();
      }
    }

    /** The constructor zeroes both records, then sets the command, the timeouts, the
        priority, the buffer and the out port and group; the match is fully wildcarded with
        all-ones address masks. */
    constructor ()
      ensures Valid() && Value() == NewFlowMod() && instr == null && buffer == [] && Footprint == {this}
    {
      ofl := FlowModFields(OFPT_FLOW_MOD, 0, 0, 0, OFPFC_ADD, OFP_FLOW_PERMANENT, OFP_FLOW_PERMANENT,
                           OFP_DEFAULT_PRIORITY, OFP_NO_BUFFER, OFPP_ANY, OFPG_ANY, 0);
      stdMatch := DefaultMatch();
      instr := null;
      buffer := [];
      Footprint := {this};
      new;
      DefaultMatchWellFormed();
    }

    method Table(tableId: uint8) returns (r: FlowMod)
      requires Valid()
      modifies this
      ensures r == this && Valid() && instr == old(instr) && buffer == old(buffer) && Footprint == old(Footprint)
      ensures Value() == WithTable(old(Value()), tableId)
    {
      ofl := ofl.(tableId := tableId);
      ChainUnchanged();
      r := this;
    }

    method Priority(priority: uint16) returns (r: FlowMod)
      requires Valid()
      modifies this
      ensures r == this && Valid() && instr == old(instr) && buffer == old(buffer) && Footprint == old(Footprint)
      ensures Value() == WithPriority(old(Value()), priority)
    {
      ofl := ofl.(priority := priority);
      ChainUnchanged();
      r := this;
    }

    method MatchMplsLabel(mplsLabel: uint32) returns (r: FlowMod)
      requires Valid()
      modifies this
      ensures r == this && Valid() && instr == old(instr) && buffer == old(buffer) && Footprint == old(Footprint)
      ensures Value() == WithMatch(old(Value()), FlowModSpec.MatchMplsLabel(old(stdMatch), mplsLabel))
    {
      FlowModSpec.MatchMplsLabelWellFormed(stdMatch, mplsLabel);
      var wildcards := stdMatch.wildcards;
      wildcards := ClearBit(wildcards, OFPFW_DL_TYPE);
      wildcards := ClearBit(wildcards, OFPFW_MPLS_LABEL);
      stdMatch := stdMatch.(wildcards := wildcards, dlType := ETH_TYPE_MPLS, mplsLabel := mplsLabel);
      ChainUnchanged();
      r := this;
    }

    method MatchSrc(addr: uint32) returns (r: FlowMod)
      requires Valid()
      modifies this
      ensures r == this && Valid() && instr == old(instr) && buffer == old(buffer) && Footprint == old(Footprint)
      ensures Value() == WithMatch(old(Value()), FlowModSpec.MatchSrc(old(stdMatch), addr))
    {
      FlowModSpec.MatchSrcWellFormed(stdMatch, addr);
      var wildcards := stdMatch.wildcards;
      wildcards := ClearBit(wildcards, OFPFW_DL_TYPE);
      wildcards := ClearBit(wildcards, OFPFW_NW_PROTO);
      stdMatch := stdMatch.(wildcards := wildcards, dlType := ETH_TYPE_IP, nwProto := IP_TYPE_UDP,
                            nwSrc := Htonl(addr), nwSrcMask := 0);
      ChainUnchanged();
      r := this;
    }

    method MatchDst(addr: uint32) returns (r: FlowMod)
      requires Valid()
      modifies this
      ensures r == this && Valid() && instr == old(instr) && buffer == old(buffer) && Footprint == old(Footprint)
      ensures Value() == WithMatch(old(Value()), FlowModSpec.MatchDst(old(stdMatch), addr))
    {
      FlowModSpec.MatchDstWellFormed(stdMatch, addr);
      var wildcards := stdMatch.wildcards;
      wildcards := ClearBit(wildcards, OFPFW_DL_TYPE);
      wildcards := ClearBit(wildcards, OFPFW_NW_PROTO);
      stdMatch := stdMatch.(wildcards := wildcards, dlType := ETH_TYPE_IP, nwProto := IP_TYPE_UDP,
                            nwDst := Htonl(addr), nwDstMask := 0);
      ChainUnchanged();
      r := this;
    }

    /** `match_eth_dst`: the first six bytes in memory of hton_48 of the address and of the
        mask. */
    method MatchEthDst(addr: uint64, mask: uint64) returns (r: FlowMod)
      requires Valid()
      modifies this
      ensures r == this && Valid() && instr == old(instr) && buffer == old(buffer) && Footprint == old(Footprint)
      ensures Value() == WithMatch(old(Value()), FlowModSpec.MatchEthDst(old(stdMatch), addr, mask))
    {
      FlowModSpec.MatchEthDstWellFormed(stdMatch, addr, mask);
      var a := Hton48(addr);
      var m := Hton48(mask);
      stdMatch := stdMatch.(dlDst := LeBytes(a, ETH_ADDR_LEN));
      stdMatch := stdMatch.(dlDstMask := LeBytes(m, ETH_ADDR_LEN));
      ChainUnchanged();
      r := this;
    }

    method MatchMetadata(metadata: uint64, mask: uint64) returns (r: FlowMod)
      requires Valid()
      modifies this
      ensures r == this && Valid() && instr == old(instr) && buffer == old(buffer) && Footprint == old(Footprint)
      ensures Value() == WithMatch(old(Value()), FlowModSpec.MatchMetadata(old(stdMatch), metadata, mask))
    {
      FlowModSpec.MatchMetadataWellFormed(stdMatch, metadata, mask);
      stdMatch := stdMatch.(metadata := metadata);
      stdMatch := stdMatch.(metadataMask := mask);
      ChainUnchanged();
      r := this;
    }

    /** `instructions()`: the chain, created empty on the first call. */
    method Instructions() returns (il: InstructionList)
      requires Valid()
      modifies this
      ensures il == instr && Valid() && buffer == old(buffer)
      ensures il.Value() == ChainOf(old(Value()))
      ensures Value() == old(Value()).(chain := Some(ChainOf(old(Value()))))
      ensures old(instr) != null ==> il == old(instr) && Footprint == old(Footprint)
      ensures old(instr) == null ==> fresh(il) && Footprint == old(Footprint) + {il}
      ensures ChainWellFormed(Value())
    {
      if instr == null {
        instr := new InstructionList();
      }
      il := instr;
      Footprint := Footprint + {il};
      ValueWellFormed();
    }

    /** `write_metadata` on the flow mod: `instructions()->write_metadata(...)`. */
    method WriteMetadata(metadata: uint64, metadataMask: uint64) returns (il: InstructionList)
      requires Valid()
      modifies this, instr
      ensures il == instr && Valid() && buffer == old(buffer)
      ensures Value() == WithInstruction(old(Value()), Instruction.WriteMetadata(metadata, metadataMask))
      ensures fresh(Footprint - old(Footprint))
    {
      ValueWellFormed();
      il := Instructions();
      il := il.WriteMetadata(metadata, metadataMask);
    }

    /** `apply_actions` on the flow mod: `instructions()->apply_actions()`; the returned
        chain is the one of the last instruction. */
    method ApplyActions() returns (acts: ActionList)
      requires Valid()
      modifies this, instr
      ensures Valid() && buffer == old(buffer) && instr != null
      ensures Value() == old(Value()).(chain := Some(RequestActions(ChainOf(old(Value())), OFPIT_APPLY_ACTIONS)))
      ensures instr.LastNode() == ActionsNode(OFPIT_APPLY_ACTIONS, acts) && EndsInActions(Value())
      ensures acts in Footprint && fresh(Footprint - old(Footprint))
    {
      ValueWellFormed();
      RequestEndsInActions(old(Value()), OFPIT_APPLY_ACTIONS);
      var il := Instructions();
      acts := RequestOn(il, OFPIT_APPLY_ACTIONS);
    }

    /** `write_actions` on the flow mod. */
    method WriteActions() returns (acts: ActionList)
      requires Valid()
      modifies this, instr
      ensures Valid() && buffer == old(buffer) && instr != null
      ensures Value() == old(Value()).(chain := Some(RequestActions(ChainOf(old(Value())), OFPIT_WRITE_ACTIONS)))
      ensures instr.LastNode() == ActionsNode(OFPIT_WRITE_ACTIONS, acts) && EndsInActions(Value())
      ensures acts in Footprint && fresh(Footprint - old(Footprint))
    {
      ValueWellFormed();
      RequestEndsInActions(old(Value()), OFPIT_WRITE_ACTIONS);
      var il := Instructions();
      acts := RequestOn(il, OFPIT_WRITE_ACTIONS);
    }

    /** `il->apply_actions()` (or `il->write_actions()`) on the chain `instructions()`
        returned, with the returned action chain added to the footprint. */
    method RequestOn(il: InstructionList, t: uint16) returns (acts: ActionList)
      requires Valid() && il == instr && (t == OFPIT_APPLY_ACTIONS || t == OFPIT_WRITE_ACTIONS)
      modifies this, il
      ensures Valid() && buffer == old(buffer) && instr == il
      ensures Value() == old(Value()).(chain := Some(RequestActions(old(il.Value()), t)))
      ensures il.LastNode() == ActionsNode(t, acts)
      ensures acts in Footprint && fresh(Footprint - old(Footprint))
    {
      if t == OFPIT_APPLY_ACTIONS {
        acts := il.ApplyActions();
      } else {
        acts := il.WriteActions();
      }
      label M:
      Footprint := Footprint + {acts};
      KeepsChain@M();
      ChainAdvanced();
    }

    /** Once the caller has appended `xs`, in order, to the list of the last instruction,
        and changed nothing else the flow mod owns, the flow mod is the one
        `PushedActions` describes. */
    twostate lemma ActionsCallDone(xs: seq<Action>)
      requires old(Valid()) && unchanged(this) && instr != null && unchanged(instr)
      requires EndsInActions(old(Value())) && instr.LastNode().ActionsNode?
      requires instr.LastNode().kind == OFPIT_APPLY_ACTIONS || instr.LastNode().kind == OFPIT_WRITE_ACTIONS
      requires forall l :: l in old(instr.Lists()) && l != instr.LastNode().list ==> unchanged(l)
      requires instr.LastNode().list.Valid()
      requires instr.LastNode().list.nodes == PushActions(old(instr.LastNode().list.nodes), xs)
      ensures Valid()
      ensures Value() == PushedActions(old(Value()), xs)
    {
      var k := |instr.nodes| - 1;
      assert old(instr) == instr && old(instr.Valid());
      var r := old(instr.Value());
      assert r[k] == old(NodeValue(instr.nodes[k]));
      instr.ListGrew(k);
      assert Value() == old(Value()).(chain := Some(ReplaceActions(r, k, instr.nodes[k].list.nodes)));
    }

    /** Once the caller has added `ins` through the chain that `instructions()` returned,
        the flow mod is the one `WithInstruction` describes. */
    twostate lemma InstructionCallDone(ins: Instruction)
      requires ins.GotoTable? || ins.WriteMetadata?
      requires old(Valid()) && unchanged(this) && instr != null && ChainWellFormed(old(Value()))
      requires instr.Valid() && instr.Lists() == old(instr.Lists()) && unchanged(old(instr.Lists()))
      requires instr.Value() == AddInstruction(old(instr.Value()), ins)
      ensures Valid()
      ensures Value() == WithInstruction(old(Value()), ins)
    {
    }

    /** `build`: flattens the instruction chain (when there is one), draws the next
        transaction identifier and hands the message to the packer; a packer error ends the
        process. */
    method Build(counter: XidCounter, pack: Message -> Option<seq<byte>>) returns (r: BuildOutcome)
      requires Valid()
      modifies this, counter
      ensures Valid() && Value() == old(Value()) && instr == old(instr) && Footprint == old(Footprint)
      ensures counter.xid == NextXid(old(counter.xid))
      ensures var msg := ToMessage(Value(), counter.xid);
              match pack(msg)
              case None => r == Exited && buffer == old(buffer)
              case Some(wire) => r == Packed(msg, wire) && buffer == wire
    {
      var instructions: seq<Option<Instruction>> := [];
      if instr != null {
        var list := instr.Build();
        instructions := list[..];
      }
      var xid := counter.GetNewXid();
      ChainUnchanged();
      var msg := Message(xid, ofl, stdMatch, instructions);
      assert msg == ToMessage(Value(), counter.xid);
      var packed := pack(msg);
      if packed.None? {
        r := Exited;
        return;
      }
      buffer := packed.value;
      ChainUnchanged();
      r := Packed(msg, buffer);
    }
  }
}
