/** What the flow-mod builder of ofp_builder.cc computes, stated on values: the fresh flow
    mod, the match setters, the action and instruction chains with their merge rule, the
    records each appender creates, and the transaction-identifier sequence. The classes of
    module OfpBuilder are proved to update their state exactly as these functions say. */
module FlowModSpec {
  import opened Bytes
  import opened Wrappers
  import opened OpenFlow

  // ------------------------------------------------------------------
  // Match

  function Fill(n: nat, b: byte): (r: seq<byte>)
    ensures |r| == n && forall i :: 0 <= i < n ==> r[i] == b
  {
    if n == 0 then [] else Fill(n - 1, b) + [b]
  }

  /** The match of a fresh flow mod: zeroed, standard type, everything wildcarded, and the
      Ethernet and IPv4 address masks all ones. */
  function DefaultMatch(): Match
  {
    Match(OFPMT_STANDARD, 0, OFPFW_ALL,
          Fill(ETH_ADDR_LEN, 0), Fill(ETH_ADDR_LEN, 0xFF),
          Fill(ETH_ADDR_LEN, 0), Fill(ETH_ADDR_LEN, 0xFF),
          0, 0, 0, 0, 0,
          0, 0xFFFF_FFFF, 0, 0xFFFF_FFFF,
          0, 0, 0, 0, 0, 0)
  }

  predicate Wildcarded(m: Match, f: Wildcard)
  {
    HasFlag(m.wildcards, WildcardBit(f))
  }

  predicate HasFlag(w: bv32, bit: bv32)
  {
    w & bit != 0
  }

  /** A field that has a wildcard bit holds a value only once that bit has been cleared, and
      the Ethernet addresses and masks are six bytes long. */
  predicate WellFormedMatch(m: Match)
  {
    |m.dlSrc| == ETH_ADDR_LEN && |m.dlSrcMask| == ETH_ADDR_LEN &&
    |m.dlDst| == ETH_ADDR_LEN && |m.dlDstMask| == ETH_ADDR_LEN &&
    UnsetWhileWildcarded(m.wildcards, m.inPort, m.dlVlan, m.dlVlanPcp, m.dlType, m.nwTos,
                         m.nwProto, m.tpSrc, m.tpDst, m.mplsLabel, m.mplsTc)
  }

  /** The wildcard condition on the fields that have a wildcard bit. */
  predicate UnsetWhileWildcarded(w: bv32, inPort: uint32, dlVlan: uint16, dlVlanPcp: uint8,
                                 dlType: uint16, nwTos: uint8, nwProto: uint8, tpSrc: uint16,
                                 tpDst: uint16, mplsLabel: uint32, mplsTc: uint8)
  {
    (HasFlag(w, WildcardBit(InPort)) ==> inPort == 0) &&
    (HasFlag(w, WildcardBit(DlVlan)) ==> dlVlan == 0) &&
    (HasFlag(w, WildcardBit(DlVlanPcp)) ==> dlVlanPcp == 0) &&
    (HasFlag(w, WildcardBit(DlType)) ==> dlType == 0) &&
    (HasFlag(w, WildcardBit(NwTos)) ==> nwTos == 0) &&
    (HasFlag(w, WildcardBit(NwProto)) ==> nwProto == 0) &&
    (HasFlag(w, WildcardBit(TpSrc)) ==> tpSrc == 0) &&
    (HasFlag(w, WildcardBit(TpDst)) ==> tpDst == 0) &&
    (HasFlag(w, WildcardBit(MplsLabel)) ==> mplsLabel == 0) &&
    (HasFlag(w, WildcardBit(MplsTc)) ==> mplsTc == 0)
  }

  /** `w &= ~bit`. */
  function ClearBit(w: bv32, bit: bv32): bv32
  {
    w & !bit
  }

  /** match_mpls_label. */
  function MatchMplsLabel(m: Match, mplsLabel: uint32): Match
  {
    m.(wildcards := ClearBit(ClearBit(m.wildcards, OFPFW_DL_TYPE), OFPFW_MPLS_LABEL),
       dlType := ETH_TYPE_MPLS,
       mplsLabel := mplsLabel)
  }

  /** match_src: the address is stored through htonl and its mask set to exact. */
  function MatchSrc(m: Match, addr: uint32): Match
  {
    m.(wildcards := ClearBit(ClearBit(m.wildcards, OFPFW_DL_TYPE), OFPFW_NW_PROTO),
       dlType := ETH_TYPE_IP,
       nwProto := IP_TYPE_UDP,
       nwSrc := Htonl(addr),
       nwSrcMask := 0)
  }

  /** match_dst. */
  function MatchDst(m: Match, addr: uint32): Match
  {
    m.(wildcards := ClearBit(ClearBit(m.wildcards, OFPFW_DL_TYPE), OFPFW_NW_PROTO),
       dlType := ETH_TYPE_IP,
       nwProto := IP_TYPE_UDP,
       nwDst := Htonl(addr),
       nwDstMask := 0)
  }

  /** The six bytes `memcpy` copies out of `hton_48(v)`. */
  function EthBytes(v: uint64): (r: seq<byte>)
    ensures |r| == ETH_ADDR_LEN
  {
    LeBytes(Hton48(v), ETH_ADDR_LEN)
  }

  /** match_eth_dst: value and mask only, the wildcards are left alone. */
  function MatchEthDst(m: Match, addr: uint64, mask: uint64): Match
  {
    m.(dlDst := EthBytes(addr), dlDstMask := EthBytes(mask))
  }

  /** match_metadata. */
  function MatchMetadata(m: Match, metadata: uint64, mask: uint64): Match
  {
    m.(metadata := metadata, metadataMask := mask)
  }

  lemma DefaultMatchWellFormed()
    ensures WellFormedMatch(DefaultMatch())
  {
  }

  /** Every setter keeps the match well formed. */
  lemma MatchMplsLabelWellFormed(m: Match, mplsLabel: uint32)
    requires WellFormedMatch(m)
    ensures WellFormedMatch(MatchMplsLabel(m, mplsLabel))
  {
    forall f: Wildcard
      ensures HasFlag(MatchMplsLabel(m, mplsLabel).wildcards, WildcardBit(f)) ==> Wildcarded(m, f) && f != DlType && f != MplsLabel
    {
      MatchMplsLabelWildcards(m, mplsLabel, f);
    }
  }

  lemma MatchSrcWellFormed(m: Match, addr: uint32)
    requires WellFormedMatch(m)
    ensures WellFormedMatch(MatchSrc(m, addr))
  {
    forall f: Wildcard
      ensures HasFlag(MatchSrc(m, addr).wildcards, WildcardBit(f)) ==> Wildcarded(m, f) && f != DlType && f != NwProto
    {
      MatchSrcWildcards(m, addr, f);
    }
  }

  lemma MatchDstWellFormed(m: Match, addr: uint32)
    requires WellFormedMatch(m)
    ensures WellFormedMatch(MatchDst(m, addr))
  {
    forall f: Wildcard
      ensures HasFlag(MatchDst(m, addr).wildcards, WildcardBit(f)) ==> Wildcarded(m, f) && f != DlType && f != NwProto
    {
      MatchDstWildcards(m, addr, f);
    }
  }

  lemma MatchEthDstWellFormed(m: Match, addr: uint64, mask: uint64)
    requires WellFormedMatch(m)
    ensures WellFormedMatch(MatchEthDst(m, addr, mask))
  {
  }

  lemma MatchMetadataWellFormed(m: Match, metadata: uint64, mask: uint64)
    requires WellFormedMatch(m)
    ensures WellFormedMatch(MatchMetadata(m, metadata, mask))
  {
  }

  /** Clearing the DL_TYPE and NW_PROTO flags leaves every other flag as it was. */
  lemma ClearTypeAndProto(w: bv32, f: Wildcard)
    ensures HasFlag(ClearBit(ClearBit(w, OFPFW_DL_TYPE), OFPFW_NW_PROTO), WildcardBit(f)) <==>
            HasFlag(w, WildcardBit(f)) && f != DlType && f != NwProto
  {
    match f {
      case InPort =>
      case DlVlan =>
      case DlVlanPcp =>
      case DlType =>
      case NwTos =>
      case NwProto =>
      case TpSrc =>
      case TpDst =>
      case MplsLabel =>
      case MplsTc =>
    }
  }

  /** Clearing the DL_TYPE and MPLS_LABEL flags leaves every other flag as it was. */
  lemma ClearTypeAndLabel(w: bv32, f: Wildcard)
    ensures HasFlag(ClearBit(ClearBit(w, OFPFW_DL_TYPE), OFPFW_MPLS_LABEL), WildcardBit(f)) <==>
            HasFlag(w, WildcardBit(f)) && f != DlType && f != MplsLabel
  {
    match f {
      case InPort =>
      case DlVlan =>
      case DlVlanPcp =>
      case DlType =>
      case NwTos =>
      case NwProto =>
      case TpSrc =>
      case TpDst =>
      case MplsLabel =>
      case MplsTc =>
    }
  }

  /** match_mpls_label clears exactly the DL_TYPE and MPLS_LABEL wildcard flags. */
  lemma MatchMplsLabelWildcards(m: Match, mplsLabel: uint32, f: Wildcard)
    ensures Wildcarded(MatchMplsLabel(m, mplsLabel), f) <==>
            Wildcarded(m, f) && f != DlType && f != MplsLabel
  {
    ClearTypeAndLabel(m.wildcards, f);
  }

  /** match_src clears exactly the DL_TYPE and NW_PROTO wildcard flags. */
  lemma MatchSrcWildcards(m: Match, addr: uint32, f: Wildcard)
    ensures Wildcarded(MatchSrc(m, addr), f) <==>
            Wildcarded(m, f) && f != DlType && f != NwProto
  {
    ClearTypeAndProto(m.wildcards, f);
  }

  /** match_dst clears the same two wildcard flags. */
  lemma MatchDstWildcards(m: Match, addr: uint32, f: Wildcard)
    ensures Wildcarded(MatchDst(m, addr), f) <==>
            Wildcarded(m, f) && f != DlType && f != NwProto
  {
    ClearTypeAndProto(m.wildcards, f);
  }

  /** Repeating match_src or match_dst: the last address wins, the side effects are the
      same as for a single call. */
  lemma MatchAddressLastWriteWins(m: Match, a: uint32, b: uint32)
    ensures MatchSrc(MatchSrc(m, a), b) == MatchSrc(m, b)
    ensures MatchDst(MatchDst(m, a), b) == MatchDst(m, b)
  {
  }

  /** The memory of the stored source address holds the address in network byte order. */
  lemma MatchSrcNetworkOrder(m: Match, addr: uint32)
    ensures LeBytes(MatchSrc(m, addr).nwSrc, 4) == BeBytes(addr, 4)
    ensures LeBytes(MatchDst(m, addr).nwDst, 4) == BeBytes(addr, 4)
  {
    HtonlBytes(addr);
  }

  /** match_eth_dst stores the 6 big-endian bytes of the low 48 bits of address and mask. */
  lemma MatchEthDstBytes(m: Match, addr: uint64, mask: uint64)
    ensures MatchEthDst(m, addr, mask).dlDst == BeBytes(addr % Pow256(6), 6)
    ensures MatchEthDst(m, addr, mask).dlDstMask == BeBytes(mask % Pow256(6), 6)
    ensures MatchEthDst(m, addr, mask).wildcards == m.wildcards
  {
    Hton48Bytes(addr);
    Hton48Bytes(mask);
  }

  // ------------------------------------------------------------------
  // Chains

  /** A builder chain flattened in order: slot 0 is the head node, which stays empty (its
      record pointer null) until the first append; every later node is filled as it is
      created. */
  predicate IsChain<T>(c: seq<Option<T>>)
  {
    |c| >= 1 && (c[0].None? ==> |c| == 1) && forall i :: 1 <= i < |c| ==> c[i].Some?
  }

  /** The records of a chain, in chain order. */
  function Filled<T>(c: seq<Option<T>>): (r: seq<T>)
    ensures |r| <= |c|
  {
    if c == [] then []
    else Filled(c[..|c| - 1]) + (if c[|c| - 1].Some? then [c[|c| - 1].value] else [])
  }

  function Last<T>(s: seq<T>): T
    requires s != []
  {
    s[|s| - 1]
  }

  /** `get_num` counts every node, the head included even while it is empty. */
  lemma {:induction false} ChainLength<T>(c: seq<Option<T>>)
    requires IsChain(c)
    ensures |c| == if c[0].None? then 1 else |Filled(c)|
    ensures c[0].None? <==> Filled(c) == []
  {
    if |c| > 1 {
      ChainLength(c[..|c| - 1]);
    }
  }

  /** b_actions::New followed by filling the node it returns: the first action fills the
      head, every later one adds a node at the end. */
  function PushAction(c: seq<Option<Action>>, a: Action): seq<Option<Action>>
    requires IsChain(c)
  {
    if c[0].None? then [Some(a)] else c + [Some(a)]
  }

  /** A sequence of action appends, in call order. */
  function PushActions(c: seq<Option<Action>>, acts: seq<Action>): (r: seq<Option<Action>>)
    requires IsChain(c)
    ensures IsChain(r)
    decreases |acts|
  {
    if acts == [] then c
    else
      PushActionIsAppend(c, acts[0]);
      PushActions(PushAction(c, acts[0]), acts[1..])
  }

  /** One append adds exactly one record, at the end, and changes no other record. */
  lemma PushActionIsAppend(c: seq<Option<Action>>, a: Action)
    requires IsChain(c)
    ensures IsChain(PushAction(c, a))
    ensures Filled(PushAction(c, a)) == Filled(c) + [a]
  {
    ChainLength(c);
    if c[0].Some? {
      assert PushAction(c, a)[..|c|] == c;
    }
  }

  /** Actions are never merged: a list's records are the appended actions in call order. */
  lemma {:induction false} ActionsInCallOrder(c: seq<Option<Action>>, acts: seq<Action>)
    requires IsChain(c)
    ensures Filled(PushActions(c, acts)) == Filled(c) + acts
    decreases |acts|
  {
    if acts != [] {
      var c1 := PushAction(c, acts[0]);
      PushActionIsAppend(c, acts[0]);
      ActionsInCallOrder(c1, acts[1..]);
      assert PushActions(c, acts) == PushActions(c1, acts[1..]);
      assert Filled(c) + [acts[0]] + acts[1..] == Filled(c) + acts by {
        assert [acts[0]] + acts[1..] == acts;
      }
    }
  }

  /** Two appends, one after the other. */
  lemma PushTwoActions(c: seq<Option<Action>>, a: Action, b: Action)
    requires IsChain(c)
    ensures IsChain(PushAction(c, a))
    ensures PushActions(c, [a, b]) == PushAction(PushAction(c, a), b)
  {
    PushActionIsAppend(c, a);
    var c1 := PushAction(c, a);
    PushActionIsAppend(c1, b);
    assert [a, b][1..] == [b];
    assert PushActions(c, [a, b]) == PushActions(c1, [b]);
    assert [b][1..] == [];
    assert PushActions(c1, [b]) == PushActions(PushAction(c1, b), []);
  }

  /** Appending in two batches is appending their concatenation. */
  lemma {:induction false} PushActionsConcat(c: seq<Option<Action>>, xs: seq<Action>, ys: seq<Action>)
    requires IsChain(c)
    ensures PushActions(PushActions(c, xs), ys) == PushActions(c, xs + ys)
    decreases |xs|
  {
    if xs != [] {
      PushActionIsAppend(c, xs[0]);
      var c1 := PushAction(c, xs[0]);
      PushActionsConcat(c1, xs[1..], ys);
      assert PushActions(c, xs) == PushActions(c1, xs[1..]);
      assert (xs + ys)[0] == xs[0];
      assert (xs + ys)[1..] == xs[1..] + ys;
      assert PushActions(c, xs + ys) == PushActions(c1, xs[1..] + ys);
    } else {
      assert xs + ys == ys;
    }
  }

  /** The flattened array of a fresh list after k appends has k entries, except that with no
      appends it has one null entry. */
  lemma FreshListFlattened(acts: seq<Action>)
    ensures var r := PushActions([None], acts);
            |r| == (if acts == [] then 1 else |acts|) &&
            (acts == [] ==> r == [None]) &&
            (forall i :: 0 <= i < |acts| ==> r[i] == Some(acts[i]))
  {
    var r := PushActions([None], acts);
    ActionsInCallOrder([None], acts);
    var empty: seq<Option<Action>> := [None];
    assert Filled(empty) == [];
    ChainLength(r);
    if acts != [] {
      FilledOfFullChain(r);
    }
  }

  /** In a chain whose head is filled, the records are exactly the slots. */
  lemma {:induction false} FilledOfFullChain<T>(c: seq<Option<T>>)
    requires IsChain(c) && c[0].Some?
    ensures |Filled(c)| == |c| && forall i :: 0 <= i < |c| ==> c[i] == Some(Filled(c)[i])
  {
    if |c| > 1 {
      FilledOfFullChain(c[..|c| - 1]);
    }
  }

  // ------------------------------------------------------------------
  // Instruction chains

  /** An instruction chain whose action-bearing instructions hold well-formed action
      chains. */
  predicate IsInstructionChain(c: seq<Option<Instruction>>)
  {
    IsChain(c) &&
    forall i :: 0 <= i < |c| && c[i].Some? && !c[i].value.GotoTable? && !c[i].value.WriteMetadata? ==>
      IsChain(c[i].value.actions)
  }

  /** The node b_instructions::New(type) hands back, as an index: the head while it is
      empty; the tail when an apply- or write-actions request finds a tail of that type;
      otherwise |c|, a new node at the end. */
  function NewIndex(c: seq<Option<Instruction>>, t: int): (k: nat)
    requires IsChain(c)
    ensures k <= |c|
  {
    if c[0].None? then 0
    else if (t == OFPIT_APPLY_ACTIONS as int || t == OFPIT_WRITE_ACTIONS as int) &&
            c[|c| - 1].value.Type() as int == t then |c| - 1
    else |c|
  }

  /** Put a record into slot k, which is either an existing slot or one past the end. */
  function Place<T>(c: seq<Option<T>>, k: nat, x: T): (r: seq<Option<T>>)
    requires k <= |c|
    ensures |r| == (if k == |c| then |c| + 1 else |c|)
  {
    if k == |c| then c + [Some(x)] else c[k := Some(x)]
  }

  /** goto_table and write_metadata: New() with its default type 0, then fill the node. */
  function AddInstruction(c: seq<Option<Instruction>>, ins: Instruction): seq<Option<Instruction>>
    requires IsChain(c)
  {
    Place(c, NewIndex(c, 0), ins)
  }

  function EmptyActions(t: uint16): Instruction
  {
    if t == OFPIT_APPLY_ACTIONS then ApplyActions([None]) else WriteActions([None])
  }

  /** apply_actions and write_actions: New(type); a node that already holds a record is
      reused, otherwise it gets an instruction with a fresh, empty action list. */
  function RequestActions(c: seq<Option<Instruction>>, t: uint16): seq<Option<Instruction>>
    requires IsChain(c)
  {
    var k := NewIndex(c, t as int);
    if k < |c| && c[k].Some? then c else Place(c, k, EmptyActions(t))
  }

  /** Append an action to the action list of the instruction in slot k. */
  function PushActionsAt(c: seq<Option<Instruction>>, k: nat, acts: seq<Action>): seq<Option<Instruction>>
    requires k < |c| && c[k].Some? && (c[k].value.ApplyActions? || c[k].value.WriteActions?)
    requires IsChain(c[k].value.actions)
  {
    ReplaceActions(c, k, PushActions(c[k].value.actions, acts))
  }

  /** The chain once the action list of the instruction in slot k holds `acts`. */
  function ReplaceActions(c: seq<Option<Instruction>>, k: nat, acts: seq<Option<Action>>): (r: seq<Option<Instruction>>)
    requires k < |c| && c[k].Some? && (c[k].value.ApplyActions? || c[k].value.WriteActions?)
    ensures |r| == |c| && r[k].Some? && r[k].value.Type() == c[k].value.Type()
    ensures r[k].value.actions == acts
    ensures forall i :: 0 <= i < |c| && i != k ==> r[i] == c[i]
  {
    c[k := Some(c[k].value.(actions := acts))]
  }

  /** `apply_actions()` or `write_actions()` followed by appends on the list it returns. */
  function ActionsCall(c: seq<Option<Instruction>>, t: uint16, acts: seq<Action>): (r: seq<Option<Instruction>>)
    requires IsInstructionChain(c)
    requires t == OFPIT_APPLY_ACTIONS || t == OFPIT_WRITE_ACTIONS
    ensures IsInstructionChain(r) && |r| >= |c|
  {
    var r := RequestActions(c, t);
    RequestActionsShape(c, t);
    PushActionsAt(r, |r| - 1, acts)
  }

  /** The list apply_actions or write_actions returns is always the tail node's; it is the
      old tail's own list exactly when the tail already had the requested type. */
  lemma RequestActionsShape(c: seq<Option<Instruction>>, t: uint16)
    requires IsInstructionChain(c)
    requires t == OFPIT_APPLY_ACTIONS || t == OFPIT_WRITE_ACTIONS
    ensures var r := RequestActions(c, t);
            IsInstructionChain(r) &&
            NewIndex(c, t as int) == |r| - 1 && r[|r| - 1].Some? &&
            r[|r| - 1].value.Type() == t && |r| >= |c| &&
            (c[0].Some? && Last(c).value.Type() == t ==> r == c) &&
            (!(c[0].Some? && Last(c).value.Type() == t) ==>
              Filled(r) == Filled(c) + [EmptyActions(t)])
  {
    ChainLength(c);
    var r := RequestActions(c, t);
    if c[0].Some? && Last(c).value.Type() != t {
      assert r[..|c|] == c;
    }
  }

  /** goto_table and write_metadata never merge: each call adds one instruction at the end
      (two write_metadata calls give two instructions). */
  lemma AddInstructionAppends(c: seq<Option<Instruction>>, ins: Instruction)
    requires IsInstructionChain(c)
    requires ins.GotoTable? || ins.WriteMetadata?
    ensures IsInstructionChain(AddInstruction(c, ins))
    ensures Filled(AddInstruction(c, ins)) == Filled(c) + [ins]
  {
    ChainLength(c);
    var r := AddInstruction(c, ins);
    if c[0].Some? {
      assert r[..|c|] == c;
    }
  }

  /** Consecutive apply_actions (or write_actions) calls coalesce into one instruction
      whose actions are all the appended actions in call order, whatever came before. */
  lemma ActionsCallsCoalesce(c: seq<Option<Instruction>>, t: uint16, xs: seq<Action>, ys: seq<Action>)
    requires IsInstructionChain(c)
    requires t == OFPIT_APPLY_ACTIONS || t == OFPIT_WRITE_ACTIONS
    ensures ActionsCall(ActionsCall(c, t, xs), t, ys) == ActionsCall(c, t, xs + ys)
  {
    var r1 := RequestActions(c, t);
    RequestActionsShape(c, t);
    var c1 := ActionsCall(c, t, xs);
    RequestActionsShape(c1, t);
    assert c1[0].Some? && Last(c1).value.Type() == t;
    assert RequestActions(c1, t) == c1;
    var k := |r1| - 1;
    var a := r1[k].value.actions;
    PushActionsConcat(a, xs, ys);
    ReplaceActionsTwice(r1, k, PushActions(a, xs), PushActions(PushActions(a, xs), ys));
  }

  /** A second replacement of the same slot's actions overrides the first. */
  lemma ReplaceActionsTwice(c: seq<Option<Instruction>>, k: nat, a: seq<Option<Action>>, b: seq<Option<Action>>)
    requires k < |c| && c[k].Some? && (c[k].value.ApplyActions? || c[k].value.WriteActions?)
    ensures ReplaceActions(ReplaceActions(c, k, a), k, b) == ReplaceActions(c, k, b)
  {
  }

  /** A run of actions calls of one type, starting on a chain whose tail has another type
      (or is empty), adds exactly one instruction holding the actions in call order. */
  lemma ActionsCallOnOtherTail(c: seq<Option<Instruction>>, t: uint16, acts: seq<Action>)
    requires IsInstructionChain(c)
    requires t == OFPIT_APPLY_ACTIONS || t == OFPIT_WRITE_ACTIONS
    requires c[0].Some? ==> Last(c).value.Type() != t
    ensures var r := ActionsCall(c, t, acts);
            |Filled(r)| == |Filled(c)| + 1 && Filled(r)[..|Filled(c)|] == Filled(c) &&
            Last(Filled(r)).Type() == t &&
            Filled(Last(Filled(r)).actions) == acts
  {
    RequestActionsShape(c, t);
    var q := RequestActions(c, t);
    var r := ActionsCall(c, t, acts);
    ChainLength(q);
    FilledOfFullChain(q);
    FilledOfFullChain(r);
    ActionsInCallOrder([None], acts);
    var empty: seq<Option<Action>> := [None];
    assert Filled(empty) == [];
    assert Filled(r)[..|Filled(c)|] == Filled(q)[..|Filled(c)|];
  }

  // ------------------------------------------------------------------
  // The flow mod as a value

  /** The state of a `b_flow_mod`: its scalar fields, its match and, once `instructions()`
      has been called, its instruction chain. */
  datatype FlowModValue = FlowModValue(
    fields: FlowModFields,
    stdMatch: Match,
    chain: Option<seq<Option<Instruction>>>)

  /** The constructor: every field zero except the ones the constructor sets. */
  function NewFlowMod(): FlowModValue
  {
    FlowModValue(
      FlowModFields(OFPT_FLOW_MOD, 0, 0, 0, OFPFC_ADD, OFP_FLOW_PERMANENT, OFP_FLOW_PERMANENT,
                    OFP_DEFAULT_PRIORITY, OFP_NO_BUFFER, OFPP_ANY, OFPG_ANY, 0),
      DefaultMatch(),
      None)
  }

  predicate WellFormed(v: FlowModValue)
  {
    WellFormedMatch(v.stdMatch) && ChainWellFormed(v)
  }

  predicate ChainWellFormed(v: FlowModValue)
  {
    v.chain.Some? ==> IsInstructionChain(v.chain.value)
  }

  /** The chain `instructions()` works on: created empty on first use. */
  function ChainOf(v: FlowModValue): seq<Option<Instruction>>
  {
    v.chain.GetOr([None])
  }

  function WithTable(v: FlowModValue, tableId: uint8): FlowModValue
  {
    v.(fields := v.fields.(tableId := tableId))
  }

  function WithPriority(v: FlowModValue, priority: uint16): FlowModValue
  {
    v.(fields := v.fields.(priority := priority))
  }

  function WithMatch(v: FlowModValue, m: Match): FlowModValue
  {
    v.(stdMatch := m)
  }

  function WithInstruction(v: FlowModValue, ins: Instruction): (r: FlowModValue)
    requires ChainWellFormed(v)
    requires ins.GotoTable? || ins.WriteMetadata?
    ensures ChainWellFormed(r) && r.fields == v.fields && r.stdMatch == v.stdMatch
  {
    AddInstructionAppends(ChainOf(v), ins);
    v.(chain := Some(AddInstruction(ChainOf(v), ins)))
  }

  function WithActions(v: FlowModValue, t: uint16, acts: seq<Action>): (r: FlowModValue)
    requires ChainWellFormed(v)
    requires t == OFPIT_APPLY_ACTIONS || t == OFPIT_WRITE_ACTIONS
    ensures ChainWellFormed(r) && r.fields == v.fields && r.stdMatch == v.stdMatch
  {
    v.(chain := Some(ActionsCall(ChainOf(v), t, acts)))
  }

  /** A flow mod whose chain ends in an apply- or write-actions instruction. */
  predicate EndsInActions(v: FlowModValue)
  {
    v.chain.Some? && IsInstructionChain(v.chain.value) && Last(v.chain.value).Some? &&
    (Last(v.chain.value).value.ApplyActions? || Last(v.chain.value).value.WriteActions?)
  }

  /** Appends on the list of the last instruction of the chain. */
  function PushedActions(v: FlowModValue, acts: seq<Action>): FlowModValue
    requires EndsInActions(v)
  {
    var c := v.chain.value;
    v.(chain := Some(PushActionsAt(c, |c| - 1, acts)))
  }

  /** `apply_actions()` (or `write_actions()`) followed by appends is the request, then the
      appends on the list it returned. */
  lemma RequestThenPush(v: FlowModValue, t: uint16, acts: seq<Action>)
    requires ChainWellFormed(v)
    requires t == OFPIT_APPLY_ACTIONS || t == OFPIT_WRITE_ACTIONS
    ensures EndsInActions(v.(chain := Some(RequestActions(ChainOf(v), t))))
    ensures PushedActions(v.(chain := Some(RequestActions(ChainOf(v), t))), acts) == WithActions(v, t, acts)
  {
    RequestEndsInActions(v, t);
  }

  /** After `apply_actions()` (or `write_actions()`) the chain ends in an action record. */
  lemma RequestEndsInActions(v: FlowModValue, t: uint16)
    requires ChainWellFormed(v)
    requires t == OFPIT_APPLY_ACTIONS || t == OFPIT_WRITE_ACTIONS
    ensures EndsInActions(v.(chain := Some(RequestActions(ChainOf(v), t))))
  {
    RequestActionsShape(ChainOf(v), t);
  }

  /** What `build` hands to the packer: the flattened instruction array is empty when the
      flow mod never got a chain. */
  function ToMessage(v: FlowModValue, xid: uint32): Message
  {
    Message(xid, v.fields, v.stdMatch, match v.chain case None => [] case Some(c) => c)
  }

  /** A fresh flow mod is well formed, and built as it is it carries no instruction. */
  lemma NewFlowModDefaults(xid: uint32)
    ensures WellFormed(NewFlowMod())
    ensures ToMessage(NewFlowMod(), xid).instructions == []
  {
    DefaultMatchWellFormed();
  }

  // ------------------------------------------------------------------
  // The records the action appenders create

  /** `output(int port_no)`: the signed port is stored in a uint32_t field; max_len 0. */
  function OutputAction(portNo: int): Action
  {
    Output(portNo % UINT32_LIMIT, 0)
  }

  /** `set_eth_dst`: the six bytes of hton_48(addr). */
  function SetEthDstAction(addr: uint64): Action
  {
    SetDlDst(EthBytes(addr))
  }

  /** `set_ipv4_destination`: the address goes through htonl. */
  function SetIpv4DstAction(addr: uint32): Action
  {
    SetNwDst(Htonl(addr))
  }

  /** The 6-byte field of `update_distance_in_metadata`: the first three host-order bytes
      of x, then the first three of y. */
  function CoordinateBytes(x: uint32, y: uint32): (r: seq<byte>)
    ensures |r| == 6
  {
    LeBytes(x, 3) + LeBytes(y, 3)
  }

  function UpdateDistanceAction(x: uint32, y: uint32, port: uint32): Action
  {
    Experimenter(UpdateDistance(port, CoordinateBytes(x, y)))
  }

  /** set_eth_dst carries the big-endian bytes of the low 48 bits of its argument. */
  lemma SetEthDstBytes(addr: uint64)
    ensures SetEthDstAction(addr).dlAddr == BeBytes(addr % Pow256(6), 6)
  {
    Hton48Bytes(addr);
  }

  /** Each coordinate's three bytes are least significant first, so for coordinates below
      2^24 the field holds each coordinate's big-endian bytes reversed, and each half
      reads back as its coordinate. */
  lemma {:induction false} CoordinateBytesOrder(x: uint32, y: uint32)
    requires x < 0x100_0000 && y < 0x100_0000
    ensures CoordinateBytes(x, y) == Reverse(BeBytes(x, 3)) + Reverse(BeBytes(y, 3))
    ensures FromLe(CoordinateBytes(x, y)[..3]) == x && FromLe(CoordinateBytes(x, y)[3..]) == y
  {
    var lx, ly := LeBytes(x, 3), LeBytes(y, 3);
    ReverseReverse(lx);
    ReverseReverse(ly);
    FromLeOfLeBytes(x, 3);
    FromLeOfLeBytes(y, 3);
    assert Pow256(3) == 0x100_0000;
    assert (lx + ly)[..3] == lx && (lx + ly)[3..] == ly;
  }

  /** The coordinates (1, 2) give the field 01 00 00 02 00 00. */
  lemma CoordinateBytesExample()
    ensures CoordinateBytes(1, 2) == [1, 0, 0, 2, 0, 0]
  {
  }

  lemma ReverseReverse<T>(s: seq<T>)
    ensures Reverse(Reverse(s)) == s
  {
    var r := Reverse(Reverse(s));
    forall k | 0 <= k < |s|
      ensures r[k] == s[k]
    {
      ReverseAt(Reverse(s), k);
      ReverseAt(s, |s| - 1 - k);
    }
  }

  // ------------------------------------------------------------------
  // Transaction identifiers

  /** `get_new_xid`: the class-wide uint32_t counter is pre-incremented. */
  function NextXid(xid: uint32): uint32
  {
    (xid + 1) % UINT32_LIMIT
  }

  /** The identifiers the next k builds receive, starting from counter value `xid`. */
  function Xids(xid: uint32, k: nat): (r: seq<uint32>)
    ensures |r| == k
    decreases k
  {
    if k == 0 then [] else [NextXid(xid)] + Xids(NextXid(xid), k - 1)
  }

  /** From a fresh counter, the i-th build gets i + 1: the first message gets 1 and
      identifiers strictly increase until the counter wraps after 2^32 - 1 builds. */
  lemma {:induction false} XidsCount(xid: uint32, k: nat)
    requires xid + k < UINT32_LIMIT
    ensures forall i :: 0 <= i < k ==> Xids(xid, k)[i] == xid + i + 1
    decreases k
  {
    if k > 0 {
      XidsCount(NextXid(xid), k - 1);
    }
  }

  lemma XidsIncrease(k: nat)
    requires k < UINT32_LIMIT
    ensures forall i, j :: 0 <= i < j < k ==> Xids(0, k)[i] < Xids(0, k)[j]
    ensures k > 0 ==> Xids(0, k)[0] == 1
  {
    XidsCount(0, k);
  }
}
