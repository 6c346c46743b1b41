/** The Mininet side of the butterfly experiment: the Bloom-filter MAC helpers
    (`BloomHelper.get_id`, `mac_addr_to_hex`, `format_mac`, `get_mac_from_route`), the
    greedy-routing helpers of `do_controller` (`get_greedy_mac`, `is_switch`), and the
    topology that `ButterflyTopo.__init__` loads from its two tables. */
module Butterfly {
  import opened Wrappers
  import opened Bytes
  import opened Bits
  import opened HexText
  import FlowModSpec

  /** `edges_db`: node id -> neighbour id -> Bloom id (hex text). */
  type EdgesDb = map<int, map<int, string>>

  /** `coords`: node id -> [x, y]. */
  type CoordsDb = map<int, (int, int)>

  // ------------------------------------------------------------------
  // MAC text

  /** `format_mac`: `'%.12x'`, then colons between the pairs of every 12 characters. */
  function FormatMac(n: int): string
  {
    Substitute(ColonPairs, HexFormat(n, 12))
  }

  /** `mac_addr_to_hex`: the colons removed, then `int(_, 16)`; `None` where Python raises
      `ValueError`. */
  function MacAddrToHex(addr: string): Option<int>
  {
    ParseInt(RemoveColons(addr), 16)
  }

  /** The two lower-case hex digits of each byte. */
  function BytePairs(bs: seq<byte>): (r: seq<string>)
    ensures |r| == |bs| && forall k :: 0 <= k < |bs| ==> |r[k]| == 2
  {
    seq(|bs|, k requires 0 <= k < |bs| => FixedDigits(bs[k], 16, 2))
  }

  /** Six bytes as the usual MAC text: two lower-case hex digits each, joined by colons. */
  function MacOfBytes(bs: seq<byte>): string
    requires |bs| == 6
  {
    Join(BytePairs(bs))
  }

  /** Reading back a formatted MAC gives the number, for every integer (a negative one
      keeps its sign through both steps). */
  lemma MacAddrRoundTrip(n: int)
    ensures MacAddrToHex(FormatMac(n)) == Some(n)
  {
    var s := HexFormat(n, 12);
    RemoveColonsSubstitute(s);
    SignedPlain(n, 16, 12);
    RemoveColonsNone(s);
    ParseSigned(n, 16, 12);
  }

  /** The hex pairs of a byte string are the pairs of its text. */
  lemma {:induction false} HexOfBytesAt(bs: seq<byte>, k: nat)
    requires k < |bs|
    ensures HexOfBytes(bs)[2 * k..2 * k + 2] == FixedDigits(bs[k], 16, 2)
  {
    var init := bs[..|bs| - 1];
    assert HexOfBytes(bs) == HexOfBytes(init) + FixedDigits(bs[|bs| - 1], 16, 2);
    if k < |bs| - 1 {
      HexOfBytesAt(init, k);
      assert HexOfBytes(bs)[2 * k..2 * k + 2] == HexOfBytes(init)[2 * k..2 * k + 2];
    }
  }

  /** The groups of the hex text of bytes are the bytes' hex pairs. */
  lemma PairsOfBytes(bs: seq<byte>)
    requires |bs| == 6
    ensures Pairs(HexOfBytes(bs)) == BytePairs(bs)
  {
    forall k | 0 <= k < 6
      ensures Pairs(HexOfBytes(bs))[k] == BytePairs(bs)[k]
    {
      HexOfBytesAt(bs, k);
    }
  }

  /** The substitution replaces a 12-character text without newlines once. */
  lemma SubstituteOnce(t: Template, s: string)
    requires |s| == 12 && NoNewline(s)
    ensures Substitute(t, s) == Replace(t, s)
  {
    assert s[..12] == s && s[12..] == [];
  }

  lemma Pow48()
    ensures Pow256(6) == Pow(16, 12)
  {
  }

  /** For n < 2^48, `format_mac(n)` is the six bytes of n, most significant first, as
      colon-separated pairs of lower-case hex digits. */
  lemma FormatMacBytes(n: int)
    requires 0 <= n < Pow256(6)
    ensures FormatMac(n) == MacOfBytes(BeBytes(n, 6))
  {
    Pow48();
    HexFormatFixed(n, 12);
    FixedDigitsBytes(n, 6);
    SignedPlain(n, 16, 12);
    SubstituteOnce(ColonPairs, HexFormat(n, 12));
    PairsOfBytes(BeBytes(n, 6));
  }

  /** MAC text has 17 characters: a colon at every third position and a lower-case hex
      digit everywhere else. */
  lemma MacOfBytesShape(bs: seq<byte>)
    requires |bs| == 6
    ensures |MacOfBytes(bs)| == 17
    ensures forall i :: 0 <= i < 17 ==> (MacOfBytes(bs)[i] == ':' <==> i % 3 == 2)
    ensures forall i :: 0 <= i < 17 && i % 3 != 2 ==> MacOfBytes(bs)[i] in DIGITS
  {
    var ps := BytePairs(bs);
    var r := MacOfBytes(bs);
    JoinShape(ps);
    forall i | 0 <= i < 17 && i % 3 != 2
      ensures r[i] in DIGITS && r[i] != ':'
    {
      var k := i / 3;
      FixedDigitsChars(bs[k], 16, 2);
      assert r[i] == ps[k][i % 3];
      assert ':' !in DIGITS;
    }
  }

  // ------------------------------------------------------------------
  // Bloom ids of links

  /** The id `get_id` returns for a link it does not know. */
  const UNKNOWN_ID: string := "000000000000"

  /** `re.sub('[hs]', '', s)`. */
  function StripHs(s: string): (r: string)
    ensures forall i :: 0 <= i < |r| ==> r[i] != 'h' && r[i] != 's'
  {
    if s == [] then []
    else StripHs(s[..|s| - 1]) + (if s[|s| - 1] == 'h' || s[|s| - 1] == 's' then [] else [s[|s| - 1]])
  }

  /** `get_id`: the node names lose their `h` and `s` letters and are read as decimal
      numbers; if either fails to read, both become 0. The Bloom id of that link, or
      `UNKNOWN_ID` for a link `edges_db` does not have. */
  function GetId(db: EdgesDb, nodeFrom: string, nodeTo: string): string
  {
    var src := ParseInt(StripHs(nodeFrom), 10);
    var dst := ParseInt(StripHs(nodeTo), 10);
    var ends := if src.Some? && dst.Some? then (src.value, dst.value) else (0, 0);
    if ends.0 in db && ends.1 in db[ends.0] then db[ends.0][ends.1] else UNKNOWN_ID
  }

  lemma {:induction false} StripHsNone(s: string)
    requires forall i :: 0 <= i < |s| ==> s[i] != 'h' && s[i] != 's'
    ensures StripHs(s) == s
  {
    if s != [] {
      StripHsNone(s[..|s| - 1]);
    }
  }

  lemma {:induction false} StripHsPrefix(c: char, s: string)
    requires c == 'h' || c == 's'
    ensures StripHs([c] + s) == StripHs(s)
    decreases |s|
  {
    if s != [] {
      assert ([c] + s)[..|[c] + s| - 1] == [c] + s[..|s| - 1];
      StripHsPrefix(c, s[..|s| - 1]);
    } else {
      assert StripHs([c]) == StripHs([]) + [];
    }
  }

  /** The name of node n as the topology prints it: `'h%d'` or `'s%d'`. */
  function NodeName(prefix: char, n: int): string
  {
    [prefix] + DecFormat(n)
  }

  /** The names of two nodes lead `get_id` to exactly their link: its Bloom id, or
      `UNKNOWN_ID` when `edges_db` has no such link. */
  lemma GetIdOfNames(db: EdgesDb, p: char, a: int, q: char, b: int)
    requires (p == 'h' || p == 's') && (q == 'h' || q == 's')
    ensures GetId(db, NodeName(p, a), NodeName(q, b)) ==
            if a in db && b in db[a] then db[a][b] else UNKNOWN_ID
  {
    SignedPlain(a, 10, 1);
    SignedPlain(b, 10, 1);
    StripHsPrefix(p, DecFormat(a));
    StripHsPrefix(q, DecFormat(b));
    StripHsNone(DecFormat(a));
    StripHsNone(DecFormat(b));
    ParseSigned(a, 10, 1);
    ParseSigned(b, 10, 1);
  }

  /** A node name that does not read as a number makes `get_id` look up the link 0 -> 0. */
  lemma GetIdOfBadName(db: EdgesDb, nodeFrom: string, nodeTo: string)
    requires ParseInt(StripHs(nodeFrom), 10).None? || ParseInt(StripHs(nodeTo), 10).None?
    ensures GetId(db, nodeFrom, nodeTo) == if 0 in db && 0 in db[0] then db[0][0] else UNKNOWN_ID
  {
  }

  /** The id of an unknown link reads as 0, so OR-ing it into a MAC changes nothing. */
  lemma UnknownIdIsZero(m: int)
    ensures ParseInt(UNKNOWN_ID, 16) == Some(0)
    ensures Or(m, 0) == m
  {
    FixedDigitsValue(0, 16, 12);
    assert FixedDigits(0, 16, 12) == UNKNOWN_ID;
    OrZero(m);
  }

  // ------------------------------------------------------------------
  // MAC of a route

  /** A link of a route, as the pair of node names it goes between. */
  type Hop = (string, string)

  /** `zip(r[:-1], r[1:])`: the consecutive pairs of a sub-route. */
  function Hops(r: seq<string>): (h: seq<Hop>)
    ensures |h| == if r == [] then 0 else |r| - 1
    ensures forall i :: 0 <= i < |h| ==> h[i] == (r[i], r[i + 1])
  {
    seq(if r == [] then 0 else |r| - 1, i requires 0 <= i < (if r == [] then 0 else |r| - 1) => (r[i], r[i + 1]))
  }

  /** Python's `r[:-1]`: every element but the last; empty for an empty list. */
  function DropLast<T>(r: seq<T>): (d: seq<T>)
    ensures |d| == if r == [] then 0 else |r| - 1
  {
    if r == [] then [] else r[..|r| - 1]
  }

  /** Python's `r[1:]`: every element but the first; empty for an empty list. */
  function DropFirst<T>(r: seq<T>): (d: seq<T>)
    ensures |d| == if r == [] then 0 else |r| - 1
  {
    if r == [] then [] else r[1..]
  }

  /** Python's `zip(a, b)`: the pairs of a and b position by position, stopping at the shorter. */
  function Zip<A, B>(a: seq<A>, b: seq<B>): (z: seq<(A, B)>)
    ensures |z| == if |a| <= |b| then |a| else |b|
  {
    if a == [] || b == [] then [] else [(a[0], b[0])] + Zip(a[1..], b[1..])
  }

  /** The hops of a sub-route are exactly what `zip(r[:-1], r[1:])` yields. */
  lemma {:induction false} HopsAreZip(r: seq<string>)
    ensures Hops(r) == Zip(DropLast(r), DropFirst(r))
    decreases |r|
  {
    if |r| >= 2 {
      var t := r[1..];
      HopsAreZip(t);
      assert DropLast(r)[1..] == DropLast(t);
      assert DropFirst(r)[1..] == DropFirst(t);
      assert Hops(r) == [(r[0], r[1])] + Hops(t);
    }
  }

  /** The hops of every sub-route, in order. */
  function RouteHops(route: seq<seq<string>>): seq<Hop>
  {
    if route == [] then [] else RouteHops(route[..|route| - 1]) + Hops(route[|route| - 1])
  }

  /** `int(get_id(...), 16)` for one hop; `None` where Python raises `ValueError`. */
  function HopId(db: EdgesDb, h: Hop): Option<int>
  {
    ParseInt(GetId(db, h.0, h.1), 16)
  }

  function HopIds(db: EdgesDb, hops: seq<Hop>): (ids: seq<Option<int>>)
    ensures |ids| == |hops| && forall i :: 0 <= i < |hops| ==> ids[i] == HopId(db, hops[i])
  {
    seq(|hops|, i requires 0 <= i < |hops| => HopId(db, hops[i]))
  }

  /** The OR of a list of ids, from 0; `None` from the first id that did not read on. */
  function OrAll(ids: seq<Option<int>>): Option<int>
  {
    if ids == [] then Some(0)
    else match OrAll(ids[..|ids| - 1])
      case None => None
      case Some(m) => if ids[|ids| - 1].None? then None else Some(Or(m, ids[|ids| - 1].value))
  }

  /** The MAC bits of a list of hops. */
  function RouteMac(db: EdgesDb, hops: seq<Hop>): Option<int>
  {
    OrAll(HopIds(db, hops))
  }

  lemma HopIdsSnoc(db: EdgesDb, hops: seq<Hop>, h: Hop)
    ensures HopIds(db, hops + [h]) == HopIds(db, hops) + [HopId(db, h)]
  {
  }

  /** `get_mac_from_route`: OR the Bloom id of every hop of every sub-route into `mac`,
      then format it; `None` where an id is not hex text and Python raises. */
  method GetMacFromRoute(db: EdgesDb, route: seq<seq<string>>) returns (r: Option<string>)
    ensures RouteMac(db, RouteHops(route)).None? ==> r.None?
    ensures RouteMac(db, RouteHops(route)).Some? ==> r == Some(FormatMac(RouteMac(db, RouteHops(route)).value))
  {
    var mac := 0;
    var i := 0;
    while i < |route|
      invariant 0 <= i <= |route|
      invariant OrAll(HopIds(db, RouteHops(route[..i]))) == Some(mac)
    {
      RouteHopsStep(route, i);
      var m := OrSubRoute(db, RouteHops(route[..i]), mac, route[i]);
      if m.None? {
        RouteFailsFrom(db, route, i);
        return None;
      }
      mac := m.value;
      i := i + 1;
    }
    assert route[..i] == route;
    return Some(FormatMac(mac));
  }

  /** One more sub-route adds its hops at the end. */
  lemma RouteHopsStep(route: seq<seq<string>>, i: nat)
    requires i < |route|
    ensures RouteHops(route[..i + 1]) == RouteHops(route[..i]) + Hops(route[i])
  {
    assert route[..i + 1][..i] == route[..i];
  }

  /** Once the MAC of a prefix of the route fails, so does the MAC of the whole route. */
  lemma RouteFailsFrom(db: EdgesDb, route: seq<seq<string>>, i: nat)
    requires i < |route| && RouteMac(db, RouteHops(route[..i + 1])).None?
    ensures RouteMac(db, RouteHops(route)).None?
  {
    RouteHopsPrefix(route[..i + 1], route);
    RouteMacExtends(db, RouteHops(route[..i + 1]), RouteHops(route));
  }

  /** The inner loop of `get_mac_from_route`: the hops of one sub-route OR-ed into `mac`,
      `None` at the first id that does not read. */
  method OrSubRoute(db: EdgesDb, ghost before: seq<Hop>, mac: int, sub: seq<string>) returns (m: Option<int>)
    requires OrAll(HopIds(db, before)) == Some(mac)
    ensures m == OrAll(HopIds(db, before + Hops(sub)))
  {
    ghost var hs := Hops(sub);
    var n := if |sub| == 0 then 0 else |sub| - 1;
    var acc := mac;
    var j := 0;
    assert before + hs[..0] == before;
    while j < n
      invariant 0 <= j <= n == |hs|
      invariant OrAll(HopIds(db, before + hs[..j])) == Some(acc)
    {
      var id := HopId(db, (sub[j], sub[j + 1]));
      assert OrAll(HopIds(db, before + hs[..j + 1])) == if id.None? then None else Some(Or(acc, id.value)) by {
        PrefixSnoc(before, hs, j);
        OrAllStep(db, before + hs[..j], hs[j], acc);
      }
      if id.None? {
        assert OrAll(HopIds(db, before + hs)).None? by {
          RouteMacExtends(db, before + hs[..j + 1], before + hs);
        }
        return None;
      }
      acc := Or(acc, id.value);
      j := j + 1;
    }
    assert hs[..j] == hs;
    return Some(acc);
  }

  lemma PrefixSnoc<T>(a: seq<T>, s: seq<T>, j: nat)
    requires j < |s|
    ensures a + s[..j + 1] == (a + s[..j]) + [s[j]]
  {
    assert s[..j + 1] == s[..j] + [s[j]];
  }

  /** One more hop: its id OR-ed in, or `None` if it does not read. */
  lemma OrAllStep(db: EdgesDb, done: seq<Hop>, h: Hop, acc: int)
    requires OrAll(HopIds(db, done)) == Some(acc)
    ensures OrAll(HopIds(db, done + [h])) == if HopId(db, h).None? then None else Some(Or(acc, HopId(db, h).value))
  {
    HopIdsSnoc(db, done, h);
    var ids := HopIds(db, done + [h]);
    assert ids[..|ids| - 1] == HopIds(db, done);
  }

  lemma RouteMacExtends(db: EdgesDb, a: seq<Hop>, b: seq<Hop>)
    requires a <= b && OrAll(HopIds(db, a)).None?
    ensures OrAll(HopIds(db, b)).None?
  {
    assert HopIds(db, a) <= HopIds(db, b);
    OrAllExtends(HopIds(db, a), HopIds(db, b));
  }

  lemma {:induction false} RouteHopsPrefix(a: seq<seq<string>>, b: seq<seq<string>>)
    requires a <= b
    ensures RouteHops(a) <= RouteHops(b)
    decreases |b|
  {
    if |b| > |a| {
      assert b[..|b| - 1][..|a|] == a;
      RouteHopsPrefix(a, b[..|b| - 1]);
    } else {
      assert a == b;
    }
  }

  /** Once the OR of some ids is `None`, so is that of every continuation. */
  lemma {:induction false} OrAllExtends(a: seq<Option<int>>, b: seq<Option<int>>)
    requires a <= b && OrAll(a).None?
    ensures OrAll(b).None?
    decreases |b|
  {
    if |b| > |a| {
      assert b[..|b| - 1][..|a|] == a;
      OrAllExtends(a, b[..|b| - 1]);
    } else {
      assert a == b;
    }
  }

  /** The ids are the earlier ids and the last one. */
  lemma LastId(ids: seq<Option<int>>)
    requires ids != []
    ensures forall x :: x in ids <==> x in ids[..|ids| - 1] || x == ids[|ids| - 1]
  {
    assert ids == ids[..|ids| - 1] + [ids[|ids| - 1]];
  }

  /** The OR gives nothing exactly when one of the ids did not read. */
  lemma {:induction false} OrAllNone(ids: seq<Option<int>>)
    ensures OrAll(ids).None? <==> None in ids
  {
    if ids != [] {
      OrAllNone(ids[..|ids| - 1]);
      LastId(ids);
    }
  }

  /** A bit of the OR is set exactly when it is set in one of the ids. */
  lemma {:induction false} OrAllBits(ids: seq<Option<int>>, k: nat)
    requires OrAll(ids).Some?
    ensures Bit(OrAll(ids).value, k) <==> exists x :: x in ids && x.Some? && Bit(x.value, k)
  {
    if ids == [] {
      FixedPointBits(0, k);
    } else {
      var init := ids[..|ids| - 1];
      var last := ids[|ids| - 1];
      OrAllBits(init, k);
      OrBit(OrAll(init).value, last.value, k);
      LastId(ids);
    }
  }

  /** The OR depends only on which ids occur: not on their order, nor on how often. */
  lemma OrAllSameIds(a: seq<Option<int>>, b: seq<Option<int>>)
    requires forall x :: x in a <==> x in b
    ensures OrAll(a) == OrAll(b)
  {
    OrAllNone(a);
    OrAllNone(b);
    if OrAll(a).Some? {
      forall k: nat
        ensures Bit(OrAll(a).value, k) == Bit(OrAll(b).value, k)
      {
        OrAllBits(a, k);
        OrAllBits(b, k);
      }
      BitsDetermine(OrAll(a).value, OrAll(b).value);
    }
  }

  /** The route's MAC is `None` exactly when one of its hops has an id that does not read,
      and otherwise has a bit set exactly when one of the hops' ids has it set. */
  lemma RouteMacMeaning(db: EdgesDb, hops: seq<Hop>, k: nat)
    ensures RouteMac(db, hops).None? <==> exists h :: h in hops && HopId(db, h).None?
    ensures RouteMac(db, hops).Some? ==>
              (Bit(RouteMac(db, hops).value, k) <==>
               exists h :: h in hops && HopId(db, h).Some? && Bit(HopId(db, h).value, k))
  {
    var ids := HopIds(db, hops);
    OrAllNone(ids);
    if RouteMac(db, hops).Some? {
      OrAllBits(ids, k);
      if Bit(RouteMac(db, hops).value, k) {
        var x :| x in ids && x.Some? && Bit(x.value, k);
        var i :| 0 <= i < |ids| && ids[i] == x;
        assert hops[i] in hops;
      }
    }
    if RouteMac(db, hops).None? {
      var i :| 0 <= i < |ids| && ids[i] == None;
      assert hops[i] in hops;
    }
  }

  /** The MAC depends only on which hops the route has: not on their order, nor on how
      often one occurs. */
  lemma RouteMacSameHops(db: EdgesDb, a: seq<Hop>, b: seq<Hop>)
    requires forall h :: h in a <==> h in b
    ensures RouteMac(db, a) == RouteMac(db, b)
  {
    HopIdsWithin(db, a, b);
    HopIdsWithin(db, b, a);
    OrAllSameIds(HopIds(db, a), HopIds(db, b));
  }

  /** Every id of a's hops is an id of b's hops when b has every hop of a. */
  lemma HopIdsWithin(db: EdgesDb, a: seq<Hop>, b: seq<Hop>)
    requires forall h :: h in a ==> h in b
    ensures forall x :: x in HopIds(db, a) ==> x in HopIds(db, b)
  {
    var ia, ib := HopIds(db, a), HopIds(db, b);
    forall x | x in ia
      ensures x in ib
    {
      var i :| 0 <= i < |a| && ia[i] == x;
      assert a[i] in a;
      var j :| 0 <= j < |b| && b[j] == a[i];
      assert ib[j] == x;
    }
  }

  /** A hop over a link `edges_db` does not know leaves the MAC as it was. */
  lemma RouteMacUnknownHop(db: EdgesDb, hops: seq<Hop>, h: Hop)
    requires GetId(db, h.0, h.1) == UNKNOWN_ID
    ensures RouteMac(db, hops + [h]) == RouteMac(db, hops)
  {
    HopIdsSnoc(db, hops, h);
    var ids := HopIds(db, hops + [h]);
    assert ids[..|ids| - 1] == HopIds(db, hops);
    if RouteMac(db, hops).Some? {
      UnknownIdIsZero(RouteMac(db, hops).value);
    }
  }

  // ------------------------------------------------------------------
  // Greedy routing

  /** The MAC text of coordinates (x, y): `'%.6x%.6x'`, then the pairs of every 12
      characters reordered `\3:\2:\1:\6:\5:\4`. */
  function GreedyMac(x: int, y: int): string
  {
    Substitute(ReversedTriples, HexFormat(x, 6) + HexFormat(y, 6))
  }

  /** `get_greedy_mac`: the MAC of a node's coordinates; `None` for a node without
      coordinates, where Python raises `KeyError`. */
  function GetGreedyMac(coords: CoordsDb, nodeId: int): Option<string>
  {
    if nodeId in coords then Some(GreedyMac(coords[nodeId].0, coords[nodeId].1)) else None
  }

  /** For coordinates below 2^24 the host's MAC is the 6-byte coordinate field that the
      controller's greedy rule writes into the metadata: each coordinate's three bytes
      least significant first. */
  lemma GreedyMacBytes(x: nat, y: nat)
    requires x < 0x100_0000 && y < 0x100_0000
    ensures GreedyMac(x, y) == MacOfBytes(FlowModSpec.CoordinateBytes(x, y))
  {
    var xb, yb := BeBytes(x, 3), BeBytes(y, 3);
    var g := HexFormat(x, 6) + HexFormat(y, 6);
    GreedyHex(x, y);
    SubstituteOnce(ReversedTriples, g);
    PairsOfBytes(xb + yb);
    FlowModSpec.CoordinateBytesOrder(x, y);
    ReorderedPairs(xb, yb);
  }

  /** The text `'%.6x%.6x'` formats for coordinates below 2^24: the hex pairs of the
      coordinates' big-endian bytes. */
  lemma GreedyHex(x: nat, y: nat)
    requires x < 0x100_0000 && y < 0x100_0000
    ensures HexFormat(x, 6) + HexFormat(y, 6) == HexOfBytes(BeBytes(x, 3) + BeBytes(y, 3))
    ensures |HexFormat(x, 6) + HexFormat(y, 6)| == 12 && NoNewline(HexFormat(x, 6) + HexFormat(y, 6))
  {
    assert Pow(16, 6) == 0x100_0000;
    HexFormatFixed(x, 6);
    HexFormatFixed(y, 6);
    FixedDigitsBytes(x, 3);
    FixedDigitsBytes(y, 3);
    HexOfBytesConcat(BeBytes(x, 3), BeBytes(y, 3));
    SignedPlain(x, 16, 6);
    SignedPlain(y, 16, 6);
  }

  /** The `\3:\2:\1:\6:\5:\4` order of two 3-byte groups is each group reversed. */
  lemma ReorderedPairs(xb: seq<byte>, yb: seq<byte>)
    requires |xb| == 3 && |yb| == 3
    ensures var p := BytePairs(xb + yb);
            [p[2], p[1], p[0], p[5], p[4], p[3]] == BytePairs(Reverse(xb) + Reverse(yb))
  {
    ReverseAt(xb, 0);
    ReverseAt(xb, 1);
    ReverseAt(xb, 2);
    ReverseAt(yb, 0);
    ReverseAt(yb, 1);
    ReverseAt(yb, 2);
    var zb := Reverse(xb) + Reverse(yb);
    assert zb == [xb[2], xb[1], xb[0], yb[2], yb[1], yb[0]];
    var p, q := BytePairs(xb + yb), BytePairs(zb);
    assert (xb + yb)[2] == zb[0] && (xb + yb)[1] == zb[1] && (xb + yb)[0] == zb[2];
    assert (xb + yb)[5] == zb[3] && (xb + yb)[4] == zb[4] && (xb + yb)[3] == zb[5];
    assert q == [p[2], p[1], p[0], p[5], p[4], p[3]];
  }

  lemma {:induction false} HexOfBytesConcat(a: seq<byte>, b: seq<byte>)
    ensures HexOfBytes(a + b) == HexOfBytes(a) + HexOfBytes(b)
    decreases |b|
  {
    if b != [] {
      assert (a + b)[..|a + b| - 1] == a + b[..|b| - 1];
      HexOfBytesConcat(a, b[..|b| - 1]);
    } else {
      assert a + b == a;
    }
  }

  /** The coordinates (1, 2) give the MAC 01:00:00:02:00:00. */
  lemma GreedyMacExample()
    ensures GreedyMac(1, 2) == "01:00:00:02:00:00"
  {
    GreedyMacBytes(1, 2);
    FlowModSpec.CoordinateBytesExample();
    ExamplePairs();
    ExampleJoin();
  }

  lemma ExamplePairs()
    ensures BytePairs([1, 0, 0, 2, 0, 0]) == ["01", "00", "00", "02", "00", "00"]
  {
    assert FixedDigits(0, 16, 2) == "00" && FixedDigits(1, 16, 2) == "01" && FixedDigits(2, 16, 2) == "02";
  }

  lemma ExampleJoin()
    ensures Join(["01", "00", "00", "02", "00", "00"]) == "01:00:00:02:00:00"
  {
    var ps := ["01", "00", "00", "02", "00", "00"];
    JoinShape(ps);
    var r := Join(ps);
    var e := "01:00:00:02:00:00";
    forall i | 0 <= i < 17
      ensures r[i] == e[i]
    {
    }
    assert r == e;
  }

  /** `is_switch`: a node with more than one neighbour; `None` for a node `edges_db` does
      not have, where Python raises `KeyError`. */
  function IsSwitch(db: EdgesDb, nodeId: int): Option<bool>
  {
    if nodeId in db then Some(|db[nodeId]| > 1) else None
  }
}
