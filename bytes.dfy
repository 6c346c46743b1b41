/** Fixed-width unsigned integers and the byte strings the builder copies out of them.
    The controller runs on a little-endian host: `memcpy` of a host integer yields its bytes
    least significant first, and `htonl`/`htonll` reverse the bytes of their operand. */
module Bytes {

  type byte = x: int | 0 <= x < 0x100
  type uint8 = x: int | 0 <= x < 0x100
  type uint16 = x: int | 0 <= x < 0x1_0000
  type uint32 = x: int | 0 <= x < 0x1_0000_0000
  type uint64 = x: int | 0 <= x < 0x1_0000_0000_0000_0000
  type int32 = x: int | -0x8000_0000 <= x < 0x8000_0000

  const UINT32_LIMIT: nat := 0x1_0000_0000
  const UINT64_LIMIT: nat := 0x1_0000_0000_0000_0000
  const UINT64_MAX: uint64 := 0xFFFF_FFFF_FFFF_FFFF

  /** 256 to the power n: the number of values n bytes can hold. */
  function Pow256(n: nat): (r: nat)
    ensures r > 0
  {
    if n == 0 then 1 else 256 * Pow256(n - 1)
  }

  /** The n low-order bytes of v, least significant first (host memory order). */
  function LeBytes(v: nat, n: nat): (r: seq<byte>)
    ensures |r| == n
  {
    if n == 0 then [] else [v % 256] + LeBytes(v / 256, n - 1)
  }

  /** The number whose little-endian bytes are s. */
  function FromLe(s: seq<byte>): nat
  {
    if s == [] then 0 else s[0] + 256 * FromLe(s[1..])
  }

  function Reverse<T>(s: seq<T>): (r: seq<T>)
    ensures |r| == |s|
  {
    if s == [] then [] else Reverse(s[1..]) + [s[0]]
  }

  /** The n low-order bytes of v, most significant first (network order). */
  function BeBytes(v: nat, n: nat): (r: seq<byte>)
    ensures |r| == n
  {
    Reverse(LeBytes(v, n))
  }

  /** Bitwise complement of a 64-bit value (C's `~` on uint64_t). */
  function Complement64(v: uint64): (r: uint64)
    ensures r + v == UINT64_MAX
  {
    UINT64_MAX - v
  }

  /** The conversion of a uint32_t argument to a two's-complement 32-bit `int`
      parameter. */
  function ToInt32(v: uint32): (r: int32)
    ensures r % UINT32_LIMIT == v
    ensures r >= 0 <==> v < 0x8000_0000
  {
    if v < 0x8000_0000 then v else v - UINT32_LIMIT
  }

  /** `htonl` on a little-endian host: the value whose host bytes are v's bytes reversed. */
  function Htonl(v: uint32): uint32
  {
    FromLeBound(Reverse(LeBytes(v, 4)));
    FromLe(Reverse(LeBytes(v, 4)))
  }

  /** `htonll` on a little-endian host. */
  function Htonll(v: uint64): uint64
  {
    FromLeBound(Reverse(LeBytes(v, 8)));
    FromLe(Reverse(LeBytes(v, 8)))
  }

  /** `hton_48` of ofp_builder.cc: `htonll(addr << 8) >> 8`, the shift being on uint64_t. */
  function Hton48(addr: uint64): uint64
  {
    Htonll((addr * 256) % UINT64_LIMIT) / 256
  }

  // ------------------------------------------------------------------
  // Lemmas

  lemma {:induction false} FromLeBound(s: seq<byte>)
    ensures FromLe(s) < Pow256(|s|)
  {
    if s != [] {
      FromLeBound(s[1..]);
    }
  }

  /** Writing a number out and reading it back gives the number modulo the width. */
  lemma {:induction false} FromLeOfLeBytes(v: nat, n: nat)
    ensures FromLe(LeBytes(v, n)) == v % Pow256(n)
  {
    if n > 0 {
      FromLeOfLeBytes(v / 256, n - 1);
      var p := Pow256(n - 1);
      assert LeBytes(v, n)[1..] == LeBytes(v / 256, n - 1);
      DivModNested(v, p);
    }
  }

  lemma DivModUnique(v: int, d: int, q: int, r: int)
    requires d > 0 && 0 <= r < d && v == d * q + r
    ensures v / d == q && v % d == r
  {
    var q0, r0 := v / d, v % d;
    assert v == d * q0 + r0;
    if q0 < q {
      var k := q - q0;
      assert d * q == d * q0 + d * k;
      MulAtLeast(d, k);
    } else if q0 > q {
      var k := q0 - q;
      assert d * q0 == d * q + d * k;
      MulAtLeast(d, k);
    }
  }

  lemma MulAtLeast(d: nat, k: int)
    requires k >= 1
    ensures d * k >= d
  {
    assert d * k == d * (k - 1) + d;
  }

  lemma DivModNested(v: nat, p: nat)
    requires p > 0
    ensures v % 256 + 256 * ((v / 256) % p) == v % (256 * p)
  {
    var q := v / 256;
    var r := v % 256;
    var q2 := q / p;
    var r2 := q % p;
    assert q == p * q2 + r2;
    assert 256 * q == 256 * (p * q2) + 256 * r2;
    assert 256 * (p * q2) == (256 * p) * q2;
    assert v == (256 * p) * q2 + (256 * r2 + r);
    assert 256 * r2 <= 256 * (p - 1);
    DivModUnique(v, 256 * p, q2, 256 * r2 + r);
  }

  /** Reading a byte string and writing it back at the same width gives the string. */
  lemma {:induction false} LeBytesOfFromLe(s: seq<byte>)
    ensures LeBytes(FromLe(s), |s|) == s
  {
    if s != [] {
      LeBytesOfFromLe(s[1..]);
      var v := FromLe(s);
      assert v % 256 == s[0] && v / 256 == FromLe(s[1..]);
    }
  }

  /** Only the low-order bytes matter to a narrower copy. */
  lemma {:induction false} LeBytesMod(v: nat, m: nat, n: nat)
    requires n <= m
    ensures LeBytes(v % Pow256(m), n) == LeBytes(v, n)
  {
    if n > 0 {
      var p := Pow256(m - 1);
      DivModNested(v, p);
      assert (v % Pow256(m)) % 256 == v % 256;
      assert (v % Pow256(m)) / 256 == (v / 256) % p;
      LeBytesMod(v / 256, m - 1, n - 1);
    }
  }

  /** Copying fewer bytes gives a prefix. */
  lemma {:induction false} LeBytesPrefix(v: nat, n: nat, k: nat)
    requires k <= n
    ensures LeBytes(v, n)[..k] == LeBytes(v, k)
  {
    if k > 0 {
      LeBytesPrefix(v / 256, n - 1, k - 1);
      assert LeBytes(v, n)[..k] == [v % 256] + LeBytes(v / 256, n - 1)[..k - 1];
    }
  }

  /** A left shift by one byte inside an (n+1)-byte word. */
  lemma ShiftLeftBytes(v: nat, n: nat)
    ensures LeBytes((v * 256) % Pow256(n + 1), n + 1) == [0] + LeBytes(v, n)
  {
    var p := Pow256(n);
    assert Pow256(n + 1) == 256 * p;
    var q := v / p;
    var r := v % p;
    assert v * 256 == (256 * p) * q + 256 * r by {
      assert v == p * q + r;
    }
    assert 256 * r < 256 * p;
    DivModUnique(v * 256, 256 * p, q, 256 * r);
    var w := (v * 256) % Pow256(n + 1);
    assert w == 256 * r;
    DivModUnique(w, 256, r, 0);
    assert LeBytes(w, n + 1) == [0] + LeBytes(r, n);
    LeBytesMod(v, n, n);
  }

  lemma {:induction false} ReverseAt<T>(s: seq<T>, k: nat)
    requires k < |s|
    ensures Reverse(s)[k] == s[|s| - 1 - k]
  {
    if k < |s| - 1 {
      ReverseAt(s[1..], k);
    }
  }

  /** htonl on a little-endian host leaves the value's network-order bytes in memory. */
  lemma HtonlBytes(v: uint32)
    ensures LeBytes(Htonl(v), 4) == BeBytes(v, 4)
  {
    LeBytesOfFromLe(Reverse(LeBytes(v, 4)));
  }

  /** Shifting left by a byte, reversing the n+1 bytes and shifting right by a byte leaves
      the n-1 low bytes of the input reversed at the bottom of the word. */
  lemma SwapShiftBytes(a: nat, n: nat)
    requires n >= 1
    ensures var rev := Reverse(LeBytes((a * 256) % Pow256(n + 1), n + 1));
            LeBytes(FromLe(rev) / 256, n - 1) == Reverse(LeBytes(a, n - 1))
  {
    var shifted := (a * 256) % Pow256(n + 1);
    ShiftLeftBytes(a, n);
    var rev := Reverse(LeBytes(shifted, n + 1));
    var swapped := FromLe(rev);
    LeBytesOfFromLe(rev);
    LeBytesPrefix(swapped, n + 1, n);
    assert LeBytes(swapped, n)[1..] == LeBytes(swapped / 256, n - 1);
    var got := LeBytes(swapped / 256, n - 1);
    LeBytesPrefix(a, n, n - 1);
    var want := Reverse(LeBytes(a, n - 1));
    forall k | 0 <= k < n - 1
      ensures got[k] == want[k]
    {
      ReverseAt(LeBytes(shifted, n + 1), k + 1);
      ReverseAt(LeBytes(a, n - 1), k);
      assert got[k] == rev[k + 1];
      assert LeBytes(shifted, n + 1)[n - 1 - k] == LeBytes(a, n)[n - 2 - k];
    }
  }

  /** hton_48 leaves the 6 big-endian bytes of the low 48 bits of its argument at the start
      of the result's host memory, which is what match_eth_dst and set_eth_dst copy. */
  lemma Hton48Bytes(addr: uint64)
    ensures LeBytes(Hton48(addr), 6) == BeBytes(addr % Pow256(6), 6)
  {
    assert Pow256(8) == UINT64_LIMIT;
    SwapShiftBytes(addr, 7);
    LeBytesMod(addr, 6, 6);
  }
}
