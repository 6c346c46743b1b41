/** The text conversions the Mininet-side helpers rely on: Python's `'%.<w>x'` and `'%d'`
    formatting of integers, `int(s, base)` parsing, and `re.sub` with the pattern
    `(..)(..)(..)(..)(..)(..)` that the helpers use to lay out a MAC address. */
module HexText {
  import opened Wrappers
  import opened Bytes

  /** The bases the helpers use (16 and 10). */
  type Base = b: int | 2 <= b <= 16 witness 2

  /** The digits Python's `%x` and `%d` print, in order of value. */
  const DIGITS: string := "0123456789abcdef"

  function Pow(base: Base, w: nat): (r: nat)
    ensures r > 0
  {
    if w == 0 then 1 else base * Pow(base, w - 1)
  }

  /** The w low-order digits of n, most significant first, zero-padded. */
  function FixedDigits(n: nat, base: Base, w: nat): (r: string)
    ensures |r| == w
  {
    if w == 0 then [] else FixedDigits(n / base, base, w - 1) + [DIGITS[n % base]]
  }

  /** The number of digits n needs (at least one, for 0). */
  function Width(n: nat, base: Base): (r: nat)
    ensures r >= 1
  {
    if n < base then 1 else 1 + Width(n / base, base)
  }

  function Unsigned(n: nat, base: Base, w: nat): string
  {
    FixedDigits(n, base, if Width(n, base) < w then w else Width(n, base))
  }

  /** Python's `'%.<w>x' % n` (base 16) or `'%.<w>d' % n` (base 10): at least w digits, with
      a minus sign in front of a negative number's magnitude. */
  function Signed(n: int, base: Base, w: nat): string
  {
    if n < 0 then "-" + Unsigned(-n, base, w) else Unsigned(n, base, w)
  }

  /** `'%.<w>x' % n`. */
  function HexFormat(n: int, w: nat): string
  {
    Signed(n, 16, w)
  }

  /** `'%d' % n`. */
  function DecFormat(n: int): string
  {
    Signed(n, 10, 1)
  }

  /** The value of a digit character in either case; 16 for a character that is no digit
      of any base up to 16. */
  function DigitValue(c: char): (r: nat)
    ensures r <= 16
  {
    if '0' <= c <= '9' then c as int - '0' as int
    else if 'a' <= c <= 'f' then c as int - 'a' as int + 10
    else if 'A' <= c <= 'F' then c as int - 'A' as int + 10
    else 16
  }

  predicate AllDigits(s: string, base: Base)
  {
    forall i :: 0 <= i < |s| ==> DigitValue(s[i]) < base
  }

  /** The number the digits s spell in the given base. */
  function Value(s: string, base: Base): nat
  {
    if s == [] then 0 else base * Value(s[..|s| - 1], base) + DigitValue(s[|s| - 1])
  }

  /** Python's `int(s, base)`: an optional sign, then one or more digits of the base;
      anything else raises `ValueError`, which is `None` here. The ensures only makes
      the success condition visible to callers; ParseSigned and ParseDigits say what
      the value is. */
  function ParseInt(s: string, base: Base): (r: Option<int>)
    ensures r.Some? <==> (var d := Unsigned_(s); d != [] && AllDigits(d, base))
  {
    var d := Unsigned_(s);
    if d != [] && AllDigits(d, base) then
      var v: int := Value(d, base);
      Some(if |s| > 0 && s[0] == '-' then -v else v)
    else
      None
  }

  /** s without its leading sign, if it has one. */
  function Unsigned_(s: string): string
  {
    if |s| > 0 && (s[0] == '-' || s[0] == '+') then s[1..] else s
  }

  // ------------------------------------------------------------------
  // re.sub('(..)(..)(..)(..)(..)(..)', template, s)

  /** The two replacement templates the helpers use: `\1:\2:\3:\4:\5:\6` and
      `\3:\2:\1:\6:\5:\4`. */
  datatype Template = ColonPairs | ReversedTriples

  /** The six groups `(..)` of a 12-character match. */
  function Pairs(g: string): (r: seq<string>)
    requires |g| == 12
    ensures |r| == 6 && forall k :: 0 <= k < 6 ==> |r[k]| == 2
  {
    seq(6, k requires 0 <= k < 6 => g[2 * k..2 * k + 2])
  }

  /** `':'.join(ps)`. */
  function Join(ps: seq<string>): string
  {
    if |ps| <= 1 then (if ps == [] then [] else ps[0]) else Join(ps[..|ps| - 1]) + ":" + ps[|ps| - 1]
  }

  /** `''.join(ps)`. */
  function Concat(ps: seq<string>): string
  {
    if ps == [] then [] else Concat(ps[..|ps| - 1]) + ps[|ps| - 1]
  }

  /** The replacement of one 12-character match. */
  function Replace(t: Template, g: string): (r: string)
    requires |g| == 12
  {
    var p := Pairs(g);
    match t
    case ColonPairs => Join(p)
    case ReversedTriples => Join([p[2], p[1], p[0], p[5], p[4], p[3]])
  }

  /** `.` matches any character but a newline. */
  predicate NoNewline(g: string)
  {
    forall i :: 0 <= i < |g| ==> g[i] != '\n'
  }

  /** `re.sub` of the 12-character pattern: scanning from the left, every twelve
      characters without a newline are replaced and scanning resumes after them; where no
      match starts, one character is kept and scanning moves on. */
  function Substitute(t: Template, s: string): string
    decreases |s|
  {
    if |s| >= 12 && NoNewline(s[..12]) then Replace(t, s[..12]) + Substitute(t, s[12..])
    else if s == [] then []
    else [s[0]] + Substitute(t, s[1..])
  }

  /** `s.replace(':', '')`. */
  function RemoveColons(s: string): (r: string)
    ensures forall i :: 0 <= i < |r| ==> r[i] != ':'
  {
    if s == [] then [] else RemoveColons(s[..|s| - 1]) + (if s[|s| - 1] == ':' then [] else [s[|s| - 1]])
  }

  // ------------------------------------------------------------------
  // Lemmas

  lemma DigitValueOfDigit(d: nat)
    requires d < 16
    ensures DigitValue(DIGITS[d]) == d
  {
  }

  lemma DivModBase(v: nat, b: nat, p: nat)
    requires b > 0 && p > 0
    ensures v % b + b * ((v / b) % p) == v % (b * p)
  {
    var q := v / b;
    var r := v % b;
    var q2 := q / p;
    var r2 := q % p;
    assert q == p * q2 + r2;
    assert b * q == b * (p * q2) + b * r2;
    assert b * (p * q2) == (b * p) * q2;
    assert v == (b * p) * q2 + (b * r2 + r);
    assert b * r2 <= b * (p - 1);
    DivModUnique(v, b * p, q2, b * r2 + r);
  }

  /** The padded digits are digits of the base and spell n modulo base^w. */
  lemma {:induction false} FixedDigitsValue(n: nat, base: Base, w: nat)
    ensures AllDigits(FixedDigits(n, base, w), base)
    ensures Value(FixedDigits(n, base, w), base) == n % Pow(base, w)
  {
    var r := FixedDigits(n, base, w);
    if w > 0 {
      FixedDigitsValue(n / base, base, w - 1);
      DigitValueOfDigit(n % base);
      assert r[..w - 1] == FixedDigits(n / base, base, w - 1);
      DivModBase(n, base, Pow(base, w - 1));
    }
  }

  /** A lower-case digit of the base has a value below the base and is printed as itself. */
  lemma DigitOf(c: char, base: Base)
    requires c in DIGITS[..base]
    ensures DigitValue(c) < base && DIGITS[DigitValue(c)] == c
  {
    var d :| 0 <= d < base && DIGITS[..base][d] == c;
    DigitValueOfDigit(d);
  }

  /** Lower-case digits of the base are digits of the base. */
  lemma DigitsAll(s: string, base: Base)
    requires forall i :: 0 <= i < |s| ==> s[i] in DIGITS[..base]
    ensures AllDigits(s, base)
  {
    forall i | 0 <= i < |s|
      ensures DigitValue(s[i]) < base
    {
      DigitOf(s[i], base);
    }
  }

  /** Dividing a number by the base drops its last digit, which is the remainder. */
  lemma LastDigit(s: string, base: Base)
    requires s != [] && DigitValue(s[|s| - 1]) < base
    ensures Value(s, base) / base == Value(s[..|s| - 1], base)
    ensures Value(s, base) % base == DigitValue(s[|s| - 1])
  {
    DivModUnique(Value(s, base), base, Value(s[..|s| - 1], base), DigitValue(s[|s| - 1]));
  }

  /** A string of digits is the zero-padded print of the number it spells. */
  lemma {:induction false} DigitsRoundTrip(s: string, base: Base)
    requires forall i :: 0 <= i < |s| ==> s[i] in DIGITS[..base]
    ensures FixedDigits(Value(s, base), base, |s|) == s
  {
    if s != [] {
      var init, c := s[..|s| - 1], s[|s| - 1];
      DigitsRoundTrip(init, base);
      DigitOf(c, base);
      LastDigit(s, base);
      var v := Value(s, base);
      calc {
        FixedDigits(v, base, |s|);
        FixedDigits(v / base, base, |init|) + [DIGITS[v % base]];
        init + [c];
        s;
      }
    }
  }

  /** `int(s, base)` reads every non-empty string of lower-case digits, and the number it
      reads is the one whose zero-padded print is s: the converse of ParseSigned. */
  lemma ParseDigits(s: string, base: Base)
    requires |s| >= 1 && forall i :: 0 <= i < |s| ==> s[i] in DIGITS[..base]
    ensures ParseInt(s, base).Some?
    ensures FixedDigits(ParseInt(s, base).value, base, |s|) == s
  {
    DigitsAll(s, base);
    DigitsRoundTrip(s, base);
    DigitOf(s[0], base);
    assert Unsigned_(s) == s;
  }

  lemma MulMonotone(c: nat, a: nat, b: nat)
    requires a <= b
    ensures c * a <= c * b
  {
  }

  /** If n / b is below p, then n is below b * p. */
  lemma QuotientBound(n: nat, b: nat, p: nat)
    requires b > 0 && n / b < p
    ensures n < b * p
  {
    var q := n / b;
    assert n == b * q + n % b;
    MulMonotone(b, q + 1, p);
  }

  lemma {:induction false} WidthBound(n: nat, base: Base)
    ensures n < Pow(base, Width(n, base))
  {
    if n >= base {
      var w := Width(n / base, base);
      WidthBound(n / base, base);
      QuotientBound(n, base, Pow(base, w));
      assert Width(n, base) == w + 1;
      assert Pow(base, w + 1) == base * Pow(base, w);
    } else {
      assert Pow(base, 1) == base;
    }
  }

  lemma {:induction false} PowMonotone(base: Base, v: nat, w: nat)
    requires v <= w
    ensures Pow(base, v) <= Pow(base, w)
  {
    if v < w {
      PowMonotone(base, v, w - 1);
      var p := Pow(base, w - 1);
      assert Pow(base, w) == base * p;
      MulMonotone(p, 1, base);
    }
  }

  /** A number below base^w needs at most w digits. */
  lemma {:induction false} WidthAtMost(n: nat, base: Base, w: nat)
    requires w >= 1 && n < Pow(base, w)
    ensures Width(n, base) <= w
  {
    if n >= base {
      var q := n / base;
      var p := Pow(base, w - 1);
      assert Pow(base, w) == base * p;
      if q >= p {
        MulMonotone(base, p, q);
        assert false;
      }
      WidthAtMost(q, base, w - 1);
    }
  }

  lemma UnsignedValue(n: nat, base: Base, w: nat)
    ensures Unsigned(n, base, w) != [] && AllDigits(Unsigned(n, base, w), base)
    ensures Value(Unsigned(n, base, w), base) == n
  {
    var v := if Width(n, base) < w then w else Width(n, base);
    FixedDigitsValue(n, base, v);
    WidthBound(n, base);
    PowMonotone(base, Width(n, base), v);
    DivModUnique(n, Pow(base, v), 0, n);
  }

  /** Printing with `%x` or `%d` and parsing back with `int(_, 16)` or `int(_, 10)` gives
      the number back, negative numbers included. */
  lemma ParseSigned(n: int, base: Base, w: nat)
    ensures ParseInt(Signed(n, base, w), base) == Some(n)
  {
    var u := Unsigned(if n < 0 then -n else n, base, w);
    UnsignedValue(if n < 0 then -n else n, base, w);
    assert DigitValue(u[0]) < base;
    if n < 0 {
      assert Unsigned_("-" + u) == u;
    } else {
      assert Unsigned_(u) == u;
    }
  }

  /** At width w, a number below 16^w prints as exactly w digits. */
  lemma HexFormatFixed(n: nat, w: nat)
    requires w >= 1 && n < Pow(16, w)
    ensures HexFormat(n, w) == FixedDigits(n, 16, w)
  {
    WidthAtMost(n, 16, w);
  }

  lemma RemoveColonsConcat(a: string, b: string)
    ensures RemoveColons(a + b) == RemoveColons(a) + RemoveColons(b)
    decreases |b|
  {
    if b != [] {
      assert (a + b)[..|a + b| - 1] == a + b[..|b| - 1];
      RemoveColonsConcat(a, b[..|b| - 1]);
    } else {
      assert a + b == a;
    }
  }

  lemma {:induction false} RemoveColonsNone(s: string)
    requires forall i :: 0 <= i < |s| ==> s[i] != ':'
    ensures RemoveColons(s) == s
  {
    if s != [] {
      RemoveColonsNone(s[..|s| - 1]);
    }
  }

  /** Joining two-character groups with colons puts a colon at every third position and
      the groups' characters in between. */
  lemma JoinShape(ps: seq<string>)
    requires |ps| >= 1 && forall k :: 0 <= k < |ps| ==> |ps[k]| == 2
    ensures |Join(ps)| == 3 * |ps| - 1
    ensures forall i :: 0 <= i < |Join(ps)| ==> Join(ps)[i] == if i % 3 == 2 then ':' else ps[i / 3][i % 3]
  {
    JoinAt(ps, 0);
    forall i | 0 <= i < |Join(ps)|
      ensures Join(ps)[i] == if i % 3 == 2 then ':' else ps[i / 3][i % 3]
    {
      JoinAt(ps, i);
    }
  }

  lemma {:induction false} JoinAt(ps: seq<string>, i: int)
    requires |ps| >= 1 && forall k :: 0 <= k < |ps| ==> |ps[k]| == 2
    ensures |Join(ps)| == 3 * |ps| - 1
    ensures 0 <= i < |Join(ps)| ==> Join(ps)[i] == if i % 3 == 2 then ':' else ps[i / 3][i % 3]
  {
    if |ps| > 1 {
      var init := ps[..|ps| - 1];
      JoinAt(init, i);
      var n := |Join(init)|;
      assert Join(ps) == Join(init) + ":" + ps[|ps| - 1];
      if 0 <= i < n {
        assert Join(ps)[i] == Join(init)[i];
        assert i / 3 < |init|;
        assert init[i / 3] == ps[i / 3];
      } else if i == n {
        assert i % 3 == 2;
      } else if n < i < n + 3 {
        assert i == 3 * |init| + (i - n - 1);
        assert i / 3 == |init| && i % 3 == i - n - 1;
      }
    }
  }

  lemma {:induction false} RemoveColonsJoin(ps: seq<string>)
    ensures RemoveColons(Join(ps)) == RemoveColons(Concat(ps))
  {
    if |ps| > 1 {
      var init := ps[..|ps| - 1];
      var last := ps[|ps| - 1];
      RemoveColonsJoin(init);
      RemoveColonsConcat(Join(init) + ":", last);
      assert RemoveColons(Join(init) + ":") == RemoveColons(Join(init)) by {
        assert (Join(init) + ":")[..|Join(init)|] == Join(init);
      }
      RemoveColonsConcat(Concat(init), last);
    } else if |ps| == 1 {
      assert Join(ps) == ps[0];
      assert Concat(ps) == ps[0] by {
        assert ps[..0] == [];
        assert Concat(ps) == Concat(ps[..0]) + ps[0];
        assert [] + ps[0] == ps[0];
      }
    }
  }

  /** The first k groups of a match spell its first 2k characters. */
  lemma {:induction false} ConcatPairsPrefix(g: string, k: nat)
    requires |g| == 12 && k <= 6
    ensures Concat(Pairs(g)[..k]) == g[..2 * k]
  {
    if k > 0 {
      ConcatPairsPrefix(g, k - 1);
      assert Pairs(g)[..k][..k - 1] == Pairs(g)[..k - 1];
      assert g[..2 * k] == g[..2 * k - 2] + g[2 * k - 2..2 * k];
    }
  }

  lemma RemoveColonsReplace(g: string)
    requires |g| == 12
    ensures RemoveColons(Replace(ColonPairs, g)) == RemoveColons(g)
  {
    RemoveColonsJoin(Pairs(g));
    ConcatPairsPrefix(g, 6);
    assert Pairs(g)[..6] == Pairs(g) && g[..12] == g;
  }

  /** Inserting colons between the pairs and then removing every colon gives the text
      back without its colons, whatever the text is. */
  lemma {:induction false} RemoveColonsSubstitute(s: string)
    ensures RemoveColons(Substitute(ColonPairs, s)) == RemoveColons(s)
    decreases |s|
  {
    if |s| >= 12 && NoNewline(s[..12]) {
      RemoveColonsSubstitute(s[12..]);
      RemoveColonsReplace(s[..12]);
      RemoveColonsConcat(Replace(ColonPairs, s[..12]), Substitute(ColonPairs, s[12..]));
      RemoveColonsConcat(s[..12], s[12..]);
      assert s[..12] + s[12..] == s;
    } else if s != [] {
      RemoveColonsSubstitute(s[1..]);
      RemoveColonsConcat([s[0]], Substitute(ColonPairs, s[1..]));
      RemoveColonsConcat([s[0]], s[1..]);
      assert [s[0]] + s[1..] == s;
    }
  }

  /** Every padded digit is one of the printable digits. */
  lemma {:induction false} FixedDigitsChars(n: nat, base: Base, w: nat)
    ensures forall i :: 0 <= i < w ==> FixedDigits(n, base, w)[i] in DIGITS
  {
    if w > 0 {
      FixedDigitsChars(n / base, base, w - 1);
    }
  }

  /** Printed numbers hold no colon, no newline and no `h` or `s`: they pass unchanged through
      the text substitutions of the helpers. */
  lemma SignedPlain(n: int, base: Base, w: nat)
    ensures forall i :: 0 <= i < |Signed(n, base, w)| ==>
      Signed(n, base, w)[i] != ':' && Signed(n, base, w)[i] != '\n' &&
      Signed(n, base, w)[i] != 'h' && Signed(n, base, w)[i] != 's'
  {
    var m := if n < 0 then -n else n;
    FixedDigitsChars(m, base, if Width(m, base) < w then w else Width(m, base));
  }

  // ------------------------------------------------------------------
  // Digits and bytes

  /** Two lower-case hex digits per byte, most significant first. */
  function HexOfBytes(bs: seq<byte>): (r: string)
    ensures |r| == 2 * |bs|
  {
    if bs == [] then [] else HexOfBytes(bs[..|bs| - 1]) + FixedDigits(bs[|bs| - 1], 16, 2)
  }

  lemma BeBytesStep(n: nat, k: nat)
    requires k > 0
    ensures BeBytes(n, k) == BeBytes(n / 256, k - 1) + [n % 256]
  {
    var l := LeBytes(n, k);
    assert l[1..] == LeBytes(n / 256, k - 1);
  }

  lemma HexByteDigits(n: nat)
    ensures (n / 16) / 16 == n / 256
    ensures ((n % 256) / 16) % 16 == (n / 16) % 16 && ((n % 256) / 16) / 16 == 0
    ensures (n % 256) % 16 == n % 16
  {
    var q, r := n / 256, n % 256;
    var a, b := r / 16, r % 16;
    DivModUnique(r, 16, a, b);
    DivModUnique(n, 16, 16 * q + a, b);
    DivModUnique(n / 16, 16, q, a);
  }

  /** The 2k hex digits of n are the hex pairs of its k big-endian bytes. */
  lemma {:induction false} FixedDigitsBytes(n: nat, k: nat)
    ensures FixedDigits(n, 16, 2 * k) == HexOfBytes(BeBytes(n, k))
  {
    if k > 0 {
      BeBytesStep(n, k);
      FixedDigitsBytes(n / 256, k - 1);
      HexByteDigits(n);
      var bs := BeBytes(n, k);
      assert bs[..|bs| - 1] == BeBytes(n / 256, k - 1);
      var b := n % 256;
      assert FixedDigits(b, 16, 2) == [DIGITS[(n / 16) % 16], DIGITS[n % 16]] by {
        assert FixedDigits(b / 16, 16, 1) == [DIGITS[(b / 16) % 16]];
      }
      assert FixedDigits(n, 16, 2 * k) == FixedDigits(n / 16 / 16, 16, 2 * k - 2) + [DIGITS[(n / 16) % 16]] + [DIGITS[n % 16]];
    }
  }
}
