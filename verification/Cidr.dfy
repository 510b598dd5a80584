/** Prefix matching: whole bytes and a masked byte, which is equality of the leading bits as integers. */
module Cidr {
  import opened Wrappers
  import opened IpText
  import Decimal
  import Digits
  import Text

  // ---------------------------------------------------------------- bits

  function Pow2(n: nat): (p: nat)
    ensures p > 0
  {
    if n == 0 then 1 else 2 * Pow2(n - 1)
  }

  /** `a & b` */
  function BitAnd(a: nat, b: nat): nat {
    if a == 0 then 0 else 2 * BitAnd(a / 2, b / 2) + if a % 2 == 1 && b % 2 == 1 then 1 else 0
  }

  /** `(0xff << (8 - bits)) & 0xff` */
  function Mask(bits: nat): nat
    requires bits <= 8
  {
    BitAnd(0xff * Pow2(8 - bits), 0xff)
  }

  /** `a >> n` */
  function Shr(a: nat, n: nat): nat {
    Quotient(a, Pow2(n))
  }

  function Quotient(a: nat, d: nat): nat
    requires d > 0
  {
    a / d
  }

  /** The low `n` bits. */
  function Low(a: nat, n: nat): nat {
    Remainder(a, Pow2(n))
  }

  function Remainder(a: nat, d: nat): nat
    requires d > 0
  {
    a % d
  }

  lemma ShrLow(a: nat, n: nat)
    ensures a == Shr(a, n) * Pow2(n) + Low(a, n) && Low(a, n) < Pow2(n)
  {
    hide Pow2;
    Decimal.EuclideanStep(a, Pow2(n));
  }

  lemma ShrLowUnique(a: nat, n: nat, q: nat, r: nat)
    requires a == q * Pow2(n) + r && r < Pow2(n)
    ensures Shr(a, n) == q && Low(a, n) == r
  {
    hide Pow2;
    Decimal.QuotientUnique(a, Pow2(n), q, r);
  }

  /** Shifting by one more is halving first. */
  lemma ShrHalf(a: nat, n: nat)
    ensures Shr(a, n + 1) == Shr(a / 2, n) && Low(a, n + 1) == 2 * Low(a / 2, n) + a % 2
  {
    hide Shr, Low;
    ShrLow(a / 2, n);
    var q, r := Shr(a / 2, n), Low(a / 2, n);
    DoubleOut(a, a / 2, a % 2, q, Pow2(n), r);
    ShrLowUnique(a, n + 1, q, 2 * r + a % 2);
  }

  lemma DoubleOut(a: nat, h: nat, b: nat, q: nat, p: nat, r: nat)
    requires a == 2 * h + b && b <= 1 && h == q * p + r && r < p
    ensures a == q * (2 * p) + (2 * r + b) && 2 * r + b < 2 * p
  {
  }

  lemma ShrZero(n: nat)
    ensures Shr(0, n) == 0 && Low(0, n) == 0
  {
    hide Shr, Low;
    ShrLowUnique(0, n, 0, 0);
  }

  lemma ShrZeroBits(a: nat)
    ensures Shr(a, 0) == a
  {
  }

  lemma {:induction false} AndOnes(a: nat, n: nat)
    ensures BitAnd(a, Pow2(n) - 1) == Low(a, n)
    decreases n
  {
    if n == 0 {
      AndZero(a);
      LowZero(a);
    } else if a == 0 {
      ShrZero(n);
    } else {
      AndOnes(a / 2, n - 1);
      ShrHalf(a, n - 1);
      hide Shr, Low;
      OddHalf(Pow2(n - 1));
    }
  }

  lemma LowZero(a: nat)
    ensures Low(a, 0) == 0
  {
  }

  lemma OddHalf(p: nat)
    requires p > 0
    ensures (2 * p - 1) / 2 == p - 1 && (2 * p - 1) % 2 == 1
  {
  }

  lemma {:induction false} AndZero(a: nat)
    ensures BitAnd(a, 0) == 0
  {
    if a > 0 {
      AndZero(a / 2);
    }
  }

  lemma {:induction false} AndShifted(a: nat, m: nat, n: nat)
    ensures BitAnd(a, m * Pow2(n)) == BitAnd(Shr(a, n), m) * Pow2(n)
    decreases n
  {
    if n == 0 {
      assert Shr(a, 0) == a && m * Pow2(0) == m;
    } else {
      hide Shr, Low;
      AndDoubled(a, m * Pow2(n - 1));
      AndShifted(a / 2, m, n - 1);
      ShrHalf(a, n - 1);
      hide BitAnd;
      Factor(m, Pow2(n - 1));
      Factor(BitAnd(Shr(a, n), m), Pow2(n - 1));
    }
  }

  lemma Factor(m: nat, p: nat)
    ensures m * (2 * p) == 2 * (m * p)
  {
  }

  lemma AndDoubled(a: nat, b: nat)
    ensures BitAnd(a, 2 * b) == 2 * BitAnd(a / 2, b)
  {
    assert 2 * b / 2 == b && (2 * b) % 2 == 0;
    if a == 0 {
      assert BitAnd(0, b) == 0;
    }
  }

  lemma PowersOfTwo()
    ensures Pow2(0) == 1 && Pow2(1) == 2 && Pow2(2) == 4 && Pow2(3) == 8 && Pow2(4) == 16
    ensures Pow2(5) == 32 && Pow2(6) == 64 && Pow2(7) == 128 && Pow2(8) == 256
  {
  }

  lemma Complement(bits: nat)
    requires bits <= 8
    ensures Pow2(bits) * Pow2(8 - bits) == 256
  {
    PowersOfTwo();
    hide Pow2;
  }

  lemma {:induction false} AndCommutes(a: nat, b: nat)
    ensures BitAnd(a, b) == BitAnd(b, a)
  {
    if a == 0 {
      AndZero(b);
    } else if b == 0 {
      AndZero(a);
    } else {
      AndCommutes(a / 2, b / 2);
    }
  }

  /** The leading `bits` bits of a byte, as a number. */
  lemma ByteShift(a: Byte, bits: nat)
    requires bits <= 8
    ensures Shr(a, 8 - bits) < Pow2(bits)
  {
    hide Shr, Low, Pow2;
    ShrLow(a, 8 - bits);
    Complement(bits);
    QuotientBound(Shr(a, 8 - bits), Pow2(8 - bits), Pow2(bits));
  }

  lemma QuotientBound(q: nat, d: nat, c: nat)
    requires d > 0 && q * d < c * d
    ensures q < c
  {
  }

  lemma MaskValue(bits: nat)
    requires 1 <= bits <= 8
    ensures Mask(bits) == (Pow2(bits) - 1) * Pow2(8 - bits)
  {
    var n := 8 - bits;
    AndCommutes(0xff * Pow2(n), 0xff);
    AndShifted(0xff, 0xff, n);
    ByteShift(0xff, bits);
    AllOnes(bits);
    assert Pow2(8) == 256 by { PowersOfTwo(); }
    hide BitAnd, Pow2, Shr, Low;
    AndOnes(Shr(0xff, n), 8);
    ShrLowUnique(Shr(0xff, n), 8, 0, Shr(0xff, n)) by { SmallPower(bits); }
  }

  lemma SmallPower(bits: nat)
    requires bits <= 8
    ensures Pow2(bits) <= Pow2(8)
  {
    PowersOfTwo();
    hide Pow2;
  }

  lemma AllOnes(bits: nat)
    requires bits <= 8
    ensures Shr(0xff, 8 - bits) == Pow2(bits) - 1
  {
    hide Shr, Low, Pow2;
    Complement(bits);
    ShrLowUnique(0xff, 8 - bits, Pow2(bits) - 1, Pow2(8 - bits) - 1) by {
      Ones(Pow2(bits), Pow2(8 - bits));
    }
  }

  lemma Ones(c: nat, d: nat)
    requires c * d == 256 && c > 0 && d > 0
    ensures (c - 1) * d + (d - 1) == 255
  {
  }

  lemma MaskedByte(a: Byte, bits: nat)
    requires 1 <= bits <= 8
    ensures Pow2(bits) >= 1
    ensures BitAnd(a, (Pow2(bits) - 1) * Pow2(8 - bits)) == Shr(a, 8 - bits) * Pow2(8 - bits)
  {
    hide Shr, Low, Pow2, BitAnd;
    var q := Shr(a, 8 - bits);
    AndShifted(a, Pow2(bits) - 1, 8 - bits);
    AndOnes(q, bits);
    ByteShift(a, bits);
    ShrLowUnique(q, bits, 0, q);
  }

  /** The mask keeps the leading bits of a byte: masking and shifting are the same comparison. */
  lemma MaskedEqual(a: Byte, b: Byte, bits: nat)
    requires 1 <= bits <= 8
    ensures BitAnd(a, Mask(bits)) == BitAnd(b, Mask(bits)) <==> Shr(a, 8 - bits) == Shr(b, 8 - bits)
  {
    hide BitAnd, Mask, Pow2, Shr, Low;
    MaskValue(bits);
    MaskedByte(a, bits);
    MaskedByte(b, bits);
    Decimal.ScaleOrder(Shr(a, 8 - bits), Shr(b, 8 - bits), Pow2(8 - bits));
  }

  // ---------------------------------------------------------------- numbers

  /** The address as one big-endian integer. */
  function Num(bytes: seq<Byte>): nat {
    if bytes == [] then 0 else Num(bytes[..|bytes| - 1]) * 256 + bytes[|bytes| - 1]
  }

  function Pow256(n: nat): (p: nat)
    ensures p > 0
  {
    if n == 0 then 1 else 256 * Pow256(n - 1)
  }

  lemma {:induction false} NumBound(bytes: seq<Byte>)
    ensures Num(bytes) < Pow256(|bytes|)
  {
    if bytes != [] {
      NumBound(bytes[..|bytes| - 1]);
    }
  }

  lemma {:induction false} NumSplit(a: seq<Byte>, b: seq<Byte>)
    ensures Num(a + b) == Num(a) * Pow256(|b|) + Num(b)
  {
    if b == [] {
      assert a + b == a;
    } else {
      var n := |b| - 1;
      assert (a + b)[..|a + b| - 1] == a + b[..n];
      NumSplit(a, b[..n]);
      assert Num(b) == Num(b[..n]) * 256 + b[n] && Num(a + b) == Num(a + b[..n]) * 256 + b[n];
      assert Pow256(|b|) == 256 * Pow256(n);
      hide Num, Pow256;
      ShiftByte(Num(a), Pow256(n));
    }
  }

  lemma ShiftByte(x: nat, p: nat)
    ensures (x * p) * 256 == x * (256 * p)
  {
  }

  lemma {:induction false} NumInjective(a: seq<Byte>, b: seq<Byte>)
    requires |a| == |b| && Num(a) == Num(b)
    ensures a == b
  {
    if a != [] {
      var n := |a| - 1;
      assert a == a[..n] + [a[n]] && b == b[..n] + [b[n]];
      NumInjective(a[..n], b[..n]);
    }
  }

  lemma {:induction false} Pow256IsPow2(n: nat)
    ensures Pow256(n) == Pow2(8 * n)
  {
    if n > 0 {
      Pow256IsPow2(n - 1);
      Pow2Add(8, 8 * (n - 1));
      PowersOfTwo();
    }
  }

  lemma {:induction false} Pow2Add(a: nat, b: nat)
    ensures Pow2(a + b) == Pow2(a) * Pow2(b)
  {
    if a > 0 {
      Pow2Add(a - 1, b);
    }
  }

  /** The first `prefix` bits, as an integer. */
  function Leading(bytes: seq<Byte>, prefix: nat): nat
    requires prefix <= 8 * |bytes|
  {
    Shr(Num(bytes), 8 * |bytes| - prefix)
  }

  /** Whole bytes only. */
  lemma LeadingBytes(bytes: seq<Byte>, w: nat)
    requires w <= |bytes|
    ensures Leading(bytes, 8 * w) == Num(bytes[..w])
  {
    hide Shr, Low, Pow2, Pow256, Num;
    var rest := bytes[w..];
    assert bytes == bytes[..w] + rest;
    NumSplit(bytes[..w], rest);
    NumBound(rest);
    Pow256IsPow2(|rest|);
    ShrLowUnique(Num(bytes), 8 * |rest|, Num(bytes[..w]), Num(rest));
  }

  /** Whole bytes and `r` bits of the next. */
  lemma LeadingBits(bytes: seq<Byte>, w: nat, r: nat)
    requires w < |bytes| && 1 <= r <= 7
    ensures Leading(bytes, 8 * w + r) == Num(bytes[..w]) * Pow2(r) + Shr(bytes[w], 8 - r)
    ensures Shr(bytes[w], 8 - r) < Pow2(r)
  {
    hide Shr, Low, Pow2, Pow256, Num;
    var tail := bytes[w + 1..];
    var a, x, t, p := Num(bytes[..w]), bytes[w], Num(tail), Pow256(|tail|);
    NumThree(bytes, w);
    NumBound(tail);
    Pow256IsPow2(|tail|);
    var d, c := Pow2(8 - r), Pow2(r);
    Pow2Add(8 - r, 8 * |tail|);
    assert 8 * |bytes| - (8 * w + r) == (8 - r) + 8 * |tail|;
    Complement(r);
    ShrLow(x, 8 - r);
    ByteShift(x, r);
    var q, y := Shr(x, 8 - r), Low(x, 8 - r);
    LeadingQuotient(a, x, t, p, d, c, q, y);
    ShrLowUnique(Num(bytes), 8 - r + 8 * |tail|, a * c + q, y * p + t);
  }

  lemma NumThree(bytes: seq<Byte>, w: nat)
    requires w < |bytes|
    ensures Num(bytes) == (Num(bytes[..w]) * 256 + bytes[w]) * Pow256(|bytes| - w - 1) + Num(bytes[w + 1..])
  {
    hide Num, Pow256;
    var head, tail := bytes[..w + 1], bytes[w + 1..];
    assert bytes == head + tail;
    NumSplit(head, tail);
    NumLast(head);
    assert head[..w] == bytes[..w];
  }

  lemma NumLast(bytes: seq<Byte>)
    requires bytes != []
    ensures Num(bytes) == Num(bytes[..|bytes| - 1]) * 256 + bytes[|bytes| - 1]
  {
  }

  lemma LeadingQuotient(a: nat, x: nat, t: nat, p: nat, d: nat, c: nat, q: nat, y: nat)
    requires p > 0 && d > 0 && t < p && c * d == 256 && x == q * d + y && y < d
    ensures (a * 256 + x) * p + t == (a * c + q) * (d * p) + (y * p + t)
    ensures y * p + t < d * p
  {
    assert a * 256 == a * c * d;
    assert a * 256 + x == (a * c + q) * d + y;
    Decimal.ScaleOrder(y + 1, d, p);
    assert ((a * c + q) * d) * p == (a * c + q) * (d * p);
  }

  // ---------------------------------------------------------------- one entry

  datatype Network = Network(bytes: seq<Byte>, prefix: nat)

  /** A well-formed entry: trimmed, an address, and a prefix of decimal digits no longer than it. */
  function Entry(entry: string): Option<Network> {
    var trimmed := Text.JsTrim(entry);
    if trimmed == "" then None
    else
      var slash := Text.IndexOf(trimmed, '/');
      var network := IpToBytes(trimmed[..slash]);
      if network.None? then None
      else if slash == |trimmed| then Some(Network(network.value, 8 * |network.value|))
      else
        var digits := trimmed[slash + 1..];
        if digits == "" || !Digits.AllDigits(digits) || Digits.ParseNat(digits) > 8 * |network.value| then None
        else Some(Network(network.value, Digits.ParseNat(digits)))
  }

  /** Same family, and the same leading bits. */
  predicate Agrees(ip: seq<Byte>, n: Network) {
    |n.bytes| == |ip| && n.prefix <= 8 * |ip| && Leading(ip, n.prefix) == Leading(n.bytes, n.prefix)
  }

  predicate Matches(ip: seq<Byte>, entry: string) {
    Entry(entry).Some? && Agrees(ip, Entry(entry).value)
  }

  /** The comparison by bytes and mask. */
  predicate BytesAgree(ip: seq<Byte>, network: seq<Byte>, prefix: nat)
    requires |ip| == |network| && prefix <= 8 * |ip|
  {
    var w, r := prefix / 8, prefix % 8;
    && ip[..w] == network[..w]
    && (r > 0 ==> BitAnd(ip[w], Mask(r)) == BitAnd(network[w], Mask(r)))
  }

  /** Bytes and mask compare exactly the first `prefix` bits as integers (section 3.1 of RFC 4632). */
  lemma BytesAgreeExactly(ip: seq<Byte>, network: seq<Byte>, prefix: nat)
    requires |ip| == |network| && prefix <= 8 * |ip|
    ensures BytesAgree(ip, network, prefix) <==> Leading(ip, prefix) == Leading(network, prefix)
  {
    var w, r := prefix / 8, prefix % 8;
    hide Leading, BitAnd, Mask, Num, Pow2, Shr;
    if r == 0 {
      WholeBytesAgree(ip, network, w);
    } else {
      BrokenByteAgrees(ip, network, w, r);
    }
  }

  lemma WholeBytesAgree(ip: seq<Byte>, network: seq<Byte>, w: nat)
    requires |ip| == |network| && w <= |ip|
    ensures ip[..w] == network[..w] <==> Leading(ip, 8 * w) == Leading(network, 8 * w)
  {
    hide Leading, Num;
    if Num(ip[..w]) == Num(network[..w]) {
      NumInjective(ip[..w], network[..w]);
    }
    LeadingBytes(ip, w);
    LeadingBytes(network, w);
  }

  lemma BrokenByteAgrees(ip: seq<Byte>, network: seq<Byte>, w: nat, r: nat)
    requires |ip| == |network| && w < |ip| && 1 <= r <= 7
    ensures ip[..w] == network[..w] && BitAnd(ip[w], Mask(r)) == BitAnd(network[w], Mask(r))
       <==> Leading(ip, 8 * w + r) == Leading(network, 8 * w + r)
  {
    hide Leading, BitAnd, Mask, Num, Pow2, Shr;
    if Num(ip[..w]) == Num(network[..w]) {
      NumInjective(ip[..w], network[..w]);
    }
    LeadingBits(ip, w, r);
    LeadingBits(network, w, r);
    MaskedEqual(ip[w], network[w], r);
    PairEqual(Num(ip[..w]), Shr(ip[w], 8 - r), Num(network[..w]), Shr(network[w], 8 - r), Pow2(r));
  }

  lemma PairEqual(a: nat, x: nat, b: nat, y: nat, c: nat)
    requires x < c && y < c
    ensures a * c + x == b * c + y <==> a == b && x == y
  {
    if a * c + x == b * c + y {
      Decimal.QuotientUnique(a * c + x, c, a, x);
      Decimal.QuotientUnique(b * c + y, c, b, y);
    }
  }

  method AgreeByBytes(ip: seq<Byte>, network: seq<Byte>, prefix: nat) returns (matches: bool)
    requires |ip| == |network| && prefix <= 8 * |ip|
    ensures matches <==> Leading(ip, prefix) == Leading(network, prefix)
  {
    hide Leading, BitAnd, Mask;
    BytesAgreeExactly(ip, network, prefix);
    var wholeBytes := prefix / 8;
    var remainingBits := prefix % 8;
    var i := 0;
    while i < wholeBytes
      invariant 0 <= i <= wholeBytes && ip[..i] == network[..i]
    {
      if ip[i] != network[i] {
        assert ip[..wholeBytes][i] != network[..wholeBytes][i];
        return false;
      }
      assert ip[..i + 1] == ip[..i] + [ip[i]] && network[..i + 1] == network[..i] + [network[i]];
      i := i + 1;
    }
    if remainingBits > 0 {
      var mask := Mask(remainingBits);
      if BitAnd(ip[wholeBytes], mask) != BitAnd(network[wholeBytes], mask) {
        return false;
      }
    }
    matches := true;
  }

  /** Whether some well-formed entry of the address's family agrees with it on its prefix. */
  method MatchesAnyCidr(ip: string, cidrs: seq<string>) returns (matches: bool)
    ensures matches <==> IpToBytes(ip).Some? && exists e :: e in cidrs && Matches(IpToBytes(ip).value, e)
  {
    hide IpToBytes, Text.JsTrim, Leading, Digits.ParseNat;
    var packedIp := ParseIp(ip);
    if packedIp.None? {
      return false;
    }
    var i := 0;
    while i < |cidrs|
      invariant 0 <= i <= |cidrs| && forall e :: e in cidrs[..i] ==> !Matches(packedIp.value, e)
    {
      var entry := cidrs[i];
      assert cidrs[..i + 1] == cidrs[..i] + [entry];
      i := i + 1;
      var trimmed := Text.JsTrim(entry);
      if trimmed == "" {
        continue;
      }
      var slash := Text.IndexOf(trimmed, '/');
      var packedNetwork := ParseIp(trimmed[..slash]);
      if packedNetwork.None? || |packedNetwork.value| != |packedIp.value| {
        continue;
      }
      var maxBits := |packedIp.value| * 8;
      var prefix := maxBits;
      if slash < |trimmed| {
        var digits := trimmed[slash + 1..];
        if digits == "" || !Digits.AllDigits(digits) {
          continue;
        }
        prefix := Digits.ParseNat(digits);
        if prefix > maxBits {
          continue;
        }
      }
      assert Entry(entry) == Some(Network(packedNetwork.value, prefix));
      var agrees := AgreeByBytes(packedIp.value, packedNetwork.value, prefix);
      if agrees {
        assert Matches(packedIp.value, entry);
        return true;
      }
    }
    assert cidrs[..i] == cidrs;
    matches := false;
  }
}
