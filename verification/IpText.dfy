/**
 Address literals: dotted IPv4, and IPv6 with at most one `::` and an optional dotted tail. A
 `::` may stand for any run of zero groups, and a dotted tail for the last two groups.
 */
module IpText {
  import opened Wrappers
  import Digits
  import Text

  type Byte = n: int | 0 <= n < 256
  type Hextet = n: int | 0 <= n < 65536

  // ---------------------------------------------------------------- splitting

  /** `s.split(c)` */
  function Split(s: string, c: char): (parts: seq<string>)
    ensures |parts| >= 1
    decreases |s|
  {
    var i := Text.IndexOf(s, c);
    if i == |s| then [s] else [s[..i]] + Split(s[i + 1..], c)
  }

  function Join(parts: seq<string>, c: char): string {
    if parts == [] then "" else if |parts| == 1 then parts[0] else parts[0] + [c] + Join(parts[1..], c)
  }

  lemma SplitFirst(first: string, rest: string, c: char)
    requires c !in first
    ensures Split(first, c) == [first]
    ensures Split(first + [c] + rest, c) == [first] + Split(rest, c)
  {
    Text.IndexOfUnique(first, c, |first|);
    var s := first + [c] + rest;
    assert forall k :: 0 <= k < |first| ==> s[k] == first[k];
    Text.IndexOfUnique(s, c, |first|);
    assert s[..|first|] == first && s[|first| + 1..] == rest;
  }

  /** Splitting what was joined gives back the parts. */
  lemma {:induction false} SplitJoin(parts: seq<string>, c: char)
    requires parts != [] && forall p :: p in parts ==> c !in p
    ensures Split(Join(parts, c), c) == parts
  {
    hide Split;
    assert parts[0] in parts;
    if |parts| == 1 {
      SplitFirst(parts[0], "", c);
      assert parts == [parts[0]];
    } else {
      assert forall p :: p in parts[1..] ==> p in parts;
      SplitFirst(parts[0], Join(parts[1..], c), c);
      SplitJoin(parts[1..], c);
      assert parts == [parts[0]] + parts[1..];
    }
  }

  /** The first position of two colons in a row, or the length. */
  function DoubleColon(s: string): (i: nat)
    ensures i <= |s|
    ensures i < |s| ==> i + 1 < |s| && s[i] == ':' && s[i + 1] == ':'
  {
    if |s| < 2 then |s|
    else if s[0] == ':' && s[1] == ':' then 0
    else 1 + DoubleColon(s[1..])
  }

  /** `ip.split("::")` */
  function Sides(s: string): (sides: seq<string>)
    ensures |sides| >= 1
    decreases |s|
  {
    var i := DoubleColon(s);
    if i == |s| then [s] else [s[..i]] + Sides(s[i + 2..])
  }

  predicate NoDouble(s: string) {
    forall k :: 0 < k < |s| ==> s[k - 1] != ':' || s[k] != ':'
  }

  lemma {:induction false} DoubleColonAt(s: string, i: nat)
    requires i + 1 < |s| && s[i] == ':' && s[i + 1] == ':'
    requires forall k :: 0 < k <= i ==> s[k - 1] != ':' || s[k] != ':'
    ensures DoubleColon(s) == i
  {
    if i > 0 {
      assert s[1 - 1] != ':' || s[1] != ':';
      forall k | 0 < k <= i - 1
        ensures s[1..][k - 1] != ':' || s[1..][k] != ':'
      {
        assert s[k + 1 - 1] != ':' || s[k + 1] != ':';
      }
      DoubleColonAt(s[1..], i - 1);
    }
  }

  lemma {:induction false} NoDoubleColon(s: string)
    requires NoDouble(s)
    ensures DoubleColon(s) == |s|
  {
    if |s| >= 2 {
      assert s[1 - 1] != ':' || s[1] != ':';
      forall k | 0 < k < |s[1..]|
        ensures s[1..][k - 1] != ':' || s[1..][k] != ':'
      {
        assert s[k + 1 - 1] != ':' || s[k + 1] != ':';
      }
      NoDoubleColon(s[1..]);
    }
  }

  lemma TwoSides(left: string, right: string)
    requires NoDouble(left) && NoDouble(right)
    requires (left != "" ==> left[|left| - 1] != ':') && (right != "" ==> right[0] != ':')
    ensures Sides(left + "::" + right) == [left, right]
  {
    var s := left + "::" + right;
    var i := |left|;
    forall k | 0 < k <= i
      ensures s[k - 1] != ':' || s[k] != ':'
    {
      if k < i {
        assert left[k - 1] != ':' || left[k] != ':';
      }
    }
    DoubleColonAt(s, i);
    assert s[..i] == left && s[i + 2..] == right;
    NoDoubleColon(right);
  }

  // ---------------------------------------------------------------- dotted quads

  /** One to three digits, at most 255. */
  predicate IsOctet(part: string) {
    1 <= |part| <= 3 && Digits.AllDigits(part) && Digits.ParseNat(part) <= 255
  }

  function Ipv4(ip: string): Option<seq<Byte>> {
    var parts := Split(ip, '.');
    if |parts| == 4 && (forall i :: 0 <= i < 4 ==> IsOctet(parts[i]))
    then Some([Digits.ParseNat(parts[0]), Digits.ParseNat(parts[1]), Digits.ParseNat(parts[2]),
      Digits.ParseNat(parts[3])])
    else None
  }

  method ParseIpv4(ip: string) returns (r: Option<seq<Byte>>)
    ensures r == Ipv4(ip)
  {
    var parts := Split(ip, '.');
    if |parts| != 4 {
      return None;
    }
    var bytes := new Byte[4](_ => 0);
    var i := 0;
    while i < 4
      invariant 0 <= i <= 4
      invariant forall k :: 0 <= k < i ==> IsOctet(parts[k]) && bytes[k] == Digits.ParseNat(parts[k])
    {
      var part := parts[i];
      if part == "" || |part| > 3 || !Digits.AllDigits(part) {
        return None;
      }
      var value := Digits.ParseNat(part);
      if value > 255 {
        return None;
      }
      bytes[i] := value;
      i := i + 1;
    }
    assert bytes[..] == [bytes[0], bytes[1], bytes[2], bytes[3]];
    r := Some(bytes[..]);
  }

  // ---------------------------------------------------------------- hextets

  predicate IsHexDigit(c: char) {
    '0' <= c <= '9' || 'a' <= c <= 'f' || 'A' <= c <= 'F'
  }

  function HexDigit(c: char): (d: nat)
    requires IsHexDigit(c)
    ensures d < 16
  {
    if c <= '9' then c as int - '0' as int
    else if c <= 'F' then c as int - 'A' as int + 10
    else c as int - 'a' as int + 10
  }

  predicate AllHex(s: string) {
    forall i :: 0 <= i < |s| ==> IsHexDigit(s[i])
  }

  /** `parseInt(part, 16)` */
  function ParseHex(s: string): nat
    requires AllHex(s)
  {
    if s == "" then 0 else 16 * ParseHex(s[..|s| - 1]) + HexDigit(s[|s| - 1])
  }

  predicate IsHextet(part: string) {
    1 <= |part| <= 4 && AllHex(part)
  }

  lemma HextetBound(part: string)
    requires IsHextet(part)
    ensures ParseHex(part) < 65536
  {
    HexBound(part);
    assert Pow16(1) == 16 && Pow16(2) == 256 && Pow16(3) == 4096 && Pow16(4) == 65536;
  }

  function Pow16(n: nat): nat {
    if n == 0 then 1 else 16 * Pow16(n - 1)
  }

  lemma {:induction false} HexBound(s: string)
    requires AllHex(s)
    ensures ParseHex(s) < Pow16(|s|)
  {
    if s != "" {
      HexBound(s[..|s| - 1]);
    }
  }

  /** The two groups a dotted tail stands for. */
  function TailHextets(v4: seq<Byte>): seq<Hextet>
    requires |v4| == 4
  {
    [v4[0] as int * 256 + v4[1] as int, v4[2] as int * 256 + v4[3] as int]
  }

  /** Groups, the last of which may be dotted. */
  function GroupValues(parts: seq<string>): Option<seq<Hextet>> {
    if parts == [] then Some([])
    else if '.' in parts[0] then
      if |parts| != 1 || Ipv4(parts[0]).None? then None else Some(TailHextets(Ipv4(parts[0]).value))
    else if !IsHextet(parts[0]) then None
    else
      var rest := GroupValues(parts[1..]);
      HextetBound(parts[0]);
      if rest.None? then None else Some([ParseHex(parts[0]) as Hextet] + rest.value)
  }

  function Group(group: string): Option<seq<Hextet>> {
    if group == "" then Some([]) else GroupValues(Split(group, ':'))
  }

  method ParseIpv6Group(group: string) returns (r: Option<seq<Hextet>>)
    ensures r == Group(group)
  {
    if group == "" {
      return Some([]);
    }
    hide Split, Ipv4, IsHextet, ParseHex;
    var parts := Split(group, ':');
    var values: seq<Hextet> := [];
    var i := 0;
    PrependNothing(GroupValues(parts));
    assert parts[0..] == parts;
    while i < |parts|
      invariant 0 <= i <= |parts|
      invariant GroupValues(parts) == Prepend(values, GroupValues(parts[i..]))
    {
      var part := parts[i];
      assert parts[i..][0] == part && parts[i..][1..] == parts[i + 1..];
      if part == "" {
        NotEmptyHextet();
        return None;
      }
      if '.' in part {
        if i != |parts| - 1 {
          return None;
        }
        var v4 := ParseIpv4(part);
        if v4.None? {
          return None;
        }
        return Some(values + TailHextets(v4.value));
      }
      if !IsHextet(part) {
        return None;
      }
      HextetBound(part);
      ghost var rest := GroupValues(parts[i + 1..]);
      assert rest.Some? ==>
        values + ([ParseHex(part) as Hextet] + rest.value) == values + [ParseHex(part) as Hextet] + rest.value;
      values := values + [ParseHex(part)];
      i := i + 1;
    }
    assert parts[i..] == [] && values + [] == values;
    r := Some(values);
  }

  lemma PrependNothing(rest: Option<seq<Hextet>>)
    ensures Prepend([], rest) == rest
  {
    assert rest.Some? ==> [] + rest.value == rest.value;
  }

  lemma NotEmptyHextet()
    ensures !IsHextet("")
  {
  }

  function Prepend(values: seq<Hextet>, rest: Option<seq<Hextet>>): Option<seq<Hextet>> {
    if rest.None? then None else Some(values + rest.value)
  }

  // ---------------------------------------------------------------- addresses

  function Zeros(n: nat): (z: seq<Hextet>)
    ensures |z| == n && forall i :: 0 <= i < n ==> z[i] == 0
  {
    seq(n, _ => 0)
  }

  function Hextets(ip: string): Option<seq<Hextet>> {
    var sides := Sides(ip);
    if |sides| > 2 then None
    else if |sides| == 2 then
      var left, right := Group(sides[0]), Group(sides[1]);
      if left.None? || right.None? || |left.value| + |right.value| > 7 then None
      else Some(left.value + Zeros(8 - |left.value| - |right.value|) + right.value)
    else
      var single := Group(ip);
      if single.None? || |single.value| != 8 then None else single
  }

  function HextetBytes(hextets: seq<Hextet>): (bytes: seq<Byte>)
    ensures |bytes| == 2 * |hextets|
  {
    if hextets == [] then []
    else HextetBytes(hextets[..|hextets| - 1]) + [hextets[|hextets| - 1] / 256, hextets[|hextets| - 1] % 256]
  }

  function Ipv6(ip: string): Option<seq<Byte>> {
    var hextets := Hextets(ip);
    if hextets.None? then None else Some(HextetBytes(hextets.value))
  }

  function IpToBytes(ip: string): (r: Option<seq<Byte>>)
  {
    if ':' in ip then Ipv6(ip) else Ipv4(ip)
  }

  /** Addresses are 4 or 16 bytes, never normalised across families. */
  lemma FamilyLengths(ip: string)
    ensures IpToBytes(ip).Some? ==> |IpToBytes(ip).value| == if ':' in ip then 16 else 4
  {
    hide Ipv4, Group, Sides, HextetBytes;
    LengthOfV4(ip);
  }

  lemma LengthOfV4(ip: string)
    ensures Ipv4(ip).Some? ==> |Ipv4(ip).value| == 4
  {
    hide Split;
  }

  method ParseIpv6(ip: string) returns (r: Option<seq<Byte>>)
    ensures r == Ipv6(ip)
  {
    hide Group, Sides;
    var sides := Sides(ip);
    if |sides| > 2 {
      return None;
    }
    var hextets: seq<Hextet>;
    if |sides| == 2 {
      var left := ParseIpv6Group(sides[0]);
      var right := ParseIpv6Group(sides[1]);
      if left.None? || right.None? {
        return None;
      }
      var missing := 8 - |left.value| - |right.value|;
      if missing < 1 {
        return None;
      }
      hextets := left.value + Zeros(missing) + right.value;
    } else {
      var single := ParseIpv6Group(ip);
      if single.None? {
        return None;
      }
      hextets := single.value;
    }
    if |hextets| != 8 {
      return None;
    }
    var bytes := WriteBytes(hextets);
    r := Some(bytes);
  }

  /** Each group as its high and its low byte. */
  method WriteBytes(hextets: seq<Hextet>) returns (r: seq<Byte>)
    requires |hextets| == 8
    ensures r == HextetBytes(hextets)
  {
    var bytes := new Byte[16](_ => 0);
    var i := 0;
    while i < 8
      invariant 0 <= i <= 8 && bytes[..2 * i] == HextetBytes(hextets[..i])
    {
      assert hextets[..i + 1][..i] == hextets[..i];
      var hextet := hextets[i];
      bytes[i * 2] := hextet / 256;
      bytes[i * 2 + 1] := hextet % 256;
      assert bytes[..2 * (i + 1)] == bytes[..2 * i] + [hextet / 256, hextet % 256];
      i := i + 1;
    }
    assert bytes[..16] == bytes[..] && hextets[..8] == hextets;
    r := bytes[..];
  }

  method ParseIp(ip: string) returns (r: Option<seq<Byte>>)
    ensures r == IpToBytes(ip)
  {
    if ':' in ip {
      r := ParseIpv6(ip);
    } else {
      r := ParseIpv4(ip);
    }
  }

  // ---------------------------------------------------------------- equivalent spellings

  /** Hextets written out, none of them dotted. */
  predicate PlainGroups(parts: seq<string>) {
    forall p :: p in parts ==> IsHextet(p)
  }

  /** Text that can stand between colons. */
  predicate Component(p: string) {
    p != "" && ':' !in p
  }

  predicate Components(parts: seq<string>) {
    forall p :: p in parts ==> Component(p)
  }

  lemma HextetIsComponent(p: string)
    requires IsHextet(p)
    ensures Component(p) && '.' !in p
  {
  }

  lemma {:induction false} ComponentsOfGroups(parts: seq<string>)
    requires GroupValues(parts).Some?
    ensures Components(parts)
  {
    hide Ipv4;
    if parts != [] {
      assert parts == [parts[0]] + parts[1..];
      if '.' in parts[0] {
        DottedIsComponent(parts[0]);
      } else {
        HextetIsComponent(parts[0]);
        ComponentsOfGroups(parts[1..]);
      }
    }
  }

  lemma DottedIsComponent(p: string)
    requires Ipv4(p).Some? && '.' in p
    ensures Component(p)
  {
    var parts := Split(p, '.');
    JoinSplit(p, '.');
    forall q | q in parts
      ensures ':' !in q
    {
      var i :| 0 <= i < 4 && parts[i] == q;
      assert IsOctet(parts[i]);
    }
    JoinOmits(parts, '.', ':');
  }

  lemma {:induction false} JoinSplit(s: string, c: char)
    ensures Join(Split(s, c), c) == s
    decreases |s|
  {
    hide Text.IndexOf;
    var i := Text.IndexOf(s, c);
    if i < |s| {
      JoinSplit(s[i + 1..], c);
      var rest := Split(s[i + 1..], c);
      assert Split(s, c) == [s[..i]] + rest;
      hide Split;
      JoinFirst(s[..i], rest, c);
      assert s == s[..i] + [c] + s[i + 1..];
    }
  }

  lemma JoinFirst(first: string, rest: seq<string>, c: char)
    requires rest != []
    ensures Join([first] + rest, c) == first + [c] + Join(rest, c)
  {
    assert ([first] + rest)[1..] == rest;
  }

  lemma {:induction false} JoinOmits(parts: seq<string>, c: char, d: char)
    requires c != d && forall p :: p in parts ==> d !in p
    ensures d !in Join(parts, c)
  {
    if |parts| > 1 {
      assert parts == [parts[0]] + parts[1..];
      JoinOmits(parts[1..], c, d);
    }
  }

  /** Joined components have no two colons in a row, and none at either end. */
  lemma {:induction false} JoinedShape(parts: seq<string>)
    requires Components(parts)
    ensures var s := Join(parts, ':');
            && NoDouble(s) && (parts != [] <==> s != "")
            && (s != "" ==> s[0] != ':' && s[|s| - 1] != ':')
  {
    if parts != [] {
      var first, s := parts[0], Join(parts, ':');
      assert first in parts;
      if |parts| == 1 {
        assert s == first;
      } else {
        var rest := Join(parts[1..], ':');
        assert parts == [first] + parts[1..];
        JoinedShape(parts[1..]);
        Glue(first, rest);
      }
    }
  }

  lemma Glue(first: string, rest: string)
    requires Component(first) && NoDouble(rest) && rest != "" && rest[0] != ':' && rest[|rest| - 1] != ':'
    ensures var s := first + ":" + rest; NoDouble(s) && s[0] != ':' && s[|s| - 1] != ':'
  {
    var s := first + ":" + rest;
    var n := |first|;
    assert s[0] == first[0] && first[0] in first;
    forall k | 0 < k < |s|
      ensures s[k - 1] != ':' || s[k] != ':'
    {
      if k <= n {
        assert s[k - 1] == first[k - 1] && first[k - 1] in first;
      } else if k > n + 1 {
        var j := k - n - 1;
        assert rest[j - 1] != ':' || rest[j] != ':';
        assert s[k - 1] == rest[j - 1] && s[k] == rest[j];
      }
    }
  }

  /** What joined components parse to. */
  lemma JoinedGroup(parts: seq<string>)
    requires Components(parts)
    ensures Group(Join(parts, ':')) == GroupValues(parts)
  {
    hide GroupValues, NoDouble;
    JoinedShape(parts);
    if parts != [] {
      forall p | p in parts
        ensures ':' !in p
      {
        assert Component(p);
      }
      SplitJoin(parts, ':');
    } else {
      NoGroups();
    }
  }

  lemma NoGroups()
    ensures GroupValues([]) == Some([])
  {
  }

  lemma {:induction false} GroupsConcat(a: seq<string>, b: seq<string>)
    requires PlainGroups(a)
    ensures GroupValues(a).Some? && |GroupValues(a).value| == |a|
    ensures GroupValues(a + b) == Prepend(GroupValues(a).value, GroupValues(b))
  {
    hide Ipv4, ParseHex;
    if a == [] {
      assert a + b == b;
      PrependNothing(GroupValues(b));
    } else {
      HextetIsComponent(a[0]);
      assert a == [a[0]] + a[1..];
      GroupsConcat(a[1..], b);
      assert (a + b)[0] == a[0] && (a + b)[1..] == a[1..] + b;
      var first := ParseHex(a[0]);
      var rest := GroupValues(a[1..]).value;
      assert GroupValues(b).Some? ==> [first] + (rest + GroupValues(b).value) == [first] + rest + GroupValues(b).value;
    }
  }

  /** Every group is zero, however it is written. */
  predicate ZeroGroups(parts: seq<string>) {
    PlainGroups(parts) && forall p :: p in parts ==> IsHextet(p) && ParseHex(p) == 0
  }

  lemma {:induction false} ZeroValues(parts: seq<string>)
    requires ZeroGroups(parts)
    ensures GroupValues(parts) == Some(Zeros(|parts|))
  {
    hide Ipv4, ParseHex;
    if parts != [] {
      HextetIsComponent(parts[0]);
      assert parts == [parts[0]] + parts[1..];
      ZeroValues(parts[1..]);
      assert [0] + Zeros(|parts| - 1) == Zeros(|parts|);
    }
  }

  /** The whole address without `::`. */
  lemma WrittenOut(parts: seq<string>)
    requires Components(parts) && |parts| >= 2
    ensures ':' in Join(parts, ':')
    ensures Hextets(Join(parts, ':'))
         == if GroupValues(parts).Some? && |GroupValues(parts).value| == 8 then GroupValues(parts) else None
  {
    var s := Join(parts, ':');
    JoinedShape(parts);
    JoinedGroup(parts);
    NoDoubleColon(s);
    assert s[|parts[0]|] == ':';
    hide GroupValues, NoDouble, Group;
    assert Sides(s) == [s];
  }

  /** The whole address with one `::`. */
  lemma Abbreviated(left: seq<string>, right: seq<string>)
    requires Components(left) && Components(right)
    ensures var s := Join(left, ':') + "::" + Join(right, ':');
            && ':' in s
            && Hextets(s)
               == (if GroupValues(left).Some? && GroupValues(right).Some?
                      && |GroupValues(left).value| + |GroupValues(right).value| <= 7
                   then Some(GroupValues(left).value + Zeros(8 - |GroupValues(left).value| - |GroupValues(right).value|)
                             + GroupValues(right).value)
                   else None)
  {
    hide GroupValues, NoDouble, Group, Sides, Components, Join;
    var l, r := Join(left, ':'), Join(right, ':');
    JoinedShape(left);
    JoinedShape(right);
    JoinedGroup(left);
    JoinedGroup(right);
    TwoSides(l, r);
    assert (l + "::" + r)[|l|] == ':';
  }

  /** Writing any run of zero groups as `::` gives the same bytes (section 2.2 of RFC 4291). */
  lemma ZeroRunAbbreviates(left: seq<string>, zeros: seq<string>, right: seq<string>)
    requires PlainGroups(left) && ZeroGroups(zeros) && zeros != [] && GroupValues(right).Some?
    requires |left| + |zeros| + |GroupValues(right).value| == 8
    ensures IpToBytes(Join(left + zeros + right, ':')).Some?
    ensures IpToBytes(Join(left, ':') + "::" + Join(right, ':')) == IpToBytes(Join(left + zeros + right, ':'))
  {
    hide GroupValues, Join, Hextets, Ipv4, HextetBytes, IsHextet;
    var all := left + zeros + right;
    GroupsConcat(zeros, right);
    GroupsConcat(left, zeros + right);
    assert left + (zeros + right) == all;
    ZeroValues(zeros);
    GroupsConcat(left, []);
    assert left + [] == left;
    ComponentsOfGroups(all);
    assert Components(left) && Components(right);
    WrittenOut(all);
    Abbreviated(left, right);
    var l, r := GroupValues(left).value, GroupValues(right).value;
    assert l + (Zeros(|zeros|) + r) == l + Zeros(|zeros|) + r;
  }

  predicate FourOctets(octets: seq<string>) {
    |octets| == 4 && IsOctet(octets[0]) && IsOctet(octets[1]) && IsOctet(octets[2]) && IsOctet(octets[3])
  }

  /** The last two groups and the dotted quad of their four bytes. */
  predicate SameTail(hi: string, lo: string, octets: seq<string>) {
    && IsHextet(hi) && IsHextet(lo) && FourOctets(octets)
    && ParseHex(hi) == 256 * Digits.ParseNat(octets[0]) + Digits.ParseNat(octets[1])
    && ParseHex(lo) == 256 * Digits.ParseNat(octets[2]) + Digits.ParseNat(octets[3])
  }

  lemma OctetHasNoDot(p: string)
    requires IsOctet(p)
    ensures '.' !in p
  {
  }

  lemma QuadValue(octets: seq<string>)
    requires FourOctets(octets)
    ensures var quad := Join(octets, '.');
            && '.' in quad && Split(quad, '.') == octets
            && Ipv4(quad) == Some([Digits.ParseNat(octets[0]), Digits.ParseNat(octets[1]),
                                   Digits.ParseNat(octets[2]), Digits.ParseNat(octets[3])])
  {
    hide Digits.ParseNat, Split, Join;
    forall p | p in octets
      ensures '.' !in p
    {
      assert p == octets[0] || p == octets[1] || p == octets[2] || p == octets[3];
      OctetHasNoDot(p);
    }
    SplitJoin(octets, '.');
    JoinHasSeparator(octets, '.');
  }

  lemma JoinHasSeparator(parts: seq<string>, c: char)
    requires |parts| >= 2
    ensures c in Join(parts, c)
  {
    assert Join(parts, c)[|parts[0]|] == c;
  }

  lemma TailValues(front: seq<string>, hi: string, lo: string, octets: seq<string>)
    requires PlainGroups(front) && SameTail(hi, lo, octets)
    ensures GroupValues(front + [hi, lo]).Some?
    ensures GroupValues(front + [Join(octets, '.')]) == GroupValues(front + [hi, lo])
  {
    hide Ipv4, Join, ParseHex, Split, IsOctet, IsHextet, Digits.ParseNat, Digits.AllDigits, GroupValues, PlainGroups,
      IsHexDigit, AllHex;
    HextetIsComponent(hi);
    HextetIsComponent(lo);
    PairValues(hi, lo);
    DottedValues(octets);
    GroupsConcat(front, [hi, lo]);
    GroupsConcat(front, [Join(octets, '.')]);
  }

  lemma DottedValues(octets: seq<string>)
    requires FourOctets(octets)
    ensures var high := 256 * Digits.ParseNat(octets[0]) + Digits.ParseNat(octets[1]);
            var low := 256 * Digits.ParseNat(octets[2]) + Digits.ParseNat(octets[3]);
            high < 65536 && low < 65536 && GroupValues([Join(octets, '.')]) == Some([high, low])
  {
    hide Ipv4, Join, Split, IsHextet, ParseHex;
    QuadValue(octets);
  }

  lemma PairValues(hi: string, lo: string)
    requires IsHextet(hi) && IsHextet(lo) && '.' !in hi && '.' !in lo
    ensures ParseHex(hi) < 65536 && ParseHex(lo) < 65536
    ensures GroupValues([hi, lo]) == Some([ParseHex(hi), ParseHex(lo)])
  {
    HextetBound(hi);
    HextetBound(lo);
    hide ParseHex, IsHextet;
    assert [hi, lo][1..] == [lo] && [lo][1..] == [];
    NoGroups();
    var l: seq<Hextet> := [ParseHex(lo)];
    assert l + [] == l;
    assert GroupValues([lo]) == Some(l);
    var h: seq<Hextet> := [ParseHex(hi)];
    assert h + l == [ParseHex(hi), ParseHex(lo)];
  }

  /** Writing the last two groups as a dotted quad gives the same bytes, with and without `::` before it. */
  lemma DottedTailSame(left: seq<string>, front: seq<string>, hi: string, lo: string, octets: seq<string>)
    requires Components(left) && PlainGroups(front) && SameTail(hi, lo, octets)
    ensures front != [] ==> IpToBytes(Join(front + [Join(octets, '.')], ':')) == IpToBytes(Join(front + [hi, lo], ':'))
    ensures IpToBytes(Join(left, ':') + "::" + Join(front + [Join(octets, '.')], ':'))
         == IpToBytes(Join(left, ':') + "::" + Join(front + [hi, lo], ':'))
  {
    hide GroupValues, Join, Hextets, Ipv4, HextetBytes, SameTail, Components;
    TailValues(front, hi, lo, octets);
    ComponentsOfGroups(front + [hi, lo]);
    ComponentsOfGroups(front + [Join(octets, '.')]);
    Abbreviated(left, front + [hi, lo]);
    Abbreviated(left, front + [Join(octets, '.')]);
    if front != [] {
      WrittenOut(front + [hi, lo]);
      WrittenOut(front + [Join(octets, '.')]);
    }
  }
}
