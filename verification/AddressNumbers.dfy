/**
 Addresses as numbers: which texts denote them, what their bytes are, and when a prefix covers
 them. Digits are written from the numbers here, never read from a text.
 */
module AddressNumbers {
  import opened Wrappers
  import opened IpText
  import Cidr
  import Digits
  import Text

  // ---------------------------------------------------------------- writing numbers

  /** The digits of a number in a base, the most significant first. */
  function Value(digits: seq<nat>, radix: nat): nat {
    if digits == [] then 0 else Value(digits[..|digits| - 1], radix) * radix + digits[|digits| - 1]
  }

  function HexChar(d: nat, upper: bool): char
    requires d < 16
  {
    if upper then "0123456789ABCDEF"[d] else "0123456789abcdef"[d]
  }

  function DecimalChar(d: nat): char
    requires d < 10
  {
    "0123456789"[d]
  }

  /** Hexadecimal digits, each in either letter case. */
  predicate WritesHex(text: string, digits: seq<nat>) {
    && |digits| == |text|
    && forall i :: 0 <= i < |text| ==>
         digits[i] < 16 && (text[i] == HexChar(digits[i], false) || text[i] == HexChar(digits[i], true))
  }

  /** `text` spells the sixteen-bit number `n` in up to four digits, with leading zeros or without. */
  ghost predicate SpellsHex(text: string, n: nat) {
    1 <= |text| <= 4 && exists digits :: WritesHex(text, digits) && Value(digits, 16) == n
  }

  predicate WritesDecimal(text: string, digits: seq<nat>) {
    && |digits| == |text|
    && forall i :: 0 <= i < |text| ==> digits[i] < 10 && text[i] == DecimalChar(digits[i])
  }

  /** `text` spells the byte `n` in up to three decimal digits. */
  ghost predicate SpellsByte(text: string, n: nat) {
    n <= 255 && 1 <= |text| <= 3 && exists digits :: WritesDecimal(text, digits) && Value(digits, 10) == n
  }

  /** Four bytes with dots between them. */
  ghost predicate SpellsQuad(text: string, bytes: seq<nat>) {
    && |bytes| == 4
    && exists a, b, c, d :: SpellsByte(a, bytes[0]) && SpellsByte(b, bytes[1]) && SpellsByte(c, bytes[2])
                            && SpellsByte(d, bytes[3]) && text == a + "." + b + "." + c + "." + d
  }

  /** Texts between colons: one number each, and two for a dotted quad, which comes last. */
  ghost predicate SpellsGroups(parts: seq<string>, numbers: seq<nat>)
    decreases |parts|
  {
    || (parts == [] && numbers == [])
    || (&& |parts| == 1 && |numbers| == 2
        && exists bytes :: SpellsQuad(parts[0], bytes)
                           && numbers == [bytes[0] * 256 + bytes[1], bytes[2] * 256 + bytes[3]])
    || (&& parts != [] && numbers != []
        && SpellsHex(parts[0], numbers[0]) && SpellsGroups(parts[1..], numbers[1..]))
  }

  /** Every number of an address as two bytes, the high one first. */
  predicate AreBytesOf(bytes: seq<Byte>, numbers: seq<nat>) {
    && |bytes| == 2 * |numbers|
    && forall i :: 0 <= i < |numbers| ==> bytes[2 * i] as int * 256 + bytes[2 * i + 1] as int == numbers[i]
  }

  // ---------------------------------------------------------------- reading is the inverse of writing

  lemma HexCharValue(d: nat, upper: bool)
    requires d < 16
    ensures IsHexDigit(HexChar(d, upper)) && HexDigit(HexChar(d, upper)) == d
  {
    assert "0123456789ABCDEF"[d] == if d < 10 then '0' + d as char else 'A' + (d - 10) as char;
    assert "0123456789abcdef"[d] == if d < 10 then '0' + d as char else 'a' + (d - 10) as char;
  }

  lemma CharOfValue(c: char)
    requires IsHexDigit(c)
    ensures c == HexChar(HexDigit(c), false) || c == HexChar(HexDigit(c), true)
  {
    var d := HexDigit(c);
    assert "0123456789ABCDEF"[d] == if d < 10 then '0' + d as char else 'A' + (d - 10) as char;
    assert "0123456789abcdef"[d] == if d < 10 then '0' + d as char else 'a' + (d - 10) as char;
  }

  lemma {:induction false} HexReads(text: string, digits: seq<nat>)
    requires WritesHex(text, digits)
    ensures AllHex(text) && ParseHex(text) == Value(digits, 16)
  {
    hide HexChar, HexDigit, IsHexDigit;
    forall i | 0 <= i < |text|
      ensures IsHexDigit(text[i]) && HexDigit(text[i]) == digits[i]
    {
      HexCharValue(digits[i], false);
      HexCharValue(digits[i], true);
    }
    if text != "" {
      var n := |text| - 1;
      HexReads(text[..n], digits[..n]);
    }
  }

  lemma HexExactly(text: string, n: nat)
    ensures SpellsHex(text, n) <==> IsHextet(text) && ParseHex(text) == n
  {
    hide HexChar, HexDigit, ParseHex, Value;
    if SpellsHex(text, n) {
      var digits :| WritesHex(text, digits) && Value(digits, 16) == n;
      HexReads(text, digits);
    }
    if IsHextet(text) && ParseHex(text) == n {
      var digits := HexDigits(text);
      HexReads(text, digits);
    }
  }

  lemma HexDigits(text: string) returns (digits: seq<nat>)
    requires AllHex(text)
    ensures WritesHex(text, digits)
  {
    hide HexChar, HexDigit, IsHexDigit;
    digits := seq(|text|, i requires 0 <= i < |text| => HexDigit(text[i]));
    forall i | 0 <= i < |text|
      ensures text[i] == HexChar(digits[i], false) || text[i] == HexChar(digits[i], true)
    {
      CharOfValue(text[i]);
    }
  }

  lemma DecimalCharValue(c: char, d: nat)
    requires d < 10
    ensures c == DecimalChar(d) <==> Digits.IsDigit(c) && Digits.DigitValue(c) == d
  {
    assert "0123456789"[d] == '0' + d as char;
  }

  lemma {:induction false} DecimalReads(text: string, digits: seq<nat>)
    requires WritesDecimal(text, digits)
    ensures Digits.AllDigits(text) && Digits.ParseNat(text) == Value(digits, 10)
  {
    hide DecimalChar, Digits.DigitValue, Digits.IsDigit;
    forall i | 0 <= i < |text|
      ensures Digits.IsDigit(text[i]) && Digits.DigitValue(text[i]) == digits[i]
    {
      DecimalCharValue(text[i], digits[i]);
    }
    if text != "" {
      var n := |text| - 1;
      DecimalReads(text[..n], digits[..n]);
    }
  }

  lemma DecimalDigits(text: string) returns (digits: seq<nat>)
    requires Digits.AllDigits(text)
    ensures WritesDecimal(text, digits)
  {
    hide DecimalChar, Digits.DigitValue, Digits.IsDigit;
    digits := seq(|text|, i requires 0 <= i < |text| => Digits.DigitValue(text[i]));
    forall i | 0 <= i < |text|
      ensures text[i] == DecimalChar(digits[i])
    {
      DecimalCharValue(text[i], digits[i]);
    }
  }

  lemma ByteExactly(text: string, n: nat)
    ensures SpellsByte(text, n) <==> IsOctet(text) && Digits.ParseNat(text) == n
  {
    hide DecimalChar, Digits.ParseNat, Digits.IsDigit, Value;
    if SpellsByte(text, n) {
      var digits :| WritesDecimal(text, digits) && Value(digits, 10) == n;
      DecimalReads(text, digits);
    }
    if IsOctet(text) && Digits.ParseNat(text) == n {
      var digits := DecimalDigits(text);
      DecimalReads(text, digits);
    }
  }

  /** A dotted text parses to four bytes exactly when it spells them. */
  lemma QuadExactly(text: string, bytes: seq<nat>)
    ensures SpellsQuad(text, bytes) <==> Ipv4(text).Some? && Ipv4(text).value == bytes
  {
    if SpellsQuad(text, bytes) {
      var a, b, c, d :| SpellsByte(a, bytes[0]) && SpellsByte(b, bytes[1]) && SpellsByte(c, bytes[2])
                        && SpellsByte(d, bytes[3]) && text == a + "." + b + "." + c + "." + d;
      SpelledQuad(a, b, c, d, bytes);
    }
    if Ipv4(text).Some? && Ipv4(text).value == bytes {
      ReadQuad(text, bytes);
    }
  }

  lemma JoinFour(a: string, b: string, c: string, d: string)
    ensures Join([a, b, c, d], '.') == a + "." + b + "." + c + "." + d
  {
    assert [a, b, c, d][1..] == [b, c, d] && [b, c, d][1..] == [c, d] && [c, d][1..] == [d];
    assert Join([c, d], '.') == c + "." + d;
    assert Join([b, c, d], '.') == b + "." + (c + "." + d);
  }

  lemma SpelledQuad(a: string, b: string, c: string, d: string, bytes: seq<nat>)
    requires |bytes| == 4
    requires SpellsByte(a, bytes[0]) && SpellsByte(b, bytes[1]) && SpellsByte(c, bytes[2]) && SpellsByte(d, bytes[3])
    ensures Ipv4(a + "." + b + "." + c + "." + d).Some?
    ensures Ipv4(a + "." + b + "." + c + "." + d).value == bytes
  {
    hide SpellsByte, Digits.ParseNat, IsOctet, Join, Ipv4;
    ByteExactly(a, bytes[0]);
    ByteExactly(b, bytes[1]);
    ByteExactly(c, bytes[2]);
    ByteExactly(d, bytes[3]);
    JoinFour(a, b, c, d);
    QuadValue([a, b, c, d]);
  }

  lemma ReadQuad(text: string, bytes: seq<nat>)
    requires Ipv4(text).Some? && Ipv4(text).value == bytes
    ensures SpellsQuad(text, bytes)
  {
    hide SpellsByte, Digits.ParseNat, IsOctet, Join, Split;
    var parts := Split(text, '.');
    JoinSplit(text, '.');
    assert parts == [parts[0], parts[1], parts[2], parts[3]];
    JoinFour(parts[0], parts[1], parts[2], parts[3]);
    ByteExactly(parts[0], bytes[0]);
    ByteExactly(parts[1], bytes[1]);
    ByteExactly(parts[2], bytes[2]);
    ByteExactly(parts[3], bytes[3]);
  }

  lemma QuadHasDot(text: string)
    requires Ipv4(text).Some?
    ensures '.' in text
  {
    if '.' !in text {
      SplitFirst(text, "", '.');
    }
  }

  /** Groups parse to numbers exactly when they spell them. */
  lemma {:induction false} GroupsExactly(parts: seq<string>, numbers: seq<nat>)
    ensures SpellsGroups(parts, numbers) <==> GroupValues(parts).Some? && GroupValues(parts).value == numbers
    decreases |parts|
  {
    hide SpellsHex, SpellsQuad, Ipv4, IsHextet, ParseHex;
    if parts == [] {
    } else if '.' in parts[0] {
      DottedExactly(parts, numbers);
    } else {
      if numbers != [] {
        GroupsExactly(parts[1..], numbers[1..]);
        HexExactly(parts[0], numbers[0]);
      }
      NoQuad(parts[0]);
      PlainExactly(parts, numbers);
    }
  }

  lemma NoQuad(text: string)
    requires '.' !in text
    ensures forall bytes :: !SpellsQuad(text, bytes)
  {
    hide SpellsQuad, Ipv4;
    forall bytes: seq<nat>
      ensures !SpellsQuad(text, bytes)
    {
      QuadExactly(text, bytes);
      if Ipv4(text).Some? {
        QuadHasDot(text);
      }
    }
  }

  lemma DottedExactly(parts: seq<string>, numbers: seq<nat>)
    requires parts != [] && '.' in parts[0]
    ensures SpellsGroups(parts, numbers) <==> GroupValues(parts).Some? && GroupValues(parts).value == numbers
  {
    hide SpellsHex, SpellsQuad, Ipv4, IsHextet, ParseHex;
    if numbers != [] {
      HexExactly(parts[0], numbers[0]);
      if IsHextet(parts[0]) {
        HextetIsComponent(parts[0]);
      }
    }
    forall bytes: seq<nat>
      ensures SpellsQuad(parts[0], bytes) <==> Ipv4(parts[0]).Some? && Ipv4(parts[0]).value == bytes
    {
      QuadExactly(parts[0], bytes);
    }
    if Ipv4(parts[0]).Some? {
      var v4: seq<nat> := Ipv4(parts[0]).value;
      LengthOfV4(parts[0]);
      assert SpellsQuad(parts[0], v4);
    }
  }

  lemma PlainExactly(parts: seq<string>, numbers: seq<nat>)
    requires parts != [] && '.' !in parts[0] && forall bytes :: !SpellsQuad(parts[0], bytes)
    requires numbers != [] ==>
               && (SpellsGroups(parts[1..], numbers[1..])
                   <==> GroupValues(parts[1..]).Some? && GroupValues(parts[1..]).value == numbers[1..])
               && (SpellsHex(parts[0], numbers[0]) <==> IsHextet(parts[0]) && ParseHex(parts[0]) == numbers[0])
    ensures SpellsGroups(parts, numbers) <==> GroupValues(parts).Some? && GroupValues(parts).value == numbers
  {
    hide SpellsHex, SpellsQuad, Ipv4, IsHextet, ParseHex;
    if numbers != [] {
      assert numbers == [numbers[0]] + numbers[1..];
    }
  }

  // ---------------------------------------------------------------- whole addresses

  lemma {:induction false} BytesOfHextets(hextets: seq<Hextet>)
    ensures AreBytesOf(HextetBytes(hextets), hextets)
  {
    if hextets != [] {
      var n := |hextets| - 1;
      BytesOfHextets(hextets[..n]);
      var front, h := HextetBytes(hextets[..n]), hextets[n];
      assert HextetBytes(hextets) == front + [h / 256, h % 256];
    }
  }

  lemma BytesOnce(a: seq<Byte>, b: seq<Byte>, numbers: seq<nat>)
    requires AreBytesOf(a, numbers) && AreBytesOf(b, numbers)
    ensures a == b
  {
    forall k | 0 <= k < |a|
      ensures a[k] == b[k]
    {
      var i := k / 2;
      assert a[2 * i] as int * 256 + a[2 * i + 1] as int == numbers[i];
      assert b[2 * i] as int * 256 + b[2 * i + 1] as int == numbers[i];
    }
  }

  /** The numbers, with zeros up to eight between the two sides of a `::`. */
  function Filled(left: seq<nat>, right: seq<nat>): seq<nat>
    requires |left| + |right| <= 8
  {
    left + seq(8 - |left| - |right|, _ => 0) + right
  }

  /** The text denotes the eight numbers: all written out, or with one `::` for the zeros left out. */
  ghost predicate Denotes(ip: string, numbers: seq<nat>) {
    || (|numbers| == 8 && exists parts :: SpellsGroups(parts, numbers) && ip == Join(parts, ':'))
    || exists left, right, l, r :: SpellsGroups(left, l) && SpellsGroups(right, r) && |l| + |r| <= 7
                                   && ip == Join(left, ':') + "::" + Join(right, ':') && numbers == Filled(l, r)
  }

  lemma SidesJoin(ip: string)
    ensures |Sides(ip)| == 1 ==> NoDouble(ip) && Sides(ip) == [ip]
    ensures |Sides(ip)| == 2 ==> ip == Sides(ip)[0] + "::" + Sides(ip)[1]
  {
    var i := DoubleColon(ip);
    if i == |ip| {
      DoubleColonAbsent(ip);
    } else {
      assert ip == ip[..i] + "::" + ip[i + 2..];
      var rest := Sides(ip[i + 2..]);
      if |rest| == 1 {
        assert rest[0] == ip[i + 2..];
      }
    }
  }

  lemma {:induction false} DoubleColonAbsent(s: string)
    requires DoubleColon(s) == |s|
    ensures NoDouble(s)
  {
    if |s| >= 2 {
      DoubleColonAbsent(s[1..]);
      forall k | 0 < k < |s|
        ensures s[k - 1] != ':' || s[k] != ':'
      {
        if k > 1 {
          assert s[1..][k - 2] != ':' || s[1..][k - 1] != ':';
        }
      }
    }
  }

  lemma GroupParts(group: string) returns (parts: seq<string>)
    requires Group(group).Some?
    ensures Join(parts, ':') == group && GroupValues(parts) == Group(group)
  {
    if group == "" {
      parts := [];
      NoGroups();
    } else {
      parts := Split(group, ':');
      JoinSplit(group, ':');
    }
  }

  lemma FilledIsPadded(l: seq<Hextet>, r: seq<Hextet>)
    requires |l| + |r| <= 7
    ensures l + Zeros(8 - |l| - |r|) + r == Filled(l, r)
  {
    assert Zeros(8 - |l| - |r|) == seq(8 - |l| - |r|, _ => 0);
  }

  /** An accepted text denotes its numbers. */
  lemma HextetsDenoted(ip: string)
    requires ':' in ip && Hextets(ip).Some?
    ensures Denotes(ip, Hextets(ip).value)
  {
    hide GroupValues, Join, NoDouble, Sides, SpellsGroups, Group;
    SidesJoin(ip);
    var sides := Sides(ip);
    if |sides| == 2 {
      var left := GroupParts(sides[0]);
      var right := GroupParts(sides[1]);
      var l, r := GroupValues(left).value, GroupValues(right).value;
      GroupsExactly(left, l);
      GroupsExactly(right, r);
      FilledIsPadded(l, r);
    } else {
      var parts := GroupParts(ip);
      GroupsExactly(parts, Hextets(ip).value);
    }
  }

  /** A text that denotes numbers is accepted with them. */
  lemma DenotedHextets(ip: string, numbers: seq<nat>)
    requires Denotes(ip, numbers)
    ensures ':' in ip && Hextets(ip).Some? && Hextets(ip).value == numbers
  {
    hide Join, SpellsGroups, Hextets, Filled;
    if |numbers| == 8 && exists parts :: SpellsGroups(parts, numbers) && ip == Join(parts, ':') {
      var parts :| SpellsGroups(parts, numbers) && ip == Join(parts, ':');
      WrittenHextets(parts, numbers);
    } else {
      var left, right, l, r :| SpellsGroups(left, l) && SpellsGroups(right, r) && |l| + |r| <= 7
                               && ip == Join(left, ':') + "::" + Join(right, ':') && numbers == Filled(l, r);
      AbbreviatedHextets(left, right, l, r);
    }
  }

  lemma WrittenHextets(parts: seq<string>, numbers: seq<nat>)
    requires |numbers| == 8 && SpellsGroups(parts, numbers)
    ensures var ip := Join(parts, ':'); ':' in ip && Hextets(ip).Some? && Hextets(ip).value == numbers
  {
    hide GroupValues, Join, SpellsGroups, Hextets;
    GroupsExactly(parts, numbers);
    ComponentsOfGroups(parts);
    AtLeastTwo(parts);
    WrittenOut(parts);
  }

  lemma AbbreviatedHextets(left: seq<string>, right: seq<string>, l: seq<nat>, r: seq<nat>)
    requires SpellsGroups(left, l) && SpellsGroups(right, r) && |l| + |r| <= 7
    ensures var ip := Join(left, ':') + "::" + Join(right, ':');
            ':' in ip && Hextets(ip).Some? && Hextets(ip).value == Filled(l, r)
  {
    hide GroupValues, Join, SpellsGroups, Hextets, Filled;
    GroupsExactly(left, l);
    GroupsExactly(right, r);
    ComponentsOfGroups(left);
    ComponentsOfGroups(right);
    Abbreviated(left, right);
    FilledIsPadded(GroupValues(left).value, GroupValues(right).value);
  }

  lemma FewGroups(parts: seq<string>)
    requires |parts| < 2
    ensures GroupValues(parts).Some? ==> |GroupValues(parts).value| <= 2
  {
    hide Ipv4;
    if |parts| == 1 {
      assert parts[1..] == [];
    }
  }

  lemma AtLeastTwo(parts: seq<string>)
    requires GroupValues(parts).Some? && |GroupValues(parts).value| == 8
    ensures |parts| >= 2
  {
    hide GroupValues;
    if |parts| < 2 {
      FewGroups(parts);
    }
  }

  /**
   A text with a colon is an address exactly when it denotes eight numbers, and its bytes are
   theirs, the high one of each first (section 2.2 of RFC 4291).
   */
  lemma AddressExactly(ip: string, bytes: seq<Byte>)
    requires ':' in ip
    ensures IpToBytes(ip) == Some(bytes) <==> exists numbers :: Denotes(ip, numbers) && AreBytesOf(bytes, numbers)
  {
    hide Hextets, Denotes, HextetBytes;
    if IpToBytes(ip) == Some(bytes) {
      HextetsDenoted(ip);
      BytesOfHextets(Hextets(ip).value);
      var numbers: seq<nat> := Hextets(ip).value;
      assert Denotes(ip, numbers) && AreBytesOf(bytes, numbers);
    }
    forall numbers | Denotes(ip, numbers) && AreBytesOf(bytes, numbers)
      ensures IpToBytes(ip) == Some(bytes)
    {
      DenotedHextets(ip, numbers);
      BytesOfHextets(Hextets(ip).value);
      BytesOnce(bytes, HextetBytes(Hextets(ip).value), numbers);
    }
  }

  /** A text without a colon is an address exactly when it spells four bytes with dots between them. */
  lemma DottedAddressExactly(ip: string, bytes: seq<Byte>)
    requires ':' !in ip
    ensures IpToBytes(ip) == Some(bytes) <==> SpellsQuad(ip, bytes)
  {
    hide SpellsQuad, Ipv4;
    QuadExactly(ip, bytes);
  }

  // ---------------------------------------------------------------- from eight numbers

  /** `n` in hexadecimal without leading zeros. */
  function HexText(n: nat, upper: bool): string {
    if n < 16 then [HexChar(n, upper)] else HexText(n / 16, upper) + [HexChar(n % 16, upper)]
  }

  function HexDigitsOf(n: nat): seq<nat> {
    if n < 16 then [n] else HexDigitsOf(n / 16) + [n % 16]
  }

  lemma {:induction false} HexTextSpells(n: nat, upper: bool, width: nat)
    requires n < Power16(width) && width > 0
    ensures 1 <= |HexText(n, upper)| <= width
    ensures WritesHex(HexText(n, upper), HexDigitsOf(n)) && Value(HexDigitsOf(n), 16) == n
  {
    hide HexChar;
    if n >= 16 {
      HexTextSpells(n / 16, upper, width - 1);
      var ds := HexDigitsOf(n);
      assert ds[..|ds| - 1] == HexDigitsOf(n / 16);
    } else {
      assert [n][..0] == [];
    }
  }

  function Power16(k: nat): nat {
    if k == 0 then 1 else 16 * Power16(k - 1)
  }

  /** Eight numbers written in hexadecimal, each in its own letter case, with colons between them. */
  function AddressText(numbers: seq<nat>, upper: seq<bool>): string
    requires |numbers| == |upper|
  {
    Join(GroupTexts(numbers, upper), ':')
  }

  function GroupTexts(numbers: seq<nat>, upper: seq<bool>): (texts: seq<string>)
    requires |numbers| == |upper|
    ensures |texts| == |numbers|
  {
    if numbers == [] then [] else [HexText(numbers[0], upper[0])] + GroupTexts(numbers[1..], upper[1..])
  }

  lemma {:induction false} TextsSpell(numbers: seq<nat>, upper: seq<bool>)
    requires |numbers| == |upper| && forall i :: 0 <= i < |numbers| ==> numbers[i] < 65536
    ensures SpellsGroups(GroupTexts(numbers, upper), numbers)
  {
    hide HexText, SpellsHex;
    if numbers != [] {
      TextsSpell(numbers[1..], upper[1..]);
      NumberSpelled(numbers[0], upper[0]);
      var texts := GroupTexts(numbers, upper);
      assert texts[1..] == GroupTexts(numbers[1..], upper[1..]);
    }
  }

  lemma NumberSpelled(n: nat, upper: bool)
    requires n < 65536
    ensures SpellsHex(HexText(n, upper), n)
  {
    assert Power16(4) == 65536;
    hide HexChar, Value, Power16;
    HexTextSpells(n, upper, 4);
  }

  /** What eight numbers write is the address of those numbers. */
  lemma AddressOfNumbers(numbers: seq<nat>, upper: seq<bool>)
    requires |numbers| == |upper| == 8 && forall i :: 0 <= i < 8 ==> numbers[i] < 65536
    ensures IpToBytes(AddressText(numbers, upper)).Some?
    ensures var bytes := IpToBytes(AddressText(numbers, upper)).value;
            && |bytes| == 16
            && forall i :: 0 <= i < 8 ==> bytes[2 * i] as int * 256 + bytes[2 * i + 1] as int == numbers[i]
  {
    hide Join, Hextets, HextetBytes, GroupTexts, SpellsGroups;
    TextsSpell(numbers, upper);
    var ip := AddressText(numbers, upper);
    assert Denotes(ip, numbers);
    DenotedHextets(ip, numbers);
    BytesOfHextets(Hextets(ip).value);
  }

  // ---------------------------------------------------------------- prefixes

  /** The eight numbers as one, sixteen bits each. */
  function AsOne(numbers: seq<nat>): nat {
    if numbers == [] then 0 else AsOne(numbers[..|numbers| - 1]) * 65536 + numbers[|numbers| - 1]
  }

  lemma {:induction false} OneNumber(bytes: seq<Byte>, numbers: seq<nat>)
    requires AreBytesOf(bytes, numbers)
    ensures Cidr.Num(bytes) == AsOne(numbers)
  {
    if numbers != [] {
      var n := |numbers| - 1;
      OneNumber(bytes[..2 * n], numbers[..n]);
      assert bytes[2 * n] as int * 256 + bytes[2 * n + 1] as int == numbers[n];
      assert bytes[..2 * n + 1][..2 * n] == bytes[..2 * n];
      assert bytes[..2 * n + 2][..2 * n + 1] == bytes[..2 * n + 1];
      assert bytes[..2 * n + 2] == bytes;
    }
  }

  /** Integer division by a power of two. */
  function Halved(n: nat, times: nat): nat {
    if times == 0 then n else Halved(n / 2, times - 1)
  }

  lemma {:induction false} HalvedIsShift(n: nat, times: nat)
    ensures Halved(n, times) == Cidr.Shr(n, times)
    decreases times
  {
    if times == 0 {
      assert Cidr.Shr(n, 0) == n;
    } else {
      HalvedIsShift(n / 2, times - 1);
      Cidr.ShrHalf(n, times - 1);
    }
  }

  /** The digits of a number, as a prefix length is written. */
  function DecimalText(n: nat): string {
    if n < 10 then [DecimalChar(n)] else DecimalText(n / 10) + [DecimalChar(n % 10)]
  }

  lemma {:induction false} DecimalTextReads(n: nat)
    ensures DecimalText(n) != "" && Digits.AllDigits(DecimalText(n)) && Digits.ParseNat(DecimalText(n)) == n
  {
    hide DecimalChar, Digits.IsDigit, Digits.DigitValue;
    var s := DecimalText(n);
    DecimalCharValue(DecimalChar(n % 10), n % 10);
    if n < 10 {
      assert s[..0] == "";
    } else {
      DecimalTextReads(n / 10);
      assert s[..|s| - 1] == DecimalText(n / 10);
    }
  }

  lemma EntryReads(address: string, prefix: nat)
    requires address != "" && '!' <= address[0] <= '~' && '/' !in address
    ensures var bytes := IpToBytes(address);
            Cidr.Entry(address + "/" + DecimalText(prefix))
            == if bytes.None? || prefix > 8 * |bytes.value| then None else Some(Cidr.Network(bytes.value, prefix))
  {
    hide IpToBytes, Text.JsTrim, DecimalChar, Digits.IsDigit, Digits.ParseNat;
    var digits := DecimalText(prefix);
    var e := address + "/" + digits;
    DecimalTextReads(prefix);
    LastIsDigit(digits);
    Text.JsTrimKeeps(e);
    assert forall k :: 0 <= k < |address| ==> e[k] == address[k];
    Text.IndexOfUnique(e, '/', |address|);
    assert e[..|address|] == address && e[|address| + 1..] == digits;
    hide DecimalText;
  }

  lemma LastIsDigit(digits: string)
    requires digits != "" && Digits.AllDigits(digits)
    ensures '!' <= digits[|digits| - 1] <= '~'
  {
    assert Digits.IsDigit(digits[|digits| - 1]);
  }

  /** An entry `network/prefix` covers an address exactly when both are the same number without their low bits. */
  lemma CoversExactly(address: string, network: string, prefix: nat)
    requires IpToBytes(address).Some? && IpToBytes(network).Some?
    requires network != "" && '!' <= network[0] <= '~' && '/' !in network
    ensures var a, n := IpToBytes(address).value, IpToBytes(network).value;
            Cidr.Matches(a, network + "/" + DecimalText(prefix)) <==>
              && |a| == |n| && prefix <= 8 * |a|
              && Halved(Cidr.Num(a), 8 * |a| - prefix) == Halved(Cidr.Num(n), 8 * |a| - prefix)
  {
    hide IpToBytes, DecimalText, Cidr.Shr, Cidr.Entry, Halved, Cidr.Num;
    var a, n := IpToBytes(address).value, IpToBytes(network).value;
    EntryReads(network, prefix);
    if |a| == |n| && prefix <= 8 * |a| {
      HalvedIsShift(Cidr.Num(a), 8 * |a| - prefix);
      HalvedIsShift(Cidr.Num(n), 8 * |a| - prefix);
    }
  }

  /** An entry without a prefix length covers one address. */
  lemma BareCoversExactly(address: string, network: string)
    requires IpToBytes(address).Some? && IpToBytes(network).Some?
    requires network != "" && '!' <= network[0] <= '~' && '!' <= network[|network| - 1] <= '~' && '/' !in network
    ensures Cidr.Matches(IpToBytes(address).value, network) <==> IpToBytes(address) == IpToBytes(network)
  {
    hide IpToBytes, Text.JsTrim, Cidr.Shr, Cidr.Num;
    var a, n := IpToBytes(address).value, IpToBytes(network).value;
    Text.JsTrimKeeps(network);
    Text.IndexOfUnique(network, '/', |network|);
    assert network[..|network|] == network;
    if |a| == |n| {
      Cidr.ShrZeroBits(Cidr.Num(a));
      Cidr.ShrZeroBits(Cidr.Num(n));
      if Cidr.Num(a) == Cidr.Num(n) {
        Cidr.NumInjective(a, n);
      }
    }
  }

  /** A prefix length that is not all digits, or is missing behind its slash, makes an entry cover nothing. */
  lemma MalformedCoversNothing(address: seq<Byte>, network: string, rest: string)
    requires network != "" && '!' <= network[0] <= '~' && '/' !in network
    requires rest == "" || (!Digits.AllDigits(rest) && '!' <= rest[|rest| - 1] <= '~')
    ensures !Cidr.Matches(address, network + "/" + rest)
  {
    hide IpToBytes, Text.JsTrim, Digits.ParseNat;
    var e := network + "/" + rest;
    Text.JsTrimKeeps(e);
    assert forall k :: 0 <= k < |network| ==> e[k] == network[k];
    Text.IndexOfUnique(e, '/', |network|);
    assert e[|network| + 1..] == rest;
  }

  lemma {:induction false} TextsAreVisible(numbers: seq<nat>, upper: seq<bool>)
    requires |numbers| == |upper| && numbers != [] && forall i :: 0 <= i < |numbers| ==> numbers[i] < 65536
    ensures var text := AddressText(numbers, upper);
            text != "" && '!' <= text[0] <= '~' && '/' !in text
  {
    hide HexText;
    var texts := GroupTexts(numbers, upper);
    TextIsVisible(numbers[0], upper[0]);
    if |numbers| > 1 {
      TextsAreVisible(numbers[1..], upper[1..]);
      assert texts[1..] == GroupTexts(numbers[1..], upper[1..]);
    } else {
      assert texts == [texts[0]];
    }
  }

  lemma TextIsVisible(n: nat, upper: bool)
    requires n < 65536
    ensures HexText(n, upper) != "" && '!' <= HexText(n, upper)[0] <= '~' && '/' !in HexText(n, upper)
  {
    var text := HexText(n, upper);
    NumberSpelled(n, upper);
    HexExactly(text, n);
    hide HexText, SpellsHex, ParseHex;
    forall c | c in text
      ensures '!' <= c <= '~' && c != '/'
    {
      var i :| 0 <= i < |text| && text[i] == c;
      assert IsHexDigit(text[i]);
    }
    assert text[0] in text;
  }

  /** The same for addresses written from their eight numbers. */
  lemma NumbersCovered(numbers: seq<nat>, upper: seq<bool>, network: seq<nat>, cases: seq<bool>, prefix: nat)
    requires |numbers| == |upper| == |network| == |cases| == 8
    requires forall i :: 0 <= i < 8 ==> numbers[i] < 65536 && network[i] < 65536
    ensures IpToBytes(AddressText(numbers, upper)).Some?
    ensures Cidr.Matches(IpToBytes(AddressText(numbers, upper)).value,
                         AddressText(network, cases) + "/" + DecimalText(prefix)) <==>
              prefix <= 128 && Halved(AsOne(numbers), 128 - prefix) == Halved(AsOne(network), 128 - prefix)
  {
    hide AddressText, IpToBytes, DecimalText, Halved, Cidr.Num, AsOne, Cidr.Matches;
    AddressOfNumbers(numbers, upper);
    AddressOfNumbers(network, cases);
    TextsAreVisible(network, cases);
    var address, covering := AddressText(numbers, upper), AddressText(network, cases);
    CoversExactly(address, covering, prefix);
    OneNumber(IpToBytes(address).value, numbers);
    OneNumber(IpToBytes(covering).value, network);
  }

  // ---------------------------------------------------------------- from four numbers

  function DottedText(a: nat, b: nat, c: nat, d: nat): string {
    DecimalText(a) + "." + DecimalText(b) + "." + DecimalText(c) + "." + DecimalText(d)
  }

  function DecimalDigitsOf(n: nat): seq<nat> {
    if n < 10 then [n] else DecimalDigitsOf(n / 10) + [n % 10]
  }

  lemma {:induction false} DecimalTextWrites(n: nat)
    ensures WritesDecimal(DecimalText(n), DecimalDigitsOf(n)) && Value(DecimalDigitsOf(n), 10) == n
  {
    hide DecimalChar;
    if n < 10 {
      assert [n][..0] == [];
    } else {
      DecimalTextWrites(n / 10);
      var ds := DecimalDigitsOf(n);
      assert ds[..|ds| - 1] == DecimalDigitsOf(n / 10);
    }
  }

  lemma ByteSpelled(n: nat)
    requires n < 256
    ensures SpellsByte(DecimalText(n), n)
  {
    assert Digits.Pow10(3) == 1000;
    hide DecimalChar, Value, DecimalText, Digits.Pow10;
    DecimalTextWrites(n);
    DecimalTextLength(n, 3);
    DecimalTextReads(n);
  }

  lemma {:induction false} DecimalTextLength(n: nat, width: nat)
    requires n < Digits.Pow10(width) && width > 0
    ensures |DecimalText(n)| <= width
  {
    if n >= 10 {
      DecimalTextLength(n / 10, width - 1);
    }
  }

  /** Four bytes written in decimal are the address of those bytes. */
  lemma DottedOfNumbers(a: nat, b: nat, c: nat, d: nat)
    requires a < 256 && b < 256 && c < 256 && d < 256
    ensures IpToBytes(DottedText(a, b, c, d)) == Some([a, b, c, d])
  {
    hide DecimalText, SpellsByte, Ipv4;
    ByteSpelled(a);
    ByteSpelled(b);
    ByteSpelled(c);
    ByteSpelled(d);
    SpelledQuad(DecimalText(a), DecimalText(b), DecimalText(c), DecimalText(d), [a, b, c, d]);
    NoColon(a);
    NoColon(b);
    NoColon(c);
    NoColon(d);
  }

  lemma NoColon(n: nat)
    ensures ':' !in DecimalText(n)
  {
    DecimalTextReads(n);
    hide DecimalText;
    assert forall i :: 0 <= i < |DecimalText(n)| ==> Digits.IsDigit(DecimalText(n)[i]);
  }
}
