/** String comparison, trimming and affixes. */
module Text {

  /** Lexicographic order by code unit, as string comparison has it. */
  predicate Less(a: string, b: string) {
    b != "" && (a == "" || a[0] < b[0] || (a[0] == b[0] && Less(a[1..], b[1..])))
  }

  lemma {:induction false} LessIrreflexive(a: string)
    ensures !Less(a, a)
  {
    if a != "" {
      LessIrreflexive(a[1..]);
    }
  }

  lemma {:induction false} LessTransitive(a: string, b: string, c: string)
    requires Less(a, b) && Less(b, c)
    ensures Less(a, c)
  {
    if a != "" && a[0] == b[0] && b[0] == c[0] {
      LessTransitive(a[1..], b[1..], c[1..]);
    }
  }

  lemma {:induction false} LessTotal(a: string, b: string)
    ensures Less(a, b) || a == b || Less(b, a)
  {
    if a != "" && b != "" && a[0] == b[0] {
      LessTotal(a[1..], b[1..]);
      assert a == [a[0]] + a[1..] && b == [b[0]] + b[1..];
    }
  }

  predicate StartsWith(s: string, prefix: string) {
    prefix <= s
  }

  predicate EndsWith(s: string, suffix: string) {
    |suffix| <= |s| && s[|s| - |suffix|..] == suffix
  }

  /** `s` without the leading and trailing characters that `isSpace` accepts. */
  function Trim(s: string, isSpace: char -> bool): string {
    TrimEnd(TrimStart(s, isSpace), isSpace)
  }

  function TrimStart(s: string, isSpace: char -> bool): string {
    if s != "" && isSpace(s[0]) then TrimStart(s[1..], isSpace) else s
  }

  function TrimEnd(s: string, isSpace: char -> bool): string {
    if s != "" && isSpace(s[|s| - 1]) then TrimEnd(s[..|s| - 1], isSpace) else s
  }

  /** The separators both runtimes trim. */
  predicate CommonSpace(c: char) {
    var n := c as int;
    || 0x09 <= n <= 0x0D || n == 0x20 || n == 0xA0 || n == 0x1680 || 0x2000 <= n <= 0x200A
    || n == 0x2028 || n == 0x2029 || n == 0x202F || n == 0x205F || n == 0x3000
  }

  /** `str.strip()` in Python. */
  function Strip(s: string): string {
    Trim(s, c => CommonSpace(c) || 0x1C <= c as int <= 0x1F || c as int == 0x85)
  }

  /** `String.prototype.trim` in JavaScript. */
  function JsTrim(s: string): string {
    Trim(s, c => CommonSpace(c) || c as int == 0xFEFF)
  }

  lemma {:induction false} TrimStartShape(s: string, isSpace: char -> bool)
    ensures var r := TrimStart(s, isSpace); r != "" ==> !isSpace(r[0])
  {
    if s != "" && isSpace(s[0]) {
      TrimStartShape(s[1..], isSpace);
    }
  }

  lemma {:induction false} TrimEndShape(s: string, isSpace: char -> bool)
    ensures var r := TrimEnd(s, isSpace); r <= s && (r != "" ==> !isSpace(r[|r| - 1]))
  {
    if s != "" && isSpace(s[|s| - 1]) {
      TrimEndShape(s[..|s| - 1], isSpace);
    }
  }

  lemma TrimIdempotent(s: string, isSpace: char -> bool)
    ensures Trim(Trim(s, isSpace), isSpace) == Trim(s, isSpace)
  {
    TrimStartShape(s, isSpace);
    TrimEndShape(TrimStart(s, isSpace), isSpace);
    var r := Trim(s, isSpace);
    assert r != "" ==> r[0] == TrimStart(s, isSpace)[0];
    assert TrimStart(r, isSpace) == r;
    assert TrimEnd(r, isSpace) == r;
  }

  lemma StripIdempotent(s: string)
    ensures Strip(Strip(s)) == Strip(s)
  {
    var isSpace := c => CommonSpace(c) || 0x1C <= c as int <= 0x1F || c as int == 0x85;
    TrimIdempotent(s, isSpace);
    assert Strip(s) == Trim(s, isSpace);
    assert Strip(Strip(s)) == Trim(Trim(s, isSpace), isSpace);
  }

  /** Text that begins and ends with a visible ASCII character has nothing to strip. */
  lemma StripKeeps(s: string)
    requires s != "" && '!' <= s[0] <= '~' && '!' <= s[|s| - 1] <= '~'
    ensures Strip(s) == s
  {
    var isSpace := c => CommonSpace(c) || 0x1C <= c as int <= 0x1F || c as int == 0x85;
    assert !isSpace(s[0]) && !isSpace(s[|s| - 1]);
    assert Trim(s, isSpace) == s;
    assert Strip(s) == Trim(s, isSpace);
  }

  lemma JsTrimKeeps(s: string)
    requires s != "" && '!' <= s[0] <= '~' && '!' <= s[|s| - 1] <= '~'
    ensures JsTrim(s) == s
  {
    var isSpace := c => CommonSpace(c) || c as int == 0xFEFF;
    assert !isSpace(s[0]) && !isSpace(s[|s| - 1]);
    assert Trim(s, isSpace) == s;
    assert JsTrim(s) == Trim(s, isSpace);
  }

  const BLANKS := {
    0x09, 0x0A, 0x0B, 0x0C, 0x0D, 0x20, 0xA0, 0x1680, 0x2000, 0x2001, 0x2002, 0x2003, 0x2004, 0x2005, 0x2006,
    0x2007, 0x2008, 0x2009, 0x200A, 0x2028, 0x2029, 0x202F, 0x205F, 0x3000
  }

  /** `s` is `r` between blanks, and `r` neither begins nor ends with one. */
  ghost predicate Surrounds(s: string, r: string, blanks: set<int>) {
    exists i: nat :: LiesAt(s, r, i, blanks)
  }

  ghost predicate LiesAt(s: string, r: string, i: nat, blanks: set<int>) {
    && i + |r| <= |s| && s[i..i + |r|] == r
    && (forall k :: 0 <= k < i || i + |r| <= k < |s| ==> s[k] as int in blanks)
    && (r != "" ==> r[0] as int !in blanks && r[|r| - 1] as int !in blanks)
  }

  lemma {:induction false} TrimStartExactly(s: string, isSpace: char -> bool)
    ensures var r := TrimStart(s, isSpace);
            && |r| <= |s| && s[|s| - |r|..] == r
            && forall k :: 0 <= k < |s| - |r| ==> isSpace(s[k])
  {
    if s != "" && isSpace(s[0]) {
      TrimStartExactly(s[1..], isSpace);
      var r := TrimStart(s, isSpace);
      forall k | 0 <= k < |s| - |r|
        ensures isSpace(s[k])
      {
        assert k > 0 ==> s[k] == s[1..][k - 1];
      }
    }
  }

  lemma {:induction false} TrimEndExactly(s: string, isSpace: char -> bool)
    ensures var r := TrimEnd(s, isSpace);
            r <= s && forall k :: |r| <= k < |s| ==> isSpace(s[k])
  {
    if s != "" && isSpace(s[|s| - 1]) {
      TrimEndExactly(s[..|s| - 1], isSpace);
    }
  }

  lemma TrimLies(s: string, isSpace: char -> bool, blanks: set<int>)
    requires forall c :: isSpace(c) <==> c as int in blanks
    ensures Surrounds(s, Trim(s, isSpace), blanks)
  {
    var t, r := TrimStart(s, isSpace), Trim(s, isSpace);
    TrimStartExactly(s, isSpace);
    TrimStartShape(s, isSpace);
    TrimEndExactly(t, isSpace);
    TrimEndShape(t, isSpace);
    var i := |s| - |t|;
    forall k | 0 <= k < i || i + |r| <= k < |s|
      ensures s[k] as int in blanks
    {
      assert k >= i ==> s[k] == t[k - i];
    }
    assert LiesAt(s, r, i, blanks);
  }

  lemma OneSurrounded(s: string, q: string, r: string, blanks: set<int>)
    requires Surrounds(s, q, blanks) && Surrounds(s, r, blanks)
    ensures q == r
  {
    var i: nat :| LiesAt(s, q, i, blanks);
    var j: nat :| LiesAt(s, r, j, blanks);
    assert q != "" ==> s[i] == q[0] && s[i + |q| - 1] == q[|q| - 1];
    assert r != "" ==> s[j] == r[0] && s[j + |r| - 1] == r[|r| - 1];
  }

  /** What `strip` leaves: `BLANKS`, the four separators from 0x1C on and 0x85 go. */
  lemma StripExactly(s: string, r: string)
    ensures Strip(s) == r <==> Surrounds(s, r, BLANKS + {0x1C, 0x1D, 0x1E, 0x1F, 0x85})
  {
    hide Trim, Surrounds;
    var isSpace := c => CommonSpace(c) || 0x1C <= c as int <= 0x1F || c as int == 0x85;
    var blanks := BLANKS + {0x1C, 0x1D, 0x1E, 0x1F, 0x85};
    assert Strip(s) == Trim(s, isSpace);
    TrimLies(s, isSpace, blanks);
    if Surrounds(s, r, blanks) {
      OneSurrounded(s, Strip(s), r, blanks);
    }
  }

  /** What `trim` leaves: `BLANKS` and 0xFEFF go. */
  lemma JsTrimExactly(s: string, r: string)
    ensures JsTrim(s) == r <==> Surrounds(s, r, BLANKS + {0xFEFF})
  {
    hide Trim, Surrounds;
    var isSpace := c => CommonSpace(c) || c as int == 0xFEFF;
    var blanks := BLANKS + {0xFEFF};
    assert JsTrim(s) == Trim(s, isSpace);
    TrimLies(s, isSpace, blanks);
    if Surrounds(s, r, blanks) {
      OneSurrounded(s, JsTrim(s), r, blanks);
    }
  }

  /** `s.indexOf(c)`, with the length of `s` for an absent character. */
  function IndexOf(s: string, c: char): (i: nat)
    ensures i <= |s|
    ensures forall k :: 0 <= k < i ==> s[k] != c
    ensures i < |s| ==> s[i] == c
  {
    if s == "" || s[0] == c then 0 else 1 + IndexOf(s[1..], c)
  }

  lemma {:induction false} IndexOfUnique(s: string, c: char, i: nat)
    requires i <= |s| && (forall k :: 0 <= k < i ==> s[k] != c) && (i < |s| ==> s[i] == c)
    ensures IndexOf(s, c) == i
  {
    if i > 0 {
      IndexOfUnique(s[1..], c, i - 1);
    }
  }
}
