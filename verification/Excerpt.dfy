/** The stored excerpt of a message: whitespace flattened, trimmed, capped. */
module Excerpt {
  import opened Wrappers
  import Text

  const MAX_EXCERPT := 400
  const ELLIPSIS := "\U{2026}"

  predicate IsSpace(c: char) {
    Text.CommonSpace(c) || c as int == 0xFEFF
  }

  /** `replace(/\s+/g, " ")` */
  function Collapse(s: string, inRun: bool): string {
    if s == "" then ""
    else if IsSpace(s[0]) then (if inRun then "" else " ") + Collapse(s[1..], true)
    else [s[0]] + Collapse(s[1..], false)
  }

  function ExcerptOf(text: Option<string>): Option<string> {
    if text.None? then None
    else
      var flat := Text.JsTrim(Collapse(text.value, false));
      if flat == "" then None
      else if |flat| > MAX_EXCERPT then Some(flat[..MAX_EXCERPT] + ELLIPSIS)
      else Some(flat)
  }

  /** Every space is a single blank. */
  predicate Flat(s: string) {
    && (forall i :: 0 <= i < |s| && IsSpace(s[i]) ==> s[i] == ' ')
    && (forall i :: 0 < i < |s| ==> s[i - 1] != ' ' || s[i] != ' ')
  }

  lemma {:induction false} CollapseFlat(s: string, inRun: bool)
    ensures var r := Collapse(s, inRun); Flat(r) && (inRun && r != "" ==> r[0] != ' ')
  {
    if s != "" {
      CollapseFlat(s[1..], IsSpace(s[0]));
    }
  }

  lemma {:induction false} FlatStays(s: string, inRun: bool)
    requires Flat(s) && (inRun && s != "" ==> s[0] != ' ')
    ensures Collapse(s, inRun) == s
  {
    if s != "" {
      var rest := s[1..];
      assert rest != "" ==> rest[0] == s[1] && s[1 - 1] == s[0];
      FlatStays(rest, IsSpace(s[0]));
      assert s == [s[0]] + rest;
    }
  }

  lemma {:induction false} SuffixTrim(s: string, isSpace: char -> bool)
    ensures exists k :: 0 <= k <= |s| && Text.TrimStart(s, isSpace) == s[k..]
  {
    if s != "" && isSpace(s[0]) {
      SuffixTrim(s[1..], isSpace);
      var k :| 0 <= k <= |s[1..]| && Text.TrimStart(s[1..], isSpace) == s[1..][k..];
      assert s[1..][k..] == s[k + 1..];
    } else {
      assert s == s[0..];
    }
  }

  lemma FlatPart(s: string, from: nat, to: nat)
    requires Flat(s) && from <= to <= |s|
    ensures Flat(s[from..to])
  {
    var part := s[from..to];
    assert forall i :: 0 <= i < |part| ==> part[i] == s[from + i];
    forall i | 0 < i < |part|
      ensures part[i - 1] != ' ' || part[i] != ' '
    {
      var j := from + i;
      assert s[j - 1] != ' ' || s[j] != ' ';
    }
  }

  lemma PrefixOfSuffix(s: string, k: nat, r: string)
    requires k <= |s| && r <= s[k..]
    ensures k + |r| <= |s| && r == s[k..k + |r|]
  {
  }

  /** What trimming leaves of a flat text is flat, and trimmed. */
  lemma TrimKeepsFlat(s: string)
    requires Flat(s)
    ensures var r := Text.JsTrim(s); Flat(r) && (r != "" ==> !IsSpace(r[0]) && !IsSpace(r[|r| - 1]))
  {
    hide Flat, Text.TrimStart, Text.TrimEnd;
    var isSpace := c => Text.CommonSpace(c) || c as int == 0xFEFF;
    var mid := Text.TrimStart(s, isSpace);
    SuffixTrim(s, isSpace);
    var k :| 0 <= k <= |s| && mid == s[k..];
    Text.TrimStartShape(s, isSpace);
    Text.TrimEndShape(mid, isSpace);
    var r := Text.TrimEnd(mid, isSpace);
    assert Text.JsTrim(s) == r;
    PrefixOfSuffix(s, k, r);
    FlatPart(s, k, k + |r|);
  }

  lemma TrimmedStays(s: string)
    requires s != "" && !IsSpace(s[0]) && !IsSpace(s[|s| - 1])
    ensures Text.JsTrim(s) == s
  {
    var isSpace := c => Text.CommonSpace(c) || c as int == 0xFEFF;
    assert Text.Trim(s, isSpace) == s;
    assert Text.JsTrim(s) == Text.Trim(s, isSpace);
  }

  /** Excerpting an excerpt changes nothing, although a cut text is one character over the cap. */
  lemma ExcerptIdempotent(text: Option<string>)
    ensures ExcerptOf(ExcerptOf(text)) == ExcerptOf(text)
  {
    var once := ExcerptOf(text);
    if once.Some? {
      var flat := Text.JsTrim(Collapse(text.value, false));
      CollapseFlat(text.value, false);
      TrimKeepsFlat(Collapse(text.value, false));
      var e := once.value;
      assert forall i :: 0 <= i < |e| && i < MAX_EXCERPT ==> e[i] == flat[i];
      assert !IsSpace(ELLIPSIS[0]);
      FlatStays(e, false);
      TrimmedStays(e);
      assert |flat| > MAX_EXCERPT ==> e[..MAX_EXCERPT] == flat[..MAX_EXCERPT];
    }
  }

  // ---------------------------------------------------------------- what an excerpt keeps

  /** The runs of characters between blanks, in order. */
  function Words(s: string): (words: seq<string>)
    ensures s != "" && !IsSpace(s[0]) ==> words != []
  {
    if s == "" then []
    else
      var rest := Words(s[1..]);
      if IsSpace(s[0]) then rest
      else if |s| == 1 || IsSpace(s[1]) then [[s[0]]] + rest
      else [[s[0]] + rest[0]] + rest[1..]
  }

  lemma {:induction false} CollapseKeepsWords(s: string, inRun: bool)
    ensures Words(Collapse(s, inRun)) == Words(s)
    ensures s != "" && !IsSpace(s[0]) ==> Collapse(s, inRun) != "" && Collapse(s, inRun)[0] == s[0]
    ensures s != "" && IsSpace(s[0]) && !inRun ==> Collapse(s, inRun) != "" && Collapse(s, inRun)[0] == ' '
  {
    if s != "" {
      var blank := IsSpace(s[0]);
      CollapseKeepsWords(s[1..], blank);
      var r, rest := Collapse(s, inRun), Collapse(s[1..], blank);
      if blank && !inRun {
        assert r == " " + rest && r[1..] == rest;
      } else if blank {
        assert r == rest;
      } else {
        assert r == [s[0]] + rest && r[1..] == rest;
        SameFirstWord(s, r);
      }
    }
  }

  /** The same first character, and blanks or words alike behind it. */
  lemma SameFirstWord(s: string, r: string)
    requires s != "" && r != "" && s[0] == r[0] && !IsSpace(s[0])
    requires Words(s[1..]) == Words(r[1..])
    requires (|s| == 1 || IsSpace(s[1])) <==> (|r| == 1 || IsSpace(r[1]))
    ensures Words(r) == Words(s)
  {
    hide IsSpace;
  }

  lemma {:induction false} TrimStartKeepsWords(s: string, isSpace: char -> bool)
    requires forall c :: isSpace(c) <==> IsSpace(c)
    ensures Words(Text.TrimStart(s, isSpace)) == Words(s)
  {
    if s != "" && isSpace(s[0]) {
      TrimStartKeepsWords(s[1..], isSpace);
    }
  }

  lemma {:induction false} BlankEndKeepsWords(s: string)
    requires s != "" && IsSpace(s[|s| - 1])
    ensures Words(s[..|s| - 1]) == Words(s)
  {
    var front := s[..|s| - 1];
    if |s| > 1 {
      BlankEndKeepsWords(s[1..]);
      assert front[1..] == s[1..][..|s| - 2];
    }
  }

  lemma {:induction false} TrimEndKeepsWords(s: string, isSpace: char -> bool)
    requires forall c :: isSpace(c) <==> IsSpace(c)
    ensures Words(Text.TrimEnd(s, isSpace)) == Words(s)
  {
    if s != "" && isSpace(s[|s| - 1]) {
      BlankEndKeepsWords(s);
      TrimEndKeepsWords(s[..|s| - 1], isSpace);
    }
  }

  /** The words of `text` with single blanks between them, and none around them. */
  predicate Flattens(flat: string, text: string) {
    && Words(flat) == Words(text) && Flat(flat)
    && (flat != "" ==> !IsSpace(flat[0]) && !IsSpace(flat[|flat| - 1]))
  }

  lemma FlatText(text: string)
    ensures Flattens(Text.JsTrim(Collapse(text, false)), text)
  {
    hide Flat, Collapse, Words;
    var isSpace := c => Text.CommonSpace(c) || c as int == 0xFEFF;
    var all := Collapse(text, false);
    CollapseFlat(text, false);
    CollapseKeepsWords(text, false);
    TrimKeepsFlat(all);
    TrimStartKeepsWords(all, isSpace);
    TrimEndKeepsWords(Text.TrimStart(all, isSpace), isSpace);
    assert Text.JsTrim(all) == Text.TrimEnd(Text.TrimStart(all, isSpace), isSpace);
  }

  /** A text is flattened; of a long one the first 400 characters stay, and an ellipsis behind them. */
  lemma ExcerptKeepsWords(text: string) returns (flat: string)
    ensures Flattens(flat, text)
    ensures ExcerptOf(Some(text))
         == if flat == "" then None
            else if |flat| <= 400 then Some(flat)
            else Some(flat[..400] + "\U{2026}")
    ensures ExcerptOf(None) == None
  {
    hide Collapse, Words, Text.JsTrim;
    flat := Text.JsTrim(Collapse(text, false));
    FlatText(text);
  }
}
