/** forms/lowercasealpha.c: the lower-cased characters, digits and code pages under models that
    depend on everything decoded before. */
module LowerCaseAlpha {
  import opened Seqs
  import opened Charset
  import opened Stats
  import opened RangeModel
  import opened RangeScript
  import opened RangeCoder

  const FIRST_PAGE := 1

  // What the coder carries from one character to the next.
  datatype PageState = PageState(page: int, first: bool)

  const START := PageState(FIRST_PAGE, true)

  // Characters that stripNonAlpha keeps and stripCase has lowered.
  predicate Codable(c: Char) {
    Index(c) >= 0 && !IsUpper(c)
  }

  predicate AllCodable(s: seq<Char>) {
    forall i :: 0 <= i < |s| ==> Codable(s[i])
  }

  predicate IsUnicode(c: Char) {
    c > 0x7f
  }

  predicate ValidPage(p: PageState) {
    0 <= p.page < 512
  }

  function NextPage(p: PageState, c: Char): (r: PageState)
    ensures ValidPage(p) ==> ValidPage(r)
  {
    if IsUnicode(c) then PageState(c / 0x80, false) else p
  }

  function CharStep(h: Stats, before: seq<Char>, c: Char): Step
    requires Codable(c)
  {
    Step(Table(h.vector(before), CHARCOUNT), Index(c))
  }

  // A character of a code page, coded where a page has just been chosen.
  function LowStep(h: Stats, c: Char): Step {
    PageTableIsShortTable(h.page(c / 0x80));
    Step(Table(h.page(c / 0x80), PAGE_SYMBOLS), c % 0x80)
  }

  // What follows the symbol of a character: the digit, or the character within its code page,
  // preceded by the page when that is new.
  function DetailScript(h: Stats, p: PageState, c: Char): (r: seq<Step>) {
    if IsDigit(c) then [Step(Uniform(10), c - DIGIT0)]
    else if !IsUnicode(c) then []
    else if p.first then [Step(Uniform(511), c / 0x80 - 1)] + [LowStep(h, c)]
    else if c / 0x80 != p.page then
      [Step(Table(h.page(p.page), PAGE_AND_SWITCHES), 128 + c / 0x80)] + [LowStep(h, c)]
    else [Step(Table(h.page(p.page), PAGE_AND_SWITCHES), c % 0x80)]
  }

  // The script of the characters of `s` from `o` on.
  function LCScript(h: Stats, s: seq<Char>, o: nat, p: PageState): (r: seq<Step>)
    requires o <= |s| && AllCodable(s)
    decreases |s| - o
  {
    if o == |s| then [] else
      [CharStep(h, s[..o], s[o])] +
      (DetailScript(h, p, s[o]) + LCScript(h, s, o + 1, NextPage(p, s[o])))
  }

  lemma Unfold(h: Stats, s: seq<Char>, o: nat, p: PageState, rest: seq<Step>)
    requires o < |s| && AllCodable(s)
    ensures LCScript(h, s, o, p) + rest ==
            [CharStep(h, s[..o], s[o])] +
            (DetailScript(h, p, s[o]) + (LCScript(h, s, o + 1, NextPage(p, s[o])) + rest))
  {
  }

  // The last character of `s` that has a code page, if there is one.
  predicate LastUnicode(s: seq<Char>, k: nat) {
    k < |s| && IsUnicode(s[k]) && forall j :: k < j < |s| ==> !IsUnicode(s[j])
  }

  // The code page in force after `s`.
  function PageAfter(s: seq<Char>, o: nat, p: PageState): (r: PageState)
    requires o <= |s|
    decreases |s| - o
  {
    if o == |s| then p else PageAfter(s, o + 1, NextPage(p, s[o]))
  }

  lemma {:induction false} PageAfterLast(s: seq<Char>, c: Char, o: nat, p: PageState)
    requires o <= |s|
    ensures PageAfter(s + [c], o, p) == NextPage(PageAfter(s, o, p), c)
    decreases |s| - o
  {
    hide NextPage;
    if o < |s| {
      PageAfterLast(s, c, o + 1, NextPage(p, s[o]));
    } else {
      assert PageAfter(s + [c], o + 1, NextPage(p, c)) == NextPage(p, c);
    }
  }

  // It is the page of the last character that has one, and none is in force before the first of these.
  lemma {:induction false} PageMeans(s: seq<Char>)
    ensures PageAfter(s, 0, START).first <==> forall k: nat :: !LastUnicode(s, k)
    ensures forall k: nat :: LastUnicode(s, k) ==> PageAfter(s, 0, START).page == s[k] / 0x80
    decreases |s|
  {
    if s != [] {
      var before, c := s[..|s| - 1], s[|s| - 1];
      assert s == before + [c];
      PageMeans(before);
      PageAfterLast(before, c, 0, START);
      if IsUnicode(c) {
        assert LastUnicode(s, |s| - 1);
      } else {
        assert forall k: nat :: LastUnicode(s, k) == LastUnicode(before, k);
      }
    }
  }

  lemma {:induction false} LCScriptLast(h: Stats, s: seq<Char>, c: Char, o: nat, p: PageState)
    requires o <= |s| && AllCodable(s) && Codable(c)
    ensures LCScript(h, s + [c], o, p) ==
            LCScript(h, s, o, p) + [CharStep(h, s, c)] + DetailScript(h, PageAfter(s, o, p), c)
    decreases |s| - o
  {
    hide DetailScript, CharStep;
    var n := s + [c];
    if o < |s| {
      assert n[..o] == s[..o];
      LCScriptLast(h, s, c, o + 1, NextPage(p, s[o]));
    } else {
      assert n[..o] == s;
      assert LCScript(h, n, o + 1, NextPage(p, c)) == [];
    }
  }

  // What follows the symbol of c after the message `s`; k is the index of the last character of `s` that
  // has a code page, if there is one.
  function DetailAfter(h: Stats, c: Char, s: seq<Char>, k: int): (r: seq<Step>)
    requires k == -1 || (0 <= k && LastUnicode(s, k))
  {
    PageTableIsShortTable(h.page(c / 0x80));
    var low := Step(Table(h.page(c / 0x80), PAGE_SYMBOLS), c % 0x80);
    if IsDigit(c) then [Step(Uniform(10), c - DIGIT0)]
    else if !IsUnicode(c) then []
    else if k == -1 then [Step(Uniform(511), c / 0x80 - 1), low]
    else if c / 0x80 == s[k] / 0x80 then [Step(Table(h.page(s[k] / 0x80), PAGE_AND_SWITCHES), c % 0x80)]
    else [Step(Table(h.page(s[k] / 0x80), PAGE_AND_SWITCHES), 128 + c / 0x80), low]
  }

  // One more character adds its symbol under the table for everything before it, and what its symbol
  // leaves open: the digit, or the character of the code page, after the page where that is another one
  // than that of the last character that had any.
  lemma NextCharacter(h: Stats, s: seq<Char>, c: Char, k: int)
    requires AllCodable(s) && Codable(c)
    requires if k == -1 then forall j: nat :: !LastUnicode(s, j) else 0 <= k && LastUnicode(s, k)
    ensures LCScript(h, s + [c], 0, START) ==
            LCScript(h, s, 0, START) + [Step(Table(h.vector(s), CHARCOUNT), Index(c))] + DetailAfter(h, c, s, k)
  {
    hide LCScript;
    LCScriptLast(h, s, c, 0, START);
    PageMeans(s);
  }

  method EncodeLCAlphaSpace(c: RangeCoder, s: seq<Char>, h: Stats, ghost final: State, ghost rest: seq<Step>)
    requires AllCodable(s)
    requires c.Writes(final, LCScript(h, s, 0, START) + rest)
    modifies c`low, c`high, c`underflow, c`bitsUsed, c.bitStream
    ensures c.Writes(final, rest)
  {
    hide DetailScript;
    hide RangeCoder.Writes;
    var lastCodePage, firstUnicode := FIRST_PAGE, true;
    var o := 0;
    while o < |s|
      invariant 0 <= o <= |s| && 0 <= lastCodePage < 512
      invariant c.Writes(final, LCScript(h, s, o, PageState(lastCodePage, firstUnicode)) + rest)
    {
      ghost var p := PageState(lastCodePage, firstUnicode);
      ghost var after := LCScript(h, s, o + 1, NextPage(p, s[o])) + rest;
      Unfold(h, s, o, p, rest);
      var v := h.vector(s[..o]);
      var symbol := CharIdx(s[o]);
      c.SendSymbol(v, CHARCOUNT, symbol, final, DetailScript(h, p, s[o]) + after);
      lastCodePage, firstUnicode := EncodeDetail(c, s[o], h, lastCodePage, firstUnicode, final, after);
      o := o + 1;
    }
    assert [] + rest == rest;
  }

  method EncodeDetail(c: RangeCoder, ch: Char, h: Stats, page: int, first: bool, ghost final: State,
      ghost rest: seq<Step>)
    returns (page': int, first': bool)
    requires 0 <= page < 512 && Codable(ch)
    requires c.Writes(final, DetailScript(h, PageState(page, first), ch) + rest)
    modifies c`low, c`high, c`underflow, c`bitsUsed, c.bitStream
    ensures c.Writes(final, rest)
    ensures PageState(page', first') == NextPage(PageState(page, first), ch)
  {
    hide RangeCoder.Writes;
    page', first' := page, first;
    if DIGIT0 <= ch <= DIGIT9 {
      c.SendUniform(10, ch - DIGIT0, final, rest);
    } else if ch == UNICODE || ch > 0x7f {
      var switchedPage := false;
      if first {
        ConcatAssociative([Step(Uniform(511), ch / 0x80 - 1)], [LowStep(h, ch)], rest);
        c.SendUniform(511, ch / 0x80 - 1, final, [LowStep(h, ch)] + rest);
        switchedPage := true;
        first' := false;
        page' := ch / 0x80;
      } else if ch / 0x80 != page {
        ConcatAssociative([Step(Table(h.page(page), PAGE_AND_SWITCHES), 128 + ch / 0x80)], [LowStep(h, ch)], rest);
        c.SendSymbol(h.page(page), PAGE_AND_SWITCHES, 128 + ch / 0x80, final, [LowStep(h, ch)] + rest);
        switchedPage := true;
        page' := ch / 0x80;
      }
      PageTableIsShortTable(h.page(page'));
      c.SendSymbol(h.page(page'), if switchedPage then PAGE_SYMBOLS else PAGE_AND_SWITCHES, ch % 0x80, final, rest);
    } else {
      assert [] + rest == rest;
    }
  }

  method DecodeDetail(c: RangeCoder, symbol: Char, h: Stats, page: int, first: bool, ghost sent: Char,
      ghost rest: seq<Step>)
    returns (ch: Char, page': int, first': bool)
    requires 0 <= page < 512 && Codable(sent) && symbol == CHARS[Index(sent)]
    requires c.Follows(DetailScript(h, PageState(page, first), sent) + rest)
    modifies c`low, c`high, c`value, c`underflow, c`bitsUsed, c`decoding
    ensures c.Follows(rest)
    ensures ch == sent && PageState(page', first') == NextPage(PageState(page, first), sent)
  {
    hide RangeCoder.Follows;
    hide Index;
    page', first' := page, first;
    if DIGIT0 <= symbol <= DIGIT9 {
      var digit := c.ReceiveUniform(10, sent - DIGIT0, rest);
      ch := DIGIT0 + digit;
    } else if symbol == UNICODE || symbol > 0x7f {
      PageTableIsShortTable(h.page(sent / 0x80));
      var low;
      if first {
        first' := false;
        ConcatAssociative([Step(Uniform(511), sent / 0x80 - 1)], [LowStep(h, sent)], rest);
        var chosen := c.ReceiveUniform(511, sent / 0x80 - 1, [LowStep(h, sent)] + rest);
        page' := chosen + 1;
        low := c.ReceiveSymbol(h.page(page'), PAGE_SYMBOLS, sent % 0x80, rest);
      } else {
        ghost var switches := sent / 0x80 != page;
        ghost var after := if switches then [LowStep(h, sent)] + rest else rest;
        ConcatAssociative([Step(Table(h.page(page), PAGE_AND_SWITCHES), 128 + sent / 0x80)], [LowStep(h, sent)], rest);
        low := c.ReceiveSymbol(h.page(page), PAGE_AND_SWITCHES,
                               if switches then 128 + sent / 0x80 else sent % 0x80, after);
        if low > 127 {
          page' := low - 128;
          low := c.ReceiveSymbol(h.page(page'), PAGE_SYMBOLS, sent % 0x80, rest);
        }
      }
      ch := page' * 0x80 + low;
    } else {
      assert [] + rest == rest;
      ch := symbol;
    }
  }

  method DecodeLCAlphaSpace(c: RangeCoder, s: array<Char>, length: nat, h: Stats, ghost sent: seq<Char>,
      ghost rest: seq<Step>)
    requires AllCodable(sent) && |sent| == length <= s.Length && s as object != c.bitStream
    requires c.Follows(LCScript(h, sent, 0, START) + rest)
    modifies c`low, c`high, c`value, c`underflow, c`bitsUsed, c`decoding, s
    ensures c.Follows(rest) && s[..length] == sent
  {
    hide DetailScript;
    hide RangeCoder.Follows;
    hide Index;
    var lastCodePage, firstUnicode := FIRST_PAGE, true;
    var o := 0;
    while o < length
      invariant 0 <= o <= length && 0 <= lastCodePage < 512 && s[..o] == sent[..o]
      invariant c.Follows(LCScript(h, sent, o, PageState(lastCodePage, firstUnicode)) + rest)
    {
      ghost var p := PageState(lastCodePage, firstUnicode);
      ghost var after := LCScript(h, sent, o + 1, NextPage(p, sent[o])) + rest;
      Unfold(h, sent, o, p, rest);
      s[o] := 0;
      var v := h.vector(s[..o]);
      var symbol := c.ReceiveSymbol(v, CHARCOUNT, Index(sent[o]), DetailScript(h, p, sent[o]) + after);
      s[o] := CHARS[symbol];
      var ch;
      ch, lastCodePage, firstUnicode := DecodeDetail(c, s[o], h, lastCodePage, firstUnicode, sent[o], after);
      s[o] := ch;
      o := o + 1;
    }
    assert [] + rest == rest;
    assert s[..length] == sent[..length] == sent;
  }
}
