/** forms/case.c: folding case away, the isolated-i rule, and coding the case of each letter under
    a model of the word it stands in. */
module CaseModel {
  import opened Seqs
  import opened Charset
  import opened Stats
  import opened RangeModel
  import opened RangeScript
  import opened RangeCoder

  // ---- Folding case -------------------------------------------------------------------------

  function Lowered(m: seq<Char>): (r: seq<Char>)
    ensures |r| == |m| && forall i :: 0 <= i < |m| ==> r[i] == ToLower(m[i])
  {
    if m == [] then [] else Lowered(m[..|m| - 1]) + [ToLower(m[|m| - 1])]
  }

  method StripCase(m: seq<Char>) returns (out: seq<Char>)
    ensures out == Lowered(m)
  {
    out := [];
    var i := 0;
    while i < |m|
      invariant 0 <= i <= |m| && |out| == i
      invariant forall k :: 0 <= k < i ==> out[k] == ToLower(m[k])
    {
      if m[i] < 0x80 {
        out := out + [ToLower(m[i])];
      } else {
        out := out + [m[i]];
      }
      i := i + 1;
    }
  }

  // ---- The isolated i -----------------------------------------------------------------------

  // A lone letter i inside the message, in either case.
  predicate IsolatedI(m: seq<Char>, i: nat) {
    0 < i < |m| - 1 && (m[i] == LOWER_I || m[i] == UPPER_I) && !IsAlpha(m[i - 1]) && !IsAlpha(m[i + 1])
  }

  function Flip(c: Char): Char {
    if c == LOWER_I then UPPER_I else LOWER_I
  }

  function Munged(m: seq<Char>): (r: seq<Char>)
    ensures |r| == |m|
    ensures forall i :: 0 <= i < |m| ==> r[i] == if IsolatedI(m, i) then Flip(m[i]) else m[i]
  {
    seq(|m|, i requires 0 <= i < |m| => if IsolatedI(m, i) then Flip(m[i]) else m[i])
  }

  lemma MungeIsInvolution(m: seq<Char>)
    ensures Munged(Munged(m)) == m
  {
  }

  lemma MungeKeepsLetters(m: seq<Char>)
    ensures Lowered(Munged(m)) == Lowered(m)
  {
  }

  method MungeCase(m: array<Char>, len: nat)
    requires len <= m.Length
    modifies m
    ensures m[..len] == Munged(old(m[..len])) && m[len..] == old(m[len..])
  {
    ghost var was := m[..len];
    var i := 1;
    while i < len - 1
      invariant 1 <= i && (i <= len - 1 || len <= 2)
      invariant forall k :: 0 <= k < len ==> m[k] == if k < i then Munged(was)[k] else was[k]
      invariant m[len..] == old(m[len..])
    {
      assert IsAlpha(m[i - 1]) == IsAlpha(was[i - 1]);
      if m[i] < 0x80 {
        if ToLower(m[i]) == LOWER_I && !IsAlpha(m[i - 1]) && !IsAlpha(m[i + 1]) {
          m[i] := if m[i] == LOWER_I then UPPER_I else LOWER_I;
        }
      }
      i := i + 1;
    }
  }

  // ---- The case of letters ------------------------------------------------------------------

  // What the model remembers: words begun, the place in the current word (-1 between words), the
  // initial case of the last two words and the case of the last letter (true for upper).
  datatype CaseState = CaseState(wordNumber: int, wordPosn: int, initial: bool, initial2: bool, last: bool)

  const START_CASE := CaseState(0, -1, false, false, false)

  const LAST_POSITION := 79

  // The state when a letter has been reached, before its case is known.
  function AtLetter(st: CaseState): CaseState {
    st.(wordNumber := if st.wordPosn < 0 then st.wordNumber + 1 else st.wordNumber,
        wordPosn := if st.wordPosn + 1 > LAST_POSITION then LAST_POSITION else st.wordPosn + 1)
  }

  function AfterLetter(st: CaseState, upper: bool): CaseState {
    if st.wordPosn == 0 then st.(initial2 := st.initial, initial := upper, last := upper)
    else st.(last := upper)
  }

  function NextCase(st: CaseState, c: Char): CaseState {
    if !InWord(c) then st.(wordPosn := -1, last := false)
    else if IsAlpha(c) then AfterLetter(AtLetter(st), IsUpper(c))
    else st
  }

  // The last position not after `pos` that has a share.
  function SharePosition(h: Stats, last: bool, pos: nat): (r: nat)
    ensures r <= pos && h.casePosn2(last, r) > 0
    ensures forall k :: r < k <= pos ==> h.casePosn2(last, k) == 0
  {
    if h.casePosn2(last, pos) == 0 && pos > 0 then SharePosition(h, last, pos - 1) else pos
  }

  // The share of lower case for the letter at index i, reached in state st.
  function LowerShare(h: Stats, st: CaseState, i: nat): Share
    requires st.wordPosn >= 0
  {
    if st.wordPosn == 0 then
      if i == 0 then h.caseStartOfMessage
      else if st.wordNumber > 2 then h.caseStartOfWord3(st.initial2, st.initial)
      else if st.wordNumber > 1 then h.caseStartOfWord2(st.initial)
      else h.caseFirst
    else h.casePosn2(st.last, SharePosition(h, st.last, st.wordPosn))
  }

  function CaseStep(h: Stats, st: CaseState, i: nat, c: Char): Step
    requires st.wordPosn >= 0
  {
    Step(Table([LowerShare(h, st, i)], 2), if IsUpper(c) then 1 else 0)
  }

  predicate ValidCase(st: CaseState) {
    -1 <= st.wordPosn <= LAST_POSITION
  }

  function LetterScript(h: Stats, st: CaseState, i: nat, c: Char): seq<Step>
    requires ValidCase(st)
  {
    if InWord(c) && IsAlpha(c) then [CaseStep(h, AtLetter(st), i, c)] else []
  }

  function CaseScript(h: Stats, m: seq<Char>, i: nat, st: CaseState): (r: seq<Step>)
    requires i <= |m| && ValidCase(st)
    decreases |m| - i
  {
    if i == |m| then [] else LetterScript(h, st, i, m[i]) + CaseScript(h, m, i + 1, NextCase(st, m[i]))
  }

  // ---- What the state stands for ------------------------------------------------------------

  // The indices below n that meet p, in order.
  function Indices(n: nat, p: nat -> bool): (r: seq<nat>)
    ensures forall k: nat :: k in r <==> k < n && p(k)
    ensures forall a, b :: 0 <= a < b < |r| ==> r[a] < r[b]
  {
    if n == 0 then [] else
      var below := Indices(n - 1, p);
      assert forall a :: 0 <= a < |below| ==> below[a] in below;
      if p(n - 1) then below + [n - 1] else below
  }

  lemma {:induction false} IndicesSame(n: nat, p: nat -> bool, q: nat -> bool)
    requires forall k: nat :: k < n ==> p(k) == q(k)
    ensures Indices(n, p) == Indices(n, q)
  {
    if n > 0 {
      IndicesSame(n - 1, p, q);
    }
  }

  lemma {:induction false} NoIndices(n: nat, p: nat -> bool)
    requires forall k: nat :: k < n ==> !p(k)
    ensures Indices(n, p) == []
  {
    if n > 0 {
      NoIndices(n - 1, p);
    }
  }

  // A letter at index k, with nothing but characters of words from there up to index i.
  predicate LetterOfWord(m: seq<Char>, k: nat, i: nat) {
    k < i <= |m| && IsAlpha(m[k]) && forall j :: k <= j < i ==> InWord(m[j])
  }

  // A letter that no other letter of its word precedes.
  predicate StartsWord(m: seq<Char>, k: nat) {
    k < |m| && IsAlpha(m[k]) && forall j: nat :: j < k ==> !LetterOfWord(m, j, k)
  }

  // The letters of the word that reaches to the end of `m`.
  function OpenWord(m: seq<Char>): (r: seq<nat>)
    ensures forall k: nat :: k in r <==> LetterOfWord(m, k, |m|)
  {
    Indices(|m|, (k: nat) => LetterOfWord(m, k, |m|))
  }

  function WordStarts(m: seq<Char>): (r: seq<nat>)
    ensures forall k: nat :: k in r <==> StartsWord(m, k)
  {
    Indices(|m|, (k: nat) => StartsWord(m, k))
  }

  // The case of the letter whose index stands `back` places before the end of `at`.
  predicate UpperFromEnd(m: seq<Char>, at: seq<nat>, back: nat)
    requires forall k: nat :: k in at ==> k < |m|
  {
    back < |at| && at[|at| - 1 - back] in at && IsUpper(m[at[|at| - 1 - back]])
  }

  function AtMost(bound: int, x: int): int {
    if x < bound then x else bound
  }

  // What the model remembers of the message before a character.
  function Remembered(m: seq<Char>): CaseState {
    var starts, open := WordStarts(m), OpenWord(m);
    CaseState(|starts|, AtMost(LAST_POSITION, |open| - 1), UpperFromEnd(m, starts, 0), UpperFromEnd(m, starts, 1),
              UpperFromEnd(m, open, 0))
  }

  function CaseAfter(m: seq<Char>, i: nat, st: CaseState): CaseState
    requires i <= |m|
    decreases |m| - i
  {
    if i == |m| then st else CaseAfter(m, i + 1, NextCase(st, m[i]))
  }

  lemma {:induction false} CaseAfterLast(m: seq<Char>, c: Char, i: nat, st: CaseState)
    requires i <= |m|
    ensures CaseAfter(m + [c], i, st) == NextCase(CaseAfter(m, i, st), c)
    decreases |m| - i
  {
    hide NextCase;
    if i < |m| {
      CaseAfterLast(m, c, i + 1, NextCase(st, m[i]));
    } else {
      assert CaseAfter(m + [c], i + 1, NextCase(st, c)) == NextCase(st, c);
    }
  }

  // One more character in a word leaves the open word open, and one outside words closes it.
  lemma OpenSame(m: seq<Char>, c: Char)
    ensures forall k: nat, i: nat :: i <= |m| ==> LetterOfWord(m + [c], k, i) == LetterOfWord(m, k, i)
    ensures forall k: nat :: k < |m| ==> LetterOfWord(m + [c], k, |m| + 1) == (InWord(c) && LetterOfWord(m, k, |m|))
    ensures LetterOfWord(m + [c], |m|, |m| + 1) == IsAlpha(c)
  {
    var n := m + [c];
    forall k: nat, i: nat | i <= |m| ensures LetterOfWord(n, k, i) == LetterOfWord(m, k, i) {
      assert LetterOfWord(n, k, i) ==> forall j :: k <= j < i ==> n[j] == m[j];
    }
    forall k: nat | k < |m|
      ensures LetterOfWord(m + [c], k, |m| + 1) == (InWord(c) && LetterOfWord(m, k, |m|))
    {
      assert n[|m|] == c;
      if LetterOfWord(n, k, |m| + 1) {
        assert forall j :: k <= j < |m| ==> m[j] == n[j];
      }
    }
  }

  lemma IndicesNext(n: nat, p: nat -> bool, q: nat -> bool)
    requires forall k: nat :: k < n ==> p(k) == q(k)
    ensures Indices(n + 1, q) == if q(n) then Indices(n, p) + [n] else Indices(n, p)
  {
    IndicesSame(n, p, q);
  }

  lemma NoneOpen(m: seq<Char>, i: nat)
    requires 0 < i <= |m| && !InWord(m[i - 1])
    ensures forall k: nat :: !LetterOfWord(m, k, i)
  {
  }

  lemma OpenWordGrows(m: seq<Char>, c: Char)
    ensures OpenWord(m + [c]) ==
      if !InWord(c) then [] else if IsAlpha(c) then OpenWord(m) + [|m|] else OpenWord(m)
  {
    hide LetterOfWord;
    var n := m + [c];
    var q := (k: nat) => LetterOfWord(n, k, |m| + 1);
    OpenSame(m, c);
    assert OpenWord(n) == Indices(|m| + 1, q);
    if InWord(c) {
      IndicesNext(|m|, (k: nat) => LetterOfWord(m, k, |m|), q);
    } else {
      NoneOpen(n, |m| + 1);
      NoIndices(|m| + 1, q);
    }
  }

  lemma StartsSame(m: seq<Char>, c: Char)
    ensures forall k: nat :: k < |m| ==> StartsWord(m + [c], k) == StartsWord(m, k)
    ensures StartsWord(m + [c], |m|) <==> IsAlpha(c) && OpenWord(m) == []
  {
    hide LetterOfWord;
    OpenSame(m, c);
    forall k: nat | k < |m|
      ensures StartsWord(m + [c], k) == StartsWord(m, k)
    {
      assert (m + [c])[k] == m[k];
    }
    if OpenWord(m) != [] {
      assert OpenWord(m)[0] in OpenWord(m);
      LetterInside(m, OpenWord(m)[0]);
    }
  }

  lemma LetterInside(m: seq<Char>, k: nat)
    requires LetterOfWord(m, k, |m|)
    ensures k < |m|
  {
  }

  lemma WordStartsGrow(m: seq<Char>, c: Char)
    ensures WordStarts(m + [c]) == if IsAlpha(c) && OpenWord(m) == [] then WordStarts(m) + [|m|] else WordStarts(m)
  {
    hide StartsWord, OpenWord;
    var n := m + [c];
    var q := (k: nat) => StartsWord(n, k);
    StartsSame(m, c);
    assert WordStarts(n) == Indices(|m| + 1, q);
    IndicesNext(|m|, (k: nat) => StartsWord(m, k), q);
  }

  // Looking back from the end is the same after one more character, and one more index moves it on by one.
  lemma UpperMore(m: seq<Char>, c: Char, at: seq<nat>, back: nat)
    requires forall k: nat :: k in at ==> k < |m|
    ensures UpperFromEnd(m + [c], at, back) == UpperFromEnd(m, at, back)
    ensures UpperFromEnd(m + [c], at + [|m|], 0) == IsUpper(c)
    ensures UpperFromEnd(m + [c], at + [|m|], back + 1) == UpperFromEnd(m, at, back)
  {
    if back < |at| {
      var k := at[|at| - 1 - back];
      assert k in at && (m + [c])[k] == m[k];
    }
  }

  lemma RememberedNext(m: seq<Char>, c: Char)
    ensures Remembered(m + [c]) == NextCase(Remembered(m), c)
  {
    hide OpenWord, WordStarts, UpperFromEnd;
    UpperMore(m, c, WordStarts(m), 0);
    UpperMore(m, c, WordStarts(m), 1);
    UpperMore(m, c, OpenWord(m), 0);
    NoneUpper(m + [c]);
    OpenWordGrows(m, c);
    WordStartsGrow(m, c);
  }

  lemma NoneUpper(m: seq<Char>)
    ensures !UpperFromEnd(m, [], 0)
  {
  }

  lemma RememberedNothing()
    ensures Remembered([]) == START_CASE
  {
  }

  // After any message the state is what the message says: the number of words begun, the place in the
  // open word, the cases of the first letters of the last two words, the case of the open word's last letter.
  lemma {:induction false} StateMeans(m: seq<Char>)
    ensures CaseAfter(m, 0, START_CASE) == Remembered(m)
    decreases |m|
  {
    hide Remembered, NextCase;
    if m == [] {
      RememberedNothing();
    } else {
      var before, c := m[..|m| - 1], m[|m| - 1];
      assert m == before + [c];
      StateMeans(before);
      CaseAfterLast(before, c, 0, START_CASE);
      RememberedNext(before, c);
    }
  }

  // The share of lower case for a letter that follows the message `m`: the first letter of a word goes by
  // the cases of up to two earlier words, a later one by the letter before it and its place in the word.
  function ShareAfter(h: Stats, m: seq<Char>): Share {
    var starts, open := WordStarts(m), OpenWord(m);
    if open != [] then
      h.casePosn2(UpperFromEnd(m, open, 0),
                  SharePosition(h, UpperFromEnd(m, open, 0), AtMost(LAST_POSITION, |open|)))
    else if m == [] then h.caseStartOfMessage
    else if |starts| == 0 then h.caseFirst
    else if |starts| == 1 then h.caseStartOfWord2(UpperFromEnd(m, starts, 0))
    else h.caseStartOfWord3(UpperFromEnd(m, starts, 1), UpperFromEnd(m, starts, 0))
  }

  lemma {:induction false} CaseScriptLast(h: Stats, m: seq<Char>, c: Char, i: nat, st: CaseState)
    requires i <= |m| && ValidCase(st)
    ensures ValidCase(CaseAfter(m, i, st))
    ensures CaseScript(h, m + [c], i, st) ==
            CaseScript(h, m, i, st) + LetterScript(h, CaseAfter(m, i, st), |m|, c)
    decreases |m| - i
  {
    hide LetterScript;
    if i < |m| {
      CaseScriptLast(h, m, c, i + 1, NextCase(st, m[i]));
    } else {
      assert CaseScript(h, m + [c], i + 1, NextCase(st, c)) == [];
    }
  }

  lemma LetterAfter(h: Stats, m: seq<Char>, c: Char)
    ensures LetterScript(h, Remembered(m), |m|, c) ==
      if IsAlpha(c) then [Step(Table([ShareAfter(h, m)], 2), if IsUpper(c) then 1 else 0)] else []
  {
    hide WordStarts, OpenWord;
  }

  // One more character adds the case of that character if it is a letter, and nothing otherwise; its share
  // is decided by the message before it.
  lemma CaseOfNextLetter(h: Stats, m: seq<Char>, c: Char)
    ensures CaseScript(h, m + [c], 0, START_CASE) == CaseScript(h, m, 0, START_CASE) +
      if IsAlpha(c) then [Step(Table([ShareAfter(h, m)], 2), if IsUpper(c) then 1 else 0)] else []
  {
    hide CaseScript, LetterScript, Remembered, ShareAfter;
    CaseScriptLast(h, m, c, 0, START_CASE);
    StateMeans(m);
    LetterAfter(h, m, c);
  }

  // One letter: the model state moves on, and the share to code its case with is found.
  method ChooseShare(h: Stats, st: CaseState, i: nat) returns (at: CaseState, frequency: Share)
    requires ValidCase(st)
    ensures at == AtLetter(st) && frequency == LowerShare(h, at, i)
  {
    var wordNumber, wordPosn := st.wordNumber, st.wordPosn;
    if wordPosn < 0 {
      wordNumber := wordNumber + 1;
    }
    wordPosn := wordPosn + 1;
    if wordPosn == 0 {
      frequency := h.caseFirst;
      if i == 0 {
        frequency := h.caseStartOfMessage;
      } else if wordNumber > 1 {
        frequency := h.caseStartOfWord2(st.initial);
        if wordNumber > 2 {
          frequency := h.caseStartOfWord3(st.initial2, st.initial);
        }
      }
    } else {
      if wordPosn > LAST_POSITION {
        wordPosn := LAST_POSITION;
      }
      var pos := wordPosn;
      while h.casePosn2(st.last, pos) == 0 && pos > 0
        invariant 0 <= pos <= wordPosn
        invariant SharePosition(h, st.last, pos) == SharePosition(h, st.last, wordPosn)
      {
        pos := pos - 1;
      }
      frequency := h.casePosn2(st.last, pos);
    }
    at := st.(wordNumber := wordNumber, wordPosn := wordPosn);
  }

  method EncodeCaseModel1(c: RangeCoder, line: seq<Char>, h: Stats, ghost final: State, ghost rest: seq<Step>)
    requires c.Writes(final, CaseScript(h, line, 0, START_CASE) + rest)
    modifies c`low, c`high, c`underflow, c`bitsUsed, c.bitStream
    ensures c.Writes(final, rest)
  {
    hide RangeCoder.Writes;
    var st := START_CASE;
    var i := 0;
    while i < |line|
      invariant 0 <= i <= |line| && ValidCase(st)
      invariant c.Writes(final, CaseScript(h, line, i, st) + rest)
    {
      ghost var after := CaseScript(h, line, i + 1, NextCase(st, line[i]));
      ConcatAssociative(LetterScript(h, st, i, line[i]), after, rest);
      var wordChar := CharInWord(line[i]);
      if !wordChar {
        assert [] + (after + rest) == after + rest;
        st := st.(wordPosn := -1, last := false);
      } else if IsAlpha(line[i]) {
        var at, frequency := ChooseShare(h, st, i);
        var upper := IsUpper(line[i]);
        c.SendSymbol([frequency], 2, if upper then 1 else 0, final, after + rest);
        st := AfterLetter(at, upper);
      } else {
        assert [] + (after + rest) == after + rest;
      }
      i := i + 1;
    }
    assert [] + rest == rest;
  }

  // Restores the case of a lower-cased line in place.
  method DecodeCaseModel1(c: RangeCoder, line: array<Char>, len: nat, h: Stats, ghost sent: seq<Char>,
      ghost rest: seq<Step>)
    requires |sent| == len <= line.Length && line[..len] == Lowered(sent) && line as object != c.bitStream
    requires c.Follows(CaseScript(h, sent, 0, START_CASE) + rest)
    modifies c`low, c`high, c`value, c`underflow, c`bitsUsed, c`decoding, line
    ensures c.Follows(rest) && line[..len] == sent
  {
    hide LowerShare, Lowered, CaseScript;
    hide RangeCoder.Follows;
    LoweredAt(sent);
    var st := START_CASE;
    var i := 0;
    while i < len
      invariant 0 <= i <= len && ValidCase(st)
      invariant forall k :: 0 <= k < len ==> line[k] == if k < i then sent[k] else ToLower(sent[k])
      invariant c.Follows(CaseScript(h, sent, i, st) + rest)
    {
      CaseTurn(h, sent, i, st, rest);
      var lower := line[i];
      st, line[i] := DecodeCase(c, lower, i, h, st, sent[i], CaseScript(h, sent, i + 1, NextCase(st, sent[i])) + rest);
      i := i + 1;
    }
    CaseEnd(h, sent, st, rest);
  }

  lemma LoweredAt(m: seq<Char>)
    ensures |Lowered(m)| == |m| && forall k :: 0 <= k < |m| ==> Lowered(m)[k] == ToLower(m[k])
  {
  }

  lemma CaseTurn(h: Stats, m: seq<Char>, i: nat, st: CaseState, rest: seq<Step>)
    requires i < |m| && ValidCase(st)
    ensures CaseScript(h, m, i, st) + rest ==
            LetterScript(h, st, i, m[i]) + (CaseScript(h, m, i + 1, NextCase(st, m[i])) + rest)
  {
  }

  lemma CaseEnd(h: Stats, m: seq<Char>, st: CaseState, rest: seq<Step>)
    requires ValidCase(st)
    ensures CaseScript(h, m, |m|, st) + rest == rest
  {
  }

  // One character: its case is decoded if it is a letter in a word.
  method DecodeCase(c: RangeCoder, lower: Char, i: nat, h: Stats, before: CaseState, ghost sent: Char,
      ghost rest: seq<Step>)
    returns (st: CaseState, ch: Char)
    requires ValidCase(before) && lower == ToLower(sent)
    requires c.Follows(LetterScript(h, before, i, sent) + rest)
    modifies c`low, c`high, c`value, c`underflow, c`bitsUsed, c`decoding
    ensures c.Follows(rest) && ch == sent && st == NextCase(before, sent)
  {
    hide LowerShare, RangeCoder.Follows;
    st, ch := before, lower;
    CaseKeepsClass(sent);
    var wordChar := CharInWord(lower);
    if !wordChar {
      assert [] + rest == rest;
      st := st.(wordPosn := -1, last := false);
    } else if IsAlpha(lower) {
      var at, frequency := ChooseShare(h, st, i);
      var upper := c.ReceiveSymbol([frequency], 2, if IsUpper(sent) then 1 else 0, rest);
      if upper == 1 {
        ch := ToUpper(lower);
      }
      st := AfterLetter(at, IsUpper(ch));
    } else {
      assert [] + rest == rest;
    }
  }
}
