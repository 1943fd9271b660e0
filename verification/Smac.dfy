/** forms/smac.c: a text message through the model-1 path and back. */
module Smac {
  import opened Seqs
  import opened Charset
  import opened Stats
  import opened RangeModel
  import opened RangeConclude
  import opened RangeScript
  import opened RangeCoder
  import NonAlpha
  import LowerCaseAlpha
  import CaseModel

  const PROB_PACKED_ASCII := 838860   // 0.05 * 0xffffff, truncated

  // A message is split into its non-alpha characters, its lower-cased letters and their case.
  function Header(h: Stats, length: nat): seq<Step>
    requires length < MAX_LENGTH
  {
    [Step(Uniform(2), 1), Step(Uniform(2), 0), Step(Table([PROB_PACKED_ASCII], 2), 1),
     Step(Table(h.messageLengths, LENGTHS), length)]
  }

  function Letters(m: seq<Char>): seq<Char> {
    CaseModel.Lowered(NonAlpha.Kept(m))
  }

  lemma LettersCodable(m: seq<Char>)
    ensures LowerCaseAlpha.AllCodable(Letters(m))
  {
    var kept := NonAlpha.Kept(m);
    forall i | 0 <= i < |kept|
      ensures LowerCaseAlpha.Codable(Letters(m)[i])
    {
      assert !IsNonAlpha(kept[i]);
      if kept[i] > 0x7f {
        UnicodeHasIndex(kept[i]);
      }
    }
  }

  function LettersScript(h: Stats, m: seq<Char>): seq<Step> {
    LettersCodable(m);
    LowerCaseAlpha.LCScript(h, Letters(m), 0, LowerCaseAlpha.START)
  }

  function CasesScript(h: Stats, m: seq<Char>): seq<Step> {
    CaseModel.CaseScript(h, CaseModel.Munged(NonAlpha.Kept(m)), 0, CaseModel.START_CASE)
  }

  function ModelScript(h: Stats, m: seq<Char>): seq<Step>
    requires |m| < MAX_LENGTH
  {
    Header(h, |m|) + (NonAlpha.NonAlphaScript(m) + (LettersScript(h, m) + CasesScript(h, m)))
  }

  // The first two symbols are the top bits 10, which no first byte of UTF-8 has: they tell this format from raw
  // text.  Then follow the choice against packed text and the length.
  lemma StartTellsModel(h: Stats, m: seq<Char>, first: nat)
    requires |m| < MAX_LENGTH && (first < 0x80 || 0xc0 <= first < 0x100)
    ensures var script := ModelScript(h, m);
      && |script| >= 4 && script[0].model == script[1].model == Uniform(2)
      && (script[0].symbol, script[1].symbol) != (first / 0x80, first / 0x40 % 2)
      && script[2] == Step(Table([PROB_PACKED_ASCII], 2), 1)
      && script[3].model == Table(h.messageLengths, LENGTHS) && script[3].symbol == |m|
  {
    hide NonAlpha.NonAlphaScript, LettersScript, CasesScript;
  }

  lemma Regroup(a: Step, b: Step, c: Step, d: Step, x: seq<Step>, y: seq<Step>, z: seq<Step>, rest: seq<Step>)
    ensures [a, b, c, d] + (x + (y + z)) + rest == [a] + ([b] + ([c] + ([d] + (x + (y + (z + rest))))))
  {
  }

  method CompressModel1(c: RangeCoder, utf16: seq<Char>, h: Stats, ghost final: State, ghost rest: seq<Step>)
    requires |utf16| < MAX_LENGTH
    requires c.Writes(final, ModelScript(h, utf16) + rest)
    modifies c`low, c`high, c`underflow, c`bitsUsed, c.bitStream
    ensures c.Writes(final, rest)
  {
    hide RangeCoder.Writes;
    hide NonAlpha.NonAlphaScript, LettersScript, CasesScript, Letters;
    var len := |utf16|;
    ghost var head := Header(h, len);
    ghost var x, y, z := NonAlpha.NonAlphaScript(utf16), LettersScript(h, utf16), CasesScript(h, utf16);
    ghost var body := x + (y + (z + rest));
    Regroup(head[0], head[1], head[2], head[3], x, y, z, rest);
    c.SendUniform(2, 1, final, [head[1]] + ([head[2]] + ([head[3]] + body)));
    c.SendUniform(2, 0, final, [head[2]] + ([head[3]] + body));
    c.SendSymbol([PROB_PACKED_ASCII], 2, 1, final, [head[3]] + body);
    c.SendSymbol(h.messageLengths, LENGTHS, len, final, body);
    NonAlpha.EncodeNonAlpha(c, utf16, final, y + (z + rest));
    var alpha := NonAlpha.StripNonAlpha(utf16);
    CompressLetters(c, alpha, utf16, h, final, rest);
  }

  method CompressLetters(c: RangeCoder, alpha: seq<Char>, ghost m: seq<Char>, h: Stats, ghost final: State,
      ghost rest: seq<Step>)
    requires alpha == NonAlpha.Kept(m)
    requires c.Writes(final, LettersScript(h, m) + (CasesScript(h, m) + rest))
    modifies c`low, c`high, c`underflow, c`bitsUsed, c.bitStream
    ensures c.Writes(final, rest)
  {
    hide RangeCoder.Writes;
    hide LowerCaseAlpha.LCScript, CaseModel.CaseScript;
    LettersCodable(m);
    var munged := new Char[|alpha|](i requires 0 <= i < |alpha| => alpha[i]);
    assert munged[..|alpha|] == alpha;
    var lcalpha := CaseModel.StripCase(alpha);
    LowerCaseAlpha.EncodeLCAlphaSpace(c, lcalpha, h, final, CasesScript(h, m) + rest);
    CaseModel.MungeCase(munged, |alpha|);
    var line := munged[..];
    assert line == munged[..|alpha|] == CaseModel.Munged(alpha);
    CaseModel.EncodeCaseModel1(c, line, h, final, rest);
  }

  method DecompressModel1(c: RangeCoder, h: Stats, ghost m: seq<Char>, ghost rest: seq<Step>) returns (out: seq<Char>)
    requires |m| < MAX_LENGTH
    requires c.Follows(ModelScript(h, m) + rest)
    modifies c`low, c`high, c`value, c`underflow, c`bitsUsed, c`decoding
    ensures c.Follows(rest)
    ensures out == m
  {
    hide RangeCoder.Follows;
    hide NonAlpha.NonAlphaScript, LettersScript, CasesScript, NonAlpha.Positions, NonAlpha.Values;
    ghost var head := Header(h, |m|);
    ghost var x, y, z := NonAlpha.NonAlphaScript(m), LettersScript(h, m), CasesScript(h, m);
    ghost var body := x + (y + (z + rest));
    Regroup(head[0], head[1], head[2], head[3], x, y, z, rest);
    var b7 := c.ReceiveUniform(2, 1, [head[1]] + ([head[2]] + ([head[3]] + body)));
    var b6 := c.ReceiveUniform(2, 0, [head[2]] + ([head[3]] + body));
    var notPackedASCII := c.ReceiveSymbol([PROB_PACKED_ASCII], 2, 1, [head[3]] + body);
    var encodedLength := c.ReceiveSymbol(h.messageLengths, LENGTHS, |m|, body);
    var positions, values := new int[MAX_LENGTH], new int[MAX_LENGTH];
    var count := NonAlpha.DecodeNonAlpha(c, positions, values, encodedLength, m, y + (z + rest));
    NonAlpha.PartsAddUp(m);
    var alphaCount := encodedLength - count;
    var alpha := new Char[MAX_LENGTH + 1];
    DecompressLetters(c, alpha, alphaCount, h, m, rest);
    out := Reintegrate(positions[..count], values[..count], alpha[..alphaCount], m);
  }

  method DecompressLetters(c: RangeCoder, alpha: array<Char>, alphaCount: nat, h: Stats, ghost m: seq<Char>,
      ghost rest: seq<Step>)
    requires alphaCount == |NonAlpha.Kept(m)| <= alpha.Length && alpha as object != c.bitStream
    requires c.Follows(LettersScript(h, m) + (CasesScript(h, m) + rest))
    modifies c`low, c`high, c`value, c`underflow, c`bitsUsed, c`decoding, alpha
    ensures c.Follows(rest) && alpha[..alphaCount] == NonAlpha.Kept(m)
  {
    hide RangeCoder.Follows;
    hide LowerCaseAlpha.LCScript, CaseModel.CaseScript;
    ghost var kept := NonAlpha.Kept(m);
    LettersCodable(m);
    LowerCaseAlpha.DecodeLCAlphaSpace(c, alpha, alphaCount, h, Letters(m), CasesScript(h, m) + rest);
    CaseModel.MungeKeepsLetters(kept);
    CaseModel.DecodeCaseModel1(c, alpha, alphaCount, h, CaseModel.Munged(kept), rest);
    CaseModel.MungeIsInvolution(kept);
    CaseModel.MungeCase(alpha, alphaCount);
  }

  // Puts the non-alpha characters back at their positions.
  method Reintegrate(positions: seq<int>, values: seq<int>, alpha: seq<Char>, ghost m: seq<Char>)
    returns (m16: seq<Char>)
    requires positions == NonAlpha.Positions(m) && values == NonAlpha.Values(m) && alpha == NonAlpha.Kept(m)
    ensures m16 == m
  {
    hide NonAlpha.Positions, NonAlpha.Values, NonAlpha.Kept;
    NonAlpha.PartsAddUp(m);
    NonAlpha.NothingYet(m);
    var nonAlphaPointer, alphaPointer := 0, 0;
    m16 := [];
    var i := 0;
    while i < |alpha| + |positions|
      invariant 0 <= i <= |m| && m16 == m[..i]
      invariant nonAlphaPointer == NonAlpha.Used(m, i) && alphaPointer == NonAlpha.Taken(m, i)
    {
      NonAlpha.NextPlace(m, i);
      if nonAlphaPointer < |positions| && positions[nonAlphaPointer] == i {
        m16 := m16 + [values[nonAlphaPointer]];
        nonAlphaPointer := nonAlphaPointer + 1;
      } else {
        m16 := m16 + [alpha[alphaPointer]];
        alphaPointer := alphaPointer + 1;
      }
      i := i + 1;
    }
  }

  // ---- Whole messages -----------------------------------------------------------------------

  function FinalState(h: Stats, m: seq<Char>): (e: State)
    requires |m| < MAX_LENGTH
    ensures Normal(e)
  {
    EncodeAll(RESET, ModelScript(h, m))
  }

  lemma FinalIs(h: Stats, m: seq<Char>)
    requires |m| < MAX_LENGTH
    ensures FinalState(h, m) == EncodeAll(RESET, ModelScript(h, m) + [])
  {
    assert ModelScript(h, m) + [] == ModelScript(h, m);
  }

  // The bytes begin with a concluded encoding of `m`; what follows it does not matter.
  predicate Encodes(h: Stats, m: seq<Char>, bytes: seq<bv8>)
    requires |m| < MAX_LENGTH
  {
    var e := FinalState(h, m);
    Spells(BitsOf(bytes, 8 * |bytes|), 0, e.out + Conclusion(e))
  }

  // The first conclusion can take any number of underflow bits, the second at most 32 bits.
  method Compress(m: seq<Char>, h: Stats, bytes: nat) returns (ok: bool, out: seq<bv8>)
    requires |m| < MAX_LENGTH
    requires |FinalState(h, m).out| <= 8 * bytes
    ensures ok ==> Encodes(h, m, out)
    ensures |FinalState(h, m).out| + |Conclusion(FinalState(h, m))| + 32 <= 8 * bytes ==> ok
  {
    hide BitsOf, Spells, FinalState, ModelScript;
    out := [];
    var c := new RangeCoder(bytes);
    ghost var final := FinalState(h, m);
    FinalIs(h, m);
    CompressModel1(c, m, h, final, []);
    ok := c.Conclude();
    if ok {
      ghost var once := c.Written();
      ok := c.Conclude();
      if ok {
        var length := (c.bitsUsed + 7) / 8;
        out := c.bitStream[..length];
        WholeBytes(c.bitStream[..], c.bitsUsed, length, once);
      }
    }
  }

  // Cutting the buffer after the last byte in use keeps everything that was written.
  lemma WholeBytes(buffer: seq<bv8>, used: nat, length: nat, start: seq<bool>)
    requires used <= 8 * length && length <= |buffer|
    requires start <= BitsOf(buffer, used)
    ensures Spells(BitsOf(buffer[..length], 8 * length), 0, start)
  {
    forall k | 0 <= k < |start|
      ensures BitAt(BitsOf(buffer[..length], 8 * length), k) == start[k]
    {
      BitsOfAt(buffer[..length], 8 * length, k);
      BitsOfAt(buffer, used, k);
    }
  }

  method OpenStream(bytes: seq<bv8>) returns (c: RangeCoder)
    ensures fresh(c) && fresh(c.bitStream)
    ensures c.Decoding() && c.Stream() == BitsOf(bytes, 8 * |bytes|) && c.Decoder() == RESET
  {
    hide BitsOf, Window;
    c := new RangeCoder(|bytes|);
    var i := 0;
    while i < |bytes|
      modifies c.bitStream
      invariant 0 <= i <= |bytes| && c.bitStream[..i] == bytes[..i]
    {
      c.bitStream[i] := bytes[i];
      i := i + 1;
    }
    assert c.bitStream[..] == bytes;
    c.DecodePrefetch();
  }

  method Decompress(bytes: seq<bv8>, h: Stats, ghost m: seq<Char>) returns (out: seq<Char>)
    requires |m| < MAX_LENGTH && Encodes(h, m, bytes)
    ensures out == m
  {
    hide BitsOf, ModelScript;
    var c := OpenStream(bytes);
    assert ModelScript(h, m) + [] == ModelScript(h, m);
    ConclusionAccepted(c.Stream(), FinalState(h, m));
    out := DecompressModel1(c, h, m, []);
  }
}
