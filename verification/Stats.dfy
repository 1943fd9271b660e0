/** The probability tables the text model consults.  Their file format is not part of this model:
    a table is any function of what has been decoded so far that gives every symbol a share. */
module Stats {
  import opened RangeModel
  import opened RangeScript
  import opened Charset

  function Ramp(n: nat): seq<int> {
    seq(n, i => i + 1)
  }

  const LENGTHS := 1024
  const PAGE_SYMBOLS := 128        // the characters of one code page
  const PAGE_AND_SWITCHES := 640   // those and a switch to each of 512 pages

  type LengthTable = t: seq<int> | ValidTable(t, LENGTHS) witness Ramp(1023)
  type CharTable = t: seq<int> | ValidTable(t, CHARCOUNT) witness Ramp(64)
  type PageTable = t: seq<int> | ValidTable(t, PAGE_AND_SWITCHES) witness Ramp(639)

  // The share of "lower case" in a choice between lower and upper, if there is one.
  type Share = f: int | 0 < f <= MAXVALUE witness 1
  type AnyShare = f: int | 0 <= f <= MAXVALUE

  datatype AnyStats = Stats(
    messageLengths: LengthTable,
    vector: seq<Char> -> CharTable,       // given the characters before
    page: int -> PageTable,               // given the code page
    caseFirst: Share,
    caseStartOfMessage: Share,
    caseStartOfWord2: bool -> Share,      // given the initial case of the last word
    caseStartOfWord3: (bool, bool) -> Share,
    casePosn2: (bool, nat) -> AnyShare)        // given the last case and the position in the word

  // Word positions the statistics never saw have no share; the first one always has.
  predicate ValidStats(h: AnyStats) {
    h.casePosn2(false, 0) > 0 && h.casePosn2(true, 0) > 0
  }

  type Stats = h: AnyStats | ValidStats(h)
    witness Stats(Ramp(1023), (s: seq<Char>) => Ramp(64), (p: int) => Ramp(639),
                  1, 1, (a: bool) => 1, (a: bool, b: bool) => 1, (a: bool, n: nat) => 1)

  lemma PageTableIsShortTable(t: PageTable)
    ensures ValidTable(t, PAGE_SYMBOLS)
  {
  }
}
