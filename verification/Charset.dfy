/** Character classes of forms/charset.c and of <ctype.h> in the C locale.  Characters are UTF-16
    code units, 0..65535; only those below 0x80 can be letters. */
module Charset {
  type Char = c: int | 0 <= c < 0x1_0000

  // The coded symbols in order: letters, space, punctuation, line ends and tab, then '0' for every
  // digit, 'U' for every character above 0x7f, and the terminating NUL of the C string.
  const CHARS: seq<Char> := [
    97, 98, 99, 100, 101, 102, 103, 104, 105, 106, 107, 108, 109, 110, 111, 112, 113, 114, 115,
    116, 117, 118, 119, 120, 121, 122, 32, 33, 64, 35, 36, 37, 94, 38, 42, 40, 41, 95, 43, 45, 61,
    126, 96, 91, 123, 93, 125, 92, 124, 59, 58, 39, 34, 60, 44, 62, 46, 63, 47, 13, 10, 9, 48, 85, 0]

  const CHARCOUNT := 65
  const MAX_LENGTH := 1024   // messages are shorter than this
  const DIGIT0 := 48
  const DIGIT9 := 57
  const UNICODE := 85   // 'U'
  const LOWER_I := 105
  const UPPER_I := 73

  predicate IsUpper(c: int) {
    65 <= c <= 90
  }

  predicate IsLower(c: int) {
    97 <= c <= 122
  }

  predicate IsAlpha(c: int) {
    IsUpper(c) || IsLower(c)
  }

  predicate IsDigit(c: int) {
    DIGIT0 <= c <= DIGIT9
  }

  function ToLower(c: Char): Char {
    if IsUpper(c) then c + 32 else c
  }

  function ToUpper(c: Char): Char {
    if IsLower(c) then c - 32 else c
  }

  // All characters above 0x7f share one symbol, and so do all digits.
  function Representative(c: Char): Char {
    if c > 0x7f then UNICODE else if 49 <= c <= DIGIT9 then DIGIT0 else c
  }

  function Find(x: Char, from: nat): (r: int)
    requires from <= CHARCOUNT
    ensures -1 <= r < CHARCOUNT
    ensures r >= 0 ==> CHARS[r] == x
    decreases CHARCOUNT - from
  {
    if from == CHARCOUNT then -1 else if CHARS[from] == x then from else Find(x, from + 1)
  }

  function Index(c: Char): (r: int)
    ensures -1 <= r < CHARCOUNT
    ensures r >= 0 ==> CHARS[r] == Representative(c)
  {
    Find(Representative(c), 0)
  }

  method CharIdx(c: Char) returns (r: int)
    ensures r == Index(c)
  {
    var x := c;
    if x > 0x7f {
      x := UNICODE;
    }
    if 49 <= x <= DIGIT9 {
      x := DIGIT0;
    }
    var i := 0;
    while i < CHARCOUNT
      invariant 0 <= i <= CHARCOUNT
      invariant Find(x, 0) == Find(x, i)
    {
      if x == CHARS[i] {
        return i;
      }
      i := i + 1;
    }
    return -1;
  }

  // Characters that are not part of the coded alphabet are sent separately, one byte each.
  predicate IsNonAlpha(c: Char) {
    c < 0x80 && Index(ToLower(c)) < 0
  }

  lemma UnicodeHasIndex(c: Char)
    requires c > 0x7f
    ensures Index(c) >= 0
  {
    assert CHARS[63] == UNICODE;
    FindFound(UNICODE, 0, 63);
  }

  lemma {:induction false} FindFound(x: Char, from: nat, at: nat)
    requires from <= at < CHARCOUNT && CHARS[at] == x
    ensures Find(x, from) >= 0
    decreases at - from
  {
    if CHARS[from] != x {
      FindFound(x, from + 1, at);
    }
  }

  // Letters and digits below 0x80 make up words; everything else breaks them.
  predicate InWord(c: Char) {
    c < 0x80 && (IsAlpha(c) || IsDigit(c))
  }

  function WordChar(i: nat): Char
    requires i < 36
  {
    if i < 26 then 97 + i else DIGIT0 + (i - 26)
  }

  method CharInWord(c: Char) returns (b: bool)
    ensures b == InWord(c)
  {
    if c < 0x80 {
      var cc := ToLower(c);
      var i := 0;
      while i < 36
        invariant 0 <= i <= 36
        invariant forall k :: 0 <= k < i ==> cc != WordChar(k)
      {
        if cc == WordChar(i) {
          return true;
        }
        i := i + 1;
      }
      assert IsLower(cc) ==> WordChar(cc - 97) == cc;
      assert IsDigit(cc) ==> WordChar(cc - DIGIT0 + 26) == cc;
    }
    return false;
  }

  lemma CaseKeepsClass(c: Char)
    ensures InWord(ToLower(c)) == InWord(c) && IsAlpha(ToLower(c)) == IsAlpha(c)
    ensures IsAlpha(c) && IsUpper(c) ==> ToUpper(ToLower(c)) == c
    ensures !IsUpper(c) ==> ToLower(c) == c
    ensures !IsUpper(ToLower(c))
  {
  }
}
