/** The character counter (`CharacterCounterController`): every UTF-16 code
    unit of the input falls into exactly one of eight categories, checked in
    the order alphabet, digit, space, tab, kanji, hiragana, katakana, with
    everything else counted as other. */
module CharacterCounter {
  import opened Wrappers
  import opened Text

  /** `MaxInputLength`: 1 MiB of UTF-16 code units. */
  const MaxInputLength: nat := 1024 * 1024

  datatype Category = Alphabet | Digit | Space | Tab | Kanji | Hiragana | Katakana | Other

  predicate IsAlphabet(c: CodeUnit) {
    ('a' as int <= c <= 'z' as int) || ('A' as int <= c <= 'Z' as int)
  }

  predicate IsDigit(c: CodeUnit) {
    '0' as int <= c <= '9' as int
  }

  /** CJK Unified Ideographs and their Extension A. */
  predicate IsKanji(c: CodeUnit) {
    (0x4E00 <= c <= 0x9FFF) || (0x3400 <= c <= 0x4DBF)
  }

  predicate IsHiragana(c: CodeUnit) {
    0x3040 <= c <= 0x309F
  }

  predicate IsKatakana(c: CodeUnit) {
    0x30A0 <= c <= 0x30FF
  }

  const SpaceUnit: CodeUnit := 0x20
  const TabUnit: CodeUnit := 0x09

  /** The category of one code unit, first match in the order of the
      controller's `if` chain. The ranges do not overlap, so each category is
      exactly its own test and the order of the tests does not matter. */
  function Classify(c: CodeUnit): (k: Category)
    ensures k == Alphabet <==> IsAlphabet(c)
    ensures k == Digit <==> IsDigit(c)
    ensures k == Space <==> c == SpaceUnit
    ensures k == Tab <==> c == TabUnit
    ensures k == Kanji <==> IsKanji(c)
    ensures k == Hiragana <==> IsHiragana(c)
    ensures k == Katakana <==> IsKatakana(c)
    ensures k == Other <==>
              !IsAlphabet(c) && !IsDigit(c) && c != SpaceUnit && c != TabUnit
              && !IsKanji(c) && !IsHiragana(c) && !IsKatakana(c)
  {
    if IsAlphabet(c) then Alphabet
    else if IsDigit(c) then Digit
    else if c == SpaceUnit then Space
    else if c == TabUnit then Tab
    else if IsKanji(c) then Kanji
    else if IsHiragana(c) then Hiragana
    else if IsKatakana(c) then Katakana
    else Other
  }

  /** `CharacterCountResponse`. */
  datatype Counts = Counts(
    total: nat,
    alphabet: nat,
    digit: nat,
    space: nat,
    tab: nat,
    kanji: nat,
    hiragana: nat,
    katakana: nat,
    other: nat)

  /** The counter of one category. */
  function Get(counts: Counts, k: Category): nat {
    match k
    case Alphabet => counts.alphabet
    case Digit => counts.digit
    case Space => counts.space
    case Tab => counts.tab
    case Kanji => counts.kanji
    case Hiragana => counts.hiragana
    case Katakana => counts.katakana
    case Other => counts.other
  }

  function SumOfCategories(counts: Counts): nat {
    counts.alphabet + counts.digit + counts.space + counts.tab
      + counts.kanji + counts.hiragana + counts.katakana + counts.other
  }

  /** The counts with one category's counter increased by one. */
  function Bump(counts: Counts, k: Category): (r: Counts)
    ensures r.total == counts.total
    ensures Get(r, k) == Get(counts, k) + 1
    ensures forall k' :: k' != k ==> Get(r, k') == Get(counts, k')
    ensures SumOfCategories(r) == SumOfCategories(counts) + 1
  {
    match k
    case Alphabet => counts.(alphabet := counts.alphabet + 1)
    case Digit => counts.(digit := counts.digit + 1)
    case Space => counts.(space := counts.space + 1)
    case Tab => counts.(tab := counts.tab + 1)
    case Kanji => counts.(kanji := counts.kanji + 1)
    case Hiragana => counts.(hiragana := counts.hiragana + 1)
    case Katakana => counts.(katakana := counts.katakana + 1)
    case Other => counts.(other := counts.other + 1)
  }

  /** The number of code units of `s` in category `k`: the reference the
      counting loop is checked against. */
  function Occurrences(s: seq<CodeUnit>, k: Category): nat {
    if |s| == 0 then 0
    else Occurrences(s[..|s| - 1], k) + (if Classify(s[|s| - 1]) == k then 1 else 0)
  }

  /** `CountCharacterTypes`: the total is the length and every category's
      counter is the number of code units in that category; the categories
      add up to the total. */
  method CountCharacterTypes(input: seq<CodeUnit>) returns (r: Counts)
    ensures r.total == |input|
    ensures forall k :: Get(r, k) == Occurrences(input, k)
    ensures SumOfCategories(r) == r.total
  {
    r := Counts(|input|, 0, 0, 0, 0, 0, 0, 0, 0);
    var i := 0;
    while i < |input|
      invariant 0 <= i <= |input|
      invariant r.total == |input|
      invariant forall k :: Get(r, k) == Occurrences(input[..i], k)
      invariant SumOfCategories(r) == i
    {
      assert input[..i + 1][..i] == input[..i];
      r := Bump(r, Classify(input[i]));
      i := i + 1;
    }
    assert input[..i] == input;
  }

  datatype CountError = InputNull | InputTooLong

  /** `CharacterCounterController.Count`: a null input is rejected, then one
      longer than `MaxInputLength` code units; anything else is counted. */
  method Count(input: Option<seq<CodeUnit>>) returns (r: Result<Counts, CountError>)
    ensures input.None? ==> r == Failure(InputNull)
    ensures input.Some? && |input.value| > MaxInputLength ==> r == Failure(InputTooLong)
    ensures r.Success? <==> input.Some? && |input.value| <= MaxInputLength
    ensures r.Success? ==> r.value.total == |input.value|
    ensures r.Success? ==> forall k :: Get(r.value, k) == Occurrences(input.value, k)
  {
    if input.None? {
      return Failure(InputNull);
    }
    if |input.value| > MaxInputLength {
      return Failure(InputTooLong);
    }
    var counts := CountCharacterTypes(input.value);
    return Success(counts);
  }

  // ------------------------------------------------------------ properties

  function SumOfOccurrences(s: seq<CodeUnit>): nat {
    Occurrences(s, Alphabet) + Occurrences(s, Digit) + Occurrences(s, Space) + Occurrences(s, Tab)
      + Occurrences(s, Kanji) + Occurrences(s, Hiragana) + Occurrences(s, Katakana) + Occurrences(s, Other)
  }

  /** Every code unit is counted exactly once. */
  lemma {:induction false} OccurrencesPartition(s: seq<CodeUnit>)
    ensures SumOfOccurrences(s) == |s|
  {
    if |s| > 0 {
      OccurrencesPartition(s[..|s| - 1]);
    }
  }

  /** Counting is additive: the counts of a concatenation are the sums of the
      counts of its parts. */
  lemma {:induction false} OccurrencesAppend(a: seq<CodeUnit>, b: seq<CodeUnit>, k: Category)
    ensures Occurrences(a + b, k) == Occurrences(a, k) + Occurrences(b, k)
    decreases |b|
  {
    if |b| == 0 {
      assert a + b == a;
    } else {
      assert (a + b)[..|a + b| - 1] == a + b[..|b| - 1];
      OccurrencesAppend(a, b[..|b| - 1], k);
    }
  }

  /** An input whose code units all fall in one category is counted entirely
      in that category. */
  lemma {:induction false} UniformInput(s: seq<CodeUnit>, k: Category)
    requires forall i :: 0 <= i < |s| ==> Classify(s[i]) == k
    ensures Occurrences(s, k) == |s|
    ensures forall k' :: k' != k ==> Occurrences(s, k') == 0
  {
    if |s| > 0 {
      var init := s[..|s| - 1];
      assert forall i :: 0 <= i < |init| ==> init[i] == s[i];
      UniformInput(init, k);
    }
  }

  /** A UTF-16 surrogate is never a kanji, kana, letter or digit. */
  lemma SurrogateIsOther(c: CodeUnit)
    requires 0xD800 <= c <= 0xDFFF
    ensures Classify(c) == Other
  {
  }

  /** The UTF-16 encoding of a code point outside the Basic Multilingual
      Plane: a high and a low surrogate. */
  function SurrogatePair(codePoint: int): (r: seq<CodeUnit>)
    requires 0x10000 <= codePoint <= 0x10FFFF
    ensures |r| == 2
    ensures 0xD800 <= r[0] <= 0xDBFF && 0xDC00 <= r[1] <= 0xDFFF
  {
    [0xD800 + (codePoint - 0x10000) / 0x400, 0xDC00 + (codePoint - 0x10000) % 0x400]
  }

  /** A character outside the Basic Multilingual Plane, a CJK Extension B
      ideograph or an emoji alike, counts as two characters, both other. */
  lemma SupplementaryCountsTwiceAsOther(codePoint: int)
    requires 0x10000 <= codePoint <= 0x10FFFF
    ensures Occurrences(SurrogatePair(codePoint), Other) == 2
    ensures forall k :: k != Other ==> Occurrences(SurrogatePair(codePoint), k) == 0
  {
    var pair := SurrogatePair(codePoint);
    SurrogateIsOther(pair[0]);
    SurrogateIsOther(pair[1]);
    UniformInput(pair, Other);
  }
}
