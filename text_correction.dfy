/** The context-aware correction score
    (src/utils/prediction/text_correction.py). */
module TextCorrection {
  import opened Results
  import opened Ratios
  import opened CountTables

  /** Python truthiness of an optional word: present and non-empty. */
  predicate WordGiven(w: Option<string>) {
    w.Some? && w.value != ""
  }

  /** Python truthiness of an optional table: present and non-empty. */
  predicate TableGiven<K(==)>(t: Option<Table<K>>) {
    t.Some? && |t.value| > 0
  }

  /** The four scores of the cascade, lowest order first. */
  datatype Step = Unigram | PrevBigram | NextBigram | Trigram

  /** The unigram score `(u[word] + 1) / (sum(u) + len(u))`: a ratio
      exactly when the table is not empty. */
  function UnigramRatio(word: string, unigram: Table<string>): (r: Ratio)
    ensures WellFormed(r) <==> |unigram| > 0
  {
    Ratio(Get(unigram, word) + 1, Total(unigram) + |unigram|)
  }

  /** The previous-word bigram score `(b[(prev, word)] + 1) / (u[prev] + len(u))`. */
  function PrevBigramRatio(word: string, prev: string, unigram: Table<string>,
                           bigram: Table<seq<string>>): Ratio {
    Ratio(Get(bigram, [prev, word]) + 1, Get(unigram, prev) + |unigram|)
  }

  /** The next-word bigram score `(b[(word, next)] + 1) / (u[next] + len(u))`. */
  function NextBigramRatio(word: string, next: string, unigram: Table<string>,
                           bigram: Table<seq<string>>): Ratio {
    Ratio(Get(bigram, [word, next]) + 1, Get(unigram, next) + |unigram|)
  }

  /** The trigram score `(t[(prev, word, next)] + 1) / (b[(prev, next)] + len(b))`. */
  function TrigramRatio(word: string, prev: string, next: string,
                        bigram: Table<seq<string>>, trigram: Table<seq<string>>): Ratio {
    Ratio(Get(trigram, [prev, word, next]) + 1, Get(bigram, [prev, next]) + |bigram|)
  }

  /** `calculate_probability`, scores without the logarithm. The unigram
      score is computed first; each later step whose inputs are truthy
      replaces the score so far. */
  function CorrectionProbability(word: string, unigram: Table<string>,
                                 prevWord: Option<string>, nextWord: Option<string>,
                                 bigram: Option<Table<seq<string>>>,
                                 trigram: Option<Table<seq<string>>>): (r: Result<Ratio>)
    ensures r.Ok? ==> WellFormed(r.value) && r.value.num >= 1
    ensures r.Err? <==>
      |unigram| == 0 || (WordGiven(prevWord) && WordGiven(nextWord) && TableGiven(trigram) && !TableGiven(bigram))
    // The unigram score is computed first, so an empty unigram table
    // divides by zero whatever the context.
    ensures |unigram| == 0 ==> r == Err(DivisionByZero)
    // Otherwise only the trigram step can fail: `bigram_counts.get` on None,
    // or a zero denominator on an empty bigram table.
    ensures r.Err? && |unigram| > 0 && bigram.None? ==> r == Err(MissingBigramTable)
    ensures r.Err? && bigram.Some? ==> r == Err(DivisionByZero)
  {
    if Total(unigram) + |unigram| == 0 then Err(DivisionByZero)
    else
      var wordProb := UnigramRatio(word, unigram);
      var afterPrev :=
        if WordGiven(prevWord) && TableGiven(bigram)
        then PrevBigramRatio(word, prevWord.value, unigram, bigram.value)
        else wordProb;
      var afterNext :=
        if WordGiven(nextWord) && TableGiven(bigram)
        then NextBigramRatio(word, nextWord.value, unigram, bigram.value)
        else afterPrev;
      if WordGiven(prevWord) && WordGiven(nextWord) && TableGiven(trigram) then
        if bigram.None? then Err(MissingBigramTable)
        else
          var tri := TrigramRatio(word, prevWord.value, nextWord.value, bigram.value, trigram.value);
          if tri.den == 0 then Err(DivisionByZero) else Ok(tri)
      else Ok(afterNext)
  }

  // ---------------------------------------------------------------------
  // A reference reading of the cascade: the highest-order step whose
  // inputs are all given decides the score alone.

  predicate Applies(step: Step, prevWord: Option<string>, nextWord: Option<string>,
                    bigram: Option<Table<seq<string>>>, trigram: Option<Table<seq<string>>>)
  {
    match step
    case Unigram => true
    case PrevBigram => WordGiven(prevWord) && TableGiven(bigram)
    case NextBigram => WordGiven(nextWord) && TableGiven(bigram)
    case Trigram => WordGiven(prevWord) && WordGiven(nextWord) && TableGiven(trigram)
  }

  function Order(step: Step): nat {
    match step
    case Unigram => 0
    case PrevBigram => 1
    case NextBigram => 2
    case Trigram => 3
  }

  /** The step that decides: it applies and no later step does. */
  function Decisive(prevWord: Option<string>, nextWord: Option<string>,
                    bigram: Option<Table<seq<string>>>, trigram: Option<Table<seq<string>>>): (s: Step)
    ensures Applies(s, prevWord, nextWord, bigram, trigram)
    ensures forall t: Step :: Order(s) < Order(t) ==> !Applies(t, prevWord, nextWord, bigram, trigram)
  {
    if Applies(Trigram, prevWord, nextWord, bigram, trigram) then Trigram
    else if Applies(NextBigram, prevWord, nextWord, bigram, trigram) then NextBigram
    else if Applies(PrevBigram, prevWord, nextWord, bigram, trigram) then PrevBigram
    else Unigram
  }

  /** The ratio of one step (the trigram step needs the bigram table). */
  function StepRatio(step: Step, word: string, unigram: Table<string>,
                     prevWord: Option<string>, nextWord: Option<string>,
                     bigram: Option<Table<seq<string>>>, trigram: Option<Table<seq<string>>>): Ratio
    requires Applies(step, prevWord, nextWord, bigram, trigram)
    requires step == Trigram ==> bigram.Some?
  {
    match step
    case Unigram => UnigramRatio(word, unigram)
    case PrevBigram => PrevBigramRatio(word, prevWord.value, unigram, bigram.value)
    case NextBigram => NextBigramRatio(word, nextWord.value, unigram, bigram.value)
    case Trigram => TrigramRatio(word, prevWord.value, nextWord.value, bigram.value, trigram.value)
  }

  /** The cascade is a priority choice, never a combination: when it
      succeeds, the score is exactly the ratio of the last applicable step. */
  lemma CascadeIsPriority(word: string, unigram: Table<string>,
                          prevWord: Option<string>, nextWord: Option<string>,
                          bigram: Option<Table<seq<string>>>, trigram: Option<Table<seq<string>>>)
    requires CorrectionProbability(word, unigram, prevWord, nextWord, bigram, trigram).Ok?
    ensures var s := Decisive(prevWord, nextWord, bigram, trigram);
            && (s == Trigram ==> bigram.Some?)
            && CorrectionProbability(word, unigram, prevWord, nextWord, bigram, trigram).value
               == StepRatio(s, word, unigram, prevWord, nextWord, bigram, trigram)
  {
  }

  /** With no usable context the score is the unigram ratio, and it is a
      probability: at most 1. An empty unigram table divides by zero. */
  lemma UnigramFallback(word: string, unigram: Table<string>,
                        prevWord: Option<string>, nextWord: Option<string>,
                        bigram: Option<Table<seq<string>>>, trigram: Option<Table<seq<string>>>)
    requires !(WordGiven(prevWord) && TableGiven(bigram))
    requires !(WordGiven(nextWord) && TableGiven(bigram))
    requires !(WordGiven(prevWord) && WordGiven(nextWord) && TableGiven(trigram))
    ensures var r := CorrectionProbability(word, unigram, prevWord, nextWord, bigram, trigram);
            && (|unigram| == 0 <==> r == Err(DivisionByZero))
            && (|unigram| > 0 ==> r == Ok(Ratio(Get(unigram, word) + 1, Total(unigram) + |unigram|)))
            && (|unigram| > 0 ==> r.value.num <= r.value.den)
  {
    GetAtMostTotal(unigram, word);
  }

  /** A previous word alone (with a bigram table) scores by the
      previous-word bigram. */
  lemma PrevBigramStep(word: string, unigram: Table<string>, prev: string,
                       nextWord: Option<string>, bigram: Table<seq<string>>,
                       trigram: Option<Table<seq<string>>>)
    requires |unigram| > 0 && prev != "" && |bigram| > 0
    requires !WordGiven(nextWord)
    ensures CorrectionProbability(word, unigram, Some(prev), nextWord, Some(bigram), trigram)
            == Ok(Ratio(Get(bigram, [prev, word]) + 1, Get(unigram, prev) + |unigram|))
  {
    var p, b := Some(prev), Some(bigram);
    assert Decisive(p, nextWord, b, trigram) == PrevBigram;
    CascadeIsPriority(word, unigram, p, nextWord, b, trigram);
  }

  /** A next word (with a bigram table) overrides the previous-word bigram,
      whether or not a previous word is given, unless the trigram step applies. */
  lemma NextBigramOverrides(word: string, unigram: Table<string>, prevWord: Option<string>,
                            next: string, bigram: Table<seq<string>>,
                            trigram: Option<Table<seq<string>>>)
    requires |unigram| > 0 && next != "" && |bigram| > 0
    requires !(WordGiven(prevWord) && TableGiven(trigram))
    ensures CorrectionProbability(word, unigram, prevWord, Some(next), Some(bigram), trigram)
            == Ok(Ratio(Get(bigram, [word, next]) + 1, Get(unigram, next) + |unigram|))
  {
    assert !Applies(Trigram, prevWord, Some(next), Some(bigram), trigram);
    assert Applies(NextBigram, prevWord, Some(next), Some(bigram), trigram);
    CascadeIsPriority(word, unigram, prevWord, Some(next), Some(bigram), trigram);
  }

  /** Both neighbours and a trigram table: the trigram ratio, whose
      denominator counts the bigram (prev, next), not (prev, word). Without
      a bigram table `bigram_counts.get` fails; with an empty one the
      denominator is 0. */
  lemma TrigramStep(word: string, unigram: Table<string>, prev: string, next: string,
                    bigram: Option<Table<seq<string>>>, trigram: Table<seq<string>>)
    requires |unigram| > 0 && prev != "" && next != "" && |trigram| > 0
    ensures var r := CorrectionProbability(word, unigram, Some(prev), Some(next), bigram, Some(trigram));
            && (bigram.None? ==> r == Err(MissingBigramTable))
            && (bigram.Some? && |bigram.value| == 0 ==> r == Err(DivisionByZero))
            && (TableGiven(bigram) ==>
                  r == Ok(Ratio(Get(trigram, [prev, word, next]) + 1,
                                Get(bigram.value, [prev, next]) + |bigram.value|)))
  {
    var r := CorrectionProbability(word, unigram, Some(prev), Some(next), bigram, Some(trigram));
    assert Applies(Trigram, Some(prev), Some(next), bigram, Some(trigram));
    if TableGiven(bigram) {
      CascadeIsPriority(word, unigram, Some(prev), Some(next), bigram, Some(trigram));
      assert r.value == TrigramRatio(word, prev, next, bigram.value, trigram);
    }
  }

  /** An empty string counts as an absent word, for each neighbour
      whatever the other one is. */
  lemma EmptyWordIsAbsent(word: string, unigram: Table<string>,
                          prevWord: Option<string>, nextWord: Option<string>,
                          bigram: Option<Table<seq<string>>>, trigram: Option<Table<seq<string>>>)
    ensures CorrectionProbability(word, unigram, Some(""), nextWord, bigram, trigram)
            == CorrectionProbability(word, unigram, None, nextWord, bigram, trigram)
    ensures CorrectionProbability(word, unigram, prevWord, Some(""), bigram, trigram)
            == CorrectionProbability(word, unigram, prevWord, None, bigram, trigram)
  {
  }
}
