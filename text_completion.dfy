/** Next-word prediction from n-gram counts
    (src/utils/prediction/text_completion.py). */
module TextCompletion {
  import opened Results
  import opened Ratios
  import opened CountTables

  type Token = string

  /** An n-gram: the tuple of its tokens. */
  type NGram = seq<Token>

  /** The add-one smoothed ratio of `calculate_probability`: the count of the
      (n+1)-gram `lastNgram + (word,)` plus one, over the count of the n-gram
      `lastNgram` plus the vocabulary size. */
  function SmoothedRatio(word: Token, lastNgram: NGram, ngramCounts: Table<NGram>,
                         nplus1gramCounts: Table<NGram>, vocabSize: nat): Ratio
  {
    Ratio(Get(nplus1gramCounts, lastNgram + [word]) + 1, Get(ngramCounts, lastNgram) + vocabSize)
  }

  /** `calculate_probability`, without the logarithm. It fails only when the
      denominator is 0: an unseen context and an empty vocabulary. */
  function CalculateProbability(word: Token, lastNgram: NGram, ngramCounts: Table<NGram>,
                                nplus1gramCounts: Table<NGram>, vocabSize: nat): (r: Result<Ratio>)
    ensures r.Err? <==> Get(ngramCounts, lastNgram) == 0 && vocabSize == 0
    ensures r.Err? ==> r.error == DivisionByZero
    ensures r.Ok? ==> WellFormed(r.value) && r.value.num >= 1 && r.value.den >= vocabSize
  {
    var ratio := SmoothedRatio(word, lastNgram, ngramCounts, nplus1gramCounts, vocabSize);
    if ratio.den == 0 then Err(DivisionByZero) else Ok(ratio)
  }

  /** For one context and one vocabulary size, two words' scores compare as
      their (n+1)-gram counts do: the score is strictly increasing in the count. */
  lemma {:induction false} ScoreOrder(w1: Token, w2: Token, lastNgram: NGram, ngramCounts: Table<NGram>,
                                      nplus1gramCounts: Table<NGram>, vocabSize: nat)
    requires vocabSize > 0
    ensures var r1 := SmoothedRatio(w1, lastNgram, ngramCounts, nplus1gramCounts, vocabSize);
            var r2 := SmoothedRatio(w2, lastNgram, ngramCounts, nplus1gramCounts, vocabSize);
            var c1 := Get(nplus1gramCounts, lastNgram + [w1]);
            var c2 := Get(nplus1gramCounts, lastNgram + [w2]);
            && (Less(r1, r2) <==> c1 < c2)
            && (LessEq(r1, r2) <==> c1 <= c2)
  {
    SameDenominator(SmoothedRatio(w1, lastNgram, ngramCounts, nplus1gramCounts, vocabSize),
                    SmoothedRatio(w2, lastNgram, ngramCounts, nplus1gramCounts, vocabSize));
  }

  /** `tuple(previous_tokens[-n:])`. Python reads `[-0:]` as the whole list,
      so an arity of 0 keeps every token. */
  function LastNgram(tokens: seq<Token>, n: nat): (r: NGram)
    ensures |r| == if n == 0 || n >= |tokens| then |tokens| else n
    ensures tokens == tokens[..|tokens| - |r|] + r
  {
    if n == 0 || n >= |tokens| then tokens else tokens[|tokens| - n..]
  }

  /** `[word for word in vocab if word.startswith(prefix)]` */
  function FilterByPrefix(vocab: seq<Token>, prefix: string): (r: seq<Token>)
    ensures |r| <= |vocab|
    ensures forall w :: w in r <==> w in vocab && prefix <= w
  {
    if |vocab| == 0 then []
    else (if prefix <= vocab[0] then [vocab[0]] else []) + FilterByPrefix(vocab[1..], prefix)
  }

  /** Filtering keeps the vocabulary's order: filtering a concatenation is
      the concatenation of the filtered parts. */
  lemma {:induction false} FilterKeepsOrder(a: seq<Token>, b: seq<Token>, prefix: string)
    ensures FilterByPrefix(a + b, prefix) == FilterByPrefix(a, prefix) + FilterByPrefix(b, prefix)
  {
    if |a| > 0 {
      assert (a + b)[1..] == a[1..] + b;
      FilterKeepsOrder(a[1..], b, prefix);
    } else {
      assert a + b == b;
    }
  }

  /** When every word has the prefix (the empty prefix, say), nothing is dropped. */
  lemma {:induction false} FilterKeepsAll(vocab: seq<Token>, prefix: string)
    requires forall i :: 0 <= i < |vocab| ==> prefix <= vocab[i]
    ensures FilterByPrefix(vocab, prefix) == vocab
  {
    if |vocab| > 0 {
      FilterKeepsAll(vocab[1..], prefix);
    }
  }

  /** The candidate words: the vocabulary, filtered when a prefix is given. */
  function Candidates(vocab: seq<Token>, startOfWord: Option<string>): (r: seq<Token>)
    ensures |r| <= |vocab|
    ensures forall w :: w in r ==> w in vocab
  {
    match startOfWord
    case None => vocab
    case Some(prefix) => FilterByPrefix(vocab, prefix)
  }

  /** The index `max(..., key=...)` returns: the first position whose score
      no other score exceeds. */
  function FirstArgMax(scores: seq<Ratio>): (i: nat)
    requires |scores| > 0
    requires forall k :: 0 <= k < |scores| ==> WellFormed(scores[k])
    ensures i < |scores|
    ensures forall k :: 0 <= k < |scores| ==> LessEq(scores[k], scores[i])
    ensures forall k :: 0 <= k < i ==> Less(scores[k], scores[i])
  {
    if |scores| == 1 then 0
    else
      var last := |scores| - 1;
      var best := FirstArgMax(scores[..last]);
      assert scores[..last][best] == scores[best];
      if Less(scores[best], scores[last]) then
        assert forall k :: 0 <= k < last ==> LessEq(scores[..last][k], scores[best]);
        assert forall k :: 0 <= k < last ==> Less(scores[k], scores[last]) by {
          forall k | 0 <= k < last ensures Less(scores[k], scores[last]) {
            assert scores[..last][k] == scores[k];
            LessEqLessTransitive(scores[k], scores[best], scores[last]);
          }
        }
        last
      else
        assert forall k :: 0 <= k < last ==> LessEq(scores[k], scores[best]) by {
          forall k | 0 <= k < last ensures LessEq(scores[k], scores[best]) {
            assert scores[..last][k] == scores[k];
          }
        }
        assert forall k :: 0 <= k < best ==> Less(scores[k], scores[best]) by {
          forall k | 0 <= k < best ensures Less(scores[k], scores[best]) {
            assert scores[..last][k] == scores[k];
          }
        }
        NotLess(scores[best], scores[last]);
        best
  }

  /** What `predict_next_word` returns: the chosen word, its score and the
      score of every candidate. */
  datatype Prediction = Prediction(nextWord: Token, maxProbability: Ratio,
                                   probabilities: map<Token, Ratio>)

  /** The context length: the length of the table's first key. */
  function Arity(ngramCounts: Table<NGram>): nat
    requires |ngramCounts| > 0
  {
    |ngramCounts[0].0|
  }

  /** The first arg-max of the candidates' scores, read back through the
      candidate list: no candidate scores more, and every candidate listed
      before the chosen word's first occurrence scores strictly less. */
  lemma ArgMaxOfCandidates(cands: seq<Token>, probabilities: map<Token, Ratio>, scores: seq<Ratio>)
    requires |cands| > 0 && |scores| == |cands|
    requires forall k :: 0 <= k < |cands| ==> cands[k] in probabilities
    requires forall k :: 0 <= k < |cands| ==> scores[k] == probabilities[cands[k]]
    requires forall k :: 0 <= k < |cands| ==> WellFormed(scores[k])
    ensures var nextWord := cands[FirstArgMax(scores)];
            && (forall w :: w in cands ==> LessEq(probabilities[w], probabilities[nextWord]))
            && (forall k :: 0 <= k < |cands| && nextWord !in cands[..k + 1] ==>
                  Less(probabilities[cands[k]], probabilities[nextWord]))
  {
    var best := FirstArgMax(scores);
    var nextWord := cands[best];
    forall k | 0 <= k < |cands| && nextWord !in cands[..k + 1]
      ensures Less(probabilities[cands[k]], probabilities[nextWord])
    {
      assert scores[k] == probabilities[cands[k]];
    }
    forall w | w in cands ensures LessEq(probabilities[w], probabilities[nextWord]) {
      var k :| 0 <= k < |cands| && cands[k] == w;
      assert scores[k] == probabilities[w];
    }
  }

  /** `predict_next_word`, scores without the logarithm. */
  function PredictNextWord(previousTokens: seq<Token>, ngramCounts: Table<NGram>,
                           nplus1gramCounts: Table<NGram>, vocab: seq<Token>,
                           startOfWord: Option<string>): (r: Result<Prediction>)
    ensures |ngramCounts| == 0 ==> r == Err(EmptyModel)
    ensures |ngramCounts| > 0 && Candidates(vocab, startOfWord) == [] ==> r == Err(NoCandidates)
    ensures r.Ok? <==> |ngramCounts| > 0 && Candidates(vocab, startOfWord) != []
    ensures r.Ok? ==>
      var cands := Candidates(vocab, startOfWord);
      var p := r.value;
      && p.nextWord in cands
      && (forall w :: w in p.probabilities <==> w in cands)
      && p.maxProbability == p.probabilities[p.nextWord]
      && (forall w :: w in cands ==> WellFormed(p.probabilities[w]))
      && (forall w :: w in cands ==> LessEq(p.probabilities[w], p.maxProbability))
      && (forall k :: 0 <= k < |cands| && p.nextWord !in cands[..k + 1] ==>
            Less(p.probabilities[cands[k]], p.maxProbability))
  {
    if |ngramCounts| == 0 then Err(EmptyModel)
    else
      var n := Arity(ngramCounts);
      var lastNgram := LastNgram(previousTokens, n);
      var cands := Candidates(vocab, startOfWord);
      var probabilities := map w | w in cands ::
        SmoothedRatio(w, lastNgram, ngramCounts, nplus1gramCounts, |cands|);
      if |cands| == 0 then Err(NoCandidates)
      else
        var scores := seq(|cands|, k requires 0 <= k < |cands| => probabilities[cands[k]]);
        var best := FirstArgMax(scores);
        var nextWord := cands[best];
        ArgMaxOfCandidates(cands, probabilities, scores);
        Ok(Prediction(nextWord, probabilities[nextWord], probabilities))
  }

  /** The score map holds, for each candidate, the smoothed ratio of its
      (n+1)-gram after the last n tokens, over the size of the filtered
      vocabulary (not the whole vocabulary). */
  lemma PredictionScores(previousTokens: seq<Token>, ngramCounts: Table<NGram>,
                         nplus1gramCounts: Table<NGram>, vocab: seq<Token>,
                         startOfWord: Option<string>, w: Token)
    requires PredictNextWord(previousTokens, ngramCounts, nplus1gramCounts, vocab, startOfWord).Ok?
    requires w in Candidates(vocab, startOfWord)
    ensures var cands := Candidates(vocab, startOfWord);
            var lastNgram := LastNgram(previousTokens, Arity(ngramCounts));
            var p := PredictNextWord(previousTokens, ngramCounts, nplus1gramCounts, vocab, startOfWord).value;
            CalculateProbability(w, lastNgram, ngramCounts, nplus1gramCounts, |cands|) == Ok(p.probabilities[w])
  {
  }

  /** The predicted word is a candidate whose (n+1)-gram count after the
      context is the largest; every candidate before it counts strictly less. */
  lemma {:induction false} PredictionMaximizesCount(previousTokens: seq<Token>, ngramCounts: Table<NGram>,
                                                    nplus1gramCounts: Table<NGram>, vocab: seq<Token>,
                                                    startOfWord: Option<string>)
    requires PredictNextWord(previousTokens, ngramCounts, nplus1gramCounts, vocab, startOfWord).Ok?
    ensures var cands := Candidates(vocab, startOfWord);
            var lastNgram := LastNgram(previousTokens, Arity(ngramCounts));
            var next := PredictNextWord(previousTokens, ngramCounts, nplus1gramCounts, vocab, startOfWord).value.nextWord;
            && (forall w :: w in cands ==>
                  Get(nplus1gramCounts, lastNgram + [w]) <= Get(nplus1gramCounts, lastNgram + [next]))
            && (forall k :: 0 <= k < |cands| && next !in cands[..k + 1] ==>
                  Get(nplus1gramCounts, lastNgram + [cands[k]]) < Get(nplus1gramCounts, lastNgram + [next]))
  {
    var cands := Candidates(vocab, startOfWord);
    var lastNgram := LastNgram(previousTokens, Arity(ngramCounts));
    var p := PredictNextWord(previousTokens, ngramCounts, nplus1gramCounts, vocab, startOfWord).value;
    forall w | w in cands
      ensures Get(nplus1gramCounts, lastNgram + [w]) <= Get(nplus1gramCounts, lastNgram + [p.nextWord])
    {
      ScoreOrder(w, p.nextWord, lastNgram, ngramCounts, nplus1gramCounts, |cands|);
    }
    forall k | 0 <= k < |cands| && p.nextWord !in cands[..k + 1]
      ensures Get(nplus1gramCounts, lastNgram + [cands[k]]) < Get(nplus1gramCounts, lastNgram + [p.nextWord])
    {
      ScoreOrder(cands[k], p.nextWord, lastNgram, ngramCounts, nplus1gramCounts, |cands|);
    }
  }

  /** A worked case: after "i am", with the bigram ("i", "am") seen 10 times
      and the trigram ("i", "am", "happy") 8 times, "happy" beats "sad". */
  lemma PredictsHappy()
    ensures var ngramCounts: Table<NGram> := [(["i", "am"], 10)];
            var nplus1gramCounts: Table<NGram> := [(["i", "am", "happy"], 8)];
            var r := PredictNextWord(["i", "am"], ngramCounts, nplus1gramCounts, ["happy", "sad"], None);
            r.Ok? && r.value.nextWord == "happy"
  {
    var ngramCounts: Table<NGram> := [(["i", "am"], 10)];
    var nplus1gramCounts: Table<NGram> := [(["i", "am", "happy"], 8)];
    var tokens, vocab := ["i", "am"], ["happy", "sad"];
    assert Candidates(vocab, None) == vocab;
    var r := PredictNextWord(tokens, ngramCounts, nplus1gramCounts, vocab, None);
    assert r.Ok?;
    PredictionMaximizesCount(tokens, ngramCounts, nplus1gramCounts, vocab, None);
    var lastNgram := LastNgram(tokens, Arity(ngramCounts));
    assert Arity(ngramCounts) == 2;
    assert lastNgram == tokens;
    var happy, sad := lastNgram + ["happy"], lastNgram + ["sad"];
    assert happy == nplus1gramCounts[0].0;
    GetEntry(nplus1gramCounts, 0);
    assert sad[2] != happy[2];
    GetMissing(nplus1gramCounts, sad);
    assert "happy" in vocab;
    assert r.value.nextWord in vocab;
  }
}
