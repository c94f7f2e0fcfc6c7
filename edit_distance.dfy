/** Candidate strings one, two and three edits away from a word
    (src/utils/text_processing/edit_distance.py). */
module EditDistance {

  /** The letters of substitutions and insertions. */
  const Letters: string := "abcdefghijklmnopqrstuvwxyz"

  /** The i-th split `(word[:i], word[i:])`; the splits run over i in 0..|word|. */
  function Split(word: string, i: nat): (s: (string, string))
    requires i <= |word|
    ensures s.0 + s.1 == word && |s.0| == i
  {
    (word[..i], word[i..])
  }

  /** The concatenation of a list of lists, in order. */
  function Flatten<T>(xss: seq<seq<T>>): seq<T>
  {
    if |xss| == 0 then [] else xss[0] + Flatten(xss[1..])
  }

  /** The set of the elements of a list (Python's `set(list)`). */
  function Elements<T>(s: seq<T>): set<T>
  {
    set x | x in s
  }

  // The four candidate lists. A split has a non-empty right part exactly
  // when i < |word|, and a right part of length at least 2 when i < |word| - 1.

  /** `[L + R[1:] for L, R in splits if R]` */
  function Deletes(word: string): seq<string>
  {
    seq(|word|, i requires 0 <= i < |word| =>
      var (L, R) := Split(word, i); L + R[1..])
  }

  /** `[L + R[1] + R[0] + R[2:] for L, R in splits if len(R) > 1]` */
  function Transposes(word: string): seq<string>
  {
    seq(if |word| == 0 then 0 else |word| - 1, i requires 0 <= i < |word| - 1 =>
      var (L, R) := Split(word, i); L + [R[1]] + [R[0]] + R[2..])
  }

  /** `[L + c + R[1:] for L, R in splits if R for c in letters]` */
  function Replaces(word: string): seq<string>
  {
    Flatten(seq(|word|, i requires 0 <= i < |word| =>
      var (L, R) := Split(word, i);
      seq(|Letters|, j requires 0 <= j < |Letters| => L + [Letters[j]] + R[1..])))
  }

  /** `[L + c + R for L, R in splits for c in letters]` */
  function Inserts(word: string): seq<string>
  {
    Flatten(seq(|word| + 1, i requires 0 <= i <= |word| =>
      var (L, R) := Split(word, i);
      seq(|Letters|, j requires 0 <= j < |Letters| => L + [Letters[j]] + R)))
  }

  /** `deletes + transposes + replaces + inserts` */
  function Candidates1(word: string): seq<string>
  {
    Deletes(word) + Transposes(word) + Replaces(word) + Inserts(word)
  }

  /** `edits1(word)`: the set of the four lists. */
  function Edits1(word: string): set<string>
  {
    Elements(Candidates1(word))
  }

  /** `edits2(word)`: edits1 applied to every member of edits1(word). */
  function Edits2(word: string): set<string>
  {
    set e1, e2 | e1 in Edits1(word) && e2 in Edits1(e1) :: e2
  }

  /** `edits3(word)`: edits1 applied three times, as the source nests it. */
  function Edits3(word: string): set<string>
  {
    set e1, e2, e3 | e1 in Edits1(word) && e2 in Edits1(e1) && e3 in Edits1(e2) :: e3
  }

  // ---------------------------------------------------------------------
  // A reference definition of "one edit away", on the word itself.

  function Deleted(word: string, i: nat): string
    requires i < |word|
  {
    word[..i] + word[i + 1..]
  }

  function Transposed(word: string, i: nat): string
    requires i + 1 < |word|
  {
    word[..i] + [word[i + 1], word[i]] + word[i + 2..]
  }

  function Replaced(word: string, i: nat, c: char): string
    requires i < |word|
  {
    word[..i] + [c] + word[i + 1..]
  }

  function Inserted(word: string, i: nat, c: char): string
    requires i <= |word|
  {
    word[..i] + [c] + word[i..]
  }

  /** e is one deletion, adjacent transposition, substitution by a letter
      or insertion of a letter away from word. */
  ghost predicate OneEdit(word: string, e: string)
  {
    || (exists i: nat :: i < |word| && e == Deleted(word, i))
    || (exists i: nat :: i + 1 < |word| && e == Transposed(word, i))
    || (exists i: nat, c :: i < |word| && c in Letters && e == Replaced(word, i, c))
    || (exists i: nat, c :: i <= |word| && c in Letters && e == Inserted(word, i, c))
  }

  /** Every character of e is a character of word or a letter. */
  ghost predicate OverAlphabet(word: string, e: string)
  {
    forall c :: c in e ==> c in word || c in Letters
  }

  // ---------------------------------------------------------------------
  // Lemmas about the helpers.

  lemma {:induction false} FlattenMember<T>(xss: seq<seq<T>>, x: T)
    ensures x in Flatten(xss) <==> exists i :: 0 <= i < |xss| && x in xss[i]
  {
    if |xss| > 0 {
      FlattenMember(xss[1..], x);
      if x in Flatten(xss[1..]) {
        var i :| 0 <= i < |xss[1..]| && x in xss[1..][i];
        assert x in xss[i + 1];
      }
      if exists i :: 0 <= i < |xss| && x in xss[i] {
        var i :| 0 <= i < |xss| && x in xss[i];
        if i > 0 {
          assert x in xss[1..][i - 1];
        }
      }
    }
  }

  lemma {:induction false} FlattenLength<T>(xss: seq<seq<T>>, k: nat)
    requires forall i :: 0 <= i < |xss| ==> |xss[i]| == k
    ensures |Flatten(xss)| == k * |xss|
  {
    if |xss| > 0 {
      FlattenLength(xss[1..], k);
    }
  }

  lemma {:induction false} ElementsSize<T>(s: seq<T>)
    ensures |Elements(s)| <= |s|
  {
    if |s| > 0 {
      var init := s[..|s| - 1];
      assert s == init + [s[|s| - 1]];
      assert Elements(s) == Elements(init) + {s[|s| - 1]};
      ElementsSize(init);
    }
  }

  // ---------------------------------------------------------------------
  // What each list holds.

  lemma DeletesMember(word: string, e: string)
    ensures e in Deletes(word) <==> exists i: nat :: i < |word| && e == Deleted(word, i)
  {
    var d := Deletes(word);
    forall i: nat | i < |word| ensures d[i] == Deleted(word, i) {
      assert word[i..][1..] == word[i + 1..];
    }
    if e in d {
      var i :| 0 <= i < |d| && d[i] == e;
      assert e == Deleted(word, i);
    }
  }

  lemma TransposesMember(word: string, e: string)
    ensures e in Transposes(word) <==> exists i: nat :: i + 1 < |word| && e == Transposed(word, i)
  {
    var t := Transposes(word);
    forall i: nat | i + 1 < |word| ensures t[i] == Transposed(word, i) {
      assert word[i..][2..] == word[i + 2..];
    }
    if e in t {
      var i :| 0 <= i < |t| && t[i] == e;
      assert e == Transposed(word, i);
    }
  }

  lemma ReplacesMember(word: string, e: string)
    ensures e in Replaces(word) <==>
      exists i: nat, c :: i < |word| && c in Letters && e == Replaced(word, i, c)
  {
    var blocks := seq(|word|, i requires 0 <= i < |word| =>
      var (L, R) := Split(word, i);
      seq(|Letters|, j requires 0 <= j < |Letters| => L + [Letters[j]] + R[1..]));
    assert Replaces(word) == Flatten(blocks);
    FlattenMember(blocks, e);
    forall i: nat, j | i < |word| && 0 <= j < |Letters|
      ensures blocks[i][j] == Replaced(word, i, Letters[j])
    {
      assert word[i..][1..] == word[i + 1..];
    }
    if e in Replaces(word) {
      var i :| 0 <= i < |blocks| && e in blocks[i];
      var j :| 0 <= j < |blocks[i]| && blocks[i][j] == e;
      assert e == Replaced(word, i, Letters[j]);
    }
    if exists i: nat, c :: i < |word| && c in Letters && e == Replaced(word, i, c) {
      var i: nat, c :| i < |word| && c in Letters && e == Replaced(word, i, c);
      var j :| 0 <= j < |Letters| && Letters[j] == c;
      assert blocks[i][j] == e;
    }
  }

  lemma InsertsMember(word: string, e: string)
    ensures e in Inserts(word) <==>
      exists i: nat, c :: i <= |word| && c in Letters && e == Inserted(word, i, c)
  {
    var blocks := seq(|word| + 1, i requires 0 <= i <= |word| =>
      var (L, R) := Split(word, i);
      seq(|Letters|, j requires 0 <= j < |Letters| => L + [Letters[j]] + R));
    assert Inserts(word) == Flatten(blocks);
    FlattenMember(blocks, e);
    if e in Inserts(word) {
      var i :| 0 <= i < |blocks| && e in blocks[i];
      var j :| 0 <= j < |blocks[i]| && blocks[i][j] == e;
      assert e == Inserted(word, i, Letters[j]);
    }
    if exists i: nat, c :: i <= |word| && c in Letters && e == Inserted(word, i, c) {
      var i: nat, c :| i <= |word| && c in Letters && e == Inserted(word, i, c);
      var j :| 0 <= j < |Letters| && Letters[j] == c;
      assert blocks[i][j] == e;
    }
  }

  // ---------------------------------------------------------------------
  // Properties of edits1.

  /** edits1 holds exactly the strings one edit away from the word. */
  lemma Edits1Exact(word: string, e: string)
    ensures e in Edits1(word) <==> OneEdit(word, e)
  {
    DeletesMember(word, e);
    TransposesMember(word, e);
    ReplacesMember(word, e);
    InsertsMember(word, e);
  }

  /** Deletions shorten the word by one, transpositions and substitutions
      keep its length, insertions lengthen it by one. */
  lemma CandidateLengths(word: string)
    ensures forall e :: e in Deletes(word) ==> |e| == |word| - 1
    ensures forall e :: e in Transposes(word) ==> |e| == |word|
    ensures forall e :: e in Replaces(word) ==> |e| == |word|
    ensures forall e :: e in Inserts(word) ==> |e| == |word| + 1
  {
    forall e | e in Deletes(word) ensures |e| == |word| - 1 {
      DeletesMember(word, e);
    }
    forall e | e in Transposes(word) ensures |e| == |word| {
      TransposesMember(word, e);
    }
    forall e | e in Replaces(word) ensures |e| == |word| {
      ReplacesMember(word, e);
    }
    forall e | e in Inserts(word) ensures |e| == |word| + 1 {
      InsertsMember(word, e);
    }
  }

  lemma Edits1Lengths(word: string)
    ensures forall e :: e in Edits1(word) ==> |word| - 1 <= |e| <= |word| + 1
  {
    CandidateLengths(word);
  }

  /** The empty word has one split, ("", ""), so only insertions apply:
      edits1("") is the 26 one-letter strings. */
  lemma Edits1OfEmpty()
    ensures Edits1("") == set c | c in Letters :: [c]
  {
    var singles := set c | c in Letters :: [c];
    forall e | e in Edits1("") ensures e in singles {
      OnlyInsertsOfEmpty(e);
      assert e == [e[0]];
    }
    forall c | c in Letters ensures [c] in Edits1("") {
      InsertsMember("", [c]);
      assert [c] == Inserted("", 0, c);
    }
  }

  lemma OnlyInsertsOfEmpty(e: string)
    requires e in Edits1("")
    ensures |e| == 1 && e[0] in Letters
  {
    var w: string := "";
    assert Deletes(w) == [] && Transposes(w) == [] && Replaces(w) == [];
    assert e in Inserts(w);
    InsertsMember(w, e);
    var i: nat, c :| i <= 0 && c in Letters && e == Inserted(w, i, c);
    assert e == [c];
  }

  /** A word can be edited into itself: one of its characters is a letter
      (substitute it by itself) or two adjacent characters are equal
      (transpose them). */
  ghost predicate SelfEditable(word: string)
  {
    || (exists i :: 0 <= i < |word| && word[i] in Letters)
    || (exists i :: 0 <= i < |word| - 1 && word[i] == word[i + 1])
  }

  /** The word is in its own edits1 exactly when it is self-editable; so
      every non-empty word of letters is, and the empty word is not. */
  lemma SelfInEdits1(word: string)
    ensures word in Edits1(word) <==> SelfEditable(word)
  {
    if SelfEditable(word) {
      SelfEditableInEdits1(word);
    }
    if word in Edits1(word) {
      InEdits1SelfEditable(word);
    }
  }

  lemma SelfEditableInEdits1(word: string)
    requires SelfEditable(word)
    ensures word in Edits1(word)
  {
    if i :| 0 <= i < |word| && word[i] in Letters {
      ReplacementInEdits1(word, i, word[i]);
      SplitAt(word, i);
    } else {
      var i :| 0 <= i < |word| - 1 && word[i] == word[i + 1];
      TranspositionInEdits1(word, i);
      SwapOfEqual(word, i);
    }
  }

  /** A word is its prefix, the character at i and the rest. */
  lemma SplitAt(word: string, i: nat)
    requires i < |word|
    ensures word[..i] + [word[i]] + word[i + 1..] == word
  {
  }

  /** Swapping two equal adjacent characters gives the word back. */
  lemma SwapOfEqual(word: string, i: nat)
    requires i + 1 < |word| && word[i] == word[i + 1]
    ensures word[..i] + [word[i + 1], word[i]] + word[i + 2..] == word
  {
    assert word[i + 1..] == [word[i + 1]] + word[i + 2..];
    SplitAt(word, i);
  }

  lemma InEdits1SelfEditable(word: string)
    requires word in Edits1(word)
    ensures SelfEditable(word)
  {
    CandidateLengths(word);
    if word in Transposes(word) {
      TransposesMember(word, word);
      var i: nat :| i + 1 < |word| && word == Transposed(word, i);
      assert word[i] == Transposed(word, i)[i];
    } else {
      assert word in Replaces(word);
      ReplacesMember(word, word);
      var i: nat, c :| i < |word| && c in Letters && word == Replaced(word, i, c);
      assert word[i] == Replaced(word, i, c)[i];
    }
  }

  /** Deleting the character at any position gives a member of edits1. */
  lemma DeletionInEdits1(word: string, i: nat)
    requires i < |word|
    ensures word[..i] + word[i + 1..] in Edits1(word)
  {
    Edits1Exact(word, Deleted(word, i));
  }

  /** Swapping any two adjacent characters gives a member of edits1. */
  lemma TranspositionInEdits1(word: string, i: nat)
    requires i + 1 < |word|
    ensures word[..i] + [word[i + 1], word[i]] + word[i + 2..] in Edits1(word)
  {
    Edits1Exact(word, Transposed(word, i));
  }

  /** Substituting a letter at any position gives a member of edits1. */
  lemma ReplacementInEdits1(word: string, i: nat, c: char)
    requires i < |word| && c in Letters
    ensures word[..i] + [c] + word[i + 1..] in Edits1(word)
  {
    Edits1Exact(word, Replaced(word, i, c));
  }

  /** edits1 has at most as many members as the four lists have entries. */
  lemma {:induction false} Edits1Size(word: string)
    ensures |Edits1(word)| <= |word| + (if |word| == 0 then 0 else |word| - 1)
                              + 26 * |word| + 26 * (|word| + 1)
  {
    var rblocks := seq(|word|, i requires 0 <= i < |word| =>
      var (L, R) := Split(word, i);
      seq(|Letters|, j requires 0 <= j < |Letters| => L + [Letters[j]] + R[1..]));
    var iblocks := seq(|word| + 1, i requires 0 <= i <= |word| =>
      var (L, R) := Split(word, i);
      seq(|Letters|, j requires 0 <= j < |Letters| => L + [Letters[j]] + R));
    assert Replaces(word) == Flatten(rblocks);
    assert Inserts(word) == Flatten(iblocks);
    FlattenLength(rblocks, 26);
    FlattenLength(iblocks, 26);
    ElementsSize(Candidates1(word));
  }

  /** Every character of a member of edits1 is a character of the word or
      a letter. */
  lemma Edits1Alphabet(word: string)
    ensures forall e :: e in Edits1(word) ==> OverAlphabet(word, e)
  {
    forall e | e in Edits1(word) ensures OverAlphabet(word, e) {
      Edits1Exact(word, e);
      OneEditAlphabet(word, e);
    }
  }

  lemma OneEditAlphabet(word: string, e: string)
    ensures OneEdit(word, e) ==> OverAlphabet(word, e)
  {
    forall c | OneEdit(word, e) && c in e ensures c in word || c in Letters {
      if i: nat :| i < |word| && e == Deleted(word, i) {
        assert c in word[..i] || c in word[i + 1..];
      } else if i: nat :| i + 1 < |word| && e == Transposed(word, i) {
        assert c in word[..i] || c in [word[i + 1], word[i]] || c in word[i + 2..];
      } else if i: nat, d :| i < |word| && d in Letters && e == Replaced(word, i, d) {
        assert c in word[..i] || c == d || c in word[i + 1..];
      } else {
        var i: nat, d :| i <= |word| && d in Letters && e == Inserted(word, i, d);
        assert c in word[..i] || c == d || c in word[i..];
      }
    }
  }

  // ---------------------------------------------------------------------
  // Properties of edits2 and edits3.

  /** edits2 holds exactly the strings reached by two successive edits. */
  lemma Edits2Exact(word: string, e: string)
    ensures e in Edits2(word) <==> exists e1 :: OneEdit(word, e1) && OneEdit(e1, e)
  {
    if e in Edits2(word) {
      var e1 :| e1 in Edits1(word) && e in Edits1(e1);
      Edits1Exact(word, e1);
      Edits1Exact(e1, e);
    }
    if exists e1 :: OneEdit(word, e1) && OneEdit(e1, e) {
      var e1 :| OneEdit(word, e1) && OneEdit(e1, e);
      Edits1Exact(word, e1);
      Edits1Exact(e1, e);
    }
  }

  /** edits3 is edits1 applied to every member of edits2. */
  lemma Edits3OverEdits2(word: string)
    ensures Edits3(word) == set e2, e3 | e2 in Edits2(word) && e3 in Edits1(e2) :: e3
  {
  }

  lemma Edits2Lengths(word: string)
    ensures forall e :: e in Edits2(word) ==> |word| - 2 <= |e| <= |word| + 2
  {
    Edits1Lengths(word);
    forall e | e in Edits2(word) ensures |word| - 2 <= |e| <= |word| + 2 {
      var e1 :| e1 in Edits1(word) && e in Edits1(e1);
      Edits1Lengths(e1);
    }
  }

  lemma Edits3Lengths(word: string)
    ensures forall e :: e in Edits3(word) ==> |word| - 3 <= |e| <= |word| + 3
  {
    Edits2Lengths(word);
    Edits3OverEdits2(word);
    forall e | e in Edits3(word) ensures |word| - 3 <= |e| <= |word| + 3 {
      var e2 :| e2 in Edits2(word) && e in Edits1(e2);
      Edits1Lengths(e2);
    }
  }

  lemma Edits2Alphabet(word: string)
    ensures forall e :: e in Edits2(word) ==> OverAlphabet(word, e)
  {
    Edits1Alphabet(word);
    forall e | e in Edits2(word) ensures OverAlphabet(word, e) {
      var e1 :| e1 in Edits1(word) && e in Edits1(e1);
      Edits1Alphabet(e1);
    }
  }

  lemma Edits3Alphabet(word: string)
    ensures forall e :: e in Edits3(word) ==> OverAlphabet(word, e)
  {
    Edits2Alphabet(word);
    Edits3OverEdits2(word);
    forall e | e in Edits3(word) ensures OverAlphabet(word, e) {
      var e2 :| e2 in Edits2(word) && e in Edits1(e2);
      Edits1Alphabet(e2);
    }
  }

  /** For a self-editable word (every non-empty word of letters is one),
      edits2 contains edits1 and edits3 contains edits2. */
  lemma EditsNested(word: string)
    requires SelfEditable(word)
    ensures Edits1(word) <= Edits2(word)
    ensures Edits2(word) <= Edits3(word)
  {
    SelfInEdits1(word);
    Edits3OverEdits2(word);
  }

  /** Without that condition edits2 need not contain edits1: for a word of
      two different non-letters, such as "12", its transposition ("21") is
      in edits1 but no member of edits1 is one edit away from it. */
  lemma Edits2MissesEdits1(word: string)
    requires |word| == 2 && word[0] != word[1]
    requires word[0] !in Letters && word[1] !in Letters
    ensures Transposed(word, 0) in Edits1(word)
    ensures Transposed(word, 0) !in Edits2(word)
  {
    var swapped := Transposed(word, 0);
    assert swapped == [word[1], word[0]];
    Edits1Exact(word, swapped);
    forall e1 | e1 in Edits1(word) ensures swapped !in Edits1(e1) {
      Edits1Exact(word, e1);
      Edits1Exact(e1, swapped);
      NoDeletionGivesSwap(word, e1);
      NoTranspositionGivesSwap(word, e1);
      NoLetterEditGivesSwap(word, e1);
    }
  }

  /** Substitutions and insertions bring in a letter, which the swap lacks. */
  lemma NoLetterEditGivesSwap(word: string, e1: string)
    requires |word| == 2 && word[0] !in Letters && word[1] !in Letters
    ensures forall i: nat, c :: i < |e1| && c in Letters ==> Replaced(e1, i, c) != [word[1], word[0]]
    ensures forall i: nat, c :: i <= |e1| && c in Letters ==> Inserted(e1, i, c) != [word[1], word[0]]
  {
    forall i: nat, c | i < |e1| && c in Letters ensures Replaced(e1, i, c) != [word[1], word[0]] {
      assert Replaced(e1, i, c)[i] == c;
    }
    forall i: nat, c | i <= |e1| && c in Letters ensures Inserted(e1, i, c) != [word[1], word[0]] {
      assert Inserted(e1, i, c)[i] == c;
    }
  }

  /** Transposing back gives the word itself, which is not in its own edits1. */
  lemma NoTranspositionGivesSwap(word: string, e1: string)
    requires |word| == 2 && word[0] != word[1]
    requires word[0] !in Letters && word[1] !in Letters
    ensures forall i: nat :: i + 1 < |e1| && Transposed(e1, i) == [word[1], word[0]] ==> !OneEdit(word, e1)
  {
    SelfInEdits1(word);
    Edits1Exact(word, word);
    forall i: nat | i + 1 < |e1| && Transposed(e1, i) == [word[1], word[0]] ensures !OneEdit(word, e1) {
      assert e1[0] == Transposed(e1, i)[1] && e1[1] == Transposed(e1, i)[0];
      assert e1 == word;
    }
  }

  /** The length-3 members of edits1 are the word with a letter inserted;
      deleting one character never yields the swap. */
  lemma NoDeletionGivesSwap(word: string, e1: string)
    requires |word| == 2 && word[0] != word[1]
    requires word[0] !in Letters && word[1] !in Letters
    ensures OneEdit(word, e1) ==> forall i: nat :: i < |e1| ==> Deleted(e1, i) != [word[1], word[0]]
  {
    if OneEdit(word, e1) && |e1| == 3 {
      LongerIsInsertion(word, e1);
      var j: nat, c :| j <= |word| && c in Letters && e1 == Inserted(word, j, c);
      DeletionsOfInsertion(word, j, c);
    }
  }

  lemma LongerIsInsertion(word: string, e: string)
    requires OneEdit(word, e) && |e| == |word| + 1
    ensures exists j: nat, c :: j <= |word| && c in Letters && e == Inserted(word, j, c)
  {
    CandidateLengths(word);
    Edits1Exact(word, e);
    InsertsMember(word, e);
  }

  lemma DeletionsOfInsertion(word: string, j: nat, c: char)
    requires |word| == 2 && word[0] != word[1] && j <= 2
    requires c != word[0] && c != word[1]
    ensures forall i: nat :: i < 3 ==> Deleted(Inserted(word, j, c), i) != [word[1], word[0]]
  {
    var e1 := Inserted(word, j, c);
    if j == 0 {
      assert e1 == [c, word[0], word[1]];
      assert Deleted(e1, 0) == [word[0], word[1]];
      assert Deleted(e1, 1) == [c, word[1]];
      assert Deleted(e1, 2) == [c, word[0]];
    } else if j == 1 {
      assert e1 == [word[0], c, word[1]];
      assert Deleted(e1, 0) == [c, word[1]];
      assert Deleted(e1, 1) == [word[0], word[1]];
      assert Deleted(e1, 2) == [word[0], c];
    } else {
      assert e1 == [word[0], word[1], c];
      assert Deleted(e1, 0) == [word[1], c];
      assert Deleted(e1, 1) == [word[0], c];
      assert Deleted(e1, 2) == [word[0], word[1]];
    }
  }
}
