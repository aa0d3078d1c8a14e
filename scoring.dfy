/**
 * The scorer: `subtractArr`, `similarity` and `scoreWords`. Every
 * vocabulary word not yet guessed gets the sum of its similarities to the
 * remaining candidates, plus a bonus when it is a candidate itself.
 */
module Scoring {
  import opened Seqs
  import opened Game

  /** The letters a word may be made of. */
  const Alphabet: seq<char> := "abcdefghijklmnopqrstuvwxyz"

  /** Bonus for a word that could itself be the secret. */
  const CandidateBonus: int := 50

  /** Base score of a pair of words that share at least one active letter. */
  const SharedBase: int := 10

  /** Locked letters stop being ignored once more than this many are known. */
  const MaxIgnored: nat := 4

  /** The alphabet lists each letter once: its letters are consecutive character codes. */
  lemma AlphabetNoDups()
    ensures NoDups(Alphabet)
  {
    assert forall i :: 0 <= i < |Alphabet| ==> Alphabet[i] as int == 'a' as int + i;
  }

  /** `subtractArr`: the letters of `arr1` that are not in `arr2`, in `arr1`'s order. */
  function SubtractArr(arr1: seq<char>, arr2: seq<char>): (r: seq<char>)
    ensures forall c :: c in r <==> c in arr1 && c !in arr2
    ensures NoDups(arr1) ==> NoDups(r)
  {
    assert NoDups(arr1) ==> NoDups(Filter(c => c !in arr2, arr1)) by {
      if NoDups(arr1) {
        FilterNoDups(c => c !in arr2, arr1);
      }
    }
    Filter(c => c !in arr2, arr1)
  }

  /** The letters of `letters` that `word1` holds and that are not ignored. */
  function ActiveLetters(word1: Word, letters: seq<char>, ignored: seq<char>): seq<char> {
    Filter(l => l in word1 && l !in ignored, letters)
  }

  /** Active letters that also occur somewhere in `word2`. */
  function Shared(word1: Word, word2: Word, letters: seq<char>, ignored: seq<char>): seq<char> {
    Filter(l => l in word2, ActiveLetters(word1, letters, ignored))
  }

  /**
   * Active letters that `word2` holds at the slot of their first occurrence
   * in `word1` (`word2[word1.indexOf(l)] === l`).
   */
  function InPlace(word1: Word, word2: Word, letters: seq<char>, ignored: seq<char>): seq<char> {
    Filter(l => LetterAt(word2, IndexOf(word1, l), l), ActiveLetters(word1, letters, ignored))
  }

  /**
   * `similarity`: 0 when the words share no active letter, otherwise the
   * base score plus the shared letters plus those already in place.
   */
  function Similarity(word1: Word, word2: Word, letters: seq<char>, ignored: seq<char>): (r: int)
    ensures r >= 0
    ensures r == 0 <==> forall l :: l in letters && l in word1 && l !in ignored ==> l !in word2
    ensures r != 0 ==> r > SharedBase
  {
    var shared := Shared(word1, word2, letters, ignored);
    assert |shared| > 0 ==> shared[0] in shared;
    if |shared| > 0 then SharedBase + |shared| + |InPlace(word1, word2, letters, ignored)| else 0
  }

  /**
   * The counts behind `Similarity`: letters in place are among the shared
   * ones, and with a duplicate-free alphabet there are no more shared
   * letters than distinct letters in `word1`; so a similarity never exceeds
   * the base plus twice the length of `word1`.
   */
  lemma SimilarityBounds(word1: Word, word2: Word, letters: seq<char>, ignored: seq<char>)
    requires NoDups(letters)
    ensures |InPlace(word1, word2, letters, ignored)| <= |Shared(word1, word2, letters, ignored)|
    ensures |Shared(word1, word2, letters, ignored)| <= |Uniq(word1)| <= |word1|
    ensures Similarity(word1, word2, letters, ignored) <= MaxSimilarity(word1)
  {
    var active := ActiveLetters(word1, letters, ignored);
    FilterWeakerLength(l => l in word2, l => LetterAt(word2, IndexOf(word1, l), l), active);
    FilterNoDups(l => l in word1 && l !in ignored, letters);
    NoDupsSubsetLength(active, Uniq(word1));
  }

  /**
   * The inner `reduce` of `scoreWords`: similarities of `word` to the
   * candidates, summed left to right.
   */
  function TotalSimilarity(word: Word, available: seq<Word>, letters: seq<char>, ignored: seq<char>): (r: int)
    ensures r >= 0
    ensures r == 0 <==> forall w :: w in available ==> Similarity(word, w, letters, ignored) == 0
  {
    if available == [] then 0
    else
      var init, last := available[..|available| - 1], available[|available| - 1];
      assert available == init + [last];
      TotalSimilarity(word, init, letters, ignored) + Similarity(word, last, letters, ignored)
  }

  /** The largest similarity `word1` can have to any word (see `SimilarityBounds`). */
  function MaxSimilarity(word1: Word): nat {
    SharedBase + 2 * |Uniq(word1)|
  }

  /**
   * With a duplicate-free alphabet, the summed similarity is at most one
   * maximal similarity per candidate.
   */
  lemma {:induction false} TotalSimilarityBound(word: Word, available: seq<Word>, letters: seq<char>, ignored: seq<char>)
    requires NoDups(letters)
    ensures TotalSimilarity(word, available, letters, ignored) <= |available| * MaxSimilarity(word)
  {
    if available != [] {
      var init, last := available[..|available| - 1], available[|available| - 1];
      assert available == init + [last];
      TotalSimilarityBound(word, init, letters, ignored);
      SimilarityBounds(word, last, letters, ignored);
      MulSucc(|init|, MaxSimilarity(word));
    }
  }

  /** One more factor of `m`. */
  lemma MulSucc(n: int, m: int)
    ensures n * m + m == (n + 1) * m
  {
  }

  /** The final score of `word`: total similarity, plus the bonus when it is a candidate. */
  function WordScore(word: Word, available: seq<Word>, letters: seq<char>, ignored: seq<char>): (r: int)
    ensures r >= 0
    ensures word in available ==> r >= CandidateBonus
    ensures word !in available && (forall w :: w in available ==> Similarity(word, w, letters, ignored) == 0) ==> r == 0
  {
    var total := TotalSimilarity(word, available, letters, ignored);
    if word in available then total + CandidateBonus else total
  }

  /** `positions.filter(pos => pos.correct).map(pos => pos.c)`. */
  function CorrectLetters(positions: seq<Position>): (r: seq<char>)
    ensures forall l :: l in r <==> exists p :: p in positions && p.correct && p.c == l
  {
    if positions == [] then []
    else
      var p := positions[0];
      (if p.correct then [p.c] else []) + CorrectLetters(positions[1..])
  }

  /**
   * The letters to ignore: the distinct letters of correct facts, in order
   * of first appearance, or none once more than `MaxIgnored` are known.
   */
  function IgnoredLetters(positions: seq<Position>): (r: seq<char>)
    ensures NoDups(r)
    ensures |r| <= MaxIgnored
    ensures forall l :: l in r ==> exists p :: p in positions && p.correct && p.c == l
    ensures r == [] || forall p :: p in positions && p.correct ==> p.c in r
    ensures |Uniq(CorrectLetters(positions))| > MaxIgnored ==> r == []
    ensures |Uniq(CorrectLetters(positions))| <= MaxIgnored ==>
      forall l :: l in r <==> exists p :: p in positions && p.correct && p.c == l
  {
    var guessedLetters := Uniq(CorrectLetters(positions));
    if |guessedLetters| > MaxIgnored then [] else guessedLetters
  }

  /**
   * The locked letters are ignored exactly while there are at most
   * `MaxIgnored` distinct ones; beyond that none is ignored.
   */
  lemma IgnoredLettersLocked(positions: seq<Position>)
    ensures var locked := set p | p in positions && p.correct :: p.c;
      && (|locked| > MaxIgnored ==> IgnoredLetters(positions) == [])
      && (|locked| <= MaxIgnored ==> forall l :: l in IgnoredLetters(positions) <==> l in locked)
  {
    var u := Uniq(CorrectLetters(positions));
    NoDupsCard(u);
    assert (set p | p in positions && p.correct :: p.c) == (set x | x in u);
  }

  /**
   * The score dictionary of `scoreWords`: keys in insertion order (as
   * JavaScript enumerates an object's string keys) and the value of each.
   */
  datatype Record = Record(keys: seq<Word>, vals: map<Word, int>)

  /** The keys are listed once each, and exactly the keys are listed. */
  predicate ValidRecord(rec: Record) {
    && NoDups(rec.keys)
    && (forall w :: w in rec.keys ==> w in rec.vals)
    && (forall w :: w in rec.vals ==> w in rec.keys)
  }

  /** `acc[word] = value`: a new key goes to the end, an existing one keeps its place. */
  function Put(rec: Record, word: Word, value: int): (r: Record)
    requires ValidRecord(rec)
    ensures ValidRecord(r)
    ensures r.vals == rec.vals[word := value]
  {
    if word in rec.vals then Record(rec.keys, rec.vals[word := value])
    else
      assert NoDups(rec.keys + [word]) by {
        assert forall i :: 0 <= i < |rec.keys| ==> (rec.keys + [word])[i] == rec.keys[i];
      }
      Record(rec.keys + [word], rec.vals[word := value])
  }

  /** Storing twice under one key is storing the second value once. */
  lemma PutTwice(rec: Record, word: Word, v1: int, v2: int)
    requires ValidRecord(rec)
    ensures Put(Put(rec, word, v1), word, v2) == Put(rec, word, v2)
  {
  }

  /** The dictionary after the outer `reduce` has processed `ws`. */
  function ScoreEntries(ws: seq<Word>, available: seq<Word>, letters: seq<char>, ignored: seq<char>): (r: Record)
    ensures ValidRecord(r)
    ensures r.keys == Uniq(ws)
    ensures forall w :: w in r.vals <==> w in ws
    ensures forall w :: w in r.vals ==> r.vals[w] == WordScore(w, available, letters, ignored)
  {
    if ws == [] then Record([], map[])
    else
      var init, last := ws[..|ws| - 1], ws[|ws| - 1];
      assert ws == init + [last];
      Put(ScoreEntries(init, available, letters, ignored), last, WordScore(last, available, letters, ignored))
  }

  /** One more word processed by the outer `reduce`. */
  lemma ScoreEntriesStep(ws: seq<Word>, i: nat, available: seq<Word>, letters: seq<char>, ignored: seq<char>)
    requires i < |ws|
    ensures ScoreEntries(ws[..i + 1], available, letters, ignored)
         == Put(ScoreEntries(ws[..i], available, letters, ignored), ws[i], WordScore(ws[i], available, letters, ignored))
  {
    assert ws[..i + 1][..i] == ws[..i];
  }

  /** The vocabulary words not guessed yet, in vocabulary order. */
  function WordsToScore(vocab: seq<Word>, guesses: seq<Word>): (r: seq<Word>)
    ensures forall w :: w in r <==> w in vocab && w !in guesses
  {
    Filter(w => w !in guesses, vocab)
  }

  /** The words to score keep the vocabulary's order. */
  lemma WordsToScoreOrder(vocab: seq<Word>, guesses: seq<Word>, x: Word, y: Word)
    requires x in WordsToScore(vocab, guesses) && y in WordsToScore(vocab, guesses)
    requires IndexOf(WordsToScore(vocab, guesses), x) < IndexOf(WordsToScore(vocab, guesses), y)
    ensures IndexOf(vocab, x) < IndexOf(vocab, y)
  {
    FilterIndexOrder(w => w !in guesses, vocab, x, y);
  }

  /** What `scoreWords` returns for this vocabulary and game state. */
  function ScoreTable(vocab: seq<Word>, gs: GameState): (r: Record)
    ensures ValidRecord(r)
    ensures forall w :: w in r.vals <==> w in vocab && w !in gs.guesses
  {
    ScoreEntries(WordsToScore(vocab, gs.guesses), GetAvailableWords(vocab, gs),
                 SubtractArr(Alphabet, gs.deadLetters), IgnoredLetters(gs.positions))
  }

  /**
   * The keys of the score table are exactly the vocabulary words not
   * guessed yet, in vocabulary order without repeats, and no score is
   * negative.
   */
  lemma ScoreTableKeys(vocab: seq<Word>, gs: GameState)
    ensures var r := ScoreTable(vocab, gs);
      && r.keys == Uniq(WordsToScore(vocab, gs.guesses))
      && (forall w :: w in r.vals <==> w in vocab && w !in gs.guesses)
      && (forall w :: w in r.vals ==> r.vals[w] >= 0)
  {
  }

  /**
   * Each score is the word's summed similarity to the candidates, plus the
   * bonus exactly when the word is itself a candidate.
   */
  lemma ScoreTableValues(vocab: seq<Word>, gs: GameState, w: Word)
    requires w in vocab && w !in gs.guesses
    ensures ScoreTable(vocab, gs).vals[w]
         == TotalSimilarity(w, GetAvailableWords(vocab, gs), SubtractArr(Alphabet, gs.deadLetters), IgnoredLetters(gs.positions))
            + (if Admits(gs, w) && w in vocab then CandidateBonus else 0)
  {
  }

  /**
   * No score exceeds one maximal similarity per candidate plus the bonus;
   * the available letters repeat no letter, since the alphabet does not.
   */
  lemma ScoreTableBound(vocab: seq<Word>, gs: GameState, w: Word)
    requires w in vocab && w !in gs.guesses
    ensures ScoreTable(vocab, gs).vals[w]
         <= |GetAvailableWords(vocab, gs)| * MaxSimilarity(w) + CandidateBonus
  {
    AlphabetNoDups();
    TotalSimilarityBound(w, GetAvailableWords(vocab, gs), SubtractArr(Alphabet, gs.deadLetters), IgnoredLetters(gs.positions));
  }

  /** One more candidate added to the sum. */
  lemma TotalSimilarityStep(word: Word, available: seq<Word>, j: nat, letters: seq<char>, ignored: seq<char>)
    requires j < |available|
    ensures TotalSimilarity(word, available[..j + 1], letters, ignored)
         == TotalSimilarity(word, available[..j], letters, ignored) + Similarity(word, available[j], letters, ignored)
  {
    assert available[..j + 1][..j] == available[..j];
  }

  /** The inner `reduce` of `scoreWords`, as the loop it runs. */
  method SumSimilarity(word: Word, available: seq<Word>, letters: seq<char>, ignored: seq<char>) returns (total: int)
    ensures total == TotalSimilarity(word, available, letters, ignored)
  {
    total := 0;
    var j := 0;
    while j < |available|
      invariant 0 <= j <= |available|
      invariant total == TotalSimilarity(word, available[..j], letters, ignored)
    {
      TotalSimilarityStep(word, available, j, letters, ignored);
      total := total + Similarity(word, available[j], letters, ignored);
      j := j + 1;
    }
    assert available[..j] == available;
  }

  /**
   * The outer `reduce` of `scoreWords`: fills the score dictionary one word
   * at a time; each word's summed similarity is stored, and the entry is
   * then overwritten with the candidate bonus added.
   */
  method ReduceScores(wordsToScore: seq<Word>, available: seq<Word>, letters: seq<char>, ignored: seq<char>)
    returns (score: Record)
    ensures score == ScoreEntries(wordsToScore, available, letters, ignored)
    ensures forall w :: w in score.vals <==> w in wordsToScore
  {
    score := Record([], map[]);
    var i := 0;
    while i < |wordsToScore|
      invariant 0 <= i <= |wordsToScore|
      invariant score == ScoreEntries(wordsToScore[..i], available, letters, ignored)
    {
      var word := wordsToScore[i];
      var total := SumSimilarity(word, available, letters, ignored);
      ghost var before := score;
      score := Put(score, word, total);
      var entry := if word in available then score.vals[word] + CandidateBonus else score.vals[word];
      assert entry == WordScore(word, available, letters, ignored);
      score := Put(score, word, entry);
      PutTwice(before, word, total, entry);
      assert score == Put(before, word, WordScore(word, available, letters, ignored));
      ScoreEntriesStep(wordsToScore, i, available, letters, ignored);
      i := i + 1;
    }
    assert wordsToScore[..i] == wordsToScore;
  }

  /**
   * `scoreWords`: the score of every vocabulary word not guessed yet,
   * against the candidates of the game state.
   */
  method ScoreWords(vocab: seq<Word>, gs: GameState) returns (score: Record)
    ensures score == ScoreTable(vocab, gs)
    ensures ValidRecord(score)
    ensures forall w :: w in score.vals <==> w in vocab && w !in gs.guesses
    ensures forall w :: w in score.vals ==> score.vals[w] >= 0
  {
    var wordsToScore := WordsToScore(vocab, gs.guesses);
    var availableWords := GetAvailableWords(vocab, gs);
    var ignoredLetters := IgnoredLetters(gs.positions);
    var availableLetters := SubtractArr(Alphabet, gs.deadLetters);
    score := ReduceScores(wordsToScore, availableWords, availableLetters, ignoredLetters);
  }
}
