# Wordle solver engine, modelled in Dafny

This project models the constraint-and-scoring engine of a Wordle solver
(`src/App.tsx`, lines 6–103). The engine has five parts:

- **Feedback derivation (`getGameState`).** From the guesses made so far
  and the secret, it derives the facts a round has produced.
  - Each fact is a `Position` (slot, letter, correct). Facts are kept only
    for guessed letters that the secret holds.
  - The dead letters are the distinct guessed letters that the secret lacks.
- **Constraint check (`hasP`).** It decides whether a word agrees with one
  fact.
- **Candidate filter (`getAvailableWords`).** It narrows the vocabulary to
  the words that hold no dead letter and agree with every fact.
- **Scoring (`subtractArr`, `similarity`, `scoreWords`).** Every vocabulary
  word not yet guessed gets a score:
  - the sum of its pairwise similarities to the remaining candidates
  - plus a bonus of 50 when the word is itself a candidate
  - The letters of correct facts are ignored while at most four of them are
    known.
- **Ranking (`makeGuess`).** On the first turn it returns a fixed opening
  table. Later turns return the score pairs stably sorted by descending
  score.

Modules:

- `Seqs` (`seqs.dfy`): the array and lodash operations the engine is built
  from — `filter`, `indexOf` and `_.uniq`, with their algebra.
- `Game` (`game.dfy`): the records, `hasP`, the candidate filter and
  feedback derivation. It proves that feedback is sound and that filtering
  narrows monotonically.
- `Scoring` (`scoring.dfy`):
  - similarity and its bounds
  - the score dictionary, specified as the function `ScoreTable`
  - `scoreWords` written as the loops it runs:
    - `SumSimilarity`, the inner `reduce`, is proved to compute `TotalSimilarity`
    - `ReduceScores`, the outer `reduce`, is proved to build `ScoreEntries`
    - `ScoreWords` is proved to return `ScoreTable`
- `Ranking` (`ranking.dfy`): `_.toPairs`, a stable descending insertion sort
  and `makeGuess`. It proves that this stable sort is the only list with
  its specification.

The vocabulary (the imported `words` module) is an explicit parameter
`vocab`.

JavaScript returns `undefined` when a string is read outside its bounds, and
that equals no letter. The predicate `Game.LetterAt` models this directly.
So no operation requires equal word lengths or in-range slots; every
property holds for words of any length.

## Model

| member | source | states |
|---|---|---|
| Game.HasP | src/App.tsx:18-19 | A correct fact holds iff the word has the letter at that slot. A misplaced fact holds iff the letter is not at that slot but occurs at some other slot. A fact that holds names a letter of the word. |
| Game.GetAvailableWords | src/App.tsx:21-30 | A word is returned iff it is in the vocabulary, holds no dead letter and satisfies every fact. With no facts and no dead letters, the vocabulary is returned unchanged. |
| Game.AvailableIsFilter | src/App.tsx:21-30 | The two conditional passes equal one filter of the vocabulary by "admits". So the result is a subsequence of the vocabulary in its order, with its multiplicities. |
| Game.Narrowing | src/App.tsx:21-30 | With more facts and more dead letters, the candidates are exactly the earlier candidates that also pass the larger state's tests. So the set only shrinks and keeps its order. |
| Game.FilterIdempotent | src/App.tsx:21-30 | Filtering the candidates again by the same state returns them unchanged. |
| Game.Letters | src/App.tsx:88 | The flattened letters of the guesses are exactly the letters that occur in some guess. |
| Game.Label | src/App.tsx:89-95 | Labelling one guess yields one fact per slot of the guess. |
| Game.Labels | src/App.tsx:89-95 | A fact is produced iff some guess has its letter at its slot, and it is marked correct exactly when the secret has that letter at that slot. |
| Game.GetGameState | src/App.tsx:87-103 | The guesses are returned unchanged. |
| Game.GameStateShape | src/App.tsx:88-101 | Facts are exactly the labelled slots whose letter the secret holds; there is one fact per guessed letter occurrence that the secret holds. Dead letters are exactly the guessed letters the secret lacks, with no repeats. No letter is both a fact's letter and dead. |
| Game.LabelsCount | src/App.tsx:89-96 | Keeping the facts whose letter the secret holds keeps as many facts as there are guessed letter occurrences the secret holds. |
| Game.SecretSurvives | src/App.tsx:87-103 | Feedback soundness: a secret in the vocabulary is always among the candidates of the state its own feedback produces. |
| Game.GuessingTheSecret | src/App.tsx:87-103 | Guessing the secret yields one fact per slot, all correct, and no dead letter. |
| Game.GuessingNoSharedLetter | src/App.tsx:87-103 | A guess sharing no letter with the secret yields no fact, and its distinct letters, in first-occurrence order, are the dead letters. |
| Seqs.Filter | src/App.tsx:36 | Filtering keeps exactly the elements that pass, and is never longer than its input. |
| Seqs.IndexOf | src/App.tsx:42 | `indexOf` returns -1 iff the element is absent; otherwise it returns the first index holding the element. |
| Seqs.Uniq | src/App.tsx:88 | `_.uniq` has no repeats, is never longer than its input and holds exactly the input's elements. |
| Seqs.UniqOrder | src/App.tsx:52 | `_.uniq` lists the distinct elements in the order of their first occurrence. |
| Seqs.UniqNoDups | src/App.tsx:52 | `_.uniq` leaves a sequence without repeats unchanged. |
| Seqs.NoDupsCard | src/App.tsx:52-53 | A sequence without repeats, such as the result of `_.uniq`, has as many elements as its set of elements. |
| Seqs.FilterIndexOrder | src/App.tsx:50 | Filtering keeps the relative order of first occurrences. |
| Scoring.AlphabetNoDups | src/App.tsx:34 | The alphabet lists each letter once. |
| Scoring.SubtractArr | src/App.tsx:36 | The result holds exactly the letters of the first list that are not in the second, and has no repeats when the first list has none. |
| Scoring.Similarity | src/App.tsx:38-47 | The similarity is never negative. It is 0 iff no active letter of the first word occurs in the second. Otherwise it exceeds the base of 10. |
| Scoring.SimilarityBounds | src/App.tsx:38-47 | For letters without repeats: letters in place ≤ shared letters ≤ distinct letters of the first word ≤ its length. So a similarity is at most 10 + 2 × the first word's distinct letters. |
| Scoring.TotalSimilarity | src/App.tsx:56-59 | The summed similarity is never negative, and it is 0 iff every pairwise similarity is 0. |
| Scoring.TotalSimilarityStep | src/App.tsx:56-59 | Each step of the inner `reduce` adds the next candidate's similarity to the sum so far. |
| Scoring.TotalSimilarityBound | src/App.tsx:56-59 | The summed similarity is at most one maximal similarity per candidate. |
| Scoring.WordScore | src/App.tsx:56-60 | A word's score is never negative. A candidate's score is at least the bonus of 50. A non-candidate with only zero similarities scores exactly 0. |
| Scoring.CorrectLetters | src/App.tsx:52 | The letters returned are exactly the letters of the correct facts. |
| Scoring.IgnoredLetters | src/App.tsx:52-53 | The ignored letters have no repeats and number at most 4, and each comes from a correct fact. With more than 4 distinct correct letters, none is ignored. Otherwise exactly the letters of the correct facts are ignored. |
| Scoring.IgnoredLettersLocked | src/App.tsx:52-53 | Measured as a set of distinct locked letters: with more than 4, none is ignored; otherwise the ignored letters are exactly the locked ones. |
| Scoring.Put | src/App.tsx:56 | Assigning `acc[word]` keeps the dictionary well formed and updates exactly that key. |
| Scoring.PutTwice | src/App.tsx:56-60 | Storing twice under one key equals storing the second value once. |
| Scoring.ScoreEntries | src/App.tsx:55-62 | The dictionary built from a word list has the distinct words as keys, in first-occurrence order. Each key maps to its word's score. |
| Scoring.ScoreEntriesStep | src/App.tsx:55-62 | Processing one more word stores that word's score into the dictionary built so far. |
| Scoring.WordsToScore | src/App.tsx:50 | The words to score are exactly the vocabulary words not yet guessed. |
| Scoring.WordsToScoreOrder | src/App.tsx:50 | The words to score keep the order of their first occurrence in the vocabulary. |
| Scoring.ScoreTable | src/App.tsx:49-64 | The score dictionary is well formed, and its keys are exactly the vocabulary words not yet guessed. |
| Scoring.ScoreTableKeys | src/App.tsx:49-64 | The keys are exactly the vocabulary words not yet guessed, without repeats and in vocabulary order. Every score is at least 0. |
| Scoring.ScoreTableValues | src/App.tsx:49-64 | A word's score is its summed similarity to the candidates, plus 50 exactly when the word is itself a candidate. |
| Scoring.ScoreTableBound | src/App.tsx:49-64 | No score exceeds the number of candidates × (10 + 2 × the word's distinct letters), plus 50. |
| Scoring.SumSimilarity | src/App.tsx:56-59 | The inner `reduce` loop computes the summed similarity. |
| Scoring.ReduceScores | src/App.tsx:55-62 | The outer `reduce` loop stores the summed similarity and then overwrites it with the bonus. It builds exactly the specified dictionary, whose keys are the words scored. |
| Scoring.ScoreWords | src/App.tsx:49-64 | `scoreWords` returns the score dictionary: keyed by exactly the vocabulary words not yet guessed, with no negative score. |
| Ranking.ToPairs | src/App.tsx:82 | `_.toPairs` yields one pair per key, in key insertion order, and a pair is listed iff it is a key with its value. |
| Ranking.InsertPerm | src/App.tsx:82 | Insertion adds the new pair and loses nothing: a permutation. |
| Ranking.InsertMember | src/App.tsx:82 | Insertion adds the new pair and nothing else. |
| Ranking.InsertSorted | src/App.tsx:82 | Inserting into a list sorted by descending score keeps it sorted. |
| Ranking.InsertStable | src/App.tsx:82 | Insertion keeps the order of the pairs within each score. |
| Ranking.WithScoreMember | src/App.tsx:82 | Selecting one score keeps exactly the pairs with that score. |
| Ranking.SortByScoreDesc | src/App.tsx:82 | `_.sortBy` on the negated score yields a list sorted by descending score. It is a permutation of its input, and equal scores keep their input order (stable). |
| Ranking.SortedStableUnique | src/App.tsx:82 | Two lists sorted by descending score that order each score's pairs alike are equal: a stable sort has one result. |
| Ranking.MakeGuess | src/App.tsx:66-85 | With no facts and no dead letters, the ranking is exactly the ten-pair opening table. Otherwise it is the score pairs as a sorted, stable permutation. |
| Ranking.MakeGuessEntries | src/App.tsx:66-85 | After the first turn, every entry is a vocabulary word not yet guessed, with its score from the table, which is not negative. Every such word appears with its score. |
| Ranking.MakeGuessLength | src/App.tsx:81-84 | After the first turn, there is one entry per distinct vocabulary word not yet guessed. |
| Ranking.TiesGiveSelectedOrder | src/App.tsx:82 | If equal scores are in vocabulary order, then the entries of each score are in vocabulary order. |
| Ranking.SelectedOrderGivesTies | src/App.tsx:82 | If the entries of every score are in vocabulary order, then all equal scores are. |
| Ranking.MakeGuessTies | src/App.tsx:81-84 | After the first turn, entries of equal score are ranked in the order their words first occur in the vocabulary. |
| Ranking.MakeGuessIsStableSort | src/App.tsx:81-84 | Any list sorted by descending score that keeps the pairs' order within each score is the ranking. |

## Left out

- The React `App` component (`src/App.tsx:104-176`) is not part of this
  model. It covers session state, the effect that re-runs on every
  render, button handlers and the board rendering.
- The random choice of the secret (`_.sample(words)`, line 129) is not
  modelled. The secret is a parameter of `GetGameState`.
- The `console.log` of the top ten (line 83) is I/O and is not modelled.
- The `words` vocabulary module is not part of this model. It is the
  parameter `vocab`, and equal word lengths are not needed.
- The opening table's numbers are a constant. They are not related to a
  live scoring of the vocabulary, which is not available.
- lodash `_.uniq`, `_.toPairs` and `_.sortBy` are foreign code. `Seqs.Uniq`,
  `Ranking.ToPairs` and `Ranking.SortByScoreDesc` define what they do.
- No error results are modelled because the code has none:
  - no unknown word
  - no invalid feedback
  - no "no consistent candidates"
  - no attempt limit

  An empty candidate list is returned like any other.
- The code keeps duplicate facts (one per guessed letter occurrence), so
  facts are not deduplicated. The feedback-entry mode and the self-play
  round bookkeeping are not in this code.
- Words are taken to be lower-case letters, as the vocabulary's are. The
  model relies on this in two places:
  - Splitting a word into its letters is read as splitting it into Dafny
    characters, whereas JavaScript splits into UTF-16 code units.
  - The score object lists keys in insertion order. JavaScript does so only
    for keys that are not integer-like, which lower-case words never are.
- JavaScript numbers are modelled as unbounded integers. Scores are small
  sums far below the range where a double loses precision.
- The score object of `scoreWords` is modelled as an insertion-ordered
  dictionary. This matches the JavaScript enumeration order for the
  non-numeric keys that words are.
- The ranking is stated over the function `Scoring.ScoreTable`. The method
  `Scoring.ScoreWords` is proved to return that table.
