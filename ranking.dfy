/**
 * The ranking step, `makeGuess`: a fixed opening table on the first turn,
 * otherwise the score dictionary as (word, score) pairs, stably sorted by
 * descending score (lodash `_.toPairs` then `_.sortBy` on the negated score).
 */
module Ranking {
  import opened Seqs
  import opened Game
  import opened Scoring

  /** A proposed guess and its score. */
  type ScoredWord = (Word, int)

  /** The precomputed ranking returned before anything is known. */
  const Opening: seq<ScoredWord> := [
    ("aloes", 69452),
    ("tares", 68967),
    ("nares", 68666),
    ("rates", 68664),
    ("tales", 68495),
    ("cares", 68309),
    ("lanes", 68309),
    ("lores", 68297),
    ("roles", 68207),
    ("earls", 68049)
  ]

  /** `_.toPairs`: the entries of the dictionary in key insertion order. */
  function ToPairs(rec: Record): (r: seq<ScoredWord>)
    requires ValidRecord(rec)
    ensures |r| == |rec.keys|
    ensures forall i :: 0 <= i < |r| ==> r[i].0 == rec.keys[i]
    ensures forall p :: p in r <==> p.0 in rec.vals && p.1 == rec.vals[p.0]
  {
    var r := seq(|rec.keys|, i requires 0 <= i < |rec.keys| => (rec.keys[i], rec.vals[rec.keys[i]]));
    assert forall p: ScoredWord :: p.0 in rec.vals && p.1 == rec.vals[p.0] ==> p in r by {
      forall p: ScoredWord | p.0 in rec.vals && p.1 == rec.vals[p.0] ensures p in r {
        var i :| 0 <= i < |rec.keys| && rec.keys[i] == p.0;
        assert r[i] == p;
      }
    }
    r
  }

  /** Scores never increase along the list. */
  predicate SortedDesc(s: seq<ScoredWord>) {
    forall i, j :: 0 <= i < j < |s| ==> s[i].1 >= s[j].1
  }

  /** The entries with score `k`, in their order in `s`. */
  function WithScore(s: seq<ScoredWord>, k: int): seq<ScoredWord> {
    if s == [] then [] else (if s[0].1 == k then [s[0]] else []) + WithScore(s[1..], k)
  }

  /** Insert `x` before the first entry whose score does not exceed its own. */
  function Insert(x: ScoredWord, s: seq<ScoredWord>): seq<ScoredWord> {
    if s == [] then [x]
    else if x.1 >= s[0].1 then [x] + s
    else [s[0]] + Insert(x, s[1..])
  }

  /** Insertion adds `x` and loses nothing. */
  lemma {:induction false} InsertPerm(x: ScoredWord, s: seq<ScoredWord>)
    ensures multiset(Insert(x, s)) == multiset([x] + s)
  {
    if s != [] && x.1 < s[0].1 {
      InsertPerm(x, s[1..]);
      assert s == [s[0]] + s[1..];
    }
  }

  /** An entry is selected by its own score and by no other. */
  lemma {:induction false} WithScoreMember(s: seq<ScoredWord>, k: int, y: ScoredWord)
    ensures y in WithScore(s, k) <==> y in s && y.1 == k
  {
    if s != [] {
      WithScoreMember(s[1..], k, y);
    }
  }

  /** Insertion adds `x` and nothing else. */
  lemma {:induction false} InsertMember(x: ScoredWord, s: seq<ScoredWord>, y: ScoredWord)
    ensures y in Insert(x, s) <==> y == x || y in s
  {
    if s != [] && x.1 < s[0].1 {
      InsertMember(x, s[1..], y);
      assert s == [s[0]] + s[1..];
    }
  }

  /** Inserting into a list sorted by descending score keeps it sorted. */
  lemma {:induction false} InsertSorted(x: ScoredWord, s: seq<ScoredWord>)
    requires SortedDesc(s)
    ensures SortedDesc(Insert(x, s))
  {
    if s != [] && x.1 < s[0].1 {
      var rest := Insert(x, s[1..]);
      InsertSorted(x, s[1..]);
      forall j | 0 <= j < |rest| ensures s[0].1 >= rest[j].1 {
        InsertMember(x, s[1..], rest[j]);
      }
      var r := [s[0]] + rest;
      assert r == Insert(x, s);
      forall i, j | 0 <= i < j < |r| ensures r[i].1 >= r[j].1 {
        assert r[j] == rest[j - 1];
        if i > 0 {
          assert r[i] == rest[i - 1];
        }
      }
    }
  }

  /** Selecting one score distributes over concatenation. */
  lemma {:induction false} WithScoreConcat(a: seq<ScoredWord>, b: seq<ScoredWord>, k: int)
    ensures WithScore(a + b, k) == WithScore(a, k) + WithScore(b, k)
  {
    if a == [] {
      assert a + b == b;
    } else {
      var head := if a[0].1 == k then [a[0]] else [];
      calc {
        WithScore(a + b, k);
        { assert (a + b)[0] == a[0] && (a + b)[1..] == a[1..] + b; }
        head + WithScore(a[1..] + b, k);
        { WithScoreConcat(a[1..], b, k); }
        head + (WithScore(a[1..], k) + WithScore(b, k));
        (head + WithScore(a[1..], k)) + WithScore(b, k);
        WithScore(a, k) + WithScore(b, k);
      }
    }
  }

  /** A single entry is selected exactly when it has the score. */
  lemma WithScoreSingle(y: ScoredWord, k: int)
    ensures WithScore([y], k) == if y.1 == k then [y] else []
  {
    assert [y][1..] == [];
  }

  /** The first entry is among the entries of its own score. */
  lemma HeadSelected(c: seq<ScoredWord>)
    requires c != []
    ensures c[0] in WithScore(c, c[0].1)
  {
  }

  /** Insertion passes only entries of strictly higher score, so each score's entries keep their order. */
  lemma {:induction false} InsertStable(x: ScoredWord, s: seq<ScoredWord>, k: int)
    ensures WithScore(Insert(x, s), k) == WithScore([x] + s, k)
  {
    if s != [] && x.1 < s[0].1 {
      InsertStable(x, s[1..], k);
      InsertStableStep(x, s, k);
    }
  }

  /** One step of `InsertStable`: `x` moves past the higher-scored head of `s`. */
  lemma InsertStableStep(x: ScoredWord, s: seq<ScoredWord>, k: int)
    requires s != [] && x.1 < s[0].1
    requires WithScore(Insert(x, s[1..]), k) == WithScore([x] + s[1..], k)
    ensures WithScore(Insert(x, s), k) == WithScore([x] + s, k)
  {
    var rest := Insert(x, s[1..]);
    var wx, w0, wt := WithScore([x], k), WithScore([s[0]], k), WithScore(s[1..], k);
    WithScoreSingle(x, k);
    WithScoreSingle(s[0], k);
    assert wx + w0 == w0 + wx by {
      if x.1 == k {
        assert w0 == [];
      } else {
        assert wx == [];
      }
    }
    calc {
      WithScore(Insert(x, s), k);
      { assert Insert(x, s) == [s[0]] + rest; }
      WithScore([s[0]] + rest, k);
      { WithScoreConcat([s[0]], rest, k); }
      w0 + WithScore(rest, k);
      w0 + WithScore([x] + s[1..], k);
      { WithScoreConcat([x], s[1..], k); }
      w0 + (wx + wt);
      (w0 + wx) + wt;
      (wx + w0) + wt;
      { WithScoreConcat([x], [s[0]], k); }
      WithScore([x] + [s[0]], k) + wt;
      { WithScoreConcat([x] + [s[0]], s[1..], k); }
      WithScore(([x] + [s[0]]) + s[1..], k);
      { assert ([x] + [s[0]]) + s[1..] == [x] + s; }
      WithScore([x] + s, k);
    }
  }

  /**
   * `_.sortBy(pairs, pair => -1 * pair[1])`: a stable sort by descending
   * score, by insertion.
   */
  function SortByScoreDesc(s: seq<ScoredWord>): (r: seq<ScoredWord>)
    ensures SortedDesc(r)
    ensures multiset(r) == multiset(s)
    ensures forall k :: WithScore(r, k) == WithScore(s, k)
  {
    if s == [] then []
    else
      assert s == [s[0]] + s[1..];
      var rest := SortByScoreDesc(s[1..]);
      InsertSorted(s[0], rest);
      InsertPerm(s[0], rest);
      forall k ensures WithScore(Insert(s[0], rest), k) == WithScore(s, k) {
        InsertStable(s[0], rest, k);
        WithScoreConcat([s[0]], rest, k);
        WithScoreConcat([s[0]], s[1..], k);
      }
      Insert(s[0], rest)
  }

  /**
   * Two non-empty sorted lists with the same entries per score start with
   * the same entry, and their tails again have the same entries per score.
   */
  lemma HeadsAgree(a: seq<ScoredWord>, b: seq<ScoredWord>)
    requires a != [] && b != []
    requires SortedDesc(a) && SortedDesc(b)
    requires forall k :: WithScore(a, k) == WithScore(b, k)
    ensures a[0] == b[0]
    ensures forall k :: WithScore(a[1..], k) == WithScore(b[1..], k)
  {
    var ka, kb := a[0].1, b[0].1;
    WithScoreMember(b, ka, a[0]);
    WithScoreMember(a, kb, b[0]);
    assert ka == kb;
    assert WithScore(a, ka)[0] == a[0];
    assert WithScore(b, ka)[0] == b[0];
    forall k ensures WithScore(a[1..], k) == WithScore(b[1..], k) {
      var head := if a[0].1 == k then [a[0]] else [];
      assert WithScore(a[1..], k) == WithScore(a, k)[|head|..];
      assert WithScore(b[1..], k) == WithScore(b, k)[|head|..];
    }
  }

  /**
   * A stable descending sort is determined by its specification: two lists
   * sorted by descending score that list the entries of every score in the
   * same order are equal.
   */
  lemma {:induction false} SortedStableUnique(a: seq<ScoredWord>, b: seq<ScoredWord>)
    requires SortedDesc(a) && SortedDesc(b)
    requires forall k :: WithScore(a, k) == WithScore(b, k)
    ensures a == b
  {
    if a == [] && b == [] {
    } else if a == [] || b == [] {
      HeadSelected(if a == [] then b else a);
      assert false;
    } else {
      HeadsAgree(a, b);
      SortedStableUnique(a[1..], b[1..]);
    }
  }

  /**
   * `makeGuess`: before anything is known, the opening table; otherwise
   * every scored word, best first, ties in vocabulary order.
   */
  function MakeGuess(vocab: seq<Word>, gs: GameState): (r: seq<ScoredWord>)
    ensures |gs.positions| == 0 && |gs.deadLetters| == 0 ==> r == Opening
    ensures |gs.positions| > 0 || |gs.deadLetters| > 0 ==>
      var pairs := ToPairs(ScoreTable(vocab, gs));
      && SortedDesc(r)
      && multiset(r) == multiset(pairs)
      && forall k :: WithScore(r, k) == WithScore(pairs, k)
  {
    if |gs.positions| == 0 && |gs.deadLetters| == 0 then Opening
    else SortByScoreDesc(ToPairs(ScoreTable(vocab, gs)))
  }

  /**
   * Once something is known, the ranking holds exactly the vocabulary words
   * not yet guessed, each with its score from the score table, which is
   * never negative.
   */
  lemma MakeGuessEntries(vocab: seq<Word>, gs: GameState)
    requires |gs.positions| > 0 || |gs.deadLetters| > 0
    ensures var r := MakeGuess(vocab, gs);
      var table := ScoreTable(vocab, gs);
      && (forall p :: p in r ==> p.0 in vocab && p.0 !in gs.guesses && p.1 == table.vals[p.0] && p.1 >= 0)
      && (forall w :: w in vocab && w !in gs.guesses ==> (w, table.vals[w]) in r)
  {
    ScoreTableKeys(vocab, gs);
    PermutedPairs(MakeGuess(vocab, gs), ScoreTable(vocab, gs));
  }

  /** A rearrangement of a dictionary's pairs holds exactly its entries. */
  lemma PermutedPairs(r: seq<ScoredWord>, rec: Record)
    requires ValidRecord(rec)
    requires multiset(r) == multiset(ToPairs(rec))
    ensures forall p :: p in r <==> p.0 in rec.vals && p.1 == rec.vals[p.0]
  {
    forall p | p in r ensures p in ToPairs(rec) {
      assert p in multiset(r);
    }
    forall p | p in ToPairs(rec) ensures p in r {
      assert p in multiset(ToPairs(rec));
    }
  }

  /** The ranking has one entry per distinct vocabulary word not yet guessed. */
  lemma MakeGuessLength(vocab: seq<Word>, gs: GameState)
    requires |gs.positions| > 0 || |gs.deadLetters| > 0
    ensures |MakeGuess(vocab, gs)| == |Uniq(WordsToScore(vocab, gs.guesses))|
  {
    var r := MakeGuess(vocab, gs);
    var pairs := ToPairs(ScoreTable(vocab, gs));
    assert |multiset(r)| == |multiset(pairs)|;
  }

  /**
   * The ranking is the stable descending sort of the score pairs: any list
   * sorted by descending score that keeps the pairs' order among equal
   * scores is the ranking.
   */
  lemma MakeGuessIsStableSort(vocab: seq<Word>, gs: GameState, r': seq<ScoredWord>)
    requires |gs.positions| > 0 || |gs.deadLetters| > 0
    requires SortedDesc(r')
    requires forall k :: WithScore(r', k) == WithScore(ToPairs(ScoreTable(vocab, gs)), k)
    ensures r' == MakeGuess(vocab, gs)
  {
    SortedStableUnique(r', MakeGuess(vocab, gs));
  }

  /** Entries of equal score appear in the order of their words in `vocab`. */
  predicate TiesInOrder(vocab: seq<Word>, s: seq<ScoredWord>) {
    forall i, j :: 0 <= i < j < |s| && s[i].1 == s[j].1 ==> IndexOf(vocab, s[i].0) < IndexOf(vocab, s[j].0)
  }

  /** Every entry comes before the later ones in `vocab`. */
  predicate InVocabOrder(vocab: seq<Word>, t: seq<ScoredWord>) {
    forall a, b :: 0 <= a < b < |t| ==> IndexOf(vocab, t[a].0) < IndexOf(vocab, t[b].0)
  }

  /** When ties are in vocabulary order, the entries of each score are. */
  lemma {:induction false} TiesGiveSelectedOrder(vocab: seq<Word>, s: seq<ScoredWord>, k: int)
    requires TiesInOrder(vocab, s)
    ensures InVocabOrder(vocab, WithScore(s, k))
  {
    if s != [] {
      var t := s[1..];
      assert TiesInOrder(vocab, t) by {
        forall i, j | 0 <= i < j < |t| && t[i].1 == t[j].1
          ensures IndexOf(vocab, t[i].0) < IndexOf(vocab, t[j].0)
        {
          assert t[i] == s[i + 1] && t[j] == s[j + 1];
        }
      }
      TiesGiveSelectedOrder(vocab, t, k);
      var w, wt := WithScore(s, k), WithScore(t, k);
      if s[0].1 == k {
        assert w == [s[0]] + wt;
        forall b | 0 <= b < |wt| ensures IndexOf(vocab, s[0].0) < IndexOf(vocab, wt[b].0) {
          WithScoreMember(t, k, wt[b]);
          var j :| 0 <= j < |t| && t[j] == wt[b];
          assert s[j + 1] == wt[b];
        }
        forall a, b | 0 <= a < b < |w| ensures IndexOf(vocab, w[a].0) < IndexOf(vocab, w[b].0) {
          assert w[b] == wt[b - 1];
          if a > 0 {
            assert w[a] == wt[a - 1];
          }
        }
      } else {
        assert w == wt;
      }
    }
  }

  /** When the entries of every score are in vocabulary order, so are all ties. */
  lemma {:induction false} SelectedOrderGivesTies(vocab: seq<Word>, s: seq<ScoredWord>)
    requires forall k :: InVocabOrder(vocab, WithScore(s, k))
    ensures TiesInOrder(vocab, s)
  {
    if s != [] {
      var t := s[1..];
      forall k ensures InVocabOrder(vocab, WithScore(t, k)) {
        SelectedOrderTail(vocab, s, k);
      }
      SelectedOrderGivesTies(vocab, t);
      forall i, j | 0 <= i < j < |s| && s[i].1 == s[j].1
        ensures IndexOf(vocab, s[i].0) < IndexOf(vocab, s[j].0)
      {
        if i == 0 {
          HeadBeforeTies(vocab, s, j);
        } else {
          assert s[i] == t[i - 1] && s[j] == t[j - 1];
        }
      }
    }
  }

  /** Dropping the first entry keeps each score's entries in vocabulary order. */
  lemma SelectedOrderTail(vocab: seq<Word>, s: seq<ScoredWord>, k: int)
    requires s != []
    requires InVocabOrder(vocab, WithScore(s, k))
    ensures InVocabOrder(vocab, WithScore(s[1..], k))
  {
    var w, wt := WithScore(s, k), WithScore(s[1..], k);
    var h := if s[0].1 == k then [s[0]] else [];
    assert w == h + wt;
    forall a, b | 0 <= a < b < |wt| ensures IndexOf(vocab, wt[a].0) < IndexOf(vocab, wt[b].0) {
      assert wt[a] == w[a + |h|] && wt[b] == w[b + |h|];
    }
  }

  /** The first entry comes before every later entry of its score in vocabulary order. */
  lemma HeadBeforeTies(vocab: seq<Word>, s: seq<ScoredWord>, j: int)
    requires 0 < j < |s| && s[0].1 == s[j].1
    requires InVocabOrder(vocab, WithScore(s, s[0].1))
    ensures IndexOf(vocab, s[0].0) < IndexOf(vocab, s[j].0)
  {
    var k, t := s[0].1, s[1..];
    var w, wt := WithScore(s, k), WithScore(t, k);
    assert s[j] == t[j - 1];
    WithScoreMember(t, k, s[j]);
    var b := IndexOf(wt, s[j]);
    assert w == [s[0]] + wt;
    assert w[0] == s[0] && w[b + 1] == s[j];
  }

  /**
   * After the first turn, entries of equal score are ranked in the order
   * their words first occur in the vocabulary.
   */
  lemma MakeGuessTies(vocab: seq<Word>, gs: GameState)
    requires |gs.positions| > 0 || |gs.deadLetters| > 0
    ensures var r := MakeGuess(vocab, gs);
      forall i, j :: 0 <= i < j < |r| && r[i].1 == r[j].1 ==> IndexOf(vocab, r[i].0) < IndexOf(vocab, r[j].0)
  {
    var table := ScoreTable(vocab, gs);
    var pairs := ToPairs(table);
    var ws := WordsToScore(vocab, gs.guesses);
    ScoreTableKeys(vocab, gs);
    UniqOrder(ws);
    assert TiesInOrder(vocab, pairs) by {
      forall i, j | 0 <= i < j < |pairs| && pairs[i].1 == pairs[j].1
        ensures IndexOf(vocab, pairs[i].0) < IndexOf(vocab, pairs[j].0)
      {
        WordsToScoreOrder(vocab, gs.guesses, table.keys[i], table.keys[j]);
      }
    }
    var r := MakeGuess(vocab, gs);
    forall k ensures InVocabOrder(vocab, WithScore(r, k)) {
      TiesGiveSelectedOrder(vocab, pairs, k);
    }
    SelectedOrderGivesTies(vocab, r);
  }
}
