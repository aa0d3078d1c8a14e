/**
 * Feedback facts, the candidate filter and feedback derivation of the
 * solver: the `Position` and `GameState` records, `hasP`,
 * `getAvailableWords` and `getGameState`.
 */
module Game {
  import opened Seqs

  /** A word of the vocabulary or a guess: lower-case letters. */
  type Word = string

  /**
   * One fact learnt from a guess: letter `c` was guessed at slot `pos`;
   * `correct` tells whether the secret holds `c` at that slot too
   * (otherwise the secret holds `c` elsewhere).
   */
  datatype Position = Position(pos: int, c: char, correct: bool)

  /** Everything learnt so far in one round. */
  datatype GameState = GameState(positions: seq<Position>, guesses: seq<Word>, deadLetters: seq<char>)

  /**
   * `w[i] === c` in JavaScript: reading outside the word yields
   * `undefined`, which equals no letter.
   */
  predicate LetterAt(w: Word, i: int, c: char) {
    0 <= i < |w| && w[i] == c
  }

  /** `hasP`: does word `w` agree with the fact `p`? */
  function HasP(p: Position, w: Word): (r: bool)
    ensures p.correct ==> (r <==> LetterAt(w, p.pos, p.c))
    ensures r ==> p.c in w
    ensures !p.correct ==>
      (r <==> !LetterAt(w, p.pos, p.c) && exists i :: 0 <= i < |w| && i != p.pos && w[i] == p.c)
  {
    if p.correct then LetterAt(w, p.pos, p.c) else !LetterAt(w, p.pos, p.c) && p.c in w
  }

  /** The dead-letter test of `getAvailableWords`: `indexOf` finds none of them. */
  predicate AvoidsDead(dead: seq<char>, w: Word) {
    forall l :: l in dead ==> IndexOf(w, l) == -1
  }

  /** The positional test of `getAvailableWords`: every fact holds. */
  predicate MeetsAll(positions: seq<Position>, w: Word) {
    forall p :: p in positions ==> HasP(p, w)
  }

  /** A word is still a candidate: it holds no dead letter and agrees with every fact. */
  predicate Admits(gs: GameState, w: Word) {
    (forall l :: l in gs.deadLetters ==> l !in w) && MeetsAll(gs.positions, w)
  }

  /**
   * `getAvailableWords`: drop the words holding a dead letter, then the
   * words failing a fact; each pass is skipped when it has nothing to test.
   */
  function GetAvailableWords(vocab: seq<Word>, gs: GameState): (r: seq<Word>)
    ensures forall w :: w in r <==> w in vocab && Admits(gs, w)
    ensures |gs.positions| == 0 && |gs.deadLetters| == 0 ==> r == vocab
  {
    var filteredDeadLetters :=
      if |gs.deadLetters| > 0 then Filter(w => AvoidsDead(gs.deadLetters, w), vocab) else vocab;
    if |gs.positions| > 0 then Filter(w => MeetsAll(gs.positions, w), filteredDeadLetters)
    else filteredDeadLetters
  }

  /**
   * The two passes of `GetAvailableWords` are one filter by `Admits`: the
   * result keeps the vocabulary's order and multiplicities.
   */
  lemma AvailableIsFilter(vocab: seq<Word>, gs: GameState)
    ensures GetAvailableWords(vocab, gs) == Filter(w => Admits(gs, w), vocab)
  {
    var dead := w => AvoidsDead(gs.deadLetters, w);
    var facts := w => MeetsAll(gs.positions, w);
    var admits := w => Admits(gs, w);
    var afterDead := if |gs.deadLetters| > 0 then Filter(dead, vocab) else vocab;
    assert forall w :: AvoidsDead(gs.deadLetters, w) <==> (forall l :: l in gs.deadLetters ==> l !in w);
    if |gs.deadLetters| > 0 {
      if |gs.positions| > 0 {
        FilterFilter(dead, facts, admits, vocab);
      } else {
        FilterExt(dead, admits, vocab);
      }
    } else if |gs.positions| > 0 {
      FilterExt(facts, admits, vocab);
    } else {
      FilterAll(admits, vocab);
    }
  }

  /**
   * Monotone narrowing: with more facts and more dead letters, the
   * candidates are those of the smaller state that also pass the larger
   * one's tests, so the list can only shrink, keeping its order.
   */
  lemma Narrowing(vocab: seq<Word>, gs1: GameState, gs2: GameState)
    requires forall p :: p in gs1.positions ==> p in gs2.positions
    requires forall l :: l in gs1.deadLetters ==> l in gs2.deadLetters
    ensures GetAvailableWords(vocab, gs2) == Filter(w => Admits(gs2, w), GetAvailableWords(vocab, gs1))
    ensures forall w :: w in GetAvailableWords(vocab, gs2) ==> w in GetAvailableWords(vocab, gs1)
  {
    var admits1 := w => Admits(gs1, w);
    var admits2 := w => Admits(gs2, w);
    AvailableIsFilter(vocab, gs1);
    AvailableIsFilter(vocab, gs2);
    FilterFilter(admits1, admits2, admits2, vocab);
  }

  /** Filtering the candidates again by the same state changes nothing. */
  lemma FilterIdempotent(vocab: seq<Word>, gs: GameState)
    ensures GetAvailableWords(GetAvailableWords(vocab, gs), gs) == GetAvailableWords(vocab, gs)
  {
    var admits := w => Admits(gs, w);
    AvailableIsFilter(vocab, gs);
    AvailableIsFilter(GetAvailableWords(vocab, gs), gs);
    FilterFilter(admits, admits, admits, vocab);
  }

  /** `guesses.flatMap(g => g.split(""))`: every guessed letter, in order. */
  function Letters(guesses: seq<Word>): (r: seq<char>)
    ensures forall l :: l in r <==> exists g :: g in guesses && l in g
  {
    if guesses == [] then [] else guesses[0] + Letters(guesses[1..])
  }

  /** `g.split("").map((l, p) => ...)`: one fact per slot of guess `g` against `secret`. */
  function Label(g: Word, secret: Word): (r: seq<Position>)
    ensures |r| == |g|
  {
    seq(|g|, p requires 0 <= p < |g| => Position(p, g[p], LetterAt(secret, p, g[p])))
  }

  /** `guesses.flatMap(g => ...)`: the facts of every guess, guess after guess. */
  function Labels(guesses: seq<Word>, secret: Word): (r: seq<Position>)
    ensures forall f :: f in r <==>
      exists g :: g in guesses && 0 <= f.pos < |g| && f.c == g[f.pos] && f.correct == LetterAt(secret, f.pos, f.c)
  {
    if guesses == [] then []
    else
      var g := guesses[0];
      assert forall f :: f in Label(g, secret) <==>
        0 <= f.pos < |g| && f.c == g[f.pos] && f.correct == LetterAt(secret, f.pos, f.c) by {
        forall f: Position | 0 <= f.pos < |g| && f.c == g[f.pos] && f.correct == LetterAt(secret, f.pos, f.c)
          ensures f in Label(g, secret)
        {
          assert Label(g, secret)[f.pos] == f;
        }
      }
      Label(g, secret) + Labels(guesses[1..], secret)
  }

  /**
   * `getGameState`: the facts and dead letters a round with these guesses
   * against `secret` has produced. Facts are kept only for letters the
   * secret holds; dead letters are the distinct guessed letters it lacks.
   */
  function GetGameState(guesses: seq<Word>, secret: Word): (gs: GameState)
    ensures gs.guesses == guesses
  {
    var letters := Uniq(Letters(guesses));
    var positions := Filter((p: Position) => p.c in secret, Labels(guesses, secret));
    GameState(positions, guesses, Filter(l => l !in secret, letters))
  }

  /**
   * What `GetGameState` records: exactly one fact per guessed slot whose
   * letter the secret holds, each marked correct exactly when the secret
   * has that letter at that slot; the dead letters are exactly the guessed
   * letters the secret lacks, without repeats; no letter is both.
   */
  lemma GameStateShape(guesses: seq<Word>, secret: Word)
    ensures var gs := GetGameState(guesses, secret);
      && (forall f :: f in gs.positions <==>
            && f.c in secret
            && f.correct == LetterAt(secret, f.pos, f.c)
            && exists g :: g in guesses && 0 <= f.pos < |g| && f.c == g[f.pos])
      && |gs.positions| == |Filter(l => l in secret, Letters(guesses))|
      && (forall l :: l in gs.deadLetters <==> l !in secret && exists g :: g in guesses && l in g)
      && NoDups(gs.deadLetters)
      && (forall f, l :: f in gs.positions && l in gs.deadLetters ==> f.c != l)
  {
    var inSecret := l => l in secret;
    var factInSecret := (p: Position) => p.c in secret;
    LabelsCount(guesses, secret, inSecret, factInSecret);
    FilterNoDups(l => l !in secret, Uniq(Letters(guesses)));
  }

  /** The facts of `guesses` that name a letter of the secret number the guessed letters the secret holds. */
  lemma {:induction false} LabelsCount(guesses: seq<Word>, secret: Word, inSecret: char -> bool, factInSecret: Position -> bool)
    requires forall l :: inSecret(l) == (l in secret)
    requires forall p :: factInSecret(p) == (p.c in secret)
    ensures |Filter(factInSecret, Labels(guesses, secret))| == |Filter(inSecret, Letters(guesses))|
  {
    if guesses != [] {
      var g := guesses[0];
      FilterConcat(factInSecret, Label(g, secret), Labels(guesses[1..], secret));
      FilterConcat(inSecret, g, Letters(guesses[1..]));
      FilterSameLength(factInSecret, inSecret, Label(g, secret), g);
      LabelsCount(guesses[1..], secret, inSecret, factInSecret);
    }
  }

  /** Two sequences tested element by element with matching outcomes keep equally many elements. */
  lemma {:induction false} FilterSameLength<T(!new), U(!new)>(f: T -> bool, g: U -> bool, a: seq<T>, b: seq<U>)
    requires |a| == |b|
    requires forall i :: 0 <= i < |a| ==> f(a[i]) == g(b[i])
    ensures |Filter(f, a)| == |Filter(g, b)|
  {
    if a != [] {
      assert forall i :: 0 <= i < |a[1..]| ==> a[1..][i] == a[i + 1] && b[1..][i] == b[i + 1];
      FilterSameLength(f, g, a[1..], b[1..]);
    }
  }

  /**
   * Feedback soundness: the secret always survives the facts derived from
   * its own feedback, whatever was guessed.
   */
  lemma SecretSurvives(vocab: seq<Word>, guesses: seq<Word>, secret: Word)
    requires secret in vocab
    ensures secret in GetAvailableWords(vocab, GetGameState(guesses, secret))
  {
    var gs := GetGameState(guesses, secret);
    forall p | p in gs.positions ensures HasP(p, secret) {
      assert p in Labels(guesses, secret);
    }
  }

  /**
   * Guessing the secret itself yields one correct fact per slot and no
   * dead letter.
   */
  lemma GuessingTheSecret(secret: Word)
    ensures var gs := GetGameState([secret], secret);
      && |gs.positions| == |secret|
      && (forall f :: f in gs.positions ==> f.correct)
      && gs.deadLetters == []
  {
    assert Letters([secret]) == secret by {
      assert [secret][1..] == [];
    }
    assert Labels([secret], secret) == Label(secret, secret) by {
      assert [secret][1..] == [];
    }
    FilterAll((p: Position) => p.c in secret, Label(secret, secret));
    FilterNone(l => l !in secret, Uniq(secret));
  }

  /**
   * A guess sharing no letter with the secret yields no fact, and each of
   * its distinct letters becomes dead.
   */
  lemma GuessingNoSharedLetter(g: Word, secret: Word)
    requires forall l :: l in g ==> l !in secret
    ensures var gs := GetGameState([g], secret);
      && gs.positions == []
      && gs.deadLetters == Uniq(g)
  {
    assert Letters([g]) == g by {
      assert [g][1..] == [];
    }
    assert Labels([g], secret) == Label(g, secret) by {
      assert [g][1..] == [];
    }
    assert forall f :: f in Label(g, secret) ==> f.c in g by {
      forall f | f in Label(g, secret) ensures f.c in g {
        var p :| 0 <= p < |g| && Label(g, secret)[p] == f;
      }
    }
    FilterNone((p: Position) => p.c in secret, Label(g, secret));
    FilterAll(l => l !in secret, Uniq(g));
  }
}
