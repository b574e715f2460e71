/** What a chain of placements built by the generator guarantees: every
    letter on the grid, no cell with two different letters, each later word
    crossing the earlier ones in exactly one cell, and — once validation has
    passed — no letter in the final forbidden zone. */
module PuzzleInvariants {
  import opened Grid
  import opened ForbiddenZone
  import opened Candidates
  import opened Generator

  ghost predicate AllInGrid(ps: seq<WordPlacement>, dims: Dims) {
    forall l :: l in AllLetters(ps) ==> InGrid(dims, l.cell)
  }

  /** Placement `t` writes one of its letters onto a letter already placed. */
  ghost predicate AnchoredAt(ps: seq<WordPlacement>, t: int)
    requires 0 <= t < |ps|
  {
    exists k :: 0 <= k < |ps[t].letters| && ps[t].letters[k] in AllLetters(ps[..t])
  }

  ghost predicate ClearOfZone(ps: seq<WordPlacement>) {
    forall l :: l in AllLetters(ps) ==> !InForbiddenZone(ps, l.cell)
  }

  /** Letters laid out one step apart along an axis sit on distinct cells. */
  lemma ContiguousDistinct(ls: seq<LetterPlacement>, dir: Direction, word: string)
    requires |ls| == |word|
    requires forall i :: 0 <= i < |ls| ==> ls[i] == LetterPlacement(word[i], Shift(ls[0].cell, dir, i))
    ensures forall i, j :: 0 <= i < j < |ls| ==> ls[i].cell != ls[j].cell
  {
    forall i, j | 0 <= i < j < |ls| ensures ls[i].cell != ls[j].cell {
      assert ls[i].cell == Shift(ls[0].cell, dir, i);
      assert ls[j].cell == Shift(ls[0].cell, dir, j);
    }
  }

  /** Adding letters on distinct cells that agree with the lookup wherever
      they land on a placed letter keeps the placed letters consistent. */
  lemma ConsistentExtend(a: seq<LetterPlacement>, b: seq<LetterPlacement>)
    requires Consistent(a)
    requires forall i, j :: 0 <= i < j < |b| ==> b[i].cell != b[j].cell
    requires forall i :: 0 <= i < |b| && b[i].cell in CellsOf(a) ==> LetterMap(a)[b[i].cell] == b[i].letter
    ensures Consistent(a + b)
  {
    var ab := a + b;
    forall i, j | 0 <= i < |ab| && 0 <= j < |ab| && ab[i].cell == ab[j].cell
      ensures ab[i].letter == ab[j].letter
    {
      if i < |a| && j >= |a| {
        LetterMapConsistent(a, i);
        assert ab[j] == b[j - |a|];
      } else if i >= |a| && j < |a| {
        LetterMapConsistent(a, j);
        assert ab[i] == b[i - |a|];
      } else if i >= |a| && j >= |a| {
        assert ab[i] == b[i - |a|] && ab[j] == b[j - |a|];
      }
    }
  }

  /** A legal placement against in-grid letters is itself in the grid: the
      moving coordinate is checked, the fixed one is the anchor's. */
  lemma LegalInGrid(word: string, ps: seq<WordPlacement>, dims: Dims, c: WordPlacement)
    requires LegalPlacement(word, ps, dims, c)
    requires AllInGrid(ps, dims)
    ensures forall i :: 0 <= i < |c.letters| ==> InGrid(dims, c.letters[i].cell)
  {
    var ls := c.letters;
    var k :| 0 <= k < |ls| && ls[k] in AllLetters(ps);
    forall i | 0 <= i < |ls| ensures InGrid(dims, ls[i].cell) {
      assert ls[i].cell == Shift(ls[0].cell, c.dir, i);
      assert ls[k].cell == Shift(ls[0].cell, c.dir, k);
      assert OnAxis(dims, c.dir, ls[i].cell);
    }
  }

  lemma LegalKeepsConsistent(word: string, ps: seq<WordPlacement>, dims: Dims, c: WordPlacement)
    requires LegalPlacement(word, ps, dims, c)
    requires Consistent(AllLetters(ps))
    ensures Consistent(AllLetters(ps) + c.letters)
  {
    ContiguousDistinct(c.letters, c.dir, word);
    ConsistentExtend(AllLetters(ps), c.letters);
  }

  lemma {:induction false} ChainedPrefix(ps: seq<WordPlacement>, dims: Dims)
    requires Chained(ps, dims) && |ps| >= 2
    ensures Chained(ps[..|ps| - 1], dims)
    ensures LegalPlacement(ps[|ps| - 1].word, ps[..|ps| - 1], dims, ps[|ps| - 1])
  {
    var q := ps[..|ps| - 1];
    forall t | 1 <= t < |q| ensures LegalPlacement(q[t].word, q[..t], dims, q[t]) {
      LegalOnShorterPrefix(ps, t, dims);
    }
  }

  lemma {:induction false} LegalOnShorterPrefix(ps: seq<WordPlacement>, t: int, dims: Dims)
    requires 1 <= t < |ps| - 1
    requires LegalPlacement(ps[t].word, ps[..t], dims, ps[t])
    ensures LegalPlacement(ps[..|ps| - 1][t].word, ps[..|ps| - 1][..t], dims, ps[..|ps| - 1][t])
  {
    assert ps[..|ps| - 1][..t] == ps[..t];
  }

  /** Every letter of a chain lies on the grid and no
      cell carries two different letters, provided the first word fits. */
  lemma {:induction false} ChainInGridAndConsistent(ps: seq<WordPlacement>, dims: Dims)
    requires Chained(ps, dims)
    requires |ps[0].word| <= dims.cols && 0 < dims.rows
    ensures AllInGrid(ps, dims)
    ensures Consistent(AllLetters(ps))
    decreases |ps|
  {
    if |ps| == 1 {
      var p := ps[0];
      assert AllLetters(ps) == AllLetters([]) + p.letters;
      ContiguousDistinct(p.letters, Horizontal, p.word);
    } else {
      var q := ps[..|ps| - 1];
      var c := ps[|ps| - 1];
      ChainedPrefix(ps, dims);
      assert q[0] == ps[0];
      ChainInGridAndConsistent(q, dims);
      assert AllLetters(ps) == AllLetters(q) + c.letters;
      LegalInGrid(c.word, q, dims, c);
      LegalKeepsConsistent(c.word, q, dims, c);
    }
  }

  /** In a chain, every word after the first has exactly one
      letter on an occupied cell of the earlier words, and there it carries
      the same character as the placed letter. */
  lemma CrossesOnce(ps: seq<WordPlacement>, dims: Dims, t: int)
    requires Chained(ps, dims) && 1 <= t < |ps|
    ensures AnchoredAt(ps, t)
    ensures forall k, i ::
      0 <= k < |ps[t].letters| && ps[t].letters[k].cell in Occupied(ps[..t]) && 0 <= i < |ps[t].letters| && i != k
      ==> ps[t].letters[i].cell !in Occupied(ps[..t])
  {
    assert LegalPlacement(ps[t].word, ps[..t], dims, ps[t]);
  }

  lemma ChainAnchored(ps: seq<WordPlacement>, dims: Dims)
    requires Chained(ps, dims)
    ensures forall t :: 1 <= t < |ps| ==> AnchoredAt(ps, t)
  {
    forall t | 1 <= t < |ps| ensures AnchoredAt(ps, t) {
      CrossesOnce(ps, dims, t);
    }
  }

  /** When every placement passes validation, no placed letter
      lies in the forbidden zone of the final placements. */
  lemma ValidatedClearOfZone(ps: seq<WordPlacement>)
    requires forall t :: 0 <= t < |ps| ==> CheckIsValidPlacement(ps[t], ps)
    ensures ClearOfZone(ps)
  {
    forall l | l in AllLetters(ps) ensures !InForbiddenZone(ps, l.cell) {
      AllLettersMembership(ps, l);
      var t :| 0 <= t < |ps| && l in ps[t].letters;
      var i :| 0 <= i < |ps[t].letters| && ps[t].letters[i] == l;
      assert CheckIsValidPlacement(ps[t], ps);
    }
  }

  /** The first placed word is one of the input words. */
  lemma FirstPlacedIsInput(placed: seq<WordPlacement>, notPlaced: seq<string>, words: seq<string>)
    requires |placed| >= 1
    requires multiset(words) == multiset(WordsOf(placed)) + multiset(notPlaced)
    ensures placed[0].word in words
  {
    assert WordsOf(placed)[0] == placed[0].word;
    assert placed[0].word in multiset(WordsOf(placed));
    assert placed[0].word in multiset(words);
  }

  lemma UnsharedNotLegal(word: string, ps: seq<WordPlacement>, dims: Dims, c: WordPlacement)
    requires forall i, l :: 0 <= i < |word| && l in AllLetters(ps) ==> word[i] != l.letter
    ensures !LegalPlacement(word, ps, dims, c)
  {
  }

  /** A word sharing no character with the placed letters has no candidate
      and is deferred. */
  lemma NoSharedLetterNoCandidate(word: string, ps: seq<WordPlacement>, dims: Dims)
    requires forall i, l :: 0 <= i < |word| && l in AllLetters(ps) ==> word[i] != l.letter
    ensures forall c :: c !in CalculatePossibleWordPositions(word, ps, dims)
  {
    var r := CalculatePossibleWordPositions(word, ps, dims);
    forall c ensures c !in r {
      UnsharedNotLegal(word, ps, dims, c);
    }
  }

  /** SEAT on an 8 by 8 grid is laid on row 4 from column 2 to column 5. */
  lemma FirstWordExample()
    ensures var p := PlaceFirstWord("SEAT", Dims(8, 8));
      p.letters[0].cell == Cell(2, 4) && p.letters[3].cell == Cell(5, 4)
  {
  }

  /** Every puzzle the generator accepts, for words that fit the grid
      horizontally, satisfies the placement invariants. */
  lemma GeneratedPuzzleInvariants(state: PuzzleState, words: seq<string>, dims: Dims)
    requires AcceptedPuzzle(state, words, dims)
    requires forall i :: 0 <= i < |words| ==> |words[i]| <= dims.cols
    requires 0 < dims.rows
    ensures state.placed[0] == PlaceFirstWord(state.placed[0].word, dims)
    ensures AllInGrid(state.placed, dims)
    ensures Consistent(AllLetters(state.placed))
    ensures ClearOfZone(state.placed)
    ensures forall t :: 1 <= t < |state.placed| ==> AnchoredAt(state.placed, t)
  {
    var ps := state.placed;
    FirstPlacedIsInput(ps, state.notPlaced, words);
    ChainInGridAndConsistent(ps, dims);
    ValidatedClearOfZone(ps);
    ChainAnchored(ps, dims);
  }
}
