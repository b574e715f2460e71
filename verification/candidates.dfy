/** Candidate enumeration: every (direction, anchor) placement of a new word
    that crosses a placed letter with the same character and passes the
    grid, forbidden-zone, letter-clash and single-overlap tests. */
module Candidates {
  import opened Grid
  import opened ForbiddenZone

  /** What a trial placement is checked against: the grid size, the forbidden
      cells and the cell-to-letter lookup of the placed letters. */
  datatype Board = Board(dims: Dims, forbidden: set<Cell>, existing: map<Cell, char>)

  function BoardOf(ps: seq<WordPlacement>, dims: Dims): Board {
    Board(dims, ForbiddenSet(ps), LetterMap(AllLetters(ps)))
  }

  /** Letter `i` of `word` written `i - k` steps from `anchor` along `dir`,
      so that letter `k` lands on the anchor. */
  function Layout(word: string, k: int, anchor: Cell, dir: Direction): (ls: seq<LetterPlacement>)
    ensures |ls| == |word|
    ensures forall i :: 0 <= i < |word| ==> ls[i] == LetterPlacement(word[i], Shift(anchor, dir, i - k))
  {
    seq(|word|, i requires 0 <= i < |word| => LetterPlacement(word[i], Shift(anchor, dir, i - k)))
  }

  /** The bound the enumeration checks: only the coordinate that moves along
      `dir`; the other one is the anchor's. */
  predicate OnAxis(dims: Dims, dir: Direction, c: Cell) {
    match dir
    case Vertical => 0 <= c.y < dims.rows
    case Horizontal => 0 <= c.x < dims.cols
  }

  /** One letter of a trial placement is acceptable: on the grid along the
      axis, not forbidden, and not on a cell holding a different letter. */
  predicate Accepts(b: Board, dir: Direction, l: LetterPlacement) {
    && OnAxis(b.dims, dir, l.cell)
    && l.cell !in b.forbidden
    && (l.cell in b.existing ==> b.existing[l.cell] == l.letter)
  }

  ghost predicate Fits(b: Board, dir: Direction, ls: seq<LetterPlacement>) {
    forall i :: 0 <= i < |ls| ==> Accepts(b, dir, ls[i])
  }

  /** No two letters of the trial placement land on occupied cells. */
  ghost predicate AtMostOneOverlap(b: Board, ls: seq<LetterPlacement>) {
    forall i, j :: 0 <= i < j < |ls| ==> !(ls[i].cell in b.existing && ls[j].cell in b.existing)
  }

  /** The number of letters of `ls` landing on occupied cells. */
  function Overlaps(b: Board, ls: seq<LetterPlacement>): nat {
    if ls == [] then 0 else (if ls[0].cell in b.existing then 1 else 0) + Overlaps(b, ls[1..])
  }

  lemma {:induction false} OverlapsZero(b: Board, ls: seq<LetterPlacement>)
    ensures Overlaps(b, ls) == 0 <==> forall i :: 0 <= i < |ls| ==> ls[i].cell !in b.existing
  {
    if ls != [] {
      OverlapsZero(b, ls[1..]);
      assert forall i :: 1 <= i < |ls| ==> ls[i] == ls[1..][i - 1];
    }
  }

  /** An overlap count of at most one means no two letters overlap. */
  lemma {:induction false} OverlapsAtMostOne(b: Board, ls: seq<LetterPlacement>)
    ensures Overlaps(b, ls) <= 1 <==> AtMostOneOverlap(b, ls)
  {
    if ls != [] {
      var tail := ls[1..];
      OverlapsAtMostOne(b, tail);
      OverlapsZero(b, tail);
      assert forall i :: 1 <= i < |ls| ==> ls[i] == tail[i - 1];
      if AtMostOneOverlap(b, ls) {
        assert AtMostOneOverlap(b, tail) by {
          forall i, j | 0 <= i < j < |tail|
            ensures !(tail[i].cell in b.existing && tail[j].cell in b.existing)
          {
            assert tail[i] == ls[i + 1] && tail[j] == ls[j + 1];
          }
        }
      }
      if Overlaps(b, ls) <= 1 {
        forall i, j | 0 <= i < j < |ls|
          ensures !(ls[i].cell in b.existing && ls[j].cell in b.existing)
        {
          if i > 0 {
            assert ls[i] == tail[i - 1] && ls[j] == tail[j - 1];
          }
        }
      }
    }
  }

  /** The per-letter loop of a trial placement, from letter `i` on: it stops
      at the first letter that leaves the grid along the axis, lands on a
      forbidden cell or clashes with a different letter, and otherwise counts
      the letters that land on occupied cells. */
  function Scan(b: Board, dir: Direction, ls: seq<LetterPlacement>, i: nat, overlap: nat): (r: Option<nat>)
    requires i <= |ls|
    ensures r.Some? <==> forall j :: i <= j < |ls| ==> Accepts(b, dir, ls[j])
    ensures r.Some? ==> r.value == overlap + Overlaps(b, ls[i..])
    decreases |ls| - i
  {
    if i == |ls| then Some(overlap)
    else
      assert ls[i..][1..] == ls[i + 1..];
      var l := ls[i];
      if !OnAxis(b.dims, dir, l.cell) || l.cell in b.forbidden then None
      else if l.cell in b.existing then
        if b.existing[l.cell] != l.letter then None
        else Scan(b, dir, ls, i + 1, overlap + 1)
      else Scan(b, dir, ls, i + 1, overlap)
  }

  /** One trial: `word` laid along `dir` with letter `k` on `anchor`, kept
      when every letter is acceptable and at most one lands on an occupied cell. */
  function TryPlace(word: string, k: int, anchor: Cell, dir: Direction, b: Board): (r: Option<WordPlacement>)
    ensures r.Some? <==>
      Fits(b, dir, Layout(word, k, anchor, dir)) && AtMostOneOverlap(b, Layout(word, k, anchor, dir))
    ensures r.Some? ==> r.value == WordPlacement(word, dir, Layout(word, k, anchor, dir))
  {
    var ls := Layout(word, k, anchor, dir);
    assert ls[0..] == ls;
    OverlapsAtMostOne(b, ls);
    match Scan(b, dir, ls, 0, 0)
    case None => None
    case Some(n) => if n <= 1 then Some(WordPlacement(word, dir, ls)) else None
  }

  /** `c` is the placement of `word` along `dir` with letter `k` on the placed
      letter `L`, and it passes every test against `b`. */
  ghost predicate Emits(word: string, b: Board, L: LetterPlacement, k: int, dir: Direction, c: WordPlacement) {
    && 0 <= k < |word|
    && word[k] == L.letter
    && c == WordPlacement(word, dir, Layout(word, k, L.cell, dir))
    && Fits(b, dir, c.letters)
    && AtMostOneOverlap(b, c.letters)
  }

  function Opt(o: Option<WordPlacement>): seq<WordPlacement> {
    if o.Some? then [o.value] else []
  }

  /** The two trials anchored on the placed letter `L` at word index `k`:
      vertical first, then horizontal, when `word[k]` is `L`'s character. */
  function TrialsAt(word: string, b: Board, L: LetterPlacement, k: nat): (r: seq<WordPlacement>)
    requires k < |word|
    ensures forall c :: c in r <==> exists dir :: Emits(word, b, L, k, dir, c)
  {
    if word[k] == L.letter then
      EmitsTrial(word, b, L, k, Vertical);
      EmitsTrial(word, b, L, k, Horizontal);
      Opt(TryPlace(word, k, L.cell, Vertical, b)) + Opt(TryPlace(word, k, L.cell, Horizontal, b))
    else []
  }

  lemma EmitsTrial(word: string, b: Board, L: LetterPlacement, k: nat, dir: Direction)
    requires k < |word| && word[k] == L.letter
    ensures forall c :: c in Opt(TryPlace(word, k, L.cell, dir, b)) <==> Emits(word, b, L, k, dir, c)
  {
  }

  lemma EmitsFromIndex(word: string, b: Board, L: LetterPlacement, k: nat, here: seq<WordPlacement>, rest: seq<WordPlacement>)
    requires k < |word|
    requires forall c :: c in here <==> exists dir :: Emits(word, b, L, k, dir, c)
    requires forall c :: c in rest <==> exists k', dir :: k + 1 <= k' && Emits(word, b, L, k', dir, c)
    ensures forall c :: c in here + rest <==> exists k', dir :: k <= k' && Emits(word, b, L, k', dir, c)
  {
    forall c ensures c in here + rest <==> exists k', dir :: k <= k' && Emits(word, b, L, k', dir, c) {
      if exists k', dir :: k <= k' && Emits(word, b, L, k', dir, c) {
        var k', dir :| k <= k' && Emits(word, b, L, k', dir, c);
        if k' == k {
          assert c in here;
        } else {
          assert c in rest;
        }
      }
    }
  }

  /** The trials anchored on the placed letter `L` at word indices `k` and
      above, index by index. */
  function AnchorCandidates(word: string, b: Board, L: LetterPlacement, k: nat): (r: seq<WordPlacement>)
    requires k <= |word|
    ensures forall c :: c in r <==> exists k', dir :: k <= k' && Emits(word, b, L, k', dir, c)
    decreases |word| - k
  {
    if k == |word| then []
    else
      var here := TrialsAt(word, b, L, k);
      var rest := AnchorCandidates(word, b, L, k + 1);
      EmitsFromIndex(word, b, L, k, here, rest);
      here + rest
  }

  /** The trials anchored on each letter of `ls`, in order. */
  function LetterCandidates(word: string, b: Board, ls: seq<LetterPlacement>): (r: seq<WordPlacement>)
    ensures forall c :: c in r <==> exists L, k, dir :: L in ls && Emits(word, b, L, k, dir, c)
  {
    if ls == [] then []
    else
      var here := AnchorCandidates(word, b, ls[0], 0);
      var rest := LetterCandidates(word, b, ls[1..]);
      assert forall L :: L in ls <==> L == ls[0] || L in ls[1..] by {
        assert ls == [ls[0]] + ls[1..];
      }
      here + rest
  }

  /** Some trial anchored on a placed letter emits `c`. */
  ghost predicate IsCandidate(word: string, ps: seq<WordPlacement>, dims: Dims, c: WordPlacement) {
    exists L, k, dir :: L in AllLetters(ps) && Emits(word, BoardOf(ps, dims), L, k, dir, c)
  }

  /** A legal placement of `word` against the placed words `ps`, stated letter
      by letter without reference to how candidates are enumerated. */
  ghost predicate LegalPlacement(word: string, ps: seq<WordPlacement>, dims: Dims, c: WordPlacement) {
    var ls := c.letters;
    && c.word == word
    && |ls| == |word|
    // letter i is word[i], i steps from the first letter along the axis
    && (forall i :: 0 <= i < |ls| ==> ls[i] == LetterPlacement(word[i], Shift(ls[0].cell, c.dir, i)))
    // some letter coincides, character and cell, with a placed letter
    && (exists k :: 0 <= k < |ls| && ls[k] in AllLetters(ps))
    && (forall i :: 0 <= i < |ls| ==> OnAxis(dims, c.dir, ls[i].cell))
    && (forall i :: 0 <= i < |ls| ==> !InForbiddenZone(ps, ls[i].cell))
    // an occupied cell it touches holds, in the lookup, the letter it writes
    && (forall i :: 0 <= i < |ls| && ls[i].cell in Occupied(ps) ==> LetterMap(AllLetters(ps))[ls[i].cell] == word[i])
    // at most one of its letters lands on an occupied cell
    && (forall i, j :: 0 <= i < j < |ls| ==> !(ls[i].cell in Occupied(ps) && ls[j].cell in Occupied(ps)))
  }

  /** A layout anchored at index `k` is the word laid contiguously from its
      first letter, with letter `k` on the anchor. */
  lemma LayoutIsContiguous(word: string, k: int, anchor: Cell, dir: Direction)
    requires 0 <= k < |word|
    ensures var ls := Layout(word, k, anchor, dir);
      && ls[k] == LetterPlacement(word[k], anchor)
      && forall i :: 0 <= i < |ls| ==> ls[i] == LetterPlacement(word[i], Shift(ls[0].cell, dir, i))
  {
    var ls := Layout(word, k, anchor, dir);
    forall i | 0 <= i < |ls| ensures ls[i] == LetterPlacement(word[i], Shift(ls[0].cell, dir, i)) {
      assert ls[0].cell == Shift(anchor, dir, -k);
    }
  }

  /** Passing the board tests is the letter-by-letter part of legality. */
  lemma FitsIsLegalTests(word: string, ps: seq<WordPlacement>, dims: Dims, dir: Direction, ls: seq<LetterPlacement>)
    requires |ls| == |word| && forall i :: 0 <= i < |ls| ==> ls[i].letter == word[i]
    requires Fits(BoardOf(ps, dims), dir, ls) && AtMostOneOverlap(BoardOf(ps, dims), ls)
    ensures forall i :: 0 <= i < |ls| ==> OnAxis(dims, dir, ls[i].cell)
    ensures forall i :: 0 <= i < |ls| ==> !InForbiddenZone(ps, ls[i].cell)
    ensures forall i :: 0 <= i < |ls| && ls[i].cell in Occupied(ps) ==> LetterMap(AllLetters(ps))[ls[i].cell] == word[i]
    ensures forall i, j :: 0 <= i < j < |ls| ==> !(ls[i].cell in Occupied(ps) && ls[j].cell in Occupied(ps))
  {
    var b := BoardOf(ps, dims);
    assert b.existing.Keys == Occupied(ps);
    forall i | 0 <= i < |ls| ensures OnAxis(dims, dir, ls[i].cell) && !InForbiddenZone(ps, ls[i].cell) {
      assert Accepts(b, dir, ls[i]);
    }
  }

  lemma CandidateIsLegal(word: string, ps: seq<WordPlacement>, dims: Dims, c: WordPlacement)
    requires IsCandidate(word, ps, dims, c)
    ensures LegalPlacement(word, ps, dims, c)
  {
    var b := BoardOf(ps, dims);
    var L, k, dir :| L in AllLetters(ps) && Emits(word, b, L, k, dir, c);
    LayoutIsContiguous(word, k, L.cell, dir);
    FitsIsLegalTests(word, ps, dims, dir, c.letters);
    assert c.letters[k] == L;
  }

  lemma LayoutOfContiguous(word: string, ls: seq<LetterPlacement>, dir: Direction, k: int)
    requires |ls| == |word| && 0 <= k < |ls|
    requires forall i :: 0 <= i < |ls| ==> ls[i] == LetterPlacement(word[i], Shift(ls[0].cell, dir, i))
    ensures ls == Layout(word, k, ls[k].cell, dir)
  {
    var lay := Layout(word, k, ls[k].cell, dir);
    forall i | 0 <= i < |ls| ensures ls[i] == lay[i] {
      assert ls[i] == LetterPlacement(word[i], Shift(ls[0].cell, dir, i));
    }
  }

  lemma LegalFits(word: string, ps: seq<WordPlacement>, dims: Dims, c: WordPlacement)
    requires LegalPlacement(word, ps, dims, c)
    ensures Fits(BoardOf(ps, dims), c.dir, c.letters) && AtMostOneOverlap(BoardOf(ps, dims), c.letters)
  {
    var b := BoardOf(ps, dims);
    var ls := c.letters;
    assert b.existing.Keys == Occupied(ps);
    forall i | 0 <= i < |ls| ensures Accepts(b, c.dir, ls[i]) {
      assert ls[i].letter == word[i];
      assert !InForbiddenZone(ps, ls[i].cell);
    }
  }

  lemma LegalIsCandidate(word: string, ps: seq<WordPlacement>, dims: Dims, c: WordPlacement)
    requires LegalPlacement(word, ps, dims, c)
    ensures IsCandidate(word, ps, dims, c)
  {
    var ls := c.letters;
    var k :| 0 <= k < |ls| && ls[k] in AllLetters(ps);
    LayoutOfContiguous(word, ls, c.dir, k);
    LegalFits(word, ps, dims, c);
    assert Emits(word, BoardOf(ps, dims), ls[k], k, c.dir, c);
  }

  /** The source's `calculatePossibleWordPositions`: the candidates are
      exactly the legal placements of `word`. */
  function CalculatePossibleWordPositions(word: string, ps: seq<WordPlacement>, dims: Dims): (r: seq<WordPlacement>)
    ensures forall c :: c in r <==> LegalPlacement(word, ps, dims, c)
  {
    var r := LetterCandidates(word, BoardOf(ps, dims), AllLetters(ps));
    assert forall c :: c in r <==> LegalPlacement(word, ps, dims, c) by {
      forall c ensures c in r <==> LegalPlacement(word, ps, dims, c) {
        if c in r {
          CandidateIsLegal(word, ps, dims, c);
        }
        if LegalPlacement(word, ps, dims, c) {
          LegalIsCandidate(word, ps, dims, c);
        }
      }
    }
    r
  }
}
