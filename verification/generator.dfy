/** One generation pass — order the words, centre the first, place the rest
    against the words already placed, validate against the final forbidden
    zone — and the retry around it. */
module Generator {
  import opened Grid
  import opened ForbiddenZone
  import opened Candidates
  import opened WordOrder

  /** The output of one attempt: the placed words in placement order and the
      words for which no candidate existed at their turn. */
  datatype PuzzleState = PuzzleState(placed: seq<WordPlacement>, notPlaced: seq<string>)

  datatype Outcome = Generated(state: PuzzleState) | GenerationFailed

  /** The source's `placeFirstWord`: the first word lies horizontally, starting
      at column floor((cols - |word|) / 2) of row floor(rows / 2). Dafny's `/`
      rounds towards minus infinity for a positive divisor, as `Math.floor`
      does. */
  function PlaceFirstWord(word: string, dims: Dims): (p: WordPlacement)
    ensures p.word == word && p.dir == Horizontal && |p.letters| == |word|
    ensures forall i :: 0 <= i < |word| ==> p.letters[i] == LetterPlacement(word[i], Shift(p.letters[0].cell, Horizontal, i))
    // centred: the margins left and right differ by at most one, the extra column on the right
    ensures |word| > 0 ==>
      var left := p.letters[0].cell.x;
      var right := dims.cols - 1 - p.letters[|word| - 1].cell.x;
      left <= right <= left + 1
    // centred: the rows above and below differ by at most one, the extra row above
    ensures |word| > 0 ==>
      var above := p.letters[0].cell.y;
      var below := dims.rows - 1 - p.letters[0].cell.y;
      below <= above <= below + 1
    ensures |word| <= dims.cols && 0 < dims.rows ==>
      forall i :: 0 <= i < |word| ==> InGrid(dims, p.letters[i].cell)
  {
    var start := Cell((dims.cols - |word|) / 2, dims.rows / 2);
    WordPlacement(word, Horizontal, Layout(word, 0, start, Horizontal))
  }

  /** The source's `selectRandomElement`, with the drawn index passed in. */
  function SelectRandomElement(xs: seq<WordPlacement>, idx: nat): (r: WordPlacement)
    requires idx < |xs|
    ensures r in xs
  {
    xs[idx]
  }

  /** Walks the letters and stops at the first one on a forbidden cell. */
  function NoneForbidden(ls: seq<LetterPlacement>, forbidden: set<Cell>): (ok: bool)
    ensures ok <==> forall i :: 0 <= i < |ls| ==> ls[i].cell !in forbidden
  {
    if ls == [] then true
    else if ls[0].cell in forbidden then false
    else
      assert forall i :: 1 <= i < |ls| ==> ls[i] == ls[1..][i - 1];
      NoneForbidden(ls[1..], forbidden)
  }

  /** The source's `checkIsValidPlacement`, with the final placed words `ps`
      passed in: no letter of `p` lies in their forbidden zone. */
  function CheckIsValidPlacement(p: WordPlacement, ps: seq<WordPlacement>): (ok: bool)
    ensures ok <==> forall i :: 0 <= i < |p.letters| ==> !InForbiddenZone(ps, p.letters[i].cell)
  {
    NoneForbidden(p.letters, ForbiddenSet(ps))
  }

  /** The placements of `ps` that fail validation against `final`, in order. */
  function InvalidPlacements(ps: seq<WordPlacement>, final: seq<WordPlacement>): (r: seq<WordPlacement>)
    ensures forall p :: p in r <==> p in ps && !CheckIsValidPlacement(p, final)
  {
    if ps == [] then []
    else
      assert forall p :: p in ps <==> p == ps[0] || p in ps[1..] by {
        assert ps == [ps[0]] + ps[1..];
      }
      (if CheckIsValidPlacement(ps[0], final) then [] else [ps[0]]) + InvalidPlacements(ps[1..], final)
  }

  function WordsOf(ps: seq<WordPlacement>): (ws: seq<string>)
    ensures |ws| == |ps|
    ensures forall i :: 0 <= i < |ps| ==> ws[i] == ps[i].word
  {
    seq(|ps|, i requires 0 <= i < |ps| => ps[i].word)
  }

  lemma WordsOfAppend(ps: seq<WordPlacement>, c: WordPlacement)
    ensures WordsOf(ps + [c]) == WordsOf(ps) + [c.word]
  {
    var l, r := WordsOf(ps + [c]), WordsOf(ps) + [c.word];
    assert |l| == |r|;
    forall i | 0 <= i < |l| ensures l[i] == r[i] {
      if i < |ps| {
        assert (ps + [c])[i] == ps[i];
      }
    }
  }

  /** `ps` is a chain of placements: the centred first word, then each word a
      legal placement against the words before it. */
  ghost predicate Chained(ps: seq<WordPlacement>, dims: Dims) {
    && |ps| >= 1
    && ps[0] == PlaceFirstWord(ps[0].word, dims)
    && forall t :: 1 <= t < |ps| ==> LegalPlacement(ps[t].word, ps[..t], dims, ps[t])
  }

  lemma {:induction false} LegalOnPrefix(ps: seq<WordPlacement>, c: WordPlacement, t: int, dims: Dims)
    requires 1 <= t < |ps|
    requires LegalPlacement(ps[t].word, ps[..t], dims, ps[t])
    ensures LegalPlacement((ps + [c])[t].word, (ps + [c])[..t], dims, (ps + [c])[t])
  {
    assert (ps + [c])[..t] == ps[..t];
  }

  lemma {:induction false} ChainedAppend(ps: seq<WordPlacement>, c: WordPlacement, dims: Dims)
    requires Chained(ps, dims)
    requires LegalPlacement(c.word, ps, dims, c)
    ensures Chained(ps + [c], dims)
  {
    var qs := ps + [c];
    assert qs[..|ps|] == ps;
    forall t | 1 <= t < |qs| ensures LegalPlacement(qs[t].word, qs[..t], dims, qs[t]) {
      if t < |ps| {
        LegalOnPrefix(ps, c, t, dims);
      }
    }
  }
  lemma NoInvalidMeansAllValid(ps: seq<WordPlacement>)
    ensures |InvalidPlacements(ps, ps)| == 0 <==> forall t :: 0 <= t < |ps| ==> CheckIsValidPlacement(ps[t], ps)
  {
    var invalid := InvalidPlacements(ps, ps);
    if |invalid| != 0 {
      assert invalid[0] in invalid;
    }
  }

  lemma FirstWordsOf(ordered: seq<string>, first: WordPlacement)
    requires |ordered| > 0 && first.word == ordered[0]
    ensures multiset(ordered[..1]) == multiset(WordsOf([first]))
  {
    assert ordered[..1] == [ordered[0]];
    assert WordsOf([first]) == [ordered[0]];
  }

  /** Placing the word `ordered[i]` keeps every word so far placed or deferred once. */
  lemma PlacedStep(ordered: seq<string>, i: int, placed: seq<WordPlacement>, notPlaced: seq<string>, c: WordPlacement)
    requires 0 <= i < |ordered| && c.word == ordered[i]
    requires multiset(ordered[..i]) == multiset(WordsOf(placed)) + multiset(notPlaced)
    ensures multiset(ordered[..i + 1]) == multiset(WordsOf(placed + [c])) + multiset(notPlaced)
  {
    assert ordered[..i + 1] == ordered[..i] + [ordered[i]];
    WordsOfAppend(placed, c);
  }

  /** Deferring the word `ordered[i]` keeps every word so far placed or deferred once. */
  lemma DeferredStep(ordered: seq<string>, i: int, placed: seq<WordPlacement>, notPlaced: seq<string>)
    requires 0 <= i < |ordered|
    requires multiset(ordered[..i]) == multiset(WordsOf(placed)) + multiset(notPlaced)
    ensures multiset(ordered[..i + 1]) == multiset(WordsOf(placed)) + multiset(notPlaced + [ordered[i]])
  {
    assert ordered[..i + 1] == ordered[..i] + [ordered[i]];
  }

  /** How many deferrals were made while at most `t` words were placed, with
      `turns[m]` the number of placed words at deferral `m`: for `t >= 1`, the
      deferrals that came before the placement of word `t`. */
  function DeferredBy(turns: seq<int>, t: int): (n: nat)
    ensures n <= |turns|
  {
    if turns == [] then 0
    else DeferredBy(turns[..|turns| - 1], t) + (if turns[|turns| - 1] <= t then 1 else 0)
  }

  /** When every deferral came while at most `t` words were placed, all of
      them count. */
  lemma {:induction false} DeferredByAll(turns: seq<int>, t: int)
    requires forall m :: 0 <= m < |turns| ==> turns[m] <= t
    ensures DeferredBy(turns, t) == |turns|
  {
    if turns != [] {
      DeferredByAll(turns[..|turns| - 1], t);
    }
  }

  lemma DeferredByAppend(turns: seq<int>, x: int, t: int)
    ensures DeferredBy(turns + [x], t) == DeferredBy(turns, t) + (if x <= t then 1 else 0)
  {
    assert (turns + [x])[..|turns|] == turns;
  }

  /** Deferral `m` happened when `turns[m]` words were placed, and the deferred
      word had no candidate against exactly those placements. */
  ghost predicate DeferredAtTurns(placed: seq<WordPlacement>, notPlaced: seq<string>, turns: seq<int>, dims: Dims) {
    && |turns| == |notPlaced|
    && forall m :: 0 <= m < |turns| ==>
         1 <= turns[m] <= |placed| && CalculatePossibleWordPositions(notPlaced[m], placed[..turns[m]], dims) == []
  }

  /** Placements and deferrals interleave in the order of `ordered`: deferral
      `m` took the turn after `turns[m]` placements and `m` deferrals, and
      placement `t` the turn after `t` placements and the deferrals made
      before it. */
  ghost predicate InTurnOrder(ordered: seq<string>, placed: seq<WordPlacement>, notPlaced: seq<string>, turns: seq<int>) {
    && |turns| == |notPlaced|
    && (forall m, n :: 0 <= m < n < |turns| ==> turns[m] <= turns[n])
    && (forall m :: 0 <= m < |turns| ==>
          0 <= turns[m] <= |placed| && turns[m] + m < |ordered| && notPlaced[m] == ordered[turns[m] + m])
    && (forall t :: 1 <= t < |placed| ==>
          t + DeferredBy(turns, t) < |ordered| && placed[t].word == ordered[t + DeferredBy(turns, t)])
  }

  /** The state of the placement loop: the placements so far, the deferred
      words, the number of placements made before each deferral, and the
      position of the next draw in the random stream. */
  datatype Progress = Progress(placed: seq<WordPlacement>, notPlaced: seq<string>, turns: seq<int>, next: nat)

  /** What holds after the first `i` words of `ordered` have had their turn. */
  ghost predicate PassInvariant(ordered: seq<string>, i: int, dims: Dims, p: Progress) {
    match p
    case Progress(placed, notPlaced, turns, _) =>
      && 1 <= i <= |ordered| && i == |placed| + |notPlaced|
      && Chained(placed, dims) && placed[0].word == ordered[0]
      && multiset(ordered[..i]) == multiset(WordsOf(placed)) + multiset(notPlaced)
      && DeferredAtTurns(placed, notPlaced, turns, dims)
      && InTurnOrder(ordered, placed, notPlaced, turns)
  }

  /** One turn of the placement loop: `word` is placed with the candidate the
      draw at `p.next` selects, or deferred when it has no candidate. */
  function Turn(word: string, dims: Dims, rng: nat -> nat, p: Progress): (r: Progress)
    ensures var cands := CalculatePossibleWordPositions(word, p.placed, dims);
      cands == [] <==> (r.placed == p.placed && r.notPlaced == p.notPlaced + [word])
    ensures var cands := CalculatePossibleWordPositions(word, p.placed, dims);
      cands == [] ==> r.turns == p.turns + [|p.placed|] && r.next == p.next
    ensures var cands := CalculatePossibleWordPositions(word, p.placed, dims);
      cands != [] ==>
        && |r.placed| == |p.placed| + 1 && r.placed[..|p.placed|] == p.placed
        && r.placed[|p.placed|] == cands[rng(p.next) % |cands|]
        && r.notPlaced == p.notPlaced && r.turns == p.turns && r.next == p.next + 1
  {
    var cands := CalculatePossibleWordPositions(word, p.placed, dims);
    if |cands| > 0 then
      var chosen := SelectRandomElement(cands, rng(p.next) % |cands|);
      assert (p.placed + [chosen])[..|p.placed|] == p.placed;
      Progress(p.placed + [chosen], p.notPlaced, p.turns, p.next + 1)
    else
      Progress(p.placed, p.notPlaced + [word], p.turns + [|p.placed|], p.next)
  }

  lemma {:induction false} NoCandidateOnPrefix(placed: seq<WordPlacement>, c: WordPlacement, w: string, t: int, dims: Dims)
    requires 1 <= t <= |placed|
    requires CalculatePossibleWordPositions(w, placed[..t], dims) == []
    ensures CalculatePossibleWordPositions(w, (placed + [c])[..t], dims) == []
  {
    assert (placed + [c])[..t] == placed[..t];
  }

  /** A placement leaves every earlier deferral justified by the same
      placements as at its turn. */
  lemma {:induction false} DeferredAppendPlaced(placed: seq<WordPlacement>, notPlaced: seq<string>, turns: seq<int>,
                                                c: WordPlacement, dims: Dims)
    requires DeferredAtTurns(placed, notPlaced, turns, dims)
    ensures DeferredAtTurns(placed + [c], notPlaced, turns, dims)
  {
    forall m | 0 <= m < |turns|
      ensures CalculatePossibleWordPositions(notPlaced[m], (placed + [c])[..turns[m]], dims) == []
    {
      NoCandidateOnPrefix(placed, c, notPlaced[m], turns[m], dims);
    }
  }

  /** A word without candidates, deferred now, is recorded at the current
      number of placements. */
  lemma {:induction false} DeferredAppendWord(placed: seq<WordPlacement>, notPlaced: seq<string>, turns: seq<int>,
                                              word: string, dims: Dims)
    requires DeferredAtTurns(placed, notPlaced, turns, dims)
    requires |placed| >= 1 && CalculatePossibleWordPositions(word, placed, dims) == []
    ensures DeferredAtTurns(placed, notPlaced + [word], turns + [|placed|], dims)
  {
    var ws, ts := notPlaced + [word], turns + [|placed|];
    forall m | 0 <= m < |ts|
      ensures 1 <= ts[m] <= |placed| && CalculatePossibleWordPositions(ws[m], placed[..ts[m]], dims) == []
    {
      if m < |turns| {
        assert ws[m] == notPlaced[m] && ts[m] == turns[m];
      } else {
        assert m == |turns| && ts[m] == |placed|;
        assert ws[m] == word && placed[..|placed|] == placed;
      }
    }
  }

  /** Placing the word whose turn it is keeps the interleaving. */
  lemma {:induction false} OrderAppendPlaced(ordered: seq<string>, i: int, placed: seq<WordPlacement>, notPlaced: seq<string>,
                                             turns: seq<int>, c: WordPlacement)
    requires InTurnOrder(ordered, placed, notPlaced, turns)
    requires i == |placed| + |notPlaced| < |ordered| && c.word == ordered[i]
    ensures InTurnOrder(ordered, placed + [c], notPlaced, turns)
  {
    var qs := placed + [c];
    forall t | 1 <= t < |qs|
      ensures t + DeferredBy(turns, t) < |ordered| && qs[t].word == ordered[t + DeferredBy(turns, t)]
    {
      if t == |placed| {
        DeferredByAll(turns, t);
      } else {
        assert qs[t] == placed[t];
      }
    }
  }

  /** Deferring the word whose turn it is keeps the interleaving. */
  lemma {:induction false} OrderAppendWord(ordered: seq<string>, i: int, placed: seq<WordPlacement>, notPlaced: seq<string>,
                                           turns: seq<int>, word: string)
    requires InTurnOrder(ordered, placed, notPlaced, turns)
    requires i == |placed| + |notPlaced| < |ordered| && word == ordered[i]
    ensures InTurnOrder(ordered, placed, notPlaced + [word], turns + [|placed|])
  {
    var ts := turns + [|placed|];
    forall t | 1 <= t < |placed|
      ensures DeferredBy(ts, t) == DeferredBy(turns, t)
    {
      DeferredByAppend(turns, |placed|, t);
    }
  }

  /** A candidate carries the word it was computed for and is legal for it. */
  lemma CandidateWord(word: string, ps: seq<WordPlacement>, dims: Dims, c: WordPlacement)
    requires c in CalculatePossibleWordPositions(word, ps, dims)
    ensures c.word == word && LegalPlacement(c.word, ps, dims, c)
  {
  }

  lemma TurnPlaces(ordered: seq<string>, i: int, dims: Dims, p: Progress, c: WordPlacement, next: nat)
    requires PassInvariant(ordered, i, dims, p) && i < |ordered|
    requires c in CalculatePossibleWordPositions(ordered[i], p.placed, dims)
    ensures PassInvariant(ordered, i + 1, dims, Progress(p.placed + [c], p.notPlaced, p.turns, next))
  {
    CandidateWord(ordered[i], p.placed, dims, c);
    ChainedAppend(p.placed, c, dims);
    PlacedStep(ordered, i, p.placed, p.notPlaced, c);
    DeferredAppendPlaced(p.placed, p.notPlaced, p.turns, c, dims);
    OrderAppendPlaced(ordered, i, p.placed, p.notPlaced, p.turns, c);
  }

  lemma TurnDefers(ordered: seq<string>, i: int, dims: Dims, p: Progress)
    requires PassInvariant(ordered, i, dims, p) && i < |ordered|
    requires CalculatePossibleWordPositions(ordered[i], p.placed, dims) == []
    ensures PassInvariant(ordered, i + 1, dims, Progress(p.placed, p.notPlaced + [ordered[i]], p.turns + [|p.placed|], p.next))
  {
    DeferredStep(ordered, i, p.placed, p.notPlaced);
    DeferredAppendWord(p.placed, p.notPlaced, p.turns, ordered[i], dims);
    OrderAppendWord(ordered, i, p.placed, p.notPlaced, p.turns, ordered[i]);
  }

  /** A turn keeps the loop's invariant. */
  lemma TurnKeepsInvariant(ordered: seq<string>, i: int, dims: Dims, rng: nat -> nat, p: Progress)
    requires PassInvariant(ordered, i, dims, p) && i < |ordered|
    ensures PassInvariant(ordered, i + 1, dims, Turn(ordered[i], dims, rng, p))
  {
    var r := Turn(ordered[i], dims, rng, p);
    var cands := CalculatePossibleWordPositions(ordered[i], p.placed, dims);
    if cands == [] {
      TurnDefers(ordered, i, dims, p);
      assert r == Progress(p.placed, p.notPlaced + [ordered[i]], p.turns + [|p.placed|], p.next);
    } else {
      var c := r.placed[|p.placed|];
      assert r.placed == p.placed + [c];
      TurnPlaces(ordered, i, dims, p, c, r.next);
      assert r == Progress(p.placed + [c], p.notPlaced, p.turns, r.next);
    }
  }

  /** `step` applied for each turn from `i` up to `n`, in order. */
  function Iterate<S>(step: (int, S) -> S, i: int, n: int, s: S): S
    decreases n - i
  {
    if i >= n then s else Iterate(step, i + 1, n, step(i, s))
  }

  /** Turns that each keep an invariant keep it over a run of turns. */
  lemma {:induction false} IterateKeeps<S>(step: (int, S) -> S, inv: (int, S) -> bool, i: int, n: int, s: S)
    requires i <= n && inv(i, s)
    requires forall j, t :: i <= j < n && inv(j, t) ==> inv(j + 1, step(j, t))
    ensures inv(n, Iterate(step, i, n, s))
    decreases n - i
  {
    if i < n {
      IterateKeeps(step, inv, i + 1, n, step(i, s));
    }
  }

  /** The turn of word `j` of `ordered`. */
  function TurnOf(ordered: seq<string>, dims: Dims, rng: nat -> nat): (int, Progress) -> Progress {
    (j: int, p: Progress) => if 0 <= j < |ordered| then Turn(ordered[j], dims, rng, p) else p
  }

  /** Every turn of the placement loop keeps the loop's invariant. */
  lemma TurnsKeepInvariant(ordered: seq<string>, dims: Dims, rng: nat -> nat)
    ensures forall j, p :: 1 <= j < |ordered| && PassInvariant(ordered, j, dims, p) ==>
      PassInvariant(ordered, j + 1, dims, TurnOf(ordered, dims, rng)(j, p))
  {
    forall j, p | 1 <= j < |ordered| && PassInvariant(ordered, j, dims, p)
      ensures PassInvariant(ordered, j + 1, dims, TurnOf(ordered, dims, rng)(j, p))
    {
      TurnKeepsInvariant(ordered, j, dims, rng, p);
    }
  }

  /** A turn draws from the random stream exactly when it places its word. */
  lemma TurnsDrawOnPlacing(ordered: seq<string>, dims: Dims, rng: nat -> nat, cursor: nat)
    ensures forall j, p: Progress :: 1 <= j < |ordered| && p.next + 1 == cursor + |p.placed| ==>
      var q := TurnOf(ordered, dims, rng)(j, p);
      q.next + 1 == cursor + |q.placed|
  {
  }

  /** The placement loop of the source's `generatePuzzle`: the first word is
      centred, then each later word takes its turn in order. */
  function PlaceWords(ordered: seq<string>, dims: Dims, rng: nat -> nat, cursor: nat): (r: Progress)
    requires |ordered| > 0
    ensures Chained(r.placed, dims) && r.placed[0].word == ordered[0]
    // every word is placed or deferred, exactly once
    ensures |r.placed| + |r.notPlaced| == |ordered|
    ensures multiset(ordered) == multiset(WordsOf(r.placed)) + multiset(r.notPlaced)
    ensures DeferredAtTurns(r.placed, r.notPlaced, r.turns, dims)
    ensures InTurnOrder(ordered, r.placed, r.notPlaced, r.turns)
    // one draw per placed word after the first
    ensures r.next == cursor + |r.placed| - 1
  {
    var first := Progress([PlaceFirstWord(ordered[0], dims)], [], [], cursor);
    var step := TurnOf(ordered, dims, rng);
    FirstWordsOf(ordered, first.placed[0]);
    assert ordered[..|ordered|] == ordered;
    TurnsKeepInvariant(ordered, dims, rng);
    IterateKeeps(step, (j, p) => PassInvariant(ordered, j, dims, p), 1, |ordered|, first);
    TurnsDrawOnPlacing(ordered, dims, rng, cursor);
    IterateKeeps(step, (j, p: Progress) => p.next + 1 == cursor + |p.placed|, 1, |ordered|, first);
    Iterate(step, 1, |ordered|, first)
  }

  /** The result of one pass: the order it placed the words in, the loop's
      final state, and whether every placement passed validation. */
  datatype Pass = Pass(ordered: seq<string>, progress: Progress, valid: bool)

  function StateOf(pass: Pass): PuzzleState {
    PuzzleState(pass.progress.placed, pass.progress.notPlaced)
  }

  /** One pass of the source's `generatePuzzle`: shuffle, place, and validate
      every placement against the forbidden zone of the final placements. */
  function Attempt(words: seq<string>, dims: Dims, rng: nat -> nat, cursor: nat): (r: Pass)
    requires |words| > 0
    ensures r.ordered == ShuffleByWordLength(words, rng, cursor)
    ensures multiset(r.ordered) == multiset(words) && |r.ordered| == |words|
    ensures Chained(r.progress.placed, dims) && r.progress.placed[0].word == r.ordered[0]
    ensures multiset(words) == multiset(WordsOf(r.progress.placed)) + multiset(r.progress.notPlaced)
    ensures DeferredAtTurns(r.progress.placed, r.progress.notPlaced, r.progress.turns, dims)
    ensures InTurnOrder(r.ordered, r.progress.placed, r.progress.notPlaced, r.progress.turns)
    ensures r.progress.next == ShuffleDrawsEnd(words, cursor) + |r.progress.placed| - 1
    ensures r.valid <==>
      forall t :: 0 <= t < |r.progress.placed| ==> CheckIsValidPlacement(r.progress.placed[t], r.progress.placed)
  {
    var ordered := ShuffleByWordLength(words, rng, cursor);
    assert |ordered| == |multiset(ordered)| == |words|;
    var progress := PlaceWords(ordered, dims, rng, ShuffleDrawsEnd(words, cursor));
    NoInvalidMeansAllValid(progress.placed);
    Pass(ordered, progress, |InvalidPlacements(progress.placed, progress.placed)| == 0)
  }

  /** Where a pass of the retry loop starts: an order of the words and a
      position in the random stream. */
  datatype Start = Start(order: seq<string>, cursor: nat)

  /** The start of pass `k`: the input order at the head of the stream, then
      the order and stream position the previous pass left behind. */
  function StartOf(words: seq<string>, dims: Dims, rng: nat -> nat, k: nat): (s: Start)
    requires |words| > 0
    ensures multiset(s.order) == multiset(words) && |s.order| == |words|
  {
    if k == 0 then Start(words, 0)
    else
      var prev := StartOf(words, dims, rng, k - 1);
      var a := Attempt(prev.order, dims, rng, prev.cursor);
      Start(a.ordered, a.progress.next)
  }

  function PassAt(words: seq<string>, dims: Dims, rng: nat -> nat, k: nat): Pass
    requires |words| > 0
  {
    var s := StartOf(words, dims, rng, k);
    Attempt(s.order, dims, rng, s.cursor)
  }

  /** Pass `k + 1` starts from the order and stream position pass `k` left. */
  lemma StartOfNext(words: seq<string>, dims: Dims, rng: nat -> nat, k: nat)
    requires |words| > 0
    ensures var pass := PassAt(words, dims, rng, k);
      StartOf(words, dims, rng, k + 1) == Start(pass.ordered, pass.progress.next)
  {
  }

  /** The first `k` passes fail validation. */
  ghost predicate NoneValidBefore(words: seq<string>, dims: Dims, rng: nat -> nat, k: nat)
    requires |words| > 0
  {
    forall j :: 0 <= j < k ==> !PassAt(words, dims, rng, j).valid
  }

  lemma NoneValidExtend(words: seq<string>, dims: Dims, rng: nat -> nat, k: nat)
    requires |words| > 0
    requires NoneValidBefore(words, dims, rng, k) && !PassAt(words, dims, rng, k).valid
    ensures NoneValidBefore(words, dims, rng, k + 1)
  {
  }

  /** Pass `k` is the first that validates. */
  ghost predicate FirstValidPass(words: seq<string>, dims: Dims, rng: nat -> nat, k: nat)
    requires |words| > 0
  {
    && PassAt(words, dims, rng, k).valid
    && forall j :: 0 <= j < k ==> !PassAt(words, dims, rng, j).valid
  }

  /** An accepted puzzle for `words`: a chain starting with a longest word,
      every word placed or deferred once, each deferral justified by the
      placements of its turn, and every placement clear of the final
      forbidden zone. */
  ghost predicate AcceptedPuzzle(state: PuzzleState, words: seq<string>, dims: Dims) {
    && Chained(state.placed, dims)
    && (forall i :: 0 <= i < |words| ==> |words[i]| <= |state.placed[0].word|)
    && multiset(words) == multiset(WordsOf(state.placed)) + multiset(state.notPlaced)
    && (exists turns :: DeferredAtTurns(state.placed, state.notPlaced, turns, dims))
    && forall t :: 0 <= t < |state.placed| ==> CheckIsValidPlacement(state.placed[t], state.placed)
  }

  /** A pass that validates, started from any order of `words`, is an
      accepted puzzle for `words`. */
  lemma PassAccepted(order: seq<string>, words: seq<string>, dims: Dims, rng: nat -> nat, cursor: nat)
    requires |words| > 0 && multiset(order) == multiset(words)
    ensures |order| > 0
    ensures var a := Attempt(order, dims, rng, cursor);
      a.valid ==> AcceptedPuzzle(StateOf(a), words, dims)
  {
    assert |order| == |multiset(order)| == |words|;
    var a := Attempt(order, dims, rng, cursor);
    FirstIsLongest(order, rng, cursor);
    forall i | 0 <= i < |words| ensures |words[i]| <= |a.ordered[0]| {
      assert words[i] in multiset(order);
      var j :| 0 <= j < |order| && order[j] == words[i];
    }
    assert DeferredAtTurns(a.progress.placed, a.progress.notPlaced, a.progress.turns, dims);
  }

  /** The source's retry loop, bounded: at most `maxAttempts` passes, each
      reshuffling the order the previous pass left, reading the random stream
      on from where the previous pass stopped. It succeeds exactly when one of
      those passes validates, with the first such pass's puzzle. */
  method GeneratePuzzle(words: seq<string>, dims: Dims, rng: nat -> nat, maxAttempts: nat)
    returns (outcome: Outcome, order: seq<string>)
    requires |words| > 0
    ensures multiset(order) == multiset(words)
    ensures outcome.Generated? <==> exists k :: 0 <= k < maxAttempts && PassAt(words, dims, rng, k).valid
    ensures outcome.Generated? ==>
      exists k :: 0 <= k < maxAttempts && FirstValidPass(words, dims, rng, k)
        && outcome.state == StateOf(PassAt(words, dims, rng, k))
    ensures outcome.Generated? ==> AcceptedPuzzle(outcome.state, words, dims)
  {
    order := words;
    outcome := GenerationFailed;
    var cursor := 0;
    var attempt := 0;
    while attempt < maxAttempts
      invariant attempt <= maxAttempts
      invariant Start(order, cursor) == StartOf(words, dims, rng, attempt)
      invariant NoneValidBefore(words, dims, rng, attempt)
    {
      var pass := Attempt(order, dims, rng, cursor);
      assert pass == PassAt(words, dims, rng, attempt);
      StartOfNext(words, dims, rng, attempt);
      order := pass.ordered;
      if pass.valid {
        outcome := Generated(StateOf(pass));
        PassAccepted(StartOf(words, dims, rng, attempt).order, words, dims, rng, cursor);
        assert FirstValidPass(words, dims, rng, attempt);
        return;
      }
      NoneValidExtend(words, dims, rng, attempt);
      cursor := pass.progress.next;
      attempt := attempt + 1;
    }
  }
}
