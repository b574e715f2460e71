/** The forbidden zone: the cells no new letter may be written to, derived
    from the words already placed by two rules — an end guard before and
    after every word, and a crowding rule around cells two words share. */
module ForbiddenZone {
  import opened Grid

  /* ---------- duplicate removal, first occurrence kept ---------- */

  /** Walks `xs` once, keeping each element the first time it is met and
      skipping it when it is already in `seen`. */
  function DedupFrom(xs: seq<Cell>, seen: set<Cell>): (r: seq<Cell>)
    ensures NoDup(r)
    ensures forall x :: x in r <==> x in xs && x !in seen
    decreases |xs|
  {
    if xs == [] then []
    else if xs[0] in seen then DedupFrom(xs[1..], seen)
    else
      var rest := DedupFrom(xs[1..], seen + {xs[0]});
      assert forall i :: 0 <= i < |rest| ==> ([xs[0]] + rest)[i + 1] == rest[i];
      [xs[0]] + rest
  }

  function Dedup(xs: seq<Cell>): (r: seq<Cell>)
    ensures NoDup(r)
    ensures forall x :: x in r <==> x in xs
  {
    DedupFrom(xs, {})
  }

  /** A list without duplicates comes back unchanged. */
  lemma {:induction false} DedupFromKeepsDistinct(xs: seq<Cell>, seen: set<Cell>)
    requires NoDup(xs)
    requires forall i :: 0 <= i < |xs| ==> xs[i] !in seen
    ensures DedupFrom(xs, seen) == xs
    decreases |xs|
  {
    if xs != [] {
      var tail := xs[1..];
      assert xs[0] !in seen;
      forall i | 0 <= i < |tail| ensures tail[i] !in seen + {xs[0]} {
        assert tail[i] == xs[i + 1];
      }
      assert NoDup(tail) by {
        forall i, j | 0 <= i < j < |tail| ensures tail[i] != tail[j] {
          assert tail[i] == xs[i + 1] && tail[j] == xs[j + 1];
        }
      }
      DedupFromKeepsDistinct(tail, seen + {xs[0]});
      assert DedupFrom(xs, seen) == [xs[0]] + DedupFrom(tail, seen + {xs[0]});
      assert xs == [xs[0]] + tail;
    }
  }

  lemma DedupKeepsDistinct(xs: seq<Cell>)
    requires NoDup(xs)
    ensures Dedup(xs) == xs
  {
    DedupFromKeepsDistinct(xs, {});
  }

  /* ---------- end-guard rule ---------- */

  /** The cell just before the first letter and the cell just after the last
      letter, along the word's own direction. A placement without letters
      has no guard cells. */
  function Guards(p: WordPlacement): seq<Cell> {
    if |p.letters| == 0 then []
    else [Shift(p.letters[0].cell, p.dir, -1), Shift(p.letters[|p.letters| - 1].cell, p.dir, 1)]
  }

  /** The end-guard cells of every placement, in placement order. */
  function EndGuards(ps: seq<WordPlacement>): seq<Cell> {
    if ps == [] then [] else EndGuards(ps[..|ps| - 1]) + Guards(ps[|ps| - 1])
  }

  ghost predicate IsEndGuard(ps: seq<WordPlacement>, c: Cell) {
    exists i :: 0 <= i < |ps| && c in Guards(ps[i])
  }

  lemma {:induction false} EndGuardsMembership(ps: seq<WordPlacement>, c: Cell)
    ensures c in EndGuards(ps) <==> IsEndGuard(ps, c)
  {
    if ps != [] {
      var init := ps[..|ps| - 1];
      EndGuardsMembership(init, c);
      if IsEndGuard(init, c) {
        var i :| 0 <= i < |init| && c in Guards(init[i]);
        assert ps[i] == init[i];
      }
      if IsEndGuard(ps, c) {
        var i :| 0 <= i < |ps| && c in Guards(ps[i]);
        if i < |ps| - 1 {
          assert init[i] == ps[i];
        }
      }
    }
  }

  /* ---------- cells shared by two words ---------- */

  /** `l1`'s cell once for every letter of `b` at that same cell. */
  function SameCell(l1: LetterPlacement, b: seq<LetterPlacement>): (r: seq<Cell>)
    ensures forall c :: c in r <==> c == l1.cell && c in CellsOf(b)
  {
    if b == [] then []
    else
      assert b == [b[0]] + b[1..];
      (if b[0].cell == l1.cell then [l1.cell] else []) + SameCell(l1, b[1..])
  }

  /** The cells where a letter of `a` and a letter of `b` coincide. */
  function PairCommon(a: seq<LetterPlacement>, b: seq<LetterPlacement>): (r: seq<Cell>)
    ensures forall c :: c in r <==> c in CellsOf(a) && c in CellsOf(b)
  {
    if a == [] then []
    else
      assert a == [a[0]] + a[1..];
      SameCell(a[0], b) + PairCommon(a[1..], b)
  }

  /** The cells `w1` shares with each of the later placements `rest`. */
  function CommonWithLater(w1: WordPlacement, rest: seq<WordPlacement>): (r: seq<Cell>)
    ensures forall c :: c in r <==> c in Cells(w1) && exists j :: 0 <= j < |rest| && c in Cells(rest[j])
  {
    if rest == [] then []
    else
      var tail := CommonWithLater(w1, rest[1..]);
      assert forall c :: (exists j :: 0 <= j < |rest| && c in Cells(rest[j])) <==>
          (c in Cells(rest[0]) || exists j :: 0 <= j < |rest[1..]| && c in Cells(rest[1..][j])) by {
        forall c ensures (exists j :: 0 <= j < |rest| && c in Cells(rest[j])) <==>
            (c in Cells(rest[0]) || exists j :: 0 <= j < |rest[1..]| && c in Cells(rest[1..][j])) {
          if exists j :: 0 <= j < |rest| && c in Cells(rest[j]) {
            var j :| 0 <= j < |rest| && c in Cells(rest[j]);
            if j > 0 {
              assert rest[1..][j - 1] == rest[j];
            }
          }
          if exists j :: 0 <= j < |rest[1..]| && c in Cells(rest[1..][j]) {
            var j :| 0 <= j < |rest[1..]| && c in Cells(rest[1..][j]);
            assert rest[1..][j] == rest[j + 1];
          }
        }
      }
      PairCommon(w1.letters, rest[0].letters) + tail
  }

  /** A cell where two different placements both have a letter. */
  ghost predicate IsCommon(ps: seq<WordPlacement>, c: Cell) {
    exists i, j :: 0 <= i < j < |ps| && c in Cells(ps[i]) && c in Cells(ps[j])
  }

  /** Every shared cell, once per pair of placements `i < j` and pair of
      letters, in the order the pairs are visited. */
  function CommonRaw(ps: seq<WordPlacement>): seq<Cell>
  {
    if ps == [] then [] else CommonWithLater(ps[0], ps[1..]) + CommonRaw(ps[1..])
  }

  lemma CommonInTail(ps: seq<WordPlacement>, c: Cell)
    requires ps != [] && IsCommon(ps[1..], c)
    ensures IsCommon(ps, c)
  {
    var tail := ps[1..];
    var i, j :| 0 <= i < j < |tail| && c in Cells(tail[i]) && c in Cells(tail[j]);
    assert ps[i + 1] == tail[i] && ps[j + 1] == tail[j];
  }

  lemma CommonWithFirst(ps: seq<WordPlacement>, c: Cell)
    requires ps != [] && c in CommonWithLater(ps[0], ps[1..])
    ensures IsCommon(ps, c)
  {
    var tail := ps[1..];
    var j :| 0 <= j < |tail| && c in Cells(tail[j]);
    assert ps[j + 1] == tail[j];
  }

  lemma CommonParts(ps: seq<WordPlacement>, c: Cell)
    requires ps != [] && IsCommon(ps, c)
    ensures c in CommonWithLater(ps[0], ps[1..]) || IsCommon(ps[1..], c)
  {
    var tail := ps[1..];
    var i, j :| 0 <= i < j < |ps| && c in Cells(ps[i]) && c in Cells(ps[j]);
    assert tail[j - 1] == ps[j];
    if i > 0 {
      assert tail[i - 1] == ps[i];
    }
  }

  /** A cell is shared in `ps` iff the first placement shares it with a
      later one or it is shared among the later ones. */
  lemma CommonSplit(ps: seq<WordPlacement>, c: Cell)
    requires ps != []
    ensures IsCommon(ps, c) <==> c in CommonWithLater(ps[0], ps[1..]) || IsCommon(ps[1..], c)
  {
    if IsCommon(ps[1..], c) {
      CommonInTail(ps, c);
    }
    if c in CommonWithLater(ps[0], ps[1..]) {
      CommonWithFirst(ps, c);
    }
    if IsCommon(ps, c) {
      CommonParts(ps, c);
    }
  }

  lemma {:induction false} CommonRawMembership(ps: seq<WordPlacement>, c: Cell)
    ensures c in CommonRaw(ps) <==> IsCommon(ps, c)
  {
    if ps != [] {
      CommonRawMembership(ps[1..], c);
      CommonSplit(ps, c);
    }
  }

  /** The source's `getCommonLettersPositionsOnGrid`, reduced to the cells it
      records: each shared cell once, in order of discovery. */
  function CommonLetterCells(ps: seq<WordPlacement>): (r: seq<Cell>)
    ensures NoDup(r)
    ensures forall c :: c in r <==> IsCommon(ps, c)
  {
    var r := Dedup(CommonRaw(ps));
    assert forall c :: c in r <==> IsCommon(ps, c) by {
      forall c ensures c in r <==> IsCommon(ps, c) {
        CommonRawMembership(ps, c);
      }
    }
    r
  }

  /* ---------- crowding rule ---------- */

  /** The four diagonal neighbours, in the order the source visits them. */
  function Diagonals(c: Cell): seq<Cell> {
    [Cell(c.x - 1, c.y - 1), Cell(c.x + 1, c.y - 1), Cell(c.x - 1, c.y + 1), Cell(c.x + 1, c.y + 1)]
  }

  /** How many of the four orthogonal neighbours of `d` are occupied. */
  function OrthogonalCount(occ: set<Cell>, d: Cell): (n: nat)
    ensures n <= 4
  {
    (if Cell(d.x, d.y - 1) in occ then 1 else 0) +
    (if Cell(d.x, d.y + 1) in occ then 1 else 0) +
    (if Cell(d.x - 1, d.y) in occ then 1 else 0) +
    (if Cell(d.x + 1, d.y) in occ then 1 else 0)
  }

  predicate Crowded(occ: set<Cell>, d: Cell) {
    OrthogonalCount(occ, d) >= 2
  }

  /** The crowded diagonal neighbours of one shared cell. */
  function CrowdedAround(c: Cell, occ: set<Cell>): (r: seq<Cell>)
    ensures forall d :: d in r <==> d in Diagonals(c) && Crowded(occ, d)
  {
    var ds := Diagonals(c);
    (if Crowded(occ, ds[0]) then [ds[0]] else []) +
    (if Crowded(occ, ds[1]) then [ds[1]] else []) +
    (if Crowded(occ, ds[2]) then [ds[2]] else []) +
    (if Crowded(occ, ds[3]) then [ds[3]] else [])
  }

  /** The crowded diagonal neighbours of every shared cell, in order. */
  function CrowdedCells(commons: seq<Cell>, occ: set<Cell>): (r: seq<Cell>)
    ensures forall d :: d in r <==> Crowded(occ, d) && exists c :: c in commons && d in Diagonals(c)
  {
    if commons == [] then []
    else
      assert commons == [commons[0]] + commons[1..];
      CrowdedAround(commons[0], occ) + CrowdedCells(commons[1..], occ)
  }

  /** A diagonal neighbour of a shared cell with at least two occupied
      orthogonal neighbours. */
  ghost predicate IsCrowdedCell(ps: seq<WordPlacement>, d: Cell) {
    Crowded(Occupied(ps), d) && exists c :: IsCommon(ps, c) && d in Diagonals(c)
  }

  /* ---------- the zone ---------- */

  ghost predicate InForbiddenZone(ps: seq<WordPlacement>, c: Cell) {
    IsEndGuard(ps, c) || IsCrowdedCell(ps, c)
  }

  /** The source's `calculateForbiddenPositions`: end guards first, then the
      crowded cells, with repeated cells dropped. */
  function ForbiddenPositions(ps: seq<WordPlacement>): (r: seq<Cell>)
    ensures NoDup(r)
    ensures forall c :: c in r <==> InForbiddenZone(ps, c)
  {
    var guards := EndGuards(ps);
    var crowded := CrowdedCells(CommonLetterCells(ps), Occupied(ps));
    var r := Dedup(guards + crowded);
    assert forall c :: c in r <==> InForbiddenZone(ps, c) by {
      forall c ensures c in r <==> InForbiddenZone(ps, c) {
        EndGuardsMembership(ps, c);
      }
    }
    r
  }

  /** The forbidden cells as a set, for membership tests. */
  function ForbiddenSet(ps: seq<WordPlacement>): (s: set<Cell>)
    ensures forall c :: c in s <==> InForbiddenZone(ps, c)
  {
    set c | c in ForbiddenPositions(ps)
  }
}
