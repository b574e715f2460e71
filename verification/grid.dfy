/** Cells, letters and word placements of the crossword grid, and the
    letter lookup built from the words already on it. */
module Grid {

  datatype Option<T> = None | Some(value: T)

  datatype Direction = Horizontal | Vertical

  /** A grid cell: `x` is the column (grows to the right), `y` the row (grows downwards). */
  datatype Cell = Cell(x: int, y: int)

  datatype Dims = Dims(rows: int, cols: int)

  /** One letter of a word written at one cell. */
  datatype LetterPlacement = LetterPlacement(letter: char, cell: Cell)

  /** A word laid out on the grid; `letters[i]` is the placement of `word[i]`. */
  datatype WordPlacement = WordPlacement(word: string, dir: Direction, letters: seq<LetterPlacement>)

  predicate InGrid(dims: Dims, c: Cell) {
    0 <= c.x < dims.cols && 0 <= c.y < dims.rows
  }

  /** The cell `d` steps away from `c` along the axis of `dir`. */
  function Shift(c: Cell, dir: Direction, d: int): Cell {
    match dir
    case Horizontal => Cell(c.x + d, c.y)
    case Vertical => Cell(c.x, c.y + d)
  }

  function CellsOf(ls: seq<LetterPlacement>): set<Cell> {
    set l | l in ls :: l.cell
  }

  function Cells(p: WordPlacement): set<Cell> {
    CellsOf(p.letters)
  }

  /** Every placed letter, word after word, in placement order. */
  function AllLetters(ps: seq<WordPlacement>): seq<LetterPlacement> {
    if ps == [] then [] else AllLetters(ps[..|ps| - 1]) + ps[|ps| - 1].letters
  }

  /** The cells holding some placed letter. */
  function Occupied(ps: seq<WordPlacement>): set<Cell> {
    CellsOf(AllLetters(ps))
  }

  lemma {:induction false} AllLettersMembership(ps: seq<WordPlacement>, l: LetterPlacement)
    ensures l in AllLetters(ps) <==> exists i :: 0 <= i < |ps| && l in ps[i].letters
  {
    if ps != [] {
      var init := ps[..|ps| - 1];
      AllLettersMembership(init, l);
      if l in AllLetters(ps) && l !in ps[|ps| - 1].letters {
        var i :| 0 <= i < |init| && l in init[i].letters;
        assert ps[i] == init[i];
      }
      if exists i :: 0 <= i < |ps| && l in ps[i].letters {
        var i :| 0 <= i < |ps| && l in ps[i].letters;
        if i < |ps| - 1 {
          assert init[i] == ps[i];
        }
      }
    }
  }

  lemma AllLettersAppend(ps: seq<WordPlacement>, p: WordPlacement)
    ensures AllLetters(ps + [p]) == AllLetters(ps) + p.letters
  {
    assert (ps + [p])[..|ps|] == ps;
  }

  /** `m[c]` is the letter of the LAST placement in `ls` that sits at `c`. */
  ghost predicate LastWriterAt(ls: seq<LetterPlacement>, c: Cell, ch: char) {
    exists i :: 0 <= i < |ls| && ls[i] == LetterPlacement(ch, c) && forall j :: i < j < |ls| ==> ls[j].cell != c
  }

  /** The cell-to-letter lookup of the placed letters; a later letter at a
      cell overwrites an earlier one, as a keyed assignment does. */
  function LetterMap(ls: seq<LetterPlacement>): (m: map<Cell, char>)
    ensures m.Keys == CellsOf(ls)
    ensures forall c :: c in m ==> LastWriterAt(ls, c, m[c])
  {
    if ls == [] then map[]
    else
      var init := ls[..|ls| - 1];
      var last := ls[|ls| - 1];
      var m := LetterMap(init);
      assert ls == init + [last];
      assert forall c :: c in m && c != last.cell ==> LastWriterAt(ls, c, m[c]) by {
        forall c | c in m && c != last.cell
          ensures LastWriterAt(ls, c, m[c])
        {
          assert LastWriterAt(init, c, m[c]);
          var i :| 0 <= i < |init| && init[i] == LetterPlacement(m[c], c) && forall j :: i < j < |init| ==> init[j].cell != c;
          assert ls[i] == init[i];
          assert forall j :: i < j < |ls| ==> ls[j].cell != c;
        }
      }
      assert LastWriterAt(ls, last.cell, last.letter) by {
        assert ls[|ls| - 1] == LetterPlacement(last.letter, last.cell);
      }
      m[last.cell := last.letter]
  }

  /** No cell holds two different letters. */
  ghost predicate Consistent(ls: seq<LetterPlacement>) {
    forall i, j :: 0 <= i < |ls| && 0 <= j < |ls| && ls[i].cell == ls[j].cell ==> ls[i].letter == ls[j].letter
  }

  /** When the placed letters are consistent, the lookup gives the one letter
      every placement at that cell carries. */
  lemma LetterMapConsistent(ls: seq<LetterPlacement>, i: int)
    requires Consistent(ls)
    requires 0 <= i < |ls|
    ensures ls[i].cell in LetterMap(ls) && LetterMap(ls)[ls[i].cell] == ls[i].letter
  {
    var m := LetterMap(ls);
    var c := ls[i].cell;
    assert c in CellsOf(ls);
    assert LastWriterAt(ls, c, m[c]);
  }

  ghost predicate NoDup<T>(xs: seq<T>) {
    forall i, j :: 0 <= i < j < |xs| ==> xs[i] != xs[j]
  }
}
