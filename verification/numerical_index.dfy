/** The "Numerical Index" table of PEP 0: one row per PEP, with a blank
    line wherever the PEP number jumps by more than one. */
module NumericalIndex {
  import opened Peps

  /** One line of the table body. */
  datatype Line = Blank | Row(pep: Pep)

  /** The PEPs of the rows, in order. */
  function Rows(lines: seq<Line>): (r: seq<Pep>)
    ensures |r| <= |lines|
  {
    if lines == [] then []
    else if lines[0].Row? then [lines[0].pep] + Rows(lines[1..])
    else Rows(lines[1..])
  }

  /** Every blank line is followed by a row, and preceded by one unless
      it opens the table. */
  ghost predicate BlanksIsolated(lines: seq<Line>) {
    forall j :: 0 <= j < |lines| && lines[j].Blank? ==>
      j + 1 < |lines| && lines[j + 1].Row? && (j == 0 || lines[j - 1].Row?)
  }

  /** Around every blank line the number jumps by more than one; `start`
      stands for the row before the table. */
  ghost predicate JumpsAtBlanks(lines: seq<Line>, start: nat) {
    && (|lines| > 1 && lines[0].Blank? && lines[1].Row? ==> lines[1].pep.number - start > 1)
    && (forall j :: 0 < j < |lines| - 1 && lines[j].Blank? && lines[j - 1].Row? && lines[j + 1].Row? ==>
          lines[j + 1].pep.number - lines[j - 1].pep.number > 1)
  }

  /** Between two adjacent rows the number jumps by at most one; `start`
      stands for the row before the table. */
  ghost predicate NoJumpsBetweenRows(lines: seq<Line>, start: nat) {
    && (|lines| > 0 && lines[0].Row? ==> lines[0].pep.number - start <= 1)
    && (forall j :: 0 < j < |lines| && lines[j].Row? && lines[j - 1].Row? ==>
          lines[j].pep.number - lines[j - 1].pep.number <= 1)
  }

  /** A blank line stands between two rows (or the start of the table
      and a row) exactly when their numbers jump by more than one. */
  ghost predicate BlanksMarkJumps(lines: seq<Line>, start: nat) {
    BlanksIsolated(lines) && JumpsAtBlanks(lines, start) && NoJumpsBetweenRows(lines, start)
  }

  /** A row for `p` in front of lines laid out after `p`. */
  lemma PrependRow(p: Pep, rest: seq<Line>, prev: nat)
    requires BlanksMarkJumps(rest, p.number)
    requires p.number - prev <= 1
    ensures BlanksMarkJumps([Row(p)] + rest, prev)
  {
  }

  /** A blank line and a row for `p` in front of lines laid out after `p`. */
  lemma PrependBlankRow(p: Pep, rest: seq<Line>, prev: nat)
    requires BlanksMarkJumps(rest, p.number)
    requires p.number - prev > 1
    ensures BlanksMarkJumps([Blank, Row(p)] + rest, prev)
  {
  }

  /** The rows for `peps`, the previous row's number being `prev`. */
  function LinesFrom(peps: seq<Pep>, prev: nat): (r: seq<Line>)
    ensures Rows(r) == peps
    ensures BlanksMarkJumps(r, prev)
  {
    if peps == [] then []
    else
      var p := peps[0];
      var rest := LinesFrom(peps[1..], p.number);
      assert Rows([Row(p)] + rest) == peps;
      if p.number - prev > 1 then
        assert Rows([Blank, Row(p)] + rest) == peps;
        PrependBlankRow(p, rest, prev);
        [Blank, Row(p)] + rest
      else
        PrependRow(p, rest, prev);
        [Row(p)] + rest
  }

  /** The body of the numerical index for `peps`, which are sorted by
      number. */
  function IndexLines(peps: seq<Pep>): (r: seq<Line>)
    ensures Rows(r) == peps
    ensures BlanksMarkJumps(r, 0)
  {
    LinesFrom(peps, 0)
  }

  /** The lines after a row are laid out after that row. */
  lemma DropRow(lines: seq<Line>, prev: nat)
    requires BlanksMarkJumps(lines, prev)
    requires |lines| > 0 && lines[0].Row?
    ensures BlanksMarkJumps(lines[1..], lines[0].pep.number)
  {
  }

  /** The lines after a blank line and its row are laid out after that
      row. */
  lemma DropBlankRow(lines: seq<Line>, prev: nat)
    requires BlanksMarkJumps(lines, prev)
    requires |lines| > 0 && lines[0].Blank?
    ensures |lines| > 1 && lines[1].Row?
    ensures BlanksMarkJumps(lines[2..], lines[1].pep.number)
  {
  }

  /** The layout of `peps` is a blank line and a row for its first PEP
      followed by the layout of the others, when the first PEP's number
      jumps. */
  lemma LinesFromBlank(lines: seq<Line>, peps: seq<Pep>, prev: nat)
    requires |lines| > 1 && lines[0].Blank? && lines[1].Row?
    requires peps != [] && peps[0] == lines[1].pep && peps[0].number - prev > 1
    requires lines[2..] == LinesFrom(peps[1..], peps[0].number)
    ensures lines == LinesFrom(peps, prev)
  {
  }

  /** The layout of `peps` is a row for its first PEP followed by the
      layout of the others, when the first PEP's number does not jump. */
  lemma LinesFromRow(lines: seq<Line>, peps: seq<Pep>, prev: nat)
    requires |lines| > 0 && lines[0].Row?
    requires peps != [] && peps[0] == lines[0].pep && peps[0].number - prev <= 1
    requires lines[1..] == LinesFrom(peps[1..], peps[0].number)
    ensures lines == LinesFrom(peps, prev)
  {
  }

  /** The rows of lines starting with a blank line and a row. */
  lemma RowsAfterBlank(lines: seq<Line>)
    requires |lines| > 1 && lines[0].Blank? && lines[1].Row?
    ensures Rows(lines) == [lines[1].pep] + Rows(lines[2..])
  {
  }

  /** Erasing the blank lines gives back the PEPs, and the blank lines
      mark exactly the jumps: no other layout has both properties. */
  lemma {:induction false} LayoutIsUnique(lines: seq<Line>, peps: seq<Pep>, prev: nat)
    requires Rows(lines) == peps
    requires BlanksMarkJumps(lines, prev)
    ensures lines == LinesFrom(peps, prev)
    decreases |lines|
  {
    if lines != [] {
      if lines[0].Blank? {
        DropBlankRow(lines, prev);
        RowsAfterBlank(lines);
        LayoutIsUnique(lines[2..], peps[1..], lines[1].pep.number);
        LinesFromBlank(lines, peps, prev);
      } else {
        DropRow(lines, prev);
        LayoutIsUnique(lines[1..], peps[1..], lines[0].pep.number);
        LinesFromRow(lines, peps, prev);
      }
    }
  }
}
