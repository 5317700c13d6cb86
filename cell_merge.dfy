/** The cell merge rule of recordExpense: how one ledger cell absorbs one more
    amount and its description. */
module CellMerge {
  import opened Text

  /** What a cell holds, as the merge rule tells it apart.
      Empty: the value is null or ''. Number: a plain number and no formula.
      Formula: a formula whose text is `base` followed by one " + amount" term per
      entry of `addends`; `baseValue` is what `base` computed to when it was read
      (for a formula made from a plain number v, `base` is "= v"). */
  datatype Content =
    | Empty
    | Number(value: int)
    | Formula(base: string, baseValue: int, addends: seq<int>)

  /** A cell and its note; the note "" stands for a missing or empty note. */
  datatype Cell = Cell(content: Content, note: string)

  /** One amount written into a cell, with the description that goes into its note. */
  datatype Write = Write(amount: int, description: string)

  const Blank := Cell(Empty, "")

  function Sum(s: seq<int>): int
  {
    if s == [] then 0 else Sum(s[..|s| - 1]) + s[|s| - 1]
  }

  /** The " + a" terms a formula gains, one per addend, in order. */
  function AddendsText(addends: seq<int>): string
  {
    if addends == [] then ""
    else AddendsText(addends[..|addends| - 1]) + " + " + IntToString(addends[|addends| - 1])
  }

  /** The formula text stored in a formula cell. */
  function FormulaText(c: Content): string
    requires c.Formula?
  {
    c.base + AddendsText(c.addends)
  }

  /** The number a cell shows: nothing counts as 0, a formula shows its base's
      value plus every addend. */
  function Total(c: Content): int
  {
    match c
    case Empty => 0
    case Number(v) => v
    case Formula(_, v, addends) => v + Sum(addends)
  }

  /** The note after one more description: the description alone when there is
      no note yet, otherwise the note, ", " and the description. */
  function AppendNote(note: string, description: string): string
  {
    if note == "" then description else note + ", " + description
  }

  /** The three-way rule: an empty cell takes the amount as its value and the
      description as its note (a previous note is dropped); a formula gets
      " + amount" appended; a plain number v becomes the formula "= v + amount".
      In the last two cases the description is added to the note. */
  function Merge(cell: Cell, w: Write): (r: Cell)
    ensures Total(r.content) == Total(cell.content) + w.amount
    ensures !r.content.Empty?
    ensures r.content.Number? <==> cell.content.Empty?
    ensures r.content.Number? ==> r.content.value == w.amount
    ensures r.content.Formula? ==>
      FormulaText(r.content)
        == (if cell.content.Formula? then FormulaText(cell.content)
            else "= " + IntToString(cell.content.value))
           + " + " + IntToString(w.amount)
    ensures r.note == if cell.content.Empty? then w.description else AppendNote(cell.note, w.description)
  {
    match cell.content
    case Empty => Cell(Number(w.amount), w.description)
    case Formula(base, v, addends) =>
      assert (addends + [w.amount])[..|addends|] == addends;
      Cell(Formula(base, v, addends + [w.amount]), AppendNote(cell.note, w.description))
    case Number(v) =>
      assert [w.amount][..0] == [];
      assert Sum([w.amount]) == w.amount;
      assert AddendsText([w.amount]) == "" + " + " + IntToString(w.amount);
      Cell(Formula("= " + IntToString(v), v, [w.amount]), AppendNote(cell.note, w.description))
  }

  /** Several writes into one cell, applied in order. */
  function MergeEach(cell: Cell, ws: seq<Write>): Cell
  {
    if ws == [] then cell else Merge(MergeEach(cell, ws[..|ws| - 1]), ws[|ws| - 1])
  }

  function Amounts(ws: seq<Write>): (s: seq<int>)
    ensures |s| == |ws| && forall i :: 0 <= i < |ws| ==> s[i] == ws[i].amount
  {
    if ws == [] then [] else Amounts(ws[..|ws| - 1]) + [ws[|ws| - 1].amount]
  }

  function Descriptions(ws: seq<Write>): (s: seq<string>)
    ensures |s| == |ws| && forall i :: 0 <= i < |ws| ==> s[i] == ws[i].description
  {
    if ws == [] then [] else Descriptions(ws[..|ws| - 1]) + [ws[|ws| - 1].description]
  }

  /** Applying a + b is applying a, then b. */
  lemma {:induction false} MergeEachAppend(cell: Cell, a: seq<Write>, b: seq<Write>)
    ensures MergeEach(cell, a + b) == MergeEach(MergeEach(cell, a), b)
  {
    if b == [] {
      assert a + b == a;
    } else {
      assert (a + b)[..|a + b| - 1] == a + b[..|b| - 1];
      MergeEachAppend(cell, a, b[..|b| - 1]);
    }
  }

  /** The number a cell shows grows by exactly the sum of the amounts merged
      into it, whatever state it started in. */
  lemma {:induction false} MergeEachTotal(cell: Cell, ws: seq<Write>)
    ensures Total(MergeEach(cell, ws).content) == Total(cell.content) + Sum(Amounts(ws))
  {
    if ws != [] {
      MergeEachTotal(cell, ws[..|ws| - 1]);
    }
  }

  /** A cell receiving writes never returns to empty. */
  lemma {:induction false} MergeEachNotEmpty(cell: Cell, ws: seq<Write>)
    ensures !cell.content.Empty? || ws != [] ==> !MergeEach(cell, ws).content.Empty?
  {
  }

  /** Writes a1 .. an (n >= 1) merged into an empty cell: the cell shows
      a1 + .. + an, holding the plain number a1 when n = 1 and the formula
      "= a1 + a2 + .. + an" otherwise. */
  lemma {:induction false} MergeIntoEmpty(cell: Cell, ws: seq<Write>)
    requires cell.content.Empty? && |ws| >= 1
    ensures var r := MergeEach(cell, ws).content;
      && Total(r) == Sum(Amounts(ws))
      && (|ws| == 1 ==> r == Number(ws[0].amount))
      && (|ws| >= 2 ==>
            r == Formula("= " + IntToString(ws[0].amount), ws[0].amount, Amounts(ws[1..])))
  {
    MergeEachTotal(cell, ws);
    var n := |ws|;
    var init := ws[..n - 1];
    if n == 1 {
      assert init == [];
    } else {
      MergeIntoEmpty(cell, init);
      var prev := MergeEach(cell, init).content;
      assert MergeEach(cell, ws).content == Merge(MergeEach(cell, init), ws[n - 1]).content;
      var rest := Amounts(ws[1..]);
      AmountsOfTail(ws);
      if n == 2 {
        assert init == [ws[0]];
        assert prev == Number(ws[0].amount);
        assert Amounts(init[1..]) == [];
      } else {
        assert prev == Formula("= " + IntToString(ws[0].amount), ws[0].amount, Amounts(init[1..]));
      }
    }
  }

  lemma AmountsOfTail(ws: seq<Write>)
    requires |ws| >= 2
    ensures Amounts(ws[1..]) == Amounts(ws[..|ws| - 1][1..]) + [ws[|ws| - 1].amount]
  {
    var t := ws[1..];
    assert t[..|t| - 1] == ws[..|ws| - 1][1..];
  }

  /** When no description is empty, the note of a cell that was empty before
      the writes is their descriptions joined by ", " in merge order, whatever
      note the cell had before. */
  lemma {:induction false} MergeIntoEmptyNote(cell: Cell, ws: seq<Write>)
    requires cell.content.Empty? && |ws| >= 1
    requires forall i :: 0 <= i < |ws| ==> ws[i].description != ""
    ensures MergeEach(cell, ws).note == Join(Descriptions(ws), ", ")
  {
    var n := |ws|;
    var init := ws[..n - 1];
    if n == 1 {
      assert init == [];
      assert Descriptions(ws) == [ws[0].description];
    } else {
      MergeIntoEmptyNote(cell, init);
      MergeEachNotEmpty(cell, init);
      var prev := MergeEach(cell, init);
      JoinNonEmpty(Descriptions(init));
      assert prev.note != "";
      JoinSnoc(Descriptions(init), ws[n - 1].description, ", ");
      assert Descriptions(ws) == Descriptions(init) + [ws[n - 1].description];
    }
  }

  /** Joining non-empty strings never gives the empty string. */
  lemma {:induction false} JoinNonEmpty(parts: seq<string>)
    requires |parts| >= 1 && forall i :: 0 <= i < |parts| ==> parts[i] != ""
    ensures Join(parts, ", ") != ""
  {
  }

  /** Merging is not idempotent: the same write merged twice counts twice. */
  lemma MergeTwiceCountsTwice(cell: Cell, w: Write)
    ensures Total(Merge(Merge(cell, w), w).content) == Total(cell.content) + 2 * w.amount
  {
  }
}
