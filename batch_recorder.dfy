/** The batch recorder of recordExpense, as values: the date pass, grouping by
    month tab, column resolution, the loaded rectangle, the per-group merge of
    cells, and the outcome of a whole batch. The loops of the source are the
    methods here, each proved equal to the function that specifies it. */
module BatchRecorder {
  import opened Text
  import opened MonthResolver
  import opened CellMerge
  import opened CategoryDirectory

  /** One parsed expense: description, amount, category name, "DD/MM/YYYY" date. */
  datatype Expense = Expense(description: string, amount: int, category: string, date: string)

  /** An expense that passed the date check, with its day, row and tab title. */
  datatype Dated = Dated(expense: Expense, day: int, rowIndex: int, sheetTitle: string)

  /** An expense whose category resolved to a column: what `recorded` holds. */
  datatype Placed = Placed(expense: Expense, day: int, rowIndex: int, sheetTitle: string, colIndex: int)

  datatype Pos = Pos(row: int, col: int)

  /** The rectangle of cells loaded for a group, bounds included. */
  datatype Rect = Rect(minRow: int, maxRow: int, minCol: int, maxCol: int)
  {
    predicate Contains(p: Pos)
    {
      minRow <= p.row <= maxRow && minCol <= p.col <= maxCol
    }
  }

  /** A month tab: its header row and its stored cells (a cell absent from the map
      is blank). */
  datatype Tab = Tab(headers: seq<string>, cells: map<Pos, Cell>)

  /** What recordExpense does for its caller: return {recorded, errors}, or throw. */
  datatype Outcome = Returned(recorded: seq<Placed>, errors: seq<string>) | Thrown(message: string)

  /** The outcome together with the tabs as they are afterwards. */
  datatype Run = Run(outcome: Outcome, tabs: map<string, Tab>)

  function CellAt(grid: map<Pos, Cell>, p: Pos): Cell
  {
    if p in grid then grid[p] else Blank
  }

  function PosOf(e: Placed): Pos
  {
    Pos(e.rowIndex, e.colIndex)
  }

  function WriteOf(e: Placed): Write
  {
    Write(e.expense.amount, e.expense.description)
  }

  /** The expenses of dated records, in order. */
  function DatedExpenses(vs: seq<Dated>): (r: seq<Expense>)
    ensures |r| == |vs|
  {
    if vs == [] then [] else DatedExpenses(vs[..|vs| - 1]) + [vs[|vs| - 1].expense]
  }

  /** The expenses of placed records, in order. */
  function PlacedExpenses(ps: seq<Placed>): (r: seq<Expense>)
    ensures |r| == |ps|
  {
    if ps == [] then [] else PlacedExpenses(ps[..|ps| - 1]) + [ps[|ps| - 1].expense]
  }

  lemma {:induction false} PlacedExpensesAt(ps: seq<Placed>, i: nat)
    requires i < |ps|
    ensures PlacedExpenses(ps)[i] == ps[i].expense
  {
    if i < |ps| - 1 {
      PlacedExpensesAt(ps[..|ps| - 1], i);
    }
  }

  // ---------------------------------------------------------------------------
  // Date pass

  function DateError(e: Expense): string
  {
    "Ngày không hợp lệ: \"" + e.date + "\" cho \"" + e.description + "\""
  }

  /** The date facts a surviving record carries. */
  predicate WellDated(v: Dated)
  {
    && DayOf(v.expense.date) == Some(v.day)
    && v.rowIndex == RowIndex(v.day)
    && v.sheetTitle == SheetTitle(v.expense.date)
  }

  /** The records that pass the date check, in input order. */
  function ValidOf(es: seq<Expense>): seq<Dated>
  {
    if es == [] then []
    else
      var init := ValidOf(es[..|es| - 1]);
      var e := es[|es| - 1];
      match DayOf(e.date)
      case None => init
      case Some(d) => init + [Dated(e, d, RowIndex(d), SheetTitle(e.date))]
  }

  /** One error per record that fails the date check, in input order. */
  function DateErrorsOf(es: seq<Expense>): seq<string>
  {
    if es == [] then []
    else
      var init := DateErrorsOf(es[..|es| - 1]);
      var e := es[|es| - 1];
      if DayOf(e.date).None? then init + [DateError(e)] else init
  }

  /** The elements of s that satisfy p, in order. */
  function Filter<T>(s: seq<T>, p: T -> bool): seq<T>
  {
    if s == [] then []
    else
      var init := Filter(s[..|s| - 1], p);
      if p(s[|s| - 1]) then init + [s[|s| - 1]] else init
  }

  /** A filter keeps each element that satisfies p as often as s holds it, and
      no other element. */
  lemma {:induction false} FilterCount<T>(s: seq<T>, p: T -> bool, x: T)
    ensures multiset(Filter(s, p))[x] == if p(x) then multiset(s)[x] else 0
  {
    if s != [] {
      var init := s[..|s| - 1];
      var y := s[|s| - 1];
      FilterCount(init, p, x);
      assert s == init + [y];
    }
  }

  predicate DateFails(e: Expense)
  {
    DayOf(e.date).None?
  }

  /** The records that fail the date check, in input order. */
  function Rejected(es: seq<Expense>): seq<Expense>
  {
    Filter(es, DateFails)
  }

  /** The first loop of recordExpense. */
  method CollectValid(expenses: seq<Expense>) returns (valid: seq<Dated>, errors: seq<string>)
    ensures valid == ValidOf(expenses) && errors == DateErrorsOf(expenses)
  {
    valid, errors := [], [];
    for i := 0 to |expenses|
      invariant valid == ValidOf(expenses[..i])
      invariant errors == DateErrorsOf(expenses[..i])
    {
      assert expenses[..i + 1][..i] == expenses[..i];
      var expense := expenses[i];
      var parts := Split(expense.date, '/');
      if |parts| != 3 {
        errors := errors + [DateError(expense)];
        continue;
      }
      var day := ParseInt(parts[0]);
      if day.None? || day.value < 1 || day.value > 31 {
        errors := errors + [DateError(expense)];
        continue;
      }
      var sheetTitle := SheetTitle(expense.date);
      valid := valid + [Dated(expense, day.value, day.value + 1, sheetTitle)];
    }
    assert expenses[..|expenses|] == expenses;
  }

  /** A record is among the survivors as often as in the input when its date
      is accepted, and not at all otherwise. */
  lemma {:induction false} AcceptedCount(es: seq<Expense>, e: Expense)
    ensures multiset(DatedExpenses(ValidOf(es)))[e] == if DayOf(e.date).Some? then multiset(es)[e] else 0
  {
    if es != [] {
      var init := es[..|es| - 1];
      var x := es[|es| - 1];
      AcceptedCount(init, e);
      assert multiset(es)[e] == multiset(init)[e] + if x == e then 1 else 0 by {
        assert es == init + [x];
      }
      var before := ValidOf(init);
      if DayOf(x.date).Some? {
        assert multiset(DatedExpenses(ValidOf(es)))[e] ==
          multiset(DatedExpenses(before))[e] + if x == e then 1 else 0 by {
          var v := Dated(x, DayOf(x.date).value, RowIndex(DayOf(x.date).value), SheetTitle(x.date));
          assert ValidOf(es) == before + [v];
          assert (before + [v])[..|before|] == before;
          assert DatedExpenses(ValidOf(es)) == DatedExpenses(before) + [x];
        }
      } else {
        assert ValidOf(es) == before;
      }
    }
  }


  /** The date errors are those of the rejected records, in input order. */
  lemma {:induction false} DateErrorsOfRejected(es: seq<Expense>)
    ensures |DateErrorsOf(es)| == |Rejected(es)|
    ensures forall i :: 0 <= i < |Rejected(es)| ==> DateErrorsOf(es)[i] == DateError(Rejected(es)[i])
  {
    if es != [] {
      DateErrorsOfRejected(es[..|es| - 1]);
    }
  }

  /** Every record lands in exactly one of the two lists: the survivors and the
      rejected records together are the input, the rejected records are the
      input records whose date fails, and each has its date error, in order. */
  lemma DatePassCount(es: seq<Expense>)
    ensures |ValidOf(es)| + |DateErrorsOf(es)| == |es|
    ensures multiset(DatedExpenses(ValidOf(es))) + multiset(Rejected(es)) == multiset(es)
    ensures forall e :: e in Rejected(es) <==> e in es && DayOf(e.date).None?
    ensures |DateErrorsOf(es)| == |Rejected(es)|
    ensures forall i :: 0 <= i < |Rejected(es)| ==> DateErrorsOf(es)[i] == DateError(Rejected(es)[i])
  {
    var accepted := multiset(DatedExpenses(ValidOf(es)));
    var rejected := multiset(Rejected(es));
    forall e
      ensures (accepted + rejected)[e] == multiset(es)[e]
      ensures e in Rejected(es) <==> e in es && DayOf(e.date).None?
    {
      AcceptedCount(es, e);
      FilterCount(es, DateFails, e);
    }
    assert accepted + rejected == multiset(es);
    DateErrorsOfRejected(es);
    assert |accepted + rejected| == |es|;
  }

  /** The survivors are input records that parsed to a day in [1, 31], written
      in row day + 1 (2 to 32) of the tab their date names. */
  lemma {:induction false} DatePass(es: seq<Expense>)
    ensures forall i :: 0 <= i < |ValidOf(es)| ==>
      var v := ValidOf(es)[i];
      WellDated(v) && v.expense in es && 2 <= v.rowIndex <= 32
  {
    if es != [] {
      var n := |es|;
      var init := es[..n - 1];
      DatePass(init);
      var valid := ValidOf(es);
      var before := ValidOf(init);
      forall i | 0 <= i < |valid|
        ensures WellDated(valid[i]) && valid[i].expense in es && 2 <= valid[i].rowIndex <= 32
      {
        if i < |before| {
          assert valid[i] == before[i];
          var k :| 0 <= k < |init| && init[k] == before[i].expense;
          assert es[k] == init[k];
        } else {
          assert valid[i].expense == es[n - 1];
        }
      }
    }
  }

  // ---------------------------------------------------------------------------
  // Grouping by tab title

  /** The distinct tab titles in order of first appearance: the key order of
      the `groups` object (a title always holds '/', so it is never an
      integer-like key that Object.entries would list first). */
  function Titles(valid: seq<Dated>): seq<string>
  {
    if valid == [] then []
    else
      var init := Titles(valid[..|valid| - 1]);
      var t := valid[|valid| - 1].sheetTitle;
      if t in init then init else init + [t]
  }

  /** The records of one tab, in input order. */
  function GroupOf(valid: seq<Dated>, title: string): seq<Dated>
  {
    if valid == [] then []
    else
      var init := GroupOf(valid[..|valid| - 1], title);
      if valid[|valid| - 1].sheetTitle == title then init + [valid[|valid| - 1]] else init
  }

  predicate Distinct<T(==)>(s: seq<T>)
  {
    forall i, j :: 0 <= i < j < |s| ==> s[i] != s[j]
  }

  /** Each title is listed once, and exactly the titles of the records are listed. */
  lemma {:induction false} TitlesSpec(valid: seq<Dated>)
    ensures Distinct(Titles(valid))
    ensures forall t :: t in Titles(valid) <==> exists i :: 0 <= i < |valid| && valid[i].sheetTitle == t
  {
    if valid != [] {
      var init := valid[..|valid| - 1];
      TitlesSpec(init);
      forall t | exists i :: 0 <= i < |valid| && valid[i].sheetTitle == t
        ensures t in Titles(valid)
      {
        var i :| 0 <= i < |valid| && valid[i].sheetTitle == t;
        if i < |valid| - 1 {
          assert init[i].sheetTitle == t;
        }
      }
    }
  }

  /** A group holds records of its own title only, taken from the input; it is
      empty exactly when its title is not listed. */
  lemma {:induction false} GroupOfSpec(valid: seq<Dated>, title: string)
    ensures forall i :: 0 <= i < |GroupOf(valid, title)| ==>
      GroupOf(valid, title)[i].sheetTitle == title && GroupOf(valid, title)[i] in valid
    ensures GroupOf(valid, title) == [] <==> title !in Titles(valid)
  {
    if valid != [] {
      var init := valid[..|valid| - 1];
      GroupOfSpec(init, title);
      assert forall v :: v in init ==> v in valid;
    }
  }

  /** The second loop of recordExpense: `groups[title]` lists the records of each
      title, and the keys enter in order of first appearance. */
  method GroupByTitle(valid: seq<Dated>) returns (titles: seq<string>, groups: map<string, seq<Dated>>)
    ensures titles == Titles(valid)
    ensures forall t :: t in groups <==> t in titles
    ensures forall t :: t in groups ==> groups[t] == GroupOf(valid, t)
  {
    titles, groups := [], map[];
    for i := 0 to |valid|
      invariant titles == Titles(valid[..i])
      invariant forall t :: t in groups <==> t in titles
      invariant forall t :: t in groups ==> groups[t] == GroupOf(valid[..i], t)
    {
      assert valid[..i + 1][..i] == valid[..i];
      var t := valid[i].sheetTitle;
      if t !in groups {
        GroupOfSpec(valid[..i], t);
        groups := groups[t := []];
        titles := titles + [t];
      }
      groups := groups[t := groups[t] + [valid[i]]];
    }
    assert valid[..|valid|] == valid;
  }

  /** The groups of the given titles, one after another. */
  function Grouped(titles: seq<string>, valid: seq<Dated>): seq<Dated>
  {
    if titles == [] then [] else Grouped(titles[..|titles| - 1], valid) + GroupOf(valid, titles[|titles| - 1])
  }

  /** A group holds each record of its title as often as the records do, and
      no record of another title. */
  lemma {:induction false} GroupOfCount(valid: seq<Dated>, t: string, v: Dated)
    ensures multiset(GroupOf(valid, t))[v] == if v.sheetTitle == t then multiset(valid)[v] else 0
  {
    if valid != [] {
      var init := valid[..|valid| - 1];
      var x := valid[|valid| - 1];
      GroupOfCount(init, t, v);
      assert valid == init + [x];
      assert multiset(valid)[v] == multiset(init)[v] + if x == v then 1 else 0;
    }
  }

  /** When every record of expense e has title `home`, the group of that title
      holds e as often as the records do, and another group does not hold it. */
  lemma {:induction false} GroupExpenseCount(valid: seq<Dated>, t: string, e: Expense, home: string)
    requires forall i :: 0 <= i < |valid| && valid[i].expense == e ==> valid[i].sheetTitle == home
    ensures multiset(DatedExpenses(GroupOf(valid, t)))[e] ==
      if home == t then multiset(DatedExpenses(valid))[e] else 0
  {
    if valid != [] {
      var init := valid[..|valid| - 1];
      var v := valid[|valid| - 1];
      GroupExpenseCount(init, t, e, home);
      assert valid == init + [v];
      assert DatedExpenses(valid) == DatedExpenses(init) + [v.expense];
      assert multiset(DatedExpenses(valid))[e] == multiset(DatedExpenses(init))[e] + if v.expense == e then 1 else 0;
      if v.sheetTitle == t {
        var before := GroupOf(init, t);
        assert (before + [v])[..|before|] == before;
        assert DatedExpenses(before + [v]) == DatedExpenses(before) + [v.expense];
      }
    }
  }

  /** The groups of distinct titles hold each record of one of those titles as
      often as the records do, and no other record. */
  lemma {:induction false} GroupedCount(titles: seq<string>, valid: seq<Dated>, v: Dated)
    requires Distinct(titles)
    ensures multiset(Grouped(titles, valid))[v] == if v.sheetTitle in titles then multiset(valid)[v] else 0
  {
    if titles != [] {
      var n := |titles|;
      var init := titles[..n - 1];
      var t := titles[n - 1];
      assert Distinct(init);
      assert titles == init + [t];
      assert t !in init by {
        assert forall i :: 0 <= i < n - 1 ==> init[i] == titles[i] != t;
      }
      GroupedCount(init, valid, v);
      GroupOfCount(valid, t, v);
    }
  }

  /** The groups together hold every surviving record, each exactly once. */
  lemma GroupsCoverAll(valid: seq<Dated>)
    ensures multiset(Grouped(Titles(valid), valid)) == multiset(valid)
  {
    TitlesSpec(valid);
    forall v
      ensures multiset(Grouped(Titles(valid), valid))[v] == multiset(valid)[v]
    {
      GroupedCount(Titles(valid), valid, v);
      if v in valid {
        var i :| 0 <= i < |valid| && valid[i] == v;
      }
    }
  }

  // ---------------------------------------------------------------------------
  // Column resolution

  function CategoryError(category: string, keys: seq<string>): string
  {
    "Category \"" + category + "\" không có trên sheet. Các category có sẵn: " + Join(keys, ", ")
  }

  function Place(v: Dated, col: int): Placed
  {
    Placed(v.expense, v.day, v.rowIndex, v.sheetTitle, col)
  }

  /** The records of a group whose category names a column, in group order. */
  function Resolved(group: seq<Dated>, categoryMap: map<string, int>): seq<Placed>
  {
    if group == [] then []
    else
      var init := Resolved(group[..|group| - 1], categoryMap);
      var v := group[|group| - 1];
      match ColumnOf(categoryMap, v.expense.category)
      case None => init
      case Some(col) => init + [Place(v, col)]
  }

  /** One error per record of the group whose category names no column. */
  function CategoryErrors(group: seq<Dated>, categoryMap: map<string, int>, keys: seq<string>): seq<string>
  {
    if group == [] then []
    else
      var init := CategoryErrors(group[..|group| - 1], categoryMap, keys);
      var v := group[|group| - 1];
      if ColumnOf(categoryMap, v.expense.category).None? then init + [CategoryError(v.expense.category, keys)]
      else init
  }

  /** Record v, on a tab with this header row, is accounted for in the lists:
      placed at its column when its category names one, reported with the
      tab's category list otherwise. */
  predicate KeptOrReported(headers: seq<string>, v: Dated, recorded: seq<Placed>, errors: seq<string>)
  {
    match ColumnOf(CategoryMap(headers), v.expense.category)
    case Some(c) => Place(v, c) in recorded
    case None => CategoryError(v.expense.category, CategoryKeys(headers)) in errors
  }

  /** The category loop of one group. */
  method ResolveColumns(group: seq<Dated>, categoryMap: map<string, int>, keys: seq<string>)
    returns (sheetValid: seq<Placed>, errors: seq<string>)
    ensures sheetValid == Resolved(group, categoryMap)
    ensures errors == CategoryErrors(group, categoryMap, keys)
  {
    sheetValid, errors := [], [];
    for i := 0 to |group|
      invariant sheetValid == Resolved(group[..i], categoryMap)
      invariant errors == CategoryErrors(group[..i], categoryMap, keys)
    {
      assert group[..i + 1][..i] == group[..i];
      var expense := group[i];
      var colIndex := ColumnOf(categoryMap, expense.expense.category);
      if colIndex.None? {
        errors := errors + [CategoryError(expense.expense.category, keys)];
        continue;
      }
      sheetValid := sheetValid + [Place(expense, colIndex.value)];
    }
    assert group[..|group|] == group;
  }

  /** Each record of the group is either placed or reported, never both. A placed
      record keeps its date fields and goes to the last header column that
      carries its category, which is never column 0. */
  lemma {:induction false} ResolveSpec(group: seq<Dated>, headers: seq<string>)
    ensures var cmap := CategoryMap(headers);
      |Resolved(group, cmap)| + |CategoryErrors(group, cmap, CategoryKeys(headers))| == |group|
    ensures forall i :: 0 <= i < |Resolved(group, CategoryMap(headers))| ==>
      var p := Resolved(group, CategoryMap(headers))[i];
      && 1 <= p.colIndex < |headers| && headers[p.colIndex] == p.expense.category
      && (forall k :: p.colIndex < k < |headers| ==> headers[k] != p.expense.category)
      && exists j :: 0 <= j < |group| && Place(group[j], p.colIndex) == p
  {
    if group != [] {
      var init := group[..|group| - 1];
      var v := group[|group| - 1];
      ResolveSpec(init, headers);
      ColumnOfResolvesExactlyHeaders(headers, v.expense.category);
      var r := Resolved(group, CategoryMap(headers));
      forall i | 0 <= i < |r|
        ensures exists j :: 0 <= j < |group| && Place(group[j], r[i].colIndex) == r[i]
      {
        if i < |Resolved(init, CategoryMap(headers))| {
          var j :| 0 <= j < |init| && Place(init[j], r[i].colIndex) == r[i];
          assert group[j] == init[j];
        } else {
          assert Place(group[|group| - 1], r[i].colIndex) == r[i];
        }
      }
    }
  }

  /** Each record of a group is accounted for: placed at its column when its
      category names one, reported with the tab's category list otherwise. */
  lemma {:induction false} ResolveComplete(group: seq<Dated>, headers: seq<string>)
    ensures var cmap := CategoryMap(headers);
      forall j :: 0 <= j < |group| ==>
        KeptOrReported(headers, group[j], Resolved(group, cmap), CategoryErrors(group, cmap, CategoryKeys(headers)))
  {
    if group != [] {
      var n := |group|;
      var init := group[..n - 1];
      var cmap := CategoryMap(headers);
      var keys := CategoryKeys(headers);
      ResolveComplete(init, headers);
      var placed := Resolved(group, cmap);
      var errors := CategoryErrors(group, cmap, keys);
      assert Resolved(init, cmap) <= placed;
      assert CategoryErrors(init, cmap, keys) <= errors;
      forall j | 0 <= j < n - 1
        ensures KeptOrReported(headers, group[j], placed, errors)
      {
        assert group[j] == init[j];
        assert KeptOrReported(headers, init[j], Resolved(init, cmap), CategoryErrors(init, cmap, keys));
      }
    }
  }

  /** Message m reports a record of the group whose category names no column
      of a tab with this header row. */
  predicate ReportsUnresolved(headers: seq<string>, group: seq<Dated>, m: string)
  {
    exists j :: 0 <= j < |group| && ColumnOf(CategoryMap(headers), group[j].expense.category).None?
      && m == CategoryError(group[j].expense.category, CategoryKeys(headers))
  }

  /** Every category error of a group reports a record of the group whose
      category names no column. */
  lemma {:induction false} ErrorsReportUnresolved(group: seq<Dated>, headers: seq<string>)
    ensures forall i :: 0 <= i < |CategoryErrors(group, CategoryMap(headers), CategoryKeys(headers))| ==>
      ReportsUnresolved(headers, group, CategoryErrors(group, CategoryMap(headers), CategoryKeys(headers))[i])
  {
    if group != [] {
      var n := |group|;
      var init := group[..n - 1];
      var cmap := CategoryMap(headers);
      var keys := CategoryKeys(headers);
      ErrorsReportUnresolved(init, headers);
      var errors := CategoryErrors(group, cmap, keys);
      var before := CategoryErrors(init, cmap, keys);
      forall i | 0 <= i < |errors|
        ensures ReportsUnresolved(headers, group, errors[i])
      {
        if i < |before| {
          assert errors[i] == before[i];
          assert ReportsUnresolved(headers, init, before[i]);
          var j :| 0 <= j < n - 1 && ColumnOf(cmap, init[j].expense.category).None?
            && before[i] == CategoryError(init[j].expense.category, keys);
          assert group[j] == init[j];
        } else {
          assert errors[i] == CategoryError(group[n - 1].expense.category, keys);
        }
      }
    }
  }

  /** The placed records of a group hold each expense whose category names a
      column as often as the group does, and no other expense. */
  lemma {:induction false} ResolvedCount(group: seq<Dated>, categoryMap: map<string, int>, e: Expense)
    ensures multiset(PlacedExpenses(Resolved(group, categoryMap)))[e] ==
      if ColumnOf(categoryMap, e.category).Some? then multiset(DatedExpenses(group))[e] else 0
  {
    if group != [] {
      var init := group[..|group| - 1];
      var v := group[|group| - 1];
      ResolvedCount(init, categoryMap, e);
      assert group == init + [v];
      assert DatedExpenses(group) == DatedExpenses(init) + [v.expense];
      assert multiset(DatedExpenses(group))[e] == multiset(DatedExpenses(init))[e] + if v.expense == e then 1 else 0;
      var before := Resolved(init, categoryMap);
      match ColumnOf(categoryMap, v.expense.category)
      case None =>
      case Some(c) =>
        assert (before + [Place(v, c)])[..|before|] == before;
        assert PlacedExpenses(before + [Place(v, c)]) == PlacedExpenses(before) + [v.expense];
        assert multiset(PlacedExpenses(Resolved(group, categoryMap)))[e] ==
          multiset(PlacedExpenses(before))[e] + if v.expense == e then 1 else 0;
    }
  }

  /** Placing keeps the title of the group's records. */
  lemma {:induction false} ResolvedTitles(group: seq<Dated>, categoryMap: map<string, int>, title: string)
    requires forall i :: 0 <= i < |group| ==> group[i].sheetTitle == title
    ensures forall i :: 0 <= i < |Resolved(group, categoryMap)| ==> Resolved(group, categoryMap)[i].sheetTitle == title
  {
    if group != [] {
      ResolvedTitles(group[..|group| - 1], categoryMap, title);
    }
  }

  // ---------------------------------------------------------------------------
  // The loaded rectangle

  /** Math.min over a non-empty list. */
  function Min(s: seq<int>): (m: int)
    requires |s| > 0
    ensures (exists i :: 0 <= i < |s| && s[i] == m) && forall i :: 0 <= i < |s| ==> m <= s[i]
  {
    if |s| == 1 then s[0]
    else
      var rest := Min(s[..|s| - 1]);
      if s[|s| - 1] < rest then s[|s| - 1] else rest
  }

  /** Math.max over a non-empty list. */
  function Max(s: seq<int>): (m: int)
    requires |s| > 0
    ensures (exists i :: 0 <= i < |s| && s[i] == m) && forall i :: 0 <= i < |s| ==> s[i] <= m
  {
    if |s| == 1 then s[0]
    else
      var rest := Max(s[..|s| - 1]);
      if s[|s| - 1] > rest then s[|s| - 1] else rest
  }

  function Rows(es: seq<Placed>): (s: seq<int>)
    ensures |s| == |es| && forall i :: 0 <= i < |es| ==> s[i] == es[i].rowIndex
  {
    seq(|es|, i requires 0 <= i < |es| => es[i].rowIndex)
  }

  function Cols(es: seq<Placed>): (s: seq<int>)
    ensures |s| == |es| && forall i :: 0 <= i < |es| ==> s[i] == es[i].colIndex
  {
    seq(|es|, i requires 0 <= i < |es| => es[i].colIndex)
  }

  /** The rectangle handed to loadCells: it holds the cell of every placed
      record, and each of its four edges passes through one of them. */
  function BoundingBox(es: seq<Placed>): (r: Rect)
    requires |es| > 0
    ensures forall i :: 0 <= i < |es| ==> r.Contains(PosOf(es[i]))
    ensures exists i :: 0 <= i < |es| && es[i].rowIndex == r.minRow
    ensures exists i :: 0 <= i < |es| && es[i].rowIndex == r.maxRow
    ensures exists i :: 0 <= i < |es| && es[i].colIndex == r.minCol
    ensures exists i :: 0 <= i < |es| && es[i].colIndex == r.maxCol
  {
    Rect(Min(Rows(es)), Max(Rows(es)), Min(Cols(es)), Max(Cols(es)))
  }

  // ---------------------------------------------------------------------------
  // Merging a group into a tab's cells

  /** The cells after merging the placed records one after another; a record
      sees the cell as the records before it left it. */
  function Apply(grid: map<Pos, Cell>, es: seq<Placed>): map<Pos, Cell>
  {
    if es == [] then grid
    else
      var g := Apply(grid, es[..|es| - 1]);
      var e := es[|es| - 1];
      g[PosOf(e) := Merge(CellAt(g, PosOf(e)), WriteOf(e))]
  }

  /** The writes that target one cell, in order. */
  function WritesAt(es: seq<Placed>, p: Pos): seq<Write>
  {
    if es == [] then []
    else
      var init := WritesAt(es[..|es| - 1], p);
      if PosOf(es[|es| - 1]) == p then init + [WriteOf(es[|es| - 1])] else init
  }

  /** Each cell ends as its own writes, merged in order, make it: a cell no
      record targets is unchanged, and records sharing a cell compound. */
  lemma {:induction false} ApplyAt(grid: map<Pos, Cell>, es: seq<Placed>, p: Pos)
    ensures CellAt(Apply(grid, es), p) == MergeEach(CellAt(grid, p), WritesAt(es, p))
  {
    if es != [] {
      var init := es[..|es| - 1];
      ApplyAt(grid, init, p);
      var ws := WritesAt(es, p);
      if PosOf(es[|es| - 1]) == p {
        assert ws[..|ws| - 1] == WritesAt(init, p);
      }
    }
  }

  /** The cells of a tab after the batch show their old number plus the amounts
      written into them. */
  lemma ApplyTotal(grid: map<Pos, Cell>, es: seq<Placed>, p: Pos)
    ensures Total(CellAt(Apply(grid, es), p).content)
            == Total(CellAt(grid, p).content) + Sum(Amounts(WritesAt(es, p)))
  {
    ApplyAt(grid, es, p);
    MergeEachTotal(CellAt(grid, p), WritesAt(es, p));
  }

  /** No cell outside the targets of the records changes. */
  lemma {:induction false} ApplyUntouched(grid: map<Pos, Cell>, es: seq<Placed>, p: Pos)
    requires forall i :: 0 <= i < |es| ==> PosOf(es[i]) != p
    ensures CellAt(Apply(grid, es), p) == CellAt(grid, p)
    ensures p in Apply(grid, es) <==> p in grid
  {
    if es != [] {
      ApplyUntouched(grid, es[..|es| - 1], p);
    }
  }

  // ---------------------------------------------------------------------------
  // The whole batch

  /** The records of one tab among a list of placed records, in order. */
  function OfTitle(es: seq<Placed>, title: string): seq<Placed>
  {
    if es == [] then []
    else
      var init := OfTitle(es[..|es| - 1], title);
      if es[|es| - 1].sheetTitle == title then init + [es[|es| - 1]] else init
  }

  lemma {:induction false} OfTitleAppend(a: seq<Placed>, b: seq<Placed>, title: string)
    ensures OfTitle(a + b, title) == OfTitle(a, title) + OfTitle(b, title)
  {
    if b == [] {
      assert a + b == a;
    } else {
      assert (a + b)[..|a + b| - 1] == a + b[..|b| - 1];
      OfTitleAppend(a, b[..|b| - 1], title);
    }
  }

  /** Records that all belong to one tab are all kept for it and none for another. */
  lemma {:induction false} OfTitleUniform(es: seq<Placed>, owner: string, title: string)
    requires forall i :: 0 <= i < |es| ==> es[i].sheetTitle == owner
    ensures OfTitle(es, title) == if owner == title then es else []
  {
    if es != [] {
      OfTitleUniform(es[..|es| - 1], owner, title);
    }
  }

  lemma {:induction false} OfTitleHas(es: seq<Placed>, i: nat)
    requires i < |es|
    ensures es[i] in OfTitle(es, es[i].sheetTitle)
  {
    if i < |es| - 1 {
      OfTitleHas(es[..|es| - 1], i);
    }
  }

  /** When every record of expense e sits in tab `home`, the records of that
      tab hold e as often as all the records do, and those of another tab do
      not hold it. */
  lemma {:induction false} OfTitleCount(s: seq<Placed>, t: string, e: Expense, home: string)
    requires forall i :: 0 <= i < |s| && s[i].expense == e ==> s[i].sheetTitle == home
    ensures multiset(PlacedExpenses(OfTitle(s, t)))[e] ==
      if home == t then multiset(PlacedExpenses(s))[e] else 0
  {
    if s != [] {
      var init := s[..|s| - 1];
      var p := s[|s| - 1];
      OfTitleCount(init, t, e, home);
      assert multiset(PlacedExpenses(s))[e] == multiset(PlacedExpenses(init))[e] + if p.expense == e then 1 else 0 by {
        assert s == init + [p];
        assert PlacedExpenses(s) == PlacedExpenses(init) + [p.expense];
      }
      var before := OfTitle(init, t);
      if p.sheetTitle == t {
        assert multiset(PlacedExpenses(OfTitle(s, t)))[e] ==
          multiset(PlacedExpenses(before))[e] + if p.expense == e then 1 else 0 by {
          assert OfTitle(s, t) == before + [p];
          assert (before + [p])[..|before|] == before;
          assert PlacedExpenses(before + [p]) == PlacedExpenses(before) + [p.expense];
        }
      } else {
        assert OfTitle(s, t) == before;
      }
    }
  }

  function MissingTab(title: string): string
  {
    "Sheet tab \"" + title + "\" không tồn tại. Hãy tạo tab \"" + title + "\" trên Google Sheet."
  }

  /** One pass of the group loop, for the tab `title`: a missing tab throws; a
      group with no resolvable record only adds its errors and leaves the tab
      alone; otherwise the placed records are merged into the tab's cells,
      which are saved before the next group. */
  function RecordGroup(run: Run, title: string, valid: seq<Dated>): Run
  {
    if run.outcome.Thrown? then run
    else if title !in run.tabs then Run(Thrown(MissingTab(title)), run.tabs)
    else
      var tab := run.tabs[title];
      var categoryMap := CategoryMap(tab.headers);
      var group := GroupOf(valid, title);
      var placed := Resolved(group, categoryMap);
      var errors := CategoryErrors(group, categoryMap, CategoryKeys(tab.headers));
      var outcome := Returned(run.outcome.recorded + placed, run.outcome.errors + errors);
      if placed == [] then Run(outcome, run.tabs)
      else Run(outcome, run.tabs[title := tab.(cells := Apply(tab.cells, placed))])
  }

  /** The group loop over the given titles, in order; it starts from no record
      and the date errors. */
  function RecordGroups(tabs: map<string, Tab>, titles: seq<string>, valid: seq<Dated>, dateErrors: seq<string>): Run
  {
    if titles == [] then Run(Returned([], dateErrors), tabs)
    else RecordGroup(RecordGroups(tabs, titles[..|titles| - 1], valid, dateErrors), titles[|titles| - 1], valid)
  }

  /** recordExpense(expenses) against the tabs of the workbook. */
  function Record(tabs: map<string, Tab>, expenses: seq<Expense>): Run
  {
    var valid := ValidOf(expenses);
    var dateErrors := DateErrorsOf(expenses);
    if |valid| == 0 && |dateErrors| > 0 then Run(Thrown(Join(dateErrors, "\n")), tabs)
    else RecordGroups(tabs, Titles(valid), valid, dateErrors)
  }

  /** Once the loop has thrown, later titles change nothing. */
  lemma {:induction false} ThrownStays(tabs: map<string, Tab>, titles: seq<string>, k: nat, valid: seq<Dated>, dateErrors: seq<string>)
    requires k <= |titles|
    requires RecordGroups(tabs, titles[..k], valid, dateErrors).outcome.Thrown?
    ensures RecordGroups(tabs, titles, valid, dateErrors) == RecordGroups(tabs, titles[..k], valid, dateErrors)
  {
    if k < |titles| {
      var init := titles[..|titles| - 1];
      assert init[..k] == titles[..k];
      ThrownStays(tabs, init, k, valid, dateErrors);
    } else {
      assert titles[..k] == titles;
    }
  }

  /** One pass never adds or removes a tab and never touches a header row. */
  lemma RecordGroupShape(run: Run, title: string, valid: seq<Dated>)
    ensures var r := RecordGroup(run, title, valid);
      && r.tabs.Keys == run.tabs.Keys
      && forall t :: t in run.tabs ==> r.tabs[t].headers == run.tabs[t].headers
  {
  }

  /** One pass throws when the run had thrown (and then stays as it was) or
      when the tab is missing (and then names it). */
  lemma RecordGroupThrows(run: Run, title: string, valid: seq<Dated>)
    ensures var r := RecordGroup(run, title, valid);
      && (r.outcome.Thrown? <==> run.outcome.Thrown? || title !in run.tabs)
      && (run.outcome.Thrown? ==> r == run)
      && (run.outcome.Returned? && title !in run.tabs ==> r == Run(Thrown(MissingTab(title)), run.tabs))
  {
  }

  /** A pass over a present tab appends the group's placed records and errors
      and merges the placed records into the tab (with no placed record, that
      leaves the tab as it was). */
  lemma RecordGroupMerges(run: Run, title: string, valid: seq<Dated>)
    requires run.outcome.Returned? && title in run.tabs
    ensures var r := RecordGroup(run, title, valid);
      var tab := run.tabs[title];
      var categoryMap := CategoryMap(tab.headers);
      var group := GroupOf(valid, title);
      var placed := Resolved(group, categoryMap);
      && r.outcome == Returned(run.outcome.recorded + placed,
                               run.outcome.errors + CategoryErrors(group, categoryMap, CategoryKeys(tab.headers)))
      && r.tabs == run.tabs[title := tab.(cells := Apply(tab.cells, placed))]
  {
    var tab := run.tabs[title];
    var placed := Resolved(GroupOf(valid, title), CategoryMap(tab.headers));
    if placed == [] {
      assert tab.(cells := Apply(tab.cells, placed)) == tab;
      assert run.tabs[title := tab] == run.tabs;
    }
  }

  /** The loop never adds or removes a tab and never touches a header row. */
  lemma {:induction false} RecordGroupsKeepsShape(tabs: map<string, Tab>, titles: seq<string>, valid: seq<Dated>, dateErrors: seq<string>)
    ensures var r := RecordGroups(tabs, titles, valid, dateErrors);
      && r.tabs.Keys == tabs.Keys
      && forall t :: t in tabs ==> r.tabs[t].headers == tabs[t].headers
  {
    if titles != [] {
      var init := titles[..|titles| - 1];
      RecordGroupsKeepsShape(tabs, init, valid, dateErrors);
      RecordGroupShape(RecordGroups(tabs, init, valid, dateErrors), titles[|titles| - 1], valid);
    }
  }

  predicate AllPresent(titles: seq<string>, tabs: map<string, Tab>)
  {
    forall i :: 0 <= i < |titles| ==> titles[i] in tabs
  }

  /** The first title that has no tab, if any. */
  function FirstMissing(titles: seq<string>, tabs: map<string, Tab>): Option<string>
  {
    if titles == [] then None
    else
      match FirstMissing(titles[..|titles| - 1], tabs)
      case Some(t) => Some(t)
      case None => if titles[|titles| - 1] !in tabs then Some(titles[|titles| - 1]) else None
  }

  /** FirstMissing finds nothing exactly when every title has a tab, and
      otherwise a title without one, all titles before which have one. */
  lemma {:induction false} FirstMissingSpec(titles: seq<string>, tabs: map<string, Tab>)
    ensures FirstMissing(titles, tabs).None? <==> AllPresent(titles, tabs)
    ensures FirstMissing(titles, tabs).Some? ==>
      exists i :: 0 <= i < |titles| && titles[i] == FirstMissing(titles, tabs).value
        && titles[i] !in tabs && AllPresent(titles[..i], tabs)
  {
    if titles != [] {
      var n := |titles|;
      var init := titles[..n - 1];
      FirstMissingSpec(init, tabs);
      AllPresentSnoc(titles, tabs);
      match FirstMissing(init, tabs)
      case Some(t) =>
        var i :| 0 <= i < n - 1 && init[i] == t && init[i] !in tabs && AllPresent(init[..i], tabs);
        assert titles[..i] == init[..i];
        assert titles[i] == t;
      case None =>
        assert titles[..n - 1] == init;
    }
  }

  lemma AllPresentSnoc(titles: seq<string>, tabs: map<string, Tab>)
    requires titles != []
    ensures AllPresent(titles, tabs) <==> AllPresent(titles[..|titles| - 1], tabs) && titles[|titles| - 1] in tabs
  {
    var init := titles[..|titles| - 1];
    assert forall i :: 0 <= i < |init| ==> titles[i] == init[i];
  }

  /** The loop throws exactly when some title has no tab, and then with the
      message naming the first such title. */
  lemma {:induction false} RecordGroupsThrows(tabs: map<string, Tab>, titles: seq<string>, valid: seq<Dated>, dateErrors: seq<string>)
    ensures var r := RecordGroups(tabs, titles, valid, dateErrors);
      && (r.outcome.Thrown? <==> FirstMissing(titles, tabs).Some?)
      && (r.outcome.Thrown? ==> r.outcome == Thrown(MissingTab(FirstMissing(titles, tabs).value)))
  {
    if titles != [] {
      var n := |titles|;
      var init := titles[..n - 1];
      RecordGroupsThrows(tabs, init, valid, dateErrors);
      RecordGroupsKeepsShape(tabs, init, valid, dateErrors);
      RecordGroupThrows(RecordGroups(tabs, init, valid, dateErrors), titles[n - 1], valid);
    }
  }

  /** The records a returning loop keeps for tab t: its group's placed records
      when t is among the titles, none otherwise. */
  function Kept(tabs: map<string, Tab>, titles: seq<string>, valid: seq<Dated>, t: string): seq<Placed>
    requires t in tabs
  {
    if t in titles then Resolved(GroupOf(valid, t), CategoryMap(tabs[t].headers)) else []
  }

  /** What a returning loop has done by the time it has handled `titles`. */
  predicate EffectSoFar(tabs: map<string, Tab>, titles: seq<string>, valid: seq<Dated>,
                        recorded: seq<Placed>, now: map<string, Tab>)
  {
    && (forall i :: 0 <= i < |recorded| ==> recorded[i].sheetTitle in titles)
    && forall t :: t in tabs ==>
         && t in now
         && OfTitle(recorded, t) == Kept(tabs, titles, valid, t)
         && now[t].cells == Apply(tabs[t].cells, OfTitle(recorded, t))
  }

  /** Handling one more (new) title keeps EffectSoFar. */
  lemma EffectStep(tabs: map<string, Tab>, init: seq<string>, t0: string, valid: seq<Dated>,
                   recorded: seq<Placed>, now: map<string, Tab>)
    requires t0 !in init && t0 in tabs && t0 in now
    requires now[t0].headers == tabs[t0].headers
    requires EffectSoFar(tabs, init, valid, recorded, now)
    ensures var placed := Resolved(GroupOf(valid, t0), CategoryMap(tabs[t0].headers));
      EffectSoFar(tabs, init + [t0], valid, recorded + placed,
                  now[t0 := now[t0].(cells := Apply(now[t0].cells, placed))])
  {
    var placed := Resolved(GroupOf(valid, t0), CategoryMap(tabs[t0].headers));
    EffectStepTitles(init, t0, valid, recorded, placed, CategoryMap(tabs[t0].headers));
    PlacedTitles(valid, t0, CategoryMap(tabs[t0].headers));
    forall t | t in tabs
      ensures var next := now[t0 := now[t0].(cells := Apply(now[t0].cells, placed))];
        && t in next
        && OfTitle(recorded + placed, t) == Kept(tabs, init + [t0], valid, t)
        && next[t].cells == Apply(tabs[t].cells, OfTitle(recorded + placed, t))
    {
      EffectStepTab(tabs, init, t0, valid, recorded, placed, now, t);
    }
  }

  /** The placed records of a group all carry the group's title. */
  lemma PlacedTitles(valid: seq<Dated>, title: string, categoryMap: map<string, int>)
    ensures forall i :: 0 <= i < |Resolved(GroupOf(valid, title), categoryMap)| ==>
      Resolved(GroupOf(valid, title), categoryMap)[i].sheetTitle == title
  {
    GroupOfSpec(valid, title);
    ResolvedTitles(GroupOf(valid, title), categoryMap, title);
  }

  lemma EffectStepTitles(init: seq<string>, t0: string, valid: seq<Dated>,
                         recorded: seq<Placed>, placed: seq<Placed>, categoryMap: map<string, int>)
    requires forall i :: 0 <= i < |recorded| ==> recorded[i].sheetTitle in init
    requires placed == Resolved(GroupOf(valid, t0), categoryMap)
    ensures forall i :: 0 <= i < |recorded + placed| ==> (recorded + placed)[i].sheetTitle in init + [t0]
  {
    PlacedTitles(valid, t0, categoryMap);
    var rec := recorded + placed;
    forall i | 0 <= i < |rec|
      ensures rec[i].sheetTitle in init + [t0]
    {
      if i < |recorded| {
        assert rec[i] == recorded[i];
      } else {
        assert rec[i] == placed[i - |recorded|];
      }
    }
  }

  lemma EffectStepTab(tabs: map<string, Tab>, init: seq<string>, t0: string, valid: seq<Dated>,
                      recorded: seq<Placed>, placed: seq<Placed>, now: map<string, Tab>, t: string)
    requires t0 !in init && t0 in tabs && t0 in now && t in tabs && t in now
    requires placed == Resolved(GroupOf(valid, t0), CategoryMap(tabs[t0].headers))
    requires forall i :: 0 <= i < |placed| ==> placed[i].sheetTitle == t0
    requires OfTitle(recorded, t) == Kept(tabs, init, valid, t)
    requires now[t].cells == Apply(tabs[t].cells, OfTitle(recorded, t))
    ensures var next := now[t0 := now[t0].(cells := Apply(now[t0].cells, placed))];
      && t in next
      && OfTitle(recorded + placed, t) == Kept(tabs, init + [t0], valid, t)
      && next[t].cells == Apply(tabs[t].cells, OfTitle(recorded + placed, t))
  {
    OfTitleAppend(recorded, placed, t);
    OfTitleUniform(placed, t0, t);
    if t == t0 {
      assert t0 in init + [t0];
      assert OfTitle(recorded, t) == [];
      assert OfTitle(recorded + placed, t) == placed;
    } else {
      assert t in init + [t0] <==> t in init;
      assert OfTitle(recorded + placed, t) == OfTitle(recorded, t);
    }
  }

  /** When the loop returns, the records kept for each tab are exactly its
      group's placed records in input order, and the tab's cells are its old
      cells with those records merged in. */
  lemma {:induction false} RecordGroupsEffect(tabs: map<string, Tab>, titles: seq<string>, valid: seq<Dated>, dateErrors: seq<string>)
    requires Distinct(titles)
    ensures var r := RecordGroups(tabs, titles, valid, dateErrors);
      r.outcome.Returned? ==> EffectSoFar(tabs, titles, valid, r.outcome.recorded, r.tabs)
  {
    if titles != [] {
      var n := |titles|;
      var init := titles[..n - 1];
      var t0 := titles[n - 1];
      assert Distinct(init);
      assert t0 !in init by {
        assert forall i :: 0 <= i < n - 1 ==> init[i] == titles[i] != t0;
      }
      assert titles == init + [t0];
      RecordGroupsEffect(tabs, init, valid, dateErrors);
      RecordGroupsKeepsShape(tabs, init, valid, dateErrors);
      var prev := RecordGroups(tabs, init, valid, dateErrors);
      RecordGroupThrows(prev, t0, valid);
      if prev.outcome.Returned? && t0 in prev.tabs {
        RecordGroupMerges(prev, t0, valid);
        EffectStep(tabs, init, t0, valid, prev.outcome.recorded, prev.tabs);
      }
    }
  }

  /** When the loop returns, every record of the listed groups is either kept
      or reported: the errors start with the date errors the loop started
      from, each record of a listed group is placed at its column or reported,
      and the lengths add up. */
  lemma {:induction false} RecordGroupsCount(tabs: map<string, Tab>, titles: seq<string>, valid: seq<Dated>, dateErrors: seq<string>)
    ensures var r := RecordGroups(tabs, titles, valid, dateErrors);
      r.outcome.Returned? ==>
        && |r.outcome.recorded| + |r.outcome.errors| == |dateErrors| + |Grouped(titles, valid)|
        && |dateErrors| <= |r.outcome.errors| && r.outcome.errors[..|dateErrors|] == dateErrors
        && forall t, j :: t in titles && t in tabs && 0 <= j < |GroupOf(valid, t)| ==>
             KeptOrReported(tabs[t].headers, GroupOf(valid, t)[j], r.outcome.recorded, r.outcome.errors)
  {
    if titles != [] {
      var init := titles[..|titles| - 1];
      var t0 := titles[|titles| - 1];
      RecordGroupsCount(tabs, init, valid, dateErrors);
      RecordGroupsKeepsShape(tabs, init, valid, dateErrors);
      var prev := RecordGroups(tabs, init, valid, dateErrors);
      RecordGroupThrows(prev, t0, valid);
      if prev.outcome.Returned? && t0 in prev.tabs {
        RecordGroupMerges(prev, t0, valid);
        var group := GroupOf(valid, t0);
        ResolveSpec(group, tabs[t0].headers);
        ResolveComplete(group, tabs[t0].headers);
        var r := RecordGroups(tabs, titles, valid, dateErrors);
        assert prev.outcome.recorded <= r.outcome.recorded;
        assert prev.outcome.errors <= r.outcome.errors;
        forall t, j | t in titles && t in tabs && 0 <= j < |GroupOf(valid, t)|
          ensures KeptOrReported(tabs[t].headers, GroupOf(valid, t)[j], r.outcome.recorded, r.outcome.errors)
        {
          if t in init {
            assert KeptOrReported(tabs[t].headers, GroupOf(valid, t)[j], prev.outcome.recorded, prev.outcome.errors);
          } else {
            assert t == t0;
          }
        }
      }
    }
  }

  /** An empty batch returns no record and no error and changes nothing. */
  lemma RecordEmptyBatch(tabs: map<string, Tab>)
    ensures Record(tabs, []) == Run(Returned([], []), tabs)
  {
  }

  /** Some title of the records has no tab exactly when some record's title has none. */
  lemma MissingTitle(valid: seq<Dated>, tabs: map<string, Tab>)
    ensures AllPresent(Titles(valid), tabs) <==> forall i :: 0 <= i < |valid| ==> valid[i].sheetTitle in tabs
  {
    var titles := Titles(valid);
    TitlesSpec(valid);
    if AllPresent(titles, tabs) {
      forall i | 0 <= i < |valid|
        ensures valid[i].sheetTitle in tabs
      {
        assert valid[i].sheetTitle in titles;
        var k :| 0 <= k < |titles| && titles[k] == valid[i].sheetTitle;
      }
    }
    if forall i :: 0 <= i < |valid| ==> valid[i].sheetTitle in tabs {
      forall k | 0 <= k < |titles|
        ensures titles[k] in tabs
      {
        assert titles[k] in titles;
        var i :| 0 <= i < |valid| && valid[i].sheetTitle == titles[k];
      }
    }
  }

  /** The batch throws exactly when no record has a valid date while some date
      error exists (the message is the date errors, one per line, and nothing is
      written), or when a record's month has no tab. Unknown categories alone
      never make it throw. */
  lemma RecordThrows(tabs: map<string, Tab>, es: seq<Expense>)
    ensures Record(tabs, es).outcome.Thrown? <==>
      || (ValidOf(es) == [] && DateErrorsOf(es) != [])
      || exists i :: 0 <= i < |ValidOf(es)| && ValidOf(es)[i].sheetTitle !in tabs
    ensures ValidOf(es) == [] && DateErrorsOf(es) != [] ==>
      Record(tabs, es) == Run(Thrown(Join(DateErrorsOf(es), "\n")), tabs)
  {
    var valid := ValidOf(es);
    var dateErrors := DateErrorsOf(es);
    if !(|valid| == 0 && |dateErrors| > 0) {
      assert Record(tabs, es) == RecordGroups(tabs, Titles(valid), valid, dateErrors);
      RecordGroupsThrows(tabs, Titles(valid), valid, dateErrors);
      FirstMissingSpec(Titles(valid), tabs);
      MissingTitle(valid, tabs);
    }
  }

  /** Otherwise a throwing batch names the first month, in order of first
      appearance, that has no tab. */
  lemma RecordThrowMessage(tabs: map<string, Tab>, es: seq<Expense>)
    requires ValidOf(es) != [] || DateErrorsOf(es) == []
    ensures var r := Record(tabs, es);
      r.outcome.Thrown? ==>
        var missing := FirstMissing(Titles(ValidOf(es)), tabs);
        missing.Some? && r.outcome == Thrown(MissingTab(missing.value))
  {
    var valid := ValidOf(es);
    assert Record(tabs, es) == RecordGroups(tabs, Titles(valid), valid, DateErrorsOf(es));
    RecordGroupsThrows(tabs, Titles(valid), valid, DateErrorsOf(es));
  }

  /** When the group loop throws at position k, the first title without a tab,
      the tabs are those the loop over the titles before k left: the groups
      before it stay written and no later group is written. */
  lemma RecordGroupsThrowKeepsPrefix(tabs: map<string, Tab>, titles: seq<string>, valid: seq<Dated>,
                                     dateErrors: seq<string>, k: nat)
    requires k < |titles| && titles[k] !in tabs && AllPresent(titles[..k], tabs)
    ensures var before := RecordGroups(tabs, titles[..k], valid, dateErrors);
      && before.outcome.Returned?
      && RecordGroups(tabs, titles, valid, dateErrors) == Run(Thrown(MissingTab(titles[k])), before.tabs)
  {
    var prefix := titles[..k];
    FirstMissingSpec(prefix, tabs);
    RecordGroupsThrows(tabs, prefix, valid, dateErrors);
    RecordGroupsKeepsShape(tabs, prefix, valid, dateErrors);
    RecordGroupThrows(RecordGroups(tabs, prefix, valid, dateErrors), titles[k], valid);
    assert titles[..k + 1][..k] == prefix;
    ThrownStays(tabs, titles, k + 1, valid, dateErrors);
  }

  /** The group loop over `titles` stopped at position k, the first title
      without a tab, and `after` are the tabs as the titles before k left them. */
  predicate StoppedAt(tabs: map<string, Tab>, titles: seq<string>, valid: seq<Dated>, dateErrors: seq<string>,
                      k: int, after: map<string, Tab>)
  {
    && 0 <= k < |titles| && titles[k] !in tabs && AllPresent(titles[..k], tabs)
    && RecordGroups(tabs, titles[..k], valid, dateErrors).outcome.Returned?
    && after == RecordGroups(tabs, titles[..k], valid, dateErrors).tabs
  }

  /** A thrown group loop stopped at its first title without a tab, keeping the
      tabs the titles before it wrote. */
  lemma ThrownGroupsKeepPrefix(tabs: map<string, Tab>, titles: seq<string>, valid: seq<Dated>, dateErrors: seq<string>)
    returns (k: nat)
    requires RecordGroups(tabs, titles, valid, dateErrors).outcome.Thrown?
    ensures StoppedAt(tabs, titles, valid, dateErrors, k, RecordGroups(tabs, titles, valid, dateErrors).tabs)
  {
    RecordGroupsThrows(tabs, titles, valid, dateErrors);
    FirstMissingSpec(titles, tabs);
    k :| 0 <= k < |titles| && titles[k] !in tabs && AllPresent(titles[..k], tabs);
    RecordGroupsThrowKeepsPrefix(tabs, titles, valid, dateErrors, k);
  }

  /** There is no rollback: a batch that throws for a missing tab leaves the
      workbook as the groups of the months before the first missing one, in
      order of first appearance, wrote it. */
  lemma RecordThrowKeepsEarlierGroups(tabs: map<string, Tab>, es: seq<Expense>)
    requires ValidOf(es) != [] || DateErrorsOf(es) == []
    ensures var r := Record(tabs, es);
      r.outcome.Thrown? ==>
        exists k :: StoppedAt(tabs, Titles(ValidOf(es)), ValidOf(es), DateErrorsOf(es), k, r.tabs)
  {
    var valid := ValidOf(es);
    var r := Record(tabs, es);
    if r.outcome.Thrown? {
      assert r == RecordGroups(tabs, Titles(valid), valid, DateErrorsOf(es));
      var k := ThrownGroupsKeepPrefix(tabs, Titles(valid), valid, DateErrorsOf(es));
      assert StoppedAt(tabs, Titles(valid), valid, DateErrorsOf(es), k, r.tabs);
    }
  }

  /** A record the batch can write is one with an accepted date, a tab for its
      month, and a category that names a column of that tab. */
  lemma RecordableResolves(tabs: map<string, Tab>, e: Expense)
    ensures Recordable(tabs, e) <==>
      && DayOf(e.date).Some? && SheetTitle(e.date) in tabs
      && ColumnOf(CategoryMap(tabs[SheetTitle(e.date)].headers), e.category).Some?
  {
    if DayOf(e.date).Some? && SheetTitle(e.date) in tabs {
      ColumnOfResolvesExactlyHeaders(tabs[SheetTitle(e.date)].headers, e.category);
    }
  }

  /** When the batch returns, an expense with an accepted date whose month has
      a tab is recorded as often as the input holds it when its category names
      a column of that tab, and never otherwise. */
  lemma RecordedHomeCount(tabs: map<string, Tab>, es: seq<Expense>, e: Expense)
    requires Record(tabs, es).outcome.Returned?
    requires DayOf(e.date).Some? && SheetTitle(e.date) in tabs
    ensures multiset(PlacedExpenses(Record(tabs, es).outcome.recorded))[e] ==
      if ColumnOf(CategoryMap(tabs[SheetTitle(e.date)].headers), e.category).Some? then multiset(es)[e] else 0
  {
    var rec := Record(tabs, es).outcome.recorded;
    var valid := ValidOf(es);
    var home := SheetTitle(e.date);
    var cmap := CategoryMap(tabs[home].headers);
    assert forall i :: 0 <= i < |rec| && rec[i].expense == e ==> rec[i].sheetTitle == home by {
      RecordedEntriesSound(tabs, es);
      forall i | 0 <= i < |rec| && rec[i].expense == e
        ensures rec[i].sheetTitle == home
      {
        assert Sound(tabs, es, rec[i]);
      }
    }
    assert forall i :: 0 <= i < |valid| && valid[i].expense == e ==> valid[i].sheetTitle == home by {
      DatePass(es);
      forall i | 0 <= i < |valid| && valid[i].expense == e
        ensures valid[i].sheetTitle == home
      {
        assert WellDated(valid[i]);
      }
    }
    assert OfTitle(rec, home) == Resolved(GroupOf(valid, home), cmap) by {
      RecordEffect(tabs, es);
    }
    OfTitleCount(rec, home, e, home);
    ResolvedCount(GroupOf(valid, home), cmap, e);
    GroupExpenseCount(valid, home, e, home);
    AcceptedCount(es, e);
  }

  /** When the batch returns, it records expense e as often as the input holds
      it when e can be written, and never otherwise. */
  lemma RecordedCount(tabs: map<string, Tab>, es: seq<Expense>, e: Expense)
    ensures Record(tabs, es).outcome.Returned? ==>
      multiset(PlacedExpenses(Record(tabs, es).outcome.recorded))[e] == if Recordable(tabs, e) then multiset(es)[e] else 0
  {
    var r := Record(tabs, es);
    if r.outcome.Returned? {
      var rec := r.outcome.recorded;
      RecordableResolves(tabs, e);
      if DayOf(e.date).Some? && SheetTitle(e.date) in tabs {
        RecordedHomeCount(tabs, es, e);
      } else if e in PlacedExpenses(rec) {
        var i :| 0 <= i < |rec| && PlacedExpenses(rec)[i] == e;
        PlacedExpensesAt(rec, i);
        RecordedEntriesSound(tabs, es);
        assert false;
      }
    }
  }

  /** When the batch returns, every input record is either recorded or
      reported, exactly once: the lengths add up, and `recorded` holds each
      record that can be written as often as the input does, and no other. */
  lemma RecordAccounting(tabs: map<string, Tab>, es: seq<Expense>)
    ensures var r := Record(tabs, es);
      r.outcome.Returned? ==> |r.outcome.recorded| + |r.outcome.errors| == |es|
    ensures Record(tabs, es).outcome.Returned? ==>
      forall e :: multiset(PlacedExpenses(Record(tabs, es).outcome.recorded))[e] ==
        if Recordable(tabs, e) then multiset(es)[e] else 0
  {
    var valid := ValidOf(es);
    var r := Record(tabs, es);
    if r.outcome.Returned? {
      DatePassCount(es);
      RecordGroupsCount(tabs, Titles(valid), valid, DateErrorsOf(es));
      GroupsCoverAll(valid);
      assert |Grouped(Titles(valid), valid)| == |valid| by {
        assert |multiset(Grouped(Titles(valid), valid))| == |multiset(valid)|;
      }
      forall e
        ensures multiset(PlacedExpenses(r.outcome.recorded))[e] == if Recordable(tabs, e) then multiset(es)[e] else 0
      {
        RecordedCount(tabs, es, e);
      }
    }
  }

  /** When the batch returns, its errors start with the date errors, and every
      dated record is placed at its column or, when its category names no
      column of its tab, reported with that tab's category list. */
  lemma RecordReports(tabs: map<string, Tab>, es: seq<Expense>)
    ensures Record(tabs, es).outcome.Returned? ==>
      && |DateErrorsOf(es)| <= |Record(tabs, es).outcome.errors|
      && Record(tabs, es).outcome.errors[..|DateErrorsOf(es)|] == DateErrorsOf(es)
    ensures Record(tabs, es).outcome.Returned? ==>
      forall i :: 0 <= i < |ValidOf(es)| ==>
        && ValidOf(es)[i].sheetTitle in tabs
        && KeptOrReported(tabs[ValidOf(es)[i].sheetTitle].headers, ValidOf(es)[i],
                          Record(tabs, es).outcome.recorded, Record(tabs, es).outcome.errors)
  {
    var valid := ValidOf(es);
    var r := Record(tabs, es);
    if r.outcome.Returned? {
      var titles := Titles(valid);
      assert r == RecordGroups(tabs, titles, valid, DateErrorsOf(es));
      RecordGroupsCount(tabs, titles, valid, DateErrorsOf(es));
      assert forall i :: 0 <= i < |valid| ==> valid[i].sheetTitle in tabs by {
        RecordThrows(tabs, es);
      }
      forall i | 0 <= i < |valid|
        ensures KeptOrReported(tabs[valid[i].sheetTitle].headers, valid[i], r.outcome.recorded, r.outcome.errors)
      {
        var v := valid[i];
        var t := v.sheetTitle;
        assert t in titles by {
          TitlesSpec(valid);
        }
        assert v in GroupOf(valid, t) by {
          GroupOfCount(valid, t, v);
        }
        var j :| 0 <= j < |GroupOf(valid, t)| && GroupOf(valid, t)[j] == v;
      }
    }
  }


  /** When the batch returns: the workbook keeps its tabs and header rows; every
      record kept belongs to one of its tabs; the records kept for a tab are its
      month's records whose category names a column, in input order; and its
      cells are its old cells with those records applied. */
  lemma RecordEffect(tabs: map<string, Tab>, es: seq<Expense>)
    ensures var r := Record(tabs, es);
      r.outcome.Returned? ==>
        && r.tabs.Keys == tabs.Keys
        && (forall t :: t in tabs ==> r.tabs[t].headers == tabs[t].headers)
        && (forall i :: 0 <= i < |r.outcome.recorded| ==> r.outcome.recorded[i].sheetTitle in tabs)
        && (forall t :: t in tabs ==>
              && OfTitle(r.outcome.recorded, t) == Resolved(GroupOf(ValidOf(es), t), CategoryMap(tabs[t].headers))
              && r.tabs[t].cells == Apply(tabs[t].cells, OfTitle(r.outcome.recorded, t)))
  {
    var valid := ValidOf(es);
    var r := Record(tabs, es);
    if r.outcome.Returned? {
      var titles := Titles(valid);
      assert r == RecordGroups(tabs, titles, valid, DateErrorsOf(es));
      TitlesSpec(valid);
      RecordGroupsKeepsShape(tabs, titles, valid, DateErrorsOf(es));
      RecordGroupsEffect(tabs, titles, valid, DateErrorsOf(es));
      RecordGroupsThrows(tabs, titles, valid, DateErrorsOf(es));
      FirstMissingSpec(titles, tabs);
      forall i | 0 <= i < |r.outcome.recorded|
        ensures r.outcome.recorded[i].sheetTitle in tabs
      {
        var k :| 0 <= k < |titles| && titles[k] == r.outcome.recorded[i].sheetTitle;
      }
      forall t | t in tabs
        ensures OfTitle(r.outcome.recorded, t) == Resolved(GroupOf(valid, t), CategoryMap(tabs[t].headers))
      {
        assert OfTitle(r.outcome.recorded, t) == Kept(tabs, titles, valid, t);
        if t !in titles {
          GroupOfSpec(valid, t);
        }
      }
    }
  }

  /** Cell by cell: a cell of a tab after a batch that returned is its old cell
      with the batch's writes to that position merged in, in input order. */
  lemma RecordCellEffect(tabs: map<string, Tab>, es: seq<Expense>, t: string, p: Pos)
    requires Record(tabs, es).outcome.Returned? && t in tabs
    ensures var r := Record(tabs, es);
      t in r.tabs &&
      CellAt(r.tabs[t].cells, p)
        == MergeEach(CellAt(tabs[t].cells, p), WritesAt(OfTitle(r.outcome.recorded, t), p))
  {
    RecordEffect(tabs, es);
    var r := Record(tabs, es);
    ApplyAt(tabs[t].cells, OfTitle(r.outcome.recorded, t), p);
  }

  /** What every recorded entry satisfies: its tab exists, its column is a
      header column after the first that carries its category, it is one of the
      input records, and its day, row and tab come from its date. */
  predicate Sound(tabs: map<string, Tab>, es: seq<Expense>, p: Placed)
  {
    && p.sheetTitle in tabs
    && 1 <= p.colIndex < |tabs[p.sheetTitle].headers|
    && tabs[p.sheetTitle].headers[p.colIndex] == p.expense.category
    && p.expense in es
    && DayOf(p.expense.date) == Some(p.day)
    && p.rowIndex == RowIndex(p.day) && 2 <= p.rowIndex <= 32
    && p.sheetTitle == SheetTitle(p.expense.date)
  }

  lemma PlacedSound(tabs: map<string, Tab>, es: seq<Expense>, t: string, i: nat)
    requires t in tabs
    requires i < |Resolved(GroupOf(ValidOf(es), t), CategoryMap(tabs[t].headers))|
    ensures Sound(tabs, es, Resolved(GroupOf(ValidOf(es), t), CategoryMap(tabs[t].headers))[i])
  {
    var group := GroupOf(ValidOf(es), t);
    var p := Resolved(group, CategoryMap(tabs[t].headers))[i];
    ResolveSpec(group, tabs[t].headers);
    var j :| 0 <= j < |group| && Place(group[j], p.colIndex) == p;
    GroupedSound(es, t, j);
  }

  /** A record of a group is a dated input record of that group's title. */
  lemma GroupedSound(es: seq<Expense>, t: string, j: nat)
    requires j < |GroupOf(ValidOf(es), t)|
    ensures var v := GroupOf(ValidOf(es), t)[j];
      WellDated(v) && v.expense in es && 2 <= v.rowIndex <= 32 && v.sheetTitle == t
  {
    var valid := ValidOf(es);
    GroupOfSpec(valid, t);
    DatePass(es);
    var k :| 0 <= k < |valid| && valid[k] == GroupOf(valid, t)[j];
  }

  /** Every entry of `recorded` is sound. */
  lemma RecordedEntriesSound(tabs: map<string, Tab>, es: seq<Expense>)
    ensures var r := Record(tabs, es);
      r.outcome.Returned? ==> forall i :: 0 <= i < |r.outcome.recorded| ==> Sound(tabs, es, r.outcome.recorded[i])
  {
    var r := Record(tabs, es);
    if r.outcome.Returned? {
      RecordEffect(tabs, es);
      var rec := r.outcome.recorded;
      forall i | 0 <= i < |rec|
        ensures Sound(tabs, es, rec[i])
      {
        var t := rec[i].sheetTitle;
        OfTitleHas(rec, i);
        var placed := Resolved(GroupOf(ValidOf(es), t), CategoryMap(tabs[t].headers));
        var j :| 0 <= j < |placed| && placed[j] == rec[i];
        PlacedSound(tabs, es, t, j);
      }
    }
  }

  /** No record of a group whose categories all name no column is placed. */
  lemma {:induction false} ResolvedNone(group: seq<Dated>, categoryMap: map<string, int>)
    requires forall i :: 0 <= i < |group| ==> group[i].expense.category !in categoryMap
    ensures Resolved(group, categoryMap) == []
  {
    if group != [] {
      ResolvedNone(group[..|group| - 1], categoryMap);
    }
  }

  /** A batch whose dated records all have a tab but name no column there does
      not throw: it records nothing and leaves the workbook as it was. It
      reports every record: first the date errors, then, for each dated
      record, its category with the category list of its tab. */
  lemma UnknownCategoriesRecordNothing(tabs: map<string, Tab>, es: seq<Expense>)
    requires ValidOf(es) != []
    requires forall i :: 0 <= i < |ValidOf(es)| ==>
      var v := ValidOf(es)[i];
      v.sheetTitle in tabs && v.expense.category !in CategoryMap(tabs[v.sheetTitle].headers)
    ensures var r := Record(tabs, es);
      && r.outcome.Returned? && r.outcome.recorded == [] && |r.outcome.errors| == |es|
      && r.tabs == tabs
    ensures var r := Record(tabs, es);
      && |DateErrorsOf(es)| <= |r.outcome.errors| && r.outcome.errors[..|DateErrorsOf(es)|] == DateErrorsOf(es)
    ensures forall i :: 0 <= i < |ValidOf(es)| ==>
      CategoryError(ValidOf(es)[i].expense.category, CategoryKeys(tabs[ValidOf(es)[i].sheetTitle].headers))
        in Record(tabs, es).outcome.errors
  {
    var r := Record(tabs, es);
    RecordThrows(tabs, es);
    RecordAccounting(tabs, es);
    RecordReports(tabs, es);
    forall i | 0 <= i < |ValidOf(es)|
      ensures CategoryError(ValidOf(es)[i].expense.category, CategoryKeys(tabs[ValidOf(es)[i].sheetTitle].headers))
        in r.outcome.errors
    {
      var v := ValidOf(es)[i];
      assert KeptOrReported(tabs[v.sheetTitle].headers, v, r.outcome.recorded, r.outcome.errors);
    }
    RecordEffect(tabs, es);
    NothingPlaced(tabs, es);
    if r.outcome.recorded != [] {
      OfTitleHas(r.outcome.recorded, 0);
      assert false;
    }
    SameTabs(tabs, r.tabs);
  }

  lemma NothingPlaced(tabs: map<string, Tab>, es: seq<Expense>)
    requires forall i :: 0 <= i < |ValidOf(es)| ==>
      var v := ValidOf(es)[i];
      v.sheetTitle in tabs && v.expense.category !in CategoryMap(tabs[v.sheetTitle].headers)
    ensures forall t :: t in tabs ==> Resolved(GroupOf(ValidOf(es), t), CategoryMap(tabs[t].headers)) == []
  {
    var valid := ValidOf(es);
    forall t | t in tabs
      ensures Resolved(GroupOf(valid, t), CategoryMap(tabs[t].headers)) == []
    {
      var group := GroupOf(valid, t);
      GroupOfSpec(valid, t);
      forall i | 0 <= i < |group|
        ensures group[i].expense.category !in CategoryMap(tabs[t].headers)
      {
        var k :| 0 <= k < |valid| && valid[k] == group[i];
      }
      ResolvedNone(group, CategoryMap(tabs[t].headers));
    }
  }

  /** Tabs with the same names, header rows and cells are the same workbook. */
  lemma SameTabs(tabs: map<string, Tab>, after: map<string, Tab>)
    requires after.Keys == tabs.Keys
    requires forall t :: t in tabs ==> after[t].headers == tabs[t].headers
    requires forall t :: t in tabs ==> after[t].cells == Apply(tabs[t].cells, [])
    ensures after == tabs
  {
    forall t | t in tabs
      ensures after[t] == tabs[t]
    {
    }
  }

  // ---------------------------------------------------------------------------
  // A batch recorded in full

  /** What a record needs to be written: an accepted date, a tab for its month,
      and a header after column 0 of that tab that carries its category (which
      is then neither empty nor "__proto__"). */
  predicate Recordable(tabs: map<string, Tab>, e: Expense)
  {
    && DayOf(e.date).Some?
    && SheetTitle(e.date) in tabs
    && e.category != "" && e.category != "__proto__"
    && exists j :: 1 <= j < |tabs[SheetTitle(e.date)].headers| && tabs[SheetTitle(e.date)].headers[j] == e.category
  }

  /** A batch whose dates are all accepted has no date error. */
  lemma {:induction false} AllDatesAccepted(es: seq<Expense>)
    requires forall i :: 0 <= i < |es| ==> DayOf(es[i].date).Some?
    ensures DateErrorsOf(es) == []
  {
    if es != [] {
      AllDatesAccepted(es[..|es| - 1]);
    }
  }

  /** A group whose categories all name a column gives no category error. */
  lemma {:induction false} CategoryErrorsNone(group: seq<Dated>, categoryMap: map<string, int>, keys: seq<string>)
    requires forall i :: 0 <= i < |group| ==> group[i].expense.category in categoryMap
    ensures CategoryErrors(group, categoryMap, keys) == []
  {
    if group != [] {
      CategoryErrorsNone(group[..|group| - 1], categoryMap, keys);
    }
  }

  /** When no group has a category error, a returning loop reports only the
      date errors it started from. */
  lemma {:induction false} RecordGroupsOnlyDateErrors(tabs: map<string, Tab>, titles: seq<string>, valid: seq<Dated>,
                                                      dateErrors: seq<string>)
    requires forall t :: t in titles && t in tabs ==>
      CategoryErrors(GroupOf(valid, t), CategoryMap(tabs[t].headers), CategoryKeys(tabs[t].headers)) == []
    ensures var r := RecordGroups(tabs, titles, valid, dateErrors);
      r.outcome.Returned? ==> r.outcome.errors == dateErrors
  {
    if titles != [] {
      var init := titles[..|titles| - 1];
      var t := titles[|titles| - 1];
      RecordGroupsOnlyDateErrors(tabs, init, valid, dateErrors);
      var prev := RecordGroups(tabs, init, valid, dateErrors);
      RecordGroupThrows(prev, t, valid);
      if prev.outcome.Returned? && t in prev.tabs {
        RecordGroupsKeepsShape(tabs, init, valid, dateErrors);
        RecordGroupMerges(prev, t, valid);
      }
    }
  }

  /** The records of a batch of recordable records all have a tab. */
  lemma RecordableTitles(tabs: map<string, Tab>, es: seq<Expense>)
    requires forall i :: 0 <= i < |es| ==> Recordable(tabs, es[i])
    ensures forall i :: 0 <= i < |ValidOf(es)| ==> ValidOf(es)[i].sheetTitle in tabs
  {
    DatePass(es);
    forall i | 0 <= i < |ValidOf(es)|
      ensures ValidOf(es)[i].sheetTitle in tabs
    {
      var v := ValidOf(es)[i];
      var j :| 0 <= j < |es| && es[j] == v.expense;
      assert Recordable(tabs, es[j]);
    }
  }

  /** In a batch of recordable records, no group has a category error. */
  lemma RecordableGroupsResolve(tabs: map<string, Tab>, es: seq<Expense>, t: string)
    requires forall i :: 0 <= i < |es| ==> Recordable(tabs, es[i])
    requires t in tabs
    ensures CategoryErrors(GroupOf(ValidOf(es), t), CategoryMap(tabs[t].headers), CategoryKeys(tabs[t].headers)) == []
  {
    var group := GroupOf(ValidOf(es), t);
    forall g | 0 <= g < |group|
      ensures group[g].expense.category in CategoryMap(tabs[t].headers)
    {
      GroupedSound(es, t, g);
      var v := group[g];
      var j :| 0 <= j < |es| && es[j] == v.expense;
      assert Recordable(tabs, es[j]);
      CategoryMapSpec(tabs[t].headers, v.expense.category);
    }
    CategoryErrorsNone(group, CategoryMap(tabs[t].headers), CategoryKeys(tabs[t].headers));
  }

  /** A batch whose records all have an accepted date, a tab for their month
      and a column for their category is recorded in full: it returns, records
      every record exactly once and reports no error. */
  lemma EverythingRecorded(tabs: map<string, Tab>, es: seq<Expense>)
    requires forall i :: 0 <= i < |es| ==> Recordable(tabs, es[i])
    ensures var r := Record(tabs, es);
      r.outcome.Returned? && r.outcome.errors == [] && |r.outcome.recorded| == |es|
    ensures multiset(PlacedExpenses(Record(tabs, es).outcome.recorded)) == multiset(es)
  {
    var valid := ValidOf(es);
    AllDatesAccepted(es);
    RecordableTitles(tabs, es);
    RecordThrows(tabs, es);
    assert Record(tabs, es) == RecordGroups(tabs, Titles(valid), valid, []);
    forall t | t in Titles(valid) && t in tabs
      ensures CategoryErrors(GroupOf(valid, t), CategoryMap(tabs[t].headers), CategoryKeys(tabs[t].headers)) == []
    {
      RecordableGroupsResolve(tabs, es, t);
    }
    RecordGroupsOnlyDateErrors(tabs, Titles(valid), valid, []);
    RecordAccounting(tabs, es);
    forall e
      ensures multiset(PlacedExpenses(Record(tabs, es).outcome.recorded))[e] == multiset(es)[e]
    {
      if e in es {
        var i :| 0 <= i < |es| && es[i] == e;
        assert Recordable(tabs, es[i]);
      }
    }
  }
}
