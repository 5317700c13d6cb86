/** The workbook as recordExpense and getCategories change and read it: one
    worksheet object per month tab, whose cells are loaded, edited in place and
    saved, and the spreadsheet document that finds tabs by title. */
module Sheets {
  import opened Text
  import opened MonthResolver
  import opened CellMerge
  import opened CategoryDirectory
  import opened BatchRecorder

  /** A worksheet: its title, its header row, its saved cells, the rectangle of
      cells loaded last, and the cell edits made since the last save. */
  class Sheet {
    const title: string
    const headerValues: seq<string>
    var cells: map<Pos, Cell>
    var loaded: Option<Rect>
    var edits: map<Pos, Cell>

    constructor (title: string, headerValues: seq<string>, cells: map<Pos, Cell>)
      ensures this.title == title && this.headerValues == headerValues && this.cells == cells
      ensures loaded == None && edits == map[]
    {
      this.title := title;
      this.headerValues := headerValues;
      this.cells := cells;
      loaded := None;
      edits := map[];
    }

    /** Only loaded cells can be edited. */
    ghost predicate Valid()
      reads this
    {
      forall p :: p in edits ==> loaded.Some? && loaded.value.Contains(p)
    }

    /** loadCells(range): the cells of the rectangle become reachable. */
    method LoadCells(range: Rect)
      requires edits == map[]
      modifies this
      ensures Valid()
      ensures loaded == Some(range) && cells == old(cells) && edits == map[]
    {
      loaded := Some(range);
    }

    /** getCell(row, col): a loaded cell as it stands, saved or edited. */
    method GetCell(p: Pos) returns (c: Cell)
      requires loaded.Some? && loaded.value.Contains(p)
      ensures c == CellAt(cells + edits, p)
    {
      c := CellAt(cells + edits, p);
    }

    /** Assigning a loaded cell's value, formula and note. */
    method SetCell(p: Pos, c: Cell)
      requires Valid() && loaded.Some? && loaded.value.Contains(p)
      modifies this
      ensures Valid()
      ensures edits == old(edits)[p := c] && cells == old(cells) && loaded == old(loaded)
    {
      edits := edits[p := c];
    }

    /** saveUpdatedCells(): the edits become the saved cells. */
    method SaveUpdatedCells()
      modifies this
      ensures Valid()
      ensures cells == old(cells) + old(edits) && edits == map[] && loaded == old(loaded)
    {
      cells := cells + edits;
      edits := map[];
    }

    /** The cell part of one group of recordExpense: load the bounding rectangle
        of the placed records, merge each record into its cell in turn, save. */
    method MergeGroup(sheetValid: seq<Placed>)
      requires |sheetValid| > 0 && edits == map[]
      modifies this
      ensures cells == Apply(old(cells), sheetValid) && edits == map[]
    {
      var box := BoundingBox(sheetValid);
      LoadCells(box);
      for j := 0 to |sheetValid|
        invariant Valid() && loaded == Some(box) && cells == old(cells)
        invariant cells + edits == Apply(old(cells), sheetValid[..j])
      {
        assert sheetValid[..j + 1][..j] == sheetValid[..j];
        var expense := sheetValid[j];
        var p := PosOf(expense);
        var cell := GetCell(p);
        ghost var edited := edits;
        SetCell(p, Merge(cell, WriteOf(expense)));
        UnionUpdate(cells, edited, p, Merge(cell, WriteOf(expense)));
      }
      assert sheetValid[..|sheetValid|] == sheetValid;
      SaveUpdatedCells();
    }
  }

  /** getSheet's answer: the worksheet, or the message it throws. */
  datatype Found = Found(sheet: Sheet) | Missing(message: string)

  /** The loaded spreadsheet document with its worksheets by title. */
  class Document {
    const sheetsByTitle: map<string, Sheet>
    /** How many times getCategories has been called on this document. */
    ghost var fetches: nat

    constructor (sheetsByTitle: map<string, Sheet>)
      ensures this.sheetsByTitle == sheetsByTitle && fetches == 0
    {
      this.sheetsByTitle := sheetsByTitle;
      fetches := 0;
    }

    ghost function Sheets(): set<Sheet>
    {
      sheetsByTitle.Values
    }

    /** Each worksheet sits under its own title, and no edit is pending. */
    ghost predicate Valid()
      reads Sheets()
    {
      forall t :: t in sheetsByTitle ==> sheetsByTitle[t].title == t && sheetsByTitle[t].edits == map[]
    }

    /** The tabs as values: header row and saved cells. */
    ghost function Tabs(): map<string, Tab>
      reads Sheets()
    {
      map t | t in sheetsByTitle :: Tab(sheetsByTitle[t].headerValues, sheetsByTitle[t].cells)
    }

    /** getSheet after getSheetTitle: the tab of that title, or the error. */
    method GetSheet(title: string) returns (r: Found)
      ensures title in sheetsByTitle ==> r == Found(sheetsByTitle[title])
      ensures title !in sheetsByTitle ==> r == Missing(MissingTab(title))
    {
      if title !in sheetsByTitle {
        return Missing(MissingTab(title));
      }
      return Found(sheetsByTitle[title]);
    }

    /** What getCategories() gives when the clock reads month/year: the
        category names of that month's tab, or the error thrown when the tab
        is missing. */
    function CategoriesOf(month: int, year: int): Result<seq<string>>
      requires 1 <= month <= 12
    {
      var title := ClockTitle(month, year);
      if title in sheetsByTitle then Ok(CategoryNames(sheetsByTitle[title].headerValues))
      else Err(MissingTab(title))
    }

    /** getCategories(): the category names of the tab of the clock's month. */
    method GetCategories(month: int, year: int) returns (r: Result<seq<string>>)
      requires 1 <= month <= 12
      modifies this
      ensures r == CategoriesOf(month, year)
      ensures fetches == old(fetches) + 1
    {
      fetches := fetches + 1;
      var title := ClockTitle(month, year);
      var found := GetSheet(title);
      if found.Missing? {
        return Err(found.message);
      }
      return Ok(CategoryNames(found.sheet.headerValues));
    }

    /** recordExpense(expenses): what it answers and what the workbook holds
        afterwards are those of Record on the workbook as it was. */
    method RecordExpense(expenses: seq<Expense>) returns (outcome: Outcome)
      requires Valid()
      modifies Sheets()
      ensures Valid()
      ensures Run(outcome, Tabs()) == Record(old(Tabs()), expenses)
    {
      var valid, errors := CollectValid(expenses);
      if |valid| == 0 && |errors| > 0 {
        return Thrown(Join(errors, "\n"));
      }
      ghost var dateErrors := errors;
      ghost var tabs0 := Tabs();
      var titles, groups := GroupByTitle(valid);
      var recorded := [];
      for i := 0 to |titles|
        invariant Valid()
        invariant Run(Returned(recorded, errors), Tabs()) == RecordGroups(tabs0, titles[..i], valid, dateErrors)
      {
        RecordGroupsStep(tabs0, titles, i, valid, dateErrors);
        GroupTitle(valid, titles[i], expenses);
        var thrown, sheetValid, groupErrors :=
          RecordTitle(titles[i], groups[titles[i]], valid, Run(Returned(recorded, errors), Tabs()));
        if thrown.Some? {
          ThrownStays(tabs0, titles, i + 1, valid, dateErrors);
          return Thrown(thrown.value);
        }
        recorded := recorded + sheetValid;
        errors := errors + groupErrors;
      }
      assert titles[..|titles|] == titles;
      return Returned(recorded, errors);
    }

    /** One pass of the group loop of recordExpense: find the tab through the
        first record's date, build its category map, resolve the group's
        columns, and merge the placed records into the tab unless there are
        none. Its effect is that of RecordGroup. */
    method RecordTitle(sheetTitle: string, groupExpenses: seq<Dated>, ghost valid: seq<Dated>, ghost run: Run)
      returns (thrown: Option<string>, sheetValid: seq<Placed>, groupErrors: seq<string>)
      requires Valid()
      requires run.outcome.Returned? && run.tabs == Tabs()
      requires groupExpenses == GroupOf(valid, sheetTitle) && |groupExpenses| > 0
      requires |DateParts(groupExpenses[0].expense.date)| >= 3
      requires SheetTitle(groupExpenses[0].expense.date) == sheetTitle
      modifies Sheets()
      ensures Valid()
      ensures thrown.Some? ==> RecordGroup(run, sheetTitle, valid) == Run(Thrown(thrown.value), Tabs())
      ensures thrown.None? ==>
        RecordGroup(run, sheetTitle, valid)
          == Run(Returned(run.outcome.recorded + sheetValid, run.outcome.errors + groupErrors), Tabs())
    {
      var found := GetSheet(SheetTitle(groupExpenses[0].expense.date));
      if found.Missing? {
        RecordGroupThrows(run, sheetTitle, valid);
        return Some(found.message), [], [];
      }
      thrown := None;
      var sheet := found.sheet;
      RecordGroupMerges(run, sheetTitle, valid);
      var headers := sheet.headerValues;
      var categoryMap, keys := BuildCategoryMap(headers);
      sheetValid, groupErrors := ResolveColumns(groupExpenses, categoryMap, keys);
      MergeIntoSheet(sheet, sheetTitle, sheetValid);
    }

    /** The merge step of one group: nothing happens when no record was placed;
        otherwise the placed records are merged into the worksheet's cells. */
    method MergeIntoSheet(sheet: Sheet, sheetTitle: string, placed: seq<Placed>)
      requires Valid() && sheetTitle in sheetsByTitle && sheetsByTitle[sheetTitle] == sheet
      modifies sheet
      ensures Valid()
      ensures Tabs() == old(Tabs())[sheetTitle := old(Tabs())[sheetTitle].(cells := Apply(old(Tabs())[sheetTitle].cells, placed))]
    {
      if |placed| == 0 {
        assert Tabs()[sheetTitle].(cells := Apply(Tabs()[sheetTitle].cells, [])) == Tabs()[sheetTitle];
        assert Tabs()[sheetTitle := Tabs()[sheetTitle]] == Tabs();
        return;
      }
      sheet.MergeGroup(placed);
      forall t | t in sheetsByTitle && t != sheetTitle
        ensures Tabs()[t] == old(Tabs())[t]
      {
        assert sheetsByTitle[t] != sheet;
      }
      OneTabChanged(old(Tabs()), Tabs(), sheetTitle, placed);
    }
  }

  /** After merging into the worksheet of one title, the tabs are the earlier
      tabs with that one's cells replaced. */
  lemma OneTabChanged(before: map<string, Tab>, after: map<string, Tab>, title: string, placed: seq<Placed>)
    requires after.Keys == before.Keys && title in before
    requires forall t :: t in before && t != title ==> after[t] == before[t]
    requires after[title] == before[title].(cells := Apply(before[title].cells, placed))
    ensures after == before[title := before[title].(cells := Apply(before[title].cells, placed))]
  {
  }

  /** The fold over titles[..i + 1] is one more group pass after the fold over titles[..i]. */
  lemma RecordGroupsStep(tabs: map<string, Tab>, titles: seq<string>, i: nat, valid: seq<Dated>, dateErrors: seq<string>)
    requires i < |titles|
    ensures RecordGroups(tabs, titles[..i + 1], valid, dateErrors)
      == RecordGroup(RecordGroups(tabs, titles[..i], valid, dateErrors), titles[i], valid)
  {
    assert titles[..i + 1][..i] == titles[..i];
  }

  /** getCategories lists exactly the non-empty header cells after column 0 of
      the month's tab. */
  lemma CategoriesOfMembers(doc: Document, month: int, year: int, x: string)
    requires 1 <= month <= 12
    requires doc.CategoriesOf(month, year).Ok?
    ensures var headers := doc.sheetsByTitle[ClockTitle(month, year)].headerValues;
      x in doc.CategoriesOf(month, year).value <==>
        x != "" && exists i :: 1 <= i < |headers| && headers[i] == x
  {
    CategoryNamesMembers(doc.sheetsByTitle[ClockTitle(month, year)].headerValues, x);
  }

  /** Every category getCategories offers for a month, except "__proto__", is one
      that recordExpense resolves to a column of that month's tab. */
  lemma ListedCategoriesResolve(doc: Document, month: int, year: int, x: string)
    requires 1 <= month <= 12
    requires doc.CategoriesOf(month, year).Ok? && x in doc.CategoriesOf(month, year).value
    requires x != "__proto__"
    ensures ClockTitle(month, year) in doc.sheetsByTitle
    ensures x in CategoryMap(doc.sheetsByTitle[ClockTitle(month, year)].headerValues)
  {
    MapAgreesWithNames(doc.sheetsByTitle[ClockTitle(month, year)].headerValues, x);
  }

  lemma UnionUpdate(cells: map<Pos, Cell>, edits: map<Pos, Cell>, p: Pos, c: Cell)
    ensures cells + edits[p := c] == (cells + edits)[p := c]
  {
  }

  /** The first record of a group names the group's own tab. */
  lemma GroupTitle(valid: seq<Dated>, title: string, es: seq<Expense>)
    requires valid == ValidOf(es)
    requires title in Titles(valid)
    ensures |GroupOf(valid, title)| > 0
    ensures |DateParts(GroupOf(valid, title)[0].expense.date)| >= 3
    ensures SheetTitle(GroupOf(valid, title)[0].expense.date) == title
  {
    GroupOfSpec(valid, title);
    GroupedSound(es, title, 0);
  }
}
