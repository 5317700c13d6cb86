/** The month resolver of the ledger: a "DD/MM/YYYY" date names the month tab it
    belongs to ("MM/YYYY") and, through its day, the row it is written in. */
module MonthResolver {
  import opened Text

  /** The pieces of a date string cut at every '/'. */
  function DateParts(date: string): seq<string>
  {
    Split(date, '/')
  }

  /** getSheetTitle(date) for a date given as text: the second piece left-padded
      with '0' to two characters, a '/', and the third piece unchanged. The month
      is not checked, and pieces after the third are ignored. */
  function SheetTitle(date: string): (title: string)
    requires |DateParts(date)| >= 3
    ensures var parts := DateParts(date);
      && Split(title, '/') == [PadStart(parts[1], 2, '0'), parts[2]]
      && |Split(title, '/')[0]| >= 2
  {
    var parts := DateParts(date);
    var month := PadStart(parts[1], 2, '0');
    SplitJoin([month, parts[2]], '/');
    assert Join([month, parts[2]], "/") == month + "/" + parts[2];
    month + "/" + parts[2]
  }

  /** getSheetTitle() with no date: the calendar month (1 to 12) of the clock and
      its year, rendered the same way. The clock reading is a parameter. */
  function ClockTitle(month: int, year: int): string
    requires 1 <= month <= 12
  {
    PadStart(IntToString(month), 2, '0') + "/" + IntToString(year)
  }

  /** The clock's title is the month's numeral padded to two digits, a '/',
      then the year. */
  lemma ClockTitleShape(month: int, year: int)
    requires 1 <= month <= 12
    ensures var title := ClockTitle(month, year);
      && |title| == 3 + |IntToString(year)|
      && title[..2] == PadStart(IntToString(month), 2, '0')
      && title[2] == '/' && title[3..] == IntToString(year)
  {
    assert |IntToString(month)| <= 2 by {
      assert month < 10 ==> |NatToString(month)| == 1;
      assert month >= 10 ==> NatToString(month) == NatToString(month / 10) + [DigitChar(month % 10)];
    }
  }

  /** The row a day is written in: row 0 holds the headers and one more row
      precedes day 1. */
  function RowIndex(day: int): int
  {
    day + 1
  }

  /** The date check of recordExpense: exactly three pieces, and parseInt of the
      first piece is a number in [1, 31]. Any month accepts day 31. */
  function DayOf(date: string): (day: Option<int>)
    ensures day.Some? ==> 1 <= day.value <= 31 && |DateParts(date)| == 3
    ensures day.Some? <==> |DateParts(date)| == 3 && ParseInt(DateParts(date)[0]).Some?
                            && 1 <= ParseInt(DateParts(date)[0]).value <= 31
    ensures day.Some? ==> day.value == ParseInt(DateParts(date)[0]).value
  {
    var parts := DateParts(date);
    if |parts| != 3 then None
    else
      match ParseInt(parts[0])
      case None => None
      case Some(d) => if d < 1 || d > 31 then None else Some(d)
  }

  /** A date assembled from a day, a month and a year piece (none holding '/')
      falls in the tab named by the padded month and the year. */
  lemma TitleOfDate(d: string, m: string, y: string)
    requires '/' !in d && '/' !in m && '/' !in y
    ensures |DateParts(d + "/" + m + "/" + y)| == 3
    ensures SheetTitle(d + "/" + m + "/" + y) == PadStart(m, 2, '0') + "/" + y
  {
    DatePartsOf(d, m, y);
  }

  lemma DatePartsOf(d: string, m: string, y: string)
    requires '/' !in d && '/' !in m && '/' !in y
    ensures DateParts(d + "/" + m + "/" + y) == [d, m, y]
  {
    SplitJoin([d, m, y], '/');
    assert Join([d, m, y], "/") == d + "/" + Join([m, y], "/");
    assert d + "/" + Join([m, y], "/") == d + "/" + m + "/" + y;
  }

  /** A day written as a numeral from 1 to 31, with any number of leading zeros,
      is accepted whatever the month and year pieces say, and gives that day. */
  lemma DayOfNumeral(day: nat, zeros: nat, m: string, y: string)
    requires 1 <= day <= 31
    requires '/' !in m && '/' !in y
    ensures var d := seq(zeros, _ => '0') + NatToString(day);
      DayOf(d + "/" + m + "/" + y) == Some(day)
  {
    var d := seq(zeros, _ => '0') + NatToString(day);
    assert '/' !in d by {
      assert forall i :: 0 <= i < |d| ==> IsDigit(d[i]);
    }
    DatePartsOf(d, m, y);
    ParseIntOfNumeral(day, zeros, "");
    assert d + "" == d;
  }

  /** A date with a number of pieces other than three is rejected. */
  lemma WrongPieceCountRejected(date: string)
    requires multiset(date)['/'] != 2
    ensures DayOf(date) == None
  {
    SplitCount(date, '/');
  }

  /** The title of the clock's month is the title of any date in that month. */
  lemma ClockTitleAgrees(d: string, month: int, year: int)
    requires 1 <= month <= 12 && '/' !in d
    ensures var date := d + "/" + IntToString(month) + "/" + IntToString(year);
      |DateParts(date)| == 3 && SheetTitle(date) == ClockTitle(month, year)
  {
    TitleOfDate(d, IntToString(month), IntToString(year));
  }

  /** "9/2/2025" is in tab "02/2025". */
  lemma TitleExample()
    ensures SheetTitle("9/2/2025") == "02/2025"
  {
    ExampleDateText();
    TitleOfDate("9", "2", "2025");
    ExampleTitleText();
  }

  lemma ExampleDateText()
    ensures "9/2/2025" == "9" + "/" + "2" + "/" + "2025"
  {
  }

  lemma ExampleTitleText()
    ensures PadStart("2", 2, '0') + "/" + "2025" == "02/2025"
  {
    assert PadStart("2", 2, '0') == "02";
  }

  lemma NumeralThirtyOne()
    ensures NatToString(31) == "31"
  {
    assert NatToString(3) == "3";
  }

  /** Day 31 passes the date check whatever the month: "31/04/2025" is accepted
      although April has 30 days, and goes to row 32. */
  lemma ThirtyFirstAccepted(m: string, y: string)
    requires '/' !in m && '/' !in y
    ensures DayOf("31/" + m + "/" + y) == Some(31) && RowIndex(31) == 32
  {
    DayOfNumeral(31, 0, m, y);
    ThirtyOneText(m, y);
  }

  lemma ThirtyOneText(m: string, y: string)
    ensures seq(0, _ => '0') + NatToString(31) + "/" + m + "/" + y == "31/" + m + "/" + y
  {
    NumeralThirtyOne();
    var zeros: string := seq(0, _ => '0');
    assert zeros == [];
    assert "31" + "/" == "31/";
  }
}
