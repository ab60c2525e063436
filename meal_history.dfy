/** The history report of db/meal-history.py: from a user's log entries
    (newest date first) and the items of each, either CSV rows or the
    human-readable listing with per-meal and per-day calorie totals. The
    query results are the inputs; what the script prints is a sequence of
    rows or of structured lines. */
module MealHistory {
  import opened Schema
  import opened Ordering
  import opened Numeric
  import opened Calendar

  /** A row of the item query: food name, calories per unit, quantity. */
  datatype HistoryItem = HistoryItem(name: string, calories: int, quantity: real)

  /** A row of the history query together with the entry's items. */
  datatype HistoryLog = HistoryLog(mealDate: string, mealType: string, mealName: Option<string>, items: seq<HistoryItem>)

  // ---------------------------------------------------------------------
  // Calories

  /** The calories of an item before truncation: calories times quantity. */
  function Energy(i: HistoryItem): real {
    i.calories as real * i.quantity
  }

  /** `int(item['calories'] * item['quantity'])`: truncated toward zero. */
  function ItemCalories(i: HistoryItem): int {
    Trunc(Energy(i))
  }

  /** `sum(int(i['calories'] * i['quantity']) for i in items)` */
  function MealCalories(items: seq<HistoryItem>): int {
    if items == [] then 0 else ItemCalories(items[0]) + MealCalories(items[1..])
  }

  /** The untruncated sum of calories times quantity. */
  function RawCalories(items: seq<HistoryItem>): real {
    if items == [] then 0.0 else Energy(items[0]) + RawCalories(items[1..])
  }

  /** With non-negative products, a meal's total never exceeds the raw sum
      and loses less than one calorie per item. */
  lemma {:induction false} MealCaloriesNear(items: seq<HistoryItem>)
    requires forall k :: 0 <= k < |items| ==> 0.0 <= Energy(items[k])
    ensures 0.0 <= RawCalories(items)
    ensures MealCalories(items) as real <= RawCalories(items)
    ensures RawCalories(items) - |items| as real < MealCalories(items) as real || items == []
    decreases |items|
  {
    if items != [] {
      MealCaloriesNear(items[1..]);
      TruncTowardZero(Energy(items[0]));
    }
  }

  /** Hence the meal total is at most the truncated raw sum. */
  lemma MealCaloriesBelowTrunc(items: seq<HistoryItem>)
    requires forall k :: 0 <= k < |items| ==> 0.0 <= Energy(items[k])
    ensures MealCalories(items) <= Trunc(RawCalories(items))
  {
    MealCaloriesNear(items);
    TruncTowardZero(RawCalories(items));
  }

  /** Truncating each item is not truncating the sum: two half portions of a
      one-calorie food count 0 calories, not 1. */
  lemma TruncatedPerItem()
    ensures var items := [HistoryItem("a", 1, 0.5), HistoryItem("a", 1, 0.5)];
      MealCalories(items) == 0 && Trunc(RawCalories(items)) == 1
  {
    var items := [HistoryItem("a", 1, 0.5), HistoryItem("a", 1, 0.5)];
    assert items[1..][1..] == [];
    assert ItemCalories(items[0]) == 0 && ItemCalories(items[1]) == 0;
  }

  // ---------------------------------------------------------------------
  // The --days window

  /** `[log for log in logs if log['meal_date'] >= cutoff]` */
  function Since(logs: seq<HistoryLog>, cutoff: string): (r: seq<HistoryLog>)
    ensures forall x :: x in r <==> x in logs && StrLe(cutoff, x.mealDate)
    ensures |r| <= |logs|
  {
    if logs == [] then []
    else (if StrLe(cutoff, logs[0].mealDate) then [logs[0]] else []) + Since(logs[1..], cutoff)
  }

  /** The window keeps the order of the rows it keeps. */
  lemma {:induction false} SinceAppend(a: seq<HistoryLog>, b: seq<HistoryLog>, cutoff: string)
    ensures Since(a + b, cutoff) == Since(a, cutoff) + Since(b, cutoff)
    decreases |a|
  {
    if a == [] {
      assert a + b == b;
    } else {
      assert (a + b)[1..] == a[1..] + b;
      SinceAppend(a[1..], b, cutoff);
    }
  }

  /** `--days N`: only a positive N filters. */
  function Window(logs: seq<HistoryLog>, days: int, cutoff: string): (r: seq<HistoryLog>)
    ensures days <= 0 ==> r == logs
    ensures days > 0 ==> forall x :: x in r <==> x in logs && StrLe(cutoff, x.mealDate)
  {
    if days > 0 then Since(logs, cutoff) else logs
  }

  // ---------------------------------------------------------------------
  // CSV output

  datatype CsvRow = CsvRow(
    date: string,
    mealType: string,
    mealName: string,
    foodName: string,
    calories: int,
    quantity: real,
    totalCalories: int)

  const CsvHeader: seq<string> := ["date", "meal_type", "meal_name", "food_name", "calories", "quantity", "total_calories"]

  /** `log['meal_name'] or ''` */
  function NameCell(name: Option<string>): string {
    if name.Some? then name.value else ""
  }

  /** The rows of one entry: one per item, or one placeholder row with an
      empty food name and zeros when it has no items. */
  function LogRows(log: HistoryLog): (rows: seq<CsvRow>)
    ensures log.items == [] ==> rows == [CsvRow(log.mealDate, log.mealType, NameCell(log.mealName), "", 0, 0.0, 0)]
    ensures log.items != [] ==> |rows| == |log.items|
    ensures log.items != [] ==> forall k :: 0 <= k < |rows| ==>
      rows[k] == CsvRow(log.mealDate, log.mealType, NameCell(log.mealName), log.items[k].name,
                        log.items[k].calories, log.items[k].quantity, ItemCalories(log.items[k]))
  {
    if log.items == [] then [CsvRow(log.mealDate, log.mealType, NameCell(log.mealName), "", 0, 0.0, 0)]
    else
      seq(|log.items|, k requires 0 <= k < |log.items| =>
        CsvRow(log.mealDate, log.mealType, NameCell(log.mealName), log.items[k].name,
               log.items[k].calories, log.items[k].quantity, ItemCalories(log.items[k])))
  }

  /** The rows of all entries, in entry order. */
  function AllRows(logs: seq<HistoryLog>): seq<CsvRow> {
    if logs == [] then [] else AllRows(logs[..|logs| - 1]) + LogRows(logs[|logs| - 1])
  }

  /** The number of rows an entry yields. */
  function RowsFor(log: HistoryLog): nat {
    if log.items == [] then 1 else |log.items|
  }

  function RowCount(logs: seq<HistoryLog>): nat {
    if logs == [] then 0 else RowCount(logs[..|logs| - 1]) + RowsFor(logs[|logs| - 1])
  }

  /** One row per item, and exactly one for an entry without items. */
  lemma {:induction false} AllRowsCount(logs: seq<HistoryLog>)
    ensures |AllRows(logs)| == RowCount(logs)
    decreases |logs|
  {
    if logs != [] {
      AllRowsCount(logs[..|logs| - 1]);
    }
  }

  function SumTotals(rows: seq<CsvRow>): int {
    if rows == [] then 0 else rows[0].totalCalories + SumTotals(rows[1..])
  }

  /** The CSV `total_calories` of an entry's rows add up to the meal total
      the text listing prints for it. */
  lemma {:induction false} LogRowsSumToMeal(log: HistoryLog)
    ensures SumTotals(LogRows(log)) == MealCalories(log.items)
  {
    if log.items != [] {
      RowsSumFrom(log, 0);
    }
  }

  lemma {:induction false} RowsSumFrom(log: HistoryLog, k: nat)
    requires log.items != [] && k <= |log.items|
    ensures SumTotals(LogRows(log)[k..]) == MealCalories(log.items[k..])
    decreases |log.items| - k
  {
    var rows := LogRows(log);
    if k < |log.items| {
      RowsSumFrom(log, k + 1);
      assert rows[k..][1..] == rows[k + 1..];
      assert log.items[k..][1..] == log.items[k + 1..];
    } else {
      assert rows[k..] == [];
      assert log.items[k..] == [];
    }
  }

  /** The rows of one entry: one per item, or the single row of an entry
      without items. */
  method WriteLogRows(log: HistoryLog) returns (out: seq<CsvRow>)
    ensures out == LogRows(log)
  {
    if log.items == [] {
      return [CsvRow(log.mealDate, log.mealType, NameCell(log.mealName), "", 0, 0.0, 0)];
    }
    out := [];
    var j := 0;
    while j < |log.items|
      invariant 0 <= j <= |log.items|
      invariant out == LogRows(log)[..j]
    {
      var item := log.items[j];
      assert LogRows(log)[..j + 1] == LogRows(log)[..j] + [LogRows(log)[j]];
      out := out + [CsvRow(log.mealDate, log.mealType, NameCell(log.mealName), item.name,
                           item.calories, item.quantity, ItemCalories(item))];
      j := j + 1;
    }
    assert LogRows(log)[..|log.items|] == LogRows(log);
  }

  /** The CSV branch: the header, then for each entry its rows. */
  method WriteCsv(logs: seq<HistoryLog>) returns (header: seq<string>, rows: seq<CsvRow>)
    ensures header == CsvHeader
    ensures rows == AllRows(logs)
  {
    header := CsvHeader;
    rows := [];
    var i := 0;
    while i < |logs|
      invariant 0 <= i <= |logs|
      invariant rows == AllRows(logs[..i])
    {
      assert logs[..i + 1][..i] == logs[..i];
      var out := WriteLogRows(logs[i]);
      rows := rows + out;
      i := i + 1;
    }
    assert logs[..|logs|] == logs;
  }

  // ---------------------------------------------------------------------
  // Text output: the pieces of one meal

  const Labels: map<string, string> := map[
    "breakfast" := "Breakfast",
    "morning_snack" := "Morning Snack",
    "lunch" := "Lunch",
    "afternoon_snack" := "Afternoon Snack",
    "dinner" := "Dinner",
    "evening_snack" := "Evening Snack"]

  /** `MEAL_TYPE_LABELS.get(meal_type, meal_type)` */
  function MealLabel(mealType: string): (s: string)
    ensures mealType in Labels ==> s == Labels[mealType]
    ensures mealType !in Labels ==> s == mealType
  {
    if mealType in Labels then Labels[mealType] else mealType
  }

  /** `f" - {name}" if name else ""` */
  function NameSuffix(name: Option<string>): string {
    if name.Some? && name.value != [] then " - " + name.value else ""
  }

  /** The suffix is shown exactly when the entry has a non-empty meal name,
      and then it is that name after a dash. */
  lemma NameSuffixShown(name: Option<string>)
    ensures NameSuffix(name) == [] <==> name.None? || name.value == []
    ensures NameSuffix(name) != [] ==> NameSuffix(name) == " - " + name.value
  {
  }

  /** The quantity column: empty, or `x` followed by the quantity. */
  datatype QtyLabel = NoQty | Times(q: real)

  /** `f"x{quantity}" if quantity != 1 else ""` */
  function QtyLabelOf(q: real): (l: QtyLabel)
    ensures l == NoQty <==> q == 1.0
    ensures l.Times? ==> l.q == q
  {
    if q != 1.0 then Times(q) else NoQty
  }

  /** One printed line of the listing; each renders as one print call of
      the script, including its leading newline where it has one. */
  datatype TextLine =
    | Title(username: string)
    | Rule(c: char)
    | DateHeader(formatted: string)
    | MealHeader(title: string, suffix: string, calories: int)
    | ItemLine(name: string, qty: QtyLabel, calories: int)
    | NoItems
    | DailyTotal(calories: int)
    | Blank
    | FinalTotal(calories: int)
    | Footer

  /** The line printed for an item. */
  function ItemLineOf(item: HistoryItem): TextLine {
    ItemLine(item.name, QtyLabelOf(item.quantity), ItemCalories(item))
  }

  /** The lines of the item loop. */
  function ItemLines(items: seq<HistoryItem>): seq<TextLine> {
    if items == [] then [] else ItemLines(items[..|items| - 1]) + [ItemLineOf(items[|items| - 1])]
  }

  /** One line per item, in item order, each with the item's own
      truncated calories. */
  lemma {:induction false} ItemLinesPerItem(items: seq<HistoryItem>)
    ensures |ItemLines(items)| == |items|
    ensures forall k :: 0 <= k < |items| ==> ItemLines(items)[k] == ItemLineOf(items[k])
    decreases |items|
  {
    if items != [] {
      var n := |items| - 1;
      var prev := ItemLines(items[..n]);
      ItemLinesPerItem(items[..n]);
      assert ItemLines(items) == prev + [ItemLineOf(items[n])];
      forall k | 0 <= k < |items| ensures ItemLines(items)[k] == ItemLineOf(items[k]) {
        if k < n {
          assert items[..n][k] == items[k];
          assert ItemLines(items)[k] == prev[k];
        }
      }
    }
  }

  /** A meal: its header with the meal total, then its items or the
      `(no items)` line. */
  function MealBlock(log: HistoryLog): seq<TextLine> {
    [MealHeader(MealLabel(log.mealType), NameSuffix(log.mealName), MealCalories(log.items))]
      + (if log.items == [] then [NoItems] else ItemLines(log.items))
  }

  /** The calories shown on item lines. */
  function LineCalories(lines: seq<TextLine>): int {
    if lines == [] then 0
    else LineCalories(lines[..|lines| - 1]) + (if lines[|lines| - 1].ItemLine? then lines[|lines| - 1].calories else 0)
  }

  /** Adding an item adds its truncated calories to the meal. */
  lemma {:induction false} MealCaloriesSnoc(items: seq<HistoryItem>, x: HistoryItem)
    ensures MealCalories(items + [x]) == MealCalories(items) + ItemCalories(x)
    decreases |items|
  {
    if items == [] {
      assert [x][1..] == [];
    } else {
      assert (items + [x])[1..] == items[1..] + [x];
      MealCaloriesSnoc(items[1..], x);
    }
  }

  lemma {:induction false} ItemLinesCalories(items: seq<HistoryItem>)
    ensures LineCalories(ItemLines(items)) == MealCalories(items)
    decreases |items|
  {
    if items != [] {
      var n := |items| - 1;
      ItemLinesCalories(items[..n]);
      MealCaloriesSnoc(items[..n], items[n]);
      assert items[..n] + [items[n]] == items;
      assert ItemLines(items)[..|ItemLines(items)| - 1] == ItemLines(items[..n]);
    }
  }

  /** The total in a meal's header is the sum of the calories on its item
      lines. */
  lemma MealHeaderIsItemSum(log: HistoryLog)
    ensures MealBlock(log)[0].MealHeader?
    ensures MealBlock(log)[0].calories == LineCalories(MealBlock(log)[1..])
  {
    var rest := MealBlock(log)[1..];
    if log.items == [] {
      assert rest == [NoItems];
      assert rest[..0] == [];
    } else {
      assert rest == ItemLines(log.items);
      ItemLinesCalories(log.items);
    }
  }

  /** The lines of one meal: the header, then the loop over its items. */
  method PrintMeal(log: HistoryLog) returns (lines: seq<TextLine>)
    ensures lines == MealBlock(log)
    ensures lines[0].MealHeader? && lines[0].calories == MealCalories(log.items)
  {
    var mealCalories := MealCalories(log.items);
    var header := MealHeader(MealLabel(log.mealType), NameSuffix(log.mealName), mealCalories);
    lines := [header];
    if log.items != [] {
      var j := 0;
      while j < |log.items|
        invariant 0 <= j <= |log.items|
        invariant lines == [header] + ItemLines(log.items[..j])
      {
        var item := log.items[j];
        assert log.items[..j + 1][..j] == log.items[..j];
        lines := lines + [ItemLine(item.name, QtyLabelOf(item.quantity), ItemCalories(item))];
        j := j + 1;
      }
      assert log.items[..|log.items|] == log.items;
    } else {
      lines := lines + [NoItems];
    }
  }

  // ---------------------------------------------------------------------
  // format_date

  const WeekdayNames: seq<string> := ["Sunday", "Monday", "Tuesday", "Wednesday", "Thursday", "Friday", "Saturday"]

  const MonthNames: seq<string> := ["January", "February", "March", "April", "May", "June", "July",
                                    "August", "September", "October", "November", "December"]

  /** `strftime("%A, %B %d, %Y")` of a valid date, and the input itself
      otherwise. */
  function FormatDate(s: string): (r: string)
    ensures !ValidDate(s) ==> r == s
    ensures ValidDate(s) ==>
      r == WeekdayNames[Weekday(YearOf(s), MonthOf(s), DayOf(s))] + ", " + MonthNames[MonthOf(s) - 1]
           + " " + s[8..10] + ", " + s[..4]
  {
    if ValidDate(s) then
      WeekdayNames[Weekday(YearOf(s), MonthOf(s), DayOf(s))] + ", " + MonthNames[MonthOf(s) - 1]
        + " " + s[8..10] + ", " + s[..4]
    else s
  }

  /** The date is shown unchanged exactly when it is not a calendar date:
      a formatted date starts with the weekday's name, a date with a
      digit. */
  lemma FormatDateUnchanged(s: string)
    ensures FormatDate(s) == s <==> !ValidDate(s)
  {
    if ValidDate(s) {
      var w := Weekday(YearOf(s), MonthOf(s), DayOf(s));
      assert FormatDate(s)[0] == WeekdayNames[w][0];
      assert !IsDigit(WeekdayNames[w][0]);
    }
  }

  // ---------------------------------------------------------------------
  // Text output: days

  /** Where the run of entries sharing the last entry's date begins: every
      entry from there on has that date, and the one before it (if any) has
      another. */
  function RunStart(logs: seq<HistoryLog>): (s: nat)
    requires logs != []
    ensures s < |logs|
    ensures forall j :: s <= j < |logs| ==> logs[j].mealDate == logs[|logs| - 1].mealDate
    ensures s == 0 || logs[s - 1].mealDate != logs[|logs| - 1].mealDate
  {
    var n := |logs| - 1;
    if n > 0 && logs[n - 1].mealDate == logs[n].mealDate then
      var s := RunStart(logs[..n]);
      assert forall j :: s <= j < n ==> logs[..n][j] == logs[j];
      s
    else n
  }

  /** The current date's run starts at the last entry when it opens a new
      date, and where the run of the entries before it starts otherwise. */
  lemma RunStartStep(logs: seq<HistoryLog>)
    requires logs != []
    ensures NewDate(logs, |logs| - 1) ==> RunStart(logs) == |logs| - 1
    ensures !NewDate(logs, |logs| - 1) ==> RunStart(logs) == RunStart(logs[..|logs| - 1])
  {
  }

  /** True when the entry at i opens a new date: the first entry, or one
      whose date differs from the previous entry's. */
  predicate NewDate(logs: seq<HistoryLog>, i: nat)
    requires i < |logs|
  {
    i == 0 || logs[i - 1].mealDate != logs[i].mealDate
  }

  /** A day's total: the sum of its meals' totals. */
  function DaySum(run: seq<HistoryLog>): int {
    if run == [] then 0 else DaySum(run[..|run| - 1]) + MealCalories(run[|run| - 1].items)
  }

  /** `daily_total` after the loop has seen the entries: restarted at each
      new date, then increased by each meal's total. */
  function RunningTotal(logs: seq<HistoryLog>): int {
    if logs == [] then 0
    else
      var n := |logs| - 1;
      (if NewDate(logs, n) then 0 else RunningTotal(logs[..n])) + MealCalories(logs[n].items)
  }

  /** The running total is the sum of the meals of the current date's run. */
  lemma {:induction false} RunningTotalIsDaySum(logs: seq<HistoryLog>)
    requires logs != []
    ensures RunningTotal(logs) == DaySum(logs[RunStart(logs)..])
    decreases |logs|
  {
    var n := |logs| - 1;
    RunStartStep(logs);
    var s := RunStart(logs);
    var run := logs[s..];
    assert run[|run| - 1] == logs[n];
    if NewDate(logs, n) {
      assert run[..|run| - 1] == [];
    } else {
      var init := logs[..n];
      RunningTotalIsDaySum(init);
      assert run[..|run| - 1] == init[s..];
    }
  }

  /** What the loop prints for the entry at i: on a new date, the previous
      day's total and an empty line (unless it is the first date) and the
      date header with its rule; then the meal. */
  function EntryLines(logs: seq<HistoryLog>, i: nat): seq<TextLine>
    requires i < |logs|
  {
    (if NewDate(logs, i) then
       (if i > 0 then [DailyTotal(RunningTotal(logs[..i])), Blank] else [])
       + [DateHeader(FormatDate(logs[i].mealDate)), Rule('-')]
     else [])
    + MealBlock(logs[i])
  }

  /** The lines the loop prints for the entries, in order. */
  function Printed(logs: seq<HistoryLog>): seq<TextLine> {
    if logs == [] then [] else Printed(logs[..|logs| - 1]) + EntryLines(logs, |logs| - 1)
  }

  /** The human-readable listing: title and rule, the loop's lines, the last
      day's total when there was an entry, and the closing rule. */
  function TextReport(username: string, logs: seq<HistoryLog>): seq<TextLine> {
    [Title(username), Rule('=')] + Printed(logs)
      + (if logs != [] then [FinalTotal(RunningTotal(logs))] else [])
      + [Footer]
  }

  /** At each change of date the total printed is the sum of the meals of
      the day just finished, all of which share that date. */
  lemma DailyTotalOfDay(logs: seq<HistoryLog>, i: nat)
    requires 0 < i < |logs| && NewDate(logs, i)
    ensures var s := RunStart(logs[..i]);
      && EntryLines(logs, i)[0] == DailyTotal(DaySum(logs[s..i]))
      && EntryLines(logs, i)[1] == Blank
      && EntryLines(logs, i)[2] == DateHeader(FormatDate(logs[i].mealDate))
      && (forall j :: s <= j < i ==> logs[j].mealDate == logs[i - 1].mealDate)
      && (s == 0 || logs[s - 1].mealDate != logs[i - 1].mealDate)
  {
    var init := logs[..i];
    RunningTotalIsDaySum(init);
    var s := RunStart(init);
    assert init[s..] == logs[s..i];
    assert forall j :: s <= j < i ==> init[j] == logs[j];
  }

  /** The total printed after the loop is the sum of the meals of the last
      date's run. */
  lemma FinalTotalOfDay(username: string, logs: seq<HistoryLog>)
    requires logs != []
    ensures var r := TextReport(username, logs);
      r[|r| - 2] == FinalTotal(DaySum(logs[RunStart(logs)..]))
  {
    RunningTotalIsDaySum(logs);
  }

  /** One more entry: its lines follow those of the entries before it. */
  lemma PrintedStep(logs: seq<HistoryLog>, i: nat)
    requires i < |logs|
    ensures Printed(logs[..i + 1]) == Printed(logs[..i]) + EntryLines(logs, i)
    ensures RunningTotal(logs[..i + 1]) ==
      (if NewDate(logs, i) then 0 else RunningTotal(logs[..i])) + MealCalories(logs[i].items)
  {
    var prefix := logs[..i + 1];
    assert prefix[..i] == logs[..i];
    assert prefix[i] == logs[i];
    assert i > 0 ==> prefix[i - 1] == logs[i - 1];
    assert EntryLines(prefix, i) == EntryLines(logs, i);
  }

  /** One turn of the text loop: on a new date, the previous day's total
      and an empty line (unless it is the first date), the date header and
      its rule, with the daily total restarted; then the meal, whose total
      is added to the daily total. */
  method PrintEntry(logs: seq<HistoryLog>, i: nat, currentDate: Option<string>, dailyTotal: int)
    returns (out: seq<TextLine>, date: Option<string>, total: int)
    requires i < |logs|
    requires currentDate == if i == 0 then None else Some(logs[i - 1].mealDate)
    requires dailyTotal == RunningTotal(logs[..i])
    ensures out == EntryLines(logs, i)
    ensures date == Some(logs[i].mealDate)
    ensures total == RunningTotal(logs[..i + 1])
  {
    var log := logs[i];
    PrintedStep(logs, i);
    out := [];
    total := dailyTotal;
    if currentDate.None? || currentDate.value != log.mealDate {
      if currentDate.Some? {
        out := [DailyTotal(dailyTotal), Blank];
      }
      total := 0;
      out := out + [DateHeader(FormatDate(log.mealDate)), Rule('-')];
    }
    date := Some(log.mealDate);
    var mealLines := PrintMeal(log);
    total := total + MealCalories(log.items);
    out := out + mealLines;
  }

  /** The text branch: the loop over the entries, printing a date header
      whenever the date changes (after the previous day's total) and
      restarting the daily total, then the last day's total and the closing
      rule. */
  method PrintText(username: string, logs: seq<HistoryLog>) returns (lines: seq<TextLine>)
    ensures lines == TextReport(username, logs)
  {
    var body: seq<TextLine> := [];
    var currentDate: Option<string> := None;
    var dailyTotal := 0;
    var i := 0;
    while i < |logs|
      invariant 0 <= i <= |logs|
      invariant body == Printed(logs[..i])
      invariant currentDate == if i == 0 then None else Some(logs[i - 1].mealDate)
      invariant dailyTotal == RunningTotal(logs[..i])
    {
      PrintedStep(logs, i);
      var entry;
      entry, currentDate, dailyTotal := PrintEntry(logs, i, currentDate, dailyTotal);
      body := body + entry;
      i := i + 1;
    }
    assert logs[..|logs|] == logs;
    lines := [Title(username), Rule('=')] + body;
    if currentDate.Some? {
      lines := lines + [FinalTotal(dailyTotal)];
    }
    lines := lines + [Footer];
  }

  // ---------------------------------------------------------------------
  // The report

  datatype Report =
    | NoHistory
    | Csv(header: seq<string>, rows: seq<CsvRow>)
    | Text(lines: seq<TextLine>)

  /** main after the user lookup: no history at all is reported as such
      (checked before the window is applied); otherwise the window is
      applied and the CSV or the text branch runs on what remains. */
  method PrintHistory(username: string, logs: seq<HistoryLog>, days: int, cutoff: string, csv: bool) returns (r: Report)
    ensures r == NoHistory <==> logs == []
    ensures logs != [] && csv ==> r == Csv(CsvHeader, AllRows(Window(logs, days, cutoff)))
    ensures logs != [] && !csv ==> r == Text(TextReport(username, Window(logs, days, cutoff)))
  {
    if logs == [] {
      return NoHistory;
    }
    var shown := Window(logs, days, cutoff);
    if csv {
      var header, rows := WriteCsv(shown);
      r := Csv(header, rows);
    } else {
      var lines := PrintText(username, shown);
      r := Text(lines);
    }
  }
}
