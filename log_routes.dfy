/** The read side of the daily log engine of
    backend/api_server/routes/log_routes.py: one entry with its items, the
    ownership checks on an entry id, the six-slot daily view and the list of
    dates a user has logged. */
module LogRoutes {
  import opened Schema
  import opened Ordering
  import opened Calendar
  import opened MealRoutes

  /** The meal slots of a day, in the order the daily view lists them. */
  const MealTypes: seq<string> := ["breakfast", "morning_snack", "lunch", "afternoon_snack", "dinner", "evening_snack"]

  /** An entry as get_log_entry_with_items returns it. */
  datatype LogView = LogView(
    id: nat,
    mealDate: string,
    mealType: string,
    mealId: Option<nat>,
    mealName: Option<string>,
    items: seq<ItemView>,
    totalCalories: real)

  /** `SELECT ... FROM user_meal_log WHERE id = ?` */
  function FindLog(logs: seq<LogEntry>, id: nat): (r: Option<LogEntry>)
    ensures r.Some? ==> r.value in logs && r.value.id == id
    ensures r.None? <==> forall e :: e in logs ==> e.id != id
  {
    if logs == [] then None
    else if logs[0].id == id then Some(logs[0])
    else FindLog(logs[1..], id)
  }

  /** With unique ids, looking a stored entry up by its id finds it. */
  lemma {:induction false} FindLogStored(logs: seq<LogEntry>, next: nat, e: LogEntry)
    requires LogsValid(logs, next) && e in logs
    ensures FindLog(logs, e.id) == Some(e)
    decreases |logs|
  {
    if logs[0] != e {
      var k :| 0 <= k < |logs| && logs[k] == e;
      assert logs[0].id < logs[k].id;
      FindLogStored(logs[1..], next, e);
    }
  }

  /** `LEFT JOIN meals m ON m.id = l.meal_id`: the name of the linked
      template, or None when there is no link or no such template. */
  function MealNameOf(meals: seq<Meal>, mealId: Option<nat>): (r: Option<string>)
    ensures r.Some? <==> mealId.Some? && exists m :: m in meals && m.id == mealId.value
    ensures r.Some? ==> r.value == FindMeal(meals, mealId.value).value.name
  {
    match mealId
    case None => None
    case Some(id) =>
      match FindMeal(meals, id)
      case None => None
      case Some(m) => Some(m.name)
  }

  /** A stored entry with its joined items and their total. */
  function EntryView(t: Tables, e: LogEntry): LogView {
    var items := ItemsOf(t.foods, t.logItems, e.id);
    LogView(e.id, e.mealDate, e.mealType, e.mealId, MealNameOf(t.meals, e.mealId), items, Total(items))
  }

  /** get_log_entry_with_items: None for an unknown id; otherwise the entry,
      its template's name, its joined items and their total. */
  function GetLogEntryWithItems(t: Tables, id: nat): (r: Option<LogView>)
    ensures r.None? <==> forall e :: e in t.logs ==> e.id != id
    ensures r.Some? ==>
      && r.value.id == id
      && FindLog(t.logs, id).Some?
      && r.value.mealDate == FindLog(t.logs, id).value.mealDate
      && r.value.mealType == FindLog(t.logs, id).value.mealType
      && r.value.mealId == FindLog(t.logs, id).value.mealId
      && r.value.mealName == MealNameOf(t.meals, r.value.mealId)
      && r.value.items == ItemsOf(t.foods, t.logItems, id)
      && r.value.totalCalories == Total(r.value.items)
  {
    match FindLog(t.logs, id)
    case None => None
    case Some(e) => Some(EntryView(t, e))
  }

  /** With unique ids, every stored entry is found by its id. */
  lemma GetStoredLog(t: Tables, e: LogEntry)
    requires Valid(t) && e in t.logs
    ensures GetLogEntryWithItems(t, e.id) == Some(EntryView(t, e))
  {
    FindLogStored(t.logs, t.nextLogId, e);
  }

  /** An entry's total is the sum of calories times quantity over the
      entry's stored item rows. */
  lemma LogTotalOverRows(t: Tables, id: nat)
    requires Valid(t)
    requires GetLogEntryWithItems(t, id).Some?
    ensures forall x :: x in RowsOf(t.logItems, id) ==> FindFood(t.foods, x.foodId).Some?
    ensures GetLogEntryWithItems(t, id).value.totalCalories == RowCalories(t.foods, RowsOf(t.logItems, id))
  {
    ItemsTotal(t.foods, t.logItems, LogIds(t.logs), id);
  }

  /** GET /api/log/<id>: 500 when the id is too large to bind, 404 when no
      entry has the id, 403 when the entry belongs to another user,
      otherwise the entry with its items. */
  function GetLogEntry(t: Tables, user: UserId, id: nat): (r: Response<LogView>)
    ensures r.ServerError? || r.NotFound? || r.Forbidden? || r.Ok?
    ensures r.ServerError? <==> id > MaxInteger
    ensures r.NotFound? <==> id <= MaxInteger && forall e :: e in t.logs ==> e.id != id
    ensures r.Forbidden? <==>
      id <= MaxInteger && FindLog(t.logs, id).Some? && FindLog(t.logs, id).value.userId != user
    ensures r.Ok? ==>
      && id <= MaxInteger && FindLog(t.logs, id).Some? && FindLog(t.logs, id).value.userId == user
      && Some(r.value) == GetLogEntryWithItems(t, id)
  {
    if id > MaxInteger then ServerError
    else match FindLog(t.logs, id)
    case None => NotFound
    case Some(e) =>
      if e.userId != user then Forbidden
      else Ok(GetLogEntryWithItems(t, id).value)
  }

  /** In a consistent store the ownership check is about the one entry with
      that id: 403 exactly when it is someone else's, 200 exactly when it is
      the caller's. */
  lemma GetLogEntryOwnership(t: Tables, user: UserId, id: nat)
    requires Valid(t)
    ensures GetLogEntry(t, user, id).Forbidden? <==>
      id <= MaxInteger && exists e :: e in t.logs && e.id == id && e.userId != user
    ensures GetLogEntry(t, user, id).Ok? <==>
      id <= MaxInteger && exists e :: e in t.logs && e.id == id && e.userId == user
  {
    forall e | e in t.logs && e.id == id ensures FindLog(t.logs, id) == Some(e) {
      FindLogStored(t.logs, t.nextLogId, e);
    }
  }

  // ---------------------------------------------------------------------
  // The daily view

  /** One slot of the daily view. */
  datatype SlotView = SlotView(logId: Option<nat>, mealName: Option<string>, items: seq<ItemView>, calories: real)

  /** The placeholder of a slot with no entry. */
  const EmptySlot := SlotView(None, None, [], 0.0)

  /** The daily view: the date, its total and the slots in slot order. */
  datatype DayView = DayView(date: string, totalCalories: real, meals: seq<(string, SlotView)>)

  /** `logs_by_type.get(meal_type)`: the dictionary built from the day's
      rows keeps the last row of each meal type. */
  function LastEntry(logs: seq<LogEntry>, key: SlotKey): (r: Option<LogEntry>)
    ensures r.None? <==> forall e :: e in logs ==> KeyOf(e) != key
    ensures r.Some? ==> r.value in logs && KeyOf(r.value) == key
  {
    if logs == [] then None
    else
      assert logs == logs[..|logs| - 1] + [logs[|logs| - 1]];
      if KeyOf(logs[|logs| - 1]) == key then Some(logs[|logs| - 1])
      else LastEntry(logs[..|logs| - 1], key)
  }

  /** With at most one entry per key, the slot's row is that entry. */
  lemma LastEntryUnique(logs: seq<LogEntry>, next: nat, e: LogEntry)
    requires LogsValid(logs, next) && e in logs
    ensures LastEntry(logs, KeyOf(e)) == Some(e)
  {
    var f := LastEntry(logs, KeyOf(e)).value;
    var i :| 0 <= i < |logs| && logs[i] == e;
    var j :| 0 <= j < |logs| && logs[j] == f;
    assert !(i < j) && !(j < i);
  }

  /** One slot: the placeholder, or the entry's id, template name, items and
      the sum of calories times quantity over them. */
  function SlotOf(t: Tables, e: Option<LogEntry>): SlotView {
    match e
    case None => EmptySlot
    case Some(entry) =>
      var items := ItemsOf(t.foods, t.logItems, entry.id);
      SlotView(Some(entry.id), MealNameOf(t.meals, entry.mealId), items, Total(items))
  }

  /** The running sum the daily loop accumulates, slot by slot. */
  function SumCalories(slots: seq<(string, SlotView)>): real {
    if slots == [] then 0.0
    else SumCalories(slots[..|slots| - 1]) + slots[|slots| - 1].1.calories
  }

  /** GET /api/log?date=...: the date defaults to today and must be a
      calendar date; the view then has the six slots in order, each the
      placeholder or the user's entry for that slot, and the day's total is
      the running sum of the slot totals. */
  method GetDailyLog(db: Database, user: UserId, date: Option<string>, today: string) returns (r: Response<DayView>)
    ensures var d := if date.Some? then date.value else today;
      && (r == BadRequest(InvalidDate) <==> !ValidDate(d))
      && (ValidDate(d) ==>
        && r.Ok? && r.value.date == d
        && |r.value.meals| == |MealTypes|
        && (forall k :: 0 <= k < |MealTypes| ==>
              r.value.meals[k] == (MealTypes[k], SlotOf(db.Snapshot(), LastEntry(db.logs, SlotKey(user, d, MealTypes[k])))))
        && r.value.totalCalories == SumCalories(r.value.meals))
  {
    var d := if date.Some? then date.value else today;
    if !ValidDate(d) {
      return BadRequest(InvalidDate);
    }
    var total, meals := DaySlots(db.Snapshot(), user, d);
    r := Ok(DayView(d, total, meals));
  }

  /** The loop over the six meal types of get_daily_log: each slot is the
      placeholder or the entry with its items and their total, and the total
      accumulates the slot totals. */
  method DaySlots(t: Tables, user: UserId, d: string) returns (total: real, meals: seq<(string, SlotView)>)
    ensures |meals| == |MealTypes|
    ensures forall k :: 0 <= k < |MealTypes| ==>
      meals[k] == (MealTypes[k], SlotOf(t, LastEntry(t.logs, SlotKey(user, d, MealTypes[k]))))
    ensures total == SumCalories(meals)
  {
    meals := [];
    total := 0.0;
    var i := 0;
    while i < |MealTypes|
      invariant 0 <= i <= |MealTypes|
      invariant |meals| == i
      invariant forall k :: 0 <= k < i ==> meals[k] == (MealTypes[k], SlotOf(t, LastEntry(t.logs, SlotKey(user, d, MealTypes[k]))))
      invariant total == SumCalories(meals)
    {
      var mealType := MealTypes[i];
      var log := LastEntry(t.logs, SlotKey(user, d, mealType));
      var slot: SlotView;
      if log.Some? {
        var items := ItemsOf(t.foods, t.logItems, log.value.id);
        var calories := Total(items);
        total := total + calories;
        slot := SlotView(Some(log.value.id), MealNameOf(t.meals, log.value.mealId), items, calories);
      } else {
        slot := EmptySlot;
      }
      var next := meals + [(mealType, slot)];
      assert next[..|meals|] == meals && next[..|meals| + 1] == next;
      SumCaloriesStep(next, |meals|);
      meals := next;
      i := i + 1;
    }
  }

  /** A slot of the daily view shows the user's entry for it when there is
      one, with the same id, template name, items and total as the entry read
      by id; it is the placeholder exactly when there is none. */
  lemma SlotShowsEntry(t: Tables, key: SlotKey)
    requires Valid(t)
    ensures SlotOf(t, LastEntry(t.logs, key)) == EmptySlot <==> forall e :: e in t.logs ==> KeyOf(e) != key
    ensures forall e :: e in t.logs && KeyOf(e) == key ==>
      var v := GetLogEntryWithItems(t, e.id).value;
      SlotOf(t, LastEntry(t.logs, key)) == SlotView(Some(e.id), v.mealName, v.items, v.totalCalories)
  {
    forall e | e in t.logs && KeyOf(e) == key
      ensures var v := GetLogEntryWithItems(t, e.id).value;
        SlotOf(t, LastEntry(t.logs, key)) == SlotView(Some(e.id), v.mealName, v.items, v.totalCalories)
    {
      LastEntryUnique(t.logs, t.nextLogId, e);
      GetStoredLog(t, e);
    }
  }

  /** One more slot adds its calories to the running sum. */
  lemma SumCaloriesStep(slots: seq<(string, SlotView)>, k: nat)
    requires k < |slots|
    ensures SumCalories(slots[..k + 1]) == SumCalories(slots[..k]) + slots[k].1.calories
  {
    assert slots[..k + 1][..k] == slots[..k];
  }

  /** The day's total is the sum of the six slot totals. */
  lemma {:induction false} DayTotalIsSlotSum(slots: seq<(string, SlotView)>)
    requires |slots| == |MealTypes|
    ensures SumCalories(slots) ==
      slots[0].1.calories + slots[1].1.calories + slots[2].1.calories
      + slots[3].1.calories + slots[4].1.calories + slots[5].1.calories
  {
    assert slots[..0] == [];
    SumCaloriesStep(slots, 0);
    SumCaloriesStep(slots, 1);
    SumCaloriesStep(slots, 2);
    SumCaloriesStep(slots, 3);
    SumCaloriesStep(slots, 4);
    SumCaloriesStep(slots, 5);
    assert slots[..6] == slots;
  }

  // ---------------------------------------------------------------------
  // The dates listing

  /** `SELECT meal_date FROM user_meal_log WHERE user_id = ?` */
  function UserDates(logs: seq<LogEntry>, user: UserId): (r: seq<string>)
    ensures forall d :: d in r <==> exists e :: e in logs && e.userId == user && e.mealDate == d
  {
    if logs == [] then []
    else
      assert forall e :: e in logs <==> e == logs[0] || e in logs[1..];
      (if logs[0].userId == user then [logs[0].mealDate] else []) + UserDates(logs[1..], user)
  }

  /** GET /api/log/dates: `SELECT DISTINCT meal_date ... ORDER BY
      meal_date`: exactly the dates on which the user has an entry, each
      once, ascending. */
  function AvailableDates(t: Tables, user: UserId): (r: seq<string>)
    ensures forall d :: d in r <==> exists e :: e in t.logs && e.userId == user && e.mealDate == d
    ensures forall i, j :: 0 <= i < j < |r| ==> StrLt(r[i], r[j])
  {
    var dates := UserDates(t.logs, user);
    var sorted := SortBy(dates, Self);
    SortByIsSorted(dates, Self);
    forall d ensures d in sorted <==> d in dates {
      SortByMembers(dates, Self, d);
    }
    DedupAscending(sorted);
    Dedup(sorted)
  }
}
