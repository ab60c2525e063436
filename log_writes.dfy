/** The write side of the daily log engine of
    backend/api_server/routes/log_routes.py: the upsert of one meal slot
    (POST /api/log) and the deletion of an entry (DELETE /api/log/<id>),
    each as a transition of the store, the properties of those transitions,
    and the handlers proved to perform them. */
module LogWrites {
  import opened Schema
  import opened Text
  import opened Calendar
  import opened MealRoutes
  import opened LogRoutes

  /** The fields of the POST body: `meal_type`, `meal_date` and `meal_name`
      (None when absent or null) and `items` (empty when absent or null). */
  datatype LogRequest = LogRequest(
    mealType: Option<string>,
    mealDate: Option<string>,
    mealName: Option<string>,
    items: seq<ItemRequest>)

  /** `(data.get("meal_type") or "").strip()` */
  function MealTypeOf(req: LogRequest): string {
    Strip(if req.mealType.Some? then req.mealType.value else "")
  }

  /** `data.get("meal_date") or today`: an absent, null or empty date is
      today's. */
  function MealDateOf(req: LogRequest, today: string): (d: string)
    ensures req.mealDate.Some? && req.mealDate.value != [] ==> d == req.mealDate.value
    ensures req.mealDate.None? || req.mealDate.value == [] ==> d == today
  {
    if req.mealDate.Some? && req.mealDate.value != [] then req.mealDate.value else today
  }

  /** The template name the handler acts on (`if meal_name:`): the stripped
      `meal_name`, or None when it is absent, null, empty or blank. */
  function TemplateNameOf(req: LogRequest): (r: Option<string>)
    ensures r.Some? <==> req.mealName.Some? && Strip(req.mealName.value) != []
    ensures r.Some? ==> r.value == Strip(req.mealName.value)
  {
    if req.mealName.Some? && Strip(req.mealName.value) != [] then Some(Strip(req.mealName.value)) else None
  }

  /** The template step: no template without a name; the template of that
      exact name when one exists; otherwise a new template with no
      description holding the request's items. */
  function ResolveTemplate(t: Tables, name: Option<string>, lines: seq<Line>): (out: (Option<nat>, Tables))
    ensures out.1.foods == t.foods && out.1.logs == t.logs && out.1.logItems == t.logItems
    ensures out.1.nextLogId == t.nextLogId && out.1.nextLogItemId == t.nextLogItemId
  {
    match name
    case None => (None, t)
    case Some(n) =>
      match FindMealByName(t.meals, n)
      case Some(m) => (Some(m.id), t)
      case None => (Some(t.nextMealId), WithTemplate(t, n, None, lines))
  }

  /** `SELECT id FROM user_meal_log WHERE user_id = ? AND meal_date = ? AND
      meal_type = ?`: the index of the first entry with the key. */
  function FindSlot(logs: seq<LogEntry>, key: SlotKey): (r: Option<nat>)
    ensures r.Some? ==> r.value < |logs| && KeyOf(logs[r.value]) == key
    ensures r.None? <==> forall e :: e in logs ==> KeyOf(e) != key
  {
    if logs == [] then None
    else if KeyOf(logs[0]) == key then Some(0)
    else match FindSlot(logs[1..], key)
      case None => None
      case Some(i) => Some(i + 1)
  }

  /** With one entry per key, the slot lookup finds the entry with the key. */
  lemma FindSlotUnique(logs: seq<LogEntry>, next: nat, key: SlotKey, k: nat)
    requires LogsValid(logs, next) && k < |logs| && KeyOf(logs[k]) == key
    ensures FindSlot(logs, key) == Some(k)
  {
    assert logs[k] in logs;
    var i := FindSlot(logs, key).value;
    assert !(i < k) && !(k < i);
  }

  /** The entry step and the item loop: the entry with the key is updated in
      place (new template link) and its items replaced, or a new entry is
      inserted with the items. Returns the entry's id and the new store. */
  function WriteEntry(t: Tables, key: SlotKey, mealId: Option<nat>, lines: seq<Line>): (out: (nat, Tables))
    ensures LogEntry(out.0, key.userId, key.mealDate, key.mealType, mealId) in out.1.logs
    ensures out.1.foods == t.foods && out.1.meals == t.meals && out.1.mealItems == t.mealItems
  {
    match FindSlot(t.logs, key)
    case Some(i) =>
      var e := t.logs[i];
      assert t.logs[i := e.(mealId := mealId)][i] == e.(mealId := mealId);
      (e.id, t.(logs := t.logs[i := e.(mealId := mealId)],
                logItems := RowsNotOf(t.logItems, e.id) + NewRows(e.id, lines, t.nextLogItemId),
                nextLogItemId := t.nextLogItemId + |lines|))
    case None =>
      (t.nextLogId, t.(logs := t.logs + [LogEntry(t.nextLogId, key.userId, key.mealDate, key.mealType, mealId)],
                       logItems := t.logItems + NewRows(t.nextLogId, lines, t.nextLogItemId),
                       nextLogId := t.nextLogId + 1,
                       nextLogItemId := t.nextLogItemId + |lines|))
  }

  /** POST /api/log as a transition of the store. A meal type outside the
      six, then a date that is not a calendar date, is refused with the
      store unchanged; an item naming an unknown food fails the transaction
      (500) and nothing is kept; otherwise the template step and the entry
      step run and the entry is returned with its items. */
  function Upsert(t: Tables, user: UserId, req: LogRequest, today: string): (out: (Response<LogView>, Tables))
    ensures MealTypeOf(req) !in MealTypes ==> out == (BadRequest(InvalidMealType), t)
    ensures MealTypeOf(req) in MealTypes && !ValidDate(MealDateOf(req, today)) ==> out == (BadRequest(InvalidDate), t)
    ensures out.0.ServerError? <==>
      MealTypeOf(req) in MealTypes && ValidDate(MealDateOf(req, today)) && !AllFoodsKnown(t.foods, Lines(req.items))
    ensures out.0.Created? <==>
      MealTypeOf(req) in MealTypes && ValidDate(MealDateOf(req, today)) && AllFoodsKnown(t.foods, Lines(req.items))
    ensures !out.0.Created? ==> out.1 == t
    ensures out.0.Created? ==> GetLogEntryWithItems(out.1, out.0.value.id) == Some(out.0.value)
  {
    var mealType := MealTypeOf(req);
    var mealDate := MealDateOf(req, today);
    var lines := Lines(req.items);
    if mealType !in MealTypes then (BadRequest(InvalidMealType), t)
    else if !ValidDate(mealDate) then (BadRequest(InvalidDate), t)
    else if !AllFoodsKnown(t.foods, lines) then (ServerError, t)
    else
      var (mealId, t1) := ResolveTemplate(t, TemplateNameOf(req), lines);
      var (logId, t2) := WriteEntry(t1, SlotKey(user, mealDate, mealType), mealId, lines);
      (Created(GetLogEntryWithItems(t2, logId).value), t2)
  }

  // ---------------------------------------------------------------------
  // The template step

  /** The template step keeps the invariant, leaves the entries alone, and
      links to a stored template. */
  lemma ResolveTemplateValid(t: Tables, name: Option<string>, lines: seq<Line>)
    requires Valid(t) && AllFoodsKnown(t.foods, lines)
    ensures var (mealId, t1) := ResolveTemplate(t, name, lines);
      && Valid(t1)
      && t1.foods == t.foods && t1.logs == t.logs && t1.logItems == t.logItems
      && t1.nextLogId == t.nextLogId && t1.nextLogItemId == t.nextLogItemId
      && (mealId.Some? ==> exists m :: m in t1.meals && m.id == mealId.value && Some(m.name) == name)
  {
    if name.Some? && FindMealByName(t.meals, name.value).None? {
      WithTemplateValid(t, name.value, None, lines);
      var t1 := WithTemplate(t, name.value, None, lines);
      assert t1.meals[|t.meals|] in t1.meals;
    }
  }

  /** The three template cases: no usable name leaves the entry unlinked; an
      existing name (exact match) is linked and its template and items are
      left as they are; an unknown name creates one template with no
      description and the request's items. */
  lemma ResolveTemplateCases(t: Tables, name: Option<string>, lines: seq<Line>)
    requires Valid(t)
    ensures name.None? ==> ResolveTemplate(t, name, lines) == (None, t)
    ensures forall m :: name.Some? && m in t.meals && m.name == name.value ==>
      ResolveTemplate(t, name, lines) == (Some(m.id), t)
    ensures name.Some? && (forall m :: m in t.meals ==> m.name != name.value) ==>
      var (mealId, t1) := ResolveTemplate(t, name, lines);
      && mealId == Some(t.nextMealId)
      && t1.meals == t.meals + [Meal(t.nextMealId, name.value, None)]
      && LinesOf(RowsOf(t1.mealItems, t.nextMealId)) == lines
      && (forall id :: id != t.nextMealId ==> RowsOf(t1.mealItems, id) == RowsOf(t.mealItems, id))
  {
    if name.Some? {
      var found := FindMealByName(t.meals, name.value);
      forall m | m in t.meals && m.name == name.value ensures found == Some(m) {
        MealNameUnique(t.meals, t.nextMealId, m, found.value);
      }
      WithTemplateRows(t, name.value, None, lines);
    }
  }

  /** Browsables distributes over appending one template. */
  lemma {:induction false} BrowsablesSnoc(meals: seq<Meal>, m: Meal)
    ensures Browsables(meals + [m]) == Browsables(meals) + (if Browsable(m) then [m] else [])
    decreases |meals|
  {
    if meals == [] {
      assert Browsables([m]) == (if Browsable(m) then [m] else []) + Browsables([]);
    } else {
      assert (meals + [m])[1..] == meals[1..] + [m];
      BrowsablesSnoc(meals[1..], m);
    }
  }

  /** The template step never changes the template listing: a template it
      creates has no description. */
  lemma ResolveTemplateUnlisted(t: Tables, name: Option<string>, lines: seq<Line>)
    ensures ListedMeals(ResolveTemplate(t, name, lines).1) == ListedMeals(t)
  {
    if name.Some? && FindMealByName(t.meals, name.value).None? {
      var m := Meal(t.nextMealId, name.value, None);
      BrowsablesSnoc(t.meals, m);
      assert ResolveTemplate(t, name, lines).1.meals == t.meals + [m];
      assert Browsables(t.meals + [m]) == Browsables(t.meals);
    }
  }

  // ---------------------------------------------------------------------
  // The entry step

  /** No stored item row belongs to the id the next entry receives. */
  lemma NextLogHasNoItems(t: Tables)
    requires Valid(t)
    ensures forall x :: x in t.logItems ==> x.owner != t.nextLogId
  {
    forall x | x in t.logItems ensures x.owner != t.nextLogId {
      var k :| 0 <= k < |t.logItems| && t.logItems[k] == x;
      var e :| e in t.logs && e.id == x.owner;
      var j :| 0 <= j < |t.logs| && t.logs[j] == e;
    }
  }

  /** The entry step keeps the invariant: ids and keys stay unique and every
      new item row names a stored entry and a stored food. */
  lemma WriteEntryValid(t: Tables, key: SlotKey, mealId: Option<nat>, lines: seq<Line>)
    requires Valid(t) && AllFoodsKnown(t.foods, lines)
    ensures Valid(WriteEntry(t, key, mealId, lines).1)
  {
    forall l | l in lines ensures l.foodId in FoodIds(t.foods) {
      FoodIdsFind(t.foods, l.foodId);
    }
    if FindSlot(t.logs, key).Some? {
      UpdateEntryValid(t, key, mealId, lines);
    } else {
      InsertEntryValid(t, key, mealId, lines);
    }
  }

  lemma UpdateEntryValid(t: Tables, key: SlotKey, mealId: Option<nat>, lines: seq<Line>)
    requires Valid(t) && forall l :: l in lines ==> l.foodId in FoodIds(t.foods)
    requires FindSlot(t.logs, key).Some?
    ensures Valid(WriteEntry(t, key, mealId, lines).1)
  {
    var i := FindSlot(t.logs, key).value;
    var (id, t') := WriteEntry(t, key, mealId, lines);
    assert t'.logs == t.logs[i := t.logs[i].(mealId := mealId)];
    LogsValidUpdate(t.logs, t.nextLogId, i, mealId);
    assert id in LogIds(t.logs) by {
      assert t.logs[i] in t.logs;
    }
    ItemsValidReplace(t.logItems, LogIds(t.logs), FoodIds(t.foods), id, lines, t.nextLogItemId);
  }

  /** Changing the template link of one entry keeps ids and keys. */
  lemma LogsValidUpdate(logs: seq<LogEntry>, next: nat, i: nat, mealId: Option<nat>)
    requires LogsValid(logs, next) && i < |logs|
    ensures LogsValid(logs[i := logs[i].(mealId := mealId)], next)
    ensures LogIds(logs[i := logs[i].(mealId := mealId)]) == LogIds(logs)
  {
    var logs' := logs[i := logs[i].(mealId := mealId)];
    assert forall k :: 0 <= k < |logs| ==> logs'[k].id == logs[k].id && KeyOf(logs'[k]) == KeyOf(logs[k]);
    forall x ensures x in LogIds(logs') <==> x in LogIds(logs) {
      if x in LogIds(logs) {
        var e :| e in logs && e.id == x;
        var k :| 0 <= k < |logs| && logs[k] == e;
        assert logs'[k] in logs';
      }
      if x in LogIds(logs') {
        var e :| e in logs' && e.id == x;
        var k :| 0 <= k < |logs'| && logs'[k] == e;
        assert logs[k] in logs;
      }
    }
  }

  /** Replacing the rows of a stored owner by rows naming stored foods keeps
      the foreign keys of an item table. */
  lemma ItemsValidReplace(rows: seq<ItemRow>, owners: set<nat>, foods: set<int>, id: nat, lines: seq<Line>, start: nat)
    requires ItemsValid(rows, owners, foods) && id in owners
    requires forall l :: l in lines ==> l.foodId in foods
    ensures ItemsValid(RowsNotOf(rows, id) + NewRows(id, lines, start), owners, foods)
  {
    var rest := RowsNotOf(rows, id);
    var r := rest + NewRows(id, lines, start);
    forall k | 0 <= k < |r| ensures r[k].owner in owners && r[k].foodId in foods {
      if k < |rest| {
        assert rest[k] in rest;
        var j :| 0 <= j < |rows| && rows[j] == rest[k];
      } else {
        assert lines[k - |rest|] in lines;
      }
    }
  }

  lemma InsertEntryValid(t: Tables, key: SlotKey, mealId: Option<nat>, lines: seq<Line>)
    requires Valid(t) && forall l :: l in lines ==> l.foodId in FoodIds(t.foods)
    requires FindSlot(t.logs, key).None?
    ensures Valid(WriteEntry(t, key, mealId, lines).1)
  {
    var (id, t') := WriteEntry(t, key, mealId, lines);
    var e := LogEntry(t.nextLogId, key.userId, key.mealDate, key.mealType, mealId);
    assert t'.logs == t.logs + [e];
    assert LogIds(t'.logs) == LogIds(t.logs) + {t.nextLogId} by {
      assert forall x :: x in t'.logs <==> x in t.logs || x == e;
    }
    forall i, j | 0 <= i < j < |t'.logs| ensures t'.logs[i].id < t'.logs[j].id && KeyOf(t'.logs[i]) != KeyOf(t'.logs[j]) {
      if j == |t.logs| {
        assert t'.logs[i] in t.logs;
      }
    }
    var added := NewRows(t.nextLogId, lines, t.nextLogItemId);
    assert t'.logItems == t.logItems + added;
    forall k | |t.logItems| <= k < |t'.logItems| ensures t'.logItems[k].foodId in FoodIds(t.foods) {
      assert lines[k - |t.logItems|] in lines;
    }
  }

  /** After the entry step exactly one entry has the key: the one written,
      carrying the new template link. */
  lemma WriteEntryKey(t: Tables, key: SlotKey, mealId: Option<nat>, lines: seq<Line>)
    requires Valid(t)
    ensures var (id, t') := WriteEntry(t, key, mealId, lines);
      forall e :: e in t'.logs && KeyOf(e) == key ==> e == LogEntry(id, key.userId, key.mealDate, key.mealType, mealId)
  {
    var (id, t') := WriteEntry(t, key, mealId, lines);
    match FindSlot(t.logs, key)
    case Some(i) =>
      forall k | 0 <= k < |t'.logs| && k != i ensures KeyOf(t'.logs[k]) != key {
        assert t'.logs[k] == t.logs[k];
      }
      forall e | e in t'.logs && KeyOf(e) == key ensures e == LogEntry(id, key.userId, key.mealDate, key.mealType, mealId) {
        var k :| 0 <= k < |t'.logs| && t'.logs[k] == e;
      }
    case None =>
  }

  /** The entry step updates in place when the key is taken (same id, same
      position, only the template link changed) and otherwise appends exactly
      one entry with the next id. */
  lemma WriteEntryInPlace(t: Tables, key: SlotKey, mealId: Option<nat>, lines: seq<Line>)
    ensures forall k :: 0 <= k < |t.logs| && KeyOf(t.logs[k]) == key && FindSlot(t.logs, key) == Some(k) ==>
      WriteEntry(t, key, mealId, lines).0 == t.logs[k].id
      && WriteEntry(t, key, mealId, lines).1.logs == t.logs[k := t.logs[k].(mealId := mealId)]
    ensures (forall e :: e in t.logs ==> KeyOf(e) != key) ==>
      WriteEntry(t, key, mealId, lines).0 == t.nextLogId
      && WriteEntry(t, key, mealId, lines).1.logs == t.logs + [LogEntry(t.nextLogId, key.userId, key.mealDate, key.mealType, mealId)]
  {
  }

  /** The entry step's item rows: the written entry's rows are exactly
      `lines`, and every other entry keeps its rows. */
  lemma WriteEntryItems(t: Tables, key: SlotKey, mealId: Option<nat>, lines: seq<Line>)
    requires Valid(t)
    ensures var (id, t') := WriteEntry(t, key, mealId, lines);
      && LinesOf(RowsOf(t'.logItems, id)) == lines
      && forall other :: other != id ==> RowsOf(t'.logItems, other) == RowsOf(t.logItems, other)
  {
    var (id, t') := WriteEntry(t, key, mealId, lines);
    var added := NewRows(id, lines, t.nextLogItemId);
    var kept := if FindSlot(t.logs, key).Some? then RowsNotOf(t.logItems, id) else t.logItems;
    assert t'.logItems == kept + added;
    if FindSlot(t.logs, key).None? {
      NextLogHasNoItems(t);
    }
    RowsOfNone(kept, id);
    RowsOfAppend(kept, added, id);
    RowsOfNewRows(id, lines, t.nextLogItemId, id);
    LinesOfNewRows(id, lines, t.nextLogItemId);
    forall other | other != id ensures RowsOf(t'.logItems, other) == RowsOf(t.logItems, other) {
      RowsOfAppend(kept, added, other);
      RowsOfNewRows(id, lines, t.nextLogItemId, other);
      if FindSlot(t.logs, key).Some? {
        RowsOfRowsNotOf(t.logItems, id, other);
      }
    }
  }

  /** The entry step touches no entry with another key. */
  lemma WriteEntryFrame(t: Tables, key: SlotKey, mealId: Option<nat>, lines: seq<Line>)
    ensures var t' := WriteEntry(t, key, mealId, lines).1;
      && (forall e :: e in t.logs && KeyOf(e) != key ==> e in t'.logs)
      && (forall e :: e in t'.logs && KeyOf(e) != key ==> e in t.logs)
  {
    var t' := WriteEntry(t, key, mealId, lines).1;
    match FindSlot(t.logs, key)
    case Some(i) =>
      forall e | e in t.logs && KeyOf(e) != key ensures e in t'.logs {
        var k :| 0 <= k < |t.logs| && t.logs[k] == e;
        assert t'.logs[k] == e;
      }
      forall e | e in t'.logs && KeyOf(e) != key ensures e in t.logs {
        var k :| 0 <= k < |t'.logs| && t'.logs[k] == e;
        assert t.logs[k] == e;
      }
    case None =>
  }

  // ---------------------------------------------------------------------
  // Properties of the upsert

  /** The upsert keeps the invariant, in particular at most one entry per
      (user, date, meal type). */
  lemma UpsertValid(t: Tables, user: UserId, req: LogRequest, today: string)
    requires Valid(t)
    ensures Valid(Upsert(t, user, req, today).1)
  {
    var lines := Lines(req.items);
    if Upsert(t, user, req, today).0.Created? {
      ResolveTemplateValid(t, TemplateNameOf(req), lines);
      var (mealId, t1) := ResolveTemplate(t, TemplateNameOf(req), lines);
      WriteEntryValid(t1, SlotKey(user, MealDateOf(req, today), MealTypeOf(req)), mealId, lines);
    }
  }

  /** After a successful upsert the slot holds exactly one entry, the one
      returned, for the requested date and meal type; its items are exactly
      the request's items with a truthy food id, in order, with the default
      quantity filled in; and the daily view shows it in that slot. */
  lemma UpsertStoresSlot(t: Tables, user: UserId, req: LogRequest, today: string)
    requires Valid(t)
    requires Upsert(t, user, req, today).0.Created?
    ensures var (r, t') := Upsert(t, user, req, today);
      var key := SlotKey(user, MealDateOf(req, today), MealTypeOf(req));
      && r.value.mealDate == key.mealDate && r.value.mealType == key.mealType
      && (forall e :: e in t'.logs && KeyOf(e) == key ==> e.id == r.value.id)
      && LastEntry(t'.logs, key).Some? && LastEntry(t'.logs, key).value.id == r.value.id
      && LinesOf(RowsOf(t'.logItems, r.value.id)) == Lines(req.items)
      && |r.value.items| == |Lines(req.items)|
      && (forall k :: 0 <= k < |r.value.items| ==>
            r.value.items[k].foodId == Lines(req.items)[k].foodId && r.value.items[k].quantity == Lines(req.items)[k].quantity)
  {
    var lines := Lines(req.items);
    var key := SlotKey(user, MealDateOf(req, today), MealTypeOf(req));
    ResolveTemplateValid(t, TemplateNameOf(req), lines);
    var (mealId, t1) := ResolveTemplate(t, TemplateNameOf(req), lines);
    WriteEntryValid(t1, key, mealId, lines);
    WriteEntryKey(t1, key, mealId, lines);
    WriteEntryItems(t1, key, mealId, lines);
    var (id, t') := WriteEntry(t1, key, mealId, lines);
    var e := LogEntry(id, key.userId, key.mealDate, key.mealType, mealId);
    FindLogStored(t'.logs, t'.nextLogId, e);
    LastEntryUnique(t'.logs, t'.nextLogId, e);
    var rows := RowsOf(t'.logItems, id);
    ItemsTotal(t'.foods, t'.logItems, LogIds(t'.logs), id);
    JoinKeepsLines(t'.foods, rows);
  }

  /** An existing entry for the slot is updated in place (same id, same
      position, only its template link changes); otherwise exactly one entry
      is appended, with the next id. */
  lemma UpsertInPlaceOrInsert(t: Tables, user: UserId, req: LogRequest, today: string)
    requires Valid(t)
    requires Upsert(t, user, req, today).0.Created?
    ensures var (r, t') := Upsert(t, user, req, today);
      var key := SlotKey(user, MealDateOf(req, today), MealTypeOf(req));
      && (forall k :: 0 <= k < |t.logs| && KeyOf(t.logs[k]) == key ==>
            r.value.id == t.logs[k].id && t'.logs == t.logs[k := t.logs[k].(mealId := r.value.mealId)])
      && ((forall e :: e in t.logs ==> KeyOf(e) != key) ==>
            r.value.id == t.nextLogId
            && t'.logs == t.logs + [LogEntry(t.nextLogId, user, key.mealDate, key.mealType, r.value.mealId)])
  {
    var lines := Lines(req.items);
    var key := SlotKey(user, MealDateOf(req, today), MealTypeOf(req));
    ResolveTemplateValid(t, TemplateNameOf(req), lines);
    var (mealId, t1) := ResolveTemplate(t, TemplateNameOf(req), lines);
    WriteEntryInPlace(t1, key, mealId, lines);
    var (id, t') := WriteEntry(t1, key, mealId, lines);
    WriteEntryValid(t1, key, mealId, lines);
    FindLogStored(t'.logs, t'.nextLogId, LogEntry(id, key.userId, key.mealDate, key.mealType, mealId));
    forall k | 0 <= k < |t.logs| && KeyOf(t.logs[k]) == key ensures FindSlot(t1.logs, key) == Some(k) {
      FindSlotUnique(t1.logs, t1.nextLogId, key, k);
    }
  }

  /** Nothing else changes: entries for other slots keep their values and
      every other entry keeps its item rows; the catalog is untouched. */
  lemma UpsertFrame(t: Tables, user: UserId, req: LogRequest, today: string)
    requires Valid(t)
    requires Upsert(t, user, req, today).0.Created?
    ensures var (r, t') := Upsert(t, user, req, today);
      var key := SlotKey(user, MealDateOf(req, today), MealTypeOf(req));
      && t'.foods == t.foods
      && (forall e :: e in t.logs && KeyOf(e) != key ==> e in t'.logs)
      && (forall e :: e in t'.logs && KeyOf(e) != key ==> e in t.logs)
      && (forall id :: id != r.value.id ==> RowsOf(t'.logItems, id) == RowsOf(t.logItems, id))
  {
    var lines := Lines(req.items);
    var key := SlotKey(user, MealDateOf(req, today), MealTypeOf(req));
    ResolveTemplateValid(t, TemplateNameOf(req), lines);
    var (mealId, t1) := ResolveTemplate(t, TemplateNameOf(req), lines);
    WriteEntryFrame(t1, key, mealId, lines);
    WriteEntryItems(t1, key, mealId, lines);
    var (id, t') := WriteEntry(t1, key, mealId, lines);
    WriteEntryValid(t1, key, mealId, lines);
    FindLogStored(t'.logs, t'.nextLogId, LogEntry(id, key.userId, key.mealDate, key.mealType, mealId));
  }

  /** The template handling of the POST, seen from the returned entry: no
      usable name leaves the entry unlinked and the templates alone; an
      existing name links that template and leaves every template and
      template item as it was; an unknown name creates one template without
      description whose items are the request's. The template listing never
      changes. */
  lemma UpsertTemplate(t: Tables, user: UserId, req: LogRequest, today: string)
    requires Valid(t)
    requires Upsert(t, user, req, today).0.Created?
    ensures var (r, t') := Upsert(t, user, req, today);
      && ListedMeals(t') == ListedMeals(t)
      && (TemplateNameOf(req).None? ==>
            r.value.mealId.None? && r.value.mealName.None? && t'.meals == t.meals && t'.mealItems == t.mealItems)
      && (forall m :: TemplateNameOf(req).Some? && m in t.meals && m.name == TemplateNameOf(req).value ==>
            r.value.mealId == Some(m.id) && t'.meals == t.meals && t'.mealItems == t.mealItems)
      && (TemplateNameOf(req).Some? && (forall m :: m in t.meals ==> m.name != TemplateNameOf(req).value) ==>
            && r.value.mealId == Some(t.nextMealId)
            && t'.meals == t.meals + [Meal(t.nextMealId, TemplateNameOf(req).value, None)]
            && LinesOf(RowsOf(t'.mealItems, t.nextMealId)) == Lines(req.items))
      && (TemplateNameOf(req).Some? ==> r.value.mealName == TemplateNameOf(req))
  {
    var lines := Lines(req.items);
    var name := TemplateNameOf(req);
    ResolveTemplateCases(t, name, lines);
    ResolveTemplateUnlisted(t, name, lines);
    UpsertTemplateLink(t, user, req, today);
  }

  /** The returned entry carries the link the template step chose, and the
      template's name when it has one. */
  lemma UpsertTemplateLink(t: Tables, user: UserId, req: LogRequest, today: string)
    requires Valid(t)
    requires Upsert(t, user, req, today).0.Created?
    ensures var (r, t') := Upsert(t, user, req, today);
      var (mealId, t1) := ResolveTemplate(t, TemplateNameOf(req), Lines(req.items));
      && r.value.mealId == mealId && t'.meals == t1.meals && t'.mealItems == t1.mealItems
      && (mealId.None? ==> r.value.mealName.None?)
      && (TemplateNameOf(req).Some? ==> r.value.mealName == TemplateNameOf(req))
  {
    var lines := Lines(req.items);
    var name := TemplateNameOf(req);
    var key := SlotKey(user, MealDateOf(req, today), MealTypeOf(req));
    ResolveTemplateValid(t, name, lines);
    var (mealId, t1) := ResolveTemplate(t, name, lines);
    WriteEntryValid(t1, key, mealId, lines);
    var (id, t') := WriteEntry(t1, key, mealId, lines);
    FindLogStored(t'.logs, t'.nextLogId, LogEntry(id, key.userId, key.mealDate, key.mealType, mealId));
    if name.Some? {
      var m :| m in t1.meals && m.id == mealId.value && Some(m.name) == name;
      FindMealStored(t1.meals, t1.nextMealId, m);
    }
  }

  /** Once the template step has run, running it again on a store with the
      same templates links the same template and changes nothing. */
  lemma ResolveTemplateStable(t: Tables, t2: Tables, name: Option<string>, lines: seq<Line>)
    requires Valid(t) && AllFoodsKnown(t.foods, lines)
    requires Valid(t2) && t2.meals == ResolveTemplate(t, name, lines).1.meals
    ensures ResolveTemplate(t2, name, lines) == (ResolveTemplate(t, name, lines).0, t2)
  {
    ResolveTemplateValid(t, name, lines);
    if name.Some? {
      var (mealId, t1) := ResolveTemplate(t, name, lines);
      var m :| m in t1.meals && m.id == mealId.value && Some(m.name) == name;
      var found := FindMealByName(t2.meals, name.value).value;
      MealNameUnique(t2.meals, t2.nextMealId, m, found);
    }
  }

  /** Once the entry step has run, running it again with the same link and
      items finds the entry it wrote, leaves the entries as they are and
      writes the same item list. */
  lemma WriteEntryStable(t: Tables, key: SlotKey, mealId: Option<nat>, lines: seq<Line>)
    requires Valid(t) && AllFoodsKnown(t.foods, lines)
    ensures var (id, t') := WriteEntry(t, key, mealId, lines);
      var (id2, t2) := WriteEntry(t', key, mealId, lines);
      id2 == id && t2.logs == t'.logs && LinesOf(RowsOf(t2.logItems, id2)) == lines
  {
    var (id, t') := WriteEntry(t, key, mealId, lines);
    var e := LogEntry(id, key.userId, key.mealDate, key.mealType, mealId);
    WriteEntryValid(t, key, mealId, lines);
    WriteEntryKey(t, key, mealId, lines);
    var k := FindSlot(t'.logs, key).value;
    assert t'.logs[k] in t'.logs;
    assert t'.logs[k] == e;
    WriteEntryInPlace(t', key, mealId, lines);
    assert t'.logs[k := e.(mealId := mealId)] == t'.logs;
    WriteEntryItems(t', key, mealId, lines);
  }

  /** Sending the same request twice gives the same result as sending it
      once: the same entry, the same template link, the same entries and
      templates, and the same item list. */
  lemma UpsertIdempotent(t: Tables, user: UserId, req: LogRequest, today: string)
    requires Valid(t)
    requires Upsert(t, user, req, today).0.Created?
    ensures var (r1, t1) := Upsert(t, user, req, today);
      var (r2, t2) := Upsert(t1, user, req, today);
      && r2.Created?
      && r2.value.id == r1.value.id && r2.value.mealId == r1.value.mealId
      && t2.logs == t1.logs && t2.meals == t1.meals && t2.mealItems == t1.mealItems
      && LinesOf(RowsOf(t2.logItems, r2.value.id)) == Lines(req.items)
  {
    var lines := Lines(req.items);
    var name := TemplateNameOf(req);
    var key := SlotKey(user, MealDateOf(req, today), MealTypeOf(req));
    ResolveTemplateValid(t, name, lines);
    var (mealId, tm) := ResolveTemplate(t, name, lines);
    WriteEntryValid(tm, key, mealId, lines);
    var (id, t1) := WriteEntry(tm, key, mealId, lines);
    ResolveTemplateStable(t, t1, name, lines);
    WriteEntryStable(tm, key, mealId, lines);
  }

  // ---------------------------------------------------------------------
  // Deletion

  /** `DELETE FROM user_meal_log WHERE id = ?`: the entries that remain. */
  function LogsWithout(logs: seq<LogEntry>, id: nat): (r: seq<LogEntry>)
    ensures forall e :: e in r <==> e in logs && e.id != id
  {
    if logs == [] then []
    else (if logs[0].id != id then [logs[0]] else []) + LogsWithout(logs[1..], id)
  }

  /** Deleting entries keeps ids increasing and keys unique. */
  lemma {:induction false} LogsWithoutValid(logs: seq<LogEntry>, next: nat, id: nat)
    requires LogsValid(logs, next)
    ensures LogsValid(LogsWithout(logs, id), next)
    decreases |logs|
  {
    if logs != [] {
      LogsValidTail(logs, next);
      LogsWithoutValid(logs[1..], next, id);
      var rest := LogsWithout(logs[1..], id);
      if logs[0].id != id {
        assert logs[0] in logs;
        LogsValidCons(logs[0], rest, next);
        assert LogsWithout(logs, id) == [logs[0]] + rest;
      } else {
        assert LogsWithout(logs, id) == rest;
      }
    }
  }

  /** DELETE /api/log/<id> as a transition of the store: 500 when the id is
      too large to bind, 404 when no entry has the id, 403 when it belongs
      to another user (all three leave the store unchanged), otherwise the
      entry is deleted, whatever its date, and the foreign key's cascade
      deletes its items. */
  function RemoveLog(t: Tables, user: UserId, id: nat): (out: (Response<()>, Tables))
    ensures out.0.ServerError? || out.0.NotFound? || out.0.Forbidden? || out.0.Ok?
    ensures out.0.ServerError? <==> id > MaxInteger
    ensures out.0.NotFound? <==> id <= MaxInteger && forall e :: e in t.logs ==> e.id != id
    ensures out.0.Forbidden? <==>
      id <= MaxInteger && FindLog(t.logs, id).Some? && FindLog(t.logs, id).value.userId != user
    ensures !out.0.Ok? ==> out.1 == t
    ensures out.0.Ok? ==> out.1 == t.(logs := LogsWithout(t.logs, id), logItems := RowsNotOf(t.logItems, id))
  {
    if id > MaxInteger then (ServerError, t)
    else match FindLog(t.logs, id)
    case None => (NotFound, t)
    case Some(e) =>
      if e.userId != user then (Forbidden, t)
      else (Ok(()), t.(logs := LogsWithout(t.logs, id), logItems := RowsNotOf(t.logItems, id)))
  }

  /** Delete runs the same checks as the read by id. */
  lemma RemoveLogChecksLikeGet(t: Tables, user: UserId, id: nat)
    ensures RemoveLog(t, user, id).0.ServerError? <==> GetLogEntry(t, user, id).ServerError?
    ensures RemoveLog(t, user, id).0.NotFound? <==> GetLogEntry(t, user, id).NotFound?
    ensures RemoveLog(t, user, id).0.Forbidden? <==> GetLogEntry(t, user, id).Forbidden?
    ensures RemoveLog(t, user, id).0.Ok? <==> GetLogEntry(t, user, id).Ok?
  {
  }

  /** Deletion keeps the invariant: no item row is left without its entry. */
  lemma RemoveLogValid(t: Tables, user: UserId, id: nat)
    requires Valid(t)
    ensures Valid(RemoveLog(t, user, id).1)
  {
    var t' := RemoveLog(t, user, id).1;
    if RemoveLog(t, user, id).0.Ok? {
      LogsWithoutValid(t.logs, t.nextLogId, id);
      forall k | 0 <= k < |t'.logItems| ensures t'.logItems[k].owner in LogIds(t'.logs) && t'.logItems[k].foodId in FoodIds(t'.foods) {
        var x := t'.logItems[k];
        assert x in t.logItems;
        var j :| 0 <= j < |t.logItems| && t.logItems[j] == x;
        var e :| e in t.logs && e.id == x.owner;
        assert e in t'.logs;
      }
    }
  }

  /** After a successful delete the entry and all its items are gone, every
      other entry and item row remains, its slot shows the placeholder, and
      its date stays listed exactly when the user has another entry that
      day. */
  lemma RemoveLogEffect(t: Tables, user: UserId, id: nat)
    requires Valid(t)
    requires RemoveLog(t, user, id).0.Ok?
    ensures var t' := RemoveLog(t, user, id).1;
      var e := FindLog(t.logs, id).value;
      && (forall x :: x in t'.logs ==> x.id != id)
      && (forall x :: x in t'.logItems ==> x.owner != id)
      && (forall x :: x in t.logs && x.id != id ==> x in t'.logs)
      && (forall x :: x in t.logItems && x.owner != id ==> x in t'.logItems)
      && SlotOf(t', LastEntry(t'.logs, KeyOf(e))) == EmptySlot
      && (e.mealDate in AvailableDates(t', user) <==>
            exists x :: x in t.logs && x.id != id && x.userId == user && x.mealDate == e.mealDate)
  {
    var e := FindLog(t.logs, id).value;
    var t' := RemoveLog(t, user, id).1;
    forall x | x in t'.logs ensures KeyOf(x) != KeyOf(e) {
      var i :| 0 <= i < |t.logs| && t.logs[i] == x;
      var j :| 0 <= j < |t.logs| && t.logs[j] == e;
    }
  }

  // ---------------------------------------------------------------------
  // The handlers

  /** The template step of the POST transaction: look the name up; link the
      template found, or insert a new template and run the loop inserting
      its items. `ok` is false exactly when that loop hits an unknown food. */
  method TemplateStep(t: Tables, name: Option<string>, items: seq<ItemRequest>) returns (ok: bool, mealId: Option<nat>, work: Tables)
    ensures !ok ==> name.Some? && FindMealByName(t.meals, name.value).None? && !AllFoodsKnown(t.foods, Lines(items))
    ensures ok ==> (mealId, work) == ResolveTemplate(t, name, Lines(items))
    ensures ok && name.Some? && FindMealByName(t.meals, name.value).None? ==> AllFoodsKnown(t.foods, Lines(items))
  {
    work := t;
    mealId := None;
    ok := true;
    if name.Some? {
      var existing := FindMealByName(t.meals, name.value);
      if existing.Some? {
        mealId := Some(existing.value.id);
      } else {
        var newId := t.nextMealId;
        var added;
        ok, added := InsertItems(t.foods, newId, items, t.nextMealItemId);
        if ok {
          work := t.(meals := t.meals + [Meal(newId, name.value, None)],
                     mealItems := t.mealItems + added,
                     nextMealId := newId + 1,
                     nextMealItemId := t.nextMealItemId + |added|);
          mealId := Some(newId);
        }
      }
    }
  }

  /** The entry step of the POST transaction: look the slot up; update the
      entry found and delete its items, or insert a new entry; then the loop
      inserting the request's items. `ok` is false exactly when that loop
      hits an unknown food. */
  method EntryStep(t: Tables, key: SlotKey, mealId: Option<nat>, items: seq<ItemRequest>) returns (ok: bool, logId: nat, work: Tables)
    ensures ok <==> AllFoodsKnown(t.foods, Lines(items))
    ensures ok ==> (logId, work) == WriteEntry(t, key, mealId, Lines(items))
  {
    work := t;
    var slot := FindSlot(t.logs, key);
    if slot.Some? {
      var entry := t.logs[slot.value];
      logId := entry.id;
      work := t.(logs := t.logs[slot.value := entry.(mealId := mealId)],
                 logItems := RowsNotOf(t.logItems, logId));
    } else {
      logId := t.nextLogId;
      work := t.(logs := t.logs + [LogEntry(logId, key.userId, key.mealDate, key.mealType, mealId)],
                 nextLogId := logId + 1);
    }
    var added;
    ok, added := InsertItems(t.foods, logId, items, t.nextLogItemId);
    if ok {
      work := work.(logItems := work.logItems + added, nextLogItemId := t.nextLogItemId + |added|);
    }
  }

  /** POST /api/log: validation, then one transaction made of the template
      step and the entry step, and a single commit. A failed INSERT returns
      before the commit, so nothing of the transaction is kept. */
  method CreateOrUpdateLog(db: Database, user: UserId, req: LogRequest, today: string) returns (r: Response<LogView>)
    requires Valid(db.Snapshot())
    modifies db
    ensures (r, db.Snapshot()) == Upsert(old(db.Snapshot()), user, req, today)
    ensures Valid(db.Snapshot())
  {
    var t := db.Snapshot();
    UpsertValid(t, user, req, today);
    var mealType := MealTypeOf(req);
    var mealDate := MealDateOf(req, today);
    var name := TemplateNameOf(req);
    if mealType !in MealTypes {
      return BadRequest(InvalidMealType);
    }
    if !ValidDate(mealDate) {
      return BadRequest(InvalidDate);
    }
    var ok, mealId, work := TemplateStep(t, name, req.items);
    if !ok {
      return ServerError;
    }
    var logId;
    ok, logId, work := EntryStep(work, SlotKey(user, mealDate, mealType), mealId, req.items);
    if !ok {
      return ServerError;
    }
    db.Commit(work);
    r := Created(GetLogEntryWithItems(work, logId).value);
  }

  /** DELETE /api/log/<id>: the checks, then the single DELETE, whose
      cascade removes the entry's items. */
  method DeleteLogEntry(db: Database, user: UserId, id: nat) returns (r: Response<()>)
    requires Valid(db.Snapshot())
    modifies db
    ensures (r, db.Snapshot()) == RemoveLog(old(db.Snapshot()), user, id)
    ensures Valid(db.Snapshot())
  {
    RemoveLogValid(db.Snapshot(), user, id);
    if id > MaxInteger {
      return ServerError;
    }
    var log := FindLog(db.logs, id);
    if log.None? {
      return NotFound;
    }
    if log.value.userId != user {
      return Forbidden;
    }
    db.logs := LogsWithout(db.logs, id);
    db.logItems := RowsNotOf(db.logItems, id);
    r := Ok(());
  }
}
