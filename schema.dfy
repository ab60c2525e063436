/** The relational store shared by the routes: the tables `foods`, `meals`
    (templates), `meal_items`, `user_meal_log` and `user_meal_log_items`,
    each a sequence of rows in rowid order, the joins the routes read
    through, and the invariant every route keeps. */
module Schema {

  datatype Option<T> = None | Some(value: T)

  /** The user id the identity provider hands over; trusted as is. */
  type UserId = int

  datatype Food = Food(id: nat, name: string, calories: int)

  /** A meal template; `description == None` marks one created implicitly
      by the log POST. */
  datatype Meal = Meal(id: nat, name: string, description: Option<string>)

  /** A row of `meal_items` (owner = meal_id) or of `user_meal_log_items`
      (owner = log_id). */
  datatype ItemRow = ItemRow(id: nat, owner: nat, foodId: int, quantity: real)

  /** A row of `user_meal_log`. */
  datatype LogEntry = LogEntry(id: nat, userId: UserId, mealDate: string, mealType: string, mealId: Option<nat>)

  /** The key the log engine keeps unique. */
  datatype SlotKey = SlotKey(userId: UserId, mealDate: string, mealType: string)

  function KeyOf(e: LogEntry): SlotKey {
    SlotKey(e.userId, e.mealDate, e.mealType)
  }

  /** A snapshot of the whole store; the `next...` counters are the ids the
      next inserted row of each table receives. */
  datatype Tables = Tables(
    foods: seq<Food>,
    meals: seq<Meal>,
    mealItems: seq<ItemRow>,
    logs: seq<LogEntry>,
    logItems: seq<ItemRow>,
    nextFoodId: nat,
    nextMealId: nat,
    nextMealItemId: nat,
    nextLogId: nat,
    nextLogItemId: nat)

  function Empty(): Tables {
    Tables([], [], [], [], [], 1, 1, 1, 1, 1)
  }

  // ---------------------------------------------------------------------
  // Requests and responses

  /** The reason a route answers 400. */
  datatype Reason =
    | InvalidMealType
    | InvalidDate
    | NameRequired
    | DuplicateName
    | InvalidCalories

  /** A route's answer: 200, 201, 400, 404, 403, or 500 when a statement of
      the transaction fails and nothing is committed. */
  datatype Response<T> =
    | Ok(value: T)
    | Created(value: T)
    | BadRequest(reason: Reason)
    | NotFound
    | Forbidden
    | ServerError

  /** The largest value of an SQLite INTEGER. Python's sqlite3 cannot bind a
      larger int (it raises OverflowError), so a statement given one fails
      and its route answers 500. */
  const MaxInteger: int := 0x7FFF_FFFF_FFFF_FFFF

  /** One element of a request's `items` list: `food_id` (None when absent
      or null) and `quantity` (None when the key is absent). */
  datatype ItemRequest = ItemRequest(foodId: Option<int>, quantity: Option<real>)

  /** An item the routes insert: its food and its quantity. */
  datatype Line = Line(foodId: int, quantity: real)

  /** Python truthiness of `item.get("food_id")`. */
  predicate Truthy(foodId: Option<int>) {
    foodId.Some? && foodId.value != 0
  }

  /** `item.get("quantity", 1.0)`. */
  function QuantityOf(item: ItemRequest): real {
    if item.quantity.Some? then item.quantity.value else 1.0
  }

  function LineOf(item: ItemRequest): Line
    requires Truthy(item.foodId)
  {
    Line(item.foodId.value, QuantityOf(item))
  }

  /** The items both insert loops write: those with a truthy `food_id`, in
      request order, with the default quantity filled in. */
  function Lines(items: seq<ItemRequest>): seq<Line> {
    if items == [] then []
    else (if Truthy(items[0].foodId) then [LineOf(items[0])] else []) + Lines(items[1..])
  }

  /** Lines keeps the request's order: it distributes over concatenation. */
  lemma {:induction false} LinesAppend(a: seq<ItemRequest>, b: seq<ItemRequest>)
    ensures Lines(a + b) == Lines(a) + Lines(b)
    decreases |a|
  {
    if a == [] {
      assert a + b == b;
    } else {
      var ab := a + b;
      assert ab[0] == a[0] && ab[1..] == a[1..] + b;
      LinesAppend(a[1..], b);
      var head := if Truthy(a[0].foodId) then [LineOf(a[0])] else [];
      assert Lines(ab) == head + Lines(a[1..] + b);
      assert Lines(a) == head + Lines(a[1..]);
    }
  }

  /** Every written line comes from a request item with a truthy food id, and
      every such item is written. */
  lemma {:induction false} LinesMembers(items: seq<ItemRequest>)
    ensures forall l :: l in Lines(items) ==> exists k :: 0 <= k < |items| && Truthy(items[k].foodId) && l == LineOf(items[k])
    ensures forall k :: 0 <= k < |items| && Truthy(items[k].foodId) ==> LineOf(items[k]) in Lines(items)
    decreases |items|
  {
    if items != [] {
      LinesMembers(items[1..]);
      forall l | l in Lines(items)
        ensures exists k :: 0 <= k < |items| && Truthy(items[k].foodId) && l == LineOf(items[k])
      {
        if Truthy(items[0].foodId) && l == LineOf(items[0]) {
        } else {
          var k :| 0 <= k < |items[1..]| && Truthy(items[1..][k].foodId) && l == LineOf(items[1..][k]);
          assert items[k + 1] == items[1..][k];
        }
      }
      forall k | 0 <= k < |items| && Truthy(items[k].foodId) ensures LineOf(items[k]) in Lines(items) {
        if k > 0 { assert items[k] == items[1..][k - 1]; }
      }
    }
  }

  /** The rows an insert loop writes for `lines`, numbered from `start`. */
  function NewRows(owner: nat, lines: seq<Line>, start: nat): (r: seq<ItemRow>)
    ensures |r| == |lines|
    ensures forall k :: 0 <= k < |r| ==> r[k] == ItemRow(start + k, owner, lines[k].foodId, lines[k].quantity)
  {
    seq(|lines|, k requires 0 <= k < |lines| => ItemRow(start + k, owner, lines[k].foodId, lines[k].quantity))
  }

  lemma NewRowsSnoc(owner: nat, lines: seq<Line>, l: Line, start: nat)
    ensures NewRows(owner, lines + [l], start) == NewRows(owner, lines, start) + [ItemRow(start + |lines|, owner, l.foodId, l.quantity)]
  {
  }

  /** What a row says about its item, without its row id and owner. */
  function LinesOf(rows: seq<ItemRow>): (r: seq<Line>)
    ensures |r| == |rows|
    ensures forall k :: 0 <= k < |rows| ==> r[k] == Line(rows[k].foodId, rows[k].quantity)
  {
    seq(|rows|, k requires 0 <= k < |rows| => Line(rows[k].foodId, rows[k].quantity))
  }

  lemma LinesOfNewRows(owner: nat, lines: seq<Line>, start: nat)
    ensures LinesOf(NewRows(owner, lines, start)) == lines
  {
  }

  // ---------------------------------------------------------------------
  // Queries shared by the routes

  /** `SELECT ... FROM foods WHERE id = ?` */
  function FindFood(foods: seq<Food>, id: int): (r: Option<Food>)
    ensures r.Some? ==> r.value in foods && r.value.id == id
    ensures r.None? <==> forall f :: f in foods ==> f.id != id
  {
    if foods == [] then None
    else if foods[0].id == id then Some(foods[0])
    else FindFood(foods[1..], id)
  }

  /** The foreign-key check on `food_id`: every line names a stored food. */
  predicate AllFoodsKnown(foods: seq<Food>, lines: seq<Line>) {
    forall l :: l in lines ==> FindFood(foods, l.foodId).Some?
  }

  /** `WHERE owner = ?` on an item table, rows in rowid order. */
  function RowsOf(rows: seq<ItemRow>, owner: nat): (r: seq<ItemRow>)
    ensures forall x :: x in r <==> x in rows && x.owner == owner
    ensures |r| <= |rows|
  {
    if rows == [] then []
    else (if rows[0].owner == owner then [rows[0]] else []) + RowsOf(rows[1..], owner)
  }

  /** `DELETE FROM <items> WHERE owner = ?`: the rows that remain. */
  function RowsNotOf(rows: seq<ItemRow>, owner: nat): (r: seq<ItemRow>)
    ensures forall x :: x in r <==> x in rows && x.owner != owner
    ensures |r| <= |rows|
  {
    if rows == [] then []
    else (if rows[0].owner != owner then [rows[0]] else []) + RowsNotOf(rows[1..], owner)
  }

  lemma {:induction false} RowsOfAppend(a: seq<ItemRow>, b: seq<ItemRow>, owner: nat)
    ensures RowsOf(a + b, owner) == RowsOf(a, owner) + RowsOf(b, owner)
    decreases |a|
  {
    if a == [] {
      assert a + b == b;
    } else {
      assert (a + b)[1..] == a[1..] + b;
      RowsOfAppend(a[1..], b, owner);
    }
  }

  /** Deleting another owner's rows leaves this owner's rows as they were. */
  lemma {:induction false} RowsOfRowsNotOf(rows: seq<ItemRow>, gone: nat, owner: nat)
    requires owner != gone
    ensures RowsOf(RowsNotOf(rows, gone), owner) == RowsOf(rows, owner)
    decreases |rows|
  {
    if rows != [] {
      RowsOfRowsNotOf(rows[1..], gone, owner);
      var head := if rows[0].owner != gone then [rows[0]] else [];
      RowsOfAppend(head, RowsNotOf(rows[1..], gone), owner);
    }
  }

  /** A table with no row of `owner` yields no rows for it. */
  lemma {:induction false} RowsOfNone(rows: seq<ItemRow>, owner: nat)
    requires forall x :: x in rows ==> x.owner != owner
    ensures RowsOf(rows, owner) == []
    decreases |rows|
  {
    if rows != [] { RowsOfNone(rows[1..], owner); }
  }

  lemma {:induction false} RowsOfNewRows(owner: nat, lines: seq<Line>, start: nat, other: nat)
    ensures RowsOf(NewRows(owner, lines, start), owner) == NewRows(owner, lines, start)
    ensures other != owner ==> RowsOf(NewRows(owner, lines, start), other) == []
    decreases |lines|
  {
    var rows := NewRows(owner, lines, start);
    if lines != [] {
      var rest := NewRows(owner, lines[1..], start + 1);
      assert rows == [rows[0]] + rest;
      RowsOfNewRows(owner, lines[1..], start + 1, other);
      RowsOfAppend([rows[0]], rest, owner);
      RowsOfAppend([rows[0]], rest, other);
    }
  }

  /** One line naming an unknown food makes the whole request fail the
      foreign-key check. */
  lemma UnknownFoodFails(foods: seq<Food>, items: seq<ItemRequest>, i: nat)
    requires i < |items| && Truthy(items[i].foodId)
    requires FindFood(foods, items[i].foodId.value).None?
    ensures !AllFoodsKnown(foods, Lines(items))
  {
    assert items == items[..i] + ([items[i]] + items[i + 1..]);
    LinesAppend(items[..i], [items[i]] + items[i + 1..]);
    LinesAppend([items[i]], items[i + 1..]);
    assert Lines([items[i]]) == [LineOf(items[i])];
    assert LineOf(items[i]) in Lines(items);
  }

  /** The insert loop both the template POST and the log POST run inside
      their transaction: for each request item with a truthy `food_id`, an
      item row for `owner`, numbered from `start`. The first item naming an
      unknown food stops the loop (the foreign key on `food_id` fails); `ok`
      is false exactly then. */
  method InsertItems(foods: seq<Food>, owner: nat, items: seq<ItemRequest>, start: nat) returns (ok: bool, added: seq<ItemRow>)
    ensures ok <==> AllFoodsKnown(foods, Lines(items))
    ensures ok ==> added == NewRows(owner, Lines(items), start)
  {
    added := [];
    var next := start;
    var i := 0;
    while i < |items|
      invariant 0 <= i <= |items|
      invariant added == NewRows(owner, Lines(items[..i]), start)
      invariant next == start + |Lines(items[..i])|
      invariant AllFoodsKnown(foods, Lines(items[..i]))
    {
      var item := items[i];
      LinesAppend(items[..i], [item]);
      assert items[..i + 1] == items[..i] + [item];
      if Truthy(item.foodId) {
        if FindFood(foods, item.foodId.value).None? {
          UnknownFoodFails(foods, items, i);
          return false, added;
        }
        NewRowsSnoc(owner, Lines(items[..i]), LineOf(item), start);
        added := added + [ItemRow(next, owner, item.foodId.value, QuantityOf(item))];
        next := next + 1;
      }
      i := i + 1;
    }
    assert items[..|items|] == items;
    ok := true;
  }

  /** A row of the join `items JOIN foods ON foods.id = items.food_id`. */
  datatype ItemView = ItemView(id: nat, foodId: int, foodName: string, calories: int, quantity: real)

  /** The inner join of item rows with the food catalog, in row order. */
  function Join(foods: seq<Food>, rows: seq<ItemRow>): (r: seq<ItemView>)
    ensures |r| <= |rows|
    ensures (forall x :: x in rows ==> FindFood(foods, x.foodId).Some?) ==> |r| == |rows|
  {
    if rows == [] then []
    else
      var head := match FindFood(foods, rows[0].foodId)
        case None => []
        case Some(f) => [ItemView(rows[0].id, rows[0].foodId, f.name, f.calories, rows[0].quantity)];
      head + Join(foods, rows[1..])
  }

  /** The joined items of one template or one log entry. */
  function ItemsOf(foods: seq<Food>, rows: seq<ItemRow>, owner: nat): seq<ItemView> {
    Join(foods, RowsOf(rows, owner))
  }

  /** `sum(i["calories"] * i["quantity"] for i in items)`. */
  function Total(items: seq<ItemView>): real {
    if items == [] then 0.0 else items[0].calories as real * items[0].quantity + Total(items[1..])
  }

  /** Items joined with foods keep their food and quantity: with every food
      present, the join is the rows with names and calories attached. */
  lemma {:induction false} JoinKeepsLines(foods: seq<Food>, rows: seq<ItemRow>)
    requires forall x :: x in rows ==> FindFood(foods, x.foodId).Some?
    ensures |Join(foods, rows)| == |rows|
    ensures forall k :: 0 <= k < |rows| ==>
      var v := Join(foods, rows)[k];
      var f := FindFood(foods, rows[k].foodId).value;
      v == ItemView(rows[k].id, rows[k].foodId, f.name, f.calories, rows[k].quantity)
    decreases |rows|
  {
    if rows != [] {
      JoinKeepsLines(foods, rows[1..]);
      forall k | 1 <= k < |rows| ensures Join(foods, rows)[k] == Join(foods, rows[1..])[k - 1] {
      }
    }
  }

  /** The sum of calories times quantity of rows that all name known foods. */
  function RowCalories(foods: seq<Food>, rows: seq<ItemRow>): real
    requires forall x :: x in rows ==> FindFood(foods, x.foodId).Some?
  {
    if rows == [] then 0.0
    else FindFood(foods, rows[0].foodId).value.calories as real * rows[0].quantity + RowCalories(foods, rows[1..])
  }

  /** The total of a join is the sum over the stored rows. */
  lemma {:induction false} TotalOfJoin(foods: seq<Food>, rows: seq<ItemRow>)
    requires forall x :: x in rows ==> FindFood(foods, x.foodId).Some?
    ensures Total(Join(foods, rows)) == RowCalories(foods, rows)
    decreases |rows|
  {
    if rows != [] {
      TotalOfJoin(foods, rows[1..]);
      var f := FindFood(foods, rows[0].foodId).value;
      var rest := Join(foods, rows[1..]);
      var head := [ItemView(rows[0].id, rows[0].foodId, f.name, f.calories, rows[0].quantity)];
      assert Join(foods, rows) == head + rest;
      assert (head + rest)[0] == head[0] && (head + rest)[1..] == rest;
    }
  }

  /** With the foreign keys in place, the total of an owner's joined items
      is the sum of calories times quantity over its stored rows. */
  lemma ItemsTotal(foods: seq<Food>, rows: seq<ItemRow>, owners: set<nat>, owner: nat)
    requires ItemsValid(rows, owners, FoodIds(foods))
    ensures forall x :: x in RowsOf(rows, owner) ==> FindFood(foods, x.foodId).Some?
    ensures Total(ItemsOf(foods, rows, owner)) == RowCalories(foods, RowsOf(rows, owner))
  {
    forall x | x in RowsOf(rows, owner) ensures FindFood(foods, x.foodId).Some? {
      var k :| 0 <= k < |rows| && rows[k] == x;
      FoodIdsFind(foods, x.foodId);
    }
    TotalOfJoin(foods, RowsOf(rows, owner));
  }

  // ---------------------------------------------------------------------
  // The invariant

  function FoodIds(foods: seq<Food>): set<int> {
    set f | f in foods :: f.id as int
  }

  function MealIds(meals: seq<Meal>): set<nat> {
    set m | m in meals :: m.id
  }

  function LogIds(logs: seq<LogEntry>): set<nat> {
    set e | e in logs :: e.id
  }

  /** Food ids increase with rowid and stay below the next id; names are
      unique (create_food checks); calories are non-negative integers. */
  ghost predicate FoodsValid(foods: seq<Food>, next: nat) {
    && (forall i, j :: 0 <= i < j < |foods| ==> foods[i].id < foods[j].id && foods[i].name != foods[j].name)
    && (forall i :: 0 <= i < |foods| ==> foods[i].id < next && foods[i].calories >= 0)
  }

  /** Template ids increase with rowid; template names are unique. */
  ghost predicate MealsValid(meals: seq<Meal>, next: nat) {
    && (forall i, j :: 0 <= i < j < |meals| ==> meals[i].id < meals[j].id && meals[i].name != meals[j].name)
    && (forall i :: 0 <= i < |meals| ==> meals[i].id < next)
  }

  /** Log ids increase with rowid, and at most one entry exists per
      (user, date, meal type). */
  ghost predicate LogsValid(logs: seq<LogEntry>, next: nat) {
    && (forall i, j :: 0 <= i < j < |logs| ==> logs[i].id < logs[j].id && KeyOf(logs[i]) != KeyOf(logs[j]))
    && (forall i :: 0 <= i < |logs| ==> logs[i].id < next)
  }

  /** Template names are unique: two stored templates with the same name are
      the same template. */
  lemma MealNameUnique(meals: seq<Meal>, next: nat, a: Meal, b: Meal)
    requires MealsValid(meals, next) && a in meals && b in meals && a.name == b.name
    ensures a == b
  {
    var i :| 0 <= i < |meals| && meals[i] == a;
    var j :| 0 <= j < |meals| && meals[j] == b;
    assert !(i < j) && !(j < i);
  }

  /** The entries after the first are valid, and the first comes before all
      of them with a key none of them has. */
  lemma LogsValidTail(logs: seq<LogEntry>, next: nat)
    requires LogsValid(logs, next) && logs != []
    ensures LogsValid(logs[1..], next)
    ensures forall e :: e in logs[1..] ==> logs[0].id < e.id && KeyOf(logs[0]) != KeyOf(e)
  {
    var tail := logs[1..];
    forall i, j | 0 <= i < j < |tail| ensures tail[i].id < tail[j].id && KeyOf(tail[i]) != KeyOf(tail[j]) {
      assert tail[i] == logs[i + 1] && tail[j] == logs[j + 1];
    }
    forall e | e in tail ensures logs[0].id < e.id && KeyOf(logs[0]) != KeyOf(e) {
      var k :| 0 <= k < |tail| && tail[k] == e;
      assert e == logs[k + 1];
    }
  }

  /** An entry placed before valid entries with larger ids and other keys
      keeps them valid. */
  lemma LogsValidCons(e: LogEntry, rest: seq<LogEntry>, next: nat)
    requires LogsValid(rest, next) && e.id < next
    requires forall x :: x in rest ==> e.id < x.id && KeyOf(e) != KeyOf(x)
    ensures LogsValid([e] + rest, next)
  {
    var r := [e] + rest;
    forall i, j | 0 <= i < j < |r| ensures r[i].id < r[j].id && KeyOf(r[i]) != KeyOf(r[j]) {
      assert r[j] == rest[j - 1];
      if i > 0 { assert r[i] == rest[i - 1]; } else { assert rest[j - 1] in rest; }
    }
  }

  /** Foreign keys of an item table: every row belongs to a stored owner and
      names a stored food. */
  ghost predicate ItemsValid(rows: seq<ItemRow>, owners: set<nat>, foods: set<int>) {
    forall k :: 0 <= k < |rows| ==> rows[k].owner in owners && rows[k].foodId in foods
  }

  ghost predicate Valid(t: Tables) {
    && FoodsValid(t.foods, t.nextFoodId)
    && MealsValid(t.meals, t.nextMealId)
    && LogsValid(t.logs, t.nextLogId)
    && ItemsValid(t.mealItems, MealIds(t.meals), FoodIds(t.foods))
    && ItemsValid(t.logItems, LogIds(t.logs), FoodIds(t.foods))
  }

  lemma EmptyValid()
    ensures Valid(Empty())
  {
  }

  /** A food id is stored exactly when the lookup finds it. */
  lemma FoodIdsFind(foods: seq<Food>, id: int)
    ensures id in FoodIds(foods) <==> FindFood(foods, id).Some?
  {
    if FindFood(foods, id).Some? {
      assert FindFood(foods, id).value in foods;
    }
  }

  /** The database itself: one field per table, updated by the routes. */
  class Database {
    var foods: seq<Food>
    var meals: seq<Meal>
    var mealItems: seq<ItemRow>
    var logs: seq<LogEntry>
    var logItems: seq<ItemRow>
    var nextFoodId: nat
    var nextMealId: nat
    var nextMealItemId: nat
    var nextLogId: nat
    var nextLogItemId: nat

    /** A fresh, empty database. */
    constructor ()
      ensures Snapshot() == Empty()
    {
      foods, meals, mealItems, logs, logItems := [], [], [], [], [];
      nextFoodId, nextMealId, nextMealItemId, nextLogId, nextLogItemId := 1, 1, 1, 1, 1;
    }

    function Snapshot(): Tables
      reads this
    {
      Tables(foods, meals, mealItems, logs, logItems, nextFoodId, nextMealId, nextMealItemId, nextLogId, nextLogItemId)
    }

    /** Makes `t` the committed state. */
    method Commit(t: Tables)
      modifies this
      ensures Snapshot() == t
    {
      foods, meals, mealItems, logs, logItems := t.foods, t.meals, t.mealItems, t.logs, t.logItems;
      nextFoodId, nextMealId, nextMealItemId := t.nextFoodId, t.nextMealId, t.nextMealItemId;
      nextLogId, nextLogItemId := t.nextLogId, t.nextLogItemId;
    }
  }
}
