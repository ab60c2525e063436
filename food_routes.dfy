/** The food catalog routes of backend/api_server/routes/food_routes.py:
    the listing, the name search and the creation of a food. */
module FoodRoutes {
  import opened Schema
  import opened Text
  import opened Ordering
  import opened Numeric

  function FoodName(f: Food): string {
    f.name
  }

  /** GET /api/foods: every food, ordered by name. */
  function GetFoods(t: Tables): (r: seq<Food>)
    ensures multiset(r) == multiset(t.foods)
    ensures SortedBy(r, FoodName)
  {
    SortByIsSorted(t.foods, FoodName);
    SortBy(t.foods, FoodName)
  }

  /** Food names are unique, so `ORDER BY name` leaves no choice: every
      arrangement of the stored foods sorted by name is the listing. */
  lemma GetFoodsDetermined(t: Tables, r: seq<Food>)
    requires Valid(t)
    requires multiset(r) == multiset(t.foods) && SortedBy(r, FoodName)
    ensures r == GetFoods(t)
  {
    var s := GetFoods(t);
    PermutedDistinct(t.foods, s, FoodName);
    SortedUnique(s, r, FoodName);
  }

  /** The most rows the search returns (`LIMIT 20`). */
  const SearchLimit: nat := 20

  /** `WHERE name LIKE '%q%'`, rows in rowid order. */
  function Matching(foods: seq<Food>, q: string): (r: seq<Food>)
    ensures forall f :: f in r <==> f in foods && LikeSubstring(f.name, q)
    ensures multiset(r) <= multiset(foods)
  {
    if foods == [] then []
    else
      assert foods == [foods[0]] + foods[1..];
      (if LikeSubstring(foods[0].name, q) then [foods[0]] else []) + Matching(foods[1..], q)
  }

  /** GET /api/foods/search?q=...: nothing for a blank query; otherwise the
      first 20 foods by name among those whose name contains the stripped
      query (ignoring the case of ASCII letters). */
  function SearchFoods(t: Tables, q: string): (r: seq<Food>)
    ensures Strip(q) == [] ==> r == []
    ensures |r| <= SearchLimit
    ensures forall f :: f in r ==> f in t.foods && LikeSubstring(f.name, Strip(q))
    ensures multiset(r) <= multiset(t.foods)
    ensures SortedBy(r, FoodName)
  {
    var needle := Strip(q);
    if needle == [] then []
    else
      var sorted := SortBy(Matching(t.foods, needle), FoodName);
      SortByIsSorted(Matching(t.foods, needle), FoodName);
      forall f | f in sorted ensures f in t.foods && LikeSubstring(f.name, needle) {
        SortByMembers(Matching(t.foods, needle), FoodName, f);
      }
      Take(sorted, SearchLimit)
  }

  /** No matching food is left out of the search unless 20 are returned,
      and then every food returned sorts no later than the one left out. */
  lemma SearchFoodsComplete(t: Tables, q: string, f: Food)
    requires Strip(q) != []
    requires f in t.foods && LikeSubstring(f.name, Strip(q))
    ensures f !in SearchFoods(t, q) ==>
      |SearchFoods(t, q)| == SearchLimit && forall g :: g in SearchFoods(t, q) ==> StrLe(g.name, f.name)
  {
    var needle := Strip(q);
    var matching := Matching(t.foods, needle);
    var sorted := SortBy(matching, FoodName);
    SortByIsSorted(matching, FoodName);
    SortByMembers(matching, FoodName, f);
    var k :| 0 <= k < |sorted| && sorted[k] == f;
    if f !in SearchFoods(t, q) {
      assert SearchLimit <= k;
      forall g | g in SearchFoods(t, q) ensures StrLe(g.name, f.name) {
        var i :| 0 <= i < SearchLimit && sorted[i] == g;
      }
    }
  }

  /** The JSON value of the request's `calories` key. */
  datatype CaloriesField =
    | Absent
    | Null
    | Bool(b: bool)
    | Int(i: int)
    | Float(x: real)
    | NonNumber

  /** `isinstance(calories, (int, float))`; a JSON boolean is a Python bool,
      which is an int. */
  predicate IsNumber(c: CaloriesField) {
    c.Bool? || c.Int? || c.Float?
  }

  function NumberValue(c: CaloriesField): real
    requires IsNumber(c)
  {
    match c
    case Bool(b) => if b then 1.0 else 0.0
    case Int(i) => i as real
    case Float(x) => x
  }

  /** `int(calories)`. */
  function IntValue(c: CaloriesField): (n: int)
    requires IsNumber(c)
    ensures n == Trunc(NumberValue(c))
  {
    match c
    case Bool(b) => if b then 1 else 0
    case Int(i) => i
    case Float(x) => Trunc(x)
  }

  /** `SELECT id FROM foods WHERE name = ?` */
  function FindFoodByName(foods: seq<Food>, name: string): (r: Option<Food>)
    ensures r.Some? ==> r.value in foods && r.value.name == name
    ensures r.None? <==> forall f :: f in foods ==> f.name != name
  {
    if foods == [] then None
    else if foods[0].name == name then Some(foods[0])
    else FindFoodByName(foods[1..], name)
  }

  /** POST /api/foods as a transition of the store. The name is stripped; a
      blank name, a missing, non-numeric or negative calorie count, or a name
      already taken is refused with the store unchanged, checked in that
      order. A truncated count too large for an SQLite INTEGER makes the
      INSERT fail (500, nothing stored); otherwise one food is added with
      its calories truncated. */
  function AddFood(t: Tables, name: string, calories: CaloriesField): (out: (Response<Food>, Tables))
    ensures Strip(name) == [] ==> out == (BadRequest(NameRequired), t)
    ensures Strip(name) != [] && (!IsNumber(calories) || NumberValue(calories) < 0.0) ==>
      out == (BadRequest(InvalidCalories), t)
    ensures (Strip(name) != [] && IsNumber(calories) && NumberValue(calories) >= 0.0
             && exists f :: f in t.foods && f.name == Strip(name)) ==>
      out == (BadRequest(DuplicateName), t)
    ensures (Strip(name) != [] && IsNumber(calories) && NumberValue(calories) >= 0.0
             && (forall f :: f in t.foods ==> f.name != Strip(name))
             && IntValue(calories) > MaxInteger) ==>
      out == (ServerError, t)
    ensures out.0.Created? <==>
      Strip(name) != [] && IsNumber(calories) && NumberValue(calories) >= 0.0
      && (forall f :: f in t.foods ==> f.name != Strip(name))
      && IntValue(calories) <= MaxInteger
    ensures !out.0.Created? ==> out.1 == t
    ensures out.0.Created? ==>
      && out.0.value == Food(t.nextFoodId, Strip(name), IntValue(calories))
      && out.1 == t.(foods := t.foods + [out.0.value], nextFoodId := t.nextFoodId + 1)
  {
    var n := Strip(name);
    if n == [] then (BadRequest(NameRequired), t)
    else if !IsNumber(calories) || NumberValue(calories) < 0.0 then (BadRequest(InvalidCalories), t)
    else if FindFoodByName(t.foods, n).Some? then (BadRequest(DuplicateName), t)
    else if IntValue(calories) > MaxInteger then (ServerError, t)
    else
      var f := Food(t.nextFoodId, n, IntValue(calories));
      (Created(f), t.(foods := t.foods + [f], nextFoodId := t.nextFoodId + 1))
  }

  /** The stored calories are the truncation of a non-negative number: a
      non-negative integer no larger than the number given. */
  lemma AddFoodStoresTruncated(t: Tables, name: string, calories: CaloriesField)
    requires AddFood(t, name, calories).0.Created?
    ensures var c := AddFood(t, name, calories).0.value.calories;
      0 <= c && c as real <= NumberValue(calories) < c as real + 1.0
  {
    TruncTowardZero(NumberValue(calories));
  }

  /** Creating a food keeps the store's invariant; in particular food names
      stay unique. */
  lemma AddFoodValid(t: Tables, name: string, calories: CaloriesField)
    requires Valid(t)
    ensures Valid(AddFood(t, name, calories).1)
  {
    var out := AddFood(t, name, calories);
    if out.0.Created? {
      TruncTowardZero(NumberValue(calories));
      var t' := out.1;
      assert FoodIds(t'.foods) == FoodIds(t.foods) + {t.nextFoodId};
    }
  }

  /** POST /api/foods: validation, then one INSERT committed on its own. */
  method CreateFood(db: Database, name: string, calories: CaloriesField) returns (r: Response<Food>)
    requires Valid(db.Snapshot())
    modifies db
    ensures (r, db.Snapshot()) == AddFood(old(db.Snapshot()), name, calories)
    ensures Valid(db.Snapshot())
  {
    AddFoodValid(db.Snapshot(), name, calories);
    var n := Strip(name);
    if n == [] {
      return BadRequest(NameRequired);
    }
    if !IsNumber(calories) || NumberValue(calories) < 0.0 {
      return BadRequest(InvalidCalories);
    }
    var existing := FindFoodByName(db.foods, n);
    if existing.Some? {
      return BadRequest(DuplicateName);
    }
    if IntValue(calories) > MaxInteger {
      return ServerError;
    }
    var f := Food(db.nextFoodId, n, IntValue(calories));
    db.foods := db.foods + [f];
    db.nextFoodId := db.nextFoodId + 1;
    r := Created(f);
  }
}
