/** The meal template routes of backend/api_server/routes/meal_routes.py:
    one template with its items and total, the browsable listing, and the
    creation of a template. */
module MealRoutes {
  import opened Schema
  import opened Text
  import opened Ordering

  /** A template as the routes return it. */
  datatype MealView = MealView(id: nat, name: string, description: Option<string>, items: seq<ItemView>, totalCalories: real)

  /** `SELECT ... FROM meals WHERE id = ?` */
  function FindMeal(meals: seq<Meal>, id: nat): (r: Option<Meal>)
    ensures r.Some? ==> r.value in meals && r.value.id == id
    ensures r.None? <==> forall m :: m in meals ==> m.id != id
  {
    if meals == [] then None
    else if meals[0].id == id then Some(meals[0])
    else FindMeal(meals[1..], id)
  }

  /** `SELECT id FROM meals WHERE name = ?` */
  function FindMealByName(meals: seq<Meal>, name: string): (r: Option<Meal>)
    ensures r.Some? ==> r.value in meals && r.value.name == name
    ensures r.None? <==> forall m :: m in meals ==> m.name != name
  {
    if meals == [] then None
    else if meals[0].name == name then Some(meals[0])
    else FindMealByName(meals[1..], name)
  }

  /** With unique ids, looking a stored template up by its id finds it. */
  lemma {:induction false} FindMealStored(meals: seq<Meal>, next: nat, m: Meal)
    requires MealsValid(meals, next) && m in meals
    ensures FindMeal(meals, m.id) == Some(m)
    decreases |meals|
  {
    if meals[0] != m {
      var k :| 0 <= k < |meals| && meals[k] == m;
      assert meals[0].id < meals[k].id;
      FindMealStored(meals[1..], next, m);
    }
  }

  /** get_meal_with_items: None for an unknown id; otherwise the template
      with its joined items and their total. */
  function GetMealWithItems(t: Tables, id: nat): (r: Option<MealView>)
    ensures r.None? <==> forall m :: m in t.meals ==> m.id != id
    ensures r.Some? ==>
      && r.value.id == id
      && FindMeal(t.meals, id).Some?
      && r.value.name == FindMeal(t.meals, id).value.name
      && r.value.description == FindMeal(t.meals, id).value.description
      && r.value.items == ItemsOf(t.foods, t.mealItems, id)
      && r.value.totalCalories == Total(r.value.items)
  {
    match FindMeal(t.meals, id)
    case None => None
    case Some(m) => Some(ViewOf(t, m))
  }

  /** A stored template with its joined items and their total. */
  function ViewOf(t: Tables, m: Meal): MealView {
    var items := ItemsOf(t.foods, t.mealItems, m.id);
    MealView(m.id, m.name, m.description, items, Total(items))
  }

  /** With unique ids, every stored template is found by its id. */
  lemma GetStoredMeal(t: Tables, m: Meal)
    requires Valid(t) && m in t.meals
    ensures GetMealWithItems(t, m.id) == Some(ViewOf(t, m))
  {
    FindMealStored(t.meals, t.nextMealId, m);
  }

  /** A template's total is the sum of calories times quantity over the
      template's stored item rows. */
  lemma MealTotalOverRows(t: Tables, id: nat)
    requires Valid(t)
    requires GetMealWithItems(t, id).Some?
    ensures forall x :: x in RowsOf(t.mealItems, id) ==> FindFood(t.foods, x.foodId).Some?
    ensures GetMealWithItems(t, id).value.totalCalories == RowCalories(t.foods, RowsOf(t.mealItems, id))
  {
    ItemsTotal(t.foods, t.mealItems, MealIds(t.meals), id);
  }

  /** GET /api/meals/<id>: an id too large to bind fails the query (500);
      otherwise 404 for an unknown id and the template's view for a known
      one. */
  function GetMeal(t: Tables, id: nat): (r: Response<MealView>)
    ensures r.Ok? || r.NotFound? || r.ServerError?
    ensures r.ServerError? <==> id > MaxInteger
    ensures r.NotFound? <==> id <= MaxInteger && forall m :: m in t.meals ==> m.id != id
    ensures r.Ok? ==> Some(r.value) == GetMealWithItems(t, id)
  {
    if id > MaxInteger then ServerError
    else match GetMealWithItems(t, id)
    case None => NotFound
    case Some(v) => Ok(v)
  }

  /** `description IS NOT NULL AND description != ''` */
  predicate Browsable(m: Meal) {
    m.description.Some? && m.description.value != []
  }

  function Browsables(meals: seq<Meal>): (r: seq<Meal>)
    ensures forall m :: m in r <==> m in meals && Browsable(m)
  {
    if meals == [] then []
    else (if Browsable(meals[0]) then [meals[0]] else []) + Browsables(meals[1..])
  }

  function MealName(m: Meal): string {
    m.name
  }

  function ViewName(v: MealView): string {
    v.name
  }

  /** Filtering keeps names distinct. */
  lemma {:induction false} BrowsablesDistinct(meals: seq<Meal>)
    requires forall i, j :: 0 <= i < j < |meals| ==> MealName(meals[i]) != MealName(meals[j])
    ensures forall i, j :: 0 <= i < j < |Browsables(meals)| ==>
      MealName(Browsables(meals)[i]) != MealName(Browsables(meals)[j])
    decreases |meals|
  {
    if meals != [] {
      DistinctTail(meals, MealName);
      BrowsablesDistinct(meals[1..]);
      var rest := Browsables(meals[1..]);
      if Browsable(meals[0]) {
        var b := Browsables(meals);
        assert b == [meals[0]] + rest;
        forall j | 0 < j < |b| ensures MealName(b[0]) != MealName(b[j]) {
          assert b[j] in meals[1..];
          var k :| 0 <= k < |meals[1..]| && meals[1..][k] == b[j];
          assert meals[k + 1] == b[j];
        }
      } else {
        assert Browsables(meals) == rest;
      }
    }
  }

  /** The rows of the listing query, ordered by name. */
  function ListedMeals(t: Tables): (r: seq<Meal>)
    ensures forall m :: m in r <==> m in t.meals && Browsable(m)
    ensures multiset(r) == multiset(Browsables(t.meals))
    ensures SortedBy(r, MealName)
  {
    var b := Browsables(t.meals);
    SortByIsSorted(b, MealName);
    forall m ensures m in SortBy(b, MealName) <==> m in b {
      SortByMembers(b, MealName, m);
    }
    SortBy(b, MealName)
  }

  /** Template names are unique, so the listing names each template once
      and is in strictly ascending name order. */
  lemma ListedMealsDistinct(t: Tables)
    requires Valid(t)
    ensures forall i, j :: 0 <= i < j < |ListedMeals(t)| ==> ListedMeals(t)[i].name != ListedMeals(t)[j].name
  {
    forall i, j | 0 <= i < j < |t.meals| ensures MealName(t.meals[i]) != MealName(t.meals[j]) {
    }
    BrowsablesDistinct(t.meals);
    PermutedDistinct(Browsables(t.meals), ListedMeals(t), MealName);
  }

  /** The listing built from the listing query's rows: each view is the
      stored template it came from, so the listing keeps the query's
      filter, its order and its completeness. */
  lemma ListingViews(t: Tables, listed: seq<Meal>, r: seq<MealView>)
    requires Valid(t) && listed == ListedMeals(t)
    requires |r| == |listed| && forall k :: 0 <= k < |r| ==> r[k] == ViewOf(t, listed[k])
    ensures forall i :: 0 <= i < |r| ==> GetMealWithItems(t, r[i].id) == Some(r[i])
    ensures forall i :: 0 <= i < |r| ==> r[i].description.Some? && r[i].description.value != []
    ensures forall m :: m in t.meals && Browsable(m) ==> exists i :: 0 <= i < |r| && r[i].id == m.id
    ensures SortedBy(r, ViewName)
    ensures forall i, j :: 0 <= i < j < |r| ==> r[i].name != r[j].name
  {
    ListingViewsStored(t, listed, r);
    ListingViewsComplete(t, listed, r);
    ListingViewsSorted(t, listed, r);
    ListingViewsDistinct(t, listed, r);
  }

  lemma ListingViewsStored(t: Tables, listed: seq<Meal>, r: seq<MealView>)
    requires Valid(t) && listed == ListedMeals(t)
    requires |r| == |listed| && forall k :: 0 <= k < |r| ==> r[k] == ViewOf(t, listed[k])
    ensures forall i :: 0 <= i < |r| ==> GetMealWithItems(t, r[i].id) == Some(r[i])
    ensures forall i :: 0 <= i < |r| ==> r[i].description.Some? && r[i].description.value != []
  {
    forall i | 0 <= i < |r| ensures GetMealWithItems(t, r[i].id) == Some(r[i]) && Browsable(listed[i]) {
      assert listed[i] in listed;
      GetStoredMeal(t, listed[i]);
    }
  }

  lemma ListingViewsComplete(t: Tables, listed: seq<Meal>, r: seq<MealView>)
    requires listed == ListedMeals(t)
    requires |r| == |listed| && forall k :: 0 <= k < |r| ==> r[k] == ViewOf(t, listed[k])
    ensures forall m :: m in t.meals && Browsable(m) ==> exists i :: 0 <= i < |r| && r[i].id == m.id
  {
    forall m | m in t.meals && Browsable(m) ensures exists i :: 0 <= i < |r| && r[i].id == m.id {
      var k :| 0 <= k < |listed| && listed[k] == m;
      assert r[k].id == m.id;
    }
  }

  lemma ListingViewsDistinct(t: Tables, listed: seq<Meal>, r: seq<MealView>)
    requires Valid(t) && listed == ListedMeals(t)
    requires |r| == |listed| && forall k :: 0 <= k < |r| ==> r[k] == ViewOf(t, listed[k])
    ensures forall i, j :: 0 <= i < j < |r| ==> r[i].name != r[j].name
  {
    ListedMealsDistinct(t);
    forall i, j | 0 <= i < j < |r| ensures r[i].name != r[j].name {
      assert r[i].name == listed[i].name && r[j].name == listed[j].name;
    }
  }

  lemma ListingViewsSorted(t: Tables, listed: seq<Meal>, r: seq<MealView>)
    requires SortedBy(listed, MealName)
    requires |r| == |listed| && forall k :: 0 <= k < |r| ==> r[k] == ViewOf(t, listed[k])
    ensures SortedBy(r, ViewName)
  {
    forall i, j | 0 <= i < j < |r| ensures StrLe(ViewName(r[i]), ViewName(r[j])) {
      assert MealName(listed[i]) == ViewName(r[i]) && MealName(listed[j]) == ViewName(r[j]);
    }
  }

  /** GET /api/meals: the loop over the listing query, appending each
      template with its items. Only templates with a non-empty description
      appear, so those the log POST creates never do; all of them appear,
      ordered by name. */
  method GetMeals(db: Database) returns (r: seq<MealView>)
    requires Valid(db.Snapshot())
    ensures forall i :: 0 <= i < |r| ==> GetMealWithItems(db.Snapshot(), r[i].id) == Some(r[i])
    ensures forall i :: 0 <= i < |r| ==> r[i].description.Some? && r[i].description.value != []
    ensures forall m :: m in db.meals && Browsable(m) ==> exists i :: 0 <= i < |r| && r[i].id == m.id
    ensures SortedBy(r, ViewName)
    ensures |r| == |ListedMeals(db.Snapshot())|
    ensures forall i, j :: 0 <= i < j < |r| ==> r[i].name != r[j].name
  {
    var t := db.Snapshot();
    var listed := ListedMeals(t);
    r := LoadViews(t, listed);
    ListedFound(t, listed);
    KeptAll(listed, LookupView(t));
    ListingViews(t, listed, r);
  }

  /** Every row of the listing query is found again by its id. */
  lemma ListedFound(t: Tables, listed: seq<Meal>)
    requires Valid(t) && listed == ListedMeals(t)
    ensures forall k :: 0 <= k < |listed| ==> GetMealWithItems(t, listed[k].id) == Some(ViewOf(t, listed[k]))
  {
    forall k | 0 <= k < |listed| ensures GetMealWithItems(t, listed[k].id) == Some(ViewOf(t, listed[k])) {
      assert listed[k] in listed;
      GetStoredMeal(t, listed[k]);
    }
  }

  /** What a loop that looks up each element with `f` and keeps the hits
      collects, in order. */
  function Kept<A, B>(xs: seq<A>, f: A -> Option<B>): seq<B> {
    if xs == [] then []
    else
      Kept(xs[..|xs| - 1], f)
        + (match f(xs[|xs| - 1]) case Some(v) => [v] case None => [])
  }

  /** When every lookup hits, the loop keeps exactly one value per element. */
  lemma {:induction false} KeptAll<A, B>(xs: seq<A>, f: A -> Option<B>)
    requires forall k :: 0 <= k < |xs| ==> f(xs[k]).Some?
    ensures |Kept(xs, f)| == |xs|
    ensures forall k :: 0 <= k < |xs| ==> Kept(xs, f)[k] == f(xs[k]).value
    decreases |xs|
  {
    if xs != [] {
      var n := |xs| - 1;
      var prev := xs[..n];
      assert forall k :: 0 <= k < |prev| ==> prev[k] == xs[k];
      KeptAll(prev, f);
      assert Kept(xs, f) == Kept(prev, f) + [f(xs[n]).value];
    }
  }

  /** `get_meal_with_items` of a listed row's id. */
  function LookupView(t: Tables): Meal -> Option<MealView> {
    (m: Meal) => GetMealWithItems(t, m.id)
  }

  /** The loop of GET /api/meals: `get_meal_with_items` for each row of the
      listing query, keeping the views it finds. */
  method LoadViews(t: Tables, listed: seq<Meal>) returns (r: seq<MealView>)
    ensures r == Kept(listed, LookupView(t))
  {
    r := [];
    var i := 0;
    while i < |listed|
      invariant 0 <= i <= |listed|
      invariant r == Kept(listed[..i], LookupView(t))
    {
      assert listed[..i + 1][..i] == listed[..i];
      var data := GetMealWithItems(t, listed[i].id);
      assert data == LookupView(t)(listed[..i + 1][i]);
      if data.Some? {
        r := r + [data.value];
      }
      i := i + 1;
    }
    assert listed[..|listed|] == listed;
  }

  /** `data.get("description", "").strip() or None` */
  function DescriptionOf(raw: string): (d: Option<string>)
    ensures d.None? <==> Strip(raw) == []
    ensures d.Some? ==> d.value == Strip(raw)
  {
    if Strip(raw) == [] then None else Some(Strip(raw))
  }

  /** The INSERT INTO meals and the loop inserting its `meal_items`. */
  function WithTemplate(t: Tables, name: string, description: Option<string>, lines: seq<Line>): Tables {
    t.(meals := t.meals + [Meal(t.nextMealId, name, description)],
       mealItems := t.mealItems + NewRows(t.nextMealId, lines, t.nextMealItemId),
       nextMealId := t.nextMealId + 1,
       nextMealItemId := t.nextMealItemId + |lines|)
  }

  /** No stored item row belongs to the id the next template receives. */
  lemma NextMealHasNoItems(t: Tables)
    requires Valid(t)
    ensures forall x :: x in t.mealItems ==> x.owner != t.nextMealId
  {
    forall x | x in t.mealItems ensures x.owner != t.nextMealId {
      var k :| 0 <= k < |t.mealItems| && t.mealItems[k] == x;
      var m :| m in t.meals && m.id == x.owner;
      var j :| 0 <= j < |t.meals| && t.meals[j] == m;
    }
  }

  /** Adding a template under a free name with known foods keeps the
      invariant. */
  lemma WithTemplateValid(t: Tables, name: string, description: Option<string>, lines: seq<Line>)
    requires Valid(t)
    requires forall m :: m in t.meals ==> m.name != name
    requires AllFoodsKnown(t.foods, lines)
    ensures Valid(WithTemplate(t, name, description, lines))
  {
    var t' := WithTemplate(t, name, description, lines);
    var m := Meal(t.nextMealId, name, description);
    assert MealsValid(t'.meals, t'.nextMealId) by {
      forall i, j | 0 <= i < j < |t'.meals| ensures t'.meals[i].id < t'.meals[j].id && t'.meals[i].name != t'.meals[j].name {
        if j == |t.meals| {
          assert t'.meals[i] in t.meals;
        }
      }
    }
    assert MealIds(t'.meals) == MealIds(t.meals) + {t.nextMealId} by {
      assert forall x :: x in t'.meals <==> x in t.meals || x == m;
    }
    forall k | |t.mealItems| <= k < |t'.mealItems| ensures t'.mealItems[k].foodId in FoodIds(t.foods) {
      var j := k - |t.mealItems|;
      assert lines[j] in lines;
      FoodIdsFind(t.foods, lines[j].foodId);
    }
  }

  /** Only the new template gains item rows, and they are exactly `lines`. */
  lemma WithTemplateRows(t: Tables, name: string, description: Option<string>, lines: seq<Line>)
    requires Valid(t)
    ensures LinesOf(RowsOf(WithTemplate(t, name, description, lines).mealItems, t.nextMealId)) == lines
    ensures forall id :: id != t.nextMealId ==>
      RowsOf(WithTemplate(t, name, description, lines).mealItems, id) == RowsOf(t.mealItems, id)
  {
    var added := NewRows(t.nextMealId, lines, t.nextMealItemId);
    NextMealHasNoItems(t);
    RowsOfAppend(t.mealItems, added, t.nextMealId);
    RowsOfNone(t.mealItems, t.nextMealId);
    RowsOfNewRows(t.nextMealId, lines, t.nextMealItemId, t.nextMealId);
    LinesOfNewRows(t.nextMealId, lines, t.nextMealItemId);
    forall id | id != t.nextMealId ensures RowsOf(t.mealItems + added, id) == RowsOf(t.mealItems, id) {
      RowsOfAppend(t.mealItems, added, id);
      RowsOfNewRows(t.nextMealId, lines, t.nextMealItemId, id);
    }
  }

  /** POST /api/meals as a transition of the store. A blank name, then a
      name already taken, is refused with the store unchanged; an item naming
      an unknown food fails the transaction (500) and nothing is kept;
      otherwise one template is added, holding exactly the request's items
      with a truthy food id, in order. */
  function AddTemplate(t: Tables, name: string, description: string, items: seq<ItemRequest>): (out: (Response<MealView>, Tables))
    ensures Strip(name) == [] ==> out == (BadRequest(NameRequired), t)
    ensures Strip(name) != [] && (exists m :: m in t.meals && m.name == Strip(name)) ==>
      out == (BadRequest(DuplicateName), t)
    ensures out.0.ServerError? <==>
      Strip(name) != [] && (forall m :: m in t.meals ==> m.name != Strip(name)) && !AllFoodsKnown(t.foods, Lines(items))
    ensures !out.0.Created? ==> out.1 == t
    ensures out.0.Created? <==>
      Strip(name) != [] && (forall m :: m in t.meals ==> m.name != Strip(name)) && AllFoodsKnown(t.foods, Lines(items))
    ensures out.0.Created? ==>
      && out.1 == WithTemplate(t, Strip(name), DescriptionOf(description), Lines(items))
      && Some(out.0.value) == GetMealWithItems(out.1, t.nextMealId)
  {
    var n := Strip(name);
    if n == [] then (BadRequest(NameRequired), t)
    else if FindMealByName(t.meals, n).Some? then (BadRequest(DuplicateName), t)
    else if !AllFoodsKnown(t.foods, Lines(items)) then (ServerError, t)
    else
      var t' := WithTemplate(t, n, DescriptionOf(description), Lines(items));
      assert FindMeal(t'.meals, t.nextMealId).Some? by {
        assert t'.meals[|t.meals|] in t'.meals;
      }
      (Created(GetMealWithItems(t', t.nextMealId).value), t')
  }

  /** A created template holds the request's items and keeps the invariant;
      it is listed exactly when its description is not blank. */
  lemma AddTemplateCreated(t: Tables, name: string, description: string, items: seq<ItemRequest>)
    requires Valid(t)
    requires AddTemplate(t, name, description, items).0.Created?
    ensures var t' := AddTemplate(t, name, description, items).1;
      && Valid(t')
      && |t'.meals| == |t.meals| + 1
      && LinesOf(RowsOf(t'.mealItems, t.nextMealId)) == Lines(items)
      && (Meal(t.nextMealId, Strip(name), DescriptionOf(description)) in ListedMeals(t') <==> Strip(description) != [])
  {
    WithTemplateValid(t, Strip(name), DescriptionOf(description), Lines(items));
    WithTemplateRows(t, Strip(name), DescriptionOf(description), Lines(items));
    var t' := AddTemplate(t, name, description, items).1;
    assert t'.meals[|t.meals|] == Meal(t.nextMealId, Strip(name), DescriptionOf(description));
  }

  /** POST /api/meals: validation, then one transaction: the template
      INSERT, the loop inserting its items, and the commit. A failed INSERT
      returns before the commit, so nothing of it is kept. */
  method CreateMeal(db: Database, name: string, description: string, items: seq<ItemRequest>) returns (r: Response<MealView>)
    requires Valid(db.Snapshot())
    modifies db
    ensures (r, db.Snapshot()) == AddTemplate(old(db.Snapshot()), name, description, items)
    ensures Valid(db.Snapshot())
  {
    var t := db.Snapshot();
    var n := Strip(name);
    var desc := DescriptionOf(description);
    if n == [] {
      return BadRequest(NameRequired);
    }
    var existing := FindMealByName(t.meals, n);
    if existing.Some? {
      return BadRequest(DuplicateName);
    }
    // The transaction: the template INSERT, then its items.
    var mealId := t.nextMealId;
    var ok, added := InsertItems(t.foods, mealId, items, t.nextMealItemId);
    if !ok {
      // A foreign key failed: the transaction is not committed.
      return ServerError;
    }
    var t' := t.(meals := t.meals + [Meal(mealId, n, desc)], mealItems := t.mealItems + added,
                 nextMealId := mealId + 1, nextMealItemId := t.nextMealItemId + |added|);
    assert t' == WithTemplate(t, n, desc, Lines(items));
    WithTemplateValid(t, n, desc, Lines(items));
    db.Commit(t');
    r := Created(GetMealWithItems(t', mealId).value);
  }
}
