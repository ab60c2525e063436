# Meal tracker: the daily log, template, food and history logic in Dafny

This project models the server-side logic of a personal meal tracker. The
store has five tables:

- `foods`: the food catalog, with name and calories per unit;
- `meals`: reusable meal templates, with name and optional description;
- `meal_items`: the food lines of a template;
- `user_meal_log`: one entry per user, date and meal slot;
- `user_meal_log_items`: the food lines of a log entry.

On top of the store sit four components:

- **the daily log engine** (`log_routes.py`): the upsert of a meal slot,
  the day view with its six fixed slots, the single-entry read, the
  deletion, and the list of dates that have data;
- **the template store** (`meal_routes.py`): the read of one template with
  its items and calorie total, the listing of templates that have a
  description, and template creation;
- **the food catalog** (`food_routes.py`): the listing, the name search, and
  food creation with validation;
- **the history report** (`db/meal-history.py`): per-item calories
  truncated to integers, meal and daily totals, the `--days` window, CSV
  rows, and the text listing.

### How the model is built

The tables are sequences of rows in rowid order. They live in the class
`Schema.Database`, and `Snapshot()` packs them into the value `Tables`.

Every state-changing handler has two parts:

- a method on the database (`CreateFood`, `CreateMeal`,
  `CreateOrUpdateLog`, `DeleteLogEntry`);
- a pure transition function on `Tables` (`AddFood`, `AddTemplate`,
  `Upsert`, `RemoveLog`).

Each method is proved to perform its transition function, and the
properties are proved about the functions.

The item-insert loops work on local copies that the method commits once,
as the handlers' single `commit` does. If an item names a food that does
not exist, the foreign-key check fails. The handler then returns a server
error and the store is left unchanged.

The loops are written as loops, each proved against its specification
function:

- `Schema.InsertItems`: the item inserts;
- `MealRoutes.GetMeals`: the template listing;
- `LogRoutes.GetDailyLog`: the six-slot day view;
- `MealHistory.WriteCsv`, `MealHistory.PrintMeal` and
  `MealHistory.PrintText`: the history report.

Everything the store is expected to keep is stated in `Schema.Valid`, and
every transition is proved to preserve it:

- ids rise with rowid and stay below the next id;
- food and template names are unique;
- at most one log entry exists per (user, date, meal type);
- every item row belongs to a stored owner and names a stored food.

Foreign keys are enforced because `backend/api_server/database.py:13`
turns them on. The table declarations live in `db/schema.sql`
(`backend/api_server/database.py:6`), which the model does not read, so it
takes three facts as given:

- the item tables reference `foods`;
- log items reference their entry;
- deleting an entry cascades to its items.

Ids are counters starting at 1, like AUTOINCREMENT.

### Where the model follows the code

- **Calorie totals are not rounded in the API.** The API computes every
  calorie total (`total_calories` of a template, an entry or a day) as an
  exact sum of calories times quantity. Only the history report truncates
  toward zero, and it does so per item.
- **Quantities are not checked.** Item quantities are stored as sent:
  neither handler checks that they are positive.

### Helper modules

- `Text`: Python's `str.strip` over its exact whitespace set, and the
  `LIKE '%q%'` test;
- `Ordering`: SQLite's BINARY string order, `ORDER BY` as an insertion
  sort, `DISTINCT` on sorted rows, and `LIMIT`;
- `Numeric`: `int()` on a float, which truncates toward zero;
- `Calendar`: `YYYY-MM-DD` dates that exist in the Gregorian calendar, and
  the weekday by Sakamoto's method, checked against a count of days from
  0001-01-01.

## Model

| member | source | states |
|---|---|---|
| Text.StripIsTrimmedSlice | backend/api_server/routes/food_routes.py:21 | `.strip()` cuts only whitespace off both ends: the result is a slice of the input with whitespace before and after it, and it neither starts nor ends with whitespace |
| Text.StripEmptyIffAllSpace | backend/api_server/routes/food_routes.py:21-24 | a stripped string is empty exactly when the input is all whitespace, which is when the search returns nothing and names count as missing |
| Text.ContainsIffOccurs | backend/api_server/routes/food_routes.py:26-28 | the substring test behind `LIKE '%q%'` holds exactly when the needle occurs at some position of the name |
| Ordering.SortByIsSorted | backend/api_server/routes/food_routes.py:13 | `ORDER BY name` yields rows in ascending name order (a permutation, by the `SortBy` contract) |
| Ordering.DedupAscending | backend/api_server/routes/log_routes.py:134-137 | `SELECT DISTINCT ... ORDER BY` over sorted dates gives strictly ascending dates |
| Numeric.TruncTowardZero | db/meal-history.py:135 | `int(x)` never moves away from zero and loses less than one |
| FoodRoutes.GetFoods | backend/api_server/routes/food_routes.py:9-14 | the listing is every food, sorted by name |
| FoodRoutes.GetFoodsDetermined | backend/api_server/routes/food_routes.py:13 | food names are unique, so `ORDER BY name` fixes the listing: every name-sorted arrangement of the stored foods is that listing |
| FoodRoutes.SearchFoods | backend/api_server/routes/food_routes.py:17-31 | a blank query gives `[]`; otherwise at most 20 stored foods whose names contain the stripped query, each at most as often as it is stored, sorted by name |
| FoodRoutes.SearchFoodsComplete | backend/api_server/routes/food_routes.py:26-29 | a matching food is left out only when 20 are returned, and then every returned food sorts no later than it |
| FoodRoutes.FindFoodByName | backend/api_server/routes/food_routes.py:52-56 | the lookup finds a food of that exact name, or None exactly when no food has it |
| FoodRoutes.AddFood | backend/api_server/routes/food_routes.py:34-66 | checks in order: blank name gives 400; missing, non-numeric or negative calories give 400; a taken name gives 400. A truncated count above the largest SQLite INTEGER gives 500. Every error leaves the store unchanged. Otherwise exactly one food is appended with the next id, the stripped name and `int(calories)` |
| FoodRoutes.AddFoodStoresTruncated | backend/api_server/routes/food_routes.py:61-66 | the stored calories are a non-negative integer no larger than the number given and less than one below it |
| FoodRoutes.AddFoodValid | backend/api_server/routes/food_routes.py:52-64 | creating a food keeps the store invariant, so food names stay unique |
| FoodRoutes.CreateFood | backend/api_server/routes/food_routes.py:34-66 | the handler performs `AddFood` on the database and keeps the invariant |
| MealRoutes.FindMealByName | backend/api_server/routes/meal_routes.py:87-91 | finds a template of that exact name, or None exactly when there is none |
| MealRoutes.GetMealWithItems | backend/api_server/routes/meal_routes.py:9-39 | None exactly for an unknown id; otherwise the stored name and description, the template's item rows joined with their foods, and a total equal to the sum of calories times quantity |
| MealRoutes.GetStoredMeal | backend/api_server/routes/meal_routes.py:9-39 | in a valid store, every stored template reads back as its own view |
| MealRoutes.MealTotalOverRows | backend/api_server/routes/meal_routes.py:30-31 | a template's `total_calories` is the sum over its item rows of food calories times quantity |
| MealRoutes.GetMeal | backend/api_server/routes/meal_routes.py:59-68 | 500 exactly for an id above the largest SQLite INTEGER; 404 exactly for any other unknown id; otherwise 200 with the template's view |
| MealRoutes.ListedMeals | backend/api_server/routes/meal_routes.py:46-48 | the listing query returns exactly the templates with a non-null, non-empty description, each as often as it is stored, sorted by name |
| MealRoutes.ListedMealsDistinct | backend/api_server/routes/meal_routes.py:46-48 | in a valid store the listing names each template once, so its name order is strict |
| MealRoutes.LoadViews | backend/api_server/routes/meal_routes.py:50-54 | the loop keeps, in listing order, the view `get_meal_with_items` finds for each row and skips rows it does not find |
| MealRoutes.KeptAll | backend/api_server/routes/meal_routes.py:50-54 | when every lookup finds its row, the loop keeps exactly one value per row, the looked-up one at the same position |
| MealRoutes.GetMeals | backend/api_server/routes/meal_routes.py:42-56 | the loop returns each listed template's full view, one per row of the listing query: every view has a non-empty description, every such template appears, names are distinct, and the result is sorted by name |
| MealRoutes.DescriptionOf | backend/api_server/routes/meal_routes.py:81 | a blank description is stored as None, and any other as its stripped text |
| MealRoutes.WithTemplateValid | backend/api_server/routes/meal_routes.py:96-114 | inserting a template with a free name and known foods keeps the store invariant |
| MealRoutes.WithTemplateRows | backend/api_server/routes/meal_routes.py:104-112 | the new template's item rows are exactly the requested lines in order; no other template's rows change |
| MealRoutes.AddTemplate | backend/api_server/routes/meal_routes.py:71-118 | checks in order: blank name gives 400, then a taken name gives 400; an unknown food is a server error. Every error leaves the store unchanged. Created happens exactly when all checks pass, and the response is the new template's view |
| MealRoutes.AddTemplateCreated | backend/api_server/routes/meal_routes.py:96-118 | a created template keeps the store valid and adds one template whose items are the lines with truthy `food_id`, quantity defaulting to 1.0. It is listed exactly when its description is not blank |
| MealRoutes.CreateMeal | backend/api_server/routes/meal_routes.py:71-118 | the handler, with its insert loop and single commit, performs `AddTemplate` and keeps the invariant |
| Schema.LinesMembers | backend/api_server/routes/meal_routes.py:104-112 | the lines kept from the request are exactly the items with a truthy `food_id` (quantity defaulting to 1.0): each kept line comes from such an item and each such item is kept |
| Schema.InsertItems | backend/api_server/routes/log_routes.py:242-249 | the insert loop succeeds exactly when every kept line names a stored food, and then adds one row per kept line with consecutive ids |
| Schema.RowsOfRowsNotOf | backend/api_server/routes/log_routes.py:234 | deleting one owner's rows leaves every other owner's rows as they were |
| Schema.TotalOfJoin | backend/api_server/routes/log_routes.py:35-46 | the total over joined items is the sum of food calories times quantity over the rows |
| LogRoutes.GetLogEntryWithItems | backend/api_server/routes/log_routes.py:19-56 | None exactly for an unknown id; otherwise the entry's fields, its template name through the left join, its joined items, and their total |
| LogRoutes.GetStoredLog | backend/api_server/routes/log_routes.py:19-56 | in a valid store, every stored entry reads back as its own view |
| LogRoutes.LogTotalOverRows | backend/api_server/routes/log_routes.py:46 | an entry's `total_calories` is the sum over its item rows of food calories times quantity |
| LogRoutes.GetLogEntry | backend/api_server/routes/log_routes.py:147-164 | 500 exactly for an id above the largest SQLite INTEGER; otherwise 404 exactly when no entry has the id, 403 exactly when the entry's owner is another user, and 200 with the entry's view |
| LogRoutes.GetLogEntryOwnership | backend/api_server/routes/log_routes.py:157-161 | in a valid store, 403 or 200 exactly when the id can be bound and an entry with that id exists and belongs to another user or to the caller |
| LogRoutes.LastEntryUnique | backend/api_server/routes/log_routes.py:82 | with one entry per slot, the `{meal_type: log}` dictionary finds exactly that entry |
| LogRoutes.GetDailyLog | backend/api_server/routes/log_routes.py:59-123 | the date is the given one or today. An invalid date gives 400 and nothing else does. Otherwise the day view has the six slots in the fixed order, each showing that slot's entry or the placeholder, and a total equal to the sum of the slot calories |
| LogRoutes.DaySlots | backend/api_server/routes/log_routes.py:84-117 | the loop over the six meal types yields one slot per type in the fixed order: the placeholder or the user's entry with its items and total. The running total is the sum of the slot totals |
| LogRoutes.SlotShowsEntry | backend/api_server/routes/log_routes.py:87-117 | a slot shows the placeholder exactly when the user has no entry for it; otherwise it shows that entry's id, template name, items and calories |
| LogRoutes.DayTotalIsSlotSum | backend/api_server/routes/log_routes.py:84-103 | the day's `total_calories` is the sum of the six slots' calories |
| LogRoutes.AvailableDates | backend/api_server/routes/log_routes.py:126-144 | the dates listed are exactly those on which the user has an entry, each once, in ascending order |
| LogWrites.MealDateOf | backend/api_server/routes/log_routes.py:177 | an absent, null or empty `meal_date` means today; any other is used as given |
| LogWrites.TemplateNameOf | backend/api_server/routes/log_routes.py:178-179 | a template is used exactly when `meal_name` is present and not blank, under its stripped name |
| LogWrites.ResolveTemplateCases | backend/api_server/routes/log_routes.py:193-219 | with no name, no template and no change; an existing name reuses that template and changes nothing; a new name adds one template with no description, holding exactly the request's lines |
| LogWrites.ResolveTemplateUnlisted | backend/api_server/routes/log_routes.py:206-209 | templates created by the upsert never appear in the template listing |
| LogWrites.WriteEntryKey | backend/api_server/routes/log_routes.py:221-240 | after the write exactly one entry has the (user, date, meal type) key: the one written |
| LogWrites.WriteEntryInPlace | backend/api_server/routes/log_routes.py:226-240 | an existing entry keeps its id and position and gets the new `meal_id`; otherwise one entry is appended with the next id |
| LogWrites.WriteEntryItems | backend/api_server/routes/log_routes.py:234-249 | the written entry's items are exactly the requested lines; other entries' items are unchanged |
| LogWrites.Upsert | backend/api_server/routes/log_routes.py:167-255 | checks in order: a meal type outside the six gives 400, then an invalid date gives 400; an unknown food is a server error. Every error leaves the store unchanged. Created happens exactly when all checks pass, and the response is the written entry's view |
| LogWrites.UpsertValid | backend/api_server/routes/log_routes.py:167-255 | the upsert keeps the store invariant, including one entry per (user, date, meal type) |
| LogWrites.UpsertStoresSlot | backend/api_server/routes/log_routes.py:221-255 | after a created upsert the slot holds exactly the returned entry, and the day view finds it. Its items are the kept lines in order, and the response's items carry their food ids and quantities |
| LogWrites.UpsertInPlaceOrInsert | backend/api_server/routes/log_routes.py:221-240 | an existing slot entry is updated in place with the same id; otherwise exactly one entry is inserted with the next id |
| LogWrites.UpsertFrame | backend/api_server/routes/log_routes.py:221-249 | the upsert leaves foods, every entry of another slot, and the items of every other entry untouched |
| LogWrites.UpsertTemplate | backend/api_server/routes/log_routes.py:193-219 | the template handling as the upsert applies it: no name leaves `meal_id` None; an existing template is reused unmodified; a new one is created with the kept lines; the template listing never changes |
| LogWrites.UpsertIdempotent | backend/api_server/routes/log_routes.py:221-249 | repeating the same request is Created again with the same id and `meal_id`, leaves entries and templates as they were, and leaves the same item list |
| LogWrites.RemoveLog | backend/api_server/routes/log_routes.py:258-278 | 500 exactly for an id above the largest SQLite INTEGER; 404 exactly for another unknown id; 403 exactly for another user's entry. Each leaves the store unchanged. Otherwise the entry and its items are removed, whatever the date |
| LogWrites.RemoveLogChecksLikeGet | backend/api_server/routes/log_routes.py:262-272 | deletion answers 500, 404, 403 or success exactly when the read by id answers 500, 404, 403 or 200 |
| LogWrites.RemoveLogValid | backend/api_server/routes/log_routes.py:276 | deletion keeps the store invariant |
| LogWrites.RemoveLogEffect | backend/api_server/routes/log_routes.py:276 | after deletion no entry or item with that id remains and everything else stays. The slot shows the placeholder, and the date stays listed exactly when the user has another entry on it |
| LogWrites.EntryStep | backend/api_server/routes/log_routes.py:221-249 | the entry write with its item loop succeeds exactly when every line names a stored food, and then performs `WriteEntry` |
| LogWrites.CreateOrUpdateLog | backend/api_server/routes/log_routes.py:167-255 | the handler performs `Upsert` on the database and keeps the invariant, so at most one entry per slot |
| LogWrites.DeleteLogEntry | backend/api_server/routes/log_routes.py:258-278 | the handler performs `RemoveLog` on the database and keeps the invariant |
| MealHistory.MealCaloriesNear | db/meal-history.py:177 | with non-negative products, a meal's total of truncated items is at most the raw sum and loses less than one calorie per item |
| MealHistory.MealCaloriesBelowTrunc | db/meal-history.py:177 | with non-negative products, a meal's total never exceeds the truncated raw sum |
| MealHistory.TruncatedPerItem | db/meal-history.py:177 | truncating each item differs from truncating the sum: two half portions of a one-calorie food count 0, not 1 |
| MealHistory.Window | db/meal-history.py:119-123 | `--days` at or below 0 keeps every entry; a positive value keeps exactly the entries whose date string is at or after the cutoff |
| MealHistory.SinceAppend | db/meal-history.py:123 | the window preserves the order of what it keeps |
| MealHistory.LogRows | db/meal-history.py:131-154 | an entry yields one row per item, with the item's calories, quantity and truncated total, or exactly one row with an empty food name and zeros |
| MealHistory.AllRowsCount | db/meal-history.py:131-154 | the CSV has one row per item plus one per entry without items |
| MealHistory.LogRowsSumToMeal | db/meal-history.py:135-177 | an entry's CSV totals add up to the meal total the text listing prints |
| MealHistory.WriteLogRows | db/meal-history.py:132-154 | the row loop of one entry writes exactly that entry's CSV rows |
| MealHistory.WriteCsv | db/meal-history.py:125-154 | the CSV loop writes the header, then every entry's rows in order |
| MealHistory.MealLabel | db/meal-history.py:181 | a known meal type shows its label; any other shows the raw type |
| MealHistory.NameSuffixShown | db/meal-history.py:182 | the ` - name` suffix appears exactly when the entry has a non-empty template name |
| MealHistory.QtyLabelOf | db/meal-history.py:188 | the quantity column is empty exactly when the quantity is 1; otherwise it is `x` followed by the quantity |
| MealHistory.ItemLinesPerItem | db/meal-history.py:186-190 | one item line per item, in order, each with the item's truncated calories |
| MealHistory.MealHeaderIsItemSum | db/meal-history.py:177-190 | the total in a meal's header is the sum of the calories on its item lines |
| MealHistory.PrintMeal | db/meal-history.py:180-192 | the meal header with its total, then the item loop or `(no items)` |
| MealHistory.FormatDate | db/meal-history.py:66-73 | an invalid date is returned unchanged; a valid one becomes weekday, month name, two-digit day and year |
| Calendar.WeekdayIsDayCount | db/meal-history.py:69 | the weekday `%A` names is the day's number counted from 0001-01-01, a Monday, modulo 7; the day number is built from the month lengths and the Gregorian leap rule |
| MealHistory.FormatDateUnchanged | db/meal-history.py:66-73 | the date is shown unchanged exactly when it is not a valid `YYYY-MM-DD` date |
| MealHistory.RunStart | db/meal-history.py:163-171 | the current date's run starts where every later entry has the last date and the entry before has another |
| MealHistory.RunningTotalIsDaySum | db/meal-history.py:160-178 | the running `daily_total` is the sum of the meal totals of the current date's run |
| MealHistory.DailyTotalOfDay | db/meal-history.py:165-173 | at each change of date, the loop first prints the finished day's total, equal to the sum of that day's meal totals, then an empty line, then the new date's header |
| MealHistory.FinalTotalOfDay | db/meal-history.py:194-196 | after the loop, the last date's total is printed, and it equals the sum of that date's meal totals |
| MealHistory.PrintEntry | db/meal-history.py:163-192 | one turn of the text loop prints the entry's lines. A new date restarts the daily total and shows the date; the meal's total is then added |
| MealHistory.PrintText | db/meal-history.py:156-198 | the text loop prints title, days, daily totals and closing rule as specified by `TextReport` |
| MealHistory.PrintHistory | db/meal-history.py:111-154 | no entries at all gives "no history", checked before the window; otherwise the window is applied and the CSV or the text report is produced |

## Left out

- HTTP and JSON plumbing is not modelled. This includes the "Request body
  required" check and fields of the wrong JSON type (a non-string name, a
  non-dict item, a null quantity). Each handler takes its already-extracted
  fields.
- Authentication and `login_required` are not modelled; the caller's user
  id is a trusted input.
- The clock and time zone are parameters: "today" for the log routes and
  the `--days` cutoff for the history. `updated_at` is not modelled because
  nothing reads it.
- `strptime` is modelled strictly. `ValidDate` accepts only the
  zero-padded `YYYY-MM-DD` form of a real calendar date with ASCII digits.
  Python also accepts one-digit months and days (`2024-1-5`), a
  space-padded day (`2024-01- 5`) and non-ASCII decimal digits, which `\d`
  matches.
- Floating point is not modelled: quantities and calorie totals are exact
  `real`s, so IEEE rounding is absent.
- FoodRoutes.AddFood: JSON `Infinity`, `-Infinity` and `NaN` cannot be
  given as calories, because a number is a `real`. In the source `NaN` and
  `Infinity` pass the `< 0` test and `int()` then raises, giving 500.
- The id counters are not bounded: SQLite fails an INSERT once a rowid
  would pass the largest INTEGER, and the model keeps counting.
- The item dictionaries' `id`, `food_id`, `food_name` and `calories` are
  modelled, but not the key order of `jsonify`. Flask sorts JSON keys, so
  the `meals` object of `GET /api/log` is sent with its meal types in
  alphabetical order; `LogRoutes.DayView` keeps them in `MEAL_TYPES`
  order, as the handler builds the dictionary.
- Concurrency is not modelled: every handler runs alone, so the upsert's
  find-then-insert cannot race.
- Row order that SQL leaves unspecified is taken to be rowid order. This
  covers the item queries without `ORDER BY`, the first row found by name,
  and the rows behind the `{meal_type: log}` dictionary.
- SQLite's reuse of the largest rowid after a deletion is not modelled;
  ids come from counters that never go back.
- FoodRoutes.SearchFoods: `LIKE` is modelled as a substring test that
  ignores the case of ASCII letters only. `%` and `_` inside the query are
  treated as ordinary characters, not wildcards.
- LogWrites.LogsWithout: the contract says which entries remain after a
  deletion, not that they keep their order.
- The table declarations live in `db/schema.sql`, which the model does not
  read. It assumes that item rows reference foods and their owner, and that
  deleting an entry cascades to its items.
- MealHistory.FormatDate: the year is shown as its four digits. Python
  with glibc would print a year below 1000 without leading zeros. The
  exact `%A`/`%B` spelling is assumed to come from the C locale.
- MealHistory.QtyLabelOf: the quantity is kept as a number. The source
  prints Python's float text (`x0.5`, `x2.0`), which is not modelled.
- The column widths and padding of the text listing, CSV quoting and the
  textual form of numbers are not modelled; each printed line is a
  structured `TextLine`.
- The history script's database file, argument parsing and user lookup are
  not modelled. The query results are inputs: entries newest date first,
  each with its items ordered by food name.
- `MEAL_TYPE_ORDER` in `db/meal-history.py` is unused by the script, and
  the history query orders meal types alphabetically. Neither is modelled
  beyond taking the query's order as given.
