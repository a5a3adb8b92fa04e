/**
  Planned meals and the date-indexed collection the store keeps: the entries a
  reload builds from joined rows, the grouping pass, and the two list updates
  (append at a date, splice out one index).
 */
module Meals {
  import opened Wrappers
  import opened Recipes

  type UserId = string

  /** A calendar-day key such as "2024-01-01"; compared as a plain string. */
  type PlanDate = string

  /** A planned meal: backed by a recipe, or a freeform custom entry. */
  datatype PlannerMeal =
    | RecipeMeal(id: int, title: string, imageUrl: Option<string>, recipe: Recipe)
    | CustomMeal(id: int, title: string)
  {
    /** The `isCustom` flag: present (true) only on custom entries. */
    predicate IsCustom() { CustomMeal? }
  }

  type PlannedMeals = map<PlanDate, seq<PlannerMeal>>

  /** One row of the joined reload query: a `meal_planner` row with its `recipes` join. */
  datatype MealPlanRow = MealPlanRow(
    id: int, userId: UserId, date: PlanDate,
    recipeId: Option<RecipeId>, customTitle: Option<string>,
    recipes: Option<RawRecipe>)

  /** JavaScript truthiness of an optional string: absent and "" are both false. */
  predicate Truthy(s: Option<string>) {
    s.Some? && s.value != ""
  }

  /** The image an entry shows: the recipe's url, unless it is absent or empty. */
  function ImageOf(url: Option<string>): (r: Option<string>)
    ensures r.Some? <==> Truthy(url)
    ensures r.Some? ==> r == url
  {
    if Truthy(url) then url else None
  }

  /** The entry both the reload and the optimistic add build for a recipe. */
  function RecipeEntry(r: Recipe): PlannerMeal {
    RecipeMeal(r.id, r.title, ImageOf(r.imageUrl), r)
  }

  /** A recipe entry is well formed when its display fields are those of its recipe. */
  predicate WellFormed(m: PlannerMeal) {
    m.RecipeMeal? ==> m == RecipeEntry(m.recipe)
  }

  predicate AllWellFormed(s: seq<PlannerMeal>) {
    forall i :: 0 <= i < |s| ==> WellFormed(s[i])
  }

  predicate AllListsWellFormed(m: PlannedMeals) {
    forall d :: d in m ==> AllWellFormed(m[d])
  }

  /** The entries one reload row contributes: a custom entry when its custom title is
      truthy (even if a recipe is joined too), else a recipe entry when a recipe is
      joined, else nothing. */
  function EntryOf(row: MealPlanRow): (r: seq<PlannerMeal>)
    ensures |r| <= 1
    ensures |r| == 1 <==> Truthy(row.customTitle) || row.recipes.Some?
    ensures AllWellFormed(r)
    ensures r != [] && r[0].IsCustom() <==> Truthy(row.customTitle)
    ensures r != [] && r[0].IsCustom() ==> r[0].id == row.id && Some(r[0].title) == row.customTitle
    ensures r != [] && !r[0].IsCustom() ==>
      r[0].recipe == Assemble(row.recipes.value) && r[0].id == row.recipes.value.id &&
      r[0].title == row.recipes.value.title
  {
    if Truthy(row.customTitle) then [CustomMeal(row.id, row.customTitle.value)]
    else if row.recipes.Some? then [RecipeEntry(Assemble(row.recipes.value))]
    else []
  }

  /** The list stored at a date, or the empty list when the date has none. */
  function Lookup(m: PlannedMeals, d: PlanDate): seq<PlannerMeal> {
    if d in m then m[d] else []
  }

  /** The optimistic add: a copy of the map in which the date's list (empty if it had none)
      gains `meal` at its end and every other date keeps its list. */
  function AppendMeal(m: PlannedMeals, d: PlanDate, meal: PlannerMeal): (r: PlannedMeals)
    ensures r.Keys == m.Keys + {d}
    ensures |r[d]| == |Lookup(m, d)| + 1 && r[d][..|r[d]| - 1] == Lookup(m, d) && r[d][|r[d]| - 1] == meal
    ensures forall k :: k in m && k != d ==> r[k] == m[k]
  {
    m[d := Lookup(m, d) + [meal]]
  }

  lemma AppendMealWellFormed(m: PlannedMeals, d: PlanDate, meal: PlannerMeal)
    requires AllListsWellFormed(m) && WellFormed(meal)
    ensures AllListsWellFormed(AppendMeal(m, d, meal))
  {
  }

  // ---------------------------------------------------------------------------
  // The grouping pass of a reload

  /** `grouped` once the `forEach` has visited `rows`: every row creates its date key,
      then appends its entry (if any) to that date. */
  ghost function Grouped(rows: seq<MealPlanRow>): PlannedMeals
    decreases |rows|
  {
    if rows == [] then map[]
    else
      var g := Grouped(rows[..|rows| - 1]);
      var row := rows[|rows| - 1];
      g[row.date := Lookup(g, row.date) + EntryOf(row)]
  }

  /** Reference definitions: the rows dated `d`, in order, and the entries of a run of rows. */
  ghost function RowsOn(rows: seq<MealPlanRow>, d: PlanDate): seq<MealPlanRow>
    decreases |rows|
  {
    if rows == [] then []
    else if rows[0].date == d then [rows[0]] + RowsOn(rows[1..], d)
    else RowsOn(rows[1..], d)
  }

  ghost function Entries(rows: seq<MealPlanRow>): seq<PlannerMeal>
    decreases |rows|
  {
    if rows == [] then [] else EntryOf(rows[0]) + Entries(rows[1..])
  }

  ghost function Dates(rows: seq<MealPlanRow>): set<PlanDate> {
    set i | 0 <= i < |rows| :: rows[i].date
  }

  lemma {:induction false} RowsOnSnoc(rows: seq<MealPlanRow>, row: MealPlanRow, d: PlanDate)
    ensures RowsOn(rows + [row], d) == RowsOn(rows, d) + (if row.date == d then [row] else [])
    decreases |rows|
  {
    if rows == [] {
      assert [row][1..] == [];
    } else {
      assert (rows + [row])[1..] == rows[1..] + [row];
      RowsOnSnoc(rows[1..], row, d);
    }
  }

  lemma {:induction false} EntriesSnoc(rows: seq<MealPlanRow>, row: MealPlanRow)
    ensures Entries(rows + [row]) == Entries(rows) + EntryOf(row)
    decreases |rows|
  {
    if rows == [] {
      assert [row][1..] == [];
    } else {
      assert (rows + [row])[1..] == rows[1..] + [row];
      EntriesSnoc(rows[1..], row);
    }
  }

  lemma DatesSnoc(rows: seq<MealPlanRow>, row: MealPlanRow)
    ensures Dates(rows + [row]) == Dates(rows) + {row.date}
  {
    var all := rows + [row];
    forall x | x in Dates(all) ensures x in Dates(rows) + {row.date} {
      var i :| 0 <= i < |all| && all[i].date == x;
      if i < |rows| { assert rows[i] == all[i]; }
    }
    forall x | x in Dates(rows) ensures x in Dates(all) {
      var i :| 0 <= i < |rows| && rows[i].date == x;
      assert all[i] == rows[i];
    }
    assert all[|rows|] == row;
  }

  /** One more row: its date key is created (if new) and its entry appended there. */
  lemma GroupedSnoc(rows: seq<MealPlanRow>, row: MealPlanRow)
    ensures Grouped(rows + [row]) == Grouped(rows)[row.date := Lookup(Grouped(rows), row.date) + EntryOf(row)]
  {
  }

  /** The keys of a reload's collection are exactly the dates of its rows: a row without
      an entry still creates its key. */
  lemma {:induction false} GroupedKeys(rows: seq<MealPlanRow>)
    ensures Grouped(rows).Keys == Dates(rows)
    decreases |rows|
  {
    if rows != [] {
      var init, row := rows[..|rows| - 1], rows[|rows| - 1];
      assert rows == init + [row];
      GroupedKeys(init);
      GroupedSnoc(init, row);
      DatesSnoc(init, row);
    }
  }

  /** The grouping pass keeps row order within each date: the list at each date is the
      entries of that date's rows, in row order. */
  lemma {:induction false} GroupedByDate(rows: seq<MealPlanRow>)
    ensures forall d :: d in Grouped(rows) ==> Grouped(rows)[d] == Entries(RowsOn(rows, d))
    decreases |rows|
  {
    if rows != [] {
      var init, row := rows[..|rows| - 1], rows[|rows| - 1];
      assert rows == init + [row];
      GroupedByDate(init);
      GroupedSnoc(init, row);
      var g := Grouped(init);
      forall d | d in Grouped(rows) ensures Grouped(rows)[d] == Entries(RowsOn(rows, d)) {
        RowsOnSnoc(init, row, d);
        if d == row.date {
          EntriesSnoc(RowsOn(init, d), row);
          if d !in g {
            GroupedKeys(init);
            RowsOnEmpty(init, d);
          }
          assert Lookup(g, d) == Entries(RowsOn(init, d));
        } else {
          assert RowsOn(rows, d) == RowsOn(init, d);
          assert Grouped(rows)[d] == g[d];
        }
      }
    }
  }

  lemma {:induction false} RowsOnEmpty(rows: seq<MealPlanRow>, d: PlanDate)
    requires d !in Dates(rows)
    ensures RowsOn(rows, d) == []
    decreases |rows|
  {
    if rows != [] {
      assert rows[0].date in Dates(rows);
      assert Dates(rows[1..]) <= Dates(rows) by {
        forall x | x in Dates(rows[1..]) ensures x in Dates(rows) {
          var i :| 0 <= i < |rows[1..]| && rows[1..][i].date == x;
          assert rows[i + 1] == rows[1..][i];
        }
      }
      RowsOnEmpty(rows[1..], d);
    }
  }

  /** Every list a reload builds holds only well-formed entries. */
  lemma {:induction false} GroupedWellFormed(rows: seq<MealPlanRow>)
    ensures AllListsWellFormed(Grouped(rows))
    decreases |rows|
  {
    if rows != [] {
      var init, row := rows[..|rows| - 1], rows[|rows| - 1];
      assert rows == init + [row];
      GroupedWellFormed(init);
      GroupedSnoc(init, row);
    }
  }

  lemma GroupStep(rows: seq<MealPlanRow>, i: nat)
    requires i < |rows|
    ensures Grouped(rows[..i + 1]) ==
      Grouped(rows[..i])[rows[i].date := Lookup(Grouped(rows[..i]), rows[i].date) + EntryOf(rows[i])]
  {
    assert rows[..i + 1] == rows[..i] + [rows[i]];
    GroupedSnoc(rows[..i], rows[i]);
  }

  /** The `forEach` loop of the reload, building `grouped` in place. */
  method GroupByDate(rows: seq<MealPlanRow>) returns (grouped: PlannedMeals)
    ensures grouped == Grouped(rows)
  {
    grouped := map[];
    var i := 0;
    while i < |rows|
      invariant 0 <= i <= |rows|
      invariant grouped == Grouped(rows[..i])
    {
      var item := rows[i];
      ghost var before := grouped;
      ghost var list := Lookup(before, item.date);
      if item.date !in grouped {
        grouped := grouped[item.date := []];
      }
      assert grouped == before[item.date := list];
      if Truthy(item.customTitle) {
        grouped := grouped[item.date := grouped[item.date] + [CustomMeal(item.id, item.customTitle.value)]];
        assert EntryOf(item) == [CustomMeal(item.id, item.customTitle.value)];
      } else if item.recipes.Some? {
        var recipe := Assemble(item.recipes.value);
        grouped := grouped[item.date := grouped[item.date] + [RecipeEntry(recipe)]];
        assert EntryOf(item) == [RecipeEntry(recipe)];
      } else {
        assert list + EntryOf(item) == list;
      }
      assert grouped == before[item.date := list + EntryOf(item)];
      GroupStep(rows, i);
      i := i + 1;
    }
    assert rows[..i] == rows;
  }

  // ---------------------------------------------------------------------------
  // Removal by index

  /** The start position `splice(index, 1)` uses on a list of length `n`: a negative index
      counts from the end (clamped at 0), a large one is clamped at `n`. */
  function SpliceStart(n: nat, index: int): (k: nat)
    ensures k <= n
    ensures 0 <= index <= n ==> k == index
    ensures index >= n ==> k == n
    ensures index < 0 ==> k == if n + index < 0 then 0 else n + index
  {
    if index < 0 then (if n + index < 0 then 0 else n + index)
    else if index > n then n
    else index
  }

  /** A copy of `s` after `splice(index, 1)`. */
  function SpliceOne<T>(s: seq<T>, index: int): (r: seq<T>)
    ensures SpliceStart(|s|, index) < |s| ==> |r| == |s| - 1
    ensures SpliceStart(|s|, index) == |s| ==> r == s
  {
    var k := SpliceStart(|s|, index);
    if k < |s| then s[..k] + s[k + 1..] else s
  }

  /** The splice removes exactly the element at its start position when that position is
      inside the list: the elements before it stay where they were, those after it move down
      by one, and the removed element plus the rest is the original multiset. When the start
      position is the end of the list (an index at or past the length, or an empty list)
      nothing is removed. */
  lemma SpliceRemovesAt<T>(s: seq<T>, index: int)
    ensures var k, r := SpliceStart(|s|, index), SpliceOne(s, index);
      (k < |s| ==>
         |r| == |s| - 1 &&
         (forall j :: 0 <= j < k ==> r[j] == s[j]) &&
         (forall j :: k <= j < |s| - 1 ==> r[j] == s[j + 1]) &&
         multiset(r) + multiset{s[k]} == multiset(s)) &&
      (k == |s| ==> r == s)
  {
    var k := SpliceStart(|s|, index);
    if k < |s| {
      var r := SpliceOne(s, index);
      assert r == s[..k] + s[k + 1..];
      assert s == s[..k] + [s[k]] + s[k + 1..];
    }
  }

  /** A negative index counts from the end: on a three-element list, index -1 removes the
      last element and index -5 (clamped to 0) removes the first. */
  lemma SpliceNegativeIndex<T>(s: seq<T>)
    requires |s| == 3
    ensures SpliceOne(s, -1) == s[..2]
    ensures SpliceOne(s, -5) == s[1..]
    ensures SpliceOne(s, 5) == s
  {
  }

  lemma SpliceWellFormed(s: seq<PlannerMeal>, index: int)
    requires AllWellFormed(s)
    ensures AllWellFormed(SpliceOne(s, index))
  {
  }

  // ---------------------------------------------------------------------------
  // A worked reload

  /** One recipe row followed by one custom row on the same date reload as a two-entry
      list in that order: first the recipe entry, then the custom entry. */
  lemma ReloadRecipeThenCustom(user: UserId, raw: RawRecipe)
    requires raw.id == 7
    ensures var rows := [MealPlanRow(1, user, "2024-01-01", Some(7), None, Some(raw)),
                         MealPlanRow(2, user, "2024-01-01", None, Some("Leftovers"), None)];
      Grouped(rows).Keys == {"2024-01-01"} &&
      |Grouped(rows)["2024-01-01"]| == 2 &&
      Grouped(rows)["2024-01-01"][0].RecipeMeal? && Grouped(rows)["2024-01-01"][0].recipe.id == 7 &&
      Grouped(rows)["2024-01-01"][1] == CustomMeal(2, "Leftovers")
  {
    var rows := [MealPlanRow(1, user, "2024-01-01", Some(7), None, Some(raw)),
                 MealPlanRow(2, user, "2024-01-01", None, Some("Leftovers"), None)];
    assert rows == [] + [rows[0]] + [rows[1]];
    GroupedSnoc([], rows[0]);
    GroupedSnoc([rows[0]], rows[1]);
  }
}
