/**
  What the store's writes do to the `meal_planner` table, and how the optimistic
  local state relates to what a later reload reads back. An insert appends a
  row with the id it is assigned; a delete removes every row whose columns equal all the
  columns named in its match object.
 */
module Remote {
  import opened Wrappers
  import opened Recipes
  import opened Meals
  import opened Requests

  /** A persisted `meal_planner` row. */
  datatype TableRow = TableRow(id: int, fields: RowFields)

  /** The columns a reload row was read from. */
  function FieldsOf(row: MealPlanRow): RowFields {
    RowFields(row.userId, row.date, row.recipeId, row.customTitle)
  }

  /** `match(criteria)`: every column named in the criteria has that value in the row. */
  predicate Matches(criteria: RowFields, f: RowFields) {
    && f.userId == criteria.userId
    && f.date == criteria.date
    && (criteria.recipeId.Some? ==> f.recipeId == criteria.recipeId)
    && (criteria.customTitle.Some? ==> f.customTitle == criteria.customTitle)
  }

  /** The table after an insert that is assigned id `id`. */
  function Inserted(table: seq<TableRow>, id: int, f: RowFields): seq<TableRow> {
    table + [TableRow(id, f)]
  }

  /** The table after `delete().match(criteria)`: the rows that do not match, in order. */
  function Deleted(table: seq<TableRow>, criteria: RowFields): (r: seq<TableRow>)
    ensures |r| <= |table|
    ensures forall row :: row in r <==> row in table && !Matches(criteria, row.fields)
  {
    if table == [] then []
    else if Matches(criteria, table[0].fields) then Deleted(table[1..], criteria)
    else [table[0]] + Deleted(table[1..], criteria)
  }

  /** The rows of the table that a criterion matches. */
  function Matching(table: seq<TableRow>, criteria: RowFields): (r: seq<TableRow>)
    ensures forall row :: row in r <==> row in table && Matches(criteria, row.fields)
  {
    if table == [] then []
    else if Matches(criteria, table[0].fields) then [table[0]] + Matching(table[1..], criteria)
    else Matching(table[1..], criteria)
  }

  /** A delete removes as many rows as its criteria match, not one: the count of rows it
      takes away is the count of matching rows. */
  lemma {:induction false} DeletedCount(table: seq<TableRow>, criteria: RowFields)
    ensures |Deleted(table, criteria)| + |Matching(table, criteria)| == |table|
  {
    if table != [] {
      DeletedCount(table[1..], criteria);
    }
  }

  /** The delete built for an optimistically added entry matches the row its insert wrote:
      for a recipe entry through `recipe_id`, for a custom entry through `custom_title`. */
  lemma DeleteMatchesOwnInsert(user: UserId, date: PlanDate, recipe: Recipe, title: string, tempId: int)
    ensures Matches(DeleteCriteria(user, date, RecipeEntry(recipe)), RecipeInsert(user, recipe, date))
    ensures Matches(DeleteCriteria(user, date, CustomMeal(tempId, title)), CustomInsert(user, title, date))
  {
  }

  /** The delete built for an entry a reload produced matches the row it was read from,
      provided the row is the user's and its joined recipe is the one it references. */
  lemma DeleteMatchesReloadedRow(user: UserId, row: MealPlanRow)
    requires row.userId == user
    requires row.recipes.Some? ==> row.recipeId == Some(row.recipes.value.id)
    requires EntryOf(row) != []
    ensures Matches(DeleteCriteria(user, row.date, EntryOf(row)[0]), FieldsOf(row))
  {
  }

  // ---------------------------------------------------------------------------
  // Optimistic updates against the following reload

  /** Once the insert of `addRecipeToDate` is stored as the newest row and joined back to
      the same recipe, a reload shows exactly the optimistic state. */
  lemma ReloadAgreesWithAddRecipe(rows: seq<MealPlanRow>, row: MealPlanRow, recipe: Recipe)
    requires !Truthy(row.customTitle) && row.recipes.Some? && Assemble(row.recipes.value) == recipe
    ensures Grouped(rows + [row]) == AppendMeal(Grouped(rows), row.date, RecipeEntry(recipe))
  {
  }

  /** Once the insert of `addCustomMealToDate` is stored as the newest row, a reload shows
      the optimistic state with the temporary id replaced by the row's id. */
  lemma ReloadAgreesWithAddCustom(rows: seq<MealPlanRow>, row: MealPlanRow, title: string)
    requires row.customTitle == Some(title) && title != ""
    ensures Grouped(rows + [row]) == AppendMeal(Grouped(rows), row.date, CustomMeal(row.id, title))
  {
  }

  /** A custom entry with an empty title does not survive a reload: its row is stored
      with `custom_title` "", which the reload treats as absent, so the date keeps only
      its other entries. */
  lemma EmptyCustomTitleVanishes(rows: seq<MealPlanRow>, row: MealPlanRow)
    requires row.customTitle == Some("") && row.recipes.None?
    ensures row.date in Grouped(rows + [row])
    ensures Grouped(rows + [row])[row.date] == Lookup(Grouped(rows), row.date)
  {
  }

  // ---------------------------------------------------------------------------
  // The composite-key delete

  /** Two custom entries with the same title on the same date: removing the first locally
      leaves one entry, but its delete matches both persisted rows and leaves none. */
  lemma AmbiguousCustomDelete(user: UserId, date: PlanDate, title: string, id1: int, id2: int)
    ensures var table := [TableRow(id1, CustomInsert(user, title, date)), TableRow(id2, CustomInsert(user, title, date))];
      var local := [CustomMeal(id1, title), CustomMeal(id2, title)];
      |SpliceOne(local, 0)| == 1 &&
      Deleted(table, DeleteCriteria(user, date, local[0])) == []
  {
  }

  /** Adding a recipe to an empty date and removing index 0 at once leaves the date empty
      locally. Remotely, if the insert lands before the delete no row of that recipe is left
      on the date; if the delete lands first it matches nothing and the inserted row
      survives. */
  lemma AddThenRemoveRace(table: seq<TableRow>, m: PlannedMeals, user: UserId, date: PlanDate, recipe: Recipe, id: int)
    requires date !in m
    requires forall row :: row in table ==> !Matches(RecipeInsert(user, recipe, date), row.fields)
    ensures SpliceOne(AppendMeal(m, date, RecipeEntry(recipe))[date], 0) == []
    ensures var crit := DeleteCriteria(user, date, RecipeEntry(recipe));
      var f := RecipeInsert(user, recipe, date);
      Matching(Deleted(Inserted(table, id, f), crit), crit) == [] &&
      Matching(Inserted(Deleted(table, crit), id, f), crit) == [TableRow(id, f)]
  {
    var crit := DeleteCriteria(user, date, RecipeEntry(recipe));
    var f := RecipeInsert(user, recipe, date);
    assert crit == f;
    var after := Deleted(table, crit);
    assert after == table by { DeletedNone(table, crit); }
    MatchingAppend(table, [TableRow(id, f)], crit);
    MatchingNone(table, crit);
    var d := Deleted(Inserted(table, id, f), crit);
    MatchingNone(d, crit);
  }

  lemma {:induction false} DeletedNone(table: seq<TableRow>, criteria: RowFields)
    requires forall row :: row in table ==> !Matches(criteria, row.fields)
    ensures Deleted(table, criteria) == table
  {
    if table != [] {
      assert table[0] in table;
      forall row | row in table[1..] ensures !Matches(criteria, row.fields) {
        assert row in table;
      }
      DeletedNone(table[1..], criteria);
    }
  }

  lemma {:induction false} MatchingNone(table: seq<TableRow>, criteria: RowFields)
    requires forall row :: row in table ==> !Matches(criteria, row.fields)
    ensures Matching(table, criteria) == []
  {
    if table != [] {
      assert table[0] in table;
      forall row | row in table[1..] ensures !Matches(criteria, row.fields) {
        assert row in table;
      }
      MatchingNone(table[1..], criteria);
    }
  }

  lemma {:induction false} MatchingAppend(a: seq<TableRow>, b: seq<TableRow>, criteria: RowFields)
    ensures Matching(a + b, criteria) == Matching(a, criteria) + Matching(b, criteria)
  {
    if a == [] {
      assert a + b == b;
    } else {
      assert (a + b)[1..] == a[1..] + b;
      MatchingAppend(a[1..], b, criteria);
    }
  }
}
