/**
  The meal-plan store: the date-indexed collection of planned meals and the
  loading flag, the reload that rebuilds the collection from the remote rows,
  and the three optimistic mutations. The signed-in user, the query's answer
  and the temporary id of a custom entry are parameters; each operation returns
  the remote request it issues instead of sending it.
 */
module Store {
  import opened Wrappers
  import opened Recipes
  import opened Meals
  import opened Requests

  class MealPlanner {
    var plannedMeals: PlannedMeals
    var loading: bool

    /** Every recipe entry shows its own recipe's id, title and image, so the `recipe_id` a
        removal matches on is the id of the recipe the entry carries. */
    ghost predicate Valid()
      reads this
    {
      AllListsWellFormed(plannedMeals)
    }

    /** A new store: no meals, and loading until the first reload completes. */
    constructor ()
      ensures Valid() && plannedMeals == map[] && loading
    {
      plannedMeals := map[];
      loading := true;
    }

    /** `fetchMealPlan`. Without a user the collection is emptied and no query is made.
        Otherwise the user's rows are queried; on success the collection is replaced by
        the rows grouped by date, and on failure it is left as it was. Either way the
        loading flag ends cleared. `response` is the answer the query receives. */
    method Reload(user: Option<UserId>, response: Result<seq<MealPlanRow>, string>)
        returns (query: Option<PlanQuery>)
      requires Valid()
      modifies this
      ensures Valid() && !loading
      ensures user.None? ==> query == None && plannedMeals == map[]
      ensures user.Some? ==> query == Some(SelectPlan(user.value))
      ensures user.Some? && response.Err? ==> plannedMeals == old(plannedMeals)
      ensures user.Some? && response.Ok? ==> plannedMeals == Grouped(response.value)
    {
      if user.None? {
        plannedMeals := map[];
        loading := false;
        return None;
      }
      query := Some(SelectPlan(user.value));
      match response {
        case Err(_) =>
        case Ok(rows) =>
          var grouped := GroupByDate(rows);
          GroupedWellFormed(rows);
          plannedMeals := grouped;
      }
      loading := false;
    }

    /** `addRecipeToDate`. With a user, the recipe's entry is appended to the date's list at
        once, every other date is left alone, and the insert `{user_id, recipe_id, date}`
        is returned. Without a user nothing happens. */
    method AddRecipe(user: Option<UserId>, recipe: Recipe, date: PlanDate) returns (effect: Effect)
      requires Valid()
      modifies this
      ensures Valid() && loading == old(loading)
      ensures user.None? ==> effect == NoUser && plannedMeals == old(plannedMeals)
      ensures user.Some? ==>
        plannedMeals == AppendMeal(old(plannedMeals), date, RecipeEntry(recipe)) &&
        effect == Sends(Insert(RecipeInsert(user.value, recipe, date)))
    {
      if user.None? {
        return NoUser;
      }
      AppendMealWellFormed(plannedMeals, date, RecipeEntry(recipe));
      plannedMeals := AppendMeal(plannedMeals, date, RecipeEntry(recipe));
      effect := Sends(Insert(RecipeInsert(user.value, recipe, date)));
    }

    /** `addCustomMealToDate`. With a user, a custom entry with the temporary id `tempId`
        (the clock reading) and the given title is appended to the date's list, every other
        date is left alone, and the insert `{user_id, custom_title, date}` is returned. */
    method AddCustom(user: Option<UserId>, title: string, date: PlanDate, tempId: int) returns (effect: Effect)
      requires Valid()
      modifies this
      ensures Valid() && loading == old(loading)
      ensures user.None? ==> effect == NoUser && plannedMeals == old(plannedMeals)
      ensures user.Some? ==>
        plannedMeals == AppendMeal(old(plannedMeals), date, CustomMeal(tempId, title)) &&
        effect == Sends(Insert(CustomInsert(user.value, title, date)))
    {
      if user.None? {
        return NoUser;
      }
      AppendMealWellFormed(plannedMeals, date, CustomMeal(tempId, title));
      plannedMeals := AppendMeal(plannedMeals, date, CustomMeal(tempId, title));
      effect := Sends(Insert(CustomInsert(user.value, title, date)));
    }

    /** `removeRecipeFromDate`. With a user and a date that has a list, the list is replaced
        by a copy with `splice(index, 1)` applied. When `index` is in bounds that removes
        exactly the entry at `index` and the delete matching it is returned. When it is
        not, reading the entry yields `undefined` and the criteria cannot be built: the
        splice still takes effect but the call throws before any write. A date with no list
        throws before anything changes. */
    method Remove(user: Option<UserId>, date: PlanDate, index: int) returns (effect: Effect)
      requires Valid()
      modifies this
      ensures Valid() && loading == old(loading)
      ensures user.None? ==> effect == NoUser && plannedMeals == old(plannedMeals)
      ensures user.Some? && date !in old(plannedMeals) ==>
        effect == Throws && plannedMeals == old(plannedMeals)
      ensures user.Some? && date in old(plannedMeals) ==>
        plannedMeals == old(plannedMeals)[date := SpliceOne(old(plannedMeals)[date], index)]
      ensures user.Some? && date in old(plannedMeals) && 0 <= index < |old(plannedMeals)[date]| ==>
        plannedMeals[date] == old(plannedMeals)[date][..index] + old(plannedMeals)[date][index + 1..] &&
        effect == Sends(Delete(DeleteCriteria(user.value, date, old(plannedMeals)[date][index])))
      ensures (user.Some? && date in old(plannedMeals) && 0 <= index < |old(plannedMeals)[date]| &&
               old(plannedMeals)[date][index].RecipeMeal?) ==>
        effect.write.criteria.recipeId == Some(old(plannedMeals)[date][index].recipe.id)
      ensures user.Some? && date in old(plannedMeals) && !(0 <= index < |old(plannedMeals)[date]|) ==>
        effect == Throws
    {
      if user.None? {
        return NoUser;
      }
      if date !in plannedMeals {
        return Throws;
      }
      var list := plannedMeals[date];
      SpliceWellFormed(list, index);
      plannedMeals := plannedMeals[date := SpliceOne(list, index)];
      if 0 <= index < |list| {
        effect := Sends(Delete(DeleteCriteria(user.value, date, list[index])));
      } else {
        effect := Throws;
      }
    }
  }
}
