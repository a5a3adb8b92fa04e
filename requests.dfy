/**
  The remote writes the store issues: the insert payloads of the two add
  operations and the match criteria of the remove, as values.
 */
module Requests {
  import opened Wrappers
  import opened Recipes
  import opened Meals

  /** The columns of a `meal_planner` write: the insert object, or the `match` object of a
      delete. An absent column is one the object does not carry. */
  datatype RowFields = RowFields(
    userId: UserId, date: PlanDate,
    recipeId: Option<RecipeId>, customTitle: Option<string>)

  /** The persisted-row invariant: exactly one of `recipe_id` / `custom_title` is present. */
  predicate ExactlyOnePayload(f: RowFields) {
    f.recipeId.Some? != f.customTitle.Some?
  }

  /** The query a reload issues: every joined row of the user, ordered by `id` ascending. */
  datatype PlanQuery = SelectPlan(userId: UserId)

  /** A remote write. */
  datatype Write = Insert(row: RowFields) | Delete(criteria: RowFields)

  /** What a mutation did besides its local update: nothing (no signed-in user), the one
      write it issues, or a TypeError thrown before any write (remove with a bad key). */
  datatype Effect = NoUser | Sends(write: Write) | Throws

  /** The insert of `addRecipeToDate`: the user, the date and the recipe's id. */
  function RecipeInsert(user: UserId, recipe: Recipe, date: PlanDate): (f: RowFields)
    ensures ExactlyOnePayload(f)
    ensures f.userId == user && f.date == date && f.recipeId == Some(recipe.id)
  {
    RowFields(user, date, Some(recipe.id), None)
  }

  /** The insert of `addCustomMealToDate`: the user, the date and the custom title. */
  function CustomInsert(user: UserId, title: string, date: PlanDate): (f: RowFields)
    ensures ExactlyOnePayload(f)
    ensures f.userId == user && f.date == date && f.customTitle == Some(title)
  {
    RowFields(user, date, None, Some(title))
  }

  /** The composite-key match of `removeRecipeFromDate`: user and date, plus the custom
      title of a custom entry, or else the entry's id as `recipe_id`. */
  function DeleteCriteria(user: UserId, date: PlanDate, meal: PlannerMeal): (c: RowFields)
    ensures ExactlyOnePayload(c)
    ensures c.userId == user && c.date == date
    ensures c.customTitle.Some? <==> meal.IsCustom()
    ensures meal.IsCustom() ==> c.customTitle == Some(meal.title)
    ensures !meal.IsCustom() ==> c.recipeId == Some(meal.id)
  {
    if meal.IsCustom() then RowFields(user, date, None, Some(meal.title))
    else RowFields(user, date, Some(meal.id), None)
  }
}
