# Meal-plan store, modelled in Dafny

This project models the meal-plan store of a recipe and meal-planning web client
(`src/contexts/MealPlannerContext.tsx`). The store keeps `plannedMeals`, a map
from a calendar-day string to an ordered list of planned meals, and a `loading`
flag. A planned meal is a recipe entry (id, title, image and the full recipe) or
a custom entry (id, title, `isCustom`). The store has four operations:

- **reload** (`fetchMealPlan`). It reads the signed-in user's `meal_planner` rows,
  joined with their recipe, the recipe's ingredients, category and tags, in `id`
  order. It groups them by date into a fresh map.
- **add recipe** and **add custom meal**. Each appends an entry to a date's list
  at once (an optimistic update), then inserts a row.
- **remove by index**. It splices an entry out of a date's list, then deletes the
  rows that match user, date and either the custom title or the recipe id.

The model has six modules:

- `Wrappers`: `Option` and `Result`.
- `Recipes`: the joined row shapes and the recipe assembler (`Assemble`), a pure function.
- `Meals`: planned meals, the entry each reload row gives (`EntryOf`), and the
  grouping pass. The pass has a specification (`Grouped`) and the loop that
  builds it in place (`GroupByDate`). The module also has the two list updates
  (`AppendMeal`, and `SpliceOne`, which follows JavaScript `splice(index, 1)`).
- `Requests`: the insert payloads and the delete's match criteria, as values.
- `Store`: the class `MealPlanner`, with fields `plannedMeals` and `loading`. It
  has the methods `Reload`, `AddRecipe`, `AddCustom` and `Remove`.
- `Remote`: what an insert and a `delete().match(...)` do to the table. It is
  used to relate optimistic state to later reloads and to show the limits of the
  composite-key delete.

Inputs the code reads from the outside are parameters:

- the signed-in user (`Option<UserId>`, for `getUser`);
- the query's answer (`Result` over the joined rows);
- the temporary id of a custom entry (for `Date.now()`).

Each operation returns the remote request it would issue instead of sending it.

JavaScript details that change behaviour are written out:

- A custom title counts only when it is truthy, so `""` is treated as absent. It
  then takes precedence over a joined recipe.
- `image_url || undefined` drops an empty url.
- `splice` counts a negative index from the end and clamps a large one.
- The first reload clears `loading`, which starts `true`. No later reload sets it again.

`Remove` follows the code for a missing date or an out-of-range index:

- If the date has no list, reading it throws before anything changes.
- If the index is out of bounds, the entry read is `undefined`. The spliced copy
  is still stored, and building the criteria then throws, so no delete is sent.
  For a negative index the splice removes an element counted from the end.

## Model

| member | source | states |
|---|---|---|
| Recipes.FlattenIngredient | src/contexts/MealPlannerContext.tsx:53-57 | definition: one link with its wrapper dropped, keeping the joined ingredient, the amount in grams and the unit |
| Recipes.FlattenIngredients | src/contexts/MealPlannerContext.tsx:53-57 | the flattened ingredients have the links' length and order; entry i carries link i's joined ingredient, amount in grams and unit |
| Recipes.FlattenTags | src/contexts/MealPlannerContext.tsx:59 | the flattened tags have the links' length and order; tag i is link i's joined tag |
| Recipes.Assemble | src/contexts/MealPlannerContext.tsx:50-60 | the recipe keeps the raw id, title and image; its category is the joined category; its ingredients and tags are the links flattened position by position, so empty link lists give empty sequences |
| Recipes.AssembleIgnoresLinkIds | src/contexts/MealPlannerContext.tsx:53-59 | raw recipes that differ only in the link wrappers' own columns assemble to the same recipe |
| Meals.Truthy | src/contexts/MealPlannerContext.tsx:43 | definition: an optional string counts as present only when it is there and not empty |
| Meals.ImageOf | src/contexts/MealPlannerContext.tsx:65 | the entry's image is present exactly when the recipe's url is a non-empty string, and then it is that url |
| Meals.RecipeEntry | src/contexts/MealPlannerContext.tsx:62-67 | definition: the recipe entry built from a recipe, with the recipe's id, title and image; the optimistic add at lines 91-96 builds the same entry |
| Meals.EntryOf | src/contexts/MealPlannerContext.tsx:43-68 | a row gives at most one entry. It gives one exactly when it has a truthy custom title or a joined recipe. The entry is custom exactly when the title is truthy, and then it has the row's id and title. Otherwise it has the assembled recipe and that recipe's id and title. The entry is well formed |
| Meals.Lookup | src/contexts/MealPlannerContext.tsx:91 | definition: the list stored at a date, or the empty list when there is none (also lines 120 and 148) |
| Meals.AppendMeal | src/contexts/MealPlannerContext.tsx:89-97 | the date's list becomes its old list (or empty) plus the new entry at the end; the key set gains the date; every other date keeps its list |
| Meals.AppendMealWellFormed | src/contexts/MealPlannerContext.tsx:118-125 | appending a well-formed entry keeps every list well formed |
| Meals.Grouped | src/contexts/MealPlannerContext.tsx:38-69 | definition: the map after the loop has visited the rows in order; each row creates its date key if missing and then appends its entries there |
| Meals.GroupedSnoc | src/contexts/MealPlannerContext.tsx:40-41 | one more row creates its date key if missing and appends that row's entries there |
| Meals.GroupedKeys | src/contexts/MealPlannerContext.tsx:38-41 | the reload's keys are exactly the dates of the rows, including rows that give no entry |
| Meals.GroupedByDate | src/contexts/MealPlannerContext.tsx:39-69 | the list at each date is the entries of that date's rows, in row order |
| Meals.GroupedWellFormed | src/contexts/MealPlannerContext.tsx:62-67 | every list a reload builds holds only well-formed entries |
| Meals.GroupByDate | src/contexts/MealPlannerContext.tsx:38-69 | the loop builds exactly the grouping of all rows |
| Meals.SpliceStart | src/contexts/MealPlannerContext.tsx:149 | the splice position is the index when it is in range, the length when the index is at or past it, and the index counted from the end (clamped at 0) when it is negative |
| Meals.SpliceOne | src/contexts/MealPlannerContext.tsx:148-149 | a splice at a position inside the list shortens it by one; a splice at the end position leaves it unchanged |
| Meals.SpliceRemovesAt | src/contexts/MealPlannerContext.tsx:148-149 | for any index, when the splice position is inside the list the length drops by one, the elements before it stay, those after it move down by one, and the removed element plus the result is the original multiset; when the position is the end nothing changes |
| Meals.SpliceNegativeIndex | src/contexts/MealPlannerContext.tsx:149 | on a three-element list index -1 removes the last element, index -5 removes the first, and index 5 removes nothing |
| Meals.SpliceWellFormed | src/contexts/MealPlannerContext.tsx:147-154 | splicing keeps a list well formed |
| Meals.ReloadRecipeThenCustom | src/contexts/MealPlannerContext.tsx:38-68 | a recipe row (recipe 7) then a custom row ("Leftovers") on one date reload as one key with two entries in that order |
| Requests.RecipeInsert | src/contexts/MealPlannerContext.tsx:101-105 | the insert carries the user, the date and `recipe_id` = the recipe's id, and no custom title |
| Requests.CustomInsert | src/contexts/MealPlannerContext.tsx:129-133 | the insert carries the user, the date and `custom_title` = the title, and no recipe id |
| Requests.DeleteCriteria | src/contexts/MealPlannerContext.tsx:157-166 | the match carries user and date plus exactly one key: `custom_title` (the entry's title) exactly when the entry is custom, else `recipe_id` (the entry's id) |
| Store.MealPlanner.constructor | src/contexts/MealPlannerContext.tsx:16-17 | the store starts with no meals and `loading` set |
| Store.MealPlanner.Reload | src/contexts/MealPlannerContext.tsx:21-73 | with no user the collection becomes empty whatever it held, and no query is made. With a user the user's query is issued. On error the collection is unchanged. On success it becomes the grouping of the rows. `loading` ends false and well-formedness is kept |
| Store.MealPlanner.AddRecipe | src/contexts/MealPlannerContext.tsx:84-110 | with no user nothing changes and nothing is sent. Otherwise the date's list gains the entry the reload would build for the recipe, other dates are unchanged, and exactly the recipe insert is returned |
| Store.MealPlanner.AddCustom | src/contexts/MealPlannerContext.tsx:112-138 | with no user nothing changes. Otherwise the date's list gains a custom entry with the given title and temporary id, other dates are unchanged, and exactly the custom insert is returned |
| Store.MealPlanner.Remove | src/contexts/MealPlannerContext.tsx:140-176 | with no user nothing changes. A date with no list throws and changes nothing. Otherwise the date's list is spliced and other dates are unchanged; a list emptied this way stays as an empty list. An in-bounds index removes exactly that entry and returns its delete, whose `recipe_id` for a recipe entry is the id of the recipe it carries; any other index throws without a write |
| Remote.Matches | src/contexts/MealPlannerContext.tsx:171 | definition: a row fits a match object when it has the criteria's user and date, and each payload column the criteria name has the same value in the row |
| Remote.Inserted | src/contexts/MealPlannerContext.tsx:99-105 | definition: the table after an insert, with the new row and the id it is assigned at the end (also lines 127-133) |
| Remote.Deleted | src/contexts/MealPlannerContext.tsx:168-171 | a matched delete keeps exactly the rows that do not match its criteria |
| Remote.Matching | src/contexts/MealPlannerContext.tsx:171 | the rows selected by a match are exactly the table rows whose columns fit the criteria |
| Remote.DeletedCount | src/contexts/MealPlannerContext.tsx:168-171 | a delete removes as many rows as its criteria match, not necessarily one |
| Remote.DeleteMatchesOwnInsert | src/contexts/MealPlannerContext.tsx:157-166 | the delete built for an optimistically added recipe or custom entry matches the row that entry's insert wrote |
| Remote.DeleteMatchesReloadedRow | src/contexts/MealPlannerContext.tsx:162-166 | the delete built for a reloaded entry matches the row it was read from |
| Remote.ReloadAgreesWithAddRecipe | src/contexts/MealPlannerContext.tsx:89-97 | after the recipe insert is stored as the newest row, a reload gives exactly the optimistic state |
| Remote.ReloadAgreesWithAddCustom | src/contexts/MealPlannerContext.tsx:118-125 | after the custom insert is stored as the newest row, a reload gives the optimistic state with the temporary id replaced by the row id |
| Remote.EmptyCustomTitleVanishes | src/contexts/MealPlannerContext.tsx:43 | a stored custom entry with an empty title gives no entry on reload; only its date key remains |
| Remote.AmbiguousCustomDelete | src/contexts/MealPlannerContext.tsx:157-171 | with two same-titled custom entries on one date, removing one locally leaves one entry, but its delete matches both rows and leaves none |
| Remote.AddThenRemoveRace | src/contexts/MealPlannerContext.tsx:140-171 | adding a recipe to an empty date and removing index 0 leaves the date empty. Insert then delete leaves no matching row; delete then insert leaves the inserted row |

## Left out

- Supabase calls are not modelled: `auth.getUser`, the query builder, the insert and delete round trips, and their error results. The user and the query's answer are parameters. Writes are returned as values. Insert and delete failures are only logged in the code and never change local state.
- The auth-state subscription and its unsubscribe (lines 77-81) are not modelled, nor the React context, state hooks, effect, Provider and `useMealPlanner` hook. They are framework plumbing. A reload can be triggered any number of times by calling `Reload`.
- Async interleaving is not modelled. The code reads the entry to remove from the rendered `plannedMeals` but splices the queued `prev`. The model has one state, so it assumes the two agree.
- `Date.now()` is a clock read; the temporary id is the `tempId` parameter.
- `console.error` logging is output only and is not modelled.
- A query answer with no error and `data` null (no state change but `loading` cleared) is not represented: the answer is either rows or an error.
- The `...rawRecipe` spread also copies the recipe's other columns onto the recipe, and the raw `recipe_ingredients`, `recipe_tags` and `categories` with them. The model's `Recipe` carries only id, title, image url, ingredients, category and tags.
- A join that returns `null` instead of an array for ingredient or tag links would make the code's `.map` throw. Links are typed as sequences, so that case is not represented.
- `src/lib/types.ts` is not part of this model. Ids and gram amounts are modelled as integers, and indexes as integers, so a fractional index is not represented.
- `src/lib/supabase.ts` reads environment variables and builds the client; it is not modelled.
- `src/pages/Categories.tsx` and the components under `src/components/` are presentation only and are not modelled.
