/**
  The recipe graph assembler: turns the nested `recipes` object of one joined
  `meal_planner` row into a denormalized Recipe.
 */
module Recipes {
  import opened Wrappers

  type RecipeId = int

  /** A row of the `ingredients` table, as the join nests it. */
  datatype IngredientRow = IngredientRow(id: int, name: string)

  /** A row of the `categories` table. */
  datatype CategoryRow = CategoryRow(id: int, name: string)

  /** A row of the `tags` table. */
  datatype TagRow = TagRow(id: int, name: string)

  /** A row of `recipe_ingredients`, with its ingredient joined in `ingredients`. */
  datatype IngredientLink = IngredientLink(
    recipeId: RecipeId, ingredientId: int, ingredients: IngredientRow,
    amountInGrams: int, unit: string)

  /** A row of `recipe_tags`, with its tag joined in `tags`. */
  datatype TagLink = TagLink(recipeId: RecipeId, tagId: int, tags: TagRow)

  /** The `recipes` object of a joined row, as the query returns it. */
  datatype RawRecipe = RawRecipe(
    id: RecipeId, title: string, imageUrl: Option<string>,
    categories: Option<CategoryRow>,
    recipeIngredients: seq<IngredientLink>,
    recipeTags: seq<TagLink>)

  /** One ingredient of an assembled recipe: the link wrapper dropped. */
  datatype RecipeIngredient = RecipeIngredient(ingredient: IngredientRow, amountInGrams: int, unit: string)

  /** The denormalized recipe the planner stores. */
  datatype Recipe = Recipe(
    id: RecipeId, title: string, imageUrl: Option<string>,
    ingredients: seq<RecipeIngredient>,
    category: Option<CategoryRow>,
    tags: seq<TagRow>)

  /** One ingredient link with its wrapper dropped: the joined ingredient, the amount in
      grams and the unit. */
  function FlattenIngredient(link: IngredientLink): RecipeIngredient {
    RecipeIngredient(link.ingredients, link.amountInGrams, link.unit)
  }

  /** The recipe's ingredient links, each flattened: same length, same order. */
  function FlattenIngredients(links: seq<IngredientLink>): (r: seq<RecipeIngredient>)
    ensures |r| == |links|
    ensures forall i :: 0 <= i < |links| ==>
      r[i].ingredient == links[i].ingredients &&
      r[i].amountInGrams == links[i].amountInGrams &&
      r[i].unit == links[i].unit
  {
    if links == [] then [] else [FlattenIngredient(links[0])] + FlattenIngredients(links[1..])
  }

  /** The recipe's tag links, each replaced by its joined tag: same length, same order. */
  function FlattenTags(links: seq<TagLink>): (r: seq<TagRow>)
    ensures |r| == |links|
    ensures forall i :: 0 <= i < |links| ==> r[i] == links[i].tags
  {
    if links == [] then [] else [links[0].tags] + FlattenTags(links[1..])
  }

  /** The assembler: the raw recipe's own columns, its flattened ingredients and tags,
      and its joined category. Empty link sequences give empty ingredients and tags. */
  function Assemble(raw: RawRecipe): (r: Recipe)
    ensures r.id == raw.id && r.title == raw.title && r.imageUrl == raw.imageUrl
    ensures r.category == raw.categories
    ensures |r.ingredients| == |raw.recipeIngredients| && |r.tags| == |raw.recipeTags|
    ensures forall i :: 0 <= i < |raw.recipeIngredients| ==>
      r.ingredients[i] == RecipeIngredient(raw.recipeIngredients[i].ingredients,
                                           raw.recipeIngredients[i].amountInGrams,
                                           raw.recipeIngredients[i].unit)
    ensures forall i :: 0 <= i < |raw.recipeTags| ==> r.tags[i] == raw.recipeTags[i].tags
  {
    Recipe(raw.id, raw.title, raw.imageUrl,
           FlattenIngredients(raw.recipeIngredients),
           raw.categories,
           FlattenTags(raw.recipeTags))
  }

  /** Two raw recipes that differ only in the link wrappers (the link's own ids) assemble
      to the same recipe: the assembler keeps the payload and drops the wrapper. */
  lemma AssembleIgnoresLinkIds(raw: RawRecipe, raw': RawRecipe)
    requires raw.id == raw'.id && raw.title == raw'.title && raw.imageUrl == raw'.imageUrl
    requires raw.categories == raw'.categories
    requires |raw.recipeIngredients| == |raw'.recipeIngredients| && |raw.recipeTags| == |raw'.recipeTags|
    requires forall i :: 0 <= i < |raw.recipeIngredients| ==>
      FlattenIngredient(raw.recipeIngredients[i]) == FlattenIngredient(raw'.recipeIngredients[i])
    requires forall i :: 0 <= i < |raw.recipeTags| ==> raw.recipeTags[i].tags == raw'.recipeTags[i].tags
    ensures Assemble(raw) == Assemble(raw')
  {
  }
}
