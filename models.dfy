/**
 * The stored entities of backend/food/models.py and the invariants their
 * validators and uniqueness constraints guarantee: an ingredient line's
 * amount and a recipe's cooking time are at least 1, an (ingredient, recipe)
 * pair has at most one line, and a (user, recipe) pair is at most once in the
 * shopping cart and at most once in the favourites.
 */
module Models {
  import PyStr

  /** The user fields the core reads (the user model is Django's, extended in users/models.py). */
  datatype User = User(id: nat, firstName: string, lastName: string)

  datatype Ingredient = Ingredient(id: nat, name: string, measurementUnit: string)

  /** An IngredientRecipe row: how much of one ingredient one recipe takes. */
  datatype IngredientRecipe = IngredientRecipe(ingredient: Ingredient, recipe: nat, amount: int)

  /** A recipe with its ingredient lines (`recipe.recipe_ingredients`). */
  datatype Recipe = Recipe(
    id: nat,
    author: User,
    name: string,
    text: string,
    cookingTime: int,
    recipeIngredients: seq<IngredientRecipe>)

  /** A Favorite or ShoppingCart row (the shared abstract base UserRecipeRelation). */
  datatype UserRecipeRelation = UserRecipeRelation(user: nat, recipe: nat)

  /** `MinValueValidator(1)` on `IngredientRecipe.amount`. */
  const MinAmount := 1

  /** `MinValueValidator(1)` on `Recipe.cooking_time`. */
  const MinCookingTime := 1

  predicate ValidAmount(amount: int) {
    amount >= MinAmount
  }

  predicate ValidCookingTime(minutes: int) {
    minutes >= MinCookingTime
  }

  /** `unique_ingredient_recipe`: no two rows share (ingredient, recipe). */
  predicate UniqueIngredientRecipe(rows: seq<IngredientRecipe>) {
    forall i, j :: 0 <= i < j < |rows| ==>
      rows[i].ingredient.id != rows[j].ingredient.id || rows[i].recipe != rows[j].recipe
  }

  /** What the database holds of IngredientRecipe rows. */
  predicate ValidIngredientRecipeRows(rows: seq<IngredientRecipe>) {
    (forall i :: 0 <= i < |rows| ==> ValidAmount(rows[i].amount)) && UniqueIngredientRecipe(rows)
  }

  /** A stored recipe: valid cooking time, and valid lines that all belong to it. */
  predicate ValidRecipe(r: Recipe) {
    ValidCookingTime(r.cookingTime) &&
    ValidIngredientRecipeRows(r.recipeIngredients) &&
    forall i :: 0 <= i < |r.recipeIngredients| ==> r.recipeIngredients[i].recipe == r.id
  }

  /** `unique_favorite` / `unique_shoppingcart`: no two rows share (user, recipe). */
  predicate UniqueUserRecipe(rows: seq<UserRecipeRelation>) {
    forall i, j :: 0 <= i < j < |rows| ==> rows[i] != rows[j]
  }

  /** `user.get_full_name()`: first and last name joined by a space, then stripped. */
  function FullName(u: User): string {
    PyStr.Strip(u.firstName + " " + u.lastName)
  }

  /** With both names present and unpadded, the full name is them joined by one space. */
  lemma FullNameJoins(u: User)
    requires |u.firstName| > 0 && !PyStr.IsSpace(u.firstName[0])
    requires |u.lastName| > 0 && !PyStr.IsSpace(u.lastName[|u.lastName| - 1])
    ensures FullName(u) == u.firstName + " " + u.lastName
  {
    var s := u.firstName + " " + u.lastName;
    assert s[0] == u.firstName[0] && s[|s| - 1] == u.lastName[|u.lastName| - 1];
    PyStr.StripUnpadded(s);
  }

  /** The ids of the recipes `user` has rows for, in row order (`Model.objects.filter(user=user)`). */
  function RecipesOf(rows: seq<UserRecipeRelation>, user: nat): seq<nat> {
    if rows == [] then []
    else
      var last := rows[|rows| - 1];
      RecipesOf(rows[..|rows| - 1], user) + (if last.user == user then [last.recipe] else [])
  }

  lemma {:induction false} RecipesOfMember(rows: seq<UserRecipeRelation>, user: nat, k: int)
    requires 0 <= k < |RecipesOf(rows, user)|
    ensures UserRecipeRelation(user, RecipesOf(rows, user)[k]) in rows
  {
    var prefix := rows[..|rows| - 1];
    if k < |RecipesOf(prefix, user)| {
      RecipesOfMember(prefix, user, k);
      assert forall x :: x in prefix ==> x in rows;
    } else {
      assert rows[|rows| - 1] in rows;
    }
  }

  /** Under the uniqueness constraint a user's cart (or favourites) lists each recipe once. */
  lemma {:induction false} RecipesOfDistinct(rows: seq<UserRecipeRelation>, user: nat)
    requires UniqueUserRecipe(rows)
    ensures forall i, j :: 0 <= i < j < |RecipesOf(rows, user)| ==>
      RecipesOf(rows, user)[i] != RecipesOf(rows, user)[j]
  {
    if rows != [] {
      var prefix, last := rows[..|rows| - 1], rows[|rows| - 1];
      assert UniqueUserRecipe(prefix);
      RecipesOfDistinct(prefix, user);
      var before := RecipesOf(prefix, user);
      if last.user == user {
        forall i | 0 <= i < |before| ensures before[i] != last.recipe {
          RecipesOfMember(prefix, user, i);
          var m :| 0 <= m < |prefix| && prefix[m] == UserRecipeRelation(user, before[i]);
          assert rows[m] == prefix[m] && m < |rows| - 1;
        }
      }
    }
  }
}
