/**
 * The request handlers of backend/food/views.py that hold logic of their own:
 * building the shopping-list file, adding and removing favourites and cart
 * entries, and subscribing to and unsubscribing from an author.
 *
 * The database tables are object fields that the handlers reassign; a
 * response is modelled by its HTTP status code.
 */
module Views {
  import opened Models
  import opened ShoppingList
  import PyStr
  import Decimal
  import Utf8
  import Seqs
  import Wrappers
  import Serializers

  const Created := 201
  const NoContent := 204
  const BadRequest := 400
  /** The status of an unhandled exception (`MultipleObjectsReturned`). */
  const InternalServerError := 500

  datatype HttpMethod = Post | Delete

  // ----- download_shopping_cart -----

  /**
   * `RecipeViewSet.download_shopping_cart` for the recipes of the user's
   * cart, in cart order: the bytes of the file it sends.
   */
  method DownloadShoppingCart(cart: seq<Recipe>, date: string, cap: string -> string)
    returns (file: seq<Utf8.byte>)
    ensures file == Utf8.Encode(ShoppingListText(cart, date, cap))
  {
    var ingredients, recipeList := CollectCart(cart, cap);
    var content := RenderContent(ingredients, recipeList, date);
    file := Utf8.Encode(content);
  }

  /** The loop over the cart: the `ingredients` dictionary and `recipe_list` it leaves. */
  method CollectCart(cart: seq<Recipe>, cap: string -> string)
    returns (ingredients: seq<Entry>, recipeList: seq<string>)
    ensures ingredients == ShoppingTotals(cart, cap)
    ensures recipeList == RecipeLines(cart)
  {
    ingredients := [];
    recipeList := [];
    for i := 0 to |cart|
      invariant ingredients == Tally(CartEntries(cart[..i], cap))
      invariant recipeList == RecipeLines(cart[..i])
    {
      var recipe := cart[i];
      var authorName := FullName(recipe.author);
      recipeList := recipeList + [recipe.name + " — " + authorName];
      ingredients := AddRecipeLines(ingredients, CartEntries(cart[..i], cap), recipe, cap);
      CartPrefixStep(cart, i, cap);
    }
    Seqs.PrefixEnds([], cart);
  }

  /** The inner loop: every ingredient line of `recipe` added to the dictionary, in line order. */
  method AddRecipeLines(ingredients: seq<Entry>, ghost done: seq<Entry>, recipe: Recipe, cap: string -> string)
    returns (d: seq<Entry>)
    requires ingredients == Tally(done)
    ensures d == Tally(done + RecipeEntries(recipe, cap))
  {
    d := ingredients;
    var lines := recipe.recipeIngredients;
    ghost var es := RecipeEntries(recipe, cap);
    Seqs.PrefixEnds(done, es);
    for j := 0 to |lines|
      invariant d == Tally(done + es[..j])
    {
      var item := lines[j];
      var name := cap(item.ingredient.name);
      var unit := item.ingredient.measurementUnit;
      var key := name + " (" + unit + ")";
      d := AddAmount(d, key, item.amount);
      RecipeEntryAt(recipe, cap, j);
      TallyStep(done, es, j);
    }
  }

  /** `ingredients[key] = ingredients.get(key, 0) + amount` */
  method AddAmount(ingredients: seq<Entry>, key: string, amount: int) returns (d: seq<Entry>)
    ensures d == Upsert(ingredients, Entry(key, amount))
    ensures TotalOf(d, key) == TotalOf(ingredients, key) + amount
  {
    var at := KeyIndex(ingredients, key);
    if at < 0 {
      d := ingredients + [Entry(key, amount)];
      KeyIndexSnoc(ingredients, Entry(key, amount), key);
    } else {
      d := ingredients[at := Entry(key, ingredients[at].amount + amount)];
    }
  }

  /** The string concatenation that turns the dictionary and the recipe list into `content`. */
  method RenderContent(ingredients: seq<Entry>, recipeList: seq<string>, date: string) returns (content: string)
    ensures content == PyStr.Terminated([HeaderLine(date), ""] + NumberedLines(ingredients)
      + ["", RecipesHeading] + RecipeItems(recipeList))
  {
    ghost var head := [HeaderLine(date), ""];
    content := "Список покупок (сформирован " + date + "):\n\n";
    HeadTerminated(date);
    ghost var numbered := NumberedLines(ingredients);
    Seqs.PrefixEnds(head, numbered);
    for idx := 0 to |ingredients|
      invariant content == PyStr.Terminated(head + numbered[..idx])
    {
      var name, amount := ingredients[idx].key, ingredients[idx].amount;
      var line := Decimal.NatToString(idx + 1) + ". " + name + ": " + Decimal.IntToString(amount);
      assert line == numbered[idx];
      PyStr.TerminatedSnoc(head + numbered[..idx], line);
      Seqs.PrefixSnoc(head, numbered, idx);
      content := content + line + "\n";
    }

    ghost var before := head + numbered + ["", RecipesHeading];
    PyStr.TerminatedConcat(head + numbered, ["", RecipesHeading]);
    HeadingTerminated();
    content := content + "\nРецепты:\n";
    ghost var items := RecipeItems(recipeList);
    Seqs.PrefixEnds(before, items);
    for r := 0 to |recipeList|
      invariant content == PyStr.Terminated(before + items[..r])
    {
      var line := "- " + recipeList[r];
      assert line == items[r];
      PyStr.TerminatedSnoc(before + items[..r], line);
      Seqs.PrefixSnoc(before, items, r);
      content := content + line + "\n";
    }
  }

  // ----- _handle_toggle (favorite, shopping_cart) -----

  /** The rows left by `model.objects.filter(user=user, recipe=recipe).delete()`. */
  function Without(rows: seq<UserRecipeRelation>, pair: UserRecipeRelation): seq<UserRecipeRelation> {
    if rows == [] then []
    else
      var last := rows[|rows| - 1];
      Without(rows[..|rows| - 1], pair) + (if last == pair then [] else [last])
  }

  /** Deleting a pair keeps every other row and no copy of the pair. */
  lemma {:induction false} WithoutMembers(rows: seq<UserRecipeRelation>, pair: UserRecipeRelation)
    ensures forall x :: x in Without(rows, pair) <==> x in rows && x != pair
  {
    if rows != [] {
      var p, last := rows[..|rows| - 1], rows[|rows| - 1];
      WithoutMembers(p, pair);
      assert rows == p + [last];
    }
  }

  /** Deleting keeps the rows unique, and removes exactly one row when the pair was there. */
  lemma {:induction false} WithoutUnique(rows: seq<UserRecipeRelation>, pair: UserRecipeRelation)
    requires UniqueUserRecipe(rows)
    ensures UniqueUserRecipe(Without(rows, pair))
    ensures |Without(rows, pair)| == if pair in rows then |rows| - 1 else |rows|
  {
    if rows != [] {
      var p, last := rows[..|rows| - 1], rows[|rows| - 1];
      assert UniqueUserRecipe(p);
      WithoutUnique(p, pair);
      WithoutMembers(p, pair);
      assert rows == p + [last];
      assert last !in p by {
        forall i | 0 <= i < |p| ensures p[i] != last {
          assert p[i] == rows[i];
        }
      }
      var w := Without(p, pair);
      if last != pair {
        assert Without(rows, pair) == w + [last];
        assert last !in w;
      }
    }
  }

  /** A Favorite or ShoppingCart table: (user, recipe) rows, unique by constraint. */
  class UserRecipeTable {
    var rows: seq<UserRecipeRelation>

    predicate Valid()
      reads this
    {
      UniqueUserRecipe(rows)
    }

    constructor ()
      ensures rows == [] && Valid()
    {
      rows := [];
    }

    /** `model.objects.filter(user=user, recipe=recipe).exists()` */
    predicate Contains(user: nat, recipe: nat)
      reads this
    {
      UserRecipeRelation(user, recipe) in rows
    }

    /**
     * `RecipeViewSet._handle_toggle`: POST adds the pair unless it is there
     * (400), DELETE removes it unless it is missing (400).
     */
    method Toggle(m: HttpMethod, user: nat, recipe: nat) returns (status: int)
      requires Valid()
      modifies this
      ensures Valid()
      ensures m == Post && old(Contains(user, recipe)) ==> status == BadRequest && rows == old(rows)
      ensures m == Post && !old(Contains(user, recipe)) ==>
        status == Created && rows == old(rows) + [UserRecipeRelation(user, recipe)]
      ensures m == Delete && !old(Contains(user, recipe)) ==> status == BadRequest && rows == old(rows)
      ensures m == Delete && old(Contains(user, recipe)) ==>
        status == NoContent && |rows| == |old(rows)| - 1 &&
        forall x :: x in rows <==> x in old(rows) && x != UserRecipeRelation(user, recipe)
    {
      var pair := UserRecipeRelation(user, recipe);
      var present := pair in rows;
      if m == Post {
        if present {
          return BadRequest;
        }
        assert forall i :: 0 <= i < |rows| ==> rows[i] != pair;
        rows := rows + [pair];
        return Created;
      }
      if !present {
        return BadRequest;
      }
      WithoutMembers(rows, pair);
      WithoutUnique(rows, pair);
      rows := Without(rows, pair);
      return NoContent;
    }
  }

  // ----- subscribe -----

  /** A Subscription row: `follower` follows `author`. */
  datatype Subscription = Subscription(follower: nat, author: nat)

  /** The rows left when the first (lowest-key) row equal to `s` is deleted. */
  function RemoveFirst(rows: seq<Subscription>, s: Subscription): seq<Subscription> {
    if rows == [] then []
    else if rows[0] == s then rows[1..]
    else [rows[0]] + RemoveFirst(rows[1..], s)
  }

  /**
   * Exactly one copy of `s` goes, if there is one: the first, at the index
   * returned; the other rows keep their order.
   */
  lemma {:induction false} RemoveFirstSplits(rows: seq<Subscription>, s: Subscription) returns (i: nat)
    requires s in rows
    ensures i < |rows| && rows[i] == s && s !in rows[..i]
    ensures RemoveFirst(rows, s) == rows[..i] + rows[i + 1..]
  {
    if rows[0] == s {
      i := 0;
      assert rows[..0] + rows[1..] == rows[1..];
    } else {
      var tail := rows[1..];
      assert s in tail;
      var j := RemoveFirstSplits(tail, s);
      i := j + 1;
      Seqs.ConsSlices(rows, j);
      assert RemoveFirst(rows, s) == [rows[0]] + (tail[..j] + tail[j + 1..]);
    }
  }

  lemma {:induction false} RemoveFirstMultiset(rows: seq<Subscription>, s: Subscription)
    ensures multiset(RemoveFirst(rows, s)) == multiset(rows) - multiset{s}
  {
    if rows != [] {
      assert rows == [rows[0]] + rows[1..];
      if rows[0] != s {
        RemoveFirstMultiset(rows[1..], s);
      }
    }
  }

  /** What the view keeps of the table: no pair twice, and nobody following themself. */
  predicate ValidSubscriptions(rows: seq<Subscription>) {
    (forall i, j :: 0 <= i < j < |rows| ==> rows[i] != rows[j]) &&
    forall i :: 0 <= i < |rows| ==> rows[i].follower != rows[i].author
  }

  lemma AppendKeepsValid(rows: seq<Subscription>, s: Subscription)
    requires ValidSubscriptions(rows) && s !in rows && s.follower != s.author
    ensures ValidSubscriptions(rows + [s])
  {
    var r := rows + [s];
    forall i, j | 0 <= i < j < |r| ensures r[i] != r[j] {
      assert r[i] == rows[i];
      if j == |rows| {
        assert r[i] in rows;
      } else {
        assert r[j] == rows[j];
      }
    }
  }

  lemma RemoveFirstKeepsValid(rows: seq<Subscription>, s: Subscription)
    requires ValidSubscriptions(rows) && s in rows
    ensures ValidSubscriptions(RemoveFirst(rows, s))
  {
    var i := RemoveFirstSplits(rows, s);
    var r := RemoveFirst(rows, s);
    Seqs.DeleteAt(rows, i, r);
    forall a, b | 0 <= a < b < |r| ensures r[a] != r[b] {
      var a', b' := if a < i then a else a + 1, if b < i then b else b + 1;
      assert r[a] == rows[a'] && r[b] == rows[b'] && a' < b';
    }
    forall a | 0 <= a < |r| ensures r[a].follower != r[a].author {
      assert r[a] == rows[if a < i then a else a + 1];
    }
  }

  /** The subscriptions table. The model declares no constraint; the view keeps these rules. */
  class SubscriptionTable {
    var rows: seq<Subscription>

    predicate Valid()
      reads this
    {
      ValidSubscriptions(rows)
    }

    constructor ()
      ensures rows == [] && Valid()
    {
      rows := [];
    }

    /** How many rows `Subscription.objects.filter(follower=user, author=author)` holds. */
    function Count(user: nat, author: nat): nat
      reads this
    {
      multiset(rows)[Subscription(user, author)]
    }

    /**
     * `UserViewSet.subscribe`. POST: a self-subscription is refused (400);
     * `get_or_create` then finds the rows of the pair: none, and one is made
     * (201); one, and nothing changes (400); more, and it raises (500).
     * The 201 response serializes the author with `SubscribedUserSerializer`,
     * whose `get_recipes` reads the request's `recipes_limit`: when `int` raises
     * on it, the answer is 500 with the row already made.
     * DELETE: the first row of the pair is deleted (204), or there is none (400).
     */
    method Subscribe(m: HttpMethod, user: nat, author: nat, limit: Wrappers.Option<string>) returns (status: int)
      modifies this
      ensures old(Valid()) ==> Valid()
      ensures m == Post && user == author ==> status == BadRequest && rows == old(rows)
      ensures m == Post && user != author && old(Count(user, author)) == 0 ==>
        rows == old(rows) + [Subscription(user, author)] &&
        status == if Serializers.LimitRaises(limit) then InternalServerError else Created
      ensures m == Post && user != author && old(Count(user, author)) == 1 ==>
        status == BadRequest && rows == old(rows)
      ensures m == Post && user != author && old(Count(user, author)) > 1 ==>
        status == InternalServerError && rows == old(rows)
      ensures m == Delete && old(Count(user, author)) == 0 ==> status == BadRequest && rows == old(rows)
      ensures m == Delete && old(Count(user, author)) > 0 ==>
        status == NoContent && multiset(rows) == multiset(old(rows)) - multiset{Subscription(user, author)}
    {
      var s := Subscription(user, author);
      if m == Post {
        if user == author {
          return BadRequest;
        }
        var found := multiset(rows)[s];
        if found > 1 {
          return InternalServerError;
        }
        if found == 1 {
          return BadRequest;
        }
        assert s !in rows;
        if ValidSubscriptions(rows) {
          AppendKeepsValid(rows, s);
        }
        rows := rows + [s];
        if Serializers.LimitRaises(limit) {
          return InternalServerError;
        }
        return Created;
      }
      if s !in rows {
        return BadRequest;
      }
      RemoveFirstMultiset(rows, s);
      if ValidSubscriptions(rows) {
        RemoveFirstKeepsValid(rows, s);
      }
      rows := RemoveFirst(rows, s);
      return NoContent;
    }
  }
}
