# Foodgram backend core in Dafny

Foodgram is a recipe-sharing site. Its Django backend (`backend/food`) lets
users do four things this model covers:

- publish recipes with a list of ingredient lines;
- mark recipes as favourites;
- put recipes in a shopping cart and download a shopping list for it;
- subscribe to authors.

This project models the parts of that backend that hold logic of their own
and proves properties of them:

- **The shopping list** (`RecipeViewSet.download_shopping_cart`). Ingredient
  amounts are merged across the cart's recipes under the text key
  `"<Name capitalized> (<unit>)"`. The merged totals are numbered in the order
  each key was first met. A `Рецепты:` section lists `name — author` for each
  cart recipe, in cart order. The text is encoded as UTF-8. The code neither
  sorts the totals nor removes repeated attributions, and the cart's order is
  the order of the query over the user's cart rows. The model follows the code
  on both points.
- **Favourites and cart toggles** (`_handle_toggle`). POST adds a
  (user, recipe) row unless it is already there; DELETE removes it unless it is
  missing. The uniqueness constraint on (user, recipe) is an invariant the
  table keeps.
- **Subscriptions** (`UserViewSet.subscribe`). Self-subscription is refused.
  `get_or_create` either creates the row, finds one row (400), or finds several
  and raises (500). DELETE removes the first matching row. The `Subscription`
  model declares no uniqueness constraint, so the model does not assume one.
  It proves that the view keeps such a rule once the table starts with it.
- **The recipe serializers**:
  - the data-URI header that `Base64ImageField` splits into a file name and a
    payload;
  - each ingredient entry's checks (existing ingredient, `amount >= 1`);
  - `validate_ingredients` (a list, non-empty, no repeated id);
  - `validate` (an update must carry `ingredients`);
  - the replacement of a recipe's ingredient lines on create and update;
  - the `recipes_limit` cut of `get_recipes`.

Python's string operations (`split`, `join`, `startswith`, `strip`,
`isspace`, `capitalize`, `isdigit`, `str(int)`, `int(str)`) and UTF-8
(section 3 of RFC 3629) are modelled in their own modules, with their own
round-trip lemmas. Database tables that the handlers change are fields of
Dafny classes, and the handlers are methods that reassign them. The
shopping-list handler is a method with the source's loops, proved against
functions of the cart.

Modules: `Wrappers` (Option, Result), `Seqs` (small sequence facts), `PyStr`,
`Decimal`, `Utf8`, `Models`, `ShoppingList` (the functions that specify the
shopping list, and their lemmas), `Views`, `Serializers`.

## Model

| member | source | states |
|---|---|---|
| Views.DownloadShoppingCart | backend/food/views.py:214-250 | The bytes of the file are the UTF-8 encoding of `ShoppingListText(cart, date, cap)`. |
| Views.CollectCart | backend/food/views.py:221-233 | After the loop over the cart, the dictionary is the merged totals of the whole cart and `recipe_list` holds one attribution per cart recipe, in cart order. |
| Views.AddRecipeLines | backend/food/views.py:228-233 | The inner loop adds every ingredient line of the recipe to the dictionary, in line order, one tally step per line. |
| Views.AddAmount | backend/food/views.py:233 | `ingredients[key] = ingredients.get(key, 0) + amount`: the key's total grows by `amount`. An existing key keeps its position; a new key goes last. |
| Views.RenderContent | backend/food/views.py:235-243 | The built text is the header line, an empty line, the numbered totals, an empty line, `Рецепты:` and the `- ` attributions, each line ending in a newline. |
| Views.UserRecipeTable.constructor | backend/food/models.py:86-93 | An empty table satisfies the (user, recipe) uniqueness constraint. |
| Views.UserRecipeTable.Toggle | backend/food/views.py:170-194 | POST on a present pair: 400, rows unchanged. POST on an absent pair: 201, the pair is appended. DELETE on an absent pair: 400, unchanged. DELETE on a present pair: 204, exactly that pair goes and every other row stays. Uniqueness is kept. |
| Views.WithoutMembers | backend/food/views.py:193 | After `filter(user, recipe).delete()`, a row is left exactly when it was there and is not the deleted pair. |
| Views.Without | backend/food/views.py:193 | `filter(user=user, recipe=recipe).delete()` on the rows: every row equal to the pair goes, the rest keep their order. `WithoutMembers` and `WithoutUnique` state what it leaves. |
| Views.WithoutUnique | backend/food/models.py:86-93 | Deleting a pair keeps the rows unique, and removes exactly one row when the pair was present. |
| Views.RemoveFirstSplits | backend/food/views.py:115-124 | `filter(...).first().delete()` removes the first row equal to the pair, at the returned index; the rows before and after keep their order. |
| Views.RemoveFirst | backend/food/views.py:115-124 | `filter(follower, author).first().delete()`: the first row equal to the pair goes, the rest keep their order. `RemoveFirstSplits` and `RemoveFirstMultiset` state what it leaves. |
| Views.RemoveFirstMultiset | backend/food/views.py:115-124 | Deleting the first matching row removes exactly one copy of the pair from the table's multiset of rows. |
| Views.AppendKeepsValid | backend/food/views.py:93-112 | Creating a row for a pair that is absent, whose follower is not the author, keeps the table free of both duplicates and self-subscriptions. |
| Views.RemoveFirstKeepsValid | backend/food/views.py:114-125 | Deleting a row keeps the table free of both duplicates and self-subscriptions. |
| Views.SubscriptionTable.constructor | backend/users/models.py:29-40 | An empty subscription table has no duplicate and no self-subscription. |
| Views.SubscriptionTable.Subscribe | backend/food/views.py:88-125 | POST to oneself: 400. POST with no row: the row is appended, and the answer is 201, or 500 when serializing the author makes `get_recipes` raise on `recipes_limit`. POST with one row: 400. POST with several rows: 500, as `get_or_create` raises. DELETE with no row: 400. DELETE with rows: 204 and one copy removed. Otherwise the rows are unchanged. The table's rules are kept. |
| ShoppingList.RecipeEntries | backend/food/views.py:228-233 | One merge entry per ingredient line of the recipe, in line order. |
| ShoppingList.MergeKey | backend/food/views.py:230-232 | The dictionary key `f"{name.capitalize()} ({unit})"`, with `cap` for `capitalize`. `MergeKeyKeepsUnitsApart` and `KeysCanCollide` state what it tells apart. |
| ShoppingList.Upsert | backend/food/views.py:233 | One `ingredients[key] = ingredients.get(key, 0) + amount` on an insertion-ordered dictionary: an existing key is updated in place, a new one goes last. `Views.AddAmount` and `ScenarioTally` state its effect. |
| ShoppingList.Tally | backend/food/views.py:221-233 | The dictionary after every cart line has been added, in order, to an empty one. `TallyKeys`, `TallySums`, `TallyUniqueKeys` and `TallyFirstOccurrenceOrder` state what it holds. |
| ShoppingList.KeyIndex | backend/food/views.py:233 | The position of the first entry with the key, or -1 exactly when the dictionary has no such key. |
| ShoppingList.TallyUniqueKeys | backend/food/views.py:221-233 | The merged dictionary holds each key once. |
| ShoppingList.TallyKeys | backend/food/views.py:221-233 | A key is in the merged totals exactly when some ingredient line of the cart has it. |
| ShoppingList.TallySums | backend/food/views.py:233 | Each total equals the sum of the amounts of the cart lines with that key, an independent definition of the merge. |
| ShoppingList.TallyLookup | backend/food/views.py:233 | `ingredients.get(k, 0)` after the merge is the sum of the amounts with key `k`, and 0 for a key never met. |
| ShoppingList.TallyFirstOccurrenceOrder | backend/food/views.py:238 | Totals are listed in the order in which their keys first appear among the cart's lines, as a dict preserves insertion order. |
| ShoppingList.TallyPositive | backend/food/models.py:56-58 | When each line's amount is at least 1, each total is at least 1. |
| ShoppingList.CartEntriesValid | backend/food/models.py:56-58 | The merge entries of a cart of stored recipes have amounts of at least 1. |
| ShoppingList.CartTotalsPositive | backend/food/models.py:56-58 | Every total of a cart of stored recipes is at least 1. |
| ShoppingList.MergeKeyKeepsUnitsApart | backend/food/views.py:230-232 | One ingredient name in two units gives two different keys, so its amounts are not added together. |
| ShoppingList.KeysCanCollide | backend/food/views.py:230-232 | The key is the rendered text, not the (name, unit) pair. An ingredient whose name ends in a parenthesised unit gets the same key as another (name, unit) pair. |
| ShoppingList.CartEntryOrigin | backend/food/views.py:224-233 | Every merge entry comes from some ingredient line of some cart recipe. |
| ShoppingList.CartEntriesConcat | backend/food/views.py:224-233 | The lines of two carts back to back are the lines of the first followed by those of the second. |
| ShoppingList.SumForConcat | backend/food/views.py:233 | The sum for a key over two runs of lines is the sum of the two. |
| ShoppingList.MergeOrderIndependent | backend/food/views.py:224-233 | Swapping two blocks of the cart changes neither which keys are listed nor any key's total; only the listing order depends on the cart order. |
| ShoppingList.MergePermutationIndependent | backend/food/views.py:224-233 | Any reordering of the cart (the same recipes, each as often) changes neither which keys are listed nor any key's total. |
| ShoppingList.PermutedSums | backend/food/views.py:224-233 | The sum of the amounts for a key over all of the cart's lines is the same for any reordering of the cart. |
| ShoppingList.PermutedKeys | backend/food/views.py:224-233 | Some line of the cart carries a key exactly when some line of any reordering of it does. |
| ShoppingList.KeysListedOnce | backend/food/views.py:238-239 | No ingredient key is printed twice in the shopping list. |
| ShoppingList.NumberedLines | backend/food/views.py:238-239 | One numbered line per total, in order. |
| ShoppingList.ItemLine | backend/food/views.py:239 | The line `f"{idx}. {name}: {amount}"`. `ItemLineLeading` reads its number back. |
| ShoppingList.ItemLinesNumbered | backend/food/views.py:238-239 | The number at the front of the i-th totals line reads back as i + 1: `enumerate(..., start=1)`. |
| ShoppingList.ItemLineLeading | backend/food/views.py:239 | The line `f"{idx}. ..."` starts with the decimal digits of `idx`, and those digits read back as `idx`. |
| ShoppingList.RecipeLines | backend/food/views.py:224-226 | One attribution per cart recipe, in cart order, with repeats kept. |
| ShoppingList.RecipeLine | backend/food/views.py:225-226 | The attribution `f"{recipe.name} — {author_name}"` with `get_full_name()`. |
| ShoppingList.RecipeItems | backend/food/views.py:242-243 | One `- ` line per attribution, in order. |
| ShoppingList.EmptyCart | backend/food/views.py:235-243 | An empty cart gives the header, two empty lines and the `Рецепты:` heading, and nothing else. |
| ShoppingList.HeaderLine | backend/food/views.py:235-236 | The first line, `Список покупок (сформирован {date}):`, with the date a parameter. `HeadTerminated` ties it to the text the code starts with. |
| ShoppingList.ShoppingListText | backend/food/views.py:235-243 | The whole text: the document lines, each ended by a newline. `ShoppingListLayout` and `TextSplitsIntoLines` state its lines. |
| ShoppingList.FullNameNoNewline | backend/food/views.py:225 | `get_full_name()` of names without newlines has none. |
| ShoppingList.DocumentLinesFree | backend/food/views.py:235-243 | When the date, names and units hold no newline, no line of the document does. |
| ShoppingList.TextSplitsIntoLines | backend/food/views.py:235-243 | Splitting the file's text on newlines gives back exactly the document's lines, then the empty tail after the last newline. |
| ShoppingList.ShoppingListLayout | backend/food/views.py:235-243 | The text's lines, counted: the header, `""`, line i is `"{i+1}. {key}: {total}"` for each total, `""`, `Рецепты:`, `"- {name} — {author}"` for each cart recipe, then the empty tail. There are totals + cart + 5 lines. |
| ShoppingList.CapitalizedScenario | backend/food/views.py:224-233 | Worked cart: "tomato" 2 kg and "Tomato" 3 kg merge into `Tomato (kg)` 5, ahead of `Salt (g)` 5, and the attributions follow cart order. |
| ShoppingList.ScenarioTally | backend/food/views.py:233 | Adding to an existing key keeps its place and adds the amounts; a new key goes last. |
| PyStr.FindFrom | backend/food/serializers.py:19-20 | `find` returns -1 or a position at or after the start where the separator occurs. |
| PyStr.FindFromFirst | backend/food/serializers.py:19-20 | No occurrence lies between the start and the position `find` returns. |
| PyStr.JoinSplit | backend/food/serializers.py:19-20 | `sep.join(s.split(sep)) == s`. |
| PyStr.SplitPartsFree | backend/food/serializers.py:19-20 | No part of `s.split(sep)` contains `sep`. |
| PyStr.SplitFree | backend/food/serializers.py:19 | A text without the separator splits into itself alone. |
| PyStr.SplitCons | backend/food/serializers.py:19 | `(a + sep + b).split(sep) == [a] + b.split(sep)` when `sep` does not start inside `a`. |
| PyStr.SplitLastStart | backend/food/serializers.py:20 | `split(sep)[-1]` is a suffix of the text. It is the whole text when there is one part, and otherwise it starts right after an occurrence of `sep`. |
| PyStr.FreeOfChar | backend/food/serializers.py:20 | A one-character separator is absent exactly when that character is. |
| PyStr.SplitTerminated | backend/food/views.py:236-243 | Lines without newlines, each ended by `\n`, split on `\n` back into the lines and one empty tail. |
| PyStr.TerminatedConcat | backend/food/views.py:236-243 | The text of two runs of lines is the text of the first followed by that of the second. |
| PyStr.StripLeading | backend/food/views.py:225 | `lstrip()` removes exactly the leading whitespace: what remains is a suffix starting with a non-space. |
| PyStr.StripTrailing | backend/food/views.py:225 | `rstrip()` removes exactly the trailing whitespace: what remains is a prefix ending in a non-space. |
| PyStr.StripUnpadded | backend/food/views.py:225 | A text with no whitespace at either end is its own `strip()`. |
| PyStr.CapitalizeIgnoresCase | backend/food/views.py:230 | Names equal up to letter case capitalize to the same text, so they merge. |
| Decimal.NatToString | backend/food/views.py:239 | `str(n)` is at least one decimal digit, with no leading zero unless n is 0. |
| Decimal.DecimalRoundTrip | backend/food/views.py:239 | `int(str(n)) == n`. |
| Decimal.LeadingNumber | backend/food/views.py:239 | The digits of `str(n)` followed by a non-digit read back as exactly n. |
| Utf8.DecodeEncode | backend/food/views.py:245-246 | Strict UTF-8 decoding of `content.encode("utf-8")` gives the text back. |
| Utf8.DecodeEncodeChar | backend/food/views.py:246 | The one to four bytes of each scalar value decode back to it, whatever follows. |
| Utf8.EncodeConcat | backend/food/views.py:246 | Encoding distributes over concatenation. |
| Utf8.Encode | backend/food/views.py:246 | `content.encode("utf-8")`: the bytes of each character in turn. `DecodeEncode` and `EncodeConcat` state its properties. |
| Models.FullNameJoins | backend/food/views.py:225 | With both names present and unpadded, `get_full_name()` is first name, one space, last name. |
| Models.FullName | backend/food/views.py:225 | `get_full_name()`: first name, a space and last name, stripped of surrounding whitespace. `FullNameJoins` and `FullNameNoNewline` state its properties. |
| Models.RecipesOfMember | backend/food/views.py:217-219 | Each recipe the cart query yields has a cart row for the user. |
| Models.RecipesOfDistinct | backend/food/models.py:86-93 | Under the (user, recipe) constraint the cart query yields each recipe once. |
| Serializers.ToInternalValue | backend/food/serializers.py:16-22 | Any input that is not text starting with `data:image` passes unchanged, and only such input does. Otherwise the text is split on `;base64,`. It succeeds exactly when there are two parts, and fails with ValueError otherwise. On success the text is the two parts around the one marker, and neither part holds another. The file is named `temp.` plus the header's tail after its last `/`, which has no `/`, and holds the second part. |
| Serializers.ExtensionIsHeaderTail | backend/food/serializers.py:20 | The extension is the end of the header. It follows the header's last `/` when there is one, and is the whole header otherwise. |
| Serializers.DataUriRoundTrip | backend/food/serializers.py:18-21 | `data:image/<subtype>;base64,<payload>` becomes the file `temp.<subtype>` holding exactly the payload. |
| Serializers.TwoMarkersFail | backend/food/serializers.py:19 | A payload with a second `;base64,` gives three parts; the two-name unpacking raises ValueError. |
| Serializers.ImageHeaderSubtype | backend/food/serializers.py:20 | The extension of `data:image/<subtype>` is the subtype. |
| Serializers.ValidateEntry | backend/food/serializers.py:145-155 | An entry is accepted exactly when its id names an existing ingredient and its amount is at least 1. It then keeps that ingredient and amount. |
| Serializers.SetSizeDistinct | backend/food/serializers.py:183-184 | `len(set(ids)) <= len(ids)`, with equality exactly when no id repeats. |
| Serializers.ValidateIngredientsSpec | backend/food/serializers.py:173-187 | The value is accepted exactly when it is a non-empty list of pairwise different ids, and it is then returned unchanged. Otherwise the error is: not a list, the empty list, or duplicates. |
| Serializers.ValidateIngredients | backend/food/serializers.py:173-187 | The three checks of `validate_ingredients` in source order: not a list, then empty, then repeated ids. `ValidateIngredientsSpec` states exactly when each error is raised. |
| Serializers.AcceptedByValidation | backend/food/serializers.py:145-187 | Entries that passed both the field checks and `validate_ingredients` name distinct ingredients with amounts of at least 1. |
| Serializers.Validate | backend/food/serializers.py:166-171 | The data is refused exactly for an update whose submitted keys lack `ingredients`, and is otherwise returned unchanged. |
| Serializers.NewLines | backend/food/serializers.py:190-197 | One new line per entry, in order, with the entry's ingredient and amount, all belonging to the recipe. |
| Serializers.OtherLinesOf | backend/food/serializers.py:210 | After `clear()` the recipe has no line left, and every other recipe keeps its lines. |
| Serializers.OtherLines | backend/food/serializers.py:210 | `instance.ingredients.clear()`: the rows of other recipes, in order. `OtherLinesOf` and `OtherLinesValid` state what it leaves. |
| Serializers.OtherLinesValid | backend/food/serializers.py:210 | `clear()` keeps the table valid and leaves only rows that were there, none of them the recipe's. |
| Serializers.LinesOfConcat | backend/food/serializers.py:198 | A recipe's lines in two runs of rows are its lines in the first followed by those in the second. |
| Serializers.IngredientRecipeTable.constructor | backend/food/models.py:63-68 | An empty line table satisfies the amount validator and `unique_ingredient_recipe`. |
| Serializers.IngredientRecipeTable.SetIngredients | backend/food/serializers.py:189-198 | `bulk_create` appends the new lines. Afterwards the recipe's lines are exactly those, other recipes' lines are untouched, and the table stays valid. |
| Serializers.IngredientRecipeTable.Update | backend/food/serializers.py:207-213 | After `clear()` and `set_ingredients`, the recipe's lines are exactly the new ones, no old line survives, other recipes' lines are untouched and the table stays valid. |
| Serializers.NewRowsValid | backend/food/models.py:56-68 | Appending the new lines of a recipe that has none keeps amounts of at least 1 and (ingredient, recipe) pairs unique. |
| Serializers.GetRecipesAsWritten | backend/food/serializers.py:230-240 | `get_recipes` as written: a non-empty limit accepted by `isdigit()` goes to `int()`. `int()` raises ValueError unless every character is a decimal digit and there are at most 4300 of them. An answer is always a prefix of the author's recipes, and the only error is ValueError. |
| Serializers.GetRecipes | backend/food/serializers.py:230-240 | The serialized recipes are a prefix of the author's recipes, and all of them when there is no usable limit. A decimal limit `n` (leading zeros allowed, as `int` reads them) keeps exactly min(n, len) recipes. |
| Serializers.GetRecipesLimit | backend/food/serializers.py:234-236 | `recipes_limit=str(n)` keeps exactly the first min(n, len) recipes. The code as written agrees when `str(n)` has at most 4300 digits, and raises ValueError when it has more. |
| Serializers.ZeroLimitKeepsNone | backend/food/serializers.py:234-236 | `recipes_limit=0` keeps no recipe: `"0"` is a non-empty string, so it passes the truth test and cuts the list to nothing. |
| Serializers.GetRecipesAgrees | backend/food/serializers.py:234-236 | Wherever the code as written answers, it answers as the corrected version. It fails exactly for a limit that passes `isdigit()` but has a non-decimal digit or more than 4300 digits. |
| Serializers.LongLimitFails | backend/food/serializers.py:235-236 | 4301 `1`s, or 4301 `0`s, pass `isdigit()`, and the code as written raises ValueError in `int()`. |
| Serializers.DigitOnlyLimitFails | backend/food/serializers.py:235-236 | For the limits `²` and `①`, the code as written raises ValueError, while the corrected version returns all recipes. |

## Left out

- The ORM itself: queries, the transaction around a request, and database
  indexes. Tables are sequences of rows. The cart's order is taken to be the
  order of its rows.
- The clock. The date that `now().strftime("%d.%m.%Y")` gives is a parameter
  of the shopping-list functions.
- `str.capitalize` in the shopping list is the parameter `cap`, so the merge
  lemmas hold for any case function. `PyStr.Capitalize` is a concrete instance
  that maps only the ASCII Latin letters and the Cyrillic letters
  U+0400–U+045F. Every other letter (`é`, `ґ`, Greek and the rest) is left
  unchanged, where Python would change its case.
- Decimal.IsPyDigit: the characters that pass `isdigit()` but not
  `isdecimal()` are the 128 characters of numeric type Digit in Unicode 15.0,
  all of them listed in `Decimal.IsDigitOnly`. The decimal digits are only
  the ASCII `0`–`9`. The other Unicode decimal digits (Arabic-Indic `٣` and
  the like), which `isdigit()` accepts and `int()` reads, are not modelled:
  for a limit made of them the model returns every recipe, where the source
  cuts the list.
- `base64.b64decode` and Pillow's image check in `ImageField`. The model keeps
  the payload text as the file content and does not decode it. So a payload
  that is not valid base64, on which `b64decode` raises `binascii.Error` (a
  500), becomes a file in the model.
- DRF's own list handling before `validate_ingredients` (`many=True` pre-checks)
  and the PrimaryKeyRelatedField lookup beyond "the id is in the ingredient
  table".
- `super().create` and `super().update` for the recipe's own fields
  (name, text, image, cooking time). Only the ingredient lines are modelled.
- `PositiveSmallIntegerField`'s upper bound (32767) on amounts and the
  integer width of totals. Amounts and totals are unbounded integers.
- Serializers.IngredientRecipeTable.SetIngredients requires that the recipe
  has no lines yet. That holds on both code paths (a new recipe, and one just
  cleared). So the `IntegrityError` that `bulk_create` would raise on a
  repeated pair is not modelled.
- `get_object_or_404`, `self.get_object()` (the 404 paths), permissions, URL
  wiring, and the response bodies (`RecipeShortSerializer`, the subscribed-user
  serializer's fields). A response is its status code. The one part of
  a response body that can fail is modelled: `get_recipes` on the 201 path of
  `subscribe`.
- Views.SubscriptionTable.Subscribe: Django's default, no transaction around
  the request, is assumed (the settings are not part of this model). So the
  row made by `get_or_create` stays when the 201 response then fails with 500.
- Filters, the admin site, URL configuration, the short-link view and the
  ingredient loader command.
- The paginated subscriptions listing (`subscriptions`). Only `get_recipes`'s
  cut of each author's recipes is modelled.

## Findings

| source | as written | input that shows it | evidently intended | confidence | as-written member | corrected member |
|---|---|---|---|---|---|---|
| backend/food/serializers.py:234-236 | The limit is gated on `str.isdigit()`, then read with `int()`, which refuses non-decimal digits and more than 4300 digits. | `recipes_limit=²`, `recipes_limit=①` or 4301 `1`s: `isdigit()` holds, `int()` raises ValueError, and the request fails with 500. This includes a POST to `users/<id>/subscribe/?recipes_limit=²`, which answers 500 after the subscription row is made. | Accept only decimal digits (what `int` reads, e.g. `isdecimal()`), and ignore any other value as in the non-numeric case. | not executed | Serializers.GetRecipesAsWritten, Serializers.DigitOnlyLimitFails, Serializers.LongLimitFails, Views.SubscriptionTable.Subscribe | Serializers.GetRecipes, Serializers.GetRecipesAgrees |
