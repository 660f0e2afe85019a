/**
 * The checks and the one table update of backend/food/serializers.py: the
 * data-URI header of `Base64ImageField`, the validation of a recipe's
 * ingredient list, the rule that an update must carry ingredients, the
 * replacement of a recipe's ingredient lines, and the `recipes_limit` cut of
 * `SubscribedUserSerializer.get_recipes`.
 */
module Serializers {
  import opened Wrappers
  import opened Models
  import PyStr
  import Decimal

  /** Why a serializer refuses its input, or the exception that escapes it. */
  datatype Error =
    | NotAList                 // "Ингредиенты должны быть списком"
    | EmptyList                // "Требуется хотя бы один ингредиент"
    | DuplicateIngredients     // "Найдены дубликаты ингредиентов"
    | IngredientsRequired      // "Это поле обязательно при обновлении рецепта."
    | UnknownIngredient(id: int)
    | AmountBelowMinimum(amount: int)
    | ValueError               // an exception no check catches: the request fails with status 500

  // ----- Base64ImageField.to_internal_value -----

  /** What reaches the image field: a text, or any other value (an uploaded file, a number). */
  datatype ImageInput = Text(s: string) | NonText(handle: nat)

  /** What the field hands on to `ImageField`: its input unchanged, or the file built from a data URI. */
  datatype ImageValue = Passed(input: ImageInput) | ContentFile(name: string, encoded: string)

  const DataImagePrefix := "data:image"
  const Base64Marker := ";base64,"

  /**
   * A text starting with `data:image` is split on `;base64,` into exactly two
   * parts (anything else fails to unpack); the extension is what follows the
   * last `/` of the first part, and the file is named `temp.` plus it.  Any
   * other input goes on unchanged.
   */
  function ToInternalValue(data: ImageInput): (r: Result<ImageValue, Error>)
    ensures !(data.Text? && PyStr.StartsWith(data.s, DataImagePrefix)) <==> r == Ok(Passed(data))
    ensures r.Ok? && r.value.ContentFile? ==>
      |r.value.name| >= 5 && r.value.name[..5] == "temp." && '/' !in r.value.name[5..]
    ensures data.Text? && PyStr.StartsWith(data.s, DataImagePrefix) ==>
      var parts := PyStr.Split(data.s, Base64Marker);
      (r.Ok? <==> |parts| == 2) &&
      (r.Err? ==> r.error == ValueError) &&
      (|parts| == 2 ==>
        data.s == parts[0] + Base64Marker + parts[1] &&
        PyStr.Free(parts[0], Base64Marker) && PyStr.Free(parts[1], Base64Marker) &&
        r == Ok(ContentFile("temp." + PyStr.LastPart(parts[0], "/"), parts[1])))
  {
    if data.Text? && PyStr.StartsWith(data.s, DataImagePrefix) then
      var parts := PyStr.Split(data.s, Base64Marker);
      if |parts| != 2 then Err(ValueError)
      else
        var ext := PyStr.LastPart(parts[0], "/");
        MarkerParts(data.s);
        ExtensionHasNoSlash(parts[0]);
        assert ("temp." + ext)[5..] == ext;
        Ok(ContentFile("temp." + ext, parts[1]))
    else Ok(Passed(data))
  }

  /** Two parts of a split on the marker: the text is them around one marker, and neither holds another. */
  lemma MarkerParts(s: string)
    requires |PyStr.Split(s, Base64Marker)| == 2
    ensures var parts := PyStr.Split(s, Base64Marker);
      s == parts[0] + Base64Marker + parts[1] &&
      PyStr.Free(parts[0], Base64Marker) && PyStr.Free(parts[1], Base64Marker)
  {
    var parts := PyStr.Split(s, Base64Marker);
    PyStr.JoinSplit(s, Base64Marker);
    assert parts[1..] == [parts[1]];
    PyStr.SplitPartsFree(s, Base64Marker, 0);
    assert PyStr.Free(parts[0], Base64Marker) && PyStr.Free(parts[1], Base64Marker);
  }

  lemma ExtensionHasNoSlash(format: string)
    ensures '/' !in PyStr.LastPart(format, "/")
  {
    var p := PyStr.Split(format, "/");
    PyStr.SplitPartsFree(format, "/", 0);
    PyStr.FreeOfChar(p[|p| - 1], '/');
  }

  /** The extension is a suffix of the header, right after its last `/` when it has one. */
  lemma ExtensionIsHeaderTail(format: string)
    ensures |PyStr.LastPart(format, "/")| <= |format|
    ensures format[|format| - |PyStr.LastPart(format, "/")|..] == PyStr.LastPart(format, "/")
    ensures |PyStr.Split(format, "/")| > 1 ==>
      |PyStr.LastPart(format, "/")| < |format| && format[|format| - |PyStr.LastPart(format, "/")| - 1] == '/'
    ensures |PyStr.Split(format, "/")| == 1 ==> PyStr.LastPart(format, "/") == format
  {
    var k := PyStr.SplitLastStart(format, "/", 0);
    if |PyStr.Split(format, "/")| > 1 {
      assert format[k - 1 + 0] == "/"[0];
    }
  }

  /** The header text the front end sends: `data:image/<subtype>;base64,<payload>`. */
  function DataUri(subtype: string, payload: string): string {
    "data:image/" + subtype + Base64Marker + payload
  }

  lemma NoSemicolonFree(s: string)
    requires ';' !in s
    ensures PyStr.Free(s, Base64Marker)
  {
    forall j | 0 <= j <= |s| ensures !PyStr.OccursAt(s, Base64Marker, j) {
      if j < |s| {
        assert s[j] in s;
        PyStr.FirstCharDiffers(s, Base64Marker, j);
      }
    }
  }

  lemma SplitOnMarker(head: string, payload: string)
    requires ';' !in head && ';' !in payload
    ensures PyStr.Split(head + Base64Marker + payload, Base64Marker) == [head, payload]
  {
    var s := head + Base64Marker + payload;
    forall j | 0 <= j < |head| ensures !PyStr.OccursAt(s, Base64Marker, j) {
      assert s[j] == head[j] && head[j] in head;
      PyStr.FirstCharDiffers(s, Base64Marker, j);
    }
    PyStr.SplitCons(head, Base64Marker, payload);
    NoSemicolonFree(payload);
    PyStr.SplitFree(payload, Base64Marker);
  }

  lemma ImageHeaderSubtype(subtype: string)
    requires '/' !in subtype
    ensures PyStr.LastPart("data:image/" + subtype, "/") == subtype
    ensures ';' !in subtype ==> ';' !in "data:image/" + subtype
  {
    var head := "data:image/" + subtype;
    assert head == DataImagePrefix + "/" + subtype;
    assert forall i :: 0 <= i < |DataImagePrefix| ==> DataImagePrefix[i] != '/' && DataImagePrefix[i] != ';';
    forall j | 0 <= j < |DataImagePrefix| ensures !PyStr.OccursAt(head, "/", j) {
      assert head[j] == DataImagePrefix[j];
      PyStr.FirstCharDiffers(head, "/", j);
    }
    PyStr.SplitCons(DataImagePrefix, "/", subtype);
    PyStr.FreeOfChar(subtype, '/');
    PyStr.SplitFree(subtype, "/");
    assert forall i :: 0 <= i < |head| ==> head[i] == if i <= |DataImagePrefix| then "data:image/"[i] else subtype[i - 11];
  }

  lemma DataUriShape(subtype: string, payload: string)
    ensures DataUri(subtype, payload) == ("data:image/" + subtype) + Base64Marker + payload
    ensures PyStr.StartsWith(DataUri(subtype, payload), DataImagePrefix)
  {
    var s := DataUri(subtype, payload);
    assert s[..10] == DataImagePrefix;
  }

  /** A well-formed data URI gives the file `temp.<subtype>` holding the payload. */
  lemma DataUriRoundTrip(subtype: string, payload: string)
    requires ';' !in subtype && '/' !in subtype && ';' !in payload
    ensures ToInternalValue(Text(DataUri(subtype, payload))) == Ok(ContentFile("temp." + subtype, payload))
  {
    DataUriShape(subtype, payload);
    ImageHeaderSubtype(subtype);
    SplitOnMarker("data:image/" + subtype, payload);
  }

  /** A payload holding a second `;base64,` does not unpack into two parts: the field raises. */
  lemma TwoMarkersFail(subtype: string, a: string, b: string)
    requires ';' !in subtype && '/' !in subtype && ';' !in a && ';' !in b
    ensures ToInternalValue(Text(DataUri(subtype, a + Base64Marker + b))) == Err(ValueError)
  {
    var head := "data:image/" + subtype;
    var rest := a + Base64Marker + b;
    DataUriShape(subtype, rest);
    ImageHeaderSubtype(subtype);
    var s := head + Base64Marker + rest;
    forall j | 0 <= j < |head| ensures !PyStr.OccursAt(s, Base64Marker, j) {
      assert s[j] == head[j] && head[j] in head;
      PyStr.FirstCharDiffers(s, Base64Marker, j);
    }
    PyStr.SplitCons(head, Base64Marker, rest);
    SplitOnMarker(a, b);
    assert |PyStr.Split(s, Base64Marker)| == 3;
  }

  // ----- validate_ingredients, validate -----

  /** One element of the submitted `ingredients` list, as parsed from JSON. */
  datatype RawEntry = RawEntry(id: int, amount: int)

  /** The same element after `CreateShortIngredientsSerializer`: its ingredient and amount. */
  datatype ValidEntry = ValidEntry(ingredient: Ingredient, amount: int)

  /** The payload of the `ingredients` field: a list, or some other JSON value. */
  datatype Payload<T> = List(items: seq<T>) | NotList

  /** The ingredient table, by primary key. */
  predicate CatalogKeyed(catalog: map<int, Ingredient>) {
    forall id :: id in catalog ==> catalog[id].id == id
  }

  /**
   * `CreateShortIngredientsSerializer`: `id` must name an existing ingredient
   * (`PrimaryKeyRelatedField`) and `amount` must be at least 1 (`min_value=1`).
   */
  function ValidateEntry(catalog: map<int, Ingredient>, raw: RawEntry): (r: Result<ValidEntry, Error>)
    requires CatalogKeyed(catalog)
    ensures r.Ok? <==> raw.id in catalog && raw.amount >= MinAmount
    ensures r.Ok? ==> r.value.ingredient.id == raw.id && r.value.amount == raw.amount && ValidAmount(r.value.amount)
  {
    if raw.id !in catalog then Err(UnknownIngredient(raw.id))
    else if raw.amount < 1 then Err(AmountBelowMinimum(raw.amount))
    else Ok(ValidEntry(catalog[raw.id], raw.amount))
  }

  /** `[item.get("id") for item in value]`: the ingredients' primary keys. */
  function Ids(items: seq<ValidEntry>): (ids: seq<nat>)
    ensures |ids| == |items|
  {
    seq(|items|, i requires 0 <= i < |items| => items[i].ingredient.id)
  }

  /** `set(ids)` */
  function ToSet(s: seq<nat>): set<nat> {
    if s == [] then {} else ToSet(s[..|s| - 1]) + {s[|s| - 1]}
  }

  predicate Distinct(s: seq<nat>) {
    forall i, j :: 0 <= i < j < |s| ==> s[i] != s[j]
  }

  lemma {:induction false} ToSetMembers(s: seq<nat>)
    ensures forall x :: x in ToSet(s) <==> x in s
  {
    if s != [] {
      ToSetMembers(s[..|s| - 1]);
      assert s == s[..|s| - 1] + [s[|s| - 1]];
    }
  }

  /** `len(set(ids)) == len(ids)` exactly when no id repeats. */
  lemma {:induction false} SetSizeDistinct(s: seq<nat>)
    ensures |ToSet(s)| <= |s|
    ensures |ToSet(s)| == |s| <==> Distinct(s)
  {
    if s != [] {
      var p, x := s[..|s| - 1], s[|s| - 1];
      SetSizeDistinct(p);
      ToSetMembers(p);
      if x in p {
        var k :| 0 <= k < |p| && p[k] == x;
        assert s[k] == s[|s| - 1];
        assert ToSet(s) == ToSet(p);
      } else {
        assert |ToSet(s)| == |ToSet(p)| + 1;
        DistinctSnoc(s, p, x);
      }
    }
  }

  /** Appending an id not met before keeps the ids distinct exactly when they were. */
  lemma DistinctSnoc(s: seq<nat>, p: seq<nat>, x: nat)
    requires s == p + [x] && x !in p
    ensures Distinct(s) <==> Distinct(p)
  {
    if Distinct(p) {
      forall i, j | 0 <= i < j < |s| ensures s[i] != s[j] {
        if j == |s| - 1 {
          assert s[i] == p[i];
        } else {
          assert s[i] == p[i] && s[j] == p[j];
        }
      }
    }
    if Distinct(s) {
      forall i, j | 0 <= i < j < |p| ensures p[i] != p[j] {
        assert p[i] == s[i] && p[j] == s[j];
      }
    }
  }

  /** `RecipeCreateUpdateSerializer.validate_ingredients`. */
  function ValidateIngredients(value: Payload<ValidEntry>): Result<seq<ValidEntry>, Error> {
    match value
    case NotList => Err(NotAList)
    case List(items) =>
      if |items| == 0 then Err(EmptyList)
      else if |Ids(items)| != |ToSet(Ids(items))| then Err(DuplicateIngredients)
      else Ok(items)
  }

  /**
   * The list is accepted exactly when it is a non-empty list whose ingredient
   * ids are pairwise different, and then it comes back unchanged; each
   * refusal names its reason.
   */
  lemma ValidateIngredientsSpec(value: Payload<ValidEntry>)
    ensures ValidateIngredients(value).Ok? <==>
      value.List? && |value.items| > 0 && Distinct(Ids(value.items))
    ensures ValidateIngredients(value).Ok? ==> ValidateIngredients(value).value == value.items
    ensures value.NotList? ==> ValidateIngredients(value) == Err(NotAList)
    ensures value == List([]) ==> ValidateIngredients(value) == Err(EmptyList)
    ensures value.List? && |value.items| > 0 && !Distinct(Ids(value.items)) ==>
      ValidateIngredients(value) == Err(DuplicateIngredients)
  {
    if value.List? {
      SetSizeDistinct(Ids(value.items));
    }
  }

  /** No two accepted entries name the same ingredient. */
  predicate DistinctIngredients(entries: seq<ValidEntry>) {
    forall i, j :: 0 <= i < j < |entries| ==> entries[i].ingredient.id != entries[j].ingredient.id
  }

  /** Accepted entries, each checked by `ValidateEntry`, name distinct ingredients with amounts of at least 1. */
  predicate AcceptedEntries(entries: seq<ValidEntry>) {
    DistinctIngredients(entries) && forall i :: 0 <= i < |entries| ==> ValidAmount(entries[i].amount)
  }

  lemma AcceptedByValidation(value: Payload<ValidEntry>)
    requires value.List? && forall i :: 0 <= i < |value.items| ==> ValidAmount(value.items[i].amount)
    requires ValidateIngredients(value).Ok?
    ensures AcceptedEntries(ValidateIngredients(value).value)
  {
    ValidateIngredientsSpec(value);
    var ids := Ids(value.items);
    forall i, j | 0 <= i < j < |value.items|
      ensures value.items[i].ingredient.id != value.items[j].ingredient.id
    {
      assert ids[i] != ids[j];
    }
  }

  /**
   * `RecipeCreateUpdateSerializer.validate`: an update (`self.instance` set)
   * whose submitted data has no `ingredients` key is refused.
   */
  function Validate<D>(isUpdate: bool, initialKeys: set<string>, data: D): (r: Result<D, Error>)
    ensures r.Err? <==> isUpdate && "ingredients" !in initialKeys
    ensures r.Err? ==> r.error == IngredientsRequired
    ensures r.Ok? ==> r.value == data
  {
    if isUpdate && "ingredients" !in initialKeys then Err(IngredientsRequired) else Ok(data)
  }

  // ----- set_ingredients, update -----

  /** The `IngredientRecipe` objects `set_ingredients` builds, one per entry, in entry order. */
  function NewLines(recipe: nat, entries: seq<ValidEntry>): (lines: seq<IngredientRecipe>)
    ensures |lines| == |entries|
    ensures forall i :: 0 <= i < |lines| ==>
      lines[i].recipe == recipe && lines[i].ingredient == entries[i].ingredient &&
      lines[i].amount == entries[i].amount
  {
    seq(|entries|, i requires 0 <= i < |entries| =>
      IngredientRecipe(entries[i].ingredient, recipe, entries[i].amount))
  }

  /** The rows of one recipe, in table order (`recipe.recipe_ingredients.all()`). */
  function LinesOf(rows: seq<IngredientRecipe>, recipe: nat): seq<IngredientRecipe> {
    if rows == [] then []
    else
      var last := rows[|rows| - 1];
      LinesOf(rows[..|rows| - 1], recipe) + (if last.recipe == recipe then [last] else [])
  }

  /** The rows of every other recipe (`instance.ingredients.clear()` deletes the rest). */
  function OtherLines(rows: seq<IngredientRecipe>, recipe: nat): seq<IngredientRecipe> {
    if rows == [] then []
    else
      var last := rows[|rows| - 1];
      OtherLines(rows[..|rows| - 1], recipe) + (if last.recipe == recipe then [] else [last])
  }

  lemma {:induction false} LinesOfConcat(a: seq<IngredientRecipe>, b: seq<IngredientRecipe>, recipe: nat)
    ensures LinesOf(a + b, recipe) == LinesOf(a, recipe) + LinesOf(b, recipe)
  {
    if b == [] {
      assert a + b == a;
    } else {
      var bp := b[..|b| - 1];
      assert (a + b)[..|a + b| - 1] == a + bp;
      LinesOfConcat(a, bp, recipe);
    }
  }

  /** After `clear()`, the recipe has no line left and every other recipe keeps its lines. */
  lemma {:induction false} OtherLinesOf(rows: seq<IngredientRecipe>, recipe: nat, other: nat)
    ensures LinesOf(OtherLines(rows, recipe), recipe) == []
    ensures other != recipe ==> LinesOf(OtherLines(rows, recipe), other) == LinesOf(rows, other)
  {
    if rows != [] {
      var p, last := rows[..|rows| - 1], rows[|rows| - 1];
      OtherLinesOf(p, recipe, other);
      assert rows == p + [last];
      if last.recipe == recipe {
        assert OtherLines(rows, recipe) == OtherLines(p, recipe);
        assert LinesOf(rows, other) == LinesOf(p, other) + (if last.recipe == other then [last] else []);
      } else {
        assert OtherLines(rows, recipe) == OtherLines(p, recipe) + [last];
        LinesOfConcat(OtherLines(p, recipe), [last], recipe);
        LinesOfConcat(OtherLines(p, recipe), [last], other);
        assert LinesOf([last], recipe) == [] by { assert [last][..0] == []; }
        assert LinesOf([last], other) == (if last.recipe == other then [last] else []) by {
          assert [last][..0] == [];
        }
      }
    }
  }

  /** The lines of one recipe are exactly the new lines when they are all of that recipe. */
  lemma {:induction false} LinesOfOwn(lines: seq<IngredientRecipe>, recipe: nat, other: nat)
    requires forall i :: 0 <= i < |lines| ==> lines[i].recipe == recipe
    ensures LinesOf(lines, recipe) == lines
    ensures other != recipe ==> LinesOf(lines, other) == []
  {
    if lines != [] {
      LinesOfOwn(lines[..|lines| - 1], recipe, other);
    }
  }

  lemma {:induction false} OtherLinesValid(rows: seq<IngredientRecipe>, recipe: nat)
    requires ValidIngredientRecipeRows(rows)
    ensures ValidIngredientRecipeRows(OtherLines(rows, recipe))
    ensures forall x :: x in OtherLines(rows, recipe) ==> x in rows && x.recipe != recipe
  {
    if rows != [] {
      var p, last := rows[..|rows| - 1], rows[|rows| - 1];
      assert ValidIngredientRecipeRows(p) by {
        assert forall i :: 0 <= i < |p| ==> p[i] == rows[i];
      }
      OtherLinesValid(p, recipe);
      var o := OtherLines(p, recipe);
      if last.recipe != recipe {
        forall i | 0 <= i < |o| ensures o[i].ingredient.id != last.ingredient.id || o[i].recipe != last.recipe {
          assert o[i] in p;
          var k :| 0 <= k < |p| && p[k] == o[i];
          assert rows[k] == p[k];
        }
        assert OtherLines(rows, recipe) == o + [last];
      }
    }
  }

  /** The ingredient-line table. */
  class IngredientRecipeTable {
    var rows: seq<IngredientRecipe>

    predicate Valid()
      reads this
    {
      ValidIngredientRecipeRows(rows)
    }

    constructor ()
      ensures rows == [] && Valid()
    {
      rows := [];
    }

    /**
     * `set_ingredients`: one new row per accepted entry, bulk-inserted.
     * The recipe has no rows yet (a new recipe, or one just cleared).
     */
    method SetIngredients(recipe: nat, entries: seq<ValidEntry>)
      requires Valid() && LinesOf(rows, recipe) == [] && AcceptedEntries(entries)
      modifies this
      ensures Valid()
      ensures rows == old(rows) + NewLines(recipe, entries)
      ensures LinesOf(rows, recipe) == NewLines(recipe, entries)
      ensures forall other :: other != recipe ==> LinesOf(rows, other) == LinesOf(old(rows), other)
    {
      var created := NewLines(recipe, entries);
      NewRowsValid(rows, recipe, entries);
      forall other | other != recipe ensures LinesOf(rows + created, other) == LinesOf(rows, other) {
        LinesOfConcat(rows, created, other);
        LinesOfOwn(created, recipe, other);
      }
      LinesOfConcat(rows, created, recipe);
      LinesOfOwn(created, recipe, recipe);
      rows := rows + created;
    }

    /**
     * `update` for the ingredient lines: `instance.ingredients.clear()`, then
     * `set_ingredients`.  No old line of the recipe survives; the other
     * recipes' lines are untouched.
     */
    method Update(recipe: nat, entries: seq<ValidEntry>)
      requires Valid() && AcceptedEntries(entries)
      modifies this
      ensures Valid()
      ensures LinesOf(rows, recipe) == NewLines(recipe, entries)
      ensures forall other :: other != recipe ==> LinesOf(rows, other) == LinesOf(old(rows), other)
    {
      OtherLinesValid(rows, recipe);
      forall other | other != recipe ensures LinesOf(OtherLines(rows, recipe), other) == LinesOf(rows, other) {
        OtherLinesOf(rows, recipe, other);
      }
      OtherLinesOf(rows, recipe, recipe);
      rows := OtherLines(rows, recipe);
      SetIngredients(recipe, entries);
    }
  }

  /** Appending the new rows of a recipe that has none keeps the table valid. */
  lemma NewRowsValid(rows: seq<IngredientRecipe>, recipe: nat, entries: seq<ValidEntry>)
    requires ValidIngredientRecipeRows(rows) && LinesOf(rows, recipe) == [] && AcceptedEntries(entries)
    ensures ValidIngredientRecipeRows(rows + NewLines(recipe, entries))
  {
    var created := NewLines(recipe, entries);
    var all := rows + created;
    LinesOfEmpty(rows, recipe);
    forall i, j | 0 <= i < j < |all|
      ensures all[i].ingredient.id != all[j].ingredient.id || all[i].recipe != all[j].recipe
    {
      if j < |rows| {
        assert all[i] == rows[i] && all[j] == rows[j];
      } else if i < |rows| {
        assert all[i] == rows[i] && all[j] == created[j - |rows|];
      } else {
        assert all[i] == created[i - |rows|] && all[j] == created[j - |rows|];
      }
    }
    forall i | 0 <= i < |all| ensures ValidAmount(all[i].amount) {
      if i < |rows| { assert all[i] == rows[i]; } else { assert all[i] == created[i - |rows|]; }
    }
  }

  /** A recipe with no lines has no row in the table. */
  lemma {:induction false} LinesOfEmpty(rows: seq<IngredientRecipe>, recipe: nat)
    requires LinesOf(rows, recipe) == []
    ensures forall i :: 0 <= i < |rows| ==> rows[i].recipe != recipe
  {
    if rows != [] {
      var p, last := rows[..|rows| - 1], rows[|rows| - 1];
      assert LinesOf(p, recipe) == [] && last.recipe != recipe;
      LinesOfEmpty(p, recipe);
      assert forall i :: 0 <= i < |p| ==> rows[i] == p[i];
    }
  }

  // ----- SubscribedUserSerializer.get_recipes -----

  /**
   * `get_recipes` as written: a `recipes_limit` that is non-empty and passes
   * `str.isdigit` cuts the list to its first `int(recipes_limit)` recipes;
   * `int` refuses the digits that are not decimal digits, and strings of
   * more than `MaxStrDigits` digits, and raises.
   */
  function GetRecipesAsWritten<T>(recipes: seq<T>, limit: Option<string>): (r: Result<seq<T>, Error>)
    ensures r.Ok? ==> |r.value| <= |recipes| && r.value == recipes[..|r.value|]
    ensures r.Err? ==> r.error == ValueError
  {
    if limit.Some? && |limit.value| > 0 && Decimal.IsDigitString(limit.value) then
      if Decimal.AllDecimal(limit.value) && |limit.value| <= MaxStrDigits then
        var n := Decimal.DecimalValue(limit.value);
        Ok(if n < |recipes| then recipes[..n] else recipes)
      else Err(ValueError)
    else Ok(recipes)
  }

  /**
   * Python's default bound on the digits `int()` converts from a string
   * (`sys.get_int_max_str_digits()`, since Python 3.11): a longer string raises
   * ValueError, leading zeros included.
   */
  const MaxStrDigits := 4300

  /** The limits that pass the `isdigit` gate and then make `int(recipes_limit)` raise. */
  predicate LimitRaises(limit: Option<string>) {
    limit.Some? && Decimal.IsDigitString(limit.value) &&
    (!Decimal.AllDecimal(limit.value) || |limit.value| > MaxStrDigits)
  }

  /** The limit the code evidently means: decimal digits only, as `int` reads them. */
  predicate IsLimit(limit: Option<string>) {
    limit.Some? && |limit.value| > 0 && Decimal.AllDecimal(limit.value)
  }

  /** `get_recipes` with the limit gated on decimal digits: never fails; the first `n` recipes, or all. */
  function GetRecipes<T>(recipes: seq<T>, limit: Option<string>): (r: seq<T>)
    ensures |r| <= |recipes| && r == recipes[..|r|]
    ensures !IsLimit(limit) ==> r == recipes
    ensures IsLimit(limit) ==>
      |r| == if Decimal.DecimalValue(limit.value) < |recipes| then Decimal.DecimalValue(limit.value) else |recipes|
  {
    if IsLimit(limit) then
      var n := Decimal.DecimalValue(limit.value);
      if n < |recipes| then recipes[..n] else recipes
    else recipes
  }

  /** A limit written as `str(n)` keeps exactly the first `min(n, len)` recipes. */
  lemma GetRecipesLimit<T>(recipes: seq<T>, n: nat)
    ensures |GetRecipes(recipes, Some(Decimal.NatToString(n)))| == if n < |recipes| then n else |recipes|
    ensures |Decimal.NatToString(n)| <= MaxStrDigits ==>
      GetRecipesAsWritten(recipes, Some(Decimal.NatToString(n))) == Ok(GetRecipes(recipes, Some(Decimal.NatToString(n))))
    ensures |Decimal.NatToString(n)| > MaxStrDigits ==>
      GetRecipesAsWritten(recipes, Some(Decimal.NatToString(n))) == Err(ValueError)
  {
    Decimal.DecimalRoundTrip(n);
    var s := Decimal.NatToString(n);
    assert Decimal.IsDigitString(s) by {
      assert forall i :: 0 <= i < |s| ==> Decimal.IsPyDigit(s[i]);
    }
  }

  /** `recipes_limit=0` keeps no recipe. */
  lemma ZeroLimitKeepsNone<T>(recipes: seq<T>)
    ensures GetRecipes(recipes, Some("0")) == []
    ensures GetRecipesAsWritten(recipes, Some("0")) == Ok([])
  {
    GetRecipesLimit(recipes, 0);
  }

  /** Wherever the code as written answers, the corrected version answers the same. */
  lemma GetRecipesAgrees<T>(recipes: seq<T>, limit: Option<string>)
    ensures GetRecipesAsWritten(recipes, limit).Ok? ==> GetRecipesAsWritten(recipes, limit).value == GetRecipes(recipes, limit)
    ensures GetRecipesAsWritten(recipes, limit).Err? <==> LimitRaises(limit)
  {
    if limit.Some? && |limit.value| > 0 && Decimal.AllDecimal(limit.value) {
      var s := limit.value;
      assert Decimal.IsDigitString(s) by {
        assert forall i :: 0 <= i < |s| ==> Decimal.IsPyDigit(s[i]);
      }
    }
  }

  /** `recipes_limit=²` and `recipes_limit=①` pass `isdigit`, and `int` then raises. */
  lemma DigitOnlyLimitFails<T>(recipes: seq<T>)
    ensures GetRecipesAsWritten(recipes, Some("\U{B2}")) == Err(ValueError)
    ensures GetRecipes(recipes, Some("\U{B2}")) == recipes
    ensures GetRecipesAsWritten(recipes, Some("\U{2460}")) == Err(ValueError)
    ensures GetRecipes(recipes, Some("\U{2460}")) == recipes
  {
    assert !Decimal.IsDecimalChar('\U{B2}') && !Decimal.IsDecimalChar('\U{2460}');
  }

  /** A limit of 4301 decimal digits passes `isdigit`, and `int` then raises. */
  lemma LongLimitFails<T>(recipes: seq<T>)
    ensures GetRecipesAsWritten(recipes, Some(seq(MaxStrDigits + 1, _ => '1'))) == Err(ValueError)
    ensures LimitRaises(Some(seq(MaxStrDigits + 1, _ => '0')))
  {
    var ones, zeros := seq(MaxStrDigits + 1, _ => '1'), seq(MaxStrDigits + 1, _ => '0');
    assert Decimal.IsDigitString(ones) by {
      assert forall i :: 0 <= i < |ones| ==> Decimal.IsPyDigit(ones[i]);
    }
    assert Decimal.IsDigitString(zeros) by {
      assert forall i :: 0 <= i < |zeros| ==> Decimal.IsPyDigit(zeros[i]);
    }
  }
}
