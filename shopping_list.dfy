/**
 * What `RecipeViewSet.download_shopping_cart` (backend/food/views.py)
 * computes, as functions of the cart, the date and the case function used
 * on ingredient names, with the properties the implementation promises.
 *
 * Every ingredient line of every cart recipe gives an Entry whose key is the
 * text `"{capitalized name} ({unit})"`; the entries are summed per key in a
 * dictionary, which keeps its keys in the order they were first met.  The
 * document is a header line, an empty line, one numbered line per key, an
 * empty line, the recipes heading and one `"- {recipe} — {author}"` line per
 * cart recipe, every line ending in a newline.  Nothing is sorted and
 * nothing is de-duplicated but the keys.
 */
module ShoppingList {
  import opened Models
  import PyStr
  import Decimal
  import Seqs

  /** An item of the `ingredients` dictionary, or one ingredient line on its way into it. */
  datatype Entry = Entry(key: string, amount: int)

  /** `f"{name.capitalize()} ({unit})"`, with `cap` standing for `str.capitalize`. */
  function MergeKey(cap: string -> string, ing: Ingredient): string {
    cap(ing.name) + " (" + ing.measurementUnit + ")"
  }

  /** The entries of one recipe's ingredient lines, in line order. */
  function RecipeEntries(r: Recipe, cap: string -> string): (es: seq<Entry>)
    ensures |es| == |r.recipeIngredients|
  {
    var lines := r.recipeIngredients;
    seq(|lines|, j requires 0 <= j < |lines| => Entry(MergeKey(cap, lines[j].ingredient), lines[j].amount))
  }

  lemma RecipeEntryAt(r: Recipe, cap: string -> string, j: nat)
    requires j < |r.recipeIngredients|
    ensures RecipeEntries(r, cap)[j]
      == Entry(cap(r.recipeIngredients[j].ingredient.name) + " (" + r.recipeIngredients[j].ingredient.measurementUnit + ")",
               r.recipeIngredients[j].amount)
  {
  }

  /** The entries of every ingredient line of the cart, recipe after recipe. */
  function CartEntries(cart: seq<Recipe>, cap: string -> string): seq<Entry> {
    if cart == [] then []
    else CartEntries(cart[..|cart| - 1], cap) + RecipeEntries(cart[|cart| - 1], cap)
  }

  predicate HasKey(d: seq<Entry>, k: string) {
    exists i :: 0 <= i < |d| && d[i].key == k
  }

  predicate UniqueKeys(d: seq<Entry>) {
    forall i, j :: 0 <= i < j < |d| ==> d[i].key != d[j].key
  }

  /** The position of the first entry with key `k`, or -1 when there is none. */
  function KeyIndex(d: seq<Entry>, k: string): (i: int)
    ensures -1 <= i < |d|
    ensures i >= 0 ==> d[i].key == k && forall j :: 0 <= j < i ==> d[j].key != k
    ensures i < 0 <==> !HasKey(d, k)
  {
    if |d| == 0 then -1
    else if d[0].key == k then 0
    else
      var r := KeyIndex(d[1..], k);
      assert forall j :: 1 <= j < |d| ==> d[j] == d[1..][j - 1];
      if r < 0 then -1 else r + 1
  }

  /** `d[e.key] = d.get(e.key, 0) + e.amount`: add to an existing key in place, or append a new key. */
  function Upsert(d: seq<Entry>, e: Entry): seq<Entry> {
    var i := KeyIndex(d, e.key);
    if i < 0 then d + [e] else d[i := Entry(e.key, d[i].amount + e.amount)]
  }

  /** The dictionary after all of `es` has been added to an empty one, in order. */
  function Tally(es: seq<Entry>): seq<Entry> {
    if es == [] then [] else Upsert(Tally(es[..|es| - 1]), es[|es| - 1])
  }

  /** The sum of the amounts of the entries with key `k` (an independent reference for Tally). */
  function SumFor(es: seq<Entry>, k: string): int {
    if es == [] then 0
    else SumFor(es[..|es| - 1], k) + (if es[|es| - 1].key == k then es[|es| - 1].amount else 0)
  }

  /** The merged totals of a cart. */
  function ShoppingTotals(cart: seq<Recipe>, cap: string -> string): seq<Entry> {
    Tally(CartEntries(cart, cap))
  }

  // ----- the merge -----

  lemma HasKeySnoc(d: seq<Entry>, e: Entry, k: string)
    ensures HasKey(d + [e], k) <==> HasKey(d, k) || e.key == k
  {
    if HasKey(d, k) {
      var i :| 0 <= i < |d| && d[i].key == k;
      assert (d + [e])[i] == d[i];
    }
    if HasKey(d + [e], k) && e.key != k {
      var i :| 0 <= i < |d + [e]| && (d + [e])[i].key == k;
      assert i < |d| && d[i] == (d + [e])[i];
    }
    assert (d + [e])[|d|] == e;
  }

  /** The keys of an Upsert are the old keys plus the new key, in place. */
  lemma UpsertKeys(d: seq<Entry>, e: Entry)
    ensures var u := Upsert(d, e);
      (!HasKey(d, e.key) ==> u == d + [e]) &&
      (HasKey(d, e.key) ==> |u| == |d| && forall i :: 0 <= i < |d| ==> u[i].key == d[i].key)
  {
  }

  /** Keys of the tally occur once each. */
  lemma {:induction false} TallyUniqueKeys(es: seq<Entry>)
    ensures UniqueKeys(Tally(es))
  {
    if es != [] {
      var p, e := es[..|es| - 1], es[|es| - 1];
      TallyUniqueKeys(p);
      var t := Tally(p);
      UpsertKeys(t, e);
      if !HasKey(t, e.key) {
        assert forall i :: 0 <= i < |t| ==> t[i].key != e.key;
      }
    }
  }

  /** A key is in the tally exactly when some entry carries it. */
  lemma {:induction false} TallyKeys(es: seq<Entry>, k: string)
    ensures HasKey(Tally(es), k) <==> HasKey(es, k)
  {
    if es != [] {
      var p, e := es[..|es| - 1], es[|es| - 1];
      TallyKeys(p, k);
      TallyKeys(p, e.key);
      var t := Tally(p);
      UpsertKeys(t, e);
      HasKeySnoc(t, e, k);
      HasKeySnoc(p, e, k);
      assert es == p + [e];
      if HasKey(t, e.key) && HasKey(Upsert(t, e), k) {
        var i :| 0 <= i < |Upsert(t, e)| && Upsert(t, e)[i].key == k;
        assert t[i].key == k;
      }
      if HasKey(t, e.key) && HasKey(t, k) {
        var i :| 0 <= i < |t| && t[i].key == k;
        assert Upsert(t, e)[i].key == k;
      }
    }
  }

  lemma {:induction false} SumForAbsent(es: seq<Entry>, k: string)
    requires !HasKey(es, k)
    ensures SumFor(es, k) == 0
  {
    if es != [] {
      var p := es[..|es| - 1];
      assert !HasKey(p, k) by {
        forall i | 0 <= i < |p| ensures p[i].key != k {
          assert p[i] == es[i];
        }
      }
      SumForAbsent(p, k);
      assert es[|es| - 1].key != k;
    }
  }

  /** Each total is the sum of the amounts of all entries with its key. */
  lemma {:induction false} TallySums(es: seq<Entry>)
    ensures forall i :: 0 <= i < |Tally(es)| ==> Tally(es)[i].amount == SumFor(es, Tally(es)[i].key)
  {
    if es != [] {
      var p, e := es[..|es| - 1], es[|es| - 1];
      TallySums(p);
      TallyUniqueKeys(p);
      var t := Tally(p);
      var u := Upsert(t, e);
      assert u == Tally(es);
      var m := KeyIndex(t, e.key);
      if m < 0 {
        TallyKeys(p, e.key);
        SumForAbsent(p, e.key);
        forall i | 0 <= i < |u| ensures u[i].amount == SumFor(es, u[i].key) {
          if i < |t| {
            assert u[i] == t[i];
          }
        }
      } else {
        forall i | 0 <= i < |u| ensures u[i].amount == SumFor(es, u[i].key) {
          if i != m {
            assert u[i] == t[i] && t[i].key != e.key;
            assert SumFor(es, t[i].key) == SumFor(p, t[i].key);
          } else {
            assert SumFor(es, e.key) == SumFor(p, e.key) + e.amount;
          }
        }
      }
    }
  }

  lemma KeyIndexSnoc(d: seq<Entry>, e: Entry, k: string)
    ensures HasKey(d, k) ==> KeyIndex(d + [e], k) == KeyIndex(d, k)
    ensures !HasKey(d, k) && e.key == k ==> KeyIndex(d + [e], k) == |d|
  {
    HasKeySnoc(d, e, k);
    assert forall j :: 0 <= j < |d| ==> (d + [e])[j] == d[j];
    assert (d + [e])[|d|] == e;
  }

  /** Every key of `t` occurs in `es`, and `t` lists them in the order of their first occurrence there. */
  predicate FirstMetOrder(es: seq<Entry>, t: seq<Entry>) {
    (forall i :: 0 <= i < |t| ==> 0 <= KeyIndex(es, t[i].key)) &&
    (forall i, j :: 0 <= i < j < |t| ==> KeyIndex(es, t[i].key) < KeyIndex(es, t[j].key))
  }

  /** The tally lists its keys in the order in which each was first met. */
  lemma {:induction false} TallyFirstOccurrenceOrder(es: seq<Entry>)
    ensures FirstMetOrder(es, Tally(es))
  {
    if es != [] {
      var p, e := es[..|es| - 1], es[|es| - 1];
      assert es == p + [e];
      TallyFirstOccurrenceOrder(p);
      var t := Tally(p);
      var u := Upsert(t, e);
      assert u == Tally(es);
      UpsertKeys(t, e);
      forall i | 0 <= i < |t| ensures HasKey(p, t[i].key) && KeyIndex(es, t[i].key) == KeyIndex(p, t[i].key) {
        TallyKeys(p, t[i].key);
        KeyIndexSnoc(p, e, t[i].key);
      }
      if !HasKey(t, e.key) {
        TallyKeys(p, e.key);
        KeyIndexSnoc(p, e, e.key);
        OrderWithNewKey(es, p, e, t, u);
      } else {
        OrderWithOldKeys(es, p, t, u);
      }
    } else {
      assert Tally(es) == [];
    }
  }

  /** A key met for the first time goes after all the keys met before it. */
  lemma OrderWithNewKey(es: seq<Entry>, p: seq<Entry>, e: Entry, t: seq<Entry>, u: seq<Entry>)
    requires u == t + [e] && KeyIndex(es, e.key) == |p|
    requires forall i :: 0 <= i < |t| ==> KeyIndex(es, t[i].key) == KeyIndex(p, t[i].key)
    requires forall i :: 0 <= i < |t| ==> KeyIndex(p, t[i].key) < |p|
    requires FirstMetOrder(p, t)
    ensures FirstMetOrder(es, u)
  {
    forall i | 0 <= i < |u| ensures 0 <= KeyIndex(es, u[i].key) {
      if i < |t| {
        assert u[i] == t[i];
      } else {
        assert u[i] == e;
      }
    }
    forall i, j | 0 <= i < j < |u| ensures KeyIndex(es, u[i].key) < KeyIndex(es, u[j].key) {
      assert u[i] == t[i];
      if j < |t| {
        assert u[j] == t[j];
      } else {
        assert u[j] == e;
      }
    }
  }

  /** Adding to a key already listed keeps the listed keys and their order. */
  lemma OrderWithOldKeys(es: seq<Entry>, p: seq<Entry>, t: seq<Entry>, u: seq<Entry>)
    requires |u| == |t| && forall i :: 0 <= i < |t| ==> u[i].key == t[i].key
    requires forall i :: 0 <= i < |t| ==> KeyIndex(es, t[i].key) == KeyIndex(p, t[i].key)
    requires FirstMetOrder(p, t)
    ensures FirstMetOrder(es, u)
  {
    forall i | 0 <= i < |u| ensures 0 <= KeyIndex(es, u[i].key) {
      assert u[i].key == t[i].key;
    }
    forall i, j | 0 <= i < j < |u| ensures KeyIndex(es, u[i].key) < KeyIndex(es, u[j].key) {
      assert u[i].key == t[i].key && u[j].key == t[j].key;
    }
  }

  /** With amounts of at least 1 (the model's validator), every total is at least 1. */
  lemma {:induction false} TallyPositive(es: seq<Entry>)
    requires forall i :: 0 <= i < |es| ==> ValidAmount(es[i].amount)
    ensures forall i :: 0 <= i < |Tally(es)| ==> ValidAmount(Tally(es)[i].amount)
  {
    if es != [] {
      var p, e := es[..|es| - 1], es[|es| - 1];
      assert forall i :: 0 <= i < |p| ==> p[i] == es[i];
      TallyPositive(p);
      var t := Tally(p);
      var m := KeyIndex(t, e.key);
      assert ValidAmount(e.amount);
      var u := Upsert(t, e);
      assert u == Tally(es);
      forall i | 0 <= i < |u| ensures ValidAmount(u[i].amount) {
        if m < 0 {
          assert u == t + [e];
          if i < |t| { assert u[i] == t[i]; } else { assert u[i] == e; }
        } else {
          assert u == t[m := Entry(e.key, t[m].amount + e.amount)];
          assert ValidAmount(t[i].amount);
        }
      }
    }
  }

  lemma {:induction false} CartEntriesValid(cart: seq<Recipe>, cap: string -> string)
    requires forall r :: r in cart ==> ValidRecipe(r)
    ensures forall i :: 0 <= i < |CartEntries(cart, cap)| ==> ValidAmount(CartEntries(cart, cap)[i].amount)
  {
    if cart != [] {
      var p, last := cart[..|cart| - 1], cart[|cart| - 1];
      assert forall r :: r in p ==> r in cart;
      CartEntriesValid(p, cap);
      assert last in cart;
      var before: seq<Entry>, more: seq<Entry> := CartEntries(p, cap), RecipeEntries(last, cap);
      assert CartEntries(cart, cap) == before + more;
      assert ValidRecipe(last);
      forall i | 0 <= i < |before + more| ensures ValidAmount((before + more)[i].amount) {
        if i >= |before| {
          assert ValidAmount(last.recipeIngredients[i - |before|].amount);
          assert (before + more)[i] == more[i - |before|];
          assert more[i - |before|].amount == last.recipeIngredients[i - |before|].amount;
        } else {
          assert (before + more)[i] == before[i];
        }
      }
    }
  }

  /** For a cart of stored recipes every aggregated total is at least 1. */
  lemma CartTotalsPositive(cart: seq<Recipe>, cap: string -> string)
    requires forall r :: r in cart ==> ValidRecipe(r)
    ensures forall i :: 0 <= i < |ShoppingTotals(cart, cap)| ==> ShoppingTotals(cart, cap)[i].amount >= 1
  {
    CartEntriesValid(cart, cap);
    TallyPositive(CartEntries(cart, cap));
  }

  /** Same name, different units: different keys, so never merged. */
  lemma MergeKeyKeepsUnitsApart(cap: string -> string, a: Ingredient, b: Ingredient)
    requires a.name == b.name && a.measurementUnit != b.measurementUnit
    ensures MergeKey(cap, a) != MergeKey(cap, b)
  {
    var pre := cap(a.name) + " (";
    var ka, kb := MergeKey(cap, a), MergeKey(cap, b);
    assert ka == pre + a.measurementUnit + ")" && kb == pre + b.measurementUnit + ")";
    assert a.measurementUnit == ka[|pre|..|ka| - 1];
    assert b.measurementUnit == kb[|pre|..|kb| - 1];
  }

  /** Where an entry of the cart comes from: one ingredient line of one cart recipe. */
  lemma {:induction false} CartEntryOrigin(cart: seq<Recipe>, cap: string -> string, i: int)
    requires 0 <= i < |CartEntries(cart, cap)|
    ensures exists r, j ::
      r in cart && 0 <= j < |r.recipeIngredients| &&
      CartEntries(cart, cap)[i] == Entry(MergeKey(cap, r.recipeIngredients[j].ingredient), r.recipeIngredients[j].amount)
  {
    var p, last := cart[..|cart| - 1], cart[|cart| - 1];
    var before, more := CartEntries(p, cap), RecipeEntries(last, cap);
    assert CartEntries(cart, cap) == before + more;
    if i < |before| {
      CartEntryOrigin(p, cap, i);
      var r, j :| r in p && 0 <= j < |r.recipeIngredients| &&
        before[i] == Entry(MergeKey(cap, r.recipeIngredients[j].ingredient), r.recipeIngredients[j].amount);
      assert r in cart;
    } else {
      var j := i - |before|;
      assert CartEntries(cart, cap)[i] == more[j];
      assert last in cart;
    }
  }

  lemma CartEntriesSnoc(cart: seq<Recipe>, r: Recipe, cap: string -> string)
    ensures CartEntries(cart + [r], cap) == CartEntries(cart, cap) + RecipeEntries(r, cap)
  {
    assert (cart + [r])[..|cart|] == cart;
  }

  /** Concatenating carts concatenates their entries. */
  lemma {:induction false} CartEntriesConcat(a: seq<Recipe>, b: seq<Recipe>, cap: string -> string)
    ensures CartEntries(a + b, cap) == CartEntries(a, cap) + CartEntries(b, cap)
  {
    if b == [] {
      assert a + b == a;
    } else {
      var bp := b[..|b| - 1];
      Seqs.ConcatDropLast(a, b);
      CartEntriesConcat(a, bp, cap);
      Seqs.Assoc(CartEntries(a, cap), CartEntries(bp, cap), RecipeEntries(b[|b| - 1], cap));
    }
  }

  lemma {:induction false} SumForConcat(a: seq<Entry>, b: seq<Entry>, k: string)
    ensures SumFor(a + b, k) == SumFor(a, k) + SumFor(b, k)
  {
    if b == [] {
      assert a + b == a;
    } else {
      var bp := b[..|b| - 1];
      Seqs.ConcatDropLast(a, b);
      SumForConcat(a, bp, k);
    }
  }

  /** `ingredients.get(k, 0)` */
  function TotalOf(t: seq<Entry>, k: string): int {
    var i := KeyIndex(t, k);
    if i < 0 then 0 else t[i].amount
  }

  /** Looking a key up in the tally gives the sum of its amounts, and 0 for a key never met. */
  lemma TallyLookup(es: seq<Entry>, k: string)
    ensures TotalOf(Tally(es), k) == SumFor(es, k)
  {
    TallyKeys(es, k);
    TallySums(es);
    if !HasKey(es, k) {
      SumForAbsent(es, k);
    }
  }

  /**
   * Reordering the cart changes neither which keys are listed nor any total
   * (though it can change the order of the lines).
   */
  lemma MergeOrderIndependent(a: seq<Recipe>, b: seq<Recipe>, cap: string -> string, k: string)
    ensures HasKey(ShoppingTotals(a + b, cap), k) <==> HasKey(ShoppingTotals(b + a, cap), k)
    ensures TotalOf(ShoppingTotals(a + b, cap), k) == TotalOf(ShoppingTotals(b + a, cap), k)
  {
    var ea, eb := CartEntries(a, cap), CartEntries(b, cap);
    CartEntriesConcat(a, b, cap);
    CartEntriesConcat(b, a, cap);
    TallyLookup(ea + eb, k);
    TallyLookup(eb + ea, k);
    SumForConcat(ea, eb, k);
    SumForConcat(eb, ea, k);
    TallyKeys(ea + eb, k);
    TallyKeys(eb + ea, k);
    HasKeyConcat(ea, eb, k);
    HasKeyConcat(eb, ea, k);
  }

  /**
   * Any reordering of the cart (the same recipes, each as often) changes
   * neither which keys are listed nor any total.
   */
  lemma MergePermutationIndependent(a: seq<Recipe>, b: seq<Recipe>, cap: string -> string, k: string)
    requires multiset(a) == multiset(b)
    ensures HasKey(ShoppingTotals(a, cap), k) <==> HasKey(ShoppingTotals(b, cap), k)
    ensures TotalOf(ShoppingTotals(a, cap), k) == TotalOf(ShoppingTotals(b, cap), k)
  {
    PermutedSums(a, b, cap, k);
    PermutedKeys(a, b, cap, k);
    TallyLookup(CartEntries(a, cap), k);
    TallyLookup(CartEntries(b, cap), k);
    TallyKeys(CartEntries(a, cap), k);
    TallyKeys(CartEntries(b, cap), k);
  }

  /** The entries of a cart, split around its recipe at index `i`. */
  lemma CartEntriesAround(b: seq<Recipe>, i: nat, cap: string -> string)
    requires i < |b|
    ensures CartEntries(b, cap) == CartEntries(b[..i], cap) + RecipeEntries(b[i], cap) + CartEntries(b[i + 1..], cap)
    ensures CartEntries(b[..i] + b[i + 1..], cap) == CartEntries(b[..i], cap) + CartEntries(b[i + 1..], cap)
  {
    Seqs.SplitAround(b, i);
    CartEntriesConcat(b[..i] + [b[i]], b[i + 1..], cap);
    CartEntriesSnoc(b[..i], b[i], cap);
    CartEntriesConcat(b[..i], b[i + 1..], cap);
  }

  lemma {:induction false} PermutedSums(a: seq<Recipe>, b: seq<Recipe>, cap: string -> string, k: string)
    requires multiset(a) == multiset(b)
    ensures SumFor(CartEntries(a, cap), k) == SumFor(CartEntries(b, cap), k)
    decreases |a|
  {
    if a == [] {
      assert |b| == |multiset(b)| == 0;
    } else {
      var ap, r := a[..|a| - 1], a[|a| - 1];
      Seqs.DropLastMultiset(a);
      assert r in multiset(b);
      var i :| 0 <= i < |b| && b[i] == r;
      var bp := b[..i] + b[i + 1..];
      Seqs.SplitAround(b, i);
      PermutedSums(ap, bp, cap, k);
      CartEntriesAround(b, i, cap);
      var e1, e2, er := CartEntries(b[..i], cap), CartEntries(b[i + 1..], cap), RecipeEntries(r, cap);
      SumForConcat(e1 + er, e2, k);
      SumForConcat(e1, er, k);
      SumForConcat(e1, e2, k);
      SumForConcat(CartEntries(ap, cap), er, k);
    }
  }

  lemma {:induction false} PermutedKeys(a: seq<Recipe>, b: seq<Recipe>, cap: string -> string, k: string)
    requires multiset(a) == multiset(b)
    ensures HasKey(CartEntries(a, cap), k) <==> HasKey(CartEntries(b, cap), k)
    decreases |a|
  {
    if a == [] {
      assert |b| == |multiset(b)| == 0;
    } else {
      var ap, r := a[..|a| - 1], a[|a| - 1];
      Seqs.DropLastMultiset(a);
      assert r in multiset(b);
      var i :| 0 <= i < |b| && b[i] == r;
      var bp := b[..i] + b[i + 1..];
      Seqs.SplitAround(b, i);
      PermutedKeys(ap, bp, cap, k);
      CartEntriesAround(b, i, cap);
      var e1, e2, er := CartEntries(b[..i], cap), CartEntries(b[i + 1..], cap), RecipeEntries(r, cap);
      HasKeyConcat(e1 + er, e2, k);
      HasKeyConcat(e1, er, k);
      HasKeyConcat(e1, e2, k);
      HasKeyConcat(CartEntries(ap, cap), er, k);
    }
  }

  lemma HasKeyConcat(a: seq<Entry>, b: seq<Entry>, k: string)
    ensures HasKey(a + b, k) <==> HasKey(a, k) || HasKey(b, k)
  {
    if HasKey(a, k) {
      var i :| 0 <= i < |a| && a[i].key == k;
      assert (a + b)[i] == a[i];
    }
    if HasKey(b, k) {
      var i :| 0 <= i < |b| && b[i].key == k;
      assert (a + b)[|a| + i] == b[i];
    }
    if HasKey(a + b, k) {
      var i :| 0 <= i < |a + b| && (a + b)[i].key == k;
      if i < |a| { assert a[i] == (a + b)[i]; } else { assert b[i - |a|] == (a + b)[i]; }
    }
  }

  // ----- the document -----

  const RecipesHeading := "Рецепты:"

  /** The first line, with the generation date `now().strftime("%d.%m.%Y")` passed in. */
  function HeaderLine(date: string): string {
    "Список покупок (сформирован " + date + "):"
  }

  /** `f"{idx}. {name}: {amount}"` */
  function ItemLine(idx: nat, e: Entry): string {
    Decimal.NatToString(idx) + ". " + e.key + ": " + Decimal.IntToString(e.amount)
  }

  /** `enumerate(ingredients.items(), start=1)`: the totals numbered from 1. */
  function NumberedLines(t: seq<Entry>): (lines: seq<string>)
    ensures |lines| == |t|
  {
    seq(|t|, i requires 0 <= i < |t| => ItemLine(i + 1, t[i]))
  }

  /** `f'{recipe.name} — {author_name}'` */
  function RecipeLine(r: Recipe): string {
    r.name + " — " + FullName(r.author)
  }

  /** `recipe_list`: one attribution per cart recipe, in cart order, repeats kept. */
  function RecipeLines(cart: seq<Recipe>): (lines: seq<string>)
    ensures |lines| == |cart|
  {
    seq(|cart|, i requires 0 <= i < |cart| => RecipeLine(cart[i]))
  }

  /** Adding one more entry to the dictionary is one more step of the tally. */
  lemma TallyStep(done: seq<Entry>, es: seq<Entry>, j: nat)
    requires j < |es|
    ensures Tally(done + es[..j + 1]) == Upsert(Tally(done + es[..j]), es[j])
  {
    Seqs.PrefixSnoc(done, es, j);
    var q := done + es[..j] + [es[j]];
    assert q[..|q| - 1] == done + es[..j];
  }

  /** One more cart recipe: its entries and its attribution come last. */
  lemma CartPrefixStep(cart: seq<Recipe>, i: nat, cap: string -> string)
    requires i < |cart|
    ensures CartEntries(cart[..i + 1], cap) == CartEntries(cart[..i], cap) + RecipeEntries(cart[i], cap)
    ensures RecipeLines(cart[..i + 1]) == RecipeLines(cart[..i]) + [RecipeLine(cart[i])]
  {
    Seqs.TakeSnoc(cart, i);
    CartEntriesSnoc(cart[..i], cart[i], cap);
    RecipeLinesSnoc(cart[..i], cart[i]);
  }

  lemma RecipeLinesSnoc(cart: seq<Recipe>, r: Recipe)
    ensures RecipeLines(cart + [r]) == RecipeLines(cart) + [RecipeLine(r)]
  {
  }

  /** `f"- {recipe}"` for every attribution. */
  function RecipeItems(recipeList: seq<string>): (items: seq<string>)
    ensures |items| == |recipeList|
  {
    seq(|recipeList|, i requires 0 <= i < |recipeList| => "- " + recipeList[i])
  }

  /** The text before the first total: the header line and an empty line. */
  lemma HeadTerminated(date: string)
    ensures PyStr.Terminated([HeaderLine(date), ""]) == "Список покупок (сформирован " + date + "):\n\n"
  {
    assert PyStr.Terminated([HeaderLine(date), ""][1..]) == "\n" + PyStr.Terminated([]);
  }

  /** The text between the totals and the attributions: an empty line and the heading. */
  lemma HeadingTerminated()
    ensures PyStr.Terminated(["", RecipesHeading]) == "\nРецепты:\n"
  {
    assert ["", RecipesHeading][1..] == [RecipesHeading] && [RecipesHeading][1..] == [];
    assert PyStr.Terminated([RecipesHeading]) == RecipesHeading + "\n" + PyStr.Terminated([]);
  }

  /** The lines of the shopping list, without their newlines. */
  function DocumentLines(cart: seq<Recipe>, date: string, cap: string -> string): seq<string> {
    [HeaderLine(date), ""] + NumberedLines(ShoppingTotals(cart, cap)) + ["", RecipesHeading]
      + RecipeItems(RecipeLines(cart))
  }

  /** `content`: every line of the document followed by a newline. */
  function ShoppingListText(cart: seq<Recipe>, date: string, cap: string -> string): string {
    PyStr.Terminated(DocumentLines(cart, date, cap))
  }

  predicate NoNewline(s: string) {
    '\n' !in s
  }

  /** No newline hides in the date, the names or the units that the document prints. */
  predicate Printable(cart: seq<Recipe>, date: string, cap: string -> string) {
    NoNewline(date) &&
    (forall r :: r in cart ==>
      NoNewline(r.name) && NoNewline(r.author.firstName) && NoNewline(r.author.lastName)) &&
    (forall r, j :: r in cart && 0 <= j < |r.recipeIngredients| ==>
      NoNewline(cap(r.recipeIngredients[j].ingredient.name)) &&
      NoNewline(r.recipeIngredients[j].ingredient.measurementUnit))
  }

  lemma DecimalNoNewline(s: string)
    requires Decimal.AllDecimal(s)
    ensures NoNewline(s)
  {
  }

  lemma EmptyCart(date: string, cap: string -> string)
    ensures ShoppingListText([], date, cap) == HeaderLine(date) + "\n\n\n" + RecipesHeading + "\n"
  {
    assert CartEntries([], cap) == [];
    var lines := DocumentLines([], date, cap);
    assert lines == [HeaderLine(date), "", "", RecipesHeading];
    assert lines[1..] == ["", "", RecipesHeading] && lines[2..] == ["", RecipesHeading];
    assert lines[3..] == [RecipesHeading] && lines[4..] == [];
    assert PyStr.Terminated(lines[3..]) == RecipesHeading + "\n";
    assert PyStr.Terminated(lines[2..]) == "\n" + RecipesHeading + "\n";
    assert PyStr.Terminated(lines[1..]) == "\n\n" + RecipesHeading + "\n";
  }

  lemma NoNewlineSlice(s: string, i: int, j: int)
    requires NoNewline(s) && 0 <= i <= j <= |s|
    ensures NoNewline(s[i..j])
  {
    assert forall c :: c in s[i..j] ==> c in s;
  }

  lemma FullNameNoNewline(u: User)
    requires NoNewline(u.firstName) && NoNewline(u.lastName)
    ensures NoNewline(FullName(u))
  {
    var s := u.firstName + " " + u.lastName;
    var l := PyStr.StripLeading(s);
    NoNewlineSlice(s, |s| - |l|, |s|);
    NoNewlineSlice(l, 0, |PyStr.StripTrailing(l)|);
  }

  lemma ItemLineNoNewline(idx: nat, e: Entry)
    requires NoNewline(e.key)
    ensures NoNewline(ItemLine(idx, e))
  {
    DecimalNoNewline(Decimal.NatToString(idx));
    if e.amount < 0 {
      DecimalNoNewline(Decimal.NatToString(-e.amount));
    } else {
      DecimalNoNewline(Decimal.NatToString(e.amount));
    }
  }

  /** Every key of a printable cart's totals is free of newlines. */
  lemma TotalsNoNewline(cart: seq<Recipe>, date: string, cap: string -> string, i: int)
    requires Printable(cart, date, cap)
    requires 0 <= i < |ShoppingTotals(cart, cap)|
    ensures NoNewline(ShoppingTotals(cart, cap)[i].key)
  {
    var es := CartEntries(cart, cap);
    var k := Tally(es)[i].key;
    TallyKeys(es, k);
    var n :| 0 <= n < |es| && es[n].key == k;
    CartEntryOrigin(cart, cap, n);
    var r, j :| r in cart && 0 <= j < |r.recipeIngredients| &&
      es[n] == Entry(MergeKey(cap, r.recipeIngredients[j].ingredient), r.recipeIngredients[j].amount);
    var ing := r.recipeIngredients[j].ingredient;
    assert NoNewline(cap(ing.name)) && NoNewline(ing.measurementUnit);
    MergeKeyNoNewline(cap, ing);
  }

  lemma MergeKeyNoNewline(cap: string -> string, ing: Ingredient)
    requires NoNewline(cap(ing.name)) && NoNewline(ing.measurementUnit)
    ensures NoNewline(MergeKey(cap, ing))
  {
    var a, b := cap(ing.name), ing.measurementUnit;
    assert forall c :: c in MergeKey(cap, ing) ==> c in a || c in " (" || c in b || c in ")";
  }

  lemma HeaderNoNewline(date: string)
    requires NoNewline(date)
    ensures NoNewline(HeaderLine(date)) && NoNewline(RecipesHeading)
  {
    var pre, post := "Список покупок (сформирован ", "):";
    assert forall i :: 0 <= i < |pre| ==> pre[i] != '\n';
    assert forall i :: 0 <= i < |post| ==> post[i] != '\n';
    assert forall i :: 0 <= i < |RecipesHeading| ==> RecipesHeading[i] != '\n';
  }

  predicate LinesFree(lines: seq<string>) {
    forall k :: 0 <= k < |lines| ==> NoNewline(lines[k])
  }

  lemma LinesFreeConcat(a: seq<string>, b: seq<string>)
    requires LinesFree(a) && LinesFree(b)
    ensures LinesFree(a + b)
  {
    forall k | 0 <= k < |a + b| ensures NoNewline((a + b)[k]) {
      if k < |a| { assert (a + b)[k] == a[k]; } else { assert (a + b)[k] == b[k - |a|]; }
    }
  }

  lemma NumberedLinesFree(cart: seq<Recipe>, date: string, cap: string -> string)
    requires Printable(cart, date, cap)
    ensures LinesFree(NumberedLines(ShoppingTotals(cart, cap)))
  {
    var t := ShoppingTotals(cart, cap);
    forall i | 0 <= i < |t| ensures NoNewline(NumberedLines(t)[i]) {
      TotalsNoNewline(cart, date, cap, i);
      ItemLineNoNewline(i + 1, t[i]);
      assert NumberedLines(t)[i] == ItemLine(i + 1, t[i]);
    }
  }

  lemma RecipeItemsFree(cart: seq<Recipe>, date: string, cap: string -> string)
    requires Printable(cart, date, cap)
    ensures LinesFree(RecipeItems(RecipeLines(cart)))
  {
    forall j | 0 <= j < |cart| ensures NoNewline(RecipeItems(RecipeLines(cart))[j]) {
      assert cart[j] in cart;
      RecipeItemAt(cart, j);
      RecipeItemNoNewline(cart[j]);
    }
  }

  lemma RecipeItemNoNewline(r: Recipe)
    requires NoNewline(r.name) && NoNewline(r.author.firstName) && NoNewline(r.author.lastName)
    ensures NoNewline("- " + RecipeLine(r))
  {
    FullNameNoNewline(r.author);
    assert forall c :: c in "- " + RecipeLine(r) ==> c in "- " || c in r.name || c in " — " || c in FullName(r.author);
  }

  lemma DocumentLinesFree(cart: seq<Recipe>, date: string, cap: string -> string)
    requires Printable(cart, date, cap)
    ensures LinesFree(DocumentLines(cart, date, cap))
  {
    HeaderNoNewline(date);
    NumberedLinesFree(cart, date, cap);
    RecipeItemsFree(cart, date, cap);
    var head, mid := [HeaderLine(date), ""], ["", RecipesHeading];
    assert LinesFree(head) && LinesFree(mid);
    var nums, items := NumberedLines(ShoppingTotals(cart, cap)), RecipeItems(RecipeLines(cart));
    LinesFreeConcat(head, nums);
    LinesFreeConcat(head + nums, mid);
    LinesFreeConcat(head + nums + mid, items);
  }

  /** The text splits on newlines back into the document's lines (and the empty tail after the last newline). */
  lemma TextSplitsIntoLines(cart: seq<Recipe>, date: string, cap: string -> string)
    requires Printable(cart, date, cap)
    ensures PyStr.Split(ShoppingListText(cart, date, cap), "\n") == DocumentLines(cart, date, cap) + [""]
  {
    DocumentLinesFree(cart, date, cap);
    PyStr.SplitTerminated(DocumentLines(cart, date, cap));
  }

  /**
   * The lines of the text: the header, an empty line, the totals numbered from
   * 1 in first-met order, an empty line, the recipes heading, one attribution
   * per cart recipe in cart order, and the empty tail after the last newline.
   */
  lemma ShoppingListLayout(cart: seq<Recipe>, date: string, cap: string -> string, lines: seq<string>)
    requires Printable(cart, date, cap)
    requires lines == PyStr.Split(ShoppingListText(cart, date, cap), "\n")
    ensures |lines| == |ShoppingTotals(cart, cap)| + |cart| + 5
    ensures lines[0] == HeaderLine(date) && lines[1] == ""
    ensures forall i :: 0 <= i < |ShoppingTotals(cart, cap)| ==>
      lines[2 + i] == ItemLine(i + 1, ShoppingTotals(cart, cap)[i])
    ensures lines[|ShoppingTotals(cart, cap)| + 2] == ""
    ensures lines[|ShoppingTotals(cart, cap)| + 3] == RecipesHeading
    ensures forall j :: 0 <= j < |cart| ==>
      lines[|ShoppingTotals(cart, cap)| + 4 + j] == "- " + RecipeLine(cart[j])
    ensures lines[|ShoppingTotals(cart, cap)| + |cart| + 4] == ""
  {
    TextSplitsIntoLines(cart, date, cap);
    DocumentLayout(cart, date, cap, lines);
    DocumentItems(cart, date, cap, lines);
    DocumentAttributions(cart, date, cap, lines);
  }

  lemma DocumentLayout(cart: seq<Recipe>, date: string, cap: string -> string, lines: seq<string>)
    requires lines == DocumentLines(cart, date, cap) + [""]
    ensures |lines| == |ShoppingTotals(cart, cap)| + |cart| + 5
    ensures lines[0] == HeaderLine(date) && lines[1] == ""
    ensures lines[|ShoppingTotals(cart, cap)| + 2] == ""
    ensures lines[|ShoppingTotals(cart, cap)| + 3] == RecipesHeading
    ensures lines[|ShoppingTotals(cart, cap)| + |cart| + 4] == ""
  {
    var t := ShoppingTotals(cart, cap);
    LinesLayout(HeaderLine(date), NumberedLines(t), RecipeItems(RecipeLines(cart)), lines);
  }

  lemma DocumentItems(cart: seq<Recipe>, date: string, cap: string -> string, lines: seq<string>)
    requires lines == DocumentLines(cart, date, cap) + [""]
    ensures forall i :: 0 <= i < |ShoppingTotals(cart, cap)| ==>
      lines[2 + i] == ItemLine(i + 1, ShoppingTotals(cart, cap)[i])
  {
    var t := ShoppingTotals(cart, cap);
    LinesLayout(HeaderLine(date), NumberedLines(t), RecipeItems(RecipeLines(cart)), lines);
  }

  lemma DocumentAttributions(cart: seq<Recipe>, date: string, cap: string -> string, lines: seq<string>)
    requires lines == DocumentLines(cart, date, cap) + [""]
    ensures forall j :: 0 <= j < |cart| ==>
      lines[|ShoppingTotals(cart, cap)| + 4 + j] == "- " + RecipeLine(cart[j])
  {
    var t := ShoppingTotals(cart, cap);
    var items := RecipeItems(RecipeLines(cart));
    LinesLayout(HeaderLine(date), NumberedLines(t), items, lines);
    forall j | 0 <= j < |cart| ensures lines[|t| + 4 + j] == "- " + RecipeLine(cart[j]) {
      RecipeItemAt(cart, j);
    }
  }

  lemma RecipeItemAt(cart: seq<Recipe>, j: int)
    requires 0 <= j < |cart|
    ensures RecipeItems(RecipeLines(cart))[j] == "- " + RecipeLine(cart[j])
  {
  }

  lemma LinesLayout(header: string, nums: seq<string>, items: seq<string>, lines: seq<string>)
    requires lines == [header, ""] + nums + ["", RecipesHeading] + items + [""]
    ensures |lines| == |nums| + |items| + 5 && lines[0] == header && lines[1] == ""
    ensures forall i :: 0 <= i < |nums| ==> lines[2 + i] == nums[i]
    ensures lines[|nums| + 2] == "" && lines[|nums| + 3] == RecipesHeading
    ensures forall j :: 0 <= j < |items| ==> lines[|nums| + 4 + j] == items[j]
    ensures lines[|nums| + |items| + 4] == ""
  {
  }

  /** Each numbered line starts with its position, counting from 1. */
  lemma ItemLinesNumbered(t: seq<Entry>)
    ensures forall i :: 0 <= i < |t| ==>
      Decimal.DecimalValue(Decimal.LeadingDigits(NumberedLines(t)[i])) == i + 1
  {
    forall i | 0 <= i < |t| ensures Decimal.DecimalValue(Decimal.LeadingDigits(NumberedLines(t)[i])) == i + 1 {
      ItemLineLeading(i + 1, t[i]);
    }
  }

  lemma ItemLineLeading(idx: nat, e: Entry)
    ensures Decimal.DecimalValue(Decimal.LeadingDigits(ItemLine(idx, e))) == idx
  {
    var tail := ". " + e.key + ": " + Decimal.IntToString(e.amount);
    Seqs.HeadApart(Decimal.NatToString(idx), ". ", e.key, ": ", Decimal.IntToString(e.amount));
    Decimal.LeadingNumber(idx, tail);
  }

  /** The keys of the listed totals are pairwise different. */
  lemma KeysListedOnce(cart: seq<Recipe>, cap: string -> string)
    ensures forall i, j :: 0 <= i < j < |ShoppingTotals(cart, cap)| ==>
      ShoppingTotals(cart, cap)[i].key != ShoppingTotals(cart, cap)[j].key
  {
    TallyUniqueKeys(CartEntries(cart, cap));
  }

  // ----- worked examples with `str.capitalize` -----

  const Ann := User(1, "Ann", "Lee")
  const Bo := User(2, "Bo", "Kim")
  const TomatoKg := Ingredient(1, "tomato", "kg")
  const SaltG := Ingredient(2, "salt", "g")
  const CapitalTomatoKg := Ingredient(3, "Tomato", "kg")
  const RecipeA := Recipe(10, Ann, "A", "", 1, [IngredientRecipe(TomatoKg, 10, 2), IngredientRecipe(SaltG, 10, 5)])
  const RecipeB := Recipe(11, Bo, "B", "", 1, [IngredientRecipe(CapitalTomatoKg, 11, 3)])

  /**
   * A cart of two recipes: "tomato" and "Tomato" in kg merge into one total,
   * "salt" stays apart, keys keep first-met order and the attributions keep
   * cart order.
   */
  lemma CapitalizedScenario()
    ensures ShoppingTotals([RecipeA, RecipeB], PyStr.Capitalize) == [Entry("Tomato (kg)", 5), Entry("Salt (g)", 5)]
    ensures RecipeLines([RecipeA, RecipeB]) == ["A — Ann Lee", "B — Bo Kim"]
  {
    ScenarioEntries();
    var tk, sk := "Tomato (kg)", "Salt (g)";
    assert tk != sk by { assert tk[0] != sk[0]; }
    ScenarioTally(tk, sk);
    ScenarioLines();
  }

  lemma ScenarioLines()
    ensures RecipeLines([RecipeA, RecipeB]) == ["A — Ann Lee", "B — Bo Kim"]
  {
    FullNameJoins(Ann);
    FullNameJoins(Bo);
    var rl := RecipeLines([RecipeA, RecipeB]);
    assert rl[0] == "A — Ann Lee" && rl[1] == "B — Bo Kim";
  }

  lemma ScenarioEntries()
    ensures CartEntries([RecipeA, RecipeB], PyStr.Capitalize)
      == [Entry("Tomato (kg)", 2), Entry("Salt (g)", 5), Entry("Tomato (kg)", 3)]
  {
    var tk, sk := "Tomato (kg)", "Salt (g)";
    ScenarioRecipeA();
    ScenarioRecipeB();
    var ea, eb := RecipeEntries(RecipeA, PyStr.Capitalize), RecipeEntries(RecipeB, PyStr.Capitalize);
    assert [RecipeA, RecipeB][..1] == [RecipeA] && [RecipeA][..0] == [];
    assert CartEntries([RecipeA], PyStr.Capitalize) == ea;
  }

  lemma ScenarioRecipeA()
    ensures RecipeEntries(RecipeA, PyStr.Capitalize) == [Entry("Tomato (kg)", 2), Entry("Salt (g)", 5)]
  {
    TomatoKey(TomatoKg);
    assert MergeKey(PyStr.Capitalize, SaltG) == "Salt (g)" by {
      assert PyStr.LowerAll("alt") == "alt";
    }
    var ea := RecipeEntries(RecipeA, PyStr.Capitalize);
    assert ea[0] == Entry("Tomato (kg)", 2) && ea[1] == Entry("Salt (g)", 5);
  }

  lemma ScenarioRecipeB()
    ensures RecipeEntries(RecipeB, PyStr.Capitalize) == [Entry("Tomato (kg)", 3)]
  {
    TomatoKey(CapitalTomatoKg);
    var eb := RecipeEntries(RecipeB, PyStr.Capitalize);
    assert eb[0] == Entry("Tomato (kg)", 3);
  }

  lemma TomatoKey(ing: Ingredient)
    requires ing == TomatoKg || ing == CapitalTomatoKg
    ensures MergeKey(PyStr.Capitalize, ing) == "Tomato (kg)"
  {
    assert PyStr.LowerAll("omato") == "omato";
  }

  lemma ScenarioTally(tk: string, sk: string)
    requires tk != sk
    ensures Tally([Entry(tk, 2), Entry(sk, 5), Entry(tk, 3)]) == [Entry(tk, 5), Entry(sk, 5)]
  {
    var es := [Entry(tk, 2), Entry(sk, 5), Entry(tk, 3)];
    assert es[..2] == [Entry(tk, 2), Entry(sk, 5)] && es[..1] == [Entry(tk, 2)] && es[..0] == [];
    assert Tally(es[..1]) == [Entry(tk, 2)];
    assert Tally(es[..2]) == [Entry(tk, 2), Entry(sk, 5)];
    assert KeyIndex([Entry(tk, 2), Entry(sk, 5)], tk) == 0;
  }

  /**
   * The key is the rendered text, not the (name, unit) pair: a name that
   * itself ends in a parenthesised unit can meet another ingredient's key.
   */
  lemma KeysCanCollide()
    ensures MergeKey(PyStr.Capitalize, Ingredient(4, "Salt (g)", "kg"))
         == MergeKey(PyStr.Capitalize, Ingredient(5, "Salt", "g) (kg"))
  {
    assert PyStr.LowerAll("alt (g)") == "alt (g)";
    assert PyStr.LowerAll("alt") == "alt";
  }
}
