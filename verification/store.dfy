/**
 * The store the serializer writes through: the Tag and Ingredient tables,
 * the Recipe table with its two many-to-many relations, and the
 * serializer's operations as methods that change it in place. Each method
 * is proved equal to the function of `Reconciliation` or
 * `RecipeSerializer` that specifies it.
 */
module RecipeStore {
  import opened Wrappers
  import opened Catalog
  import Reconciliation
  import RecipeSerializer

  /**
   * The `setattr` loop of `update`: every validated attribute takes its new
   * value, every other attribute keeps its old one.
   */
  method SetAttrs(fields: map<string, Value>, validated: map<string, Value>) returns (r: map<string, Value>)
    ensures r.Keys == fields.Keys + validated.Keys
    ensures forall f :: f in validated ==> r[f] == validated[f]
    ensures forall f :: f in fields && f !in validated ==> r[f] == fields[f]
  {
    r := fields;
    var todo := validated.Keys;
    while todo != {}
      invariant todo <= validated.Keys
      invariant r.Keys == fields.Keys + (validated.Keys - todo)
      invariant forall f :: f in validated && f !in todo ==> r[f] == validated[f]
      invariant forall f :: f in fields && (f !in validated || f in todo) ==> r[f] == fields[f]
      decreases todo
    {
      var a :| a in todo;
      r := r[a := validated[a]];
      todo := todo - {a};
    }
  }

  /** A map that takes `validated`'s values and `fields`' other values is `fields` overridden by `validated`. */
  lemma OverrideIs(fields: map<string, Value>, validated: map<string, Value>, r: map<string, Value>)
    requires r.Keys == fields.Keys + validated.Keys
    requires forall f :: f in validated ==> r[f] == validated[f]
    requires forall f :: f in fields && f !in validated ==> r[f] == fields[f]
    ensures r == fields + validated
  {
  }

  /**
   * The store, updated in place. `CreateRecipe` and `UpdateRecipe` are the
   * entry points and keep `Valid()`. The other methods are the steps those two
   * run; each states its whole new state, and validity follows from the
   * function it is proved against.
   */
  class Store {
    var tags: Table
    var ingredients: Table
    var recipes: map<RecipeId, Recipe>
    var nextRecipeId: RecipeId

    /** The contents of the store as a value. */
    function State(): Db
      reads this
    {
      Db(tags, ingredients, recipes, nextRecipeId)
    }

    /** Row ids are distinct and fresh; recipe ids are below the counter. */
    predicate Valid()
      reads this
    {
      DbValid(State())
    }

    /** An empty store; ids start at 1. */
    constructor ()
      ensures Valid()
      ensures State() == Db(Table([], 1), Table([], 1), map[], 1)
    {
      tags := Table([], 1);
      ingredients := Table([], 1);
      recipes := map[];
      nextRecipeId := 1;
    }

    /**
     * `<Model>.objects.get_or_create(user=owner, name=name)` on the table of
     * kind `k`: inserts a row when none matches.
     */
    method GetOrCreate(k: Kind, owner: UserId, name: string) returns (f: Reconciliation.Fetch)
      modifies this
      ensures var g := Reconciliation.GetOrCreate(TableOf(old(State()), k), owner, name);
        TableOf(State(), k) == g.0 && f == g.1
      ensures TableOf(State(), Other(k)) == TableOf(old(State()), Other(k))
      ensures recipes == old(recipes) && nextRecipeId == old(nextRecipeId)
    {
      var t := TableOf(State(), k);
      var found := Reconciliation.Filter(t.rows, owner, name);
      if |found| == 0 {
        var row := Row(t.nextId, owner, name);
        var t' := Table(t.rows + [row], t.nextId + 1);
        if k == TagKind {
          tags := t';
        } else {
          ingredients := t';
        }
        f := Reconciliation.Fetched(row, true);
      } else if |found| == 1 {
        f := Reconciliation.Fetched(found[0], false);
      } else {
        f := Reconciliation.Failed(MultipleObjectsReturned);
      }
    }

    /** `recipe.<relation>.add(row)`: a set insertion, so adding a linked row again changes nothing. */
    method AddLink(k: Kind, rid: RecipeId, id: RowId)
      requires rid in recipes
      modifies this
      ensures recipes == old(recipes)[rid := WithLinks(old(recipes[rid]), k, LinksOf(old(recipes[rid]), k) + {id})]
      ensures tags == old(tags) && ingredients == old(ingredients) && nextRecipeId == old(nextRecipeId)
    {
      var recipe := recipes[rid];
      recipes := recipes[rid := WithLinks(recipe, k, LinksOf(recipe, k) + {id})];
    }

    /**
     * One turn of the reconciliation loop: get or create `owner`'s row called
     * `name` and, unless the lookup failed, add it to recipe `rid`'s relation.
     */
    method LinkNamed(k: Kind, rid: RecipeId, owner: UserId, name: string) returns (f: Reconciliation.Fetch)
      requires rid in recipes
      modifies this
      ensures var g := Reconciliation.GetOrCreate(TableOf(old(State()), k), owner, name);
        TableOf(State(), k) == g.0 && f == g.1
      ensures TableOf(State(), Other(k)) == TableOf(old(State()), Other(k)) && nextRecipeId == old(nextRecipeId)
      ensures f.Failed? ==> recipes == old(recipes)
      ensures f.Fetched? ==>
        recipes == old(recipes)[rid := WithLinks(old(recipes[rid]), k, LinksOf(old(recipes[rid]), k) + {f.row.id})]
    {
      f := GetOrCreate(k, owner, name);
      if f.Fetched? {
        AddLink(k, rid, f.row.id);
      }
    }

    /**
     * Turn `i` of the reconciliation loop, stated against what is left to
     * do: `goal` is the outcome of reconciling the names from `i` on, and
     * after the turn it is the outcome of reconciling from `i + 1` on, or,
     * when the lookup failed, the current state with that error.
     */
    method ReconcileTurn(k: Kind, rid: RecipeId, owner: UserId, names: seq<string>, i: nat, ghost goal: Reconciliation.Reconciled)
      returns (f: Reconciliation.Fetch)
      requires rid in recipes && i < |names|
      requires goal == Reconciliation.Reconcile(TableOf(State(), k), LinksOf(recipes[rid], k), owner, names[i..])
      modifies this
      ensures rid in recipes
      ensures f.Fetched? ==> goal == Reconciliation.Reconcile(TableOf(State(), k), LinksOf(recipes[rid], k), owner, names[i + 1..])
      ensures f.Failed? ==> goal == Reconciliation.Reconciled(TableOf(State(), k), LinksOf(recipes[rid], k), Some(f.error))
      ensures recipes == old(recipes)[rid := WithLinks(old(recipes[rid]), k, LinksOf(recipes[rid], k))]
      ensures TableOf(State(), Other(k)) == TableOf(old(State()), Other(k)) && nextRecipeId == old(nextRecipeId)
    {
      ghost var T, L := TableOf(State(), k), LinksOf(recipes[rid], k);
      Reconciliation.ReconcileFrom(T, L, owner, names, i);
      f := LinkNamed(k, rid, owner, names[i]);
      if f.Fetched? {
        WithLinksTwice(old(recipes[rid]), k, L, L + {f.row.id});
      } else {
        assert old(recipes[rid]) == WithLinks(old(recipes[rid]), k, L);
      }
    }

    /**
     * `_get_or_create_tags` / `_get_or_create_ingredients`: for each name,
     * get or create `owner`'s row of kind `k` and add it to recipe `rid`'s
     * relation. A failed lookup stops the loop and is returned.
     */
    method GetOrCreateRelated(k: Kind, rid: RecipeId, owner: UserId, names: seq<string>) returns (err: Option<Error>)
      requires rid in recipes
      modifies this
      ensures var r := Reconciliation.Reconcile(TableOf(old(State()), k), LinksOf(old(recipes[rid]), k), owner, names);
        && TableOf(State(), k) == r.table && err == r.error
        && recipes == old(recipes)[rid := WithLinks(old(recipes[rid]), k, r.links)]
      ensures TableOf(State(), Other(k)) == TableOf(old(State()), Other(k)) && nextRecipeId == old(nextRecipeId)
    {
      ghost var db0 := State();
      ghost var goal := Reconciliation.Reconcile(TableOf(db0, k), LinksOf(db0.recipes[rid], k), owner, names);
      var i := 0;
      while i < |names|
        invariant 0 <= i <= |names|
        invariant rid in recipes
        invariant goal == Reconciliation.Reconcile(TableOf(State(), k), LinksOf(recipes[rid], k), owner, names[i..])
        invariant TableOf(State(), Other(k)) == TableOf(db0, Other(k))
        invariant recipes == db0.recipes[rid := WithLinks(db0.recipes[rid], k, LinksOf(recipes[rid], k))]
        invariant nextRecipeId == db0.nextRecipeId
      {
        ghost var L := LinksOf(recipes[rid], k);
        var f := ReconcileTurn(k, rid, owner, names, i, goal);
        WithLinksTwice(db0.recipes[rid], k, L, LinksOf(recipes[rid], k));
        if f.Failed? {
          err := Some(f.error);
          return;
        }
        i := i + 1;
      }
      assert names[i..] == [];
      err := None;
    }

    /**
     * `create`: insert a recipe owned by `user` with the writable scalars of
     * the request, then reconcile its tags and ingredients (an absent list
     * counts as empty). Returns the new recipe's id.
     */
    method CreateRecipe(user: UserId, p: Payload) returns (rid: RecipeId, err: Option<Error>)
      requires Valid()
      modifies this
      ensures var w := RecipeSerializer.Create(old(State()), user, p);
        State() == w.db && err == w.error && rid == old(nextRecipeId)
      ensures Valid()
      ensures old(OwnersConsistent(State())) ==> OwnersConsistent(State())
    {
      ghost var db0 := State();
      RecipeSerializer.CreateKeepsValid(db0, user, p);
      if OwnersConsistent(db0) {
        RecipeSerializer.CreateKeepsOwners(db0, user, p);
      }
      rid := nextRecipeId;
      recipes := recipes[rid := Recipe(user, Validated(p.scalars), {}, {})];
      nextRecipeId := nextRecipeId + 1;
      ghost var db1 := State();
      err := GetOrCreateRelated(TagKind, rid, user, p.tags.GetOr([]));
      RecipeSerializer.ReconcileIntoFields(db1, TagKind, rid, user, p.tags.GetOr([]), State());
      if err.Some? {
        return;
      }
      ghost var db2 := State();
      err := GetOrCreateRelated(IngredientKind, rid, user, p.ingredients.GetOr([]));
      RecipeSerializer.ReconcileIntoFields(db2, IngredientKind, rid, user, p.ingredients.GetOr([]), State());
    }

    /** One nested key of `update`: when the list is present, clear the relation and reconcile it from the list. */
    method ReplaceRelated(k: Kind, rid: RecipeId, owner: UserId, names: Option<seq<string>>) returns (err: Option<Error>)
      requires rid in recipes
      modifies this
      ensures var w := RecipeSerializer.Replace(old(State()), k, rid, owner, names);
        State() == w.db && err == w.error
    {
      err := None;
      if names.Some? {
        recipes := recipes[rid := WithLinks(recipes[rid], k, {})];
        ghost var db1 := State();
        err := GetOrCreateRelated(k, rid, owner, names.value);
        RecipeSerializer.ReconcileIntoFields(db1, k, rid, owner, names.value, State());
      }
    }

    /**
     * `update`: for each nested key that is present, clear the relation and
     * reconcile it from the list; then write the supplied writable scalars
     * and save.
     */
    method UpdateRecipe(user: UserId, rid: RecipeId, p: Payload) returns (err: Option<Error>)
      requires Valid() && rid in recipes
      modifies this
      ensures var w := RecipeSerializer.Update(old(State()), user, rid, p);
        State() == w.db && err == w.error
      ensures Valid()
      ensures old(OwnersConsistent(State()) && recipes[rid].owner == user) ==> OwnersConsistent(State())
    {
      ghost var db0 := State();
      RecipeSerializer.UpdateKeepsValid(db0, user, rid, p);
      if db0.recipes[rid].owner == user && OwnersConsistent(db0) {
        RecipeSerializer.UpdateKeepsOwners(db0, user, rid, p);
      }
      err := ReplaceRelated(TagKind, rid, user, p.tags);
      if err.Some? {
        return;
      }
      err := ReplaceRelated(IngredientKind, rid, user, p.ingredients);
      if err.Some? {
        return;
      }
      var recipe := recipes[rid];
      var fields := SetAttrs(recipe.fields, Validated(p.scalars));
      OverrideIs(recipe.fields, Validated(p.scalars), fields);
      recipes := recipes[rid := recipe.(fields := fields)];
      err := None;
    }
  }
}
