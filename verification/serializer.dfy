/**
 * `RecipeSerializer.create` and `RecipeSerializer.update` as functions of
 * the store: what a recipe write leaves in the Tag, Ingredient and Recipe
 * tables, and the properties of those writes.
 */
module RecipeSerializer {
  import opened Wrappers
  import opened Catalog
  import opened Reconciliation

  /** The store after a write, and the error that interrupted it, if any. */
  datatype Written = Written(db: Db, error: Option<Error>)

  /**
   * Reconcile `names` into relation `k` of recipe `rid`, looking rows up and
   * creating them on behalf of `owner`, the requesting user.
   */
  function ReconcileInto(db: Db, k: Kind, rid: RecipeId, owner: UserId, names: seq<string>): (w: Written)
    requires rid in db.recipes
    ensures w.db.recipes.Keys == db.recipes.Keys && w.db.nextRecipeId == db.nextRecipeId
    ensures forall x :: x in db.recipes && x != rid ==> w.db.recipes[x] == db.recipes[x]
    ensures TableOf(w.db, Other(k)) == TableOf(db, Other(k))
    ensures w.db.recipes[rid].owner == db.recipes[rid].owner
    ensures w.db.recipes[rid].fields == db.recipes[rid].fields
    ensures LinksOf(w.db.recipes[rid], Other(k)) == LinksOf(db.recipes[rid], Other(k))
    ensures names == [] ==> w == Written(db, None)
  {
    var recipe := db.recipes[rid];
    var r := Reconcile(TableOf(db, k), LinksOf(recipe, k), owner, names);
    if names == [] then
      assert WithLinks(recipe, k, LinksOf(recipe, k)) == recipe;
      assert WithTable(db, k, TableOf(db, k)) == db;
      Written(db, None)
    else
      Written(WithTable(db, k, r.table).(recipes := db.recipes[rid := WithLinks(recipe, k, r.links)]), r.error)
  }

  /** A store described field by field is the one `ReconcileInto` leaves. */
  lemma ReconcileIntoFields(db: Db, k: Kind, rid: RecipeId, owner: UserId, names: seq<string>, d: Db)
    requires rid in db.recipes
    requires var r := Reconcile(TableOf(db, k), LinksOf(db.recipes[rid], k), owner, names);
      && TableOf(d, k) == r.table && TableOf(d, Other(k)) == TableOf(db, Other(k))
      && d.recipes == db.recipes[rid := WithLinks(db.recipes[rid], k, r.links)]
      && d.nextRecipeId == db.nextRecipeId
    ensures d == ReconcileInto(db, k, rid, owner, names).db
  {
    if names == [] {
      assert WithLinks(db.recipes[rid], k, LinksOf(db.recipes[rid], k)) == db.recipes[rid];
    }
  }

  /** `instance.<relation>.clear()`: recipe `rid` loses every link of kind `k`. */
  function ClearLinks(db: Db, k: Kind, rid: RecipeId): (d: Db)
    requires rid in db.recipes
    ensures d.recipes.Keys == db.recipes.Keys && LinksOf(d.recipes[rid], k) == {}
    ensures d.nextRecipeId == db.nextRecipeId
    ensures forall x :: x in db.recipes && x != rid ==> d.recipes[x] == db.recipes[x]
    ensures LinksOf(d.recipes[rid], Other(k)) == LinksOf(db.recipes[rid], Other(k))
    ensures d.recipes[rid].owner == db.recipes[rid].owner && d.recipes[rid].fields == db.recipes[rid].fields
    ensures d.tags == db.tags && d.ingredients == db.ingredients
  {
    db.(recipes := db.recipes[rid := WithLinks(db.recipes[rid], k, {})])
  }

  /** One nested key of `update`: if present, clear the relation and reconcile it from the list. */
  function Replace(db: Db, k: Kind, rid: RecipeId, owner: UserId, names: Option<seq<string>>): (w: Written)
    requires rid in db.recipes
  {
    match names
    case None => Written(db, None)
    case Some(ns) => ReconcileInto(ClearLinks(db, k, rid), k, rid, owner, ns)
  }

  /**
   * `create`: pop both nested lists (absent means empty), insert the recipe
   * with the remaining scalars and the requesting user as owner, then
   * reconcile tags and then ingredients. The new recipe's id is
   * `db.nextRecipeId`.
   */
  function Create(db: Db, user: UserId, p: Payload): (w: Written)
  {
    var rid := db.nextRecipeId;
    var db1 := db.(recipes := db.recipes[rid := Recipe(user, Validated(p.scalars), {}, {})], nextRecipeId := rid + 1);
    var w1 := ReconcileInto(db1, TagKind, rid, user, p.tags.GetOr([]));
    if w1.error.Some? then w1
    else ReconcileInto(w1.db, IngredientKind, rid, user, p.ingredients.GetOr([]))
  }

  /**
   * `update`: replace the tag relation if its key is present, then the
   * ingredient relation if its key is present, then overwrite the supplied
   * scalars and save. An error stops the write where it occurred.
   */
  function Update(db: Db, user: UserId, rid: RecipeId, p: Payload): (w: Written)
    requires rid in db.recipes
  {
    var w1 := Replace(db, TagKind, rid, user, p.tags);
    if w1.error.Some? then w1
    else
      var w2 := Replace(w1.db, IngredientKind, rid, user, p.ingredients);
      if w2.error.Some? then w2
      else
        var r := w2.db.recipes[rid];
        Written(w2.db.(recipes := w2.db.recipes[rid := r.(fields := r.fields + Validated(p.scalars))]), None)
  }

  // ---------------------------------------------------------------------
  // Create

  /**
   * The created recipe belongs to the requesting user, holds exactly the
   * writable scalars of the request, takes the next id, and no other recipe
   * changes.
   */
  lemma CreateNewRecipe(db: Db, user: UserId, p: Payload)
    requires DbValid(db)
    ensures var w := Create(db, user, p); var rid := db.nextRecipeId;
      && rid !in db.recipes
      && w.db.recipes.Keys == db.recipes.Keys + {rid}
      && w.db.nextRecipeId == rid + 1
      && w.db.recipes[rid].owner == user
      && w.db.recipes[rid].fields == Validated(p.scalars)
      && (forall x :: x in db.recipes ==> w.db.recipes[x] == db.recipes[x])
  {
  }

  /** Without `tags` or `ingredients` keys the recipe has no links and no row is created. */
  lemma CreateWithoutNested(db: Db, user: UserId, p: Payload)
    requires p.tags == None && p.ingredients == None
    ensures var w := Create(db, user, p); var rid := db.nextRecipeId;
      && w.error == None
      && w.db.tags == db.tags && w.db.ingredients == db.ingredients
      && w.db.recipes[rid] == Recipe(user, Validated(p.scalars), {}, {})
  {
  }

  /**
   * `create` succeeds exactly when no listed tag name and no listed
   * ingredient name already has two rows of the user, and it keeps a table
   * with at most one row per (owner, name) that way.
   */
  lemma CreateSucceeds(db: Db, user: UserId, p: Payload)
    ensures var w := Create(db, user, p);
      && (w.error == None <==>
            NoneDuplicated(db.tags.rows, user, p.tags.GetOr([])) && NoneDuplicated(db.ingredients.rows, user, p.ingredients.GetOr([])))
      && (Unique(db.tags.rows) ==> Unique(w.db.tags.rows))
      && (Unique(db.ingredients.rows) ==> Unique(w.db.ingredients.rows))
  {
    var rid := db.nextRecipeId;
    var db1 := db.(recipes := db.recipes[rid := Recipe(user, Validated(p.scalars), {}, {})], nextRecipeId := rid + 1);
    ReconcileSucceeds(db1.tags, {}, user, p.tags.GetOr([]));
    ReconcileKeepsUnique(db1.tags, {}, user, p.tags.GetOr([]));
    var w1 := ReconcileInto(db1, TagKind, rid, user, p.tags.GetOr([]));
    ReconcileSucceeds(w1.db.ingredients, {}, user, p.ingredients.GetOr([]));
    ReconcileKeepsUnique(w1.db.ingredients, {}, user, p.ingredients.GetOr([]));
  }

  /** A successful `create` links the recipe to exactly the user's rows named in each list. */
  lemma CreateLinksExact(db: Db, user: UserId, p: Payload)
    ensures var w := Create(db, user, p); var rid := db.nextRecipeId;
      w.error == None ==>
        && w.db.recipes[rid].tags == IdsNamed(w.db.tags, user, p.tags.GetOr([]))
        && w.db.recipes[rid].ingredients == IdsNamed(w.db.ingredients, user, p.ingredients.GetOr([]))
  {
    var rid := db.nextRecipeId;
    var db1 := db.(recipes := db.recipes[rid := Recipe(user, Validated(p.scalars), {}, {})], nextRecipeId := rid + 1);
    ReconcileLinksExact(db1.tags, {}, user, p.tags.GetOr([]));
    var w1 := ReconcileInto(db1, TagKind, rid, user, p.tags.GetOr([]));
    ReconcileLinksExact(w1.db.ingredients, {}, user, p.ingredients.GetOr([]));
  }

  // ---------------------------------------------------------------------
  // Update

  /**
   * `update` succeeds exactly when no name of a present list already has
   * two rows of the user, and it keeps a table with at most one row per
   * (owner, name) that way.
   */
  lemma UpdateSucceeds(db: Db, user: UserId, rid: RecipeId, p: Payload)
    requires rid in db.recipes
    ensures var w := Update(db, user, rid, p);
      && (w.error == None <==>
            NoneDuplicated(db.tags.rows, user, p.tags.GetOr([])) && NoneDuplicated(db.ingredients.rows, user, p.ingredients.GetOr([])))
      && (Unique(db.tags.rows) ==> Unique(w.db.tags.rows))
      && (Unique(db.ingredients.rows) ==> Unique(w.db.ingredients.rows))
  {
    if p.tags.Some? {
      ReconcileSucceeds(db.tags, {}, user, p.tags.value);
      ReconcileKeepsUnique(db.tags, {}, user, p.tags.value);
    }
    var w1 := Replace(db, TagKind, rid, user, p.tags);
    if p.ingredients.Some? {
      ReconcileSucceeds(w1.db.ingredients, {}, user, p.ingredients.value);
      ReconcileKeepsUnique(w1.db.ingredients, {}, user, p.ingredients.value);
    }
  }

  /**
   * A present list replaces the relation: after a successful update the
   * recipe is linked to exactly the user's rows named in the list, so a row
   * linked before and not named is no longer linked.
   */
  lemma UpdateReplacesLinks(db: Db, user: UserId, rid: RecipeId, p: Payload, k: Kind, names: seq<string>)
    requires rid in db.recipes
    requires Requested(p, k) == Some(names)
    ensures var w := Update(db, user, rid, p);
      w.error == None ==>
        && LinksOf(w.db.recipes[rid], k) == IdsNamed(TableOf(w.db, k), user, names)
        && (forall id :: id in LinksOf(db.recipes[rid], k) && id !in IdsNamed(TableOf(w.db, k), user, names) ==>
              id !in LinksOf(w.db.recipes[rid], k))
  {
    var w1 := Replace(db, TagKind, rid, user, p.tags);
    if k == TagKind {
      ReconcileLinksExact(db.tags, {}, user, names);
    } else {
      ReconcileLinksExact(w1.db.ingredients, {}, user, names);
    }
  }

  /**
   * An empty list clears the relation and creates no row. (When the tag
   * step fails first, the ingredient relation is not reached and keeps its
   * links; the table of `k` is unchanged either way.)
   */
  lemma UpdateEmptyListClears(db: Db, user: UserId, rid: RecipeId, p: Payload, k: Kind)
    requires rid in db.recipes
    requires Requested(p, k) == Some([])
    ensures var w := Update(db, user, rid, p);
      && TableOf(w.db, k) == TableOf(db, k)
      && (w.error == None ==> LinksOf(w.db.recipes[rid], k) == {})
  {
  }

  /** An absent key leaves that relation and its table as they were, whatever else the request does. */
  lemma UpdateAbsentKeepsLinks(db: Db, user: UserId, rid: RecipeId, p: Payload, k: Kind)
    requires rid in db.recipes
    requires Requested(p, k) == None
    ensures var w := Update(db, user, rid, p);
      && LinksOf(w.db.recipes[rid], k) == LinksOf(db.recipes[rid], k)
      && TableOf(w.db, k) == TableOf(db, k)
  {
  }

  /**
   * Only supplied writable scalars change: a successful update gives each of
   * them its new value and leaves every other attribute (present or absent)
   * as it was; a failed update changes no attribute.
   */
  lemma UpdateScalars(db: Db, user: UserId, rid: RecipeId, p: Payload)
    requires rid in db.recipes
    ensures var w := Update(db, user, rid, p); var before := db.recipes[rid].fields; var after := w.db.recipes[rid].fields;
      && (w.error == None ==>
            && (forall f :: f in p.scalars && f in WritableScalars() ==> f in after && after[f] == p.scalars[f])
            && (forall f :: !(f in p.scalars && f in WritableScalars()) ==>
                  (f in after <==> f in before) && (f in before ==> after[f] == before[f])))
      && (w.error.Some? ==> after == before)
  {
  }

  /**
   * The owner never changes, even when the request carries a `user` key:
   * that key is not a writable scalar, so validation drops it. No other
   * recipe is touched.
   */
  lemma UpdateKeepsOwner(db: Db, user: UserId, rid: RecipeId, p: Payload)
    requires rid in db.recipes
    ensures "user" !in Validated(p.scalars)
    ensures var w := Update(db, user, rid, p);
      && w.db.recipes.Keys == db.recipes.Keys
      && w.db.nextRecipeId == db.nextRecipeId
      && w.db.recipes[rid].owner == db.recipes[rid].owner
      && (forall x :: x in db.recipes && x != rid ==> w.db.recipes[x] == db.recipes[x])
  {
  }

  // ---------------------------------------------------------------------
  // Invariants of the store

  /** Appending rows to a table only adds to the ids `owner` owns in it. */
  lemma OwnedIdsGrow(t: Table, T: Table, owner: UserId)
    requires |t.rows| <= |T.rows| && T.rows[..|t.rows|] == t.rows
    ensures OwnedIds(t, owner) <= OwnedIds(T, owner)
  {
    forall id | id in OwnedIds(t, owner) ensures id in OwnedIds(T, owner) {
      var r :| r in t.rows && r.owner == owner && r.id == id;
      var i :| 0 <= i < |t.rows| && t.rows[i] == r;
      assert T.rows[i] == r;
    }
  }

  /** Reconciling on behalf of the recipe's own owner keeps every link owned by the recipe's owner. */
  lemma ReconcileIntoKeepsOwners(db: Db, k: Kind, rid: RecipeId, owner: UserId, names: seq<string>)
    requires rid in db.recipes && db.recipes[rid].owner == owner
    requires OwnersConsistent(db)
    ensures OwnersConsistent(ReconcileInto(db, k, rid, owner, names).db)
  {
    var w := ReconcileInto(db, k, rid, owner, names);
    var t := TableOf(db, k);
    var r := Reconcile(t, LinksOf(db.recipes[rid], k), owner, names);
    if names != [] {
      ReconcileOwnership(t, LinksOf(db.recipes[rid], k), owner, names);
      ReconcileAppends(t, LinksOf(db.recipes[rid], k), owner, names);
      assert TableOf(w.db, k) == r.table;
      forall o: UserId ensures OwnedIds(t, o) <= OwnedIds(r.table, o) {
        OwnedIdsGrow(t, r.table, o);
      }
      assert IdsNamed(r.table, owner, names) <= OwnedIds(r.table, owner);
      assert LinksOwned(w.db, k);
      assert LinksOwned(w.db, Other(k));
      assert k == TagKind || k == IngredientKind;
    }
  }

  /** A write on behalf of the recipe's owner keeps every recipe linked only to rows of its own owner. */
  lemma CreateKeepsOwners(db: Db, user: UserId, p: Payload)
    requires OwnersConsistent(db)
    ensures OwnersConsistent(Create(db, user, p).db)
  {
    var rid := db.nextRecipeId;
    var db1 := db.(recipes := db.recipes[rid := Recipe(user, Validated(p.scalars), {}, {})], nextRecipeId := rid + 1);
    assert OwnersConsistent(db1);
    ReconcileIntoKeepsOwners(db1, TagKind, rid, user, p.tags.GetOr([]));
    var w1 := ReconcileInto(db1, TagKind, rid, user, p.tags.GetOr([]));
    if w1.error.None? {
      ReconcileIntoKeepsOwners(w1.db, IngredientKind, rid, user, p.ingredients.GetOr([]));
    }
  }

  /** Clearing a relation keeps every recipe linked only to its owner's rows. */
  lemma ClearLinksKeepsOwners(db: Db, k: Kind, rid: RecipeId)
    requires rid in db.recipes && OwnersConsistent(db)
    ensures OwnersConsistent(ClearLinks(db, k, rid))
  {
    var d := ClearLinks(db, k, rid);
    forall x, id, j: Kind | x in d.recipes && id in LinksOf(d.recipes[x], j)
      ensures id in OwnedIds(TableOf(d, j), d.recipes[x].owner)
    {
      assert id in LinksOf(db.recipes[x], j);
    }
  }

  /** Writing scalars changes no link. */
  lemma WithFieldsKeepsOwners(db: Db, rid: RecipeId, fields: map<string, Value>)
    requires rid in db.recipes && OwnersConsistent(db)
    ensures OwnersConsistent(db.(recipes := db.recipes[rid := db.recipes[rid].(fields := fields)]))
  {
    var d := db.(recipes := db.recipes[rid := db.recipes[rid].(fields := fields)]);
    forall x, id, j: Kind | x in d.recipes && id in LinksOf(d.recipes[x], j)
      ensures id in OwnedIds(TableOf(d, j), d.recipes[x].owner)
    {
      assert id in LinksOf(db.recipes[x], j);
    }
  }

  /** Replacing one relation on behalf of the recipe's owner keeps every link owned. */
  lemma ReplaceKeepsOwners(db: Db, k: Kind, rid: RecipeId, user: UserId, names: Option<seq<string>>)
    requires rid in db.recipes && db.recipes[rid].owner == user && OwnersConsistent(db)
    ensures var w := Replace(db, k, rid, user, names);
      rid in w.db.recipes && w.db.recipes[rid].owner == user && OwnersConsistent(w.db)
  {
    if names.Some? {
      ClearLinksKeepsOwners(db, k, rid);
      ReconcileIntoKeepsOwners(ClearLinks(db, k, rid), k, rid, user, names.value);
    }
  }

  /** `update` by the recipe's owner keeps every recipe linked only to its owner's rows. */
  lemma UpdateKeepsOwners(db: Db, user: UserId, rid: RecipeId, p: Payload)
    requires rid in db.recipes && db.recipes[rid].owner == user
    requires OwnersConsistent(db)
    ensures OwnersConsistent(Update(db, user, rid, p).db)
  {
    ReplaceKeepsOwners(db, TagKind, rid, user, p.tags);
    var w1 := Replace(db, TagKind, rid, user, p.tags);
    if w1.error.None? {
      ReplaceKeepsOwners(w1.db, IngredientKind, rid, user, p.ingredients);
      var w2 := Replace(w1.db, IngredientKind, rid, user, p.ingredients);
      if w2.error.None? {
        var r := w2.db.recipes[rid];
        WithFieldsKeepsOwners(w2.db, rid, r.fields + Validated(p.scalars));
      }
    }
  }

  /** Reconciling into one relation keeps row ids distinct and fresh, and recipe ids below their counter. */
  lemma ReconcileIntoKeepsValid(db: Db, k: Kind, rid: RecipeId, owner: UserId, names: seq<string>)
    requires rid in db.recipes && DbValid(db)
    ensures DbValid(ReconcileInto(db, k, rid, owner, names).db)
  {
    ReconcileKeepsTableValid(TableOf(db, k), LinksOf(db.recipes[rid], k), owner, names);
  }

  /** `create` keeps row ids distinct and fresh, and recipe ids below their counter. */
  lemma CreateKeepsValid(db: Db, user: UserId, p: Payload)
    requires DbValid(db)
    ensures DbValid(Create(db, user, p).db)
  {
    var rid := db.nextRecipeId;
    var db1 := db.(recipes := db.recipes[rid := Recipe(user, Validated(p.scalars), {}, {})], nextRecipeId := rid + 1);
    ReconcileIntoKeepsValid(db1, TagKind, rid, user, p.tags.GetOr([]));
    var w1 := ReconcileInto(db1, TagKind, rid, user, p.tags.GetOr([]));
    ReconcileIntoKeepsValid(w1.db, IngredientKind, rid, user, p.ingredients.GetOr([]));
  }

  /** Replacing one relation keeps the id invariants and the recipe. */
  lemma ReplaceKeepsValid(db: Db, k: Kind, rid: RecipeId, user: UserId, names: Option<seq<string>>)
    requires rid in db.recipes && DbValid(db)
    ensures var w := Replace(db, k, rid, user, names);
      rid in w.db.recipes && DbValid(w.db)
  {
    if names.Some? {
      ReconcileIntoKeepsValid(ClearLinks(db, k, rid), k, rid, user, names.value);
    }
  }

  /** `update` keeps row ids distinct and fresh, and recipe ids below their counter. */
  lemma UpdateKeepsValid(db: Db, user: UserId, rid: RecipeId, p: Payload)
    requires rid in db.recipes && DbValid(db)
    ensures DbValid(Update(db, user, rid, p).db)
  {
    ReplaceKeepsValid(db, TagKind, rid, user, p.tags);
    var w1 := Replace(db, TagKind, rid, user, p.tags);
    ReplaceKeepsValid(w1.db, IngredientKind, rid, user, p.ingredients);
  }
}
