# Recipe serializer: nested tag and ingredient reconciliation

This project models the write path of the recipe API's `RecipeSerializer`.
A recipe belongs to a user. It has scalar attributes (title, time, price,
link, description, image) and two many-to-many relations, to Tag rows and
to Ingredient rows. Each Tag or Ingredient row is `(id, owner, name)`.
A recipe write names its tags and ingredients by name. For each name, the
serializer gets or creates the requesting user's row with that exact name
and adds it to the recipe's relation.

The project is organised as follows.

- `catalog.dfy` (module `Catalog`): the entities, and the serializer's
  field whitelist. The whitelist decides which scalar keys of a request
  can be written.
- `reconciliation.dfy` (module `Reconciliation`): the ORM's
  `get_or_create` and the reconciliation loop, as functions on a table
  value, and the properties of that loop.
- `serializer.dfy` (module `RecipeSerializer`): `create` and `update` as
  functions of the whole store, and their properties.
- `store.dfy` (module `RecipeStore`): the store as a class whose fields
  the operations update in place. It has the reconciliation loop as a
  `while` loop, the `setattr` loop of `update`, and `create` and
  `update` as methods. Each method is proved to leave exactly the state
  that the matching function describes.

Tags and ingredients are handled by two copies of the same code in the
source. The model has one code path, parameterised by `Kind`.

There is no database-level uniqueness on `(owner, name)`. A tag can be
renamed, through the tag endpoint, onto a name its owner already uses.
So the model keeps `get_or_create`'s third outcome: two matching rows
raise `MultipleObjectsReturned`. That error stops the write where it
occurs, and rows and links added before it stay. The shown code has no
transaction. Lemmas prove that reconciliation fails exactly when a listed
name already has two rows of the requesting user, that it never creates a
duplicate itself, and what it leaves behind when it succeeds.

## Model

| member | source | states |
|---|---|---|
| Catalog.WritableScalars | app/recipe/serializers.py:30-38 | A scalar key is writable iff it is a declared field of the detail serializer (lines 86-87 add description and image), not read-only and not nested. So `user`, `id`, `tags` and `ingredients` are never written, while `title` and `description` are. |
| Catalog.Validated | app/recipe/serializers.py:28-38 | `validated_data` keeps exactly the request's keys that are writable scalars, with their values unchanged. |
| Catalog.WithLinks | app/recipe/serializers.py:45 | Replacing one relation of a recipe sets that relation and leaves the other relation, the owner and the attributes alone. |
| Reconciliation.Filter | app/recipe/serializers.py:44 | The lookup returns only rows of the table that match `(owner, name)`, and no more rows than the table has. |
| Reconciliation.FilterCount | app/recipe/serializers.py:44 | The lookup finds no row iff the owner has no row with that name. It finds two or more iff such a row is duplicated. |
| Reconciliation.GetOrCreate | app/recipe/serializers.py:44 | The lookup-or-insert itself, with no contract of its own: `Reconciliation.GetOrCreateSpec` states its meaning. |
| Reconciliation.GetOrCreateSpec | app/recipe/serializers.py:44 | `get_or_create` returns a row of the owner with that name. It inserts one, with the next id, exactly when none existed, and leaves the table unchanged otherwise. It fails exactly when the match is duplicated. |
| Reconciliation.ReconcileGrows | app/recipe/serializers.py:40-45 | Reconciliation keeps existing rows as a prefix, never lowers the id counter and only adds links, also when it stops on an error. |
| Reconciliation.ReconcileNewRowsNamed | app/recipe/serializers.py:42-44 | Every row that reconciliation inserts is owned by the requesting user and named in the list. |
| Reconciliation.ReconcileAppends | app/recipe/serializers.py:40-53 | Conjunction of the two lemmas above. |
| Reconciliation.ReconcileKeepsTableValid | app/recipe/serializers.py:44 | Row ids stay distinct and below the table's counter. |
| Reconciliation.Reconcile | app/recipe/serializers.py:40-53 | The loop itself, with no contract of its own: the `Reconcile…` lemmas below state its meaning. |
| Reconciliation.ReconcileFrom | app/recipe/serializers.py:43-45 | One turn of the loop: reconciling from position `i` is one `get_or_create` and one `add`, then reconciling from `i + 1`. It stops on an error. |
| Reconciliation.AppendKeepsNoDuplicate | app/recipe/serializers.py:44 | Appending a row creates no duplicate unless its owner already had a row of that name. |
| Reconciliation.DuplicatedPersists | app/recipe/serializers.py:44 | A duplicate stays a duplicate when rows are appended. |
| Reconciliation.GetOrCreateNoDuplicate | app/recipe/serializers.py:44 | A lookup never creates a duplicate: every `(owner, name)` with at most one row keeps at most one. |
| Reconciliation.IdsNamedHas | app/recipe/serializers.py:44-45 | A row of the owner whose name is listed is among the ids named by the list. |
| Reconciliation.IdsNamedSub | app/recipe/serializers.py:44-45 | Naming fewer names names fewer ids. |
| Reconciliation.ReconcileOwnership | app/recipe/serializers.py:42-45 | Every link that reconciliation adds is to a row of the requesting user named in the list, never to another user's row. This holds even on a failing run. |
| Reconciliation.ReconcileNoNewDuplicates | app/recipe/serializers.py:43-45 | Reconciliation never creates a duplicate, for any owner and name, also when it stops on an error. |
| Reconciliation.ReconcileSucceeds | app/recipe/serializers.py:43-45 | Reconciliation succeeds iff no listed name already has two rows of the requesting user. A duplicate of another user, or of a name not in the list, does not matter. |
| Reconciliation.ReconcileLeavesNoneDuplicated | app/recipe/serializers.py:43-45 | After a successful reconciliation no listed name has two rows of the user. |
| Reconciliation.ReconcileKeepsUnique | app/recipe/serializers.py:44 | A table with at most one row per `(owner, name)` stays that way. |
| Reconciliation.ReconcileCovers | app/recipe/serializers.py:43-44 | After a successful reconciliation every listed name has a row of the owner. |
| Reconciliation.ReconcileCreatesOnlyMissing | app/recipe/serializers.py:44 | On any table, rows are only created for names the owner did not have, so an existing row is always reused. |
| Reconciliation.ReconcileLinksExact | app/recipe/serializers.py:40-45 | A successful reconciliation adds exactly the ids of the owner's rows whose names appear in the list. |
| Reconciliation.ReconcileExact | app/recipe/tests/test_recipe_api.py:190-232 | When no listed name already has two rows of the user: success, no listed name duplicated afterwards, a unique table kept unique, links exact, every name covered, only missing names created. |
| Reconciliation.HeadIds | app/recipe/serializers.py:44-45 | When the first name has a single row of the owner, the ids named by a list are that row's id plus the ids named by the rest. |
| Reconciliation.NewRowsMissing | app/recipe/serializers.py:44 | Rows appended over two steps were each missing before the first step. |
| Reconciliation.ReconcileCreatesOnePerMissingName | app/recipe/serializers.py:43-44 | A successful reconciliation creates exactly one row per distinct name the owner lacked, and none for an existing name or a repetition. |
| Reconciliation.MissingAfterCreate | app/recipe/serializers.py:44 | Creating the row for the first name removes exactly that name from the missing names. |
| Reconciliation.MissingAfterFetch | app/recipe/serializers.py:44 | Fetching an existing row leaves the missing names as they were. |
| Reconciliation.ReconcileSplit | app/recipe/serializers.py:43-45 | Reconciling a concatenation reconciles the first part and then, unless that failed, the second part. |
| Reconciliation.ReconcileStable | app/recipe/serializers.py:44-45 | When every name already has exactly one row and its id is already linked, reconciliation changes nothing. |
| Reconciliation.ReconcileAgainSucceeded | app/recipe/serializers.py:44-45 | After a successful reconciliation, reconciling any of the same names again changes nothing. |
| Reconciliation.ReconcileFailurePoint | app/recipe/serializers.py:43-45 | A failed reconciliation stopped at a position `k`. The names before `k` reconciled without error to the state it returns, and the name at `k` has two rows of the user there. |
| Reconciliation.ReconcileTwice | app/recipe/serializers.py:44-45 | On any table, reconciling the same list a second time creates no row and changes no link. When the first run failed, the second fails the same way and leaves the same state. |
| Reconciliation.ReconcileRepeatedName | app/recipe/serializers.py:51-53 | On any table, appending at the end a name already in the list creates no row and changes no link, because `add` is a set insertion. |
| Reconciliation.ReconcileRepeatedNameAnywhere | app/recipe/serializers.py:43-45 | On any table, a name repeated anywhere after its first mention creates no row and changes no link. |
| RecipeSerializer.ReconcileInto | app/recipe/serializers.py:40-53 | Reconciling into one relation of a recipe changes no other recipe, no other relation, not the other table, not the owner and no attribute. An empty list changes nothing. |
| RecipeSerializer.ReconcileIntoFields | app/recipe/serializers.py:40-53 | A store described field by field (the table, the recipe's links, the rest unchanged) is the store that `ReconcileInto` leaves. |
| RecipeSerializer.ClearLinks | app/recipe/serializers.py:69 | `instance.tags.clear()` (and line 74 for ingredients) empties that relation of the recipe. It leaves the other relation, the owner, the attributes, both tables, the recipe counter and every other recipe alone. |
| RecipeSerializer.Replace | app/recipe/serializers.py:67-75 | One nested key of `update`, with no contract of its own; `RecipeSerializer.UpdateReplacesLinks`, `UpdateEmptyListClears` and `UpdateAbsentKeepsLinks` state its meaning. |
| RecipeSerializer.Create | app/recipe/serializers.py:55-63 | `create` itself, with no contract of its own; the `Create…` lemmas below state its meaning. |
| RecipeSerializer.Update | app/recipe/serializers.py:65-80 | `update` itself, with no contract of its own; the `Update…` lemmas below state its meaning. |
| RecipeSerializer.CreateNewRecipe | app/recipe/serializers.py:55-59 | `create` inserts one recipe under the next id. It is owned by the requesting user, holds exactly the writable scalars of the request, and no existing recipe changes. |
| RecipeSerializer.CreateWithoutNested | app/recipe/serializers.py:57-61 | Without `tags` and `ingredients` keys, the recipe has empty relations, no row is created and nothing fails. |
| RecipeSerializer.CreateSucceeds | app/recipe/serializers.py:55-63 | `create` succeeds iff no listed tag name and no listed ingredient name already has two rows of the user. A unique table stays unique. |
| RecipeSerializer.CreateLinksExact | app/recipe/tests/test_recipe_api.py:190-312 | A successful `create` links the recipe to exactly the user's rows named in each list. |
| RecipeSerializer.UpdateSucceeds | app/recipe/serializers.py:65-80 | `update` succeeds iff no name of a present list already has two rows of the user. A unique table stays unique. |
| RecipeSerializer.UpdateReplacesLinks | app/recipe/tests/test_recipe_api.py:245-258 | After a successful update (characterised by `UpdateSucceeds`), a present list replaces the relation with exactly the user's rows named in it, so a previously linked row that is not named is no longer linked. The same holds for ingredients (lines 325-338). |
| RecipeSerializer.UpdateEmptyListClears | app/recipe/tests/test_recipe_api.py:260-271 | An empty list creates no row, and leaves the relation empty when the update succeeds. The same holds for ingredients (lines 340-350). |
| RecipeSerializer.UpdateAbsentKeepsLinks | app/recipe/serializers.py:67-75 | An absent key leaves that relation and its table as they were. |
| RecipeSerializer.UpdateScalars | app/recipe/tests/test_recipe_api.py:126-161 | A successful update gives each supplied writable scalar its new value. Every other attribute, present or absent, keeps its old state. A failed update changes no attribute. |
| RecipeSerializer.UpdateKeepsOwner | app/recipe/tests/test_recipe_api.py:163-171 | A `user` key in the request is not in the validated data, because `Catalog.WritableScalars` excludes it, and the owner is a field `update` never writes. So the owner never changes. No other recipe is touched and no recipe is added or removed. |
| RecipeSerializer.OwnedIdsGrow | app/recipe/serializers.py:44 | Appending rows only adds to each user's owned ids. |
| RecipeSerializer.ReconcileIntoKeepsOwners | app/recipe/serializers.py:42-45 | Reconciling on behalf of the recipe's owner keeps every recipe linked only to rows of its own owner. |
| RecipeSerializer.CreateKeepsOwners | app/recipe/serializers.py:55-63 | `create` keeps every recipe linked only to its owner's rows. |
| RecipeSerializer.ClearLinksKeepsOwners | app/recipe/serializers.py:69 | Clearing a relation keeps that invariant. |
| RecipeSerializer.WithFieldsKeepsOwners | app/recipe/serializers.py:77-79 | Writing attributes keeps that invariant. |
| RecipeSerializer.ReplaceKeepsOwners | app/recipe/serializers.py:67-75 | Replacing one relation on behalf of the owner keeps that invariant and the owner. |
| RecipeSerializer.UpdateKeepsOwners | app/recipe/serializers.py:65-80 | `update` by the recipe's owner keeps every recipe linked only to its owner's rows. |
| RecipeSerializer.ReconcileIntoKeepsValid | app/recipe/serializers.py:40-53 | Reconciling into one relation keeps row ids distinct and fresh, and recipe ids below their counter. |
| RecipeSerializer.CreateKeepsValid | app/recipe/serializers.py:55-63 | `create` keeps those id invariants. |
| RecipeSerializer.ReplaceKeepsValid | app/recipe/serializers.py:67-75 | Clearing and re-reconciling one relation keeps those id invariants and keeps the recipe. |
| RecipeSerializer.UpdateKeepsValid | app/recipe/serializers.py:65-80 | `update` keeps those id invariants. |
| RecipeStore.SetAttrs | app/recipe/serializers.py:77-78 | The `setattr` loop gives every validated attribute its new value and every other attribute its old one. |
| RecipeStore.OverrideIs | app/recipe/serializers.py:77-78 | That result is the old attributes overridden by the validated ones. |
| RecipeStore.Store.GetOrCreate | app/recipe/serializers.py:44 | The in-place `get_or_create` leaves the table and returns the outcome that `Reconciliation.GetOrCreate` gives, and touches nothing else. |
| RecipeStore.Store.AddLink | app/recipe/serializers.py:45 | `recipe.tags.add(row)` inserts the id into that relation only. |
| RecipeStore.Store.LinkNamed | app/recipe/serializers.py:44-45 | One loop turn: get or create, then add unless the lookup failed. |
| RecipeStore.Store.ReconcileTurn | app/recipe/serializers.py:43-45 | One loop turn, stated against what remains: the outcome of reconciling from position `i` becomes the outcome of reconciling from `i + 1`, or the current state with the error when the lookup failed. Among the recipes, only recipe `rid`'s relation of that kind changes; the table of that kind may gain a row. |
| RecipeStore.Store.GetOrCreateRelated | app/recipe/serializers.py:40-53 | The loop leaves the table, the relation and the error that `Reconciliation.Reconcile` gives, and touches nothing else. |
| RecipeStore.Store.CreateRecipe | app/recipe/serializers.py:55-63 | The new state and error are those of `RecipeSerializer.Create`, the id is the old counter, and id validity and link ownership are kept. |
| RecipeStore.Store.ReplaceRelated | app/recipe/serializers.py:67-75 | Clearing and re-reconciling one present relation leaves the state of `RecipeSerializer.Replace`. |
| RecipeStore.Store.UpdateRecipe | app/recipe/serializers.py:65-80 | The new state and error are those of `RecipeSerializer.Update`. Id validity is kept, and link ownership is kept when the owner writes. |

## Left out

- HTTP views, routing, authentication, token issuance and status codes are framework behaviour. The views module is not part of this model. The requesting user is a parameter.
- The `assigned_only` and id-list query filters, email normalisation, the image path function and image upload and validation are left out. Their code is not part of this model, or they are file I/O.
- The database-wait command is left out because it is polling I/O.
- Two concurrent requests creating the same name can race. Only one request at a time is modelled.
- Field validation (decimal price, integer time, URL link) is not modelled. Scalar values are opaque strings. Nested names are taken as the serializer framework delivers them: its character field trims whitespace and rejects blank names before `create` or `update` runs, and that step is not modelled.
- The views module that picks the serializer for a request is not part of this model. Writes are taken to go through the detail serializer (app/recipe/serializers.py:83-87), which makes `description` and `image` writable. The tests at app/recipe/tests/test_recipe_api.py:109-124 and 145-161 write `description` on create and on full update, which supports that choice.
- Output formatting of the serializers (field lists for reading) is not modelled. Only the whitelist's effect on writes is.
- Name comparison is exact string equality. Database collation and case rules are not modelled.
- Whether the database wraps a request in a transaction depends on settings that are not part of this model. The model follows the code as shown, where a failed lookup leaves earlier rows and links in place.
- `MultipleObjectsReturned` is modelled as an error value that stops the write and is returned, not as an exception unwinding the stack.
- The store's row tables are `seq` values that the methods reassign, not database tables with indexes. Lookup order is table order.
