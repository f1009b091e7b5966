/**
 * The entities the recipe serializer reads and writes: Tag and Ingredient
 * rows, recipes with their two many-to-many relations, and a write request
 * as it reaches the serializer.
 */
module Catalog {
  import opened Wrappers

  type UserId = nat
  type RowId = nat
  type RecipeId = nat

  /** A scalar attribute value (title, price, link, ...), kept opaque in its serialized form. */
  type Value = string

  /** The two name-keyed relations of a recipe. Tag and Ingredient rows have the same shape. */
  datatype Kind = TagKind | IngredientKind

  /** A row of the Tag or of the Ingredient table. */
  datatype Row = Row(id: RowId, owner: UserId, name: string)

  /** A table and its auto-increment counter: the id the next inserted row receives. */
  datatype Table = Table(rows: seq<Row>, nextId: RowId)

  /** A recipe: its owner, its scalar attributes by field name, and the ids of its linked rows. */
  datatype Recipe = Recipe(owner: UserId, fields: map<string, Value>, tags: set<RowId>, ingredients: set<RowId>)

  /**
   * A recipe write request: the scalar keys that were sent, and each nested
   * list of names if and only if its key was present (an empty list is
   * `Some([])`, an absent key is `None`).
   */
  datatype Payload = Payload(scalars: map<string, Value>, tags: Option<seq<string>>, ingredients: Option<seq<string>>)

  /** The persistent store as the serializer sees it. */
  datatype Db = Db(tags: Table, ingredients: Table, recipes: map<RecipeId, Recipe>, nextRecipeId: RecipeId)

  /** The one failure a lookup can raise: more than one row matched `(owner, name)`. */
  datatype Error = MultipleObjectsReturned

  // ---------------------------------------------------------------------
  // The serializer's field whitelist

  /** `RecipeSerializer.Meta.fields`. */
  const RecipeFields: seq<string> := ["id", "title", "time_minutes", "price", "link", "tags", "ingredients"]

  /** `RecipeDetailSerializer.Meta.fields`: the recipe fields plus description and image. */
  const DetailFields: seq<string> := RecipeFields + ["description", "image"]

  /** `Meta.read_only_fields`. */
  const ReadOnlyFields: set<string> := {"id"}

  /** The nested fields, which are popped before the scalars are written. */
  const NestedFields: set<string> := {"tags", "ingredients"}

  /** The scalar attributes a request may write: declared, not read-only, not nested. */
  function WritableScalars(): (s: set<string>)
    ensures forall f :: f in s <==> f in DetailFields && f !in ReadOnlyFields && f !in NestedFields
    ensures "user" !in s && "id" !in s && "tags" !in s && "ingredients" !in s
    ensures "title" in s && "description" in s
  {
    set f | f in DetailFields && f !in ReadOnlyFields && f !in NestedFields
  }

  /** The scalar part of `validated_data`: request keys outside the whitelist are dropped. */
  function Validated(scalars: map<string, Value>): (v: map<string, Value>)
    ensures v.Keys == scalars.Keys * WritableScalars()
    ensures forall f :: f in v ==> v[f] == scalars[f]
  {
    map f | f in scalars && f in WritableScalars() :: scalars[f]
  }

  // ---------------------------------------------------------------------
  // Access by kind

  /** The relation that is not `k`. */
  function Other(k: Kind): Kind {
    match k
    case TagKind => IngredientKind
    case IngredientKind => TagKind
  }

  function TableOf(db: Db, k: Kind): Table {
    match k
    case TagKind => db.tags
    case IngredientKind => db.ingredients
  }

  function WithTable(db: Db, k: Kind, t: Table): Db {
    match k
    case TagKind => db.(tags := t)
    case IngredientKind => db.(ingredients := t)
  }

  function LinksOf(r: Recipe, k: Kind): set<RowId> {
    match k
    case TagKind => r.tags
    case IngredientKind => r.ingredients
  }

  function WithLinks(r: Recipe, k: Kind, links: set<RowId>): (r': Recipe)
    ensures LinksOf(r', k) == links && LinksOf(r', Other(k)) == LinksOf(r, Other(k))
    ensures r'.owner == r.owner && r'.fields == r.fields
  {
    match k
    case TagKind => r.(tags := links)
    case IngredientKind => r.(ingredients := links)
  }

  /** Setting a relation twice is the same as setting it to the second value. */
  lemma WithLinksTwice(r: Recipe, k: Kind, a: set<RowId>, b: set<RowId>)
    ensures WithLinks(WithLinks(r, k, a), k, b) == WithLinks(r, k, b)
  {
  }

  /** The nested list of kind `k` in a request, if its key was present. */
  function Requested(p: Payload, k: Kind): Option<seq<string>> {
    match k
    case TagKind => p.tags
    case IngredientKind => p.ingredients
  }

  // ---------------------------------------------------------------------
  // Table predicates

  predicate Matches(row: Row, owner: UserId, name: string) {
    row.owner == owner && row.name == name
  }

  /** Some row of `rows` belongs to `owner` and is called `name`. */
  predicate HasRow(rows: seq<Row>, owner: UserId, name: string) {
    exists i :: 0 <= i < |rows| && Matches(rows[i], owner, name)
  }

  /** Two different rows of `rows` belong to `owner` and are called `name`. */
  predicate Duplicated(rows: seq<Row>, owner: UserId, name: string) {
    exists i, j :: 0 <= i < j < |rows| && Matches(rows[i], owner, name) && Matches(rows[j], owner, name)
  }

  /** At most one row per `(owner, name)`. */
  predicate Unique(rows: seq<Row>) {
    forall i, j :: 0 <= i < j < |rows| && rows[i].owner == rows[j].owner ==> rows[i].name != rows[j].name
  }

  /** No name of `names` has two rows of `owner`: exactly the lookups these names need cannot fail. */
  predicate NoneDuplicated(rows: seq<Row>, owner: UserId, names: seq<string>) {
    forall n :: n in names ==> !Duplicated(rows, owner, n)
  }

  /** Row ids are distinct and below the table's counter. */
  predicate TableValid(t: Table) {
    (forall i :: 0 <= i < |t.rows| ==> t.rows[i].id < t.nextId) &&
    (forall i, j :: 0 <= i < j < |t.rows| ==> t.rows[i].id != t.rows[j].id)
  }

  /** Both tables are valid and every recipe id is below the recipe counter. */
  predicate DbValid(db: Db) {
    TableValid(db.tags) && TableValid(db.ingredients) &&
    forall rid :: rid in db.recipes ==> rid < db.nextRecipeId
  }

  /** The ids of the rows of `owner` whose name is in `names`. */
  function IdsNamed(t: Table, owner: UserId, names: seq<string>): set<RowId> {
    set r | r in t.rows && r.owner == owner && r.name in names :: r.id
  }

  /** The ids of the rows of `owner`. */
  function OwnedIds(t: Table, owner: UserId): set<RowId> {
    set r | r in t.rows && r.owner == owner :: r.id
  }

  /** Every `k` link of every recipe names a row of that table owned by the recipe's owner. */
  predicate LinksOwned(db: Db, k: Kind) {
    forall rid, id :: rid in db.recipes && id in LinksOf(db.recipes[rid], k) ==>
      id in OwnedIds(TableOf(db, k), db.recipes[rid].owner)
  }

  /** Every recipe links only rows of its own owner, in both relations. */
  predicate OwnersConsistent(db: Db) {
    LinksOwned(db, TagKind) && LinksOwned(db, IngredientKind)
  }
}
