/** The category handlers of `categoriesController.js`: the listing and the
    get-or-create. */
module Categories {
  import opened Wrappers
  import opened Tables
  import Seqs

  function CategoryId(c: Category): int { c.id }

  /** `SELECT * FROM categories ORDER BY id DESC`. */
  function AllCategories(rows: seq<Category>): (r: seq<Category>)
    ensures multiset(r) == multiset(rows)
    ensures forall i, j :: 0 <= i < j < |r| ==> r[i].id >= r[j].id
  {
    Seqs.SortDesc(rows, CategoryId)
  }

  /** `SELECT * FROM categories WHERE name = ?` and its first row. */
  function FindByName(rows: seq<Category>, name: string): (r: Option<Category>)
    ensures r.Some? ==> r.value in rows && r.value.name == name
    ensures r.None? <==> forall c :: c in rows ==> c.name != name
  {
    if rows == [] then None
    else if rows[0].name == name then Some(rows[0])
    else FindByName(rows[1..], name)
  }

  /** No two categories share a name. */
  ghost predicate UniqueNames(rows: seq<Category>) {
    forall i, j :: 0 <= i < j < |rows| ==> rows[i].name != rows[j].name
  }

  /** The answer of `POST /api/categories`. */
  datatype CreateResult =
    | NameRequired          // 400 "Name required"
    | Existing(c: Category) // 200 with the row that already had the name
    | Created(c: Category)  // 201 with the inserted row

  /** `createCategory`: a missing or empty name is refused; a name already
      present is answered with its row; otherwise the name is inserted under
      the next id and the new row is answered. */
  function CreateCategory(t: CategoryTable, name: Option<string>): (r: (CreateResult, CategoryTable))
    ensures r.0.NameRequired? <==> name.None? || name == Some("")
    ensures !r.0.Created? ==> r.1 == t
    ensures r.0.Existing? <==> name.Some? && name.value != "" && FindByName(t.rows, name.value).Some?
    ensures r.0.Existing? ==> Some(r.0.c) == FindByName(t.rows, name.value)
    ensures r.0.Created? ==>
              && r.0.c == Category(t.nextId, name.value)
              && r.1 == CategoryTable(t.rows + [r.0.c], t.nextId + 1)
  {
    if name.None? || name.value == "" then (NameRequired, t)
    else match FindByName(t.rows, name.value)
      case Some(c) => (Existing(c), t)
      case None =>
        var c := Category(t.nextId, name.value);
        (Created(c), CategoryTable(t.rows + [c], t.nextId + 1))
  }

  /** Creating the same name again answers the same row and inserts nothing. */
  lemma CreateCategoryIdempotent(t: CategoryTable, name: string)
    requires name != ""
    ensures var (first, t1) := CreateCategory(t, Some(name));
            var (second, t2) := CreateCategory(t1, Some(name));
            && second == Existing(first.c)
            && t2 == t1
  {
    var (first, t1) := CreateCategory(t, Some(name));
    if first.Created? {
      assert FindByName(t1.rows, name).Some?;
      assert FindByName(t.rows, name).None?;
      assert FindByName(t1.rows, name) == Some(first.c) by {
        FindByNameAppend(t.rows, first.c);
      }
    }
  }

  /** Looking a name up after appending a row with a name no earlier row has
      finds the appended row. */
  lemma {:induction false} FindByNameAppend(rows: seq<Category>, c: Category)
    requires FindByName(rows, c.name).None?
    ensures FindByName(rows + [c], c.name) == Some(c)
  {
    if rows == [] {
    } else {
      assert (rows + [c])[1..] == rows[1..] + [c];
      assert rows[0] in rows;
      FindByNameAppend(rows[1..], c);
    }
  }

  /** A create keeps the table keyed. */
  lemma CreateCategoryKeepsIds(t: CategoryTable, name: Option<string>)
    requires t.Valid()
    ensures CreateCategory(t, name).1.Valid()
  {
    var (res, t1) := CreateCategory(t, name);
    if res.Created? {
      assert CategoryIds(t1.rows) == CategoryIds(t.rows) + [t.nextId];
      AppendKeepsIdsValid(CategoryIds(t.rows), t.nextId);
    }
  }

  /** Sequential creates keep names unique and the table keyed. */
  lemma CreateCategoryKeepsInvariants(t: CategoryTable, name: Option<string>)
    requires t.Valid() && UniqueNames(t.rows)
    ensures CreateCategory(t, name).1.Valid() && UniqueNames(CreateCategory(t, name).1.rows)
  {
    var (res, t1) := CreateCategory(t, name);
    if res.Created? {
      assert CategoryIds(t1.rows) == CategoryIds(t.rows) + [t.nextId];
      AppendKeepsIdsValid(CategoryIds(t.rows), t.nextId);
      forall i, j | 0 <= i < j < |t1.rows|
        ensures t1.rows[i].name != t1.rows[j].name
      {
        assert t1.rows[i] == t.rows[i];
        if j < |t.rows| {
          assert t1.rows[j] == t.rows[j];
        } else {
          assert t.rows[i] in t.rows;
        }
      }
    }
  }

  /** The handler. */
  method CreateCategoryHandler(db: Db, name: Option<string>) returns (result: CreateResult)
    requires db.Valid()
    modifies db`categories
    ensures (result, db.categories) == CreateCategory(old(db.categories), name)
    ensures db.Valid()
  {
    CreateCategoryKeepsIds(db.categories, name);
    if name.None? || name.value == "" {
      return NameRequired;
    }
    var existing := FindByName(db.categories.rows, name.value);
    if existing.Some? {
      return Existing(existing.value);
    }
    var created := Category(db.categories.nextId, name.value);
    db.categories := CategoryTable(db.categories.rows + [created], db.categories.nextId + 1);
    result := Created(created);
  }
}
