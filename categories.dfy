/** The category handlers: list every category by name, and create one from a
    name alone, plus the start-up seeding that replaces the whole collection
    with the fifteen enumerated categories. */
module CategoryController {
  import opened Common
  import opened Text
  import opened Slug
  import opened Schema
  import opened Http
  import opened Database

  // Listing

  /** The store's ascending string order on `name`: a prefix comes first,
      otherwise the first differing character decides. */
  predicate NameLe(a: string, b: string)
    decreases |a|
  {
    a == [] || (b != [] && (a[0] < b[0] || (a[0] == b[0] && NameLe(a[1..], b[1..]))))
  }

  lemma {:induction false} NameLeTotal(a: string, b: string)
    ensures NameLe(a, b) || NameLe(b, a)
    decreases |a|
  {
    if a != [] && b != [] && a[0] == b[0] {
      NameLeTotal(a[1..], b[1..]);
    }
  }

  lemma {:induction false} NameLeTransitive(a: string, b: string, c: string)
    requires NameLe(a, b) && NameLe(b, c)
    ensures NameLe(a, c)
    decreases |a|
  {
    if a != [] && b != [] && c != [] && a[0] == b[0] && b[0] == c[0] {
      NameLeTransitive(a[1..], b[1..], c[1..]);
    }
  }

  /** Each category's name is at most the next one's. */
  predicate SortedByName(s: seq<Category>)
  {
    forall i :: 0 < i < |s| ==> NameLe(s[i - 1].name, s[i].name)
  }

  /** Insert one category into a list sorted by name. */
  function InsertByName(c: Category, s: seq<Category>): (r: seq<Category>)
    requires SortedByName(s)
    ensures SortedByName(r)
    ensures multiset(r) == multiset(s) + multiset{c}
    ensures r != [] && (r[0] == c || (s != [] && r[0] == s[0]))
  {
    if s == [] || NameLe(c.name, s[0].name) then [c] + s
    else
      NameLeTotal(c.name, s[0].name);
      assert s == [s[0]] + s[1..];
      [s[0]] + InsertByName(c, s[1..])
  }

  /** The categories ordered by name. */
  function SortByName(s: seq<Category>): (r: seq<Category>)
    ensures SortedByName(r)
    ensures multiset(r) == multiset(s)
  {
    if s == [] then []
    else
      assert s == [s[0]] + s[1..];
      InsertByName(s[0], SortByName(s[1..]))
  }

  /** Sorted by neighbours means sorted throughout. */
  lemma {:induction false} SortedByNameEverywhere(s: seq<Category>)
    requires SortedByName(s)
    ensures forall i, j :: 0 <= i < j < |s| ==> NameLe(s[i].name, s[j].name)
  {
    if s != [] {
      var t := s[1..];
      assert SortedByName(t) by {
        forall i | 0 < i < |t| ensures NameLe(t[i - 1].name, t[i].name) {
          assert t[i - 1] == s[i] && t[i] == s[i + 1];
        }
      }
      SortedByNameEverywhere(t);
      forall i, j | 0 <= i < j < |s| ensures NameLe(s[i].name, s[j].name) {
        if i > 0 {
          assert s[i] == t[i - 1] && s[j] == t[j - 1];
        } else if j > 1 {
          assert s[1] == t[0] && s[j] == t[j - 1];
          NameLeTransitive(s[0].name, s[1].name, s[j].name);
        }
      }
    }
  }

  /** `getCategories`: every stored category, each exactly as often as it is
      stored, in ascending order of name. */
  function ListCategories(categories: seq<Category>): (r: Response)
    ensures r.status == 200 && r.message == "Categories retrieved successfully"
    ensures r.payload.CategoryList? && multiset(r.payload.categories) == multiset(categories)
    ensures forall i, j :: 0 <= i < j < |r.payload.categories| ==>
      NameLe(r.payload.categories[i].name, r.payload.categories[j].name)
  {
    var sorted := SortByName(categories);
    SortedByNameEverywhere(sorted);
    Response(200, "Categories retrieved successfully", CategoryList(sorted), KeepCookie)
  }

  // Creating

  const CategoryExists: Response := Reply(400, "Category already exists")
  const CategoryServerError: Response := Reply(500, "Server error while creating category")

  /** The `name` after the schema's trim setter. */
  function TrimmedName(name: Option<string>): (r: Option<string>)
    ensures r.Some? <==> name.Some?
    ensures r.Some? ==> IsTrimmed(r.value) && |r.value| <= |name.value|
  {
    if name.Some? then Some(Trim(name.value)) else None
  }

  /** Only two enumerated names share a slug when they are the same name. */
  lemma CategorySlugIndexUnique(a: nat, b: nat)
    requires a < |CategorySlugs| && b < |CategorySlugs| && CategorySlugs[a] == CategorySlugs[b]
    ensures a == b
  {
    assert forall i, j :: 0 <= i < j < |CategorySlugs| ==> CategorySlugs[i] != CategorySlugs[j];
  }

  /** Among stored categories the unique slug index refuses exactly the names
      the unique name index refuses: for an enumerated name, a slug clash is a
      name clash. */
  lemma CategoryClashIsNameClash(categories: seq<Category>, clock: nat, name: string)
    requires CategoriesValid(categories, clock) && IsCategoryName(name)
    ensures CategoryTaken(categories, name, Slugify(name)) <==>
      exists i :: 0 <= i < |categories| && categories[i].name == name
  {
    var slug := Slugify(name);
    forall i | 0 <= i < |categories| && categories[i].slug == slug ensures categories[i].name == name {
      assert categories[i] in categories;
      SlugNamesCategory(categories[i], name);
    }
  }

  /** A well-formed category whose slug is the slug of an enumerated name
      has that name. */
  lemma SlugNamesCategory(c: Category, name: string)
    requires CategoryWellFormed(c) && IsCategoryName(name) && c.slug == Slugify(name)
    ensures c.name == name
  {
    EnumeratedFromIndex(name, 0);
    var b :| 0 <= b < |CategoryNames| && CategoryNames[b] == name;
    CategorySlugAt(b);
    var a :| 0 <= a < |CategoryNames| && c.name == CategoryNames[a] && c.slug == CategorySlugs[a];
    CategorySlugIndexUnique(a, b);
  }

  /** `createCategory`: a category built from `name` alone. A name that is
      missing, empty or outside the enumeration fails validation and gives
      500; a name or slug already stored gives 400; otherwise the category is
      saved with the slug the hook derives and answered with 201. */
  method CreateCategory(db: Store, name: Option<string>) returns (r: Response)
    requires db.Valid()
    modifies db
    ensures db.Valid()
    ensures db.users == old(db.users) && db.posts == old(db.posts) && db.comments == old(db.comments)
    ensures CategoryErrors(TrimmedName(name), None) != [] ==>
      r == CategoryServerError && db.categories == old(db.categories) && db.clock == old(db.clock)
    ensures CategoryErrors(TrimmedName(name), None) == [] ==>
      var n := Trim(name.value);
      && (CategoryTaken(old(db.categories), n, Slugify(n)) ==>
            r == CategoryExists && db.categories == old(db.categories) && db.clock == old(db.clock))
      && (!CategoryTaken(old(db.categories), n, Slugify(n)) ==>
            var c := Category(old(db.clock), n, Slugify(n), None, old(db.clock));
            && db.categories == old(db.categories) + [c]
            && db.clock == old(db.clock) + 1
            && r == Response(201, "Category created successfully", CategoryData(c), KeepCookie))
  {
    var built := BuildCategory(name, db.clock);
    if built.None? {
      return CategoryServerError;
    }
    r := SaveCategory(db, built.value);
  }

  /** `new Category({ name })` and the part of its save that runs before the
      write: the validators, then the pre-save hook. No record when a
      validator fails; otherwise the record the write stores. */
  method BuildCategory(name: Option<string>, id: Id) returns (c: Option<Category>)
    ensures c.None? <==> CategoryErrors(TrimmedName(name), None) != []
    ensures c.Some? ==>
      && IsCategoryName(Trim(name.value))
      && c.value == Category(id, Trim(name.value), Slugify(Trim(name.value)), None, id)
  {
    var doc := new CategoryDoc(name);
    if CategoryErrors(doc.name, doc.description) != [] {
      return None;
    }
    doc.PreSave();
    c := Some(doc.Stored(id, id));
  }

  /** The save of a category that passed the validators: the unique name and
      slug indexes refuse a clash with 400, otherwise the category is stored
      and answered with 201. */
  method SaveCategory(db: Store, c: Category) returns (r: Response)
    requires db.Valid() && c.id == db.clock && c.createdAt == db.clock
    requires IsCategoryName(c.name) && c.slug == Slugify(c.name) && c.description.None?
    modifies db
    ensures db.Valid()
    ensures db.users == old(db.users) && db.posts == old(db.posts) && db.comments == old(db.comments)
    ensures CategoryTaken(old(db.categories), c.name, c.slug) ==>
      r == CategoryExists && db.categories == old(db.categories) && db.clock == old(db.clock)
    ensures !CategoryTaken(old(db.categories), c.name, c.slug) ==>
      && db.categories == old(db.categories) + [c]
      && db.clock == old(db.clock) + 1
      && r == Response(201, "Category created successfully", CategoryData(c), KeepCookie)
  {
    if CategoryTaken(db.categories, c.name, c.slug) {
      return CategoryExists;
    }
    EnumeratedNameWellFormed(c);
    db.InsertCategory(c);
    r := Response(201, "Category created successfully", CategoryData(c), KeepCookie);
  }

  /** A category named from the enumeration, with the hook's slug and no
      description, passes every validator. */
  lemma EnumeratedNameWellFormed(c: Category)
    requires IsCategoryName(c.name) && c.slug == Slugify(c.name) && c.description.None?
    ensures CategoryWellFormed(c)
  {
    EnumeratedFromIndex(c.name, 0);
    var i :| 0 <= i < |CategoryNames| && CategoryNames[i] == c.name;
    CategorySlugAt(i);
  }

  // Seeding

  /** Every enumerated name is already trimmed, so the trim setter keeps it. */
  lemma CategoryNameTrimmed(i: nat)
    requires i < |CategoryNames|
    ensures Trim(CategoryNames[i]) == CategoryNames[i]
  {
    assert IsTrimmed(CategoryNames[i]);
    TrimFixesTrimmed(CategoryNames[i]);
  }

  /** The first `i` enumerated names are stored, in order, each with its
      listed slug and no description, and nothing else is. */
  predicate SeededUpTo(categories: seq<Category>, i: nat)
  {
    && i <= |CategoryNames| && |categories| == i
    && forall j :: 0 <= j < i ==>
         && categories[j].name == CategoryNames[j]
         && categories[j].slug == CategorySlugs[j]
         && categories[j].description.None?
  }

  /** After the first `i` names were seeded, the next one passes the
      validators and clashes with none of them. */
  lemma SeedStepFits(categories: seq<Category>, i: nat, c: Category)
    requires i < |CategoryNames| && SeededUpTo(categories, i)
    requires c.name == CategoryNames[i] && c.slug == CategorySlugs[i] && c.description.None?
    ensures !CategoryTaken(categories, c.name, c.slug)
    ensures SeededUpTo(categories + [c], i + 1)
  {
    CategorySlugsDistinct();
    forall j | 0 <= j < i ensures categories[j].name != c.name && categories[j].slug != c.slug {
      if categories[j].slug == c.slug {
        CategorySlugIndexUnique(j, i);
      }
    }
  }

  /** One pass of the seeding loop: `new Category({ name })` for the next
      enumerated name, then its save. The validators and both unique indexes
      let it through. */
  method SeedOne(db: Store, i: nat) returns (r: Response)
    requires db.Valid() && i < |CategoryNames| && SeededUpTo(db.categories, i)
    modifies db
    ensures db.Valid()
    ensures db.users == old(db.users) && db.posts == old(db.posts) && db.comments == old(db.comments)
    ensures db.categories == old(db.categories) + [Category(old(db.clock), CategoryNames[i], CategorySlugs[i], None, old(db.clock))]
    ensures SeededUpTo(db.categories, i + 1)
    ensures r.status == 201
  {
    CategoryNameTrimmed(i);
    IsCategoryNameIff(CategoryNames[i]);
    var built := BuildCategory(Some(CategoryNames[i]), db.clock);
    CategorySlugAt(i);
    SeedStepFits(db.categories, i, built.value);
    r := SaveCategory(db, built.value);
  }

  /** The start-up seeding: every category is deleted, then the fifteen
      enumerated names are saved one by one, each through the validators and
      the slug hook. Every one of those saves succeeds, so the collection ends
      up holding exactly the fifteen categories in enumeration order. */
  method SeedCategories(db: Store)
    requires db.Valid()
    modifies db
    ensures db.Valid()
    ensures db.users == old(db.users) && db.posts == old(db.posts) && db.comments == old(db.comments)
    ensures |db.categories| == |CategoryNames|
    ensures forall i :: 0 <= i < |CategoryNames| ==>
      && db.categories[i].name == CategoryNames[i]
      && db.categories[i].slug == Slugify(CategoryNames[i])
      && db.categories[i].description.None?
  {
    db.ClearCategories();
    var i := 0;
    while i < |CategoryNames|
      invariant 0 <= i <= |CategoryNames|
      invariant db.Valid()
      invariant db.users == old(db.users) && db.posts == old(db.posts) && db.comments == old(db.comments)
      invariant SeededUpTo(db.categories, i)
    {
      var _ := SeedOne(db, i);
      i := i + 1;
    }
    SeededSlugsDerived(db.categories);
  }

  /** Once all fifteen are seeded, each stored slug is the one the hook
      derives from its name. */
  lemma SeededSlugsDerived(categories: seq<Category>)
    requires SeededUpTo(categories, |CategoryNames|)
    ensures |categories| == |CategoryNames|
    ensures forall j :: 0 <= j < |CategoryNames| ==>
      && categories[j].name == CategoryNames[j]
      && categories[j].slug == Slugify(CategoryNames[j])
      && categories[j].description.None?
  {
    forall j | 0 <= j < |CategoryNames| ensures categories[j].slug == Slugify(CategoryNames[j]) {
      CategorySlugAt(j);
    }
  }
}
