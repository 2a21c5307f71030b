/** The document schemas of the blog: users, posts, comments and categories as
    stored records, the closed list of category names, the field validators
    that run before a save, and the pre-save hooks that derive slugs. A
    document being built for a save is a class whose fields the setters and
    hooks assign; a stored document is a value. */
module Schema {
  import opened Common
  import opened Text
  import opened Slug

  /** Object ids, handed out by the store in increasing order. */
  type Id = nat

  datatype Role = Standard | Admin

  /** A bcrypt digest, abstracted as an ideal one-way hash: the cost factor,
      the random salt, and the part of the password it was made from, which
      only `Compare` consults. */
  datatype PasswordHash = Bcrypt(cost: nat, salt: nat, preimage: string)

  /** bcrypt reads at most 72 bytes of the password and ignores the rest. */
  const BcryptMaxKey: nat := 72

  /** The part of a password that bcrypt hashes. */
  function BcryptKey(password: string): (k: string)
    ensures |password| <= BcryptMaxKey ==> k == password
    ensures |password| > BcryptMaxKey ==> |k| == BcryptMaxKey && password == k + password[BcryptMaxKey..]
  {
    if |password| <= BcryptMaxKey then password else password[..BcryptMaxKey]
  }

  /** `bcrypt.hash(password, 10)` with the salt drawn by the caller. */
  function Hash(password: string, salt: nat): (d: PasswordHash)
    ensures d.cost == 10 && d.salt == salt
    ensures Compare(password, d)
  {
    Bcrypt(10, salt, BcryptKey(password))
  }

  /** `bcrypt.compare(password, digest)`. */
  predicate Compare(password: string, digest: PasswordHash)
    ensures Compare(password, digest) ==>
      |digest.preimage| <= BcryptMaxKey && |digest.preimage| <= |password|
      && password[..|digest.preimage|] == digest.preimage
    ensures |password| <= BcryptMaxKey ==> (Compare(password, digest) <==> digest.preimage == password)
  {
    digest.preimage == BcryptKey(password)
  }

  /** A digest accepts exactly the passwords that agree with the one it was
      made from on their first 72 characters, whatever the salt; for passwords
      of at most 72 characters, exactly that password. */
  lemma CompareAcceptsOnlyThePassword(password: string, attempt: string, salt: nat)
    ensures Compare(attempt, Hash(password, salt)) <==> BcryptKey(attempt) == BcryptKey(password)
    ensures |password| <= BcryptMaxKey && |attempt| <= BcryptMaxKey ==>
      (Compare(attempt, Hash(password, salt)) <==> attempt == password)
  {
  }

  /** A password longer than 72 characters is accepted with any other ending. */
  lemma CompareIgnoresTail(password: string, tail: string, salt: nat)
    requires |password| >= BcryptMaxKey
    ensures Compare(password + tail, Hash(password, salt))
  {
    assert (password + tail)[..BcryptMaxKey] == password[..BcryptMaxKey];
  }

  datatype User = User(
    id: Id,
    username: string,
    email: string,
    password: PasswordHash,
    role: Role,
    avatar: Option<string>,
    createdAt: nat)

  datatype Post = Post(
    id: Id,
    title: string,
    slug: string,
    content: string,
    author: Id,
    category: Id,
    thumbnail: Option<string>,
    views: nat,
    createdAt: nat)

  datatype Comment = Comment(
    id: Id,
    content: string,
    author: Id,
    post: Id,
    createdAt: nat)

  datatype Category = Category(
    id: Id,
    name: string,
    slug: string,
    description: Option<string>,
    createdAt: nat)

  /** The category `name` enumeration, in declaration order. */
  const CategoryNames: seq<string> := [
    "Technology", "Travel", "Food", "Lifestyle", "Health & Fitness",
    "Fashion", "Education", "Business", "Entertainment", "Sports",
    "Art & Design", "Science", "Personal Development", "News", "Opinion"
  ]

  /** The slug the pre-save hook derives for each enumerated name. */
  const CategorySlugs: seq<string> := [
    "technology", "travel", "food", "lifestyle", "health-fitness",
    "fashion", "education", "business", "entertainment", "sports",
    "art-design", "science", "personal-development", "news", "opinion"
  ]

  const DescriptionMaxLength: nat := 200

  /** `n` is the enumerated name at position `i` or at a later one. Stated
      one position at a time, so a proof unfolds only the names it needs. */
  predicate EnumeratedFrom(n: string, i: nat)
    decreases |CategoryNames| - i
  {
    i < |CategoryNames| && (CategoryNames[i] == n || EnumeratedFrom(n, i + 1))
  }

  lemma {:induction false} EnumeratedFromIndex(n: string, i: nat)
    ensures EnumeratedFrom(n, i) <==> exists j :: i <= j < |CategoryNames| && CategoryNames[j] == n
    decreases |CategoryNames| - i
  {
    if i < |CategoryNames| {
      EnumeratedFromIndex(n, i + 1);
      if EnumeratedFrom(n, i + 1) {
        var j :| i + 1 <= j < |CategoryNames| && CategoryNames[j] == n;
      }
    }
  }

  /** The `enum` validator of `name`. */
  predicate IsCategoryName(n: string)
  {
    EnumeratedFrom(n, 0)
  }

  /** The validator accepts exactly the fifteen enumerated names. */
  lemma IsCategoryNameIff(n: string)
    ensures IsCategoryName(n) <==> n in CategoryNames
  {
    EnumeratedFromIndex(n, 0);
  }

  /** Each of the fifteen category names derives the listed slug, for
      instance "Health & Fitness" derives "health-fitness". */
  lemma CategorySlugAt(i: nat)
    requires i < |CategoryNames|
    ensures |CategorySlugs| == |CategoryNames| == 15
    ensures Slugify(CategoryNames[i]) == CategorySlugs[i]
  {
    if i == 0 {
      assert CategoryNames[0] == "Technology" && CategorySlugs[0] == "technology";
      SlugOfTechnology();
    } else if i == 1 {
      assert CategoryNames[1] == "Travel" && CategorySlugs[1] == "travel";
      SlugOfTravel();
    } else if i == 2 {
      assert CategoryNames[2] == "Food" && CategorySlugs[2] == "food";
      SlugOfFood();
    } else if i == 3 {
      assert CategoryNames[3] == "Lifestyle" && CategorySlugs[3] == "lifestyle";
      SlugOfLifestyle();
    } else if i == 4 {
      assert CategoryNames[4] == "Health & Fitness" && CategorySlugs[4] == "health-fitness";
      SlugOfHealthAndFitness();
    } else if i == 5 {
      assert CategoryNames[5] == "Fashion" && CategorySlugs[5] == "fashion";
      SlugOfFashion();
    } else if i == 6 {
      assert CategoryNames[6] == "Education" && CategorySlugs[6] == "education";
      SlugOfEducation();
    } else if i == 7 {
      assert CategoryNames[7] == "Business" && CategorySlugs[7] == "business";
      SlugOfBusiness();
    } else if i == 8 {
      assert CategoryNames[8] == "Entertainment" && CategorySlugs[8] == "entertainment";
      SlugOfEntertainment();
    } else if i == 9 {
      assert CategoryNames[9] == "Sports" && CategorySlugs[9] == "sports";
      SlugOfSports();
    } else if i == 10 {
      assert CategoryNames[10] == "Art & Design" && CategorySlugs[10] == "art-design";
      SlugOfArtAndDesign();
    } else if i == 11 {
      assert CategoryNames[11] == "Science" && CategorySlugs[11] == "science";
      SlugOfScience();
    } else if i == 12 {
      assert CategoryNames[12] == "Personal Development" && CategorySlugs[12] == "personal-development";
      SlugOfPersonalDevelopment();
    } else if i == 13 {
      assert CategoryNames[13] == "News" && CategorySlugs[13] == "news";
      SlugOfNews();
    } else if i == 14 {
      assert CategoryNames[14] == "Opinion" && CategorySlugs[14] == "opinion";
      SlugOfOpinion();
    }
  }

  lemma SlugOfTechnology()
    ensures Slugify("Technology") == "technology"
  {
    SlugOfWord("Technology", "technology");
  }

  lemma SlugOfTravel()
    ensures Slugify("Travel") == "travel"
  {
    SlugOfWord("Travel", "travel");
  }

  lemma SlugOfFood()
    ensures Slugify("Food") == "food"
  {
    SlugOfWord("Food", "food");
  }

  lemma SlugOfLifestyle()
    ensures Slugify("Lifestyle") == "lifestyle"
  {
    SlugOfWord("Lifestyle", "lifestyle");
  }

  lemma SlugOfHealthAndFitness()
    ensures Slugify("Health & Fitness") == "health-fitness"
  {
    HealthAndFitnessJoins();
    assert Lower("Health") == "health" && Lower(" & ") == " & " && Lower("Fitness") == "fitness";
    assert AllAlnum("health") && AllAlnum("fitness") && NoAlnum(" & ");
    SlugOfTwoWords("Health", " & ", "Fitness", "health", "fitness");
  }

  lemma HealthAndFitnessJoins()
    ensures "Health" + " & " + "Fitness" == "Health & Fitness"
    ensures "health" + "-" + "fitness" == "health-fitness"
  {
  }

  lemma SlugOfFashion()
    ensures Slugify("Fashion") == "fashion"
  {
    SlugOfWord("Fashion", "fashion");
  }

  lemma SlugOfEducation()
    ensures Slugify("Education") == "education"
  {
    SlugOfWord("Education", "education");
  }

  lemma SlugOfBusiness()
    ensures Slugify("Business") == "business"
  {
    SlugOfWord("Business", "business");
  }

  lemma SlugOfEntertainment()
    ensures Slugify("Entertainment") == "entertainment"
  {
    SlugOfWord("Entertainment", "entertainment");
  }

  lemma SlugOfSports()
    ensures Slugify("Sports") == "sports"
  {
    SlugOfWord("Sports", "sports");
  }

  lemma SlugOfArtAndDesign()
    ensures Slugify("Art & Design") == "art-design"
  {
    ArtAndDesignJoins();
    assert Lower("Art") == "art" && Lower(" & ") == " & " && Lower("Design") == "design";
    assert AllAlnum("art") && AllAlnum("design") && NoAlnum(" & ");
    SlugOfTwoWords("Art", " & ", "Design", "art", "design");
  }

  lemma ArtAndDesignJoins()
    ensures "Art" + " & " + "Design" == "Art & Design"
    ensures "art" + "-" + "design" == "art-design"
  {
  }

  lemma SlugOfScience()
    ensures Slugify("Science") == "science"
  {
    SlugOfWord("Science", "science");
  }

  lemma SlugOfPersonalDevelopment()
    ensures Slugify("Personal Development") == "personal-development"
  {
    PersonalDevelopmentJoins();
    assert Lower("Personal") == "personal" && Lower(" ") == " " && Lower("Development") == "development";
    assert AllAlnum("personal") && AllAlnum("development") && NoAlnum(" ");
    SlugOfTwoWords("Personal", " ", "Development", "personal", "development");
  }

  lemma PersonalDevelopmentJoins()
    ensures "Personal" + " " + "Development" == "Personal Development"
    ensures "personal" + "-" + "development" == "personal-development"
  {
  }

  lemma SlugOfNews()
    ensures Slugify("News") == "news"
  {
    SlugOfWord("News", "news");
  }

  lemma SlugOfOpinion()
    ensures Slugify("Opinion") == "opinion"
  {
    SlugOfWord("Opinion", "opinion");
  }

  /** The fifteen names are pairwise distinct and so are their fifteen slugs,
      so seeding them all never trips the unique name or slug index. */
  lemma CategorySlugsDistinct()
    ensures forall i, j :: 0 <= i < j < |CategoryNames| ==> CategoryNames[i] != CategoryNames[j]
    ensures forall i, j :: 0 <= i < j < |CategoryNames| ==>
      Slugify(CategoryNames[i]) != Slugify(CategoryNames[j])
  {
    assert forall i, j :: 0 <= i < j < |CategorySlugs| ==> CategorySlugs[i] != CategorySlugs[j];
    forall i, j | 0 <= i < j < |CategoryNames|
      ensures Slugify(CategoryNames[i]) != Slugify(CategoryNames[j])
    {
      CategorySlugAt(i);
      CategorySlugAt(j);
    }
  }

  /** The category validators in schema order: `name` is required (after the
      trim setter) and must be one of the enumeration, `description` is at
      most 200 characters. The result lists every failing validator's message. */
  function CategoryErrors(name: Option<string>, description: Option<string>): (errors: seq<string>)
    ensures errors == [] <==>
      && name.Some? && IsCategoryName(name.value)
      && (description.None? || |description.value| <= DescriptionMaxLength)
    ensures name.Some? && name.value != "" && !IsCategoryName(name.value) ==>
      name.value + " is not a valid category" in errors
  {
    IsCategoryNameIff("");
    (if name.None? || name.value == "" then ["Category name is required"]
     else if !IsCategoryName(name.value) then [name.value + " is not a valid category"]
     else [])
    + (if description.Some? && |description.value| > DescriptionMaxLength
       then ["Description cannot exceed 200 characters"] else [])
  }

  /** A post document under construction: the fields a save validates and
      stores, and whether `title` was assigned since the document was loaded. */
  class PostDoc {
    var title: Option<string>
    var slug: Option<string>
    var content: Option<string>
    var author: Option<Id>
    var category: Option<Id>
    var thumbnail: Option<string>
    var views: nat
    var titleModified: bool

    /** `new Post({...})`: the trim setter on `title`, the defaults
        `thumbnail = null` and `views = 0`, and no slug before the first save. */
    constructor (title: Option<string>, content: Option<string>, category: Option<Id>,
                 thumbnail: Option<string>, author: Option<Id>)
      ensures this.title == (if title.Some? then Some(Trim(title.value)) else None)
      ensures this.content == content && this.category == category && this.author == author
      ensures this.thumbnail == thumbnail && this.views == 0 && this.slug == None
      ensures this.titleModified == title.Some?
    {
      this.title := if title.Some? then Some(Trim(title.value)) else None;
      this.slug := None;
      this.content := content;
      this.author := author;
      this.category := category;
      this.thumbnail := thumbnail;
      this.views := 0;
      this.titleModified := title.Some?;
    }

    /** The `required` validators of `title`, `content`, `author`, `category`. */
    predicate RequiredPresent()
      reads this
    {
      && title.Some? && title.value != ""
      && content.Some? && content.value != ""
      && author.Some? && category.Some?
    }

    /** The pre-save hook: the slug is derived from the title only when the
        title was modified; otherwise the stored slug is kept. */
    method PreSave()
      modifies this`slug
      ensures unchanged(this`title, this`titleModified, this`content, this`author, this`category,
                        this`thumbnail, this`views)
      ensures titleModified && title.Some? ==> slug == Some(Slugify(title.value))
      ensures !(titleModified && title.Some?) ==> slug == old(slug)
    {
      if titleModified && title.Some? {
        slug := Some(Slugify(title.value));
      }
    }

    /** The record a successful save stores. */
    function Stored(id: Id, createdAt: nat): (p: Post)
      reads this
      requires RequiredPresent() && slug.Some?
      ensures p.title == title.value && p.slug == slug.value && p.views == views
    {
      Post(id, title.value, slug.value, content.value, author.value, category.value,
           thumbnail, views, createdAt)
    }
  }

  /** A category document under construction. */
  class CategoryDoc {
    var name: Option<string>
    var slug: Option<string>
    var description: Option<string>
    var nameModified: bool

    /** `new Category({ name })`: the trim setter on `name` and the default
        `description = null`. */
    constructor (name: Option<string>)
      ensures this.name == (if name.Some? then Some(Trim(name.value)) else None)
      ensures this.slug == None && this.description == None
      ensures this.nameModified == name.Some?
    {
      this.name := if name.Some? then Some(Trim(name.value)) else None;
      this.slug := None;
      this.description := None;
      this.nameModified := name.Some?;
    }

    /** The pre-save hook: the slug is derived from the name when the name was
        modified. */
    method PreSave()
      modifies this`slug
      ensures unchanged(this`name, this`nameModified, this`description)
      ensures nameModified && name.Some? ==> slug == Some(Slugify(name.value))
      ensures !(nameModified && name.Some?) ==> slug == old(slug)
    {
      if nameModified && name.Some? {
        slug := Some(Slugify(name.value));
      }
    }

    function Stored(id: Id, createdAt: nat): (c: Category)
      reads this
      requires name.Some? && slug.Some?
      ensures c.name == name.value && c.slug == slug.value && c.description == description
    {
      Category(id, name.value, slug.value, description, createdAt)
    }
  }

  /** The comment schema's `required` validators. The schema does not trim:
      a content of spaces alone passes here, and only the handler rejects it. */
  predicate CommentRequiredPresent(content: Option<string>, author: Option<Id>, post: Option<Id>)
  {
    content.Some? && content.value != "" && author.Some? && post.Some?
  }

  lemma SchemaDoesNotTrimComments()
    ensures CommentRequiredPresent(Some("   "), Some(1), Some(2))
    ensures Trim("   ") == ""
  {
    TrimEmptyIff("   ");
  }
}
