/**
  Category bookkeeping of the persistent store: categories are records
  with a unique title and a `sort` position, and every library manga holds
  a set of categories.  The managed-object context becomes a class whose
  fields are the stored objects; fetch requests become queries over them.
*/
module Categories {
  import opened Wrappers

  /** A stored `CategoryObject`; `id` stands for the object's identity. */
  datatype Category = Category(id: nat, title: string, sort: int)

  /** The key a library manga is looked up by. */
  datatype MangaKey = MangaKey(sourceId: string, mangaId: string)

  /**
    A fetch for `title == %@` with a fetch limit of 1: the first stored
    category with that title, and nothing exactly when no category has it.
  */
  function FindByTitle(categories: seq<Category>, title: string): (r: Option<Category>)
    ensures r.Some? ==> r.value in categories && r.value.title == title
    ensures r.None? <==> forall c :: c in categories ==> c.title != title
  {
    if categories == [] then None
    else if categories[0].title == title then Some(categories[0])
    else FindByTitle(categories[1..], title)
  }

  /**
    The `sort` of the first category of a fetch sorted by `sort`
    descending, or -1 when there is none: the largest `sort` in the store.
  */
  function LastSort(categories: seq<Category>): (r: int)
    ensures categories == [] ==> r == -1
    ensures forall c :: c in categories ==> c.sort <= r
    ensures categories != [] ==> exists c :: c in categories && c.sort == r
  {
    if categories == [] then -1
    else
      var rest := LastSort(categories[1..]);
      if categories[1..] == [] || rest < categories[0].sort then categories[0].sort else rest
  }

  /** No two stored categories share a title. */
  predicate UniqueTitles(categories: seq<Category>) {
    forall i, j :: 0 <= i < j < |categories| ==> categories[i].title != categories[j].title
  }

  /** No two stored categories are the same object. */
  predicate UniqueIds(categories: seq<Category>) {
    forall i, j :: 0 <= i < j < |categories| ==> categories[i].id != categories[j].id
  }

  /** The ids of the stored categories. */
  function Ids(categories: seq<Category>): set<nat> {
    set c | c in categories :: c.id
  }

  /** The categories `addCategoriesToManga` links for `titles`: the one `getCategory` finds for each known title. */
  function LinkedIds(categories: seq<Category>, titles: seq<string>): (ids: set<nat>)
    ensures ids <= Ids(categories)
    ensures forall t :: t in titles && FindByTitle(categories, t).Some? ==> FindByTitle(categories, t).value.id in ids
  {
    set t | t in titles && FindByTitle(categories, t).Some? :: FindByTitle(categories, t).value.id
  }

  /**
    When titles are unique, the linked categories are exactly the stored
    categories whose title is listed; unknown titles add nothing.
  */
  lemma LinkedIdsExact(categories: seq<Category>, titles: seq<string>, c: Category)
    requires UniqueTitles(categories) && UniqueIds(categories) && c in categories
    ensures c.id in LinkedIds(categories, titles) <==> c.title in titles
  {
    if c.id in LinkedIds(categories, titles) {
      var t :| t in titles && FindByTitle(categories, t).Some? && FindByTitle(categories, t).value.id == c.id;
      SameId(categories, FindByTitle(categories, t).value, c);
    }
    if c.title in titles {
      SameTitle(categories, FindByTitle(categories, c.title).value, c);
    }
  }

  lemma SameId(categories: seq<Category>, a: Category, b: Category)
    requires UniqueIds(categories) && a in categories && b in categories && a.id == b.id
    ensures a == b
  {
    var i :| 0 <= i < |categories| && categories[i] == a;
    var j :| 0 <= j < |categories| && categories[j] == b;
    assert i == j;
  }

  lemma SameTitle(categories: seq<Category>, a: Category, b: Category)
    requires UniqueTitles(categories) && a in categories && b in categories && a.title == b.title
    ensures a == b
  {
    var i :| 0 <= i < |categories| && categories[i] == a;
    var j :| 0 <= j < |categories| && categories[j] == b;
    assert i == j;
  }

  class CategoryStore {
    /** The stored category objects, in fetch order. */
    var categories: seq<Category>
    /** The library manga, each with the ids of its categories. */
    var mangaCategories: map<MangaKey, set<nat>>
    /** The identity the next inserted category receives. */
    var nextId: nat

    /**
      Object identities are unique and fresh ones are unused; titles are
      unique, because `createCategory` is the only way in and refuses a
      title already stored; manga link only stored categories.
    */
    ghost predicate Valid()
      reads this
    {
      && UniqueIds(categories)
      && UniqueTitles(categories)
      && (forall c :: c in categories ==> c.id < nextId)
      && (forall k :: k in mangaCategories ==> mangaCategories[k] <= Ids(categories))
    }

    /** A store with no categories whose library holds `library`, none of them categorised. */
    constructor (library: set<MangaKey>)
      ensures Valid()
      ensures categories == [] && mangaCategories.Keys == library
      ensures forall k :: k in mangaCategories ==> mangaCategories[k] == {}
    {
      categories := [];
      mangaCategories := map k | k in library :: {};
      nextId := 0;
    }

    /**
      `clearCategories()`: deletes every category object.  The links that
      pointed at them go with them, so every manga is left uncategorised.
    */
    method ClearCategories()
      requires Valid()
      modifies this
      ensures Valid()
      ensures categories == [] && GetCategories() == []
      ensures nextId == old(nextId)
      ensures mangaCategories.Keys == old(mangaCategories).Keys
      ensures forall k :: k in mangaCategories ==> mangaCategories[k] == {}
    {
      categories := [];
      mangaCategories := map k | k in mangaCategories :: {};
    }

    /** `getCategory(title:)`: the category with that title, or nothing exactly when there is none. */
    function GetCategory(title: string): (r: Option<Category>)
      reads this
      ensures r.Some? ==> r.value in categories && r.value.title == title
      ensures r.None? <==> forall c :: c in categories ==> c.title != title
    {
      FindByTitle(categories, title)
    }

    /** `getCategories()`: every stored category, each once. */
    function GetCategories(): (r: seq<Category>)
      reads this
      ensures |r| == |categories| && forall c :: c in r <==> c in categories
    {
      categories
    }

    /** `getCategories(libraryManga:)`: the set of categories the manga is linked to. */
    function GetCategoriesOfLibraryManga(key: MangaKey): (r: set<Category>)
      reads this
      requires key in mangaCategories
      ensures forall c :: c in r <==> c in categories && c.id in mangaCategories[key]
    {
      set c | c in categories && c.id in mangaCategories[key]
    }

    /** `getCategories(sourceId:mangaId:)`: as above, and empty for a manga that is not in the library. */
    function GetCategoriesOfManga(sourceId: string, mangaId: string): (r: set<Category>)
      reads this
      ensures MangaKey(sourceId, mangaId) !in mangaCategories ==> r == {}
      ensures MangaKey(sourceId, mangaId) in mangaCategories ==>
        forall c :: c in r <==> c in categories && c.id in mangaCategories[MangaKey(sourceId, mangaId)]
    {
      var key := MangaKey(sourceId, mangaId);
      if key in mangaCategories then GetCategoriesOfLibraryManga(key) else {}
    }

    /**
      `createCategory(title:)`: refuses a title that is already stored and
      changes nothing; otherwise inserts one new category with that title,
      placed after every existing one (`sort` one above the largest, 0 in
      an empty store), and modifies nothing else.
    */
    method CreateCategory(title: string) returns (r: Option<Category>)
      requires Valid()
      modifies this
      ensures Valid()
      ensures mangaCategories == old(mangaCategories)
      ensures old(GetCategory(title)).Some? ==> r.None? && categories == old(categories) && nextId == old(nextId)
      ensures old(GetCategory(title)).None? ==>
        && r.Some? && r.value.title == title && r.value.id !in Ids(old(categories))
        && r.value.sort == LastSort(old(categories)) + 1
        && categories == old(categories) + [r.value]
      ensures r.Some? ==> forall c :: c in old(categories) ==> c.sort < r.value.sort
      ensures old(categories) == [] && r.Some? ==> r.value.sort == 0
    {
      if GetCategory(title).Some? {
        return None;
      }
      var lastCategoryIndex := LastSort(categories);
      var category := Category(nextId, title, lastCategoryIndex + 1);
      categories := categories + [category];
      nextId := nextId + 1;
      r := Some(category);
    }

    /**
      `addCategoriesToManga(sourceId:mangaId:categories:)`: links the manga
      to the category `getCategory` finds for each title, skipping unknown
      titles.  Links form a set, so a repeated or already linked title is
      linked once.  Nothing changes when the manga is not in the library,
      and no other manga is touched.
    */
    method AddCategoriesToManga(sourceId: string, mangaId: string, titles: seq<string>)
      requires Valid()
      modifies this
      ensures Valid()
      ensures categories == old(categories) && nextId == old(nextId)
      ensures var key := MangaKey(sourceId, mangaId);
        mangaCategories ==
          if key in old(mangaCategories)
          then old(mangaCategories)[key := old(mangaCategories)[key] + LinkedIds(categories, titles)]
          else old(mangaCategories)
      ensures var key := MangaKey(sourceId, mangaId);
        key in mangaCategories ==> forall c :: c in categories ==>
          (c.id in mangaCategories[key] <==> c.id in old(mangaCategories)[key] || c.title in titles)
    {
      var key := MangaKey(sourceId, mangaId);
      for i := 0 to |titles|
        invariant Valid()
        invariant categories == old(categories) && nextId == old(nextId)
        invariant mangaCategories.Keys == old(mangaCategories).Keys
        invariant forall k :: k in mangaCategories && k != key ==> mangaCategories[k] == old(mangaCategories)[k]
        invariant key in mangaCategories ==>
          mangaCategories[key] == old(mangaCategories)[key] + LinkedIds(categories, titles[..i])
      {
        var category := GetCategory(titles[i]);
        if category.None? {
          assert LinkedIds(categories, titles[..i + 1]) == LinkedIds(categories, titles[..i]);
          continue;
        }
        if key in mangaCategories {
          mangaCategories := mangaCategories[key := mangaCategories[key] + {category.value.id}];
        }
        assert LinkedIds(categories, titles[..i + 1]) == LinkedIds(categories, titles[..i]) + {category.value.id};
      }
      assert titles[..|titles|] == titles;
      forall c | c in categories
        ensures c.id in LinkedIds(categories, titles) <==> c.title in titles
      {
        LinkedIdsExact(categories, titles, c);
      }
    }
  }
}
