/**
  The post listings of the main blueprint. `home` lists every post;
  `search` picks one filter by precedence: the search box, then a category,
  then an archive year, then an author name. Every listing is newest first,
  three posts to a page. Query execution and pagination are not modelled;
  a listing is described by its filter.
 */
module Search {
  import opened Wrappers

  /** The fixed category and archive parameters the sidebar links use. */
  const Categories: seq<string> := ["Travel", "Technology", "Books", "Activities", "Work"]
  const Archives: seq<string> := ["2024", "2023", "2022", "2021", "2020"]

  const PageSize: int := 3

  datatype Filter =
    | AllPosts
    | ContentContains(text: string)      // case-insensitive containment in the content
    | CategoryIs(category: string)
    | DatePostedContains(year: string)   // case-insensitive containment in the date
    | AuthorIs(username: string)

  /** A listing: the filter, newest first, and the page size. */
  datatype Listing = Listing(filter: Filter, newestFirst: bool, perPage: int)

  /** Python truthiness of an optional string argument. */
  predicate Truthy(s: Option<string>) { s.Some? && s.value != "" }

  /** `home`: every post, newest first, three to a page. */
  function Home(): (l: Listing)
    ensures l.filter == AllPosts && l.newestFirst && l.perPage == PageSize
  {
    Listing(AllPosts, true, PageSize)
  }

  /**
    `search`: a non-empty search text wins over any parameter; otherwise a
    parameter naming a category filters by category, one naming an archive
    year filters by date, and any other non-empty parameter is an author
    name; with neither, every post is listed.
   */
  function SearchListing(searchValue: Option<string>, param: Option<string>): (l: Listing)
    ensures l.newestFirst && l.perPage == PageSize
    ensures l.filter.ContentContains? <==> Truthy(searchValue)
    ensures l.filter.ContentContains? ==> l.filter.text == searchValue.value
    ensures l.filter.CategoryIs? <==> !Truthy(searchValue) && param.Some? && param.value in Categories
    ensures l.filter.DatePostedContains? <==> !Truthy(searchValue) && param.Some? && param.value in Archives
    ensures l.filter.AuthorIs? <==>
      !Truthy(searchValue) && Truthy(param) && param.value !in Categories && param.value !in Archives
    ensures l.filter.AllPosts? <==> !Truthy(searchValue) && !Truthy(param)
    ensures l.filter.CategoryIs? || l.filter.DatePostedContains? || l.filter.AuthorIs? ==>
      param.Some? && (l.filter == CategoryIs(param.value) || l.filter == DatePostedContains(param.value)
                      || l.filter == AuthorIs(param.value))
  {
    var filter :=
      if Truthy(searchValue) then ContentContains(searchValue.value)
      else if param.Some? && param.value in Categories then CategoryIs(param.value)
      else if param.Some? && param.value in Archives then DatePostedContains(param.value)
      else if Truthy(param) then AuthorIs(param.value)
      else AllPosts;
    Listing(filter, true, PageSize)
  }

  /** The text or name a filter selects on; `AllPosts` selects on nothing. */
  function Selector(f: Filter): (s: Option<string>)
    ensures f.AllPosts? <==> s.None?
  {
    match f
    case AllPosts => None
    case ContentContains(text) => Some(text)
    case CategoryIs(category) => Some(category)
    case DatePostedContains(year) => Some(year)
    case AuthorIs(username) => Some(username)
  }

  /**
    Only the highest-precedence argument present decides the listing: with
    search text the parameter is irrelevant, and an empty search box behaves
    exactly like a missing one.
   */
  lemma HighestPrecedenceDecides(searchValue: Option<string>, param: Option<string>, other: Option<string>)
    ensures Truthy(searchValue) ==> SearchListing(searchValue, param) == SearchListing(searchValue, other)
    ensures !Truthy(searchValue) ==> SearchListing(searchValue, param) == SearchListing(None, param)
  {
  }

  /**
    The listing selects on exactly the argument that decided it, so two
    different non-empty parameters never yield the same listing.
   */
  lemma ListingKeepsDecidingArgument(searchValue: Option<string>, param: Option<string>, other: Option<string>)
    ensures Truthy(searchValue) ==> Selector(SearchListing(searchValue, param).filter) == searchValue
    ensures !Truthy(searchValue) && Truthy(param) ==> Selector(SearchListing(searchValue, param).filter) == param
    ensures !Truthy(searchValue) && Truthy(param) && Truthy(other) ==>
      (SearchListing(searchValue, param) == SearchListing(searchValue, other) <==> param == other)
  {
    if !Truthy(searchValue) && Truthy(param) && Truthy(other)
       && SearchListing(searchValue, param) == SearchListing(searchValue, other) {
      assert Selector(SearchListing(searchValue, param).filter) == param;
      assert Selector(SearchListing(searchValue, other).filter) == other;
    }
  }

  /** No parameter is both a category and an archive year, so the two branches never compete. */
  lemma CategoriesAndArchivesDisjoint()
    ensures forall p :: p in Categories ==> p !in Archives
  {
  }

  /** With no search text, a parameter naming a category is never read as an author. */
  lemma CategoryNeverAnAuthor(param: string)
    requires param in Categories
    ensures SearchListing(None, Some(param)).filter == CategoryIs(param)
    ensures SearchListing(Some(""), Some(param)).filter == CategoryIs(param)
  {
  }
}
