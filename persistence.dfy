/** The App component's search term: seeded from browser storage, written
    back to storage on every change, and driving the story filter. */
module Persistence {
  import opened Text
  import opened Stories

  datatype Option<T> = None | Some(value: T)

  /** The storage key the component reads and writes. */
  const SearchTermKey: string := "searchTerm"

  /** The term used when storage holds nothing usable. */
  const DefaultSearchTerm: string := "React"

  /** What `getItem` returns for `key` in the map `items`: null when absent. */
  function Lookup(items: map<string, string>, key: string): (r: Option<string>)
    ensures r.Some? <==> key in items
    ensures r.Some? ==> r.value == items[key]
  {
    if key in items then Some(items[key]) else None
  }

  /** Browser storage, as a map from key to string value. */
  class LocalStorage {
    var items: map<string, string>

    constructor (initial: map<string, string>)
      ensures items == initial
    {
      items := initial;
    }

    /** `localStorage.getItem(key)`. */
    method GetItem(key: string) returns (v: Option<string>)
      ensures v == Lookup(items, key)
    {
      v := Lookup(items, key);
    }

    /** `localStorage.setItem(key, value)`: replaces the value under `key`. */
    method SetItem(key: string, value: string)
      modifies this
      ensures items == old(items)[key := value]
    {
      items := items[key := value];
    }
  }

  /** `localStorage.getItem('searchTerm') || 'React'`: JavaScript's `||`
      falls back both on null and on the (falsy) empty string. */
  function InitialSearchTerm(stored: Option<string>): (term: string)
    ensures term != ""
    ensures stored.Some? && stored.value != "" ==> term == stored.value
    ensures stored.None? || stored.value == "" ==> term == DefaultSearchTerm
  {
    match stored
    case Some(v) => if v != "" then v else DefaultSearchTerm
    case None => DefaultSearchTerm
  }

  /** Storing a non-empty term and seeding from storage again yields that term. */
  lemma StoredTermRoundTrip(items: map<string, string>, term: string)
    requires term != ""
    ensures InitialSearchTerm(Lookup(items[SearchTermKey := term], SearchTermKey)) == term
  {
  }

  /** A stored empty term does not survive a reload: it comes back as 'React'. */
  lemma StoredEmptyTermFallsBack(items: map<string, string>)
    ensures InitialSearchTerm(Lookup(items[SearchTermKey := ""], SearchTermKey)) == DefaultSearchTerm
  {
  }

  /** With storage unchanged in between, seeding twice gives the same term,
      and a seeded term is always a fixed point of the store-and-reload cycle. */
  lemma SeedIsStable(items: map<string, string>)
    ensures var t := InitialSearchTerm(Lookup(items, SearchTermKey));
            InitialSearchTerm(Lookup(items[SearchTermKey := t], SearchTermKey)) == t
  {
    var t := InitialSearchTerm(Lookup(items, SearchTermKey));
    StoredTermRoundTrip(items, t);
  }

  /** The App component's state: its search term and the storage it persists in. */
  class App {
    const stories: seq<Story> := SeedStories
    const storage: LocalStorage
    var searchTerm: string

    /** Write-through: storage holds the current term under its key. */
    predicate Valid()
      reads this, storage
    {
      && SearchTermKey in storage.items
      && storage.items[SearchTermKey] == searchTerm
    }

    /** Mounting the component: `useState` seeds the term from storage, then
        the effect's first run writes that term back. */
    constructor (storage: LocalStorage)
      modifies storage
      ensures this.storage == storage
      ensures searchTerm == InitialSearchTerm(Lookup(old(storage.items), SearchTermKey))
      ensures storage.items == old(storage.items)[SearchTermKey := searchTerm]
      ensures Valid()
    {
      var stored := storage.GetItem(SearchTermKey);
      this.storage := storage;
      this.searchTerm := InitialSearchTerm(stored);
      new;
      storage.SetItem(SearchTermKey, searchTerm);
    }

    /** `onSearchChange`: the new input value becomes the term. Setting the
        term it already has changes nothing, so the effect keyed on the term
        runs only when the value differs, and then stores it. The change and
        the effect's write happen as one step here. */
    method OnSearchChange(value: string)
      modifies this, storage
      ensures searchTerm == value
      ensures storage.items == if old(searchTerm) == value then old(storage.items)
                               else old(storage.items)[SearchTermKey := value]
      ensures old(searchTerm) != value ==> Valid()
      ensures old(Valid()) ==> Valid()
    {
      if value != searchTerm {
        searchTerm := value;
        storage.SetItem(SearchTermKey, searchTerm);
      }
    }

    /** `searchedStories`: the stories the list renders for the current term.
        They appear in the order of the list, and their IDs are distinct, as
        the list's `key` needs. */
    function SearchedStories(): (r: seq<Story>)
      reads this
      ensures forall s :: s in r ==> s in stories && Matches(s, searchTerm)
      ensures forall s :: s in stories && Matches(s, searchTerm) ==> s in r
      ensures IsSubsequence(r, stories)
      ensures DistinctIDs(r)
    {
      SeedSearchDistinctIDs(searchTerm);
      SearchMembership(stories, searchTerm);
      SearchIsSubsequence(stories, searchTerm);
      Stories.SearchedStories(stories, searchTerm)
    }
  }

  /** Types a term, then mounts a fresh component over the same storage, as a
      page reload does; the reloaded component shows the typed term. */
  method ReloadKeepsTerm(storage: LocalStorage, typed: string) returns (reloaded: string)
    requires typed != ""
    modifies storage
    ensures reloaded == typed
    ensures storage.items == old(storage.items)[SearchTermKey := typed]
  {
    var app := new App(storage);
    app.OnSearchChange(typed);
    var again := new App(storage);
    reloaded := again.searchTerm;
  }

  /** A fresh component over empty storage starts with 'React', stores it,
      and shows only the React story. */
  method FirstVisit() returns (term: string, shown: seq<Story>)
    ensures term == DefaultSearchTerm
    ensures shown == [SeedStories[0]]
  {
    var storage := new LocalStorage(map[]);
    var app := new App(storage);
    term := app.searchTerm;
    shown := app.SearchedStories();
    SeedSearchReact();
  }

  /** Another writer replaces the stored term; typing the term the component
      already shows runs no effect, so the other writer's value stays. */
  method SameTermWritesNothing(storage: LocalStorage) returns (stored: string)
    modifies storage
    ensures stored == "X"
  {
    var app := new App(storage);
    app.OnSearchChange("React");
    storage.SetItem(SearchTermKey, "X");
    app.OnSearchChange("React");
    stored := storage.items[SearchTermKey];
  }
}
