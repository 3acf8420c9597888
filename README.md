# Search-and-list view: story filter and persisted search term

This project models the logic of the `App` component in `src/App.js`, in Dafny.
The component holds a fixed list of two stories, React and Redux. It keeps a search
term that starts from the value in browser storage, or `'React'` when storage holds
nothing usable. It writes the term back to storage whenever the term changes. It shows
the stories whose lower-cased title contains the lower-cased term.

Modules:

- `Text` (`text.dfy`): `toLowerCase` restricted to ASCII letters (`ToLower`). `includes` as
  substring search (`Includes`). `IncludesIff` ties `Includes` to a reference definition:
  the needle occurs at some offset.
- `Stories` (`stories.dfy`): the `Story` record, the seed list `SeedStories`, and the
  filter `SearchedStories` written as a pure function on sequences. The lemmas prove
  order preservation, soundness, completeness, exact occurrence counts, the empty-term
  case, case-insensitivity and `objectID` uniqueness.
- `Persistence` (`persistence.dfy`): browser storage as a class `LocalStorage` over a
  `map<string, string>`. `InitialSearchTerm` models `getItem(...) || 'React'`. The class
  `App` holds the term. Its invariant `Valid()` says storage holds the current term under
  `'searchTerm'` (write-through). The three client methods at the end are a reload round
  trip, a first visit, and a same-term change that leaves another writer's stored value
  in place.

The component's own code has no reducer, network fetch, request token or delete
action, so none of them appears here.

## Model

| member | source | states |
|---|---|---|
| Text.LowerCharSpec | src/App.js:34 | `LowerChar`, one character lower-cased: never an ASCII capital afterwards; a capital becomes the letter 32 code points above it; any other character is unchanged |
| Text.ToLower | src/App.js:34 | the lower-cased string has the same length, lower-cases every character in place, and contains no ASCII capital |
| Text.ToLowerIdempotent | src/App.js:34 | lower-casing an already lower-cased string changes nothing |
| Text.ToLowerOfLower | src/App.js:34 | a string with no ASCII capital is its own lower-case form |
| Text.Includes | src/App.js:34 | `includes`: true only when the needle is no longer than the haystack; `IncludesIff` gives its full meaning |
| Text.IncludesIff | src/App.js:34 | `includes` is true exactly when the needle occurs in the haystack at some offset (both directions) |
| Text.IncludesEmpty | src/App.js:34 | every string includes the empty string |
| Stories.MatchesIff | src/App.js:34 | the filter's test `Matches` on one story holds exactly when the lower-cased term occurs at some offset of the lower-cased title (both directions) |
| Stories.EmptyTermMatches | src/App.js:34 | the empty term passes the filter's test for every story |
| Stories.MatchBoundsTerm | src/App.js:34 | a story passes the test only for terms no longer than its title |
| Stories.SearchedStories | src/App.js:33-35 | the result is never longer than the input |
| Stories.SearchMembership | src/App.js:33-35 | a story is in the result exactly when it is in the input and passes the test: nothing failing is kept, nothing passing is dropped |
| Stories.SearchIsSubsequence | src/App.js:33-35 | the result is an order-preserving subsequence of the input stories |
| Stories.SubsequenceMembers | src/App.js:33-35 | every element of an order-preserving subsequence is an element of the sequence |
| Stories.SubsequenceLength | src/App.js:33-35 | an order-preserving subsequence is never longer than the sequence |
| Stories.SearchCounts | src/App.js:33-35 | a matching story occurs in the result exactly as often as in the input; a non-matching story never occurs |
| Stories.SearchConcat | src/App.js:33-35 | filtering a concatenation equals concatenating the filtered parts |
| Stories.EmptyTermKeepsAll | src/App.js:34 | the empty term keeps every story, in the original order |
| Stories.SearchIsCaseInsensitive | src/App.js:34 | two terms with the same lower-case form select exactly the same stories |
| Stories.SearchLowerTerm | src/App.js:34 | searching for a term and for its lower-cased form gives the same result |
| Stories.SubsequenceDistinctIDs | src/App.js:33-35 | an order-preserving subsequence of stories with distinct `objectID`s has distinct `objectID`s |
| Stories.SearchPreservesDistinctIDs | src/App.js:33-35 | when the input stories have distinct `objectID`s, so does the search result, so the ids work as list keys (line 61) |
| Stories.SeedSearchDistinctIDs | src/App.js:4-21 | every search over the seed list (ids 0 and 1) yields stories with distinct `objectID`s |
| Stories.SeedTitlesLower | src/App.js:4-21 | the seed titles lower-case to "react" and "redux" |
| Stories.SeedSearchShape | src/App.js:4-35 | any search over the seed list keeps the React story when it matches, then the Redux story when it matches, and nothing else |
| Stories.SeedSearchReact | src/App.js:4-23 | the default term 'React' shows exactly the React story of the seed list |
| Stories.SeedSearchUpperCase | src/App.js:33-35 | 'REACT' and 'react' select the same stories over the seed list: exactly the React story |
| Stories.SeedSearchCommonPrefix | src/App.js:33-35 | 're' keeps both seed stories |
| Stories.UxOccurrences | src/App.js:34 | 'ux' is included in "redux" and not in "react" |
| Stories.SeedSearchInfix | src/App.js:33-35 | 'ux' matches inside 'Redux' but not 'React': containment, not prefix |
| Persistence.Lookup | src/App.js:23 | what `getItem` returns: a value exactly when the key is present, and then the stored value; null (`None`) otherwise |
| Persistence.InitialSearchTerm | src/App.js:23 | the initial term is never empty; it is the stored value when that is present and non-empty, and 'React' when it is absent or empty |
| Persistence.StoredTermRoundTrip | src/App.js:23-27 | after storing a non-empty term under 'searchTerm', seeding from storage yields that term |
| Persistence.StoredEmptyTermFallsBack | src/App.js:23 | a stored empty string comes back as 'React' |
| Persistence.SeedIsStable | src/App.js:23-27 | writing back the seeded term and reloading yields the same term |
| Persistence.LocalStorage.constructor | src/App.js:23 | the storage starts out holding exactly the given key-value map, such as the one left by an earlier visit |
| Persistence.LocalStorage.GetItem | src/App.js:23 | returns `Lookup` of the current map: the value under the key when it is present, and null (`None`) when it is absent |
| Persistence.LocalStorage.SetItem | src/App.js:26 | replaces the value under the key, and leaves every other key unchanged |
| Persistence.App.constructor | src/App.js:23-27 | seeds the term from storage with the 'React' fallback, then writes it back (the effect's first run), so `Valid()` holds |
| Persistence.App.OnSearchChange | src/App.js:25-31 | the new value becomes the term; when it differs from the old term, storage holds it under 'searchTerm' and `Valid()` (write-through) holds afterwards; when it equals the old term, storage is left exactly as it was (no effect run), so `Valid()` is kept when it held before; other keys never change |
| Persistence.App.SearchedStories | src/App.js:33-35 | the rendered stories are the seed stories matching the current term, all of them, in the list's order, with distinct ids |
| Persistence.ReloadKeepsTerm | src/App.js:23-31 | typing a non-empty term and mounting the component again over the same storage restores that term |
| Persistence.SameTermWritesNothing | src/App.js:25-31 | when another writer has replaced the stored term, setting the term the component already has leaves the other writer's value in storage |
| Persistence.FirstVisit | src/App.js:4-35 | on empty storage the term is 'React' and only the React story is shown |

## Left out

- The JSX rendering and the `Search`, `List` and `Item` components (src/App.js:37-76): markup that only passes props on. Only the uniqueness of the list's `key` is stated.
- React's scheduling of `useState` and `useEffect`. A term change and the storage write it triggers are one atomic step in `App.OnSearchChange`. The mount-time run of the effect is part of `App.constructor`.
- The browser's `localStorage` API and its failures (quota, disabled storage). Storage is a `map<string, string>` in `LocalStorage`, so the values are always strings.
- Text.ToLower: lower-cases only the ASCII letters 'A'..'Z'. JavaScript's `toLowerCase` follows full Unicode case mapping, which this model does not reproduce.
- Story fields `num_comments`, `points` and `objectID` are JavaScript numbers. They are modelled as unbounded `int`, since the model does no arithmetic on them.
- Text.ToLower, Text.Includes and Stories.MatchBoundsTerm work on Dafny strings, which are sequences of Unicode scalar values, while JavaScript strings are sequences of UTF-16 code units: a lone surrogate cannot be represented, and lengths count code points rather than `.length` units. On well-formed strings `includes` gives the same answer either way. The bound in Stories.MatchBoundsTerm also rests on the ASCII lower-casing keeping lengths: JavaScript's `'İ'.toLowerCase()` is the two-unit `"i̇"`, so there the title "İ" (length 1) matches the longer term "i̇" (length 2).
