/** The story list shown by the App component and the search filter that
    selects the stories whose title contains the search term. */
module Stories {
  import opened Text

  /** One story record: `{title, url, author, num_comments, points, objectID}`. */
  datatype Story = Story(
    title: string,
    url: string,
    author: string,
    numComments: int,
    points: int,
    objectID: int)

  /** The fixed list of stories the component renders. */
  const SeedStories: seq<Story> := [
    Story("React", "https://reactjs.org/", "Jordan Walke", 3, 4, 0),
    Story("Redux", "https://redux.js.org/", "Dan Abramov, Andrew Clark", 2, 5, 1)
  ]

  /** The filter's test: the lower-cased title includes the lower-cased term. */
  predicate Matches(story: Story, term: string)
  {
    Includes(ToLower(story.title), ToLower(term))
  }

  /** The stories shown for a search term: those that match it, in the order
      of the list, each kept as often as it appears. */
  function SearchedStories(stories: seq<Story>, term: string): (r: seq<Story>)
    ensures |r| <= |stories|
  {
    if stories == [] then []
    else if Matches(stories[0], term) then [stories[0]] + SearchedStories(stories[1..], term)
    else SearchedStories(stories[1..], term)
  }

  /** A story is in the result exactly when it is in the input and matches:
      the filter keeps nothing that fails the test and drops nothing that passes. */
  lemma {:induction false} SearchMembership(stories: seq<Story>, term: string)
    ensures forall s :: s in SearchedStories(stories, term) <==> s in stories && Matches(s, term)
  {
    if stories != [] {
      SearchMembership(stories[1..], term);
      assert stories == [stories[0]] + stories[1..];
    }
  }

  /** `sub` is `s` with some elements dropped and the rest kept in order. */
  predicate IsSubsequence<T(==)>(sub: seq<T>, s: seq<T>)
    decreases |s|
  {
    if sub == [] then true
    else if s == [] then false
    else (sub[0] == s[0] && IsSubsequence(sub[1..], s[1..])) || IsSubsequence(sub, s[1..])
  }

  /** The search result keeps the stories in their original order. */
  lemma {:induction false} SearchIsSubsequence(stories: seq<Story>, term: string)
    ensures IsSubsequence(SearchedStories(stories, term), stories)
  {
    if stories != [] {
      var r := SearchedStories(stories, term);
      SearchIsSubsequence(stories[1..], term);
      if Matches(stories[0], term) {
        assert r[1..] == SearchedStories(stories[1..], term);
      } else if r != [] {
        assert r == SearchedStories(stories[1..], term);
      }
    }
  }

  /** Every element of a subsequence is an element of the sequence. */
  lemma {:induction false} SubsequenceMembers<T>(sub: seq<T>, s: seq<T>)
    requires IsSubsequence(sub, s)
    ensures forall x :: x in sub ==> x in s
    decreases |s|
  {
    if sub != [] {
      if sub[0] == s[0] && IsSubsequence(sub[1..], s[1..]) {
        SubsequenceMembers(sub[1..], s[1..]);
        forall x | x in sub ensures x in s {
          if x != sub[0] { assert x in sub[1..]; }
        }
      } else {
        SubsequenceMembers(sub, s[1..]);
      }
    }
  }

  /** A subsequence is never longer than the sequence. */
  lemma {:induction false} SubsequenceLength<T>(sub: seq<T>, s: seq<T>)
    requires IsSubsequence(sub, s)
    ensures |sub| <= |s|
    decreases |s|
  {
    if sub != [] {
      if sub[0] == s[0] && IsSubsequence(sub[1..], s[1..]) {
        SubsequenceLength(sub[1..], s[1..]);
      } else {
        SubsequenceLength(sub, s[1..]);
      }
    }
  }

  /** A story matches exactly when the lower-cased term occurs somewhere in
      the lower-cased title. */
  lemma MatchesIff(story: Story, term: string)
    ensures Matches(story, term)
            <==> exists i :: OccursAt(ToLower(story.title), ToLower(term), i)
  {
    IncludesIff(ToLower(story.title), ToLower(term));
    if Matches(story, term) {
      var k :| OccursAt(ToLower(story.title), ToLower(term), k);
      assert exists i :: OccursAt(ToLower(story.title), ToLower(term), i);
    }
  }

  /** The empty term matches every story. */
  lemma EmptyTermMatches(story: Story)
    ensures Matches(story, "")
  {
    IncludesEmpty(ToLower(story.title));
  }

  /** A story matches only terms no longer than its title. */
  lemma MatchBoundsTerm(story: Story, term: string)
    requires Matches(story, term)
    ensures |term| <= |story.title|
  {
  }

  /** The filter keeps every occurrence of a matching story and no
      occurrence of any other: the result counts each story exactly as
      often as the input does when it matches, and never otherwise. */
  lemma {:induction false} SearchCounts(stories: seq<Story>, term: string, x: Story)
    ensures multiset(SearchedStories(stories, term))[x]
            == if Matches(x, term) then multiset(stories)[x] else 0
  {
    if stories != [] {
      SearchCounts(stories[1..], term, x);
      assert stories == [stories[0]] + stories[1..];
    }
  }

  /** Filtering a concatenation filters each part. */
  lemma {:induction false} SearchConcat(a: seq<Story>, b: seq<Story>, term: string)
    ensures SearchedStories(a + b, term) == SearchedStories(a, term) + SearchedStories(b, term)
  {
    if a != [] {
      SearchConcat(a[1..], b, term);
      assert (a + b)[1..] == a[1..] + b;
    } else {
      assert a + b == b;
    }
  }

  /** The empty term keeps every story, since "" is part of every title. */
  lemma {:induction false} EmptyTermKeepsAll(stories: seq<Story>)
    ensures SearchedStories(stories, "") == stories
  {
    if stories != [] {
      IncludesEmpty(ToLower(stories[0].title));
      EmptyTermKeepsAll(stories[1..]);
    }
  }

  /** Two terms with the same lower-case form select the same stories. */
  lemma {:induction false} SearchIsCaseInsensitive(stories: seq<Story>, t1: string, t2: string)
    requires ToLower(t1) == ToLower(t2)
    ensures SearchedStories(stories, t1) == SearchedStories(stories, t2)
  {
    if stories != [] {
      SearchIsCaseInsensitive(stories[1..], t1, t2);
    }
  }

  /** Searching for a term and for its lower-case form gives the same result. */
  lemma SearchLowerTerm(stories: seq<Story>, term: string)
    ensures SearchedStories(stories, ToLower(term)) == SearchedStories(stories, term)
  {
    ToLowerIdempotent(term);
    SearchIsCaseInsensitive(stories, ToLower(term), term);
  }

  /** The stories carry pairwise distinct `objectID`s. */
  predicate DistinctIDs(stories: seq<Story>)
  {
    forall i, j :: 0 <= i < j < |stories| ==> stories[i].objectID != stories[j].objectID
  }

  /** Dropping elements while keeping order cannot create a duplicate ID. */
  lemma {:induction false} SubsequenceDistinctIDs(sub: seq<Story>, s: seq<Story>)
    requires IsSubsequence(sub, s)
    requires DistinctIDs(s)
    ensures DistinctIDs(sub)
    decreases |s|
  {
    if sub != [] {
      assert DistinctIDs(s[1..]) by {
        forall i, j | 0 <= i < j < |s[1..]|
          ensures s[1..][i].objectID != s[1..][j].objectID
        {
          assert s[1..][i] == s[i + 1] && s[1..][j] == s[j + 1];
        }
      }
      if sub[0] == s[0] && IsSubsequence(sub[1..], s[1..]) {
        SubsequenceDistinctIDs(sub[1..], s[1..]);
        SubsequenceMembers(sub[1..], s[1..]);
        forall i, j | 0 <= i < j < |sub|
          ensures sub[i].objectID != sub[j].objectID
        {
          if i == 0 {
            assert sub[j] == sub[1..][j - 1];
            assert sub[j] in s[1..];
            var k :| 0 <= k < |s[1..]| && s[1..][k] == sub[j];
            assert s[k + 1] == sub[j];
          } else {
            assert sub[i] == sub[1..][i - 1] && sub[j] == sub[1..][j - 1];
          }
        }
      } else {
        SubsequenceDistinctIDs(sub, s[1..]);
      }
    }
  }

  /** Stories with distinct IDs stay distinct after the search, so the IDs
      remain usable as list keys. */
  lemma SearchPreservesDistinctIDs(stories: seq<Story>, term: string)
    requires DistinctIDs(stories)
    ensures DistinctIDs(SearchedStories(stories, term))
  {
    SearchIsSubsequence(stories, term);
    SubsequenceDistinctIDs(SearchedStories(stories, term), stories);
  }

  /** The seed list has distinct IDs (0 and 1), and so has every search over it. */
  lemma SeedSearchDistinctIDs(term: string)
    ensures DistinctIDs(SearchedStories(SeedStories, term))
  {
    SearchPreservesDistinctIDs(SeedStories, term);
  }

  /** The seed titles in lower case. */
  lemma SeedTitlesLower()
    ensures ToLower(SeedStories[0].title) == "react"
    ensures ToLower(SeedStories[1].title) == "redux"
  {
    assert ToLower("React") == "react";
    assert ToLower("Redux") == "redux";
  }

  /** A search over the seed list keeps the React story when it matches, then
      the Redux story when it matches. */
  lemma SeedSearchShape(term: string)
    ensures SearchedStories(SeedStories, term)
            == (if Matches(SeedStories[0], term) then [SeedStories[0]] else [])
               + (if Matches(SeedStories[1], term) then [SeedStories[1]] else [])
  {
    var s0, s1 := SeedStories[0], SeedStories[1];
    assert SeedStories[1..] == [s1] && [s1][1..] == [];
    var last := SearchedStories([s1], term);
    assert last == if Matches(s1, term) then [s1] else [];
    if Matches(s0, term) {
      assert SearchedStories(SeedStories, term) == [s0] + last;
    } else {
      assert SearchedStories(SeedStories, term) == last;
    }
  }

  /** The initial term 'React' shows only the React story. */
  lemma SeedSearchReact()
    ensures SearchedStories(SeedStories, "React") == [SeedStories[0]]
  {
    SeedTitlesLower();
    assert ToLower("React") == "react";
    assert !Includes("redux", "react");
    SeedSearchShape("React");
  }

  /** 'REACT' and 'react' select the same stories as 'React'. */
  lemma SeedSearchUpperCase()
    ensures SearchedStories(SeedStories, "REACT") == SearchedStories(SeedStories, "react")
    ensures SearchedStories(SeedStories, "REACT") == [SeedStories[0]]
  {
    assert ToLower("REACT") == "react";
    assert ToLower("react") == "react";
    assert ToLower("React") == "react";
    SeedSearchReact();
    SearchIsCaseInsensitive(SeedStories, "REACT", "React");
    SearchIsCaseInsensitive(SeedStories, "react", "React");
  }

  /** 're' is part of both titles, so both stories stay. */
  lemma SeedSearchCommonPrefix()
    ensures SearchedStories(SeedStories, "re") == SeedStories
  {
    SeedTitlesLower();
    assert ToLower("re") == "re";
    assert "re" <= "react" && "re" <= "redux";
    assert Matches(SeedStories[0], "re") && Matches(SeedStories[1], "re");
    SeedSearchShape("re");
  }

  /** 'ux' occurs inside "redux" but nowhere in "react". */
  lemma UxOccurrences()
    ensures Includes("redux", "ux")
    ensures !Includes("react", "ux")
  {
    assert OccursAt("redux", "ux", 3);
    IncludesIff("redux", "ux");
    forall i ensures !OccursAt("react", "ux", i) {
      if 0 <= i <= 3 { assert "react"[i + 1] != 'x'; }
    }
    IncludesIff("react", "ux");
  }

  /** 'ux' is in 'Redux' but not at its start: the match need not be a prefix. */
  lemma SeedSearchInfix()
    ensures SearchedStories(SeedStories, "ux") == [SeedStories[1]]
  {
    SeedTitlesLower();
    assert ToLower("ux") == "ux";
    UxOccurrences();
    assert !Matches(SeedStories[0], "ux") && Matches(SeedStories[1], "ux");
    SeedSearchShape("ux");
  }
}
