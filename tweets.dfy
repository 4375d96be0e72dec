/**
 * The tweets list screen: the search state held in the URL, the sort-direction
 * toggle, `updateFilters`, the filter-then-sort pipeline over the fetched
 * tweets, and the choice between the tweet items and the "no tweets" message.
 */
module Tweets {
  import opened Wrappers
  import opened Strings
  import opened Arrays

  /** The fields of a fetched tweet that the list uses; `createdAt` is `getTime()` in milliseconds. */
  datatype Tweet = Tweet(id: string, title: string, createdAt: int)

  // ---------------------------------------------------------------------------
  // Search state and its updates
  // ---------------------------------------------------------------------------

  /** The keys of the search object. */
  datatype SearchKey = SearchString | SortDirection

  /** The list's search parameters, as read from the URL. */
  datatype Search = Search(searchString: string, sortDirection: string)

  const Asc := "asc"
  const Desc := "desc"

  /** `search[name]`. */
  function Get(s: Search, name: SearchKey): (r: string) {
    match name
    case SearchString => s.searchString
    case SortDirection => s.sortDirection
  }

  /** `updateFilters(name, value)`: `{ ...prev, [name]: value }`. */
  function Update(prev: Search, name: SearchKey, value: string): (r: Search)
    ensures Get(r, name) == value
    ensures forall other :: other != name ==> Get(r, other) == Get(prev, other)
  {
    match name
    case SearchString => prev.(searchString := value)
    case SortDirection => prev.(sortDirection := value)
  }

  /** Writing the value a key already holds leaves the search state as it is. */
  lemma UpdateSame(s: Search, name: SearchKey)
    ensures Update(s, name, Get(s, name)) == s
  {
  }

  /** A second update of the same key overrides the first. */
  lemma UpdateTwice(s: Search, name: SearchKey, v: string, w: string)
    ensures Update(Update(s, name, v), name, w) == Update(s, name, w)
  {
  }

  /**
   * The comparator handed to `sort`: negative when `a` goes first, zero when
   * the two are equal in the chosen order. Any direction other than `"asc"`
   * sorts in descending order.
   */
  function Compare(dir: string, a: Tweet, b: Tweet): (r: int)
    ensures r == 0 <==> a.createdAt == b.createdAt
    ensures dir == Asc ==> (r < 0 <==> a.createdAt < b.createdAt)
    ensures dir != Asc ==> (r < 0 <==> a.createdAt > b.createdAt)
  {
    if dir == Asc then a.createdAt - b.createdAt else b.createdAt - a.createdAt
  }

  /** The arrow button's new direction: `"asc"` becomes `"desc"`, anything else `"asc"`. */
  function Toggle(dir: string): (r: string)
    ensures r == Asc || r == Desc
    ensures r == Asc <==> dir != Asc
    ensures forall a, b :: Compare(r, a, b) == Compare(dir, b, a)
  {
    if dir == Asc then Desc else Asc
  }

  /** Toggling twice gives back the direction exactly when it was `"asc"` or `"desc"`. */
  lemma ToggleTwice(dir: string)
    ensures Toggle(Toggle(dir)) == dir <==> dir == Asc || dir == Desc
  {
  }

  /** The arrow button's click handler: `updateFilters('sortDirection', toggled)`. */
  function ToggleSortDirection(s: Search): (r: Search)
    ensures r.searchString == s.searchString
    ensures r.sortDirection == Toggle(s.sortDirection)
  {
    Update(s, SortDirection, Toggle(s.sortDirection))
  }

  /** Two clicks restore a search whose direction is `"asc"` or `"desc"`. */
  lemma ToggleSortDirectionTwice(s: Search)
    requires s.sortDirection == Asc || s.sortDirection == Desc
    ensures ToggleSortDirection(ToggleSortDirection(s)) == s
  {
  }

  // ---------------------------------------------------------------------------
  // The stable sort by `createdAt`
  // ---------------------------------------------------------------------------

  /** `a` may precede `b` in a list sorted with `dir`. */
  predicate InOrder(dir: string, a: Tweet, b: Tweet) {
    Compare(dir, a, b) <= 0
  }

  ghost predicate Sorted(s: seq<Tweet>, dir: string) {
    forall i, j :: 0 <= i < j < |s| ==> InOrder(dir, s[i], s[j])
  }

  /** The filter callback selecting the tweets created at `k`. */
  function CreatedAtIs(k: int): (r: Tweet -> bool) {
    (t: Tweet) => t.createdAt == k
  }

  /** The tweets of `s` created at `k`, in the order of `s`. */
  function WithCreatedAt(s: seq<Tweet>, k: int): (r: seq<Tweet>) {
    Keep(s, CreatedAtIs(k))
  }

  /**
   * Inserts `x` behind every element that may precede it: it moves left only
   * past elements that must follow it, which never share its timestamp.
   */
  function Insert(s: seq<Tweet>, x: Tweet, dir: string): (r: seq<Tweet>)
  {
    if |s| == 0 then [x]
    else if Compare(dir, s[|s| - 1], x) > 0 then Insert(s[..|s| - 1], x, dir) + [s[|s| - 1]]
    else s + [x]
  }

  /** A stable sort with the comparator: each element is inserted in turn, from the left. */
  function Sort(s: seq<Tweet>, dir: string): (r: seq<Tweet>)
  {
    if |s| == 0 then [] else Insert(Sort(s[..|s| - 1], dir), s[|s| - 1], dir)
  }

  lemma {:induction false} InsertPermutes(s: seq<Tweet>, x: Tweet, dir: string)
    ensures multiset(Insert(s, x, dir)) == multiset(s) + multiset{x}
  {
    if |s| > 0 {
      assert s == s[..|s| - 1] + [s[|s| - 1]];
      InsertPermutes(s[..|s| - 1], x, dir);
    }
  }

  /** The sort rearranges its input: nothing is dropped, added or duplicated. */
  lemma {:induction false} SortPermutes(s: seq<Tweet>, dir: string)
    ensures multiset(Sort(s, dir)) == multiset(s)
  {
    if |s| > 0 {
      assert s == s[..|s| - 1] + [s[|s| - 1]];
      SortPermutes(s[..|s| - 1], dir);
      InsertPermutes(Sort(s[..|s| - 1], dir), s[|s| - 1], dir);
    }
  }

  lemma {:induction false} InsertSorted(s: seq<Tweet>, x: Tweet, dir: string)
    requires Sorted(s, dir)
    ensures Sorted(Insert(s, x, dir), dir)
  {
    if |s| > 0 {
      var init, last := s[..|s| - 1], s[|s| - 1];
      if Compare(dir, last, x) > 0 {
        InsertSorted(init, x, dir);
        InsertPermutes(init, x, dir);
        var r := Insert(init, x, dir);
        forall i | 0 <= i < |r| ensures InOrder(dir, r[i], last) {
          assert r[i] in multiset(r);
          assert r[i] in multiset(init) || r[i] == x;
          if r[i] != x {
            var j :| 0 <= j < |init| && init[j] == r[i];
            assert InOrder(dir, s[j], s[|s| - 1]);
          }
        }
      } else {
        forall i | 0 <= i < |s| ensures InOrder(dir, s[i], x) {
          if i < |s| - 1 {
            assert InOrder(dir, s[i], s[|s| - 1]);
          }
        }
      }
    }
  }

  /** The sort's output is ordered by the comparator. */
  lemma {:induction false} SortSorted(s: seq<Tweet>, dir: string)
    ensures Sorted(Sort(s, dir), dir)
  {
    if |s| > 0 {
      SortSorted(s[..|s| - 1], dir);
      InsertSorted(Sort(s[..|s| - 1], dir), s[|s| - 1], dir);
    }
  }

  /** Insertion keeps the order among the tweets of each timestamp: `x` lands behind its peers. */
  lemma {:induction false} InsertStable(s: seq<Tweet>, x: Tweet, dir: string, k: int)
    ensures WithCreatedAt(Insert(s, x, dir), k) == WithCreatedAt(s + [x], k)
  {
    if |s| > 0 && Compare(dir, s[|s| - 1], x) > 0 {
      var init, last := s[..|s| - 1], s[|s| - 1];
      var p := CreatedAtIs(k);
      assert s == init + [last];
      assert Insert(s, x, dir) == Insert(init, x, dir) + [last];
      InsertStable(init, x, dir, k);
      KeepConcat(Insert(init, x, dir), [last], p);
      KeepConcat(init + [x], [last], p);
      SwapDistinct(init, x, last, k);
    }
  }

  /** Two adjacent tweets with different timestamps can trade places without changing any timestamp's subsequence. */
  lemma SwapDistinct(a: seq<Tweet>, x: Tweet, y: Tweet, k: int)
    requires x.createdAt != y.createdAt
    ensures WithCreatedAt(a + [x] + [y], k) == WithCreatedAt(a + [y] + [x], k)
  {
    var p := CreatedAtIs(k);
    assert [x][1..] == [] && [y][1..] == [];
    KeepConcat(a, [x], p);
    KeepConcat(a, [y], p);
    KeepConcat(a + [x], [y], p);
    KeepConcat(a + [y], [x], p);
  }

  /** Stability: the tweets sharing a timestamp come out in their input order. */
  lemma {:induction false} SortStable(s: seq<Tweet>, dir: string, k: int)
    ensures WithCreatedAt(Sort(s, dir), k) == WithCreatedAt(s, k)
  {
    if |s| > 0 {
      var init, last := s[..|s| - 1], s[|s| - 1];
      var p := CreatedAtIs(k);
      calc {
        Keep(Sort(s, dir), p);
        Keep(Insert(Sort(init, dir), last, dir), p);
        { InsertStable(Sort(init, dir), last, dir, k); }
        Keep(Sort(init, dir) + [last], p);
        { KeepConcat(Sort(init, dir), [last], p); }
        Keep(Sort(init, dir), p) + Keep([last], p);
        { SortStable(init, dir, k); }
        Keep(init, p) + Keep([last], p);
        { KeepConcat(init, [last], p); assert s == init + [last]; }
        Keep(s, p);
      }
    }
  }

  /** The comparator is antisymmetric: swapping the arguments negates it. */
  lemma CompareSwap(dir: string, a: Tweet, b: Tweet)
    ensures Compare(dir, b, a) == -Compare(dir, a, b)
  {
  }

  /**
   * A sorted arrangement is determined by its per-timestamp subsequences: two
   * sorted sequences that agree on every timestamp's subsequence are equal.
   */
  lemma {:induction false} StableSortUnique(a: seq<Tweet>, b: seq<Tweet>, dir: string)
    requires Sorted(a, dir) && Sorted(b, dir)
    requires forall k :: WithCreatedAt(a, k) == WithCreatedAt(b, k)
    ensures a == b
    decreases |a|
  {
    if |a| == 0 && |b| > 0 {
      KeepUnfold(b, CreatedAtIs(b[0].createdAt));
      NoGroups(a, b[0].createdAt);
    } else if |a| > 0 && |b| == 0 {
      KeepUnfold(a, CreatedAtIs(a[0].createdAt));
      NoGroups(b, a[0].createdAt);
    } else if |a| > 0 {
      SameHeads(a, b, dir);
      StableSortUnique(a[1..], b[1..], dir);
      assert a == [a[0]] + a[1..] && b == [b[0]] + b[1..];
    }
  }

  /**
   * An empty sequence has no tweets at any timestamp. Called in the two
   * impossible branches above, it names the term `WithCreatedAt(e, k)` that
   * lets the solver instantiate their precondition at `k`.
   */
  lemma NoGroups(e: seq<Tweet>, k: int)
    requires |e| == 0
    ensures WithCreatedAt(e, k) == []
  {
  }

  /** Two such sequences start with the same tweet, and their tails agree on every timestamp. */
  lemma SameHeads(a: seq<Tweet>, b: seq<Tweet>, dir: string)
    requires |a| > 0 && |b| > 0
    requires Sorted(a, dir) && Sorted(b, dir)
    requires forall k :: WithCreatedAt(a, k) == WithCreatedAt(b, k)
    ensures a[0] == b[0]
    ensures forall k :: WithCreatedAt(a[1..], k) == WithCreatedAt(b[1..], k)
  {
    var x, y := a[0], b[0];
    SameHeadTimestamps(a, b, dir);
    var k0 := x.createdAt;
    KeepUnfold(a, CreatedAtIs(k0));
    KeepUnfold(b, CreatedAtIs(k0));
    assert WithCreatedAt(a, k0) == [x] + WithCreatedAt(a[1..], k0);
    assert WithCreatedAt(b, k0) == [y] + WithCreatedAt(b[1..], k0);
    assert WithCreatedAt(a, k0)[0] == x && WithCreatedAt(b, k0)[0] == y;
    forall k ensures WithCreatedAt(a[1..], k) == WithCreatedAt(b[1..], k) {
      KeepUnfold(a, CreatedAtIs(k));
      KeepUnfold(b, CreatedAtIs(k));
      assert WithCreatedAt(a, k) == WithCreatedAt(b, k);
      if k == k0 {
        assert WithCreatedAt(a[1..], k) == WithCreatedAt(a, k)[1..];
        assert WithCreatedAt(b[1..], k) == WithCreatedAt(b, k)[1..];
      } else {
        assert !CreatedAtIs(k)(x) && !CreatedAtIs(k)(y);
        assert WithCreatedAt(a[1..], k) == WithCreatedAt(a, k);
        assert WithCreatedAt(b[1..], k) == WithCreatedAt(b, k);
      }
    }
  }

  /** The first tweets of two such sequences share a timestamp: neither can precede the other strictly. */
  lemma SameHeadTimestamps(a: seq<Tweet>, b: seq<Tweet>, dir: string)
    requires |a| > 0 && |b| > 0
    requires Sorted(a, dir) && Sorted(b, dir)
    requires forall k :: WithCreatedAt(a, k) == WithCreatedAt(b, k)
    ensures a[0].createdAt == b[0].createdAt
  {
    var x, y := a[0], b[0];
    KeepMembers(a, CreatedAtIs(x.createdAt));
    KeepMembers(b, CreatedAtIs(x.createdAt));
    KeepMembers(a, CreatedAtIs(y.createdAt));
    KeepMembers(b, CreatedAtIs(y.createdAt));
    assert x in WithCreatedAt(a, x.createdAt);
    assert y in WithCreatedAt(b, y.createdAt);
    var j :| 0 <= j < |b| && b[j] == x;
    var i :| 0 <= i < |a| && a[i] == y;
    assert InOrder(dir, b[0], b[j]);
    assert InOrder(dir, a[0], a[i]);
    CompareSwap(dir, x, y);
  }

  /** `Sort` is the one sorted arrangement that keeps each timestamp's tweets in input order. */
  lemma SortCharacterized(s: seq<Tweet>, r: seq<Tweet>, dir: string)
    ensures r == Sort(s, dir) <==> Sorted(r, dir) && forall k :: WithCreatedAt(r, k) == WithCreatedAt(s, k)
  {
    SortSorted(s, dir);
    forall k ensures WithCreatedAt(Sort(s, dir), k) == WithCreatedAt(s, k) {
      SortStable(s, dir, k);
    }
    if Sorted(r, dir) && forall k :: WithCreatedAt(r, k) == WithCreatedAt(s, k) {
      StableSortUnique(r, Sort(s, dir), dir);
    }
  }

  /** No two tweets of `s` share a timestamp. */
  ghost predicate DistinctTimestamps(s: seq<Tweet>) {
    forall k :: |WithCreatedAt(s, k)| <= 1
  }

  /** With distinct timestamps, the ascending sort is the descending sort reversed. */
  lemma AscIsReversedDesc(s: seq<Tweet>)
    requires DistinctTimestamps(s)
    ensures Sort(s, Asc) == Reverse(Sort(s, Desc))
  {
    var d := Sort(s, Desc);
    var r := Reverse(d);
    SortSorted(s, Desc);
    forall i, j | 0 <= i < j < |r| ensures InOrder(Asc, r[i], r[j]) {
      assert InOrder(Desc, d[|d| - 1 - j], d[|d| - 1 - i]);
    }
    forall k ensures WithCreatedAt(r, k) == WithCreatedAt(s, k) {
      KeepReverse(d, CreatedAtIs(k));
      SortStable(s, Desc, k);
      var g := WithCreatedAt(s, k);
      assert |g| <= 1;
      assert Reverse(g) == g;
    }
    SortCharacterized(s, r, Asc);
  }

  /**
   * `.sort(comparator)` on the freshly filtered array: an insertion sort in
   * place whose result is `Sort` of the original contents.
   */
  method SortInPlace(a: array<Tweet>, dir: string)
    modifies a
    ensures a[..] == Sort(old(a[..]), dir)
  {
    ghost var input := a[..];
    var i := 0;
    while i < a.Length
      invariant 0 <= i <= a.Length
      invariant a[..i] == Sort(input[..i], dir)
      invariant forall k :: i <= k < a.Length ==> a[k] == input[k]
    {
      SortSnoc(input, i, dir);
      InsertInPlace(a, i, dir);
      i := i + 1;
    }
    assert input[..a.Length] == input;
  }

  /** Sorting one more element of a prefix inserts it into the sorted prefix. */
  lemma SortSnoc(s: seq<Tweet>, i: nat, dir: string)
    requires i < |s|
    ensures Sort(s[..i + 1], dir) == Insert(Sort(s[..i], dir), s[i], dir)
  {
    assert s[..i + 1][..i] == s[..i];
  }

  /** One pass of the insertion sort: moves `a[i]` into the sorted prefix `a[..i]`. */
  method InsertInPlace(a: array<Tweet>, i: nat, dir: string)
    requires i < a.Length
    modifies a
    ensures a[..i + 1] == Insert(old(a[..i]), old(a[i]), dir)
    ensures forall k :: i < k < a.Length ==> a[k] == old(a[k])
  {
    var x := a[i];
    ghost var done := a[..i];
    var j := i;
    while j > 0 && Compare(dir, a[j - 1], x) > 0
      invariant 0 <= j <= i
      invariant forall k :: 0 <= k < j ==> a[k] == done[k]
      invariant forall k :: j < k <= i ==> a[k] == done[k - 1]
      invariant forall k :: i < k < a.Length ==> a[k] == old(a[k])
      invariant forall k :: j <= k < i ==> Compare(dir, done[k], x) > 0
    {
      a[j] := a[j - 1];
      j := j - 1;
    }
    a[j] := x;
    InsertAt(done, j, x, dir);
    Placed(a[..i + 1], done, j, x);
  }

  /** The sequence with `x` at `j`, `done`'s elements before `j` in front and its others behind. */
  lemma Placed(b: seq<Tweet>, done: seq<Tweet>, j: nat, x: Tweet)
    requires j <= |done| && |b| == |done| + 1
    requires forall k :: 0 <= k < j ==> b[k] == done[k]
    requires b[j] == x
    requires forall k :: j < k < |b| ==> b[k] == done[k - 1]
    ensures b == done[..j] + [x] + done[j..]
  {
  }

  /**
   * Where `Insert` puts `x`: behind `s[..j]` when every element from `j` on
   * must follow `x` and `s[j - 1]`, if any, may precede it.
   */
  lemma {:induction false} InsertAt(s: seq<Tweet>, j: nat, x: Tweet, dir: string)
    requires j <= |s|
    requires j == 0 || Compare(dir, s[j - 1], x) <= 0
    requires forall k :: j <= k < |s| ==> Compare(dir, s[k], x) > 0
    ensures Insert(s, x, dir) == s[..j] + [x] + s[j..]
  {
    if j < |s| {
      var last := s[|s| - 1];
      var init := s[..|s| - 1];
      assert j == 0 || init[j - 1] == s[j - 1];
      InsertAt(init, j, x, dir);
      assert init[..j] == s[..j];
      assert init[j..] + [last] == s[j..];
      calc {
        Insert(s, x, dir);
        Insert(init, x, dir) + [last];
        init[..j] + [x] + init[j..] + [last];
        s[..j] + [x] + (init[j..] + [last]);
      }
    } else {
      assert s[..j] == s && s[j..] == [];
    }
  }

  // ---------------------------------------------------------------------------
  // The list pipeline: filter by title, then sort by creation time
  // ---------------------------------------------------------------------------

  /** The filter callback: the lower-cased title includes the lower-cased search string. */
  predicate TitleMatches(t: Tweet, searchString: string) {
    Includes(Lower(t.title), Lower(searchString))
  }

  /** A tweet matches exactly when the lowered search string occurs in its lowered title. */
  lemma TitleMatchesIff(t: Tweet, searchString: string)
    ensures TitleMatches(t, searchString) <==> exists i :: OccursAt(Lower(t.title), Lower(searchString), i)
  {
    IncludesIff(Lower(t.title), Lower(searchString));
    assert TitleMatches(t, searchString) == Includes(Lower(t.title), Lower(searchString));
  }

  function TitleMatcher(searchString: string): (r: Tweet -> bool) {
    (t: Tweet) => TitleMatches(t, searchString)
  }

  /** `tweets.filter(...)`: a new sequence of the matching tweets, in input order. */
  function Filter(tweets: seq<Tweet>, searchString: string): (r: seq<Tweet>)
    ensures forall t :: t in r <==> t in tweets && TitleMatches(t, searchString)
  {
    KeepMembers(tweets, TitleMatcher(searchString));
    Keep(tweets, TitleMatcher(searchString))
  }

  /** `tweets.filter(...).sort(...)` once the tweets are loaded. */
  function FilterAndSort(tweets: seq<Tweet>, search: Search): (r: seq<Tweet>) {
    Sort(Filter(tweets, search.searchString), search.sortDirection)
  }

  /** `tweets?.filter(...).sort(...)`: absent while the query holds no data. */
  function FilteredTweets(tweets: Option<seq<Tweet>>, search: Search): (r: Option<seq<Tweet>>)
    ensures r.None? <==> tweets.None?
    ensures r.Some? ==> |r.value| <= |tweets.value|
  {
    match tweets
    case None => None
    case Some(ts) =>
      var kept := Filter(ts, search.searchString);
      SortPermutes(kept, search.sortDirection);
      assert |multiset(Sort(kept, search.sortDirection))| == |multiset(kept)|;
      Some(FilterAndSort(ts, search))
  }

  /**
   * Soundness and completeness: the result holds every matching input tweet
   * exactly as often as the input does, and nothing else.
   */
  lemma FilterAndSortContents(tweets: seq<Tweet>, search: Search)
    ensures forall t :: multiset(FilterAndSort(tweets, search))[t]
                        == if TitleMatches(t, search.searchString) then multiset(tweets)[t] else 0
    ensures forall t :: t in FilterAndSort(tweets, search)
                        <==> t in tweets && TitleMatches(t, search.searchString)
  {
    var kept := Filter(tweets, search.searchString);
    SortPermutes(kept, search.sortDirection);
    forall t ensures multiset(FilterAndSort(tweets, search))[t]
                     == if TitleMatches(t, search.searchString) then multiset(tweets)[t] else 0 {
      KeepCount(tweets, TitleMatcher(search.searchString), t);
    }
  }

  /** `"asc"` gives non-decreasing timestamps; every other direction non-increasing ones. */
  lemma FilterAndSortOrdered(tweets: seq<Tweet>, search: Search)
    ensures var r := FilterAndSort(tweets, search);
      forall i, j :: 0 <= i < j < |r| ==>
        if search.sortDirection == Asc then r[i].createdAt <= r[j].createdAt
        else r[i].createdAt >= r[j].createdAt
  {
    SortSorted(Filter(tweets, search.searchString), search.sortDirection);
  }

  /**
   * Stability through the pipeline: the result's tweets created at `k` are the
   * matching input tweets created at `k`, in input order.
   */
  lemma FilterAndSortStable(tweets: seq<Tweet>, search: Search, k: int)
    ensures WithCreatedAt(FilterAndSort(tweets, search), k)
            == Filter(WithCreatedAt(tweets, k), search.searchString)
  {
    SortStable(Filter(tweets, search.searchString), search.sortDirection, k);
    KeepCommutes(tweets, TitleMatcher(search.searchString), CreatedAtIs(k));
  }

  /** The empty search string keeps every tweet; only the order changes. */
  lemma EmptySearchKeepsAll(tweets: seq<Tweet>, dir: string)
    ensures FilterAndSort(tweets, Search("", dir)) == Sort(tweets, dir)
    ensures multiset(FilterAndSort(tweets, Search("", dir))) == multiset(tweets)
  {
    assert Lower("") == "";
    KeepAll(tweets, TitleMatcher(""));
    SortPermutes(tweets, dir);
  }

  /** Search strings that differ only in letter case select the same tweets in the same order. */
  lemma CaseInsensitive(tweets: seq<Tweet>, q1: string, q2: string, dir: string)
    requires SameUpToCase(q1, q2)
    ensures FilterAndSort(tweets, Search(q1, dir)) == FilterAndSort(tweets, Search(q2, dir))
  {
    KeepAgree(tweets, TitleMatcher(q1), TitleMatcher(q2));
  }

  /** Lower-casing the search string first changes nothing. */
  lemma LowerSearchSame(tweets: seq<Tweet>, search: Search)
    ensures FilterAndSort(tweets, search.(searchString := Lower(search.searchString)))
            == FilterAndSort(tweets, search)
  {
    LowerIdempotent(search.searchString);
    CaseInsensitive(tweets, Lower(search.searchString), search.searchString, search.sortDirection);
  }

  /** With distinct timestamps, clicking the toggle on `"desc"` reverses the list. */
  lemma ToggleReversesDistinct(tweets: seq<Tweet>, searchString: string)
    requires DistinctTimestamps(tweets)
    ensures FilterAndSort(tweets, Search(searchString, Asc))
            == Reverse(FilterAndSort(tweets, Search(searchString, Desc)))
  {
    var kept := Filter(tweets, searchString);
    forall k ensures |WithCreatedAt(kept, k)| <= 1 {
      KeepCommutes(tweets, TitleMatcher(searchString), CreatedAtIs(k));
      assert |WithCreatedAt(tweets, k)| <= 1;
      assert WithCreatedAt(kept, k) == Keep(WithCreatedAt(tweets, k), TitleMatcher(searchString));
    }
    AscIsReversedDesc(kept);
  }

  /**
   * The component's computation on a loaded tweet array: the filter builds a
   * fresh array and only that array is sorted, so the input stays as it was.
   */
  // It has no `modifies` clause: that is what says the input array is never mutated.
  method ComputeFilteredTweets(tweets: array<Tweet>, search: Search) returns (sorted: array<Tweet>)
    ensures fresh(sorted)
    ensures sorted[..] == FilterAndSort(tweets[..], search)
    ensures tweets[..] == old(tweets[..])
  {
    var kept := Filter(tweets[..], search.searchString);
    sorted := new Tweet[|kept|](i requires 0 <= i < |kept| => kept[i]);
    assert sorted[..] == kept;
    SortInPlace(sorted, search.sortDirection);
  }

  // ---------------------------------------------------------------------------
  // What the list area shows
  // ---------------------------------------------------------------------------

  const NoTweetsMessage := "There are no tweets available."

  datatype ListBody = TweetItems(items: seq<Tweet>) | NoTweets(message: string)

  /** `filteredTweet?.length ? filteredTweet.map(TweetItem) : message`. */
  function ListContent(filtered: Option<seq<Tweet>>): (b: ListBody)
    ensures b.NoTweets? <==> filtered.None? || |filtered.value| == 0
    ensures b.NoTweets? ==> b.message == NoTweetsMessage
    ensures b.TweetItems? ==> filtered == Some(b.items) && |b.items| > 0
  {
    if filtered.Some? && |filtered.value| > 0 then TweetItems(filtered.value)
    else NoTweets(NoTweetsMessage)
  }

  /** A search that no title matches shows the message. */
  lemma NoMatchShowsMessage(tweets: seq<Tweet>, search: Search)
    requires forall i :: 0 <= i < |tweets| ==> !TitleMatches(tweets[i], search.searchString)
    ensures ListContent(FilteredTweets(Some(tweets), search)) == NoTweets(NoTweetsMessage)
  {
    KeepNone(tweets, TitleMatcher(search.searchString));
  }

  /** Tweet items are shown exactly when some loaded tweet matches the search. */
  lemma ItemsShownIff(tweets: Option<seq<Tweet>>, search: Search)
    ensures ListContent(FilteredTweets(tweets, search)).TweetItems?
            <==> tweets.Some? && exists t :: t in tweets.value && TitleMatches(t, search.searchString)
  {
    if tweets.Some? {
      FilterAndSortContents(tweets.value, search);
      var r := FilterAndSort(tweets.value, search);
      if |r| > 0 {
        assert r[0] in r;
      }
    }
  }

  /**
   * Searching "Hello" in ascending order over two tweets whose titles start
   * with "Hello" (say "Hello World" at 1 and "Hello Again" at 2) keeps both,
   * earlier first.
   */
  lemma HelloScenario(a: Tweet, b: Tweet)
    requires StartsWithHello(a.title) && StartsWithHello(b.title)
    requires a.createdAt < b.createdAt
    ensures FilterAndSort([a, b], Search("Hello", Asc)) == [a, b]
  {
    HelloMatches(a.title);
    HelloMatches(b.title);
    KeepAll([a, b], TitleMatcher("Hello"));
    assert [a, b][..1] == [a];
    assert Sort([a], Asc) == [a];
    assert Insert([a], b, Asc) == [a, b];
  }

  predicate StartsWithHello(title: string) {
    |title| >= 5 && title[..5] == "Hello"
  }

  lemma LowerHello()
    ensures Lower("Hello") == "hello"
  {
  }

  lemma HelloMatches(title: string)
    requires StartsWithHello(title)
    ensures Includes(Lower(title), Lower("Hello"))
  {
    LowerHello();
    var l := Lower(title);
    assert forall i :: 0 <= i < 5 ==> title[i] == "Hello"[i];
    assert forall i :: 0 <= i < 5 ==> l[i] == "hello"[i];
    assert "hello" <= l;
  }
}
