# Tweets list and protected layout: a verified model

This project models the two self-contained pieces of logic in the web app.

- **The tweets list screen** (`apps/web/src/features/tweets/tweets.tsx`). The list takes the fetched tweets and the URL search state `{searchString, sortDirection}`. It keeps every tweet whose lower-cased title includes the lower-cased search string. It then sorts the kept tweets by `createdAt`: ascending for `"asc"`, descending for any other value. The sort is stable, as JavaScript's `Array.prototype.sort` must be (section 23.1.3.30 of ECMA-262, 2023 edition). When there is nothing to show, the list shows `"There are no tweets available."`. The screen also has the arrow button, which toggles the direction, and `updateFilters`, which replaces one key of the search object.
- **The protected layout's session gate** (`apps/web/src/routes/_protected/layout.tsx`). While the session is pending it shows a spinner. Without a signed-in user it redirects to `"/"`. Otherwise it renders the nested page (`Outlet`).

Modules:

- `Wrappers` holds `Option`, which stands for JavaScript's `undefined`/`null`.
- `Strings` models `toLowerCase` and `includes`.
- `Arrays` holds `Keep`, the model of `Array.prototype.filter`, and `Reverse`.
- `Tweets` models the list screen. The sort appears twice. `Sort` is a pure, stable insertion sort with the source's comparator. `SortInPlace` is an in-place insertion sort on an `array`, proved to produce `Sort` of the array's old contents. `ComputeFilteredTweets` copies the filtered tweets into a fresh array and sorts only that array.
- `ProtectedLayout` models the gate as a total function onto `Spinner | Redirect(to) | Outlet`.

Two choices the model makes:

- The model takes `sortDirection` as any string. tweets.tsx compares it only with `'asc'` (lines 39 and 61), so any other value sorts descending and toggles to `"asc"`. The values the route's search schema admits are not part of this model.
- The gate redirects to `"/"` (layout.tsx:17).

## Model

| member | source | states |
|---|---|---|
| `Strings.LowerChar` | apps/web/src/features/tweets/tweets.tsx:35 | the lowered character is never an ASCII capital; only capitals change, each moving to its small letter |
| `Strings.Lower` | apps/web/src/features/tweets/tweets.tsx:35-37 | `toLowerCase` keeps the length and lowers each character in place |
| `Strings.LowerIdempotent` | apps/web/src/features/tweets/tweets.tsx:35-37 | lowering an already lower-cased string changes nothing |
| `Strings.Includes` | apps/web/src/features/tweets/tweets.tsx:37 | `includes` finds the empty string everywhere and never finds a needle longer than the text |
| `Strings.IncludesSound` | apps/web/src/features/tweets/tweets.tsx:37 | when `includes` holds, the needle occurs at some index of the text |
| `Strings.IncludesComplete` | apps/web/src/features/tweets/tweets.tsx:37 | a needle that occurs at some index of the text is found by `includes` |
| `Strings.IncludesIff` | apps/web/src/features/tweets/tweets.tsx:37 | `includes` holds exactly when the needle occurs at some index of the text (both directions) |
| `Arrays.Keep` | apps/web/src/features/tweets/tweets.tsx:36-37 | `filter` never returns more elements than its input |
| `Arrays.KeepMembers` | apps/web/src/features/tweets/tweets.tsx:36-37 | a value is in the filter's result exactly when it is in the input and passes the callback |
| `Arrays.KeepCount` | apps/web/src/features/tweets/tweets.tsx:36-37 | each passing value occurs in the result as often as in the input, and each failing value not at all |
| `Arrays.KeepConcat` | apps/web/src/features/tweets/tweets.tsx:36-37 | filtering a concatenation is the concatenation of the filtered parts, so the input order is kept |
| `Arrays.KeepAll` | apps/web/src/features/tweets/tweets.tsx:36-37 | when every element passes, the result equals the input |
| `Arrays.KeepNone` | apps/web/src/features/tweets/tweets.tsx:36-37 | when no element passes, the result is empty |
| `Arrays.KeepAgree` | apps/web/src/features/tweets/tweets.tsx:36-37 | callbacks that agree on the input's elements give the same result |
| `Arrays.KeepCommutes` | apps/web/src/features/tweets/tweets.tsx:36-37 | two filters applied in either order give the same result |
| `Tweets.Get` | apps/web/src/features/tweets/tweets.tsx:27-28 | `search[name]` for the two keys; what `Update` does to it is stated by `Tweets.Update`, `Tweets.UpdateSame` and `Tweets.UpdateTwice` |
| `Tweets.Update` | apps/web/src/features/tweets/tweets.tsx:27-29 | `updateFilters(name, value)` sets key `name` to `value` and leaves every other key as it was |
| `Tweets.UpdateSame` | apps/web/src/features/tweets/tweets.tsx:27-29 | writing the value a key already holds leaves the search object as it was |
| `Tweets.UpdateTwice` | apps/web/src/features/tweets/tweets.tsx:27-29 | a second update of the same key overrides the first |
| `Tweets.Compare` | apps/web/src/features/tweets/tweets.tsx:38-41 | the comparator is zero exactly for equal timestamps; it is negative for the earlier tweet under `"asc"` and for the later tweet under every other direction |
| `Tweets.Toggle` | apps/web/src/features/tweets/tweets.tsx:58-62 | the new direction is `"asc"` or `"desc"`, and it is `"asc"` exactly when the old one was not; the new comparator is the old one with its arguments swapped |
| `Tweets.ToggleTwice` | apps/web/src/features/tweets/tweets.tsx:58-62 | toggling twice gives back the direction exactly when it was `"asc"` or `"desc"` |
| `Tweets.ToggleSortDirection` | apps/web/src/features/tweets/tweets.tsx:58-62 | clicking the arrow keeps the search string and toggles the direction |
| `Tweets.ToggleSortDirectionTwice` | apps/web/src/features/tweets/tweets.tsx:58-62 | two clicks, with a re-render between them, restore a search whose direction is `"asc"` or `"desc"` |
| `Tweets.Insert` | apps/web/src/features/tweets/tweets.tsx:38-42 | one insertion step of the stable sort; its contract is stated by `Tweets.InsertPermutes`, `Tweets.InsertSorted`, `Tweets.InsertStable` and `Tweets.InsertAt` |
| `Tweets.InsertPermutes` | apps/web/src/features/tweets/tweets.tsx:38-42 | inserting adds exactly the new tweet to the multiset |
| `Tweets.Sort` | apps/web/src/features/tweets/tweets.tsx:38-42 | `.sort(comparator)` as a value; its contract is stated by `Tweets.SortPermutes`, `Tweets.SortSorted`, `Tweets.SortStable` and `Tweets.SortCharacterized` |
| `Tweets.SortPermutes` | apps/web/src/features/tweets/tweets.tsx:38-42 | the sort's output is a permutation of its input: same multiset |
| `Tweets.InsertSorted` | apps/web/src/features/tweets/tweets.tsx:38-42 | inserting into a sorted sequence keeps it sorted |
| `Tweets.SortSorted` | apps/web/src/features/tweets/tweets.tsx:38-42 | every pair of output elements is in comparator order |
| `Tweets.InsertStable` | apps/web/src/features/tweets/tweets.tsx:38-42 | an inserted tweet lands behind every earlier tweet with its timestamp |
| `Tweets.SortStable` | apps/web/src/features/tweets/tweets.tsx:38-42 | for every timestamp, the output's tweets with that timestamp are the input's, in input order |
| `Tweets.StableSortUnique` | apps/web/src/features/tweets/tweets.tsx:38-42 | two sorted sequences that agree on every timestamp's tweets are equal |
| `Tweets.SortCharacterized` | apps/web/src/features/tweets/tweets.tsx:38-42 | a sequence is the sort's output exactly when it is sorted and keeps every timestamp's tweets in input order |
| `Tweets.AscIsReversedDesc` | apps/web/src/features/tweets/tweets.tsx:38-41 | with distinct timestamps, the ascending order is the descending order reversed |
| `Tweets.SortInPlace` | apps/web/src/features/tweets/tweets.tsx:38-42 | sorting the array in place leaves `Sort` of its old contents in it |
| `Tweets.InsertInPlace` | apps/web/src/features/tweets/tweets.tsx:38-42 | one insertion pass leaves `Insert` of the old prefix and element in `a[..i+1]` and does not touch the rest |
| `Tweets.InsertAt` | apps/web/src/features/tweets/tweets.tsx:38-42 | the insertion point is behind the last element that may precede the new tweet |
| `Tweets.TitleMatches` | apps/web/src/features/tweets/tweets.tsx:35-37 | the filter callback: the lower-cased title includes the lower-cased search string; its meaning is stated by `Tweets.TitleMatchesIff` |
| `Tweets.TitleMatchesIff` | apps/web/src/features/tweets/tweets.tsx:35-37 | a tweet matches exactly when the lower-cased search string occurs at some index of its lower-cased title |
| `Tweets.TitleMatcher` | apps/web/src/features/tweets/tweets.tsx:37 | the callback `(p) => p.title.toLowerCase().includes(lowercaseSearch)`; what it selects is stated by `Tweets.TitleMatches` and `Tweets.Filter` |
| `Tweets.Filter` | apps/web/src/features/tweets/tweets.tsx:36-37 | a tweet is in the result exactly when it is in the input and its title matches; counts and order are stated by `Arrays.KeepCount` and `Arrays.KeepConcat` |
| `Tweets.FilterAndSort` | apps/web/src/features/tweets/tweets.tsx:36-42 | `tweets.filter(...).sort(...)`; its contract is stated by `Tweets.FilterAndSortContents`, `Tweets.FilterAndSortOrdered` and `Tweets.FilterAndSortStable` |
| `Tweets.FilteredTweets` | apps/web/src/features/tweets/tweets.tsx:36-42 | the result is absent exactly when the tweets are, and is never longer than the tweets |
| `Tweets.FilterAndSortContents` | apps/web/src/features/tweets/tweets.tsx:35-42 | every matching input tweet appears as often as in the input; no non-matching tweet appears |
| `Tweets.FilterAndSortOrdered` | apps/web/src/features/tweets/tweets.tsx:38-41 | under `"asc"` timestamps never decrease along the result; under any other direction they never increase |
| `Tweets.FilterAndSortStable` | apps/web/src/features/tweets/tweets.tsx:36-42 | for every timestamp, the result's tweets with it are the matching input tweets with it, in input order |
| `Tweets.EmptySearchKeepsAll` | apps/web/src/features/tweets/tweets.tsx:35-37 | the empty search string keeps every tweet, and the result is the sorted input |
| `Tweets.CaseInsensitive` | apps/web/src/features/tweets/tweets.tsx:35-37 | search strings that differ only in letter case give the same result |
| `Tweets.LowerSearchSame` | apps/web/src/features/tweets/tweets.tsx:35 | lower-casing the search string beforehand changes nothing |
| `Tweets.ToggleReversesDistinct` | apps/web/src/features/tweets/tweets.tsx:38-41 | with distinct timestamps, the `"asc"` list is the `"desc"` list reversed |
| `Tweets.ComputeFilteredTweets` | apps/web/src/features/tweets/tweets.tsx:36-42 | the result is a fresh array holding the filtered, sorted tweets, and the input array is unchanged |
| `Tweets.ListContent` | apps/web/src/features/tweets/tweets.tsx:95-99 | the message is shown exactly when the result is absent or empty, and it is the fixed text; otherwise the items are the result |
| `Tweets.NoMatchShowsMessage` | apps/web/src/features/tweets/tweets.tsx:95-99 | a search no title matches shows the message |
| `Tweets.ItemsShownIff` | apps/web/src/features/tweets/tweets.tsx:95-99 | the list area shows items exactly when the tweets are loaded and some tweet passes the filter at tweets.tsx:36-37 |
| `Tweets.HelloScenario` | apps/web/src/features/tweets/tweets.tsx:35-41 | searching "Hello" ascending over two "Hello…" titles keeps both, earlier first |
| `ProtectedLayout.Layout` | apps/web/src/routes/_protected/layout.tsx:9-20 | spinner exactly when pending; redirect, always to `"/"`, exactly when not pending and no user; the nested page exactly when not pending and a user is present |
| `ProtectedLayout.LayoutDependsOnUserOnly` | apps/web/src/routes/_protected/layout.tsx:16 | the outcome depends on the session only through whether `session?.user` is present |

## Left out

- JSX, styling, icons and tooltips are left out: they are presentation over UI libraries. So is the `disabled={isPending}` flag passed to each tweet item.
- `useQuery`, the router's loader and `navigate` are library calls and network I/O. The query's data is a parameter (`Option<seq<Tweet>>`). `updateFilters` is modelled as the function on the search object that `navigate` is given.
- `updateFilters`'s `value` is `unknown` in the source. Every call of `updateFilters` passes a string (tweets.tsx:59-62 and 86), so the model takes a string. `Search` holds only the two keys the component reads (tweets.tsx:35 and 39); any other key the schema may define is not modelled.
- The search schema, its defaults and stripping defaults from the URL live in a module that is not part of this model.
- No order between the gate and the list route's loader is claimed. `apps/web/src/routes/_protected/tweets/index.tsx` is not part of this model.
- `Strings.Lower`: models `toLowerCase` as ASCII lowering, because full Unicode case mapping is out of scope. Non-ASCII characters stay unchanged, so strings whose length changes when lowered are not modelled.
- `Strings.Includes`: Dafny strings are sequences of Unicode scalar values, while JavaScript strings are UTF-16 code units. A string with a lone surrogate, which an input field's value can hold, cannot be represented here. For well-formed strings the two searches agree, but lengths differ for characters outside the Basic Multilingual Plane.
- `Tweets.ToggleSortDirection`: the arrow's handler computes the new direction from the rendered `search` (tweets.tsx:61), while `navigate` applies it to the router's `prev` (tweets.tsx:28). The model uses one `Search` value for both. Two clicks that land before a re-render, where the two differ, are not modelled, so `Tweets.ToggleSortDirectionTwice` describes clicks with a re-render between them.
- `Tweet` carries only `id`, `title` and `createdAt`. The list uses only these fields; `content` and the author are not used.
- `Tweets.Compare`: `createdAt.getTime()` is a mathematical integer and the comparator's difference is exact. The source subtracts doubles. That difference is exact when both timestamps are non-negative, but it can round for dates on opposite sides of 1970. Even then the rounded difference has the exact sign and is zero only for equal timestamps. `sort` reads only that sign, so the model's order is the source's. Invalid dates (`NaN`) are not modelled.
- `Tweets.Sort`: the JavaScript engine's sort algorithm is unspecified. The model uses insertion sort. `Tweets.SortCharacterized` shows that any stable sort with this comparator gives the same result.
- The session hook's own pending and error handling is a library's. The gate sees only `isPending` and the session value. The model does not cover the root layout's spinner, the dashboard's `session?.user` branch or the tweet detail's content placeholder: each is a single conditional.
- The Playwright configuration is test tooling.
