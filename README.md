# Admin dashboard derivations

A Dafny model of the data logic of the `Admin` dashboard page of a forms
application (`src/app/admin/page.js`). The page fetches the user's forms and
derives these values from the list:

- the list itself (`forms`), which is empty when the fetched data is not an array;
- an id-indexed lookup (`formsById`), in which the last form with a given id wins;
- four stat-card figures: total forms, total responses, linked forms and the latest update;
- two top-five lists: the most recently updated forms and the most responded forms.
  Each is a stable sort of a copy of the list, followed by the first five entries;
- for each listed form, a single-hop lookup of the form its `linkedFormId` points to;
- which body to show: loading, load failed, no forms, or the two lists.

Modules, one per part of the page:

- `Wrappers`: `Option`.
- `FormRecords`: the `FormRecord` datatype, the JavaScript truthiness tests the page applies
  to its fields, the two ranking keys, and the normalisation of the fetched data.
- `StableSort`: a stable sort into non-increasing key order. `IsStableSortDesc` is its
  specification and `SortDesc` is a reference insertion sort. `SortInPlace` sorts an array
  in place to exactly that output and models `Array.prototype.sort` with the comparator
  `(a, b) => key(b) - key(a)`.
- `DashboardStats`: the folds behind the stat cards.
- `FormIndex`: the `formsById` loop and the linked-form lookup.
- `Rankings`: `recentForms` and `topRespondedForms`. Each copies the list into a fresh
  array, sorts the copy in place and keeps the first five.
- `AdminView`: the body choice, the "last update" placeholder and one whole render (`Admin`).

Abstractions:

- A field that is missing, `null` or `undefined` is `None`. A string field that is empty is
  falsy (`Truthy`), as in JavaScript.
- A `null` element of the fetched array is modelled as a record whose fields are all `None`.
  Every derivation reads fields through `form?.`, so it treats such an element the same way.
- `responseCount` is the integer result of `Number(...)`. A non-numeric count is `None` and
  counts as 0.
- `updatedAt` is the instant, in milliseconds, that the ISO string denotes.
- `hasError` is `Boolean(error)`. `isLoading` and the fetched data are inputs.
- `forms` is a sequence value. The rankings sort a fresh array copy of it in place, so they
  cannot change `forms`.

Three behaviours of the code worth noting:

- In `recentForms` a missing `updatedAt` becomes `new Date(0)`, the epoch. It is not the
  earliest possible time. So a form without a timestamp ranks above any form dated before
  1970 (`RecencyKey`).
- For `lastUpdated` the code does not drop unparseable timestamps. It filters only falsy
  values, and an invalid date makes the comparator return `NaN`. The model has no invalid
  timestamps (see "Left out").
- The linked lookup distinguishes `null` (no link, `NotLinked`) from `undefined` (a
  dangling link, `Dangling`).

## Model

| member | source | states |
|---|---|---|
| `AdminView.NonArrayDataIsEmpty` | src/app/admin/page.js:75 | fetched data that is not an array becomes the empty list: every figure is zero, there is no last update and the lists are never shown |
| `FormIndex.IdIndexKeys` | src/app/admin/page.js:77-83 | the lookup has key `k` exactly when some form has the truthy id `k`; the form stored under `k` is a form of the list whose id is `k` |
| `FormIndex.IdIndexLastWins` | src/app/admin/page.js:77-83 | the form stored under `k` is the last form of the list with id `k`; forms without a truthy id are skipped |
| `FormIndex.BuildIndex` | src/app/admin/page.js:77-83 | the `forEach`/`map.set` loop over a fresh map builds exactly `IdIndex(forms)`, whose keys and values `IdIndexKeys` and `IdIndexLastWins` describe |
| `DashboardStats.ComputeStats` | src/app/admin/page.js:85-95 | `totalForms` is the length of the list and `linkedForms` never exceeds it |
| `DashboardStats.EmptyStats` | src/app/admin/page.js:85-95 | with no forms the figures are 0, 0, 0 and no last update |
| `DashboardStats.TotalResponsesNonNegative` | src/app/admin/page.js:87 | when no count is negative, the response total is not negative |
| `DashboardStats.TotalResponsesAppend` | src/app/admin/page.js:87 | the total of two lists one after the other is the sum of their totals |
| `DashboardStats.UncountedAddsNothing` | src/app/admin/page.js:87 | a form with a missing or non-numeric count contributes 0, wherever it stands |
| `DashboardStats.TotalResponsesPermutation` | src/app/admin/page.js:87 | the response total does not depend on the order of the forms |
| `DashboardStats.LinkedForms` | src/app/admin/page.js:88 | the linked count is at most the number of forms; it is 0 exactly when no form has a truthy `linkedFormId`, and equals the number of forms exactly when every form has one |
| `DashboardStats.Timestamps` | src/app/admin/page.js:89-91 | `map(updatedAt).filter(Boolean)` keeps at most one value per form, and a value is kept exactly when some form has that timestamp |
| `DashboardStats.LastUpdatedIsLatest` | src/app/admin/page.js:89-92 | the first entry of the sorted timestamps is absent exactly when no form has a timestamp; otherwise it is some form's timestamp and no form's timestamp is later |
| `StableSort.SortDescIsStableSort` | src/app/admin/page.js:98-99 | the reference sort is non-increasing in the key, is a permutation of its input, and keeps the forms of each key value in input order |
| `StableSort.StableSortUnique` | src/app/admin/page.js:98-99 | at most one output is sorted by the key with every tie in input order, so any stable sort agrees with the reference sort |
| `StableSort.InsertInPlace` | src/app/admin/page.js:98-99 | one insertion step moves `a[i]` past the smaller keys before it, producing `Insert` of the sorted prefix; the rest of the array is untouched |
| `StableSort.SortInPlace` | src/app/admin/page.js:98-99 | sorting the array in place leaves exactly `SortDesc` of its old contents |
| `Rankings.SortedPrefixIsTopRanking` | src/app/admin/page.js:97-107 | the first `min(5, n)` entries of the stable sort are non-increasing, drawn from the list, keep ties in input order, and no form left out has a greater key than a form kept |
| `Rankings.TopFive` | src/app/admin/page.js:97-107 | sorting a fresh copy in place and slicing `0..5` gives the first `min(5, n)` entries of the stable sort, which form a top-five ranking |
| `Rankings.RecentForms` | src/app/admin/page.js:97-101 | `recentForms` is the top-five ranking by `updatedAt`, latest first, with a missing timestamp counted as the epoch |
| `Rankings.TopRespondedForms` | src/app/admin/page.js:103-107 | `topRespondedForms` is the top-five ranking by response count, highest first, with a missing or non-numeric count counted as 0 |
| `FormIndex.ResolveLinked` | src/app/admin/page.js:179 | the lookup is `null` exactly when the link is falsy, `undefined` exactly when the linked id is not in the index, and otherwise the form the index holds under that id |
| `FormIndex.ResolveInIndex` | src/app/admin/page.js:205 | resolved against the index of the list, a link is dangling (not an error) exactly when no form has the linked id; otherwise it finds the last form of the list with that id, in a single hop |
| `AdminView.SelectView` | src/app/admin/page.js:151-166 | loading beats an error, an error beats an empty list, and the lists are shown exactly when not loading, no error and at least one form |
| `AdminView.ShownListsAreNonEmpty` | src/app/admin/page.js:162-166 | when the lists are shown, each has between one and five forms |
| `AdminView.PlaceholderWhenNoTimestamp` | src/app/admin/page.js:27-28 | the "last update" card shows the placeholder exactly when no form has a timestamp, for any formatter that never produces the placeholder itself |
| `FormRecords.NormalizeForms` | src/app/admin/page.js:75 | definition of `Array.isArray(data) ? data : []`; its properties are in `AdminView.NonArrayDataIsEmpty` |
| `FormRecords.ResponseKey` | src/app/admin/page.js:105 | definition of `Number(form?.responseCount)`, falling back to 0, shared by the total at line 87; its properties are in `DashboardStats.UncountedAddsNothing` and `Rankings.TopRespondedForms` |
| `FormRecords.RecencyKey` | src/app/admin/page.js:99 | definition of `new Date(form?.updatedAt)` as an instant, falling back to the epoch; its properties are in `Rankings.RecentForms` |
| `FormIndex.IdIndex` | src/app/admin/page.js:77-83 | definition of the map the loop builds, the last form with an id winning; its properties are in `FormIndex.IdIndexKeys`, `FormIndex.IdIndexLastWins` and `FormIndex.BuildIndex` |
| `DashboardStats.TotalResponses` | src/app/admin/page.js:87 | definition of the response-count `reduce`; its properties are in `DashboardStats.TotalResponsesAppend`, `DashboardStats.TotalResponsesNonNegative`, `DashboardStats.UncountedAddsNothing` and `DashboardStats.TotalResponsesPermutation` |
| `DashboardStats.LastUpdated` | src/app/admin/page.js:89-92 | definition of the first entry of the stable descending sort of the timestamps; its properties are in `DashboardStats.LastUpdatedIsLatest` |
| `Rankings.TopRanked` | src/app/admin/page.js:97-107 | definition of the first `min(5, n)` entries of the stable sort by a key; its properties are in `Rankings.SortedPrefixIsTopRanking`, and `Rankings.TopFive` computes it |
| `AdminView.Rows` | src/app/admin/page.js:178-189 | definition of the list rows, each form paired with its resolved link (likewise lines 204-215); its properties are in `FormIndex.ResolveLinked`, `FormIndex.ResolveInIndex` and `AdminView.Admin` |
| `AdminView.DisplayLastUpdated` | src/app/admin/page.js:28 | definition of the `formatRelativeDate` guard: the placeholder for a missing value, else the formatter's text; its properties are in `AdminView.PlaceholderWhenNoTimestamp` |
| `AdminView.Admin` | src/app/admin/page.js:71-219 | one render: the stat cards come from the normalised list; the body follows `SelectView`; when the lists show, each holds the rows of the first five of the stable sort by its key, each row with its resolved link; a resolved link is always a form of the list |
| `AdminView.TwoFormsExample` | src/app/admin/page.js:85-107 | two forms with 3 and 10 responses, the second updated later: totals 2 and 13, no links, the later timestamp as last update, and the second form first in both lists |

## Left out

- Rendering is not modelled: JSX, `StatCard`, `ListItem`, `ListItemSkeleton`, `ActionButton`, icons, CSS classes and the `fadeIn` animation. These carry no data logic. The page's own hrefs and React keys are left out for the same reason.
- `formatRelativeDate` is modelled only through its falsy guard (`DisplayLastUpdated`). The formatter is a parameter, because `Intl.DateTimeFormat` and `toLocaleString` are locale-dependent foreign calls. Its invalid-date branch (line 30) does not arise, because the model's timestamps are always valid instants.
- `useUserFormsQuery`, `refetch` and `isFetching` are not modelled. The fetch belongs to an external hook whose source is not part of this model; its `data`, `isLoading` and `error` are inputs.
- `router.push` and `Link` navigation are foreign framework calls.
- `useMemo` caching is not modelled: every derived value is a plain function of `forms`, which a cache only avoids recomputing.
- `Number(...)` coercion of arbitrary values and fractional counts are not modelled. A count is an integer or absent, because floating-point sums are not modelled.
- Parsing ISO strings with `new Date(...)` is not modelled. A timestamp is an integer instant. Unparseable strings would make the comparators return `NaN` and the order engine-dependent, so they are excluded.
- `DashboardStats.LastUpdatedIsLatest`: it speaks of the instant, not of the original string. Two different strings for the same instant are not distinguished, so which of them the page shows is not captured.
- A `null` element of the fetched array would make the list rendering throw at `form.id` (line 182). That is rendering, so it is not modelled; the derivations themselves treat such an element as a form with no fields.
