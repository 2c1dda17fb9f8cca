/** The two top-five lists of the dashboard: the most recently updated
    forms and the most responded forms.  Each sorts a fresh copy of the list
    in place and keeps its first five entries, so the list itself is never
    touched. */
module Rankings {
  import opened FormRecords
  import opened StableSort

  /** The length of each list: `.slice(0, 5)`. */
  const TopCount: nat := 5

  function Min(a: nat, b: nat): (r: nat)
    ensures r <= a && r <= b && (r == a || r == b)
  {
    if a < b then a else b
  }

  /** The first five entries of the stable sort (all of them when there are
      fewer): `sorted.slice(0, 5)`. */
  function TopRanked(forms: seq<FormRecord>, key: FormRecord -> int): seq<FormRecord> {
    SortDesc(forms, key)[..Min(TopCount, |forms|)]
  }

  /** What a top-five list promises about `forms`: as long as it can be, in
      non-increasing key order, drawn from `forms`, ties in the order they
      have in `forms`, and no form left out has a greater key than a form
      kept. */
  ghost predicate IsTopRanking(forms: seq<FormRecord>, top: seq<FormRecord>, key: FormRecord -> int) {
    && |top| == Min(TopCount, |forms|)
    && SortedDesc(top, key)
    && multiset(top) <= multiset(forms)
    && (forall k :: WithKey(top, key, k) <= WithKey(forms, key, k))
    && (forall x, i :: x in multiset(forms) - multiset(top) && 0 <= i < |top| ==> key(x) <= key(top[i]))
  }

  lemma PrefixSortedAndDrawn(sorted: seq<FormRecord>, forms: seq<FormRecord>, n: nat, key: FormRecord -> int)
    requires n <= |sorted|
    requires SortedDesc(sorted, key) && multiset(sorted) == multiset(forms)
    ensures SortedDesc(sorted[..n], key)
    ensures multiset(sorted[..n]) <= multiset(forms)
  {
    assert sorted == sorted[..n] + sorted[n..];
  }

  lemma PrefixKeepsTies(sorted: seq<FormRecord>, forms: seq<FormRecord>, n: nat, key: FormRecord -> int)
    requires n <= |sorted|
    requires forall k :: WithKey(sorted, key, k) == WithKey(forms, key, k)
    ensures forall k :: WithKey(sorted[..n], key, k) <= WithKey(forms, key, k)
  {
    forall k ensures WithKey(sorted[..n], key, k) <= WithKey(forms, key, k) {
      assert sorted == sorted[..n] + sorted[n..];
      WithKeyAppend(sorted[..n], sorted[n..], key, k);
    }
  }

  lemma PrefixIsMaximal(sorted: seq<FormRecord>, forms: seq<FormRecord>, n: nat, key: FormRecord -> int)
    requires n <= |sorted|
    requires SortedDesc(sorted, key) && multiset(sorted) == multiset(forms)
    ensures forall x, i :: x in multiset(forms) - multiset(sorted[..n]) && 0 <= i < n ==> key(x) <= key(sorted[..n][i])
  {
    var top, rest := sorted[..n], sorted[n..];
    assert sorted == top + rest;
    assert multiset(forms) - multiset(top) == multiset(rest);
    forall x, i | x in multiset(rest) && 0 <= i < n
      ensures key(x) <= key(top[i])
    {
      var m :| 0 <= m < |rest| && rest[m] == x;
      assert sorted[n + m] == x && sorted[i] == top[i];
    }
  }

  /** The first five of the stable sort form a top-five list. */
  lemma SortedPrefixIsTopRanking(forms: seq<FormRecord>, key: FormRecord -> int)
    ensures IsTopRanking(forms, TopRanked(forms, key), key)
  {
    var sorted := SortDesc(forms, key);
    var n := Min(TopCount, |forms|);
    SortDescIsStableSort(forms, key);
    PrefixSortedAndDrawn(sorted, forms, n, key);
    PrefixKeepsTies(sorted, forms, n, key);
    PrefixIsMaximal(sorted, forms, n, key);
  }

  /** `[...forms].sort(comparator).slice(0, 5)` for the comparator
      `(a, b) => key(b) - key(a)`. */
  method TopFive(forms: seq<FormRecord>, key: FormRecord -> int) returns (top: seq<FormRecord>)
    ensures top == TopRanked(forms, key)
    ensures IsTopRanking(forms, top, key)
  {
    var copy := new FormRecord[|forms|](i requires 0 <= i < |forms| => forms[i]);
    assert copy[..] == forms;
    SortInPlace(copy, key);
    top := copy[..Min(TopCount, copy.Length)];
    SortedPrefixIsTopRanking(forms, key);
  }

  /** `recentForms`: ordered by `updatedAt`, latest first, a missing
      timestamp counting as the epoch. */
  method RecentForms(forms: seq<FormRecord>) returns (recent: seq<FormRecord>)
    ensures recent == TopRanked(forms, RecencyKey)
    ensures IsTopRanking(forms, recent, RecencyKey)
  {
    recent := TopFive(forms, RecencyKey);
  }

  /** `topRespondedForms`: ordered by response count, highest first, a
      missing or non-numeric count counting as 0. */
  method TopRespondedForms(forms: seq<FormRecord>) returns (top: seq<FormRecord>)
    ensures top == TopRanked(forms, ResponseKey)
    ensures IsTopRanking(forms, top, ResponseKey)
  {
    top := TopFive(forms, ResponseKey);
  }
}
