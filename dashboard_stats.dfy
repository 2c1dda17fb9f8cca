/** The four summary figures of the dashboard's stat cards, each a fold over
    the normalised list of forms. */
module DashboardStats {
  import opened Wrappers
  import opened FormRecords
  import opened StableSort

  /** `{ totalForms, totalResponses, linkedForms, lastUpdated }`. */
  datatype Stats = Stats(totalForms: nat, totalResponses: int, linkedForms: nat, lastUpdated: Option<int>)

  /** `forms.reduce((acc, form) => acc + (Number(form?.responseCount) || 0), 0)`. */
  function TotalResponses(forms: seq<FormRecord>): int {
    if forms == [] then 0
    else TotalResponses(forms[..|forms| - 1]) + ResponseKey(forms[|forms| - 1])
  }

  /** `forms.reduce((acc, form) => acc + (form?.linkedFormId ? 1 : 0), 0)`. */
  function LinkedForms(forms: seq<FormRecord>): (r: nat)
    ensures r <= |forms|
    ensures r == 0 <==> forall i :: 0 <= i < |forms| ==> !IsLinked(forms[i])
    ensures r == |forms| <==> forall i :: 0 <= i < |forms| ==> IsLinked(forms[i])
  {
    if forms == [] then 0
    else LinkedForms(forms[..|forms| - 1]) + (if IsLinked(forms[|forms| - 1]) then 1 else 0)
  }

  /** `forms.map((f) => f?.updatedAt).filter(Boolean)`: the timestamps that
      are present, in the order of their records. */
  function Timestamps(forms: seq<FormRecord>): (ts: seq<int>)
    ensures |ts| <= |forms|
    ensures forall t :: t in ts <==> exists i :: 0 <= i < |forms| && forms[i].updatedAt == Some(t)
  {
    if forms == [] then []
    else
      var rest := Timestamps(forms[1..]);
      assert forall i :: 0 < i < |forms| ==> forms[i] == forms[1..][i - 1];
      match forms[0].updatedAt
      case Some(t) => [t] + rest
      case None => rest
  }

  /** `timestamps.sort((a, b) => new Date(b) - new Date(a))[0]`: the first
      timestamp of the stable non-increasing sort, or `undefined` when there
      is none. Timestamps are already the instants `new Date` denotes, so the
      comparator's key is the timestamp itself. */
  function LastUpdated(forms: seq<FormRecord>): Option<int> {
    var sorted := SortDesc(Timestamps(forms), t => t);
    if sorted == [] then None else Some(sorted[0])
  }

  /** The last update is absent exactly when no record has a timestamp, and
      otherwise is the timestamp of some record and no record's is later. */
  lemma LastUpdatedIsLatest(forms: seq<FormRecord>)
    ensures LastUpdated(forms).None? <==> forall i :: 0 <= i < |forms| ==> forms[i].updatedAt.None?
    ensures LastUpdated(forms).Some? ==>
      && (exists i :: 0 <= i < |forms| && forms[i].updatedAt == LastUpdated(forms))
      && forall i :: 0 <= i < |forms| && forms[i].updatedAt.Some? ==>
           forms[i].updatedAt.value <= LastUpdated(forms).value
  {
    var ts := Timestamps(forms);
    var sorted := SortDesc(ts, t => t);
    SortDescIsStableSort(ts, t => t);
    if sorted != [] {
      assert sorted[0] in multiset(ts);
      forall i | 0 <= i < |forms| && forms[i].updatedAt.Some?
        ensures forms[i].updatedAt.value <= sorted[0]
      {
        var t := forms[i].updatedAt.value;
        assert t in ts;
        assert t in multiset(sorted);
        var m :| 0 <= m < |sorted| && sorted[m] == t;
        if m > 0 {
          assert sorted[0] >= sorted[m];
        }
      }
    }
  }

  /** The stat cards' values. */
  function ComputeStats(forms: seq<FormRecord>): (s: Stats)
    ensures s.totalForms == |forms|
    ensures s.linkedForms <= s.totalForms
  {
    Stats(|forms|, TotalResponses(forms), LinkedForms(forms), LastUpdated(forms))
  }

  /** The response total of two lists run one after the other is the sum of
      their totals. */
  lemma {:induction false} TotalResponsesAppend(a: seq<FormRecord>, b: seq<FormRecord>)
    ensures TotalResponses(a + b) == TotalResponses(a) + TotalResponses(b)
  {
    if b == [] {
      assert a + b == a;
    } else {
      var b' := b[..|b| - 1];
      TotalResponsesAppend(a, b');
      assert (a + b)[..|a + b| - 1] == a + b';
    }
  }

  /** Counts that are never negative give a total that is not negative. */
  lemma {:induction false} TotalResponsesNonNegative(forms: seq<FormRecord>)
    requires forall i :: 0 <= i < |forms| ==> ResponseKey(forms[i]) >= 0
    ensures TotalResponses(forms) >= 0
  {
    if forms != [] {
      TotalResponsesNonNegative(forms[..|forms| - 1]);
    }
  }

  /** A record with no numeric count adds nothing, wherever it stands. */
  lemma UncountedAddsNothing(a: seq<FormRecord>, f: FormRecord, b: seq<FormRecord>)
    requires f.responseCount.None?
    ensures TotalResponses(a + [f] + b) == TotalResponses(a + b)
  {
    TotalResponsesAppend(a + [f], b);
    TotalResponsesAppend(a, [f]);
    TotalResponsesAppend(a, b);
    assert [f][..0] == [];
  }

  /** A record between two lists adds its own count to the total. */
  lemma TotalResponsesSplit(p: seq<FormRecord>, x: FormRecord, q: seq<FormRecord>)
    ensures TotalResponses(p + [x] + q) == TotalResponses(p + q) + ResponseKey(x)
  {
    TotalResponsesAppend(p + [x], q);
    TotalResponsesAppend(p, [x]);
    TotalResponsesSingle(x);
    TotalResponsesAppend(p, q);
  }

  lemma TotalResponsesSingle(x: FormRecord)
    ensures TotalResponses([x]) == ResponseKey(x)
  {
    assert [x][..0] == [];
  }

  lemma MultisetRemove(a': seq<FormRecord>, x: FormRecord, b: seq<FormRecord>, k: nat)
    requires k < |b| && b[k] == x
    requires multiset(a' + [x]) == multiset(b)
    ensures multiset(a') == multiset(b[..k] + b[k + 1..])
  {
    assert b == b[..k] + [x] + b[k + 1..];
    assert multiset(b) == multiset(b[..k]) + multiset{x} + multiset(b[k + 1..]);
    assert multiset(a') == multiset(a' + [x]) - multiset{x};
  }

  /** The response total does not depend on the order of the records. */
  lemma {:induction false} TotalResponsesPermutation(a: seq<FormRecord>, b: seq<FormRecord>)
    requires multiset(a) == multiset(b)
    ensures TotalResponses(a) == TotalResponses(b)
  {
    if a == [] {
      assert |b| == |multiset(b)| == 0;
    } else {
      var x, a' := a[|a| - 1], a[..|a| - 1];
      assert a == a' + [x];
      assert x in multiset(b);
      var k :| 0 <= k < |b| && b[k] == x;
      var p, q := b[..k], b[k + 1..];
      assert b == p + [x] + q by {
        assert b == b[..k] + b[k..];
        assert b[k..] == [x] + q;
      }
      MultisetRemove(a', x, b, k);
      TotalResponsesPermutation(a', p + q);
      TotalResponsesSplit(p, x, q);
    }
  }

  /** With no forms every card shows its zero value and no last update. */
  lemma EmptyStats()
    ensures ComputeStats([]) == Stats(0, 0, 0, None)
  {
  }
}
