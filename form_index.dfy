/** `formsById`, the id-indexed lookup of the forms, and the single-hop
    resolution of a form's `linkedFormId` through it. */
module FormIndex {
  import opened Wrappers
  import opened FormRecords

  /** The map that `map.set(form.id, form)` builds when it is applied to the
      records with a truthy id, in order: a later record with the same id
      replaces an earlier one. */
  function IdIndex(forms: seq<FormRecord>): map<string, FormRecord> {
    if forms == [] then map[]
    else
      var m := IdIndex(forms[..|forms| - 1]);
      var f := forms[|forms| - 1];
      if Truthy(f.id) then m[f.id.value := f] else m
  }

  /** The index has key `k` exactly when some record has the truthy id `k`,
      and then holds a record of the list whose id is `k`. */
  lemma {:induction false} IdIndexKeys(forms: seq<FormRecord>, k: string)
    ensures k in IdIndex(forms) <==> exists i :: 0 <= i < |forms| && HasId(forms[i], k)
    ensures k in IdIndex(forms) ==> HasId(IdIndex(forms)[k], k) && IdIndex(forms)[k] in forms
  {
    if forms != [] {
      var init := forms[..|forms| - 1];
      IdIndexKeys(init, k);
      assert forall i :: 0 <= i < |init| ==> init[i] == forms[i];
      if k in IdIndex(init) {
        assert IdIndex(init)[k] in init;
      }
    }
  }

  /** The record stored under `k` is the last record of the list with id `k`. */
  lemma {:induction false} IdIndexLastWins(forms: seq<FormRecord>, i: nat, k: string)
    requires i < |forms| && HasId(forms[i], k)
    requires forall j :: i < j < |forms| ==> !HasId(forms[j], k)
    ensures k in IdIndex(forms) && IdIndex(forms)[k] == forms[i]
  {
    var init := forms[..|forms| - 1];
    if i < |forms| - 1 {
      IdIndexLastWins(init, i, k);
    }
  }

  /** Builds the lookup the way the dashboard does: a fresh map, then one
      `set` per record with a truthy id, in list order. */
  method BuildIndex(forms: seq<FormRecord>) returns (formsById: map<string, FormRecord>)
    ensures formsById == IdIndex(forms)
  {
    formsById := map[];
    var i := 0;
    while i < |forms|
      invariant 0 <= i <= |forms|
      invariant formsById == IdIndex(forms[..i])
    {
      var form := forms[i];
      if form.id.Some? && form.id.value != "" {
        formsById := formsById[form.id.value := form];
      }
      assert forms[..i + 1][..i] == forms[..i];
      i := i + 1;
    }
    assert forms[..i] == forms;
  }

  /** What `form?.linkedFormId ? formsById.get(form.linkedFormId) : null`
      yields: `null`, `undefined` for an id the lookup lacks, or a record. */
  datatype LinkedLookup = NotLinked | Dangling | Found(target: FormRecord)

  function ResolveLinked(form: FormRecord, formsById: map<string, FormRecord>): (r: LinkedLookup)
    ensures r.NotLinked? <==> !IsLinked(form)
    ensures r.Dangling? <==> IsLinked(form) && form.linkedFormId.value !in formsById
    ensures r.Found? ==> form.linkedFormId.value in formsById && r.target == formsById[form.linkedFormId.value]
  {
    if !IsLinked(form) then NotLinked
    else if form.linkedFormId.value in formsById then Found(formsById[form.linkedFormId.value])
    else Dangling
  }

  /** Resolved against the index of `forms`, a link is one hop: it finds the
      last form of the list whose id is the link, and is dangling (not an
      error) exactly when no form has that id. */
  lemma ResolveInIndex(form: FormRecord, forms: seq<FormRecord>)
    ensures ResolveLinked(form, IdIndex(forms)).Dangling? <==>
      IsLinked(form) && forall i :: 0 <= i < |forms| ==> !HasId(forms[i], form.linkedFormId.value)
    ensures ResolveLinked(form, IdIndex(forms)).Found? ==>
      var target := ResolveLinked(form, IdIndex(forms)).target;
      && target in forms
      && HasId(target, form.linkedFormId.value)
      && exists i :: 0 <= i < |forms| && forms[i] == target
           && forall j :: i < j < |forms| ==> !HasId(forms[j], form.linkedFormId.value)
  {
    if IsLinked(form) {
      var k := form.linkedFormId.value;
      IdIndexKeys(forms, k);
      if k in IdIndex(forms) {
        var i :| 0 <= i < |forms| && HasId(forms[i], k);
        i := LastWithId(forms, i, k);
        IdIndexLastWins(forms, i, k);
      }
    }
  }

  /** From a record with id `k`, the position of the last one. */
  lemma {:induction false} LastWithId(forms: seq<FormRecord>, i: nat, k: string) returns (last: nat)
    requires i < |forms| && HasId(forms[i], k)
    ensures i <= last < |forms| && HasId(forms[last], k)
    ensures forall j :: last < j < |forms| ==> !HasId(forms[j], k)
    decreases |forms| - i
  {
    if j :| i < j < |forms| && HasId(forms[j], k) {
      last := LastWithId(forms, j, k);
    } else {
      last := i;
    }
  }
}
