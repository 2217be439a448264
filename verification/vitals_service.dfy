/** The vitals service: recording a reading and listing a user's readings, optionally of one
    type, latest first. */
module VitalsService {
  import opened Common
  import opened Store
  import opened Sorting

  /** `logVital`: appends exactly one reading with the given fields. */
  function LogVital(
    st: Store, userId: int, kind: string, value: Scalar, unit: string,
    notes: Option<string>, now: Instant
  ): (r: Outcome<Vital>)
    ensures r.result.Ok?
    ensures var v := r.result.value;
      && r.store.vitals == st.vitals + [v]
      && v.id == st.nextVitalId
      && v.userId == userId && v.kind == kind && v.value == value && v.unit == unit
      && v.notes == notes && v.recordedAt == now
    ensures r.store == st.(vitals := r.store.vitals, nextVitalId := st.nextVitalId + 1)
    ensures Valid(st) ==> Valid(r.store)
  {
    var v := Vital(st.nextVitalId, userId, kind, value, unit, now, notes);
    assert Valid(st) ==> Keyed(st.vitals + [v], VitalId, st.nextVitalId + 1) by {
      if Valid(st) { AppendKeyed(st.vitals, VitalId, st.nextVitalId, v); }
    }
    Outcome(Ok(v), st.(vitals := st.vitals + [v], nextVitalId := st.nextVitalId + 1))
  }

  /** The `WHERE` of `getVitals`: the user's rows, and only of the given type when one is
      given (an empty type is no filter). */
  predicate Selected(v: Vital, userId: int, kind: Option<string>) {
    v.userId == userId && (Truthy(kind) ==> v.kind == kind.value)
  }

  /** `getVitals`: exactly the selected readings, latest `recorded_at` first. */
  function GetVitals(st: Store, userId: int, kind: Option<string>): (r: seq<Vital>)
    ensures forall v :: v in r <==> v in st.vitals && Selected(v, userId, kind)
    ensures forall v :: multiset(r)[v] == if Selected(v, userId, kind) then multiset(st.vitals)[v] else 0
    ensures Sorted(r, (v: Vital) => v.recordedAt, Descending)
  {
    var keep := SelectedBy(userId, kind);
    FilterMultiset(st.vitals, keep);
    var r := SortBy(Filter(st.vitals, keep), (v: Vital) => v.recordedAt, Descending);
    assert forall v :: v in r <==> v in multiset(r);
    r
  }

  /** The `WHERE` of `getVitals` as a row predicate, one term for every caller. */
  function SelectedBy(userId: int, kind: Option<string>): Vital -> bool {
    (v: Vital) => Selected(v, userId, kind)
  }

  /** Logging a reading for one user leaves every other user's listing exactly as it was. */
  lemma {:induction false} LogVitalKeepsOthers(
    st: Store, userId: int, kind: string, value: Scalar, unit: string,
    notes: Option<string>, now: Instant, other: int, filter: Option<string>
  )
    requires other != userId
    ensures var r := LogVital(st, userId, kind, value, unit, notes, now);
      GetVitals(r.store, other, filter) == GetVitals(st, other, filter)
  {
    var r := LogVital(st, userId, kind, value, unit, notes, now);
    var v := r.result.value;
    var keep := SelectedBy(other, filter);
    assert Filter(r.store.vitals, keep) == Filter(st.vitals, keep) by {
      FilterAppend(st.vitals, [v], keep);
      assert [v][1..] == [];
      assert !keep(v);
    }
  }
}
