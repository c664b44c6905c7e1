/**
 The generic collection helpers of the application: `group` (rows into
 insertion-ordered groups), `vec_to_map` (a keyed map in which later
 elements win) and `reduce_results` (all values, or one error that lists
 every failure).
 */
module Common {

  import opened Seqs
  import opened Text
  import opened Error

  /** One entry of the insertion-ordered map built by `group`. */
  datatype Slot<G, K, V> = Slot(group: G, key: K, values: seq<V>)

  /** Position of the slot of group `g`, or the number of slots when there is none. */
  function SlotIndex<G(==), K, V>(slots: seq<Slot<G, K, V>>, g: G): (i: nat)
    ensures i <= |slots|
    ensures i < |slots| ==> slots[i].group == g
    ensures forall k :: 0 <= k < i ==> slots[k].group != g
  {
    if |slots| == 0 then 0
    else if slots[0].group == g then 0
    else 1 + SlotIndex(slots[1..], g)
  }

  function SomeAsSeq<V>(o: Option<V>): seq<V> {
    match o
    case Some(v) => [v]
    case None => []
  }

  /** One iteration of the loop of `group`. */
  function GroupStep<T, G(==), K, V>(
    slots: seq<Slot<G, K, V>>, d: T,
    groupFn: T -> G, keyFn: T -> K, valueFn: T -> Option<V>): seq<Slot<G, K, V>>
  {
    var g := groupFn(d);
    var i := SlotIndex(slots, g);
    if i < |slots| then
      slots[i := slots[i].(values := slots[i].values + SomeAsSeq(valueFn(d)))]
    else
      slots + [Slot(g, keyFn(d), SomeAsSeq(valueFn(d)))]
  }

  /** The map built by the loop of `group` over `datas`. */
  function GroupSlots<T, G(==), K, V>(
    datas: seq<T>, groupFn: T -> G, keyFn: T -> K, valueFn: T -> Option<V>): seq<Slot<G, K, V>>
    decreases |datas|
  {
    if |datas| == 0 then []
    else GroupStep(GroupSlots(datas[..|datas| - 1], groupFn, keyFn, valueFn), datas[|datas| - 1],
                   groupFn, keyFn, valueFn)
  }

  /** The `Some` values of the rows of group `g`, in row order. */
  function ValuesOf<T, G(==), V>(datas: seq<T>, groupFn: T -> G, valueFn: T -> Option<V>, g: G): seq<V>
    decreases |datas|
  {
    if |datas| == 0 then []
    else
      var d := datas[|datas| - 1];
      ValuesOf(datas[..|datas| - 1], groupFn, valueFn, g) + (if groupFn(d) == g then SomeAsSeq(valueFn(d)) else [])
  }

  /** Slot `i` belongs to the `i`-th row that opens a new group. */
  ghost predicate SlotsMatch<T, G, K, V>(
    datas: seq<T>, firsts: seq<T>, groupFn: T -> G, keyFn: T -> K, valueFn: T -> Option<V>, slots: seq<Slot<G, K, V>>)
  {
    |slots| == |firsts| &&
    forall i :: 0 <= i < |slots| ==>
      slots[i].group == groupFn(firsts[i]) &&
      slots[i].key == keyFn(firsts[i]) &&
      slots[i].values == ValuesOf(datas, groupFn, valueFn, slots[i].group)
  }

  /** The slot of a group exists exactly when an earlier row opened that group. */
  lemma SlotIndexFound<T, G, K, V>(firsts: seq<T>, groupFn: T -> G, slots: seq<Slot<G, K, V>>, g: G)
    requires |slots| == |firsts|
    requires forall i :: 0 <= i < |slots| ==> slots[i].group == groupFn(firsts[i])
    ensures SlotIndex(slots, g) < |slots| <==> g in MapSeq(firsts, groupFn)
  {
    var i := SlotIndex(slots, g);
    if i < |slots| {
      assert MapSeq(firsts, groupFn)[i] == g;
    } else {
      forall k | 0 <= k < |firsts|
        ensures MapSeq(firsts, groupFn)[k] != g
      {
        assert slots[k].group != g;
      }
    }
  }

  /** A row of an already open group appends its value to that group's slot. */
  lemma GroupStepExisting<T, G, K, V>(
    datas: seq<T>, firsts: seq<T>, groupFn: T -> G, keyFn: T -> K, valueFn: T -> Option<V>, prev: seq<Slot<G, K, V>>)
    requires |datas| > 0
    requires SlotsMatch(datas[..|datas| - 1], firsts, groupFn, keyFn, valueFn, prev)
    requires Distinct(MapSeq(firsts, groupFn))
    requires SlotIndex(prev, groupFn(datas[|datas| - 1])) < |prev|
    ensures SlotsMatch(datas, firsts, groupFn, keyFn, valueFn, GroupStep(prev, datas[|datas| - 1], groupFn, keyFn, valueFn))
  {
    var n := |datas| - 1;
    var pre := datas[..n];
    var d := datas[n];
    var g := groupFn(d);
    var i := SlotIndex(prev, g);
    var slots := GroupStep(prev, d, groupFn, keyFn, valueFn);
    assert slots == prev[i := prev[i].(values := prev[i].values + SomeAsSeq(valueFn(d)))];
    forall j | 0 <= j < |slots|
      ensures slots[j].group == groupFn(firsts[j]) && slots[j].key == keyFn(firsts[j])
      ensures slots[j].values == ValuesOf(datas, groupFn, valueFn, slots[j].group)
    {
      var gj := prev[j].group;
      assert ValuesOf(datas, groupFn, valueFn, gj) ==
        ValuesOf(pre, groupFn, valueFn, gj) + (if g == gj then SomeAsSeq(valueFn(d)) else []);
      if j == i {
        assert slots[j].values == prev[j].values + SomeAsSeq(valueFn(d));
      } else {
        assert MapSeq(firsts, groupFn)[i] == g && MapSeq(firsts, groupFn)[j] == gj;
        assert gj != g;
        assert slots[j] == prev[j];
      }
    }
  }

  /** A row of a new group opens a slot at the end. */
  lemma {:induction false} GroupStepNew<T, G, K, V>(
    datas: seq<T>, firsts: seq<T>, groupFn: T -> G, keyFn: T -> K, valueFn: T -> Option<V>, prev: seq<Slot<G, K, V>>)
    requires |datas| > 0
    requires SlotsMatch(datas[..|datas| - 1], firsts, groupFn, keyFn, valueFn, prev)
    requires SlotIndex(prev, groupFn(datas[|datas| - 1])) == |prev|
    requires forall k :: 0 <= k < |datas| - 1 ==> groupFn(datas[k]) != groupFn(datas[|datas| - 1])
    ensures SlotsMatch(datas, firsts + [datas[|datas| - 1]], groupFn, keyFn, valueFn,
                       GroupStep(prev, datas[|datas| - 1], groupFn, keyFn, valueFn))
  {
    var n := |datas| - 1;
    var pre := datas[..n];
    var d := datas[n];
    var g := groupFn(d);
    var slots := GroupStep(prev, d, groupFn, keyFn, valueFn);
    assert slots == prev + [Slot(g, keyFn(d), SomeAsSeq(valueFn(d)))];
    assert ValuesOf(pre, groupFn, valueFn, g) == [] by {
      assert forall k :: 0 <= k < |pre| ==> pre[k] == datas[k];
      ValuesOfAbsent(pre, groupFn, valueFn, g);
    }
    var fs := firsts + [d];
    forall j | 0 <= j < |slots|
      ensures slots[j].group == groupFn(fs[j]) && slots[j].key == keyFn(fs[j])
      ensures slots[j].values == ValuesOf(datas, groupFn, valueFn, slots[j].group)
    {
      var gj := slots[j].group;
      assert ValuesOf(datas, groupFn, valueFn, gj) ==
        ValuesOf(pre, groupFn, valueFn, gj) + (if g == gj then SomeAsSeq(valueFn(d)) else []);
      if j < |prev| {
        assert slots[j] == prev[j];
        assert gj != g;
        assert fs[j] == firsts[j];
      } else {
        assert fs[j] == d;
      }
    }
  }

  lemma {:induction false} GroupSlotsMatch<T, G, K, V>(
    datas: seq<T>, groupFn: T -> G, keyFn: T -> K, valueFn: T -> Option<V>)
    ensures SlotsMatch(datas, UniqueBy(datas, groupFn), groupFn, keyFn, valueFn, GroupSlots(datas, groupFn, keyFn, valueFn))
    decreases |datas|
  {
    if |datas| == 0 {
      return;
    }
    var n := |datas| - 1;
    var pre := datas[..n];
    var d := datas[n];
    var prev := GroupSlots(pre, groupFn, keyFn, valueFn);
    GroupSlotsMatch(pre, groupFn, keyFn, valueFn);
    var firsts := UniqueBy(pre, groupFn);
    SlotIndexFound(firsts, groupFn, prev, groupFn(d));
    assert UniqueBy(datas, groupFn) == if groupFn(d) in MapSeq(firsts, groupFn) then firsts else firsts + [d];
    if SlotIndex(prev, groupFn(d)) < |prev| {
      GroupStepExisting(datas, firsts, groupFn, keyFn, valueFn, prev);
    } else {
      forall k | 0 <= k < n
        ensures groupFn(datas[k]) != groupFn(d)
      {
        assert pre[k] == datas[k];
        assert groupFn(pre[k]) in MapSeq(firsts, groupFn);
      }
      GroupStepNew(datas, firsts, groupFn, keyFn, valueFn, prev);
    }
  }

  /** A group no row belongs to has no values. */
  lemma {:induction false} ValuesOfAbsent<T, G, V>(datas: seq<T>, groupFn: T -> G, valueFn: T -> Option<V>, g: G)
    requires forall i :: 0 <= i < |datas| ==> groupFn(datas[i]) != g
    ensures ValuesOf(datas, groupFn, valueFn, g) == []
    decreases |datas|
  {
    if |datas| > 0 {
      var pre := datas[..|datas| - 1];
      assert forall i :: 0 <= i < |pre| ==> pre[i] == datas[i];
      ValuesOfAbsent(pre, groupFn, valueFn, g);
    }
  }

  /**
   `group`: one `(key, values)` pair per distinct group, in the order in which
   the groups first appear. The pair of the `i`-th group is built from the first
   row of that group (its key value) and holds the `Some` values of all the
   group's rows, in row order.
   */
  function Group<T(==), G(==), K, V>(
    datas: seq<T>, groupFn: T -> G, keyFn: T -> K, valueFn: T -> Option<V>): (r: seq<(K, seq<V>)>)
    ensures |r| == |UniqueBy(datas, groupFn)|
    ensures forall i :: 0 <= i < |r| ==>
      r[i].0 == keyFn(UniqueBy(datas, groupFn)[i]) &&
      r[i].1 == ValuesOf(datas, groupFn, valueFn, groupFn(UniqueBy(datas, groupFn)[i]))
  {
    var slots := GroupSlots(datas, groupFn, keyFn, valueFn);
    GroupSlotsMatch(datas, groupFn, keyFn, valueFn);
    MapSeq(slots, (s: Slot<G, K, V>) => (s.key, s.values))
  }

  /** Number of rows whose value is `Some`. */
  function CountSome<T, V>(datas: seq<T>, valueFn: T -> Option<V>): nat
    decreases |datas|
  {
    if |datas| == 0 then 0
    else CountSome(datas[..|datas| - 1], valueFn) + (if valueFn(datas[|datas| - 1]).Some? then 1 else 0)
  }

  function TotalValues<K, V>(groups: seq<(K, seq<V>)>): nat
    decreases |groups|
  {
    if |groups| == 0 then 0 else TotalValues(groups[..|groups| - 1]) + |groups[|groups| - 1].1|
  }

  function SlotsTotal<G, K, V>(slots: seq<Slot<G, K, V>>): nat
    decreases |slots|
  {
    if |slots| == 0 then 0 else SlotsTotal(slots[..|slots| - 1]) + |slots[|slots| - 1].values|
  }

  lemma {:induction false} SlotsTotalUpdate<G, K, V>(slots: seq<Slot<G, K, V>>, i: nat, s: Slot<G, K, V>)
    requires i < |slots|
    ensures SlotsTotal(slots[i := s]) == SlotsTotal(slots) - |slots[i].values| + |s.values|
    decreases |slots|
  {
    var n := |slots| - 1;
    if i < n {
      assert slots[i := s][..n] == slots[..n][i := s];
      SlotsTotalUpdate(slots[..n], i, s);
    } else {
      assert slots[i := s][..n] == slots[..n];
    }
  }

  lemma {:induction false} GroupSlotsTotal<T, G, K, V>(
    datas: seq<T>, groupFn: T -> G, keyFn: T -> K, valueFn: T -> Option<V>)
    ensures SlotsTotal(GroupSlots(datas, groupFn, keyFn, valueFn)) == CountSome(datas, valueFn)
    decreases |datas|
  {
    if |datas| > 0 {
      var n := |datas| - 1;
      var prev := GroupSlots(datas[..n], groupFn, keyFn, valueFn);
      GroupSlotsTotal(datas[..n], groupFn, keyFn, valueFn);
      var d := datas[n];
      var i := SlotIndex(prev, groupFn(d));
      if i < |prev| {
        SlotsTotalUpdate(prev, i, prev[i].(values := prev[i].values + SomeAsSeq(valueFn(d))));
      } else {
        var next := prev + [Slot(groupFn(d), keyFn(d), SomeAsSeq(valueFn(d)))];
        assert next[..|next| - 1] == prev;
      }
    }
  }

  lemma {:induction false} TotalValuesOfSlots<G, K, V>(slots: seq<Slot<G, K, V>>)
    ensures TotalValues(MapSeq(slots, (s: Slot<G, K, V>) => (s.key, s.values))) == SlotsTotal(slots)
    decreases |slots|
  {
    if |slots| > 0 {
      var f := (s: Slot<G, K, V>) => (s.key, s.values);
      var n := |slots| - 1;
      assert MapSeq(slots, f)[..n] == MapSeq(slots[..n], f);
      TotalValuesOfSlots(slots[..n]);
    }
  }

  /**
   `group` loses no value and invents none: the groups together hold as many
   values as there are rows whose value is `Some`; and the key of a group is
   the key of the first row with that group.
   */
  lemma GroupCounts<T, G, K, V>(
    datas: seq<T>, groupFn: T -> G, keyFn: T -> K, valueFn: T -> Option<V>)
    ensures TotalValues(Group(datas, groupFn, keyFn, valueFn)) == CountSome(datas, valueFn)
    ensures forall i :: 0 <= i < |datas| ==> groupFn(datas[i]) in MapSeq(UniqueBy(datas, groupFn), groupFn)
    ensures forall i :: 0 <= i < |Group(datas, groupFn, keyFn, valueFn)| ==>
      var first := UniqueBy(datas, groupFn)[i];
      groupFn(first) in KeysOf(datas, groupFn) &&
      Group(datas, groupFn, keyFn, valueFn)[i].0 == keyFn(datas[IndexOf(KeysOf(datas, groupFn), groupFn(first))])
  {
    GroupSlotsTotal(datas, groupFn, keyFn, valueFn);
    TotalValuesOfSlots(GroupSlots(datas, groupFn, keyFn, valueFn));
    UniqueByFirst(datas, groupFn);
  }

  /** `vec_to_map`: every element's key is in the map, and nothing else is. */
  function VecToMap<T, K(==), V>(xs: seq<T>, keyFn: T -> K, valueFn: T -> V): (m: map<K, V>)
    ensures forall i :: 0 <= i < |xs| ==> keyFn(xs[i]) in m
    ensures forall k :: k in m ==> exists i :: 0 <= i < |xs| && keyFn(xs[i]) == k
    decreases |xs|
  {
    if |xs| == 0 then map[]
    else
      var n := |xs| - 1;
      var prev := VecToMap(xs[..n], keyFn, valueFn);
      assert forall i :: 0 <= i < n ==> xs[..n][i] == xs[i];
      prev[keyFn(xs[n]) := valueFn(xs[n])]
  }

  /** In `vec_to_map` a key maps to the value of the LAST element carrying it. */
  lemma {:induction false} VecToMapLastWins<T, K, V>(xs: seq<T>, keyFn: T -> K, valueFn: T -> V, i: nat)
    requires i < |xs|
    requires forall j :: i < j < |xs| ==> keyFn(xs[j]) != keyFn(xs[i])
    ensures VecToMap(xs, keyFn, valueFn)[keyFn(xs[i])] == valueFn(xs[i])
    decreases |xs|
  {
    var n := |xs| - 1;
    if i < n {
      assert forall j :: i < j < n ==> xs[..n][j] == xs[j];
      VecToMapLastWins(xs[..n], keyFn, valueFn, i);
      assert xs[..n][i] == xs[i];
    }
  }

  /** Every value of `vec_to_map` is the value of an element carrying its key. */
  lemma {:induction false} VecToMapValueFrom<T, K, V>(xs: seq<T>, keyFn: T -> K, valueFn: T -> V, k: K)
    requires k in VecToMap(xs, keyFn, valueFn)
    ensures exists j :: 0 <= j < |xs| && keyFn(xs[j]) == k && VecToMap(xs, keyFn, valueFn)[k] == valueFn(xs[j])
    decreases |xs|
  {
    var n := |xs| - 1;
    if keyFn(xs[n]) != k {
      VecToMapValueFrom(xs[..n], keyFn, valueFn, k);
      var j :| 0 <= j < n && keyFn(xs[..n][j]) == k && VecToMap(xs[..n], keyFn, valueFn)[k] == valueFn(xs[..n][j]);
      assert xs[..n][j] == xs[j];
    }
  }

  function Oks<T>(results: seq<VortoResult<T>>): (oks: seq<T>)
    ensures |oks| <= |results|
    ensures (forall i :: 0 <= i < |results| ==> results[i].Ok?) ==>
      |oks| == |results| && forall i :: 0 <= i < |results| ==> oks[i] == results[i].value
    ensures |results| == 1 ==> oks == (if results[0].Ok? then [results[0].value] else [])
    decreases |results|
  {
    if |results| == 0 then []
    else
      var n := |results| - 1;
      assert forall i :: 0 <= i < n ==> results[..n][i] == results[i];
      Oks(results[..n]) + (if results[n].Ok? then [results[n].value] else [])
  }

  function Errs<T>(results: seq<VortoResult<T>>): (errs: seq<VortoError>)
    ensures |errs| == 0 <==> forall i :: 0 <= i < |results| ==> results[i].Ok?
    ensures forall k :: 0 <= k < |errs| ==> exists i :: 0 <= i < |results| && results[i] == Err(errs[k])
    ensures |results| == 1 ==> errs == (if results[0].Err? then [results[0].error] else [])
    decreases |results|
  {
    if |results| == 0 then []
    else
      var n := |results| - 1;
      var prev := Errs(results[..n]);
      assert forall i :: 0 <= i < n ==> results[..n][i] == results[i];
      prev + (if results[n].Err? then [results[n].error] else [])
  }

  /** The values of a concatenation are the values of each part, in order. */
  lemma {:induction false} OksConcat<T>(a: seq<VortoResult<T>>, b: seq<VortoResult<T>>)
    ensures Oks(a + b) == Oks(a) + Oks(b)
    decreases |b|
  {
    if |b| == 0 {
      assert a + b == a;
    } else {
      var n := |b| - 1;
      assert (a + b)[..|a + b| - 1] == a + b[..n];
      assert (a + b)[|a + b| - 1] == b[n];
      OksConcat(a, b[..n]);
    }
  }

  /** The errors of a concatenation are the errors of each part, in order: with
      the singleton case of `Errs`, every `Err` is listed once, where it stands. */
  lemma {:induction false} ErrsConcat<T>(a: seq<VortoResult<T>>, b: seq<VortoResult<T>>)
    ensures Errs(a + b) == Errs(a) + Errs(b)
    decreases |b|
  {
    if |b| == 0 {
      assert a + b == a;
    } else {
      var n := |b| - 1;
      assert (a + b)[..|a + b| - 1] == a + b[..n];
      assert (a + b)[|a + b| - 1] == b[n];
      ErrsConcat(a, b[..n]);
    }
  }

  /** How `reduce_results` lists one failure in its combined message. */
  function ErrorLine(e: VortoError): string {
    "code: " + IntToString(e.code) + " message: " + e.message
  }

  /**
   `reduce_results`: `Ok` of all values, in input order, when every input is
   `Ok`; otherwise a Validation error (whatever the original codes) whose text
   lists the failures joined by ", ".
   */
  function ReduceResults<T>(results: seq<VortoResult<T>>): (r: VortoResult<seq<T>>)
    ensures r.Ok? <==> forall i :: 0 <= i < |results| ==> results[i].Ok?
    ensures r.Ok? ==> |r.value| == |results| && forall i :: 0 <= i < |results| ==> r.value[i] == results[i].value
    ensures r.Err? ==> CodeOfValue(r.error.code) == Some(Validation) && r.error.code == 4
    ensures r.Err? ==> |r.error.message| >= TagLength(Validation)
    ensures r.Err? ==> r.error.message[TagLength(Validation)..] == Join(", ", MapSeq(Errs(results), ErrorLine))
  {
    var errors := Errs(results);
    if |errors| == 0 then Ok(Oks(results))
    else Err(NewError(Validation, Join(", ", MapSeq(errors, ErrorLine))))
  }
}
