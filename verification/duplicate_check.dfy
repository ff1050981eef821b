/** `DataValidator.detect_duplicates`: records whose names agree once
    lower-cased and stripped. The loop builds an insertion-ordered dict from
    name to record indices; the dict is modelled as the list of names in
    insertion order plus a map. */
module DuplicateCheck {
  import opened Wrappers
  import opened Text
  import opened Seqs
  import opened JsonValues

  /** `medicine.get('name', '').lower()` raises for a present name that is
      not a string. */
  predicate NameCrashes(r: Record) {
    "name" in r && !r["name"].JString?
  }

  /** `medicine.get('name', '').lower().strip()`, for records that do not
      crash. */
  function NameKey(r: Record): string {
    if "name" in r && r["name"].JString? then Strip(Lower(r["name"].s)) else ""
  }

  function NameKeys(meds: seq<Record>): (keys: seq<string>)
    ensures |keys| == |meds|
    ensures forall i | 0 <= i < |meds| :: keys[i] == NameKey(meds[i])
  {
    seq(|meds|, i requires 0 <= i < |meds| => NameKey(meds[i]))
  }

  /** One entry of the result: a name, how many records carry it, and
      which. */
  datatype Duplicate = Duplicate(name: string, count: nat, indices: seq<nat>)

  /** `name_map`: the names in insertion order, and each name's indices. */
  datatype NameMap = NameMap(order: seq<string>, entries: map<string, seq<nat>>)


  /** The positions at which `k` occurs in `keys`, ascending. */
  function Positions(keys: seq<string>, k: string): (ps: seq<nat>)
    ensures forall j | 0 <= j < |ps| :: ps[j] < |keys| && keys[ps[j]] == k
    ensures forall j, l | 0 <= j < l < |ps| :: ps[j] < ps[l]
    ensures forall i | 0 <= i < |keys| :: i in ps <==> keys[i] == k
  {
    if |keys| == 0 then []
    else
      var n := |keys| - 1;
      var prev := Positions(keys[..n], k);
      assert forall i | 0 <= i < n :: keys[..n][i] == keys[i];
      prev + (if keys[n] == k then [n] else [])
  }

  /** The first loop of `detect_duplicates`: every non-empty name gets its
      index appended, a new name going to the end of the insertion order. */
  function BuildNameMap(keys: seq<string>): (nm: NameMap)
    ensures forall k :: k in nm.entries <==> k in nm.order
    ensures forall a, b | 0 <= a < b < |nm.order| :: nm.order[a] != nm.order[b]
  {
    if |keys| == 0 then NameMap([], map[])
    else
      var n := |keys| - 1;
      var prev := BuildNameMap(keys[..n]);
      var k := keys[n];
      if k == "" then prev
      else if k in prev.entries then NameMap(prev.order, prev.entries[k := prev.entries[k] + [n]])
      else NameMap(prev.order + [k], prev.entries[k := [n]])
  }

  /** Each name's entry lists exactly the positions the name occurs at; the
      empty name is never entered. */
  lemma {:induction false} NameMapEntries(keys: seq<string>, k: string)
    ensures var nm := BuildNameMap(keys);
            && (k in nm.entries <==> k != "" && Positions(keys, k) != [])
            && (k != "" ==> Entries(nm.entries, k) == Positions(keys, k))
  {
    if |keys| > 0 {
      var n := |keys| - 1;
      NameMapEntries(keys[..n], k);
    }
  }

  /** The first position of `k` in `keys`, or `|keys|` when there is none. */
  function FirstPos(keys: seq<string>, k: string): nat {
    if |keys| == 0 then 0
    else
      var n := |keys| - 1;
      var p := FirstPos(keys[..n], k);
      if p < n then p else if keys[n] == k then n else n + 1
  }

  /** `FirstPos` is the head of `Positions`. */
  lemma {:induction false} FirstPosIsHead(keys: seq<string>, k: string)
    ensures FirstPos(keys, k) <= |keys|
    ensures Positions(keys, k) == [] <==> FirstPos(keys, k) == |keys|
    ensures Positions(keys, k) != [] ==> Positions(keys, k)[0] == FirstPos(keys, k)
  {
    if |keys| > 0 {
      var n := |keys| - 1;
      FirstPosIsHead(keys[..n], k);
      var prev := Positions(keys[..n], k);
      assert Positions(keys, k) == prev + (if keys[n] == k then [n] else []);
    }
  }

  /** The names of `order` occur in `keys`, in order of first occurrence. */
  predicate FirstsAscending(keys: seq<string>, order: seq<string>) {
    && (forall a | 0 <= a < |order| :: FirstPos(keys, order[a]) < |keys|)
    && (forall a, b | 0 <= a < b < |order| :: FirstPos(keys, order[a]) < FirstPos(keys, order[b]))
  }

  /** The insertion order is the order of first occurrence. */
  lemma {:induction false} NameMapFirsts(keys: seq<string>)
    ensures FirstsAscending(keys, BuildNameMap(keys).order)
  {
    if |keys| > 0 {
      var n := |keys| - 1;
      var init := keys[..n];
      var k := keys[n];
      var prev := BuildNameMap(init);
      NameMapFirsts(init);
      assert keys == init + [k];
      if k != "" && k !in prev.entries {
        NameMapEntries(init, k);
        FirstPosIsHead(init, k);
        FirstsNew(init, k, prev.order);
      } else {
        FirstsKept(init, k, prev.order);
      }
    }
  }

  /** A first occurrence before the end stays where it is. */
  lemma FirstPosSnoc(init: seq<string>, x: string, k: string)
    ensures FirstPos(init + [x], k)
         == if FirstPos(init, k) < |init| then FirstPos(init, k) else if x == k then |init| else |init| + 1
  {
    assert (init + [x])[..|init|] == init;
  }

  /** Appending a key keeps the first occurrences of the names seen. */
  lemma FirstsKept(init: seq<string>, x: string, order: seq<string>)
    requires FirstsAscending(init, order)
    ensures FirstsAscending(init + [x], order)
  {
    forall a | 0 <= a < |order| ensures FirstPos(init + [x], order[a]) == FirstPos(init, order[a]) {
      FirstPosSnoc(init, x, order[a]);
    }
  }

  /** Appending a key not seen before puts it last in the order. */
  lemma FirstsNew(init: seq<string>, k: string, order: seq<string>)
    requires FirstsAscending(init, order) && FirstPos(init, k) == |init|
    ensures FirstsAscending(init + [k], order + [k])
  {
    FirstsKept(init, k, order);
    FirstPosSnoc(init, k, k);
    var o := order + [k];
    forall a | 0 <= a < |o| ensures FirstPos(init + [k], o[a]) < |init| + 1 && (a < |order| ==> FirstPos(init + [k], o[a]) < |init|) {
      if a < |order| {
        assert o[a] == order[a];
      }
    }
  }

  /** The second loop: one entry per name, in insertion order, for the
      names held by more than one record. */
  function Groups(order: seq<string>, entries: map<string, seq<nat>>): (ds: seq<Duplicate>)
    ensures forall j | 0 <= j < |ds| ::
              && ds[j].name in order
              && ds[j].indices == Entries(entries, ds[j].name)
              && ds[j].count == |ds[j].indices| > 1
  {
    if |order| == 0 then []
    else
      var n := |order| - 1;
      var k := order[n];
      var prev := Groups(order[..n], entries);
      var es := Entries(entries, k);
      assert forall j | 0 <= j < |prev| :: prev[j].name in order by {
        assert order == order[..n] + [k];
      }
      prev + (if |es| > 1 then [Duplicate(k, |es|, es)] else [])
  }

  /** First indices ascend along a list of groups. */
  predicate GroupsAscending(ds: seq<Duplicate>) {
    && (forall j | 0 <= j < |ds| :: ds[j].indices != [])
    && (forall j, l | 0 <= j < l < |ds| :: ds[j].indices[0] < ds[l].indices[0])
  }

  /** Groups come in insertion order: when first indices ascend along the
      order, they ascend along the groups. */
  lemma {:induction false} GroupsOrdered(order: seq<string>, entries: map<string, seq<nat>>)
    requires forall a | 0 <= a < |order| :: Entries(entries, order[a]) != []
    requires forall a, b | 0 <= a < b < |order| :: Entries(entries, order[a])[0] < Entries(entries, order[b])[0]
    ensures GroupsAscending(Groups(order, entries))
  {
    if |order| > 0 {
      var n := |order| - 1;
      var init := order[..n];
      assert forall a | 0 <= a < n :: init[a] == order[a];
      GroupsOrdered(init, entries);
      var prev := Groups(init, entries);
      var es := Entries(entries, order[n]);
      var last := if |es| > 1 then [Duplicate(order[n], |es|, es)] else [];
      assert Groups(order, entries) == prev + last;
      GroupsOrderedStep(order, entries, prev, last);
    }
  }

  /** The group of the last name in the order, if any, starts after every
      earlier group. */
  lemma GroupsOrderedStep(order: seq<string>, entries: map<string, seq<nat>>, prev: seq<Duplicate>, last: seq<Duplicate>)
    requires |order| > 0
    requires forall a | 0 <= a < |order| :: Entries(entries, order[a]) != []
    requires forall a, b | 0 <= a < b < |order| :: Entries(entries, order[a])[0] < Entries(entries, order[b])[0]
    requires forall j | 0 <= j < |prev| ::
               prev[j].name in order[..|order| - 1] && prev[j].indices == Entries(entries, prev[j].name)
    requires GroupsAscending(prev)
    requires var es := Entries(entries, order[|order| - 1]);
             last == if |es| > 1 then [Duplicate(order[|order| - 1], |es|, es)] else []
    ensures GroupsAscending(prev + last)
  {
    var n := |order| - 1;
    var ds := prev + last;
    if last != [] {
      assert ds[|prev|] == last[0];
      forall j | 0 <= j < |prev| ensures prev[j].indices[0] < last[0].indices[0] {
        var a :| 0 <= a < n && order[..n][a] == prev[j].name;
        assert order[..n][a] == order[a];
      }
    }
  }

  /** Every name in the order held by more than one record has a group. */
  lemma {:induction false} GroupsComplete(order: seq<string>, entries: map<string, seq<nat>>, k: string)
    requires k in order && |Entries(entries, k)| > 1
    ensures exists j | 0 <= j < |Groups(order, entries)| :: Groups(order, entries)[j].name == k
  {
    var n := |order| - 1;
    var init := order[..n];
    var ds := Groups(order, entries);
    if order[n] == k {
      assert ds[|ds| - 1].name == k;
    } else {
      assert order == init + [order[n]];
      GroupsComplete(init, entries, k);
      var j :| 0 <= j < |Groups(init, entries)| && Groups(init, entries)[j].name == k;
      assert ds[j].name == k;
    }
  }

  /** `detect_duplicates`: nothing (the call raises) when some name is not
      a string, otherwise the groups. */
  function DetectDuplicates(meds: seq<Record>): (r: Option<seq<Duplicate>>)
    ensures r.None? <==> exists i | 0 <= i < |meds| :: NameCrashes(meds[i])
  {
    if exists i | 0 <= i < |meds| :: NameCrashes(meds[i]) then None
    else
      var nm := BuildNameMap(NameKeys(meds));
      Some(Groups(nm.order, nm.entries))
  }

  /** The entries along the insertion order are the positions, so the
      order requirement of `GroupsOrdered` holds. */
  lemma NameMapGroupsReady(keys: seq<string>, nm: NameMap)
    requires nm == BuildNameMap(keys)
    ensures forall a | 0 <= a < |nm.order| :: Entries(nm.entries, nm.order[a]) != []
    ensures forall a, b | 0 <= a < b < |nm.order| ::
              Entries(nm.entries, nm.order[a])[0] < Entries(nm.entries, nm.order[b])[0]
  {
    NameMapFirsts(keys);
    forall a | 0 <= a < |nm.order|
      ensures Entries(nm.entries, nm.order[a]) == Positions(keys, nm.order[a]) != []
      ensures Positions(keys, nm.order[a])[0] == FirstPos(keys, nm.order[a])
    {
      NameMapEntries(keys, nm.order[a]);
      FirstPosIsHead(keys, nm.order[a]);
    }
  }

  /** One reported group: a non-empty name, a count of two or more equal to
      the number of its indices, and exactly the records carrying that
      name, ascending. */
  predicate GroupSound(meds: seq<Record>, d: Duplicate) {
    && d.name != ""
    && d.count == |d.indices| >= 2
    && (forall i | 0 <= i < |meds| :: i in d.indices <==> NameKey(meds[i]) == d.name)
    && (forall a | 0 <= a < |d.indices| :: d.indices[a] < |meds|)
    && (forall a, b | 0 <= a < b < |d.indices| :: d.indices[a] < d.indices[b])
  }

  /** What `detect_duplicates` reports: every group is sound (see
      `GroupSound`); groups come in order of first occurrence (so no name
      twice); and every name two records share has a group. */
  lemma DetectDuplicatesSpec(meds: seq<Record>)
    requires forall i | 0 <= i < |meds| :: !NameCrashes(meds[i])
    ensures DetectDuplicates(meds).Some?
    ensures var ds := DetectDuplicates(meds).value;
            && (forall j | 0 <= j < |ds| :: GroupSound(meds, ds[j]))
            && GroupsAscending(ds)
            && (forall i, i' | 0 <= i < i' < |meds| && NameKey(meds[i]) == NameKey(meds[i']) != "" ::
                  exists j | 0 <= j < |ds| :: ds[j].name == NameKey(meds[i]))
  {
    var keys := NameKeys(meds);
    var nm := BuildNameMap(keys);
    var ds := DetectDuplicates(meds).value;
    assert ds == Groups(nm.order, nm.entries);
    NameMapGroupsReady(keys, nm);
    GroupsOrdered(nm.order, nm.entries);
    forall j | 0 <= j < |ds| ensures GroupSound(meds, ds[j]) {
      GroupPositions(meds, j);
    }
    forall i, i' | 0 <= i < i' < |meds| && NameKey(meds[i]) == NameKey(meds[i']) != ""
      ensures exists j | 0 <= j < |ds| :: ds[j].name == NameKey(meds[i])
    {
      SharedNameGrouped(meds, i, i');
    }
  }

  /** Each reported group is sound. */
  lemma GroupPositions(meds: seq<Record>, j: nat)
    requires forall i | 0 <= i < |meds| :: !NameCrashes(meds[i])
    requires j < |DetectDuplicates(meds).value|
    ensures GroupSound(meds, DetectDuplicates(meds).value[j])
  {
    var keys := NameKeys(meds);
    var nm := BuildNameMap(keys);
    var ds := DetectDuplicates(meds).value;
    assert ds == Groups(nm.order, nm.entries);
    NameMapEntries(keys, ds[j].name);
  }

  /** Two records sharing a non-empty name put that name in a group. */
  lemma SharedNameGrouped(meds: seq<Record>, i: nat, i': nat)
    requires forall i | 0 <= i < |meds| :: !NameCrashes(meds[i])
    requires i < i' < |meds| && NameKey(meds[i]) == NameKey(meds[i']) != ""
    ensures exists j | 0 <= j < |DetectDuplicates(meds).value| :: DetectDuplicates(meds).value[j].name == NameKey(meds[i])
  {
    var keys := NameKeys(meds);
    var nm := BuildNameMap(keys);
    assert DetectDuplicates(meds).value == Groups(nm.order, nm.entries);
    var k := keys[i];
    NameMapEntries(keys, k);
    var ps := Positions(keys, k);
    var a :| 0 <= a < |ps| && ps[a] == i;
    var b :| 0 <= b < |ps| && ps[b] == i';
    assert a != b;
    assert k in nm.order;
    GroupsComplete(nm.order, nm.entries, k);
  }
}
