/** The loops of the enumeration: filling `group_order`, and walking all masks. */
module PermutationLoops {
  import opened Permutation

  predicate InPair(d: Definition, g: nat, index: nat)
    requires g < |d.opposites|
  {
    d.opposites[g].0 == index || d.opposites[g].1 == index
  }

  lemma {:induction false} FirstPairIsFirst(d: Definition, index: nat, from: nat)
    requires from <= |d.opposites|
    ensures match d.FirstPair(index, from)
            case Some(g) => InPair(d, g, index) && forall h :: from <= h < g ==> !InPair(d, h, index)
            case None => forall h :: from <= h < |d.opposites| ==> !InPair(d, h, index)
    decreases |d.opposites| - from
  {
    if from < |d.opposites| && !InPair(d, from, index) {
      FirstPairIsFirst(d, index, from + 1);
    }
  }

  /** The pairs before `bound` have been entered. */
  ghost predicate EntersPairs(d: Definition, bound: nat, order: map<nat, nat>) {
    forall i: nat :: (i in order <==> d.PairOf(i).Some? && d.PairOf(i).value < bound) && (i in order ==> order[i] == d.PairOf(i).value)
  }

  lemma EnterPair(d: Definition, g: nat, order: map<nat, nat>)
    requires g < |d.opposites| && EntersPairs(d, g, order)
    ensures EntersPairs(d, g + 1, OrInsert(OrInsert(order, d.opposites[g].0, g), d.opposites[g].1, g))
  {
    var next := OrInsert(OrInsert(order, d.opposites[g].0, g), d.opposites[g].1, g);
    forall i: nat
      ensures (i in next <==> d.PairOf(i).Some? && d.PairOf(i).value < g + 1) && (i in next ==> next[i] == d.PairOf(i).value)
    {
      FirstPairIsFirst(d, i, 0);
      assert i in next <==> i in order || InPair(d, g, i);
    }
  }

  /** `entry(key).or_insert(value)` */
  function OrInsert(m: map<nat, nat>, key: nat, value: nat): map<nat, nat> {
    if key in m then m else m[key := value]
  }

  method GroupOrder(d: Definition) returns (order: map<nat, nat>)
    ensures forall i :: 0 <= i < |d.values| ==> i in order && order[i] == d.Group(i)
  {
    order := map[];
    for group := 0 to |d.opposites|
      invariant EntersPairs(d, group, order)
    {
      EnterPair(d, group, order);
      order := OrInsert(order, d.opposites[group].0, group);
      order := OrInsert(order, d.opposites[group].1, group);
    }
    var nextGroup := |d.opposites|;
    for index := 0 to |d.values|
      invariant nextGroup == |d.opposites| + d.SinglesBelow(index)
      invariant forall i :: 0 <= i < index ==> i in order && order[i] == d.Group(i)
      invariant forall i: nat :: i >= index ==> (i in order <==> d.PairOf(i).Some?) && (i in order ==> order[i] == d.PairOf(i).value)
    {
      if index !in order {
        order := order[index := nextGroup];
        nextGroup := nextGroup + 1;
      }
    }
  }

  /** `sort_by_key` with the groups looked up in the map. */
  function SortByGroup(d: Definition, order: map<nat, nat>, indexes: seq<nat>): (sorted: seq<nat>)
    requires forall i :: 0 <= i < |indexes| ==> indexes[i] in order
    ensures forall i :: 0 <= i < |sorted| ==> sorted[i] in indexes
  {
    if indexes == [] then [] else InsertByGroup(d, order, SortByGroup(d, order, indexes[1..]), indexes[0])
  }

  function InsertByGroup(d: Definition, order: map<nat, nat>, sorted: seq<nat>, x: nat): (r: seq<nat>)
    requires x in order && forall i :: 0 <= i < |sorted| ==> sorted[i] in order
    ensures forall i :: 0 <= i < |r| ==> r[i] == x || r[i] in sorted
  {
    if sorted == [] || order[x] < order[sorted[0]] || (order[x] == order[sorted[0]] && x <= sorted[0]) then [x] + sorted
    else [sorted[0]] + InsertByGroup(d, order, sorted[1..], x)
  }

  lemma {:induction false} InsertByGroupIsInsert(d: Definition, order: map<nat, nat>, sorted: seq<nat>, x: nat)
    requires x in order && order[x] == d.Group(x)
    requires forall i :: 0 <= i < |sorted| ==> sorted[i] in order && order[sorted[i]] == d.Group(sorted[i])
    ensures InsertByGroup(d, order, sorted, x) == Insert(sorted, x, d.InOrder())
  {
    if sorted != [] {
      InsertByGroupIsInsert(d, order, sorted[1..], x);
    }
  }

  lemma {:induction false} SortByGroupIsSort(d: Definition, order: map<nat, nat>, indexes: seq<nat>)
    requires forall i :: 0 <= i < |indexes| ==> indexes[i] in order && order[indexes[i]] == d.Group(indexes[i])
    ensures SortByGroup(d, order, indexes) == Sort(indexes, d.InOrder())
  {
    if indexes != [] {
      SortByGroupIsSort(d, order, indexes[1..]);
      var rest := SortByGroup(d, order, indexes[1..]);
      forall i | 0 <= i < |rest| ensures rest[i] in order && order[rest[i]] == d.Group(rest[i]) {
        var k :| 0 <= k < |indexes[1..]| && indexes[1..][k] == rest[i];
        assert indexes[k + 1] == rest[i];
      }
      InsertByGroupIsInsert(d, order, rest, indexes[0]);
    }
  }

  /** The loop over all masks from one on, and the final sort. */
  method GenerateInner(d: Definition) returns (variants: seq<seq<nat>>)
    ensures variants == d.Generated()
  {
    hide d.OppositeFree, Flags, Selected, Sort, SortByGroup, d.Group;
    var order := GroupOrder(d);
    variants := [];
    for mask := 1 to Power2(|d.values|)
      invariant d.VariantsFrom(1) == variants + d.VariantsFrom(mask)
    {
      var flags := Flags(mask, |d.values|);
      var indexes := Selected(flags, 0);
      SelectedMembers(flags, 0);
      assert forall i :: 0 <= i < |indexes| ==> indexes[i] in indexes;
      if !d.OppositeFree(flags) {
        continue;
      }
      SortByGroupIsSort(d, order, indexes);
      variants := variants + [SortByGroup(d, order, indexes)];
    }
    assert variants == d.VariantsFrom(1);
    variants := Sort(variants, VariantBefore);
  }
}
