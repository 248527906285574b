/** Variant combinations without opposites (`variant_permutation.rs`): enumeration by bit masks, resolving and expanding. */
module Permutation {
  import opened Primitives

  datatype Definition = Definition(values: seq<string>, opposites: seq<(nat, nat)>) {
    /** What `VariantPermutation::new` accepts. */
    ghost predicate Valid() {
      && 0 < |values| < 64
      && (forall i :: 0 <= i < |values| ==> values[i] != "" && ',' !in values[i])
      && (forall i, j :: 0 <= i < j < |values| ==> values[i] != values[j])
      && (forall g :: 0 <= g < |opposites| ==>
            opposites[g].0 != opposites[g].1 && opposites[g].0 < |values| && opposites[g].1 < |values|)
    }

    /** The first opposite pair that names an index. */
    function PairOf(index: nat): (r: Option<nat>)
      ensures r.Some? ==> r.value < |opposites|
    {
      FirstPair(index, 0)
    }

    function FirstPair(index: nat, from: nat): (r: Option<nat>)
      requires from <= |opposites|
      ensures r.Some? ==> from <= r.value < |opposites|
      decreases |opposites| - from
    {
      if from == |opposites| then None
      else if opposites[from].0 == index || opposites[from].1 == index then Some(from)
      else FirstPair(index, from + 1)
    }

    /** How many indexes below `index` are in no pair. */
    function SinglesBelow(index: nat): nat {
      if index == 0 then 0 else SinglesBelow(index - 1) + if PairOf(index - 1).None? then 1 else 0
    }

    /** `group_order`: the first pair of an index, or its own group behind all pairs. */
    function Group(index: nat): nat {
      match PairOf(index)
      case Some(g) => g
      case None => |opposites| + SinglesBelow(index)
    }

    /** `sort_by_key(|index| (group_order[index], *index))` */
    predicate Before(i: nat, j: nat) {
      Group(i) < Group(j) || (Group(i) == Group(j) && i <= j)
    }

    function InOrder(): (nat, nat) -> bool {
      (i: nat, j: nat) => Before(i, j)
    }

    predicate OppositeFree(flags: seq<bool>)
      requires |flags| == |values|
    {
      forall g :: 0 <= g < |opposites| ==>
        !(opposites[g].0 < |flags| && flags[opposites[g].0] && opposites[g].1 < |flags| && flags[opposites[g].1])
    }

    /** The selected indexes in display order. */
    function Arranged(flags: seq<bool>): seq<nat> {
      Sort(Selected(flags, 0), InOrder())
    }

    /** The variants of the masks from `mask` on, in the order of the loop. */
    function VariantsFrom(mask: nat): seq<seq<nat>>
      decreases Power2(|values|) - mask
    {
      if mask >= Power2(|values|) then []
      else
        var flags := Flags(mask, |values|);
        (if OppositeFree(flags) then [Arranged(flags)] else []) + VariantsFrom(mask + 1)
    }

    /** `generate_inner`, as index lists. */
    function Generated(): seq<seq<nat>> {
      Sort(VariantsFrom(1), VariantBefore)
    }

    function Names(indexes: seq<nat>): seq<string>
      requires forall i :: 0 <= i < |indexes| ==> indexes[i] < |values|
    {
      seq(|indexes|, i requires 0 <= i < |indexes| => values[indexes[i]])
    }
  }

  /** Shorter variants first, then by index list. */
  predicate VariantBefore(a: seq<nat>, b: seq<nat>) {
    |a| < |b| || (|a| == |b| && Lexicographic(a, b))
  }

  predicate Lexicographic(a: seq<nat>, b: seq<nat>) {
    a == [] || (b != [] && (a[0] < b[0] || (a[0] == b[0] && Lexicographic(a[1..], b[1..]))))
  }

  // ---- masks

  function Power2(n: nat): (p: nat)
    ensures p > 0
  {
    if n == 0 then 1 else 2 * Power2(n - 1)
  }

  /** `mask & (1 << index) != 0` for the indexes below `n`. */
  function Flags(mask: nat, n: nat): (flags: seq<bool>)
    ensures |flags| == n
  {
    if n == 0 then [] else [mask % 2 == 1] + Flags(mask / 2, n - 1)
  }

  function MaskOf(flags: seq<bool>): nat {
    if flags == [] then 0 else (if flags[0] then 1 else 0) + 2 * MaskOf(flags[1..])
  }

  /** Every selection is the bit pattern of exactly one mask. */
  lemma {:induction false} MasksAreSelections(mask: nat, flags: seq<bool>)
    ensures mask < Power2(|flags|) ==> (Flags(mask, |flags|) == flags <==> MaskOf(flags) == mask)
    ensures MaskOf(flags) < Power2(|flags|)
  {
    if flags != [] {
      MasksAreSelections(mask / 2, flags[1..]);
      assert flags == [flags[0]] + flags[1..];
      assert Flags(mask, |flags|)[1..] == Flags(mask / 2, |flags| - 1);
    }
  }

  /** The indexes with a set flag, ascending from `offset`. */
  function Selected(flags: seq<bool>, offset: nat): seq<nat> {
    if flags == [] then [] else (if flags[0] then [offset] else []) + Selected(flags[1..], offset + 1)
  }

  lemma {:induction false} SelectedMembers(flags: seq<bool>, offset: nat)
    ensures forall i: nat :: i in Selected(flags, offset) <==> offset <= i < offset + |flags| && flags[i - offset]
    ensures NoDuplicates(Selected(flags, offset))
    decreases |flags|
  {
    if flags != [] {
      SelectedMembers(flags[1..], offset + 1);
      var rest := Selected(flags[1..], offset + 1);
      assert forall i: nat :: i in rest <==> offset + 1 <= i < offset + |flags| && flags[1..][i - offset - 1];
      if flags[0] {
        assert offset !in rest;
        assert Selected(flags, offset) == [offset] + rest;
        forall i, j | 0 <= i < j < |rest| + 1 ensures ([offset] + rest)[i] != ([offset] + rest)[j] {
          assert ([offset] + rest)[j] == rest[j - 1];
          if i > 0 {
            assert ([offset] + rest)[i] == rest[i - 1];
          }
        }
      }
    }
  }

  // ---- sorting

  ghost predicate NoDuplicates<T>(s: seq<T>) {
    forall i, j :: 0 <= i < j < |s| ==> s[i] != s[j]
  }

  /** The sorted rearrangement; with distinct elements and a total order there is only one. */
  function Sort<T>(s: seq<T>, before: (T, T) -> bool): (r: seq<T>)
    ensures multiset(r) == multiset(s)
  {
    if s == [] then []
    else
      assert s == [s[0]] + s[1..];
      Insert(Sort(s[1..], before), s[0], before)
  }

  function Insert<T>(s: seq<T>, x: T, before: (T, T) -> bool): (r: seq<T>)
    ensures multiset(r) == multiset(s) + multiset{x}
  {
    if s == [] || before(x, s[0]) then [x] + s
    else
      assert s == [s[0]] + s[1..];
      [s[0]] + Insert(s[1..], x, before)
  }

  ghost predicate TotalOrder<T(!new)>(before: (T, T) -> bool) {
    && (forall x, y :: before(x, y) || before(y, x))
    && (forall x, y :: before(x, y) && before(y, x) ==> x == y)
    && (forall x, y, z :: before(x, y) && before(y, z) ==> before(x, z))
  }

  ghost predicate SortedBy<T>(s: seq<T>, before: (T, T) -> bool) {
    forall i, j :: 0 <= i < j < |s| ==> before(s[i], s[j])
  }

  lemma {:induction false} InsertSorts<T(!new)>(s: seq<T>, x: T, before: (T, T) -> bool)
    requires TotalOrder(before) && SortedBy(s, before)
    ensures SortedBy(Insert(s, x, before), before)
  {
    if s != [] && !before(x, s[0]) {
      InsertSorts(s[1..], x, before);
      var rest := Insert(s[1..], x, before);
      forall j | 0 <= j < |rest| ensures before(s[0], rest[j]) {
        assert rest[j] in multiset(rest);
        assert rest[j] == x || rest[j] in s[1..];
      }
    } else if s != [] {
      forall j | 0 <= j < |s| ensures before(x, s[j]) {
        assert j > 0 ==> before(s[0], s[j]);
      }
    }
  }

  lemma {:induction false} SortSorts<T(!new)>(s: seq<T>, before: (T, T) -> bool)
    requires TotalOrder(before)
    ensures SortedBy(Sort(s, before), before)
  {
    if s != [] {
      SortSorts(s[1..], before);
      InsertSorts(Sort(s[1..], before), s[0], before);
    }
  }

  /** A rearrangement has the same members, each as often. */
  lemma SameMultiset<T>(a: seq<T>, b: seq<T>)
    requires multiset(a) == multiset(b)
    ensures forall x :: x in a <==> x in b
    ensures NoDuplicates(a) ==> NoDuplicates(b)
  {
    forall x ensures x in a <==> x in b {
      assert x in a <==> x in multiset(a);
    }
    if NoDuplicates(a) {
      forall i, j | 0 <= i < j < |b| ensures b[i] != b[j] {
        OnceOnly(a, b[i]);
        if b[i] == b[j] {
          Twice(b, i, j);
        }
      }
    }
  }

  lemma {:induction false} OnceOnly<T>(s: seq<T>, x: T)
    requires NoDuplicates(s)
    ensures multiset(s)[x] <= 1
  {
    if s != [] {
      assert s == [s[0]] + s[1..];
      OnceOnly(s[1..], x);
      if x == s[0] {
        assert x !in s[1..];
      }
    }
  }

  lemma Twice<T>(s: seq<T>, i: nat, j: nat)
    requires i < j < |s| && s[i] == s[j]
    ensures multiset(s)[s[i]] >= 2
  {
    assert s == s[..i] + [s[i]] + s[i + 1..j] + [s[j]] + s[j + 1..];
  }

  // ---- the two orders

  lemma IndexOrder(d: Definition)
    ensures TotalOrder(d.InOrder())
  {
  }

  lemma {:induction false} LexicographicTotal(a: seq<nat>, b: seq<nat>)
    ensures Lexicographic(a, b) || Lexicographic(b, a)
    ensures Lexicographic(a, b) && Lexicographic(b, a) ==> a == b
  {
    if a != [] && b != [] {
      LexicographicTotal(a[1..], b[1..]);
      assert a == [a[0]] + a[1..] && b == [b[0]] + b[1..];
    }
  }

  lemma {:induction false} LexicographicTransitive(a: seq<nat>, b: seq<nat>, c: seq<nat>)
    requires Lexicographic(a, b) && Lexicographic(b, c)
    ensures Lexicographic(a, c)
  {
    if a != [] && a[0] == b[0] == c[0] {
      LexicographicTransitive(a[1..], b[1..], c[1..]);
    }
  }

  lemma VariantOrder()
    ensures TotalOrder(VariantBefore)
  {
    forall a, b ensures (VariantBefore(a, b) || VariantBefore(b, a)) && (VariantBefore(a, b) && VariantBefore(b, a) ==> a == b) {
      LexicographicTotal(a, b);
    }
    forall a, b, c | VariantBefore(a, b) && VariantBefore(b, c) ensures VariantBefore(a, c) {
      if |a| == |b| == |c| {
        LexicographicTransitive(a, b, c);
      }
    }
  }

  // ---- what is generated

  lemma ArrangedMembers(d: Definition, flags: seq<bool>)
    ensures forall i: nat :: i in d.Arranged(flags) <==> i < |flags| && flags[i]
    ensures NoDuplicates(d.Arranged(flags)) && SortedBy(d.Arranged(flags), d.InOrder())
  {
    SelectedMembers(flags, 0);
    SameMultiset(Selected(flags, 0), d.Arranged(flags));
    IndexOrder(d);
    SortSorts(Selected(flags, 0), d.InOrder());
  }

  /** Different selections are arranged differently. */
  lemma ArrangedInjective(d: Definition, a: seq<bool>, b: seq<bool>)
    requires |a| == |b| && d.Arranged(a) == d.Arranged(b)
    ensures a == b
  {
    ArrangedMembers(d, a);
    ArrangedMembers(d, b);
    forall i | 0 <= i < |a| ensures a[i] == b[i] {
      assert i in d.Arranged(a) <==> a[i];
      assert i in d.Arranged(b) <==> b[i];
    }
  }

  /** Some selection without opposites, of a mask from `mask` on, is arranged as `v`. */
  ghost predicate Arranges(d: Definition, mask: nat, v: seq<nat>, m: nat) {
    mask <= m < Power2(|d.values|) && d.OppositeFree(Flags(m, |d.values|)) && v == d.Arranged(Flags(m, |d.values|))
  }

  ghost predicate ArrangedFrom(d: Definition, mask: nat, v: seq<nat>) {
    exists m: nat :: Arranges(d, mask, v, m)
  }

  lemma ArrangedFromStep(d: Definition, mask: nat, v: seq<nat>)
    requires mask < Power2(|d.values|)
    ensures ArrangedFrom(d, mask, v) <==>
            ArrangedFrom(d, mask + 1, v) || (d.OppositeFree(Flags(mask, |d.values|)) && v == d.Arranged(Flags(mask, |d.values|)))
  {
    var next := mask + 1;
    if ArrangedFrom(d, mask, v) {
      var m: nat :| Arranges(d, mask, v, m);
      assert m > mask ==> Arranges(d, next, v, m);
    }
    if ArrangedFrom(d, next, v) {
      var m: nat :| Arranges(d, next, v, m);
      assert Arranges(d, mask, v, m);
    }
    if d.OppositeFree(Flags(mask, |d.values|)) && v == d.Arranged(Flags(mask, |d.values|)) {
      assert Arranges(d, mask, v, mask);
    }
  }

  lemma ArrangedOnce(d: Definition, mask: nat)
    requires mask < Power2(|d.values|)
    ensures !ArrangedFrom(d, mask + 1, d.Arranged(Flags(mask, |d.values|)))
  {
    var next := mask + 1;
    if ArrangedFrom(d, next, d.Arranged(Flags(mask, |d.values|))) {
      var m: nat :| Arranges(d, next, d.Arranged(Flags(mask, |d.values|)), m);
      NoOtherMask(d, mask, m);
    }
  }

  lemma {:induction false} VariantsMembers(d: Definition, mask: nat)
    ensures forall v :: v in d.VariantsFrom(mask) <==> ArrangedFrom(d, mask, v)
    ensures NoDuplicates(d.VariantsFrom(mask))
    decreases Power2(|d.values|) - mask
  {
    hide ArrangedFrom, NoDuplicates;
    if mask < Power2(|d.values|) {
      VariantsMembers(d, mask + 1);
      var v0, rest := d.Arranged(Flags(mask, |d.values|)), d.VariantsFrom(mask + 1);
      forall v ensures v in d.VariantsFrom(mask) <==> ArrangedFrom(d, mask, v) {
        ArrangedFromStep(d, mask, v);
      }
      ArrangedOnce(d, mask);
      if d.OppositeFree(Flags(mask, |d.values|)) {
        PrependNew(v0, rest);
      } else {
        assert d.VariantsFrom(mask) == rest;
      }
    } else {
      NoVariants(d, mask);
    }
  }

  lemma NoVariants(d: Definition, mask: nat)
    requires mask >= Power2(|d.values|)
    ensures forall v :: !ArrangedFrom(d, mask, v)
    ensures NoDuplicates(d.VariantsFrom(mask))
  {
  }

  lemma NoOtherMask(d: Definition, mask: nat, m: nat)
    requires mask < Power2(|d.values|) && m < Power2(|d.values|)
    requires d.Arranged(Flags(mask, |d.values|)) == d.Arranged(Flags(m, |d.values|))
    ensures mask == m
  {
    var flags := Flags(mask, |d.values|);
    ArrangedInjective(d, flags, Flags(m, |d.values|));
    MasksAreSelections(mask, flags);
    MasksAreSelections(m, flags);
  }

  lemma PrependNew<T>(x: T, s: seq<T>)
    requires NoDuplicates(s) && x !in s
    ensures NoDuplicates([x] + s)
  {
    forall i, j | 0 <= i < j < |s| + 1 ensures ([x] + s)[i] != ([x] + s)[j] {
      assert ([x] + s)[j] == s[j - 1];
      if i > 0 {
        assert ([x] + s)[i] == s[i - 1];
      }
    }
  }

  /** A selection of at least one value without opposites. */
  ghost predicate Admissible(d: Definition, flags: seq<bool>) {
    |flags| == |d.values| && true in flags && d.OppositeFree(flags)
  }

  lemma {:induction false} ZeroSelectsNothing(flags: seq<bool>)
    ensures MaskOf(flags) == 0 <==> true !in flags
  {
    if flags != [] {
      assert flags == [flags[0]] + flags[1..];
      ZeroSelectsNothing(flags[1..]);
    }
  }

  /**
   * The generated variants are the arrangements of all non-empty selections without opposites, each exactly once, in
   * strictly increasing order of size and then of index lists.
   */
  lemma GeneratesEverySelectionOnce(d: Definition)
    ensures forall v :: v in d.Generated() <==> exists flags :: Admissible(d, flags) && v == d.Arranged(flags)
    ensures NoDuplicates(d.Generated())
    ensures forall i, j :: 0 <= i < j < |d.Generated()| ==>
              VariantBefore(d.Generated()[i], d.Generated()[j]) && !VariantBefore(d.Generated()[j], d.Generated()[i])
  {
    VariantsMembers(d, 1);
    SameMultiset(d.VariantsFrom(1), d.Generated());
    VariantOrder();
    SortSorts(d.VariantsFrom(1), VariantBefore);
    forall v ensures v in d.Generated() <==> exists flags :: Admissible(d, flags) && v == d.Arranged(flags) {
      if v in d.Generated() {
        assert ArrangedFrom(d, 1, v);
        var m: nat :| Arranges(d, 1, v, m);
        var flags := Flags(m, |d.values|);
        MasksAreSelections(m, flags);
        ZeroSelectsNothing(flags);
        assert Admissible(d, flags);
      }
      if exists flags :: Admissible(d, flags) && v == d.Arranged(flags) {
        var flags :| Admissible(d, flags) && v == d.Arranged(flags);
        var m := MaskOf(flags);
        MasksAreSelections(m, flags);
        ZeroSelectsNothing(flags);
        assert Arranges(d, 1, v, m);
        assert ArrangedFrom(d, 1, v);
      }
    }
  }

  // ---- names

  /** `join(",")` */
  function JoinNames(parts: seq<string>): string {
    if parts == [] then "" else if |parts| == 1 then parts[0] else parts[0] + "," + JoinNames(parts[1..])
  }

  /** `split(',')`: always at least one part. */
  function SplitNames(text: string): (parts: seq<string>)
    ensures |parts| >= 1
  {
    if text == "" then [""]
    else
      var rest := SplitNames(text[1..]);
      if text[0] == ',' then [""] + rest else [[text[0]] + rest[0]] + rest[1..]
  }

  lemma {:induction false} SplitPart(part: string, rest: string)
    requires ',' !in part
    ensures SplitNames(part) == [part]
    ensures SplitNames(part + "," + rest) == [part] + SplitNames(rest)
  {
    if part == "" {
      assert part + "," + rest == "," + rest && ("," + rest)[1..] == rest;
    } else {
      SplitPart(part[1..], rest);
      assert part == [part[0]] + part[1..];
      assert (part + "," + rest)[1..] == part[1..] + "," + rest;
    }
  }

  /** Splitting undoes joining for names without commas. */
  lemma {:induction false} SplitOfJoin(parts: seq<string>)
    requires parts != [] && forall i :: 0 <= i < |parts| ==> ',' !in parts[i]
    ensures SplitNames(JoinNames(parts)) == parts
  {
    hide SplitNames;
    if |parts| == 1 {
      SplitPart(parts[0], "");
    } else {
      SplitPart(parts[0], JoinNames(parts[1..]));
      SplitOfJoin(parts[1..]);
      assert parts == [parts[0]] + parts[1..];
    }
  }

  /** The name of a selection. */
  function NameOf(d: Definition, flags: seq<bool>): string
    requires |flags| == |d.values|
  {
    ArrangedMembers(d, flags);
    assert forall i :: 0 <= i < |d.Arranged(flags)| ==> d.Arranged(flags)[i] in d.Arranged(flags);
    JoinNames(d.Names(d.Arranged(flags)))
  }

  /** The selected values: what the sets of enabled names contain. */
  function EnabledNames(d: Definition, flags: seq<bool>): set<string>
    requires |flags| == |d.values|
  {
    set i | 0 <= i < |flags| && flags[i] :: d.values[i]
  }

  function ElementsOf(parts: seq<string>): set<string> {
    set part | part in parts
  }

  lemma EnabledInjective(d: Definition, a: seq<bool>, b: seq<bool>)
    requires d.Valid() && |a| == |b| == |d.values| && EnabledNames(d, a) == EnabledNames(d, b)
    ensures a == b
  {
    forall i | 0 <= i < |a| ensures a[i] == b[i] {
      assert d.values[i] in EnabledNames(d, a) <==> a[i] by { NameEnabled(d, a, i); }
      assert d.values[i] in EnabledNames(d, b) <==> b[i] by { NameEnabled(d, b, i); }
    }
  }

  lemma SameValue(d: Definition, i: nat, j: nat)
    requires d.Valid() && i < |d.values| && j < |d.values| && d.values[i] == d.values[j]
    ensures i == j
  {
  }

  lemma NameEnabled(d: Definition, flags: seq<bool>, i: nat)
    requires d.Valid() && |flags| == |d.values| && i < |flags|
    ensures d.values[i] in EnabledNames(d, flags) <==> flags[i]
  {
    if d.values[i] in EnabledNames(d, flags) {
      var j :| 0 <= j < |flags| && flags[j] && d.values[j] == d.values[i];
      SameValue(d, i, j);
    }
  }

  /** The names at the arranged indexes are the enabled ones. */
  lemma ArrangedNames(d: Definition, flags: seq<bool>)
    requires |flags| == |d.values| && forall i :: 0 <= i < |d.Arranged(flags)| ==> d.Arranged(flags)[i] < |d.values|
    ensures ElementsOf(d.Names(d.Arranged(flags))) == EnabledNames(d, flags)
    ensures true in flags ==> d.Arranged(flags) != []
  {
    ArrangedMembers(d, flags);
    var indexes := d.Arranged(flags);
    var parts := d.Names(indexes);
    forall part ensures part in ElementsOf(parts) <==> part in EnabledNames(d, flags) {
      if part in parts {
        var i :| 0 <= i < |parts| && parts[i] == part;
        assert indexes[i] in indexes && d.values[indexes[i]] == part;
      }
      if part in EnabledNames(d, flags) {
        var i :| 0 <= i < |flags| && flags[i] && d.values[i] == part;
        assert i in indexes;
        var j :| 0 <= j < |indexes| && indexes[j] == i;
        assert parts[j] == part;
      }
    }
    if true in flags {
      var k :| 0 <= k < |flags| && flags[k];
      assert k in indexes;
    }
  }

  /** The parts of the name of a non-empty selection are exactly its values. */
  lemma PartsOfName(d: Definition, flags: seq<bool>)
    requires d.Valid() && |flags| == |d.values| && true in flags
    ensures ElementsOf(SplitNames(NameOf(d, flags))) == EnabledNames(d, flags)
    ensures NameOf(d, flags) != "" && "" !in SplitNames(NameOf(d, flags))
  {
    hide *;
    ArrangedIndexes(d, flags);
    ArrangedNames(d, flags);
    var parts := d.Names(d.Arranged(flags));
    NamesAreNames(d, d.Arranged(flags));
    SplitOfJoin(parts);
    NameIsJoined(d, flags);
    NothingSplits();
  }

  lemma NothingSplits()
    ensures SplitNames("") == [""]
  {
  }

  lemma NameIsJoined(d: Definition, flags: seq<bool>)
    requires |flags| == |d.values| && forall i :: 0 <= i < |d.Arranged(flags)| ==> d.Arranged(flags)[i] < |d.values|
    ensures NameOf(d, flags) == JoinNames(d.Names(d.Arranged(flags)))
  {
  }

  lemma NamesAreNames(d: Definition, indexes: seq<nat>)
    requires d.Valid() && forall i :: 0 <= i < |indexes| ==> indexes[i] < |d.values|
    ensures |d.Names(indexes)| == |indexes| && "" !in d.Names(indexes)
    ensures forall i :: 0 <= i < |indexes| ==> ',' !in d.Names(indexes)[i]
  {
  }

  lemma ArrangedIndexes(d: Definition, flags: seq<bool>)
    requires |flags| == |d.values|
    ensures forall i :: 0 <= i < |d.Arranged(flags)| ==> d.Arranged(flags)[i] < |d.values|
  {
    ArrangedMembers(d, flags);
    assert forall i :: 0 <= i < |d.Arranged(flags)| ==> d.Arranged(flags)[i] in d.Arranged(flags);
  }

  /** `generated.iter().find(..)` over variants from an index on. */
  function FindVariant(d: Definition, variants: seq<seq<nat>>, enabled: set<string>): Option<string>
    requires forall v :: v in variants ==> forall i :: 0 <= i < |v| ==> v[i] < |d.values|
  {
    if variants == [] then None
    else
      assert variants[0] in variants;
      var name := JoinNames(d.Names(variants[0]));
      if ElementsOf(SplitNames(name)) == enabled then Some(name) else FindVariant(d, variants[1..], enabled)
  }

  lemma GeneratedIndexes(d: Definition)
    ensures forall v :: v in d.Generated() ==> forall i :: 0 <= i < |v| ==> v[i] < |d.values|
  {
    GeneratesEverySelectionOnce(d);
    forall v | v in d.Generated() ensures forall i :: 0 <= i < |v| ==> v[i] < |d.values| {
      var flags :| Admissible(d, flags) && v == d.Arranged(flags);
      ArrangedMembers(d, flags);
      assert forall i :: 0 <= i < |v| ==> v[i] in v;
    }
  }

  /** `resolve_enabled` */
  function ResolveEnabled(d: Definition, enabled: set<string>): Result<string> {
    if enabled == {} then Ok("")
    else
      GeneratedIndexes(d);
      match FindVariant(d, d.Generated(), enabled)
      case Some(name) => Ok(name)
      case None => Err(InvalidData)
  }

  /** `resolve_flags` */
  function ResolveFlags(d: Definition, flags: seq<bool>): Result<string> {
    if |flags| != |d.values| then Err(InvalidData) else ResolveEnabled(d, EnabledNames(d, flags))
  }

  /** `resolve_map`: every known name must be a key, and nothing else. */
  function ResolveMap(d: Definition, flags: map<string, bool>): Result<string> {
    if |flags| != |d.values| || exists key :: key in flags && key !in d.values then Err(InvalidData)
    else ResolveEnabled(d, set i | 0 <= i < |d.values| && d.values[i] in flags && flags[d.values[i]] :: d.values[i])
  }

  /** `expand`: the flags of a generated name, in the order of the values. */
  function Expand(d: Definition, variant: string): Result<seq<bool>> {
    GeneratedIndexes(d);
    if variant != "" && !exists i :: 0 <= i < |d.Generated()| && JoinNames(d.Names(NthVariant(d, i))) == variant then Err(InvalidData)
    else
      var enabled := set part | part in SplitNames(variant) && part != "";
      Ok(seq(|d.values|, i requires 0 <= i < |d.values| => d.values[i] in enabled))
  }

  function NthVariant(d: Definition, i: nat): (v: seq<nat>)
    requires i < |d.Generated()|
    ensures forall k :: 0 <= k < |v| ==> v[k] < |d.values|
  {
    GeneratedIndexes(d);
    assert d.Generated()[i] in d.Generated();
    d.Generated()[i]
  }

  /** A generated variant has the wanted set of names if and only if it is the arrangement of the wanted flags. */
  lemma MatchesOnlyItself(d: Definition, f: seq<bool>, flags: seq<bool>)
    requires d.Valid() && |flags| == |d.values| && Admissible(d, f)
    ensures ElementsOf(SplitNames(NameOf(d, f))) == EnabledNames(d, flags) <==> f == flags
    ensures d.Arranged(f) == d.Arranged(flags) <==> f == flags
  {
    hide d.Valid(), d.Arranged, EnabledNames, ElementsOf, NameOf, SplitNames;
    PartsOfName(d, f);
    if EnabledNames(d, f) == EnabledNames(d, flags) {
      EnabledInjective(d, f, flags);
    }
    if d.Arranged(f) == d.Arranged(flags) {
      ArrangedInjective(d, f, flags);
    }
  }

  ghost predicate AllGenerated(d: Definition, variants: seq<seq<nat>>) {
    && (forall v :: v in variants ==> exists f :: Admissible(d, f) && v == d.Arranged(f))
    && forall v :: v in variants ==> forall i :: 0 <= i < |v| ==> v[i] < |d.values|
  }

  lemma AllGeneratedSplit(d: Definition, variants: seq<seq<nat>>) returns (f: seq<bool>)
    requires AllGenerated(d, variants) && variants != []
    ensures AllGenerated(d, variants[1..]) && Admissible(d, f) && variants[0] == d.Arranged(f)
  {
    assert variants[0] in variants;
    f :| Admissible(d, f) && variants[0] == d.Arranged(f);
    assert forall v :: v in variants[1..] ==> v in variants;
  }

  lemma {:induction false} FindAdmissible(d: Definition, variants: seq<seq<nat>>, flags: seq<bool>)
    requires d.Valid() && |flags| == |d.values| && true in flags && AllGenerated(d, variants)
    ensures FindVariant(d, variants, EnabledNames(d, flags)) ==
            if d.Arranged(flags) in variants && d.OppositeFree(flags) then Some(NameOf(d, flags)) else None
  {
    hide d.Valid(), d.Arranged, EnabledNames, ElementsOf, SplitNames, JoinNames;
    if variants != [] {
      var f := AllGeneratedSplit(d, variants);
      FindAdmissible(d, variants[1..], flags);
      MatchesOnlyItself(d, f, flags);
      assert variants == [variants[0]] + variants[1..];
    }
  }

  /** A selection resolves to its name, unless it contains opposites, and then it is refused. */
  lemma ResolvesToName(d: Definition, flags: seq<bool>)
    requires d.Valid() && |flags| == |d.values|
    ensures ResolveFlags(d, flags) ==
            if true !in flags then Ok("") else if d.OppositeFree(flags) then Ok(NameOf(d, flags)) else Err(InvalidData)
  {
    if true in flags {
      var k :| 0 <= k < |flags| && flags[k];
      assert d.values[k] in EnabledNames(d, flags);
      GeneratesEverySelectionOnce(d);
      GeneratedIndexes(d);
      FindAdmissible(d, d.Generated(), flags);
      if d.OppositeFree(flags) {
        assert Admissible(d, flags);
        assert d.Arranged(flags) in d.Generated();
      }
    } else {
      assert EnabledNames(d, flags) == {};
    }
  }

  lemma ExpandsName(d: Definition, flags: seq<bool>)
    requires d.Valid() && Admissible(d, flags)
    ensures Expand(d, NameOf(d, flags)) == Ok(flags)
  {
    NameIsGenerated(d, flags);
    PartsOfName(d, flags);
    hide SplitNames, JoinNames, Admissible, Definition.Valid, Definition.Generated, NthVariant, Definition.Names;
    var name := NameOf(d, flags);
    var enabled := set part | part in SplitNames(name) && part != "";
    assert enabled == ElementsOf(SplitNames(name));
    forall k | 0 <= k < |flags| ensures (d.values[k] in enabled) == flags[k] {
      NameEnabled(d, flags, k);
    }
    assert Expand(d, name).value == flags;
  }

  lemma NameIsGenerated(d: Definition, flags: seq<bool>)
    requires d.Valid() && Admissible(d, flags)
    ensures exists i :: 0 <= i < |d.Generated()| && (GeneratedIndexes(d); JoinNames(d.Names(NthVariant(d, i))) == NameOf(d, flags))
  {
    hide JoinNames, Definition.Names;
    GeneratesEverySelectionOnce(d);
    assert d.Arranged(flags) in d.Generated();
    var i :| 0 <= i < |d.Generated()| && d.Generated()[i] == d.Arranged(flags);
    assert NthVariant(d, i) == d.Arranged(flags);
  }

  /** Resolving and expanding undo each other: from flags to names and back, and from names to flags and back. */
  lemma ResolveAndExpand(d: Definition, flags: seq<bool>, variant: string)
    requires d.Valid() && |flags| == |d.values|
    ensures ResolveFlags(d, flags).Ok? ==> Expand(d, ResolveFlags(d, flags).value) == Ok(flags)
    ensures Expand(d, variant).Ok? ==> ResolveFlags(d, Expand(d, variant).value) == Ok(variant)
  {
    ResolvesToName(d, flags);
    if ResolveFlags(d, flags).Ok? {
      if true in flags {
        ExpandsName(d, flags);
      } else {
        ExpandsNothing(d);
        NothingSelected(flags);
        NothingSelected(Expand(d, "").value);
        assert Expand(d, "").value == flags;
      }
    }
    if Expand(d, variant).Ok? {
      if variant == "" {
        ExpandsNothing(d);
        ResolvesToName(d, Expand(d, variant).value);
      } else {
        GeneratesEverySelectionOnce(d);
        GeneratedIndexes(d);
        var i :| 0 <= i < |d.Generated()| && JoinNames(d.Names(NthVariant(d, i))) == variant;
        assert d.Generated()[i] in d.Generated();
        var f :| Admissible(d, f) && d.Generated()[i] == d.Arranged(f);
        ExpandsName(d, f);
        ResolvesToName(d, f);
      }
    }
  }

  lemma NothingSelected(flags: seq<bool>)
    requires true !in flags
    ensures forall i :: 0 <= i < |flags| ==> !flags[i]
  {
    forall i | 0 <= i < |flags| ensures !flags[i] {
      assert flags[i] in flags;
    }
  }

  lemma ExpandsNothing(d: Definition)
    requires d.Valid()
    ensures Expand(d, "").Ok? && |Expand(d, "").value| == |d.values| && true !in Expand(d, "").value
  {
    assert SplitNames("") == [""];
    assert (set part | part in SplitNames("") && part != "") == {};
  }

  /** A map with every known name resolves like the flags it holds. */
  lemma MapResolvesLikeFlags(d: Definition, flags: seq<bool>)
    requires d.Valid() && |flags| == |d.values|
    ensures ResolveMap(d, MapOfFlags(d, flags)) == ResolveFlags(d, flags)
  {
    var m := MapOfFlags(d, flags);
    MapOfFlagsSize(d, flags, |flags|);
    assert (set i | 0 <= i < |d.values| && d.values[i] in m && m[d.values[i]] :: d.values[i]) == EnabledNames(d, flags);
  }

  function MapOfFlags(d: Definition, flags: seq<bool>): map<string, bool>
    requires |flags| == |d.values|
  {
    PrefixMap(d, flags, |flags|)
  }

  function PrefixMap(d: Definition, flags: seq<bool>, n: nat): map<string, bool>
    requires |flags| == |d.values| && n <= |flags|
  {
    if n == 0 then map[] else PrefixMap(d, flags, n - 1)[d.values[n - 1] := flags[n - 1]]
  }

  ghost predicate MapsPrefix(d: Definition, flags: seq<bool>, n: nat, m: map<string, bool>)
    requires |flags| == |d.values| && n <= |flags|
  {
    && |m| == n
    && (forall key :: key in m ==> exists i :: 0 <= i < n && d.values[i] == key)
    && forall i :: 0 <= i < n ==> d.values[i] in m && m[d.values[i]] == flags[i]
  }

  lemma {:induction false} MapOfFlagsSize(d: Definition, flags: seq<bool>, n: nat)
    requires d.Valid() && |flags| == |d.values| && n <= |flags|
    ensures MapsPrefix(d, flags, n, PrefixMap(d, flags, n))
  {
    if n > 0 {
      MapOfFlagsSize(d, flags, n - 1);
      MapOneMore(d, flags, n, PrefixMap(d, flags, n - 1));
    }
  }

  lemma MapOneMore(d: Definition, flags: seq<bool>, n: nat, m: map<string, bool>)
    requires d.Valid() && |flags| == |d.values| && 0 < n <= |flags| && MapsPrefix(d, flags, n - 1, m)
    ensures MapsPrefix(d, flags, n, m[d.values[n - 1] := flags[n - 1]])
  {
    assert d.values[n - 1] !in m;
  }
}
