/** The order in which variants show their values, and in which they are listed, said of indexes alone. */
module PermutationMeaning {
  import opened Primitives
  import opened Permutation

  /** Pair `g` is the first one that names the index. */
  predicate FirstIn(d: Definition, index: nat, g: nat) {
    && g < |d.opposites| && (d.opposites[g].0 == index || d.opposites[g].1 == index)
    && forall h :: 0 <= h < g ==> d.opposites[h].0 != index && d.opposites[h].1 != index
  }

  predicate Single(d: Definition, index: nat) {
    forall g :: 0 <= g < |d.opposites| ==> d.opposites[g].0 != index && d.opposites[g].1 != index
  }

  /** Members of pairs come first, pair by pair, and all others behind them; of equals the smaller index comes first. */
  ghost predicate ShownBefore(d: Definition, i: nat, j: nat) {
    || (exists g, h :: FirstIn(d, i, g) && FirstIn(d, j, h) && (g < h || (g == h && i < j)))
    || (exists g :: FirstIn(d, i, g) && Single(d, j))
    || (Single(d, i) && Single(d, j) && i < j)
  }

  /** The selected indexes, each once, in the order in which they are shown. */
  ghost predicate ShownAs(d: Definition, flags: seq<bool>, v: seq<nat>) {
    && (forall i: nat :: i in v <==> i < |flags| && flags[i])
    && forall a, b :: 0 <= a < b < |v| ==> ShownBefore(d, v[a], v[b])
  }

  /** At least one value, and no two opposites. */
  ghost predicate Selectable(d: Definition, flags: seq<bool>) {
    && |flags| == |d.values| && (exists i :: 0 <= i < |flags| && flags[i])
    && forall g, i, j :: 0 <= g < |d.opposites| && d.opposites[g] == (i, j) && i < |flags| && j < |flags| ==> !(flags[i] && flags[j])
  }

  /** The first place at which the lists differ has the smaller number, or there is none and the first list ends. */
  ghost predicate ListedBefore(a: seq<nat>, b: seq<nat>) {
    |a| < |b| || (|a| == |b| && exists k :: SmallerAt(a, b, k))
  }

  /** The lists agree before place `k`, and there the first has the smaller number. */
  predicate SmallerAt(a: seq<nat>, b: seq<nat>, k: int) {
    0 <= k < |a| && k < |b| && a[k] < b[k] && forall m :: 0 <= m < k ==> a[m] == b[m]
  }

  // ---- the order of values

  lemma {:induction false} FirstPairFrom(d: Definition, index: nat, from: nat)
    requires from <= |d.opposites| && forall h :: 0 <= h < from ==> d.opposites[h].0 != index && d.opposites[h].1 != index
    ensures match d.FirstPair(index, from) case Some(g) => FirstIn(d, index, g) case None => Single(d, index)
    decreases |d.opposites| - from
  {
    if from < |d.opposites| && !(d.opposites[from].0 == index || d.opposites[from].1 == index) {
      FirstPairFrom(d, index, from + 1);
    }
  }

  lemma PairIsFirst(d: Definition, index: nat)
    ensures match d.PairOf(index)
            case Some(g) => FirstIn(d, index, g) && !Single(d, index) && forall h :: FirstIn(d, index, h) ==> h == g
            case None => Single(d, index) && forall h :: !FirstIn(d, index, h)
  {
    FirstPairFrom(d, index, 0);
  }

  lemma {:induction false} SinglesGrow(d: Definition, i: nat, j: nat)
    requires i <= j
    ensures d.SinglesBelow(i) <= d.SinglesBelow(j)
    ensures i < j && d.PairOf(i).None? ==> d.SinglesBelow(i) < d.SinglesBelow(j)
    decreases j - i
  {
    if i < j {
      SinglesGrow(d, i, j - 1);
    }
  }

  /** The sorting key puts indexes in the order in which they are shown. */
  lemma BeforeIsShown(d: Definition, i: nat, j: nat)
    ensures d.Before(i, j) <==> i == j || ShownBefore(d, i, j)
  {
    hide Single, FirstIn;
    PairIsFirst(d, i);
    PairIsFirst(d, j);
    if d.PairOf(i).None? && d.PairOf(j).None? {
      if i <= j {
        SinglesGrow(d, i, j);
      } else {
        SinglesGrow(d, j, i);
      }
    }
  }

  lemma ShownOnce(d: Definition, i: nat)
    ensures !ShownBefore(d, i, i)
  {
    if ShownBefore(d, i, i) {
      hide Single, FirstIn;
      PairIsFirst(d, i);
    }
  }

  lemma ShownOneWay(d: Definition, i: nat, j: nat)
    requires ShownBefore(d, i, j)
    ensures !ShownBefore(d, j, i) && i != j
  {
    hide Single, FirstIn;
    PairIsFirst(d, i);
    PairIsFirst(d, j);
  }

  /** A selection is arranged as it is shown. */
  lemma ArrangedIsShown(d: Definition, flags: seq<bool>)
    ensures ShownAs(d, flags, d.Arranged(flags))
  {
    hide ShownBefore;
    ArrangedMembers(d, flags);
    var v := d.Arranged(flags);
    forall a, b | 0 <= a < b < |v| ensures ShownBefore(d, v[a], v[b]) {
      assert d.InOrder()(v[a], v[b]);
      BeforeIsShown(d, v[a], v[b]);
    }
  }

  /** And there is one way to show it. */
  lemma {:induction false} ShownIsUnique(d: Definition, flags: seq<bool>, one: seq<nat>, other: seq<nat>, n: nat)
    requires ShownAs(d, flags, one) && ShownAs(d, flags, other) && n <= |one|
    ensures n <= |other| && forall m :: 0 <= m < n ==> one[m] == other[m]
    decreases n
  {
    hide ShownBefore;
    if n > 0 {
      var k := n - 1;
      ShownIsUnique(d, flags, one, other, k);
      assert one[k] in one && one[k] in other;
      var j :| 0 <= j < |other| && other[j] == one[k];
      forall m | 0 <= m < k ensures one[m] != one[k] {
        ShownOneWay(d, one[m], one[k]);
      }
      assert j >= k;
      assert other[k] in other && other[k] in one;
      var i :| 0 <= i < |one| && one[i] == other[k];
      forall m | 0 <= m < k ensures other[m] != other[k] {
        ShownOneWay(d, other[m], other[k]);
      }
      assert i >= k;
      if i > k && j > k {
        ShownOneWay(d, one[k], one[i]);
      }
    }
  }

  lemma ShownIsArranged(d: Definition, flags: seq<bool>, v: seq<nat>)
    requires ShownAs(d, flags, v)
    ensures v == d.Arranged(flags)
  {
    hide ShownAs;
    ArrangedIsShown(d, flags);
    var arranged := d.Arranged(flags);
    ShownIsUnique(d, flags, v, arranged, |v|);
    ShownIsUnique(d, flags, arranged, v, |arranged|);
  }

  // ---- the order of variants

  lemma FirstOrLater(a: seq<nat>, b: seq<nat>)
    requires |a| == |b| > 0
    ensures (exists k :: SmallerAt(a, b, k)) <==> a[0] < b[0] || (a[0] == b[0] && exists k :: SmallerAt(a[1..], b[1..], k))
  {
    if a[0] < b[0] {
      assert SmallerAt(a, b, 0);
    }
    if k :| a[0] == b[0] && SmallerAt(a[1..], b[1..], k) {
      forall m | 0 <= m < k + 1 ensures a[m] == b[m] {
        assert m > 0 ==> a[m] == a[1..][m - 1] && b[m] == b[1..][m - 1];
      }
      assert SmallerAt(a, b, k + 1);
    }
    if k :| SmallerAt(a, b, k) && k > 0 {
      assert SmallerAt(a[1..], b[1..], k - 1);
    }
  }

  lemma {:induction false} LexicographicIsFirstDifference(a: seq<nat>, b: seq<nat>)
    requires |a| == |b|
    ensures Lexicographic(a, b) <==> a == b || exists k :: SmallerAt(a, b, k)
  {
    if a != [] {
      FirstOrLater(a, b);
      LexicographicIsFirstDifference(a[1..], b[1..]);
      hide SmallerAt;
      assert a == [a[0]] + a[1..] && b == [b[0]] + b[1..];
    }
  }

  lemma VariantBeforeIsListed(a: seq<nat>, b: seq<nat>)
    ensures VariantBefore(a, b) <==> a == b || ListedBefore(a, b)
  {
    if |a| == |b| {
      LexicographicIsFirstDifference(a, b);
    }
  }

  /**
   * Exactly the selections of at least one value without opposites are generated, shown pair by pair and then by index;
   * they are listed by size, and those of a size by their first difference.
   */
  lemma GeneratesWhatIsShown(d: Definition)
    ensures forall v :: v in d.Generated() <==> exists flags :: Selectable(d, flags) && ShownAs(d, flags, v)
    ensures forall a, b :: 0 <= a < b < |d.Generated()| ==> d.Generated()[a] != d.Generated()[b] && ListedBefore(d.Generated()[a], d.Generated()[b])
  {
    hide ShownAs, ListedBefore, VariantBefore, Definition.Generated, Definition.Arranged, Selectable, Admissible;
    GeneratesEverySelectionOnce(d);
    forall v ensures v in d.Generated() <==> exists flags :: Selectable(d, flags) && ShownAs(d, flags, v) {
      if v in d.Generated() {
        var flags :| Admissible(d, flags) && v == d.Arranged(flags);
        ArrangedIsShown(d, flags);
        AdmissibleIsSelectable(d, flags);
      }
      if exists flags :: Selectable(d, flags) && ShownAs(d, flags, v) {
        var flags :| Selectable(d, flags) && ShownAs(d, flags, v);
        ShownIsArranged(d, flags, v);
        AdmissibleIsSelectable(d, flags);
      }
    }
    var all := d.Generated();
    forall a, b | 0 <= a < b < |all| ensures all[a] != all[b] && ListedBefore(all[a], all[b]) {
      VariantBeforeIsListed(all[a], all[b]);
      VariantBeforeIsListed(all[b], all[a]);
    }
  }

  lemma AdmissibleIsSelectable(d: Definition, flags: seq<bool>)
    ensures Admissible(d, flags) <==> Selectable(d, flags)
  {
    if Selectable(d, flags) {
      assert true in flags;
      assert forall g :: 0 <= g < |d.opposites| ==> d.opposites[g] == (d.opposites[g].0, d.opposites[g].1);
    }
  }

  /** The values of a selection as they are shown, with commas between them. */
  ghost predicate IsNameOf(d: Definition, flags: seq<bool>, name: string) {
    exists v :: ShownAs(d, flags, v) && (forall a :: 0 <= a < |v| ==> v[a] < |d.values|) && IsJoined(d.Names(v), name)
  }

  predicate IsJoined(parts: seq<string>, name: string) {
    if parts == [] then name == ""
    else if |parts| == 1 then name == parts[0]
    else |parts[0]| < |name| && name[..|parts[0]|] == parts[0] && name[|parts[0]|] == ',' && IsJoined(parts[1..], name[|parts[0]| + 1..])
  }

  lemma {:induction false} JoinIsJoined(parts: seq<string>)
    ensures IsJoined(parts, JoinNames(parts))
  {
    if |parts| > 1 {
      JoinIsJoined(parts[1..]);
      var name, rest := JoinNames(parts), JoinNames(parts[1..]);
      assert name == parts[0] + "," + rest;
      assert name[..|parts[0]|] == parts[0] && name[|parts[0]| + 1..] == rest;
    }
  }

  /** A selection resolves to its values in the order in which they are shown, unless it contains opposites. */
  lemma ResolvesToShown(d: Definition, flags: seq<bool>)
    requires d.Valid() && |flags| == |d.values|
    ensures match ResolveFlags(d, flags)
            case Ok(name) => IsNameOf(d, flags, name) && (Selectable(d, flags) || forall i :: 0 <= i < |flags| ==> !flags[i])
            case Err(e) => e == InvalidData && !Selectable(d, flags) && exists i :: 0 <= i < |flags| && flags[i]
  {
    hide ShownAs, Selectable, Admissible, Definition.Arranged, Definition.Valid, ResolveFlags, IsJoined, JoinNames, Definition.Names;
    ResolvesToName(d, flags);
    AdmissibleIsSelectable(d, flags);
    AdmissibleIs(d, flags);
    ArrangedIndexes(d, flags);
    ArrangedIsShown(d, flags);
    JoinIsJoined(d.Names(d.Arranged(flags)));
    NameIsJoined(d, flags);
    if true !in flags {
      NothingShown(d, flags);
    }
  }

  lemma AdmissibleIs(d: Definition, flags: seq<bool>)
    requires |flags| == |d.values|
    ensures Admissible(d, flags) <==> true in flags && d.OppositeFree(flags)
    ensures true in flags <==> exists i :: 0 <= i < |flags| && flags[i]
  {
  }

  lemma NothingShown(d: Definition, flags: seq<bool>)
    requires |flags| == |d.values| && true !in flags
    ensures IsNameOf(d, flags, "")
  {
    assert ShownAs(d, flags, []) && IsJoined(d.Names([]), "");
  }

  // ---- maps of flags

  lemma {:induction false} DistinctSize(values: seq<string>)
    requires forall i, j :: 0 <= i < j < |values| ==> values[i] != values[j]
    ensures |set v | v in values| == |values|
  {
    if values != [] {
      DistinctSize(values[1..]);
      assert values == [values[0]] + values[1..] && values[0] !in values[1..];
      assert (set v | v in values) == (set v | v in values[1..]) + {values[0]};
    }
  }

  lemma {:induction false} SameSizeSubset(small: set<string>, large: set<string>)
    requires small <= large && |small| == |large|
    ensures small == large
  {
    if exists x :: x in large && x !in small {
      var x :| x in large && x !in small;
      assert |large - {x}| == |large| - 1 && small <= large - {x};
      SubsetSize(small, large - {x});
    }
  }

  lemma {:induction false} SubsetSize(small: set<string>, large: set<string>)
    requires small <= large
    ensures |small| <= |large|
    decreases large
  {
    if small != {} {
      var x :| x in small;
      SubsetSize(small - {x}, large - {x});
    }
  }

  /** A map resolves if and only if its keys are the values, and then as its flags do. */
  lemma MapResolves(d: Definition, m: map<string, bool>)
    requires d.Valid()
    ensures if forall key :: key in m <==> key in d.values
            then ResolveMap(d, m) == ResolveFlags(d, seq(|d.values|, i requires 0 <= i < |d.values| => d.values[i] in m && m[d.values[i]]))
            else ResolveMap(d, m) == Err(InvalidData)
  {
    hide ResolveEnabled;
    var values := set v | v in d.values;
    DistinctSize(d.values);
    if forall key :: key in m <==> key in d.values {
      assert m.Keys == values && |m| == |d.values|;
      var flags := seq(|d.values|, i requires 0 <= i < |d.values| => d.values[i] in m && m[d.values[i]]);
      assert EnabledNames(d, flags) == set i | 0 <= i < |d.values| && d.values[i] in m && m[d.values[i]] :: d.values[i];
    } else if |m| == |d.values| && forall key :: key in m ==> key in d.values {
      assert m.Keys <= values;
      SameSizeSubset(m.Keys, values);
      assert false;
    }
  }
}
