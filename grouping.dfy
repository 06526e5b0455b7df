/**
 * Grouping a sequence by a partial key, keeping input order: the shape shared by
 * `groupArticlesByCountry` in script.js (a `forEach` that pushes onto
 * `groups[country]`) and the `textGroups` map of `scanPageForMultiLanguageContent`
 * in translate.js. An element whose key is `None` is skipped.
 */
module Grouping {
  import opened Wrappers

  /** The elements of `xs` whose key is `Some(k)`, in input order. */
  function Members<T, K(==)>(xs: seq<T>, key: T -> Option<K>, k: K): (r: seq<T>)
    ensures forall j :: 0 <= j < |r| ==> key(r[j]) == Some(k)
  {
    if xs == [] then []
    else Members(xs[..|xs| - 1], key, k) + (if key(xs[|xs| - 1]) == Some(k) then [xs[|xs| - 1]] else [])
  }

  /** The elements of `xs` that have a key at all, in input order. */
  function Kept<T, K>(xs: seq<T>, key: T -> Option<K>): (r: seq<T>)
    ensures forall j :: 0 <= j < |r| ==> key(r[j]).Some?
  {
    if xs == [] then []
    else Kept(xs[..|xs| - 1], key) + (if key(xs[|xs| - 1]).Some? then [xs[|xs| - 1]] else [])
  }

  /** Some element of `xs` has key `Some(k)`. */
  ghost predicate HasKey<T, K>(xs: seq<T>, key: T -> Option<K>, k: K)
  {
    exists i :: 0 <= i < |xs| && key(xs[i]) == Some(k)
  }

  ghost predicate Distinct<K>(s: seq<K>)
  {
    forall i, j :: 0 <= i < j < |s| ==> s[i] != s[j]
  }

  /** The keys of `xs` in the order of their first appearance, each once. */
  function KeysInOrder<T, K(==,!new)>(xs: seq<T>, key: T -> Option<K>): (r: seq<K>)
    ensures Distinct(r)
    ensures forall k :: k in r <==> HasKey(xs, key, k)
  {
    if xs == [] then []
    else
      var init := xs[..|xs| - 1];
      var r0 := KeysInOrder(init, key);
      assert forall k :: HasKey(init, key, k) ==> HasKey(xs, key, k) by {
        forall k, i | 0 <= i < |init| && key(init[i]) == Some(k) ensures HasKey(xs, key, k) {
          assert xs[i] == init[i];
        }
      }
      assert forall k :: HasKey(xs, key, k) ==> HasKey(init, key, k) || key(xs[|xs| - 1]) == Some(k) by {
        forall k, i | 0 <= i < |xs| && key(xs[i]) == Some(k) && i < |xs| - 1 ensures HasKey(init, key, k) {
          assert init[i] == xs[i];
        }
      }
      match key(xs[|xs| - 1])
      case Some(k) => if k in r0 then r0 else r0 + [k]
      case None => r0
  }

  /** A key has a non-empty group exactly when some element carries it. */
  lemma {:induction false} MembersNonEmpty<T, K>(xs: seq<T>, key: T -> Option<K>, k: K)
    ensures Members(xs, key, k) != [] <==> HasKey(xs, key, k)
  {
    if xs != [] {
      var init := xs[..|xs| - 1];
      MembersNonEmpty(init, key, k);
      if HasKey(xs, key, k) && key(xs[|xs| - 1]) != Some(k) {
        var i :| 0 <= i < |xs| && key(xs[i]) == Some(k);
        assert init[i] == xs[i];
      }
      if HasKey(init, key, k) {
        var i :| 0 <= i < |init| && key(init[i]) == Some(k);
        assert xs[i] == init[i];
      }
    }
  }

  /**
   * Grouping keeps input order: the group of a concatenation is the group of
   * the first part followed by the group of the second.
   */
  lemma {:induction false} MembersAppend<T, K>(xs: seq<T>, ys: seq<T>, key: T -> Option<K>, k: K)
    ensures Members(xs + ys, key, k) == Members(xs, key, k) + Members(ys, key, k)
  {
    if ys != [] {
      var init := ys[..|ys| - 1];
      assert (xs + ys)[..|xs + ys| - 1] == xs + init;
      MembersAppend(xs, init, key, k);
    } else {
      assert xs + ys == xs;
    }
  }

  /** The total size of the groups listed in `order`. */
  function SumSizes<T, K>(order: seq<K>, groups: map<K, seq<T>>): nat
  {
    if order == [] then 0
    else (if order[|order| - 1] in groups then |groups[order[|order| - 1]]| else 0)
         + SumSizes(order[..|order| - 1], groups)
  }

  lemma {:induction false} SumSizesUnchanged<T, K>(order: seq<K>, g: map<K, seq<T>>, h: map<K, seq<T>>)
    requires forall k :: k in order ==> (k in g <==> k in h) && (k in g ==> |g[k]| == |h[k]|)
    ensures SumSizes(order, g) == SumSizes(order, h)
  {
    if order != [] {
      SumSizesUnchanged(order[..|order| - 1], g, h);
    }
  }

  lemma {:induction false} SumSizesGrow<T, K>(order: seq<K>, g: map<K, seq<T>>, k: K, x: T)
    requires Distinct(order) && k in order && k in g
    ensures SumSizes(order, g[k := g[k] + [x]]) == SumSizes(order, g) + 1
  {
    var init := order[..|order| - 1];
    var last := order[|order| - 1];
    if last == k {
      assert k !in init;
      SumSizesUnchanged(init, g, g[k := g[k] + [x]]);
    } else {
      assert k in init;
      SumSizesGrow(init, g, k, x);
    }
  }

  lemma {:induction false} SumSizesAppend<T, K>(order: seq<K>, g: map<K, seq<T>>, k: K, x: T)
    requires k !in order
    ensures SumSizes(order + [k], g[k := [x]]) == SumSizes(order, g) + 1
  {
    assert (order + [k])[..|order|] == order;
    SumSizesUnchanged(order, g, g[k := [x]]);
  }

  /** `order` and `groups` are the grouping of `xs` by `key`. */
  ghost predicate Grouped<T, K(!new)>(xs: seq<T>, key: T -> Option<K>, order: seq<K>, groups: map<K, seq<T>>)
  {
    && order == KeysInOrder(xs, key)
    && (forall k :: k in groups <==> k in order)
    && (forall k :: k in groups ==> groups[k] == Members(xs, key, k))
    && SumSizes(order, groups) == |Kept(xs, key)|
  }

  /** Appending an element extends its own group and no other. */
  lemma MembersSnoc<T, K>(xs: seq<T>, x: T, key: T -> Option<K>, k: K)
    ensures Members(xs + [x], key, k) == Members(xs, key, k) + (if key(x) == Some(k) then [x] else [])
  {
    assert (xs + [x])[..|xs|] == xs;
  }

  /** Appending an element keeps it exactly when it has a key. */
  lemma KeptSnoc<T, K>(xs: seq<T>, x: T, key: T -> Option<K>)
    ensures |Kept(xs + [x], key)| == |Kept(xs, key)| + (if key(x).Some? then 1 else 0)
  {
    assert (xs + [x])[..|xs|] == xs;
  }

  /** Appending an element adds its key at the end when the key is new. */
  lemma KeysSnoc<T, K(!new)>(xs: seq<T>, x: T, key: T -> Option<K>)
    ensures KeysInOrder(xs + [x], key) ==
      match key(x)
      case Some(k) => if k in KeysInOrder(xs, key) then KeysInOrder(xs, key) else KeysInOrder(xs, key) + [k]
      case None => KeysInOrder(xs, key)
  {
    assert (xs + [x])[..|xs|] == xs;
  }

  /** Reading an element without a key changes nothing. */
  lemma GroupedSkip<T, K(!new)>(xs: seq<T>, x: T, key: T -> Option<K>, order: seq<K>, groups: map<K, seq<T>>)
    requires Grouped(xs, key, order, groups) && key(x).None?
    ensures Grouped(xs + [x], key, order, groups)
  {
    assert KeysInOrder(xs + [x], key) == order by {
      KeysSnoc(xs, x, key);
    }
    KeptSnoc(xs, x, key);
    MembersAfter(xs, x, key, groups, groups);
  }

  /** Reading an element whose key already has a group appends it to that group. */
  lemma GroupedExtend<T, K(!new)>(xs: seq<T>, x: T, key: T -> Option<K>, order: seq<K>, groups: map<K, seq<T>>, k: K)
    requires Grouped(xs, key, order, groups) && key(x) == Some(k) && k in groups
    ensures Grouped(xs + [x], key, order, groups[k := groups[k] + [x]])
  {
    var ys, g := xs + [x], groups[k := groups[k] + [x]];
    assert KeysInOrder(ys, key) == order by {
      KeysSnoc(xs, x, key);
    }
    assert forall j :: j in g <==> j in order by {
      assert k in order;
    }
    assert forall j :: j in g ==> g[j] == Members(ys, key, j) by {
      ExtendedMembers(xs, x, key, groups, k);
    }
    assert SumSizes(order, g) == |Kept(ys, key)| by {
      ExtendedSizes(xs, x, key, order, groups, k);
    }
  }

  lemma ExtendedSizes<T, K(!new)>(xs: seq<T>, x: T, key: T -> Option<K>, order: seq<K>, groups: map<K, seq<T>>, k: K)
    requires order == KeysInOrder(xs, key) && SumSizes(order, groups) == |Kept(xs, key)|
    requires key(x) == Some(k) && k in order && k in groups
    ensures SumSizes(order, groups[k := groups[k] + [x]]) == |Kept(xs + [x], key)|
  {
    KeptSnoc(xs, x, key);
    SumSizesGrow(order, groups, k, x);
  }

  lemma ExtendedMembers<T, K>(xs: seq<T>, x: T, key: T -> Option<K>, groups: map<K, seq<T>>, k: K)
    requires forall j :: j in groups ==> groups[j] == Members(xs, key, j)
    requires key(x) == Some(k) && k in groups
    ensures forall j :: j in groups[k := groups[k] + [x]] ==> groups[k := groups[k] + [x]][j] == Members(xs + [x], key, j)
  {
    MembersAfter(xs, x, key, groups, groups[k := groups[k] + [x]]);
  }

  /** Reading an element with a new key opens a group for it at the end of `order`. */
  lemma GroupedOpen<T, K(!new)>(xs: seq<T>, x: T, key: T -> Option<K>, order: seq<K>, groups: map<K, seq<T>>, k: K)
    requires Grouped(xs, key, order, groups) && key(x) == Some(k) && k !in groups
    ensures Grouped(xs + [x], key, order + [k], groups[k := [x]])
  {
    assert k !in order && !HasKey(xs, key, k);
    assert KeysInOrder(xs + [x], key) == order + [k] by {
      KeysSnoc(xs, x, key);
    }
    assert SumSizes(order + [k], groups[k := [x]]) == |Kept(xs + [x], key)| by {
      KeptSnoc(xs, x, key);
      SumSizesAppend(order, groups, k, x);
    }
    OpenedDomain(order, groups, k, [x]);
    assert Members(xs, key, k) == [] by {
      MembersNonEmpty(xs, key, k);
    }
    MembersAfter(xs, x, key, groups, groups[k := [x]]);
  }

  /** Adding a key to the map and to the end of the order keeps their key sets equal. */
  lemma OpenedDomain<T, K>(order: seq<K>, groups: map<K, seq<T>>, k: K, v: seq<T>)
    requires forall j :: j in groups <==> j in order
    ensures forall j :: j in groups[k := v] <==> j in order + [k]
  {
    forall j ensures j in groups[k := v] <==> j in order + [k] {
      assert j in order + [k] <==> j in order || j == k;
    }
  }

  /**
   * The groups after reading `x`: every group of `g` is the members of its key
   * in `xs + [x]`, given that it was so in `xs` with `before` and that only the
   * group of `x`'s key changed, by appending `x` (or opening with `x`).
   */
  lemma MembersAfter<T, K>(xs: seq<T>, x: T, key: T -> Option<K>, before: map<K, seq<T>>, g: map<K, seq<T>>)
    requires forall j :: j in before ==> before[j] == Members(xs, key, j)
    requires forall j :: j in g ==> j in before || key(x) == Some(j)
    requires forall j :: j in g && key(x) != Some(j) ==> g[j] == before[j]
    requires forall j :: j in g && key(x) == Some(j) ==> g[j] == Members(xs, key, j) + [x]
    ensures forall j :: j in g ==> g[j] == Members(xs + [x], key, j)
  {
    forall j | j in g ensures g[j] == Members(xs + [x], key, j) {
      MembersSnoc(xs, x, key, j);
    }
  }

  lemma GroupedMeans<T, K(!new)>(xs: seq<T>, key: T -> Option<K>, order: seq<K>, groups: map<K, seq<T>>)
    requires Grouped(xs, key, order, groups)
    ensures forall k :: k in groups <==> HasKey(xs, key, k)
    ensures forall k :: k in groups ==> groups[k] != []
  {
    forall k | k in groups ensures groups[k] != [] {
      MembersNonEmpty(xs, key, k);
    }
  }

  /**
   * Groups `xs` by `key`: `order` lists each key once in order of first appearance,
   * and `groups[k]` holds the elements with key `k` in input order.
   */
  method GroupBy<T, K(==,!new)>(xs: seq<T>, key: T -> Option<K>) returns (order: seq<K>, groups: map<K, seq<T>>)
    ensures order == KeysInOrder(xs, key)
    ensures forall k :: k in groups <==> HasKey(xs, key, k)
    ensures forall k :: k in groups ==> groups[k] == Members(xs, key, k) && groups[k] != []
    ensures SumSizes(order, groups) == |Kept(xs, key)|
  {
    order, groups := [], map[];
    var i := 0;
    ghost var seen: seq<T> := [];
    while i < |xs|
      invariant 0 <= i <= |xs| && seen == xs[..i]
      invariant Grouped(seen, key, order, groups)
    {
      match key(xs[i]) {
        case None =>
          GroupedSkip(seen, xs[i], key, order, groups);
        case Some(k) =>
          if k !in groups {
            GroupedOpen(seen, xs[i], key, order, groups, k);
            groups := groups[k := [xs[i]]];
            order := order + [k];
          } else {
            GroupedExtend(seen, xs[i], key, order, groups, k);
            groups := groups[k := groups[k] + [xs[i]]];
          }
      }
      assert xs[..i + 1] == seen + [xs[i]];
      seen := seen + [xs[i]];
      i := i + 1;
    }
    assert seen == xs;
    GroupedMeans(xs, key, order, groups);
  }
}
