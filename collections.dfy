/** Order-preserving removal of duplicates that keeps the first item of each key: the loop over a
    `seen` set that both `dedupe` and `extract_iata_candidates` run. `Dedup` is what that loop
    computes, item by item; `FirstsOfKeys` says the same thing position by position. */
module Collections {
  import opened Wrappers

  /** The keys of the items of `xs`. */
  function KeysOf<T, K(==)>(xs: seq<T>, key: T -> K): set<K>
    decreases |xs|
  {
    if xs == [] then {} else KeysOf(xs[..|xs| - 1], key) + {key(xs[|xs| - 1])}
  }

  /** The loop's result: each item is appended unless an item with its key was kept before it. */
  function Dedup<T, K(==)>(xs: seq<T>, key: T -> K): seq<T>
    decreases |xs|
  {
    if xs == [] then []
    else
      var kept := Dedup(xs[..|xs| - 1], key);
      var x := xs[|xs| - 1];
      if key(x) in KeysOf(kept, key) then kept else kept + [x]
  }

  /** `xs[i]` is the first item of `xs` with its key. */
  predicate FirstOfKey<T, K(==)>(xs: seq<T>, key: T -> K, i: nat)
    requires i < |xs|
  {
    forall j | 0 <= j < i :: key(xs[j]) != key(xs[i])
  }

  /** The items that are the first of their key, in the order of `xs`. */
  function FirstsOfKeys<T, K(==)>(xs: seq<T>, key: T -> K): seq<T>
    decreases |xs|
  {
    if xs == [] then []
    else FirstsOfKeys(xs[..|xs| - 1], key) + (if FirstOfKey(xs, key, |xs| - 1) then [xs[|xs| - 1]] else [])
  }

  /** A key is in `KeysOf(xs)` exactly when some item of `xs` has it. */
  lemma {:induction false} KeysOfIn<T, K>(xs: seq<T>, key: T -> K, k: K)
    ensures k in KeysOf(xs, key) <==> exists j | 0 <= j < |xs| :: key(xs[j]) == k
    decreases |xs|
  {
    if xs != [] {
      var init := xs[..|xs| - 1];
      KeysOfIn(init, key, k);
      if exists j | 0 <= j < |init| :: key(init[j]) == k {
        var j :| 0 <= j < |init| && key(init[j]) == k;
        assert key(xs[j]) == k;
      }
      if exists j | 0 <= j < |xs| :: key(xs[j]) == k {
        var j :| 0 <= j < |xs| && key(xs[j]) == k;
        if j < |init| {
          assert key(init[j]) == k;
        }
      }
    }
  }

  /** Removing duplicates loses no key. */
  lemma {:induction false} DedupKeys<T, K>(xs: seq<T>, key: T -> K)
    ensures KeysOf(Dedup(xs, key), key) == KeysOf(xs, key)
    decreases |xs|
  {
    if xs != [] {
      DedupKeys(xs[..|xs| - 1], key);
    }
  }

  /** The loop keeps exactly the first item of each key, in order. */
  lemma {:induction false} DedupIsFirsts<T, K>(xs: seq<T>, key: T -> K)
    ensures Dedup(xs, key) == FirstsOfKeys(xs, key)
    decreases |xs|
  {
    if xs != [] {
      var init := xs[..|xs| - 1];
      var x := xs[|xs| - 1];
      DedupIsFirsts(init, key);
      DedupKeys(init, key);
      KeysOfIn(init, key, key(x));
      if !FirstOfKey(xs, key, |xs| - 1) {
        var j :| 0 <= j < |xs| - 1 && key(xs[j]) == key(x);
        assert key(init[j]) == key(x);
      } else {
        forall j | 0 <= j < |init| ensures key(init[j]) != key(x) {
          assert init[j] == xs[j];
        }
      }
    }
  }

  /** No two kept items share a key. */
  lemma {:induction false} DedupDistinct<T, K>(xs: seq<T>, key: T -> K)
    ensures forall i, j | 0 <= i < j < |Dedup(xs, key)| :: key(Dedup(xs, key)[i]) != key(Dedup(xs, key)[j])
    decreases |xs|
  {
    if xs != [] {
      var init := xs[..|xs| - 1];
      var kept := Dedup(init, key);
      DedupDistinct(init, key);
      var x := xs[|xs| - 1];
      if key(x) !in KeysOf(kept, key) {
        forall i | 0 <= i < |kept| ensures key(kept[i]) != key(x) {
          KeysOfIn(kept, key, key(x));
        }
      }
    }
  }

  /** Every kept item comes from `xs`, and there are never more of them. */
  lemma {:induction false} DedupFromInput<T, K>(xs: seq<T>, key: T -> K)
    ensures |Dedup(xs, key)| <= |xs|
    ensures forall x | x in Dedup(xs, key) :: x in xs
    decreases |xs|
  {
    if xs != [] {
      var init := xs[..|xs| - 1];
      var kept := Dedup(init, key);
      DedupFromInput(init, key);
      assert forall x | x in init :: x in xs;
      assert Dedup(xs, key) == kept || Dedup(xs, key) == kept + [xs[|xs| - 1]];
    }
  }

  /** Items whose keys are already distinct are all kept. */
  lemma {:induction false} DedupOfDistinct<T, K>(xs: seq<T>, key: T -> K)
    requires forall i, j | 0 <= i < j < |xs| :: key(xs[i]) != key(xs[j])
    ensures Dedup(xs, key) == xs
    decreases |xs|
  {
    if xs != [] {
      var init := xs[..|xs| - 1];
      var x := xs[|xs| - 1];
      DedupOfDistinct(init, key);
      KeysOfIn(init, key, key(x));
      forall j | 0 <= j < |init| ensures key(init[j]) != key(x) {
        assert init[j] == xs[j];
      }
      assert init + [x] == xs;
    }
  }

  /** Removing duplicates twice is removing them once. */
  lemma DedupIdempotent<T, K>(xs: seq<T>, key: T -> K)
    ensures Dedup(Dedup(xs, key), key) == Dedup(xs, key)
  {
    DedupDistinct(xs, key);
    DedupOfDistinct(Dedup(xs, key), key);
  }

  /** One step of the loop: the prefix grows by one item. */
  lemma DedupStep<T, K>(xs: seq<T>, key: T -> K, i: nat)
    requires i < |xs|
    ensures Dedup(xs[..i + 1], key)
         == if key(xs[i]) in KeysOf(Dedup(xs[..i], key), key) then Dedup(xs[..i], key) else Dedup(xs[..i], key) + [xs[i]]
  {
    assert xs[..i + 1][..i] == xs[..i];
  }

  /** Appending one item adds its key. */
  lemma KeysOfAppend<T, K>(xs: seq<T>, key: T -> K, x: T)
    ensures KeysOf(xs + [x], key) == KeysOf(xs, key) + {key(x)}
  {
    assert (xs + [x])[..|xs|] == xs;
  }

  /** Appending a whole sequence adds its keys. */
  lemma {:induction false} KeysOfConcat<T, K>(xs: seq<T>, ys: seq<T>, key: T -> K)
    ensures KeysOf(xs + ys, key) == KeysOf(xs, key) + KeysOf(ys, key)
    decreases |ys|
  {
    if ys == [] {
      assert xs + ys == xs;
    } else {
      var init := ys[..|ys| - 1];
      KeysOfConcat(xs, init, key);
      assert xs + ys == (xs + init) + [ys[|ys| - 1]];
      KeysOfAppend(xs + init, key, ys[|ys| - 1]);
    }
  }

  /** Items that follow `xs` never displace what `xs` keeps: removing duplicates from `xs + ys`
      keeps what removing them from `xs` keeps, then only items whose keys `xs` does not have. */
  lemma {:induction false} DedupExtends<T, K>(xs: seq<T>, ys: seq<T>, key: T -> K)
    ensures var d := Dedup(xs + ys, key);
            && |Dedup(xs, key)| <= |d| && d[..|Dedup(xs, key)|] == Dedup(xs, key)
            && forall i | |Dedup(xs, key)| <= i < |d| :: key(d[i]) !in KeysOf(xs, key)
    decreases |ys|
  {
    if ys == [] {
      assert xs + ys == xs;
    } else {
      var init := ys[..|ys| - 1];
      var y := ys[|ys| - 1];
      DedupExtends(xs, init, key);
      assert (xs + ys)[..|xs + ys| - 1] == xs + init;
      var prev := Dedup(xs + init, key);
      if key(y) !in KeysOf(prev, key) {
        DedupKeys(xs + init, key);
        KeysOfConcat(xs, init, key);
        assert prev[..|Dedup(xs, key)|] == (prev + [y])[..|Dedup(xs, key)|];
      }
    }
  }

  /** The items of `xs` that satisfy `p`, in order. */
  function Filter<T>(xs: seq<T>, p: T -> bool): (ys: seq<T>)
    ensures |ys| <= |xs|
    decreases |xs|
  {
    if xs == [] then [] else Filter(xs[..|xs| - 1], p) + (if p(xs[|xs| - 1]) then [xs[|xs| - 1]] else [])
  }

  /** One more item is kept exactly when it satisfies `p`. */
  lemma FilterAppend<T>(xs: seq<T>, x: T, p: T -> bool)
    ensures Filter(xs + [x], p) == Filter(xs, p) + (if p(x) then [x] else [])
  {
    assert (xs + [x])[..|xs|] == xs;
  }

  /** A sequence that grows by at most one item: its filtered form grows by that item if it passes. */
  lemma FilterGrow<T>(prev: seq<T>, next: seq<T>, x: Option<T>, p: T -> bool)
    requires next == prev + (if x.Some? then [x.value] else [])
    ensures Filter(next, p) == Filter(prev, p) + (if x.Some? && p(x.value) then [x.value] else [])
  {
    if x.Some? {
      FilterAppend(prev, x.value, p);
    } else {
      assert next == prev;
    }
  }

  /** An item is kept exactly when it is in `xs` and satisfies `p`. */
  lemma {:induction false} FilterIn<T>(xs: seq<T>, p: T -> bool, x: T)
    ensures x in Filter(xs, p) <==> x in xs && p(x)
    decreases |xs|
  {
    if xs != [] {
      var init := xs[..|xs| - 1];
      FilterIn(init, p, x);
      assert xs == init + [xs[|xs| - 1]];
    }
  }

  /** Filtering distributes over concatenation. */
  lemma {:induction false} FilterConcat<T>(xs: seq<T>, ys: seq<T>, p: T -> bool)
    ensures Filter(xs + ys, p) == Filter(xs, p) + Filter(ys, p)
    decreases |ys|
  {
    if ys == [] {
      assert xs + ys == xs;
    } else {
      var init := ys[..|ys| - 1];
      FilterConcat(xs, init, p);
      assert (xs + ys)[..|xs + ys| - 1] == xs + init;
    }
  }

  /** Filtering by a predicate and by its negation splits `xs` into two parts that together hold
      every item exactly as often as `xs` does. */
  lemma {:induction false} FilterSplits<T>(xs: seq<T>, p: T -> bool, q: T -> bool)
    requires forall x :: q(x) == !p(x)
    ensures multiset(Filter(xs, p)) + multiset(Filter(xs, q)) == multiset(xs)
    decreases |xs|
  {
    if xs != [] {
      var init := xs[..|xs| - 1];
      var x := xs[|xs| - 1];
      FilterSplits(init, p, q);
      assert xs == init + [x];
      FilterAppend(init, x, p);
      FilterAppend(init, x, q);
      assert q(x) == !p(x);
      SplitStep(Filter(init, p), Filter(init, q), init, x, p(x));
    }
  }

  /** One item goes to exactly one side of a split. */
  lemma SplitStep<T>(a: seq<T>, b: seq<T>, c: seq<T>, x: T, left: bool)
    requires multiset(a) + multiset(b) == multiset(c)
    ensures multiset(a + (if left then [x] else [])) + multiset(b + (if left then [] else [x])) == multiset(c + [x])
  {
  }

  /** How many items of `xs` have the key `k`. */
  function CountKey<T, K(==)>(xs: seq<T>, key: T -> K, k: K): (n: nat)
    ensures n <= |xs|
    decreases |xs|
  {
    if xs == [] then 0 else CountKey(xs[..|xs| - 1], key, k) + (if key(xs[|xs| - 1]) == k then 1 else 0)
  }

  /** Some item has the key exactly when the count is positive. */
  lemma {:induction false} CountKeyPositive<T, K>(xs: seq<T>, key: T -> K, k: K)
    ensures CountKey(xs, key, k) > 0 <==> exists j | 0 <= j < |xs| :: key(xs[j]) == k
    decreases |xs|
  {
    if xs != [] {
      var init := xs[..|xs| - 1];
      CountKeyPositive(init, key, k);
      if exists j | 0 <= j < |init| :: key(init[j]) == k {
        var j :| 0 <= j < |init| && key(init[j]) == k;
        assert key(xs[j]) == k;
      }
      if exists j | 0 <= j < |xs| :: key(xs[j]) == k {
        var j :| 0 <= j < |xs| && key(xs[j]) == k;
        if j < |init| {
          assert key(init[j]) == k;
        }
      }
    }
  }
}
