/** The two list-building patterns the backends share: an index-driven probe
    loop (`index = 0; while True: ... index += 1`, left at the first failing
    query) and a filter over a fixed catalog that keeps the entries whose
    queries succeed, in catalog order. */
module Enumeration {
  import opened Wrappers

  /** What one probe at an index gives: a batch of results (possibly empty),
      after which the loop moves on, or a failure that ends the loop. */
  datatype Probe<T> = Yield(items: seq<T>) | Halt

  function ItemsOf<T>(p: Probe<T>): seq<T> {
    if p.Yield? then p.items else []
  }

  /** The batches, in order, concatenated. */
  function Concat<T>(xss: seq<seq<T>>): (r: seq<T>)
  {
    if xss == [] then [] else xss[0] + Concat(xss[1..])
  }

  lemma {:induction false} ConcatAppend<T>(xss: seq<seq<T>>, yss: seq<seq<T>>)
    ensures Concat(xss + yss) == Concat(xss) + Concat(yss)
  {
    if xss != [] {
      assert (xss + yss)[1..] == xss[1..] + yss;
      ConcatAppend(xss[1..], yss);
    } else {
      assert xss + yss == yss;
    }
  }

  /** An element of the concatenation comes from some batch, and every
      element of every batch is in the concatenation. */
  lemma {:induction false} ConcatMember<T>(xss: seq<seq<T>>, x: T)
    ensures x in Concat(xss) <==> exists k :: 0 <= k < |xss| && x in xss[k]
  {
    if xss != [] {
      ConcatMember(xss[1..], x);
      assert forall k :: 1 <= k < |xss| ==> xss[k] == xss[1..][k - 1];
      if x in Concat(xss[1..]) {
        var k :| 0 <= k < |xss[1..]| && x in xss[1..][k];
        assert x in xss[k + 1];
      }
    }
  }

  /** The batches of the n probes from `start` on. */
  function Batches<T>(probe: nat -> Probe<T>, start: nat, n: nat): (r: seq<seq<T>>)
    ensures |r| == n
    ensures forall i :: 0 <= i < n ==> r[i] == ItemsOf(probe(start + i))
  {
    seq(n, i requires 0 <= i < n => ItemsOf(probe(start + i)))
  }

  /** How many probes from `start` on succeed before the first failure, capped
      at `fuel`. */
  function Reach<T>(probe: nat -> Probe<T>, start: nat, fuel: nat): (n: nat)
    ensures n <= fuel
    ensures forall i :: start <= i < start + n ==> probe(i).Yield?
    ensures n < fuel ==> probe(start + n).Halt?
    decreases fuel
  {
    if fuel == 0 || probe(start).Halt? then 0 else 1 + Reach(probe, start + 1, fuel - 1)
  }

  /** The probe loop from index `start`, run for at most `fuel` indices: the
      results of every probe before the first failing one, in index order. */
  function Enumerate<T>(probe: nat -> Probe<T>, start: nat, fuel: nat): (r: seq<T>)
    ensures r == Concat(Batches(probe, start, Reach(probe, start, fuel)))
    decreases fuel
  {
    if fuel == 0 then []
    else match probe(start)
      case Halt => []
      case Yield(xs) =>
        var rest := Enumerate(probe, start + 1, fuel - 1);
        var n := Reach(probe, start + 1, fuel - 1);
        assert Batches(probe, start, n + 1)[1..] == Batches(probe, start + 1, n);
        xs + rest
  }

  /** Once some index fails, any fuel past it gives the loop's result: the
      results of exactly the probes before that index. */
  lemma EnumerateUntilHalt<T>(probe: nat -> Probe<T>, start: nat, n: nat, fuel: nat)
    requires forall i :: start <= i < start + n ==> probe(i).Yield?
    requires probe(start + n).Halt?
    requires n < fuel
    ensures Enumerate(probe, start, fuel) == Concat(Batches(probe, start, n))
  {
  }

  /** An index below the fuel bound whose probe, and every earlier one,
      succeeds is reached by the loop. */
  lemma {:induction false} ReachPast<T>(probe: nat -> Probe<T>, start: nat, fuel: nat, i: nat)
    requires start <= i < start + fuel
    requires forall j :: start <= j <= i ==> probe(j).Yield?
    ensures i < start + Reach(probe, start, fuel)
    decreases fuel
  {
    assert probe(start).Yield?;
    if i > start {
      ReachPast(probe, start + 1, fuel - 1, i);
    }
  }

  /** Every result of the loop was yielded by a successful probe at an index
      the loop reached. */
  lemma EnumerateMember<T>(probe: nat -> Probe<T>, start: nat, fuel: nat, x: T)
    requires x in Enumerate(probe, start, fuel)
    ensures exists k: nat :: start <= k < start + fuel && probe(k).Yield? && x in probe(k).items
  {
    var n := Reach(probe, start, fuel);
    ConcatMember(Batches(probe, start, n), x);
    var k :| 0 <= k < n && x in Batches(probe, start, n)[k];
    assert probe(start + k).Yield? && x in probe(start + k).items;
  }

  /** Python's `range(n)`. */
  function Range(n: nat): (r: seq<int>)
    ensures |r| == n
    ensures forall i :: 0 <= i < n ==> r[i] == i
  {
    seq(n, i requires 0 <= i < n => i)
  }

  /** The fixed-catalog filter: the successful query results, in catalog order. */
  function Collect<A, B(!new)>(xs: seq<A>, query: A -> Option<B>): (r: seq<B>)
    ensures |r| <= |xs|
    ensures forall b :: b in r <==> exists i :: 0 <= i < |xs| && query(xs[i]) == Some(b)
  {
    if xs == [] then []
    else
      var rest := Collect(xs[1..], query);
      assert forall i :: 1 <= i < |xs| ==> xs[i] == xs[1..][i - 1];
      OptionToSeq(query(xs[0])) + rest
  }

  /** The filter keeps catalog order: it distributes over concatenation. */
  lemma {:induction false} CollectAppend<A, B(!new)>(xs: seq<A>, ys: seq<A>, query: A -> Option<B>)
    ensures Collect(xs + ys, query) == Collect(xs, query) + Collect(ys, query)
  {
    if xs != [] {
      var z := xs + ys;
      assert z[0] == xs[0] && z[1..] == xs[1..] + ys;
      CollectAppend(xs[1..], ys, query);
      assert Collect(z, query) == OptionToSeq(query(xs[0])) + Collect(xs[1..] + ys, query);
      assert Collect(xs, query) == OptionToSeq(query(xs[0])) + Collect(xs[1..], query);
    } else {
      assert xs + ys == ys;
    }
  }

  /** Collecting over the indices below `n`: an index whose query succeeds
      contributes its result, and every result comes from such an index. */
  lemma CollectRangeMember<B(!new)>(n: nat, query: int -> Option<B>, i: int)
    requires 0 <= i < n
    ensures query(i).Some? ==> query(i).value in Collect(Range(n), query)
    ensures forall b :: b in Collect(Range(n), query) ==> exists j :: 0 <= j < n && query(j) == Some(b)
  {
    var xs := Range(n);
    assert xs[i] == i;
    forall b | b in Collect(xs, query) ensures exists j :: 0 <= j < n && query(j) == Some(b) {
      var j :| 0 <= j < |xs| && query(xs[j]) == Some(b);
      assert xs[j] == j;
    }
  }

  /** A catalog entry whose query fails adds nothing; one that succeeds adds its result. */
  lemma CollectOne<A, B(!new)>(x: A, query: A -> Option<B>)
    ensures Collect([x], query) == OptionToSeq(query(x))
  {
  }

  /** When every query succeeds nothing is dropped: the results line up
      with the catalog. */
  lemma {:induction false} CollectAllSome<A, B(!new)>(xs: seq<A>, query: A -> Option<B>)
    requires forall i :: 0 <= i < |xs| ==> query(xs[i]).Some?
    ensures |Collect(xs, query)| == |xs|
    ensures forall i :: 0 <= i < |xs| ==> Collect(xs, query)[i] == query(xs[i]).value
  {
    if xs != [] {
      assert forall i :: 1 <= i < |xs| ==> xs[i] == xs[1..][i - 1];
      CollectAllSome(xs[1..], query);
      assert Collect(xs, query) == [query(xs[0]).value] + Collect(xs[1..], query);
    }
  }

  /** The position of the first element satisfying `p`, if any: Python's
      `next(x for x in xs if p(x))` and the `for ... if ...: return` search. */
  function FirstIndex<T>(xs: seq<T>, p: T -> bool): (r: Option<nat>)
    ensures r.None? <==> forall k :: 0 <= k < |xs| ==> !p(xs[k])
    ensures r.Some? ==> r.value < |xs| && p(xs[r.value]) && forall j :: 0 <= j < r.value ==> !p(xs[j])
  {
    if xs == [] then None
    else if p(xs[0]) then Some(0)
    else
      var rest := FirstIndex(xs[1..], p);
      assert forall k :: 1 <= k < |xs| ==> xs[k] == xs[1..][k - 1];
      match rest
      case None => None
      case Some(k) => Some(k + 1)
  }

  /** A position where `p` holds with no earlier one is what the search finds. */
  lemma FirstIndexAt<T>(xs: seq<T>, p: T -> bool, i: int)
    requires 0 <= i < |xs| && p(xs[i])
    requires forall j :: 0 <= j < i ==> !p(xs[j])
    ensures FirstIndex(xs, p) == Some(i)
  {
  }

  /** Searching a list extended by one element: the earlier hit if there
      is one, else the new element's position if it matches. */
  lemma FirstIndexAppend<T>(xs: seq<T>, y: T, p: T -> bool)
    ensures FirstIndex(xs + [y], p)
      == if FirstIndex(xs, p).Some? then FirstIndex(xs, p) else if p(y) then Some(|xs|) else None
  {
    var zs := xs + [y];
    assert forall j :: 0 <= j < |xs| ==> zs[j] == xs[j];
    match FirstIndex(xs, p)
    case Some(k) =>
      FirstIndexAt(zs, p, k);
    case None =>
      if p(y) {
        FirstIndexAt(zs, p, |xs|);
      }
  }

  /** The elements of xs that pass `keep`, in their original order. */
  function Filter<T(==,!new)>(xs: seq<T>, keep: T -> bool): (r: seq<T>)
    ensures |r| <= |xs|
    ensures forall x :: x in r <==> x in xs && keep(x)
  {
    if xs == [] then []
    else
      var rest := Filter(xs[1..], keep);
      assert forall x :: x in xs <==> x == xs[0] || x in xs[1..];
      if keep(xs[0]) then [xs[0]] + rest else rest
  }

  /** Filtering distributes over concatenation. */
  lemma {:induction false} FilterAppend<T(!new)>(xs: seq<T>, ys: seq<T>, keep: T -> bool)
    ensures Filter(xs + ys, keep) == Filter(xs, keep) + Filter(ys, keep)
  {
    if xs == [] {
      assert xs + ys == ys;
    } else {
      assert (xs + ys)[0] == xs[0] && (xs + ys)[1..] == xs[1..] + ys;
      FilterAppend(xs[1..], ys, keep);
    }
  }

  /** A filter that accepts no element returns nothing. */
  lemma {:induction false} FilterNone<T(!new)>(xs: seq<T>, keep: T -> bool)
    requires forall k :: 0 <= k < |xs| ==> !keep(xs[k])
    ensures Filter(xs, keep) == []
  {
    if xs != [] {
      assert !keep(xs[0]);
      FilterNone(xs[1..], keep);
    }
  }

  /** A numbering loop from a running index: each element `keep` accepts is
      made into an item with the next index. */
  function KeptFrom<E(==,!new), D>(xs: seq<E>, keep: E -> bool, make: (E, int) -> D, index: int): (r: seq<D>)
    ensures |r| == |Filter(xs, keep)|
  {
    if xs == [] then []
    else
      var rest := KeptFrom(xs[1..], keep, make, index + if keep(xs[0]) then 1 else 0);
      if keep(xs[0]) then [make(xs[0], index)] + rest else rest
  }

  /** The k-th item of the loop is made from the k-th accepted element,
      with the running index plus k. */
  lemma {:induction false} KeptFromAt<E(!new), D>(xs: seq<E>, keep: E -> bool, make: (E, int) -> D, index: int, k: nat)
    requires k < |Filter(xs, keep)|
    ensures KeptFrom(xs, keep, make, index)[k] == make(Filter(xs, keep)[k], index + k)
    decreases |xs|
  {
    assert xs != [];
    var kept := Filter(xs, keep);
    var keptRest := Filter(xs[1..], keep);
    var r := KeptFrom(xs, keep, make, index);
    if keep(xs[0]) {
      var rest := KeptFrom(xs[1..], keep, make, index + 1);
      assert kept == [xs[0]] + keptRest;
      assert r == [make(xs[0], index)] + rest;
      if k > 0 {
        KeptFromAt(xs[1..], keep, make, index + 1, k - 1);
        assert r[k] == rest[k - 1] && kept[k] == keptRest[k - 1];
      }
    } else {
      assert kept == keptRest;
      KeptFromAt(xs[1..], keep, make, index, k);
    }
  }

  /** Every element precedes, under `less`, every element after it. */
  predicate Ascending<T>(xs: seq<T>, less: (T, T) -> bool) {
    forall i, j :: 0 <= i < j < |xs| ==> less(xs[i], xs[j])
  }

  /** A filter that accepts every element returns the list unchanged. */
  lemma {:induction false} FilterAll<T(!new)>(xs: seq<T>, keep: T -> bool)
    requires forall k :: 0 <= k < |xs| ==> keep(xs[k])
    ensures Filter(xs, keep) == xs
  {
    if xs != [] {
      assert keep(xs[0]);
      FilterAll(xs[1..], keep);
      assert [xs[0]] + xs[1..] == xs;
    }
  }

  /** A filter of a list ascending under `less` is still ascending under it. */
  lemma {:induction false} FilterKeepsOrder<T(!new)>(xs: seq<T>, keep: T -> bool, less: (T, T) -> bool)
    requires Ascending(xs, less)
    ensures Ascending(Filter(xs, keep), less)
  {
    if xs != [] {
      var rest := Filter(xs[1..], keep);
      assert Ascending(xs[1..], less) by {
        forall i, j | 0 <= i < j < |xs[1..]| ensures less(xs[1..][i], xs[1..][j]) {
          assert xs[1..][i] == xs[i + 1] && xs[1..][j] == xs[j + 1];
        }
      }
      FilterKeepsOrder(xs[1..], keep, less);
      if keep(xs[0]) {
        var r := [xs[0]] + rest;
        forall i, j | 0 <= i < j < |r| ensures less(r[i], r[j]) {
          if i == 0 {
            assert r[j] in xs[1..] by { assert r[j] == rest[j - 1]; }
            var k :| 0 <= k < |xs[1..]| && xs[1..][k] == r[j];
            assert xs[k + 1] == r[j];
            assert less(xs[0], xs[k + 1]);
          } else {
            assert r[i] == rest[i - 1] && r[j] == rest[j - 1];
            assert less(rest[i - 1], rest[j - 1]);
          }
        }
        assert Filter(xs, keep) == r;
      }
    }
  }

  /** The filter keeps relative order: two kept elements appear in the
      result in the order they had in xs. */
  lemma {:induction false} FilterKeepsPositions<T(!new)>(xs: seq<T>, keep: T -> bool, i: int, j: int)
    requires 0 <= i < j < |xs| && keep(xs[i]) && keep(xs[j])
    ensures exists a, b :: 0 <= a < b < |Filter(xs, keep)| && Filter(xs, keep)[a] == xs[i] && Filter(xs, keep)[b] == xs[j]
  {
    var rest := Filter(xs[1..], keep);
    assert xs[j] == xs[1..][j - 1];
    if i == 0 {
      assert xs[j] in rest;
      var b :| 0 <= b < |rest| && rest[b] == xs[j];
      assert Filter(xs, keep) == [xs[0]] + rest;
      assert Filter(xs, keep)[0] == xs[i] && Filter(xs, keep)[b + 1] == xs[j];
    } else {
      assert xs[i] == xs[1..][i - 1];
      FilterKeepsPositions(xs[1..], keep, i - 1, j - 1);
      var a, b :| 0 <= a < b < |rest| && rest[a] == xs[i] && rest[b] == xs[j];
      if keep(xs[0]) {
        assert Filter(xs, keep) == [xs[0]] + rest;
        assert Filter(xs, keep)[a + 1] == xs[i] && Filter(xs, keep)[b + 1] == xs[j];
      } else {
        assert Filter(xs, keep) == rest;
      }
    }
  }

  /** Splitting a list by a test and by its negation loses and duplicates
      nothing. */
  lemma {:induction false} FilterPartition<T(!new)>(xs: seq<T>, keep: T -> bool, drop: T -> bool)
    requires forall x :: drop(x) == !keep(x)
    ensures multiset(Filter(xs, keep)) + multiset(Filter(xs, drop)) == multiset(xs)
    ensures |Filter(xs, keep)| + |Filter(xs, drop)| == |xs|
  {
    if xs != [] {
      FilterPartition(xs[1..], keep, drop);
      assert xs == [xs[0]] + xs[1..];
    }
  }
}
