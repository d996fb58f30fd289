/**
 * The two building blocks of the processor's aggregation passes: collecting
 * record positions into a dict of lists keyed by some field, and
 * `list.sort(key=...)` on such a list, which is stable: records with the
 * same timestamp keep their list order.
 *
 * Positions stand for the records themselves (the groups hold references to
 * the same dicts that the record list holds).
 */
module Grouping {

  predicate Increasing(m: seq<nat>)
  {
    forall p, q :: 0 <= p < q < |m| ==> m[p] < m[q]
  }

  predicate Bounded(m: seq<nat>, n: nat)
  {
    forall t :: 0 <= t < |m| ==> m[t] < n
  }

  /** The positions of `keys` holding `key`, in list order: what a group's list collects. */
  function Members<K(==)>(keys: seq<K>, key: K): (m: seq<nat>)
    ensures Bounded(m, |keys|) && Increasing(m)
    ensures forall t :: 0 <= t < |m| ==> keys[m[t]] == key
    ensures forall i :: 0 <= i < |keys| && keys[i] == key ==> i in m
  {
    if |keys| == 0 then []
    else
      var m := Members(keys[..|keys| - 1], key);
      assert forall t :: 0 <= t < |m| ==> keys[..|keys| - 1][m[t]] == keys[m[t]];
      if keys[|keys| - 1] == key then m + [|keys| - 1] else m
  }

  lemma MembersStep<K>(keys: seq<K>, i: nat, k: K)
    requires i < |keys|
    ensures Members(keys[..i + 1], k) == Members(keys[..i], k) + (if keys[i] == k then [i] else [])
  {
    assert keys[..i + 1][..i] == keys[..i];
  }

  lemma {:induction false} MembersAbsent<K>(keys: seq<K>, n: nat, key: K)
    requires n <= |keys|
    requires forall j :: 0 <= j < n ==> keys[j] != key
    ensures Members(keys[..n], key) == []
  {
    if n > 0 {
      assert keys[..n][..n - 1] == keys[..n - 1];
      MembersAbsent(keys, n - 1, key);
    }
  }

  /** No element occurs twice. */
  predicate Distinct<K(==)>(s: seq<K>)
  {
    forall p, q :: 0 <= p < q < |s| ==> s[p] != s[q]
  }

  lemma DistinctSnoc<K>(s: seq<K>, x: K)
    requires Distinct(s) && x !in s
    ensures Distinct(s + [x])
  {
  }

  /** The state of the grouping loop after the first `n` positions. */
  ghost predicate Grouped<K(!new)>(keys: seq<K>, n: nat, groups: map<K, seq<nat>>, order: seq<K>)
    requires n <= |keys|
  {
    GroupedAsSets(keys, n, groups, order) && FirstSeenOrder(groups, order)
  }

  /** The loop state without the order of the key list. */
  ghost predicate GroupedAsSets<K(!new)>(keys: seq<K>, n: nat, groups: map<K, seq<nat>>, order: seq<K>)
    requires n <= |keys|
  {
    (forall k :: k in groups <==> k in order)
    && (forall k :: k in groups ==> groups[k] == Members(keys[..n], k))
    && (forall j :: 0 <= j < n ==> keys[j] in groups)
    && (forall k :: k in groups ==> |groups[k]| > 0)
    && Distinct(order)
  }

  /** Keys are listed in the order of their first positions. */
  predicate FirstSeenOrder<K>(groups: map<K, seq<nat>>, order: seq<K>)
    requires forall k :: k in order ==> k in groups && |groups[k]| > 0
  {
    forall p, q :: 0 <= p < q < |order| ==> groups[order[p]][0] < groups[order[q]][0]
  }

  /** One step of the grouping loop: `groups.setdefault(key, []).append(i)`. */
  method AddToGroup<K(==,!new)>(keys: seq<K>, i: nat, groups: map<K, seq<nat>>, order: seq<K>)
    returns (groups': map<K, seq<nat>>, order': seq<K>)
    requires i < |keys| && Grouped(keys, i, groups, order)
    ensures Grouped(keys, i + 1, groups', order')
  {
    var key := keys[i];
    if key !in groups {
      MembersAbsent(keys, i, key);
      DistinctSnoc(order, key);
      groups', order' := groups[key := [i]], order + [key];
      NewKeyLast(keys, i, groups, order);
    } else {
      groups', order' := groups[key := groups[key] + [i]], order;
      assert forall k :: k in order ==> groups'[k][0] == groups[k][0];
    }
    GroupedStep(keys, i, groups, order, groups', order');
  }

  /** A key seen for the first time at `i` comes after every key seen before. */
  lemma NewKeyLast<K(!new)>(keys: seq<K>, i: nat, groups: map<K, seq<nat>>, order: seq<K>)
    requires i < |keys| && Grouped(keys, i, groups, order) && keys[i] !in groups
    ensures FirstSeenOrder(groups[keys[i] := [i]], order + [keys[i]])
  {
    var g, o := groups[keys[i] := [i]], order + [keys[i]];
    forall p, q | 0 <= p < q < |o|
      ensures g[o[p]][0] < g[o[q]][0]
    {
      assert o[p] == order[p] && g[o[p]] == groups[order[p]];
      if q < |order| {
        assert o[q] == order[q] && g[o[q]] == groups[order[q]];
      } else {
        assert groups[order[p]] == Members(keys[..i], order[p]);
      }
    }
  }

  /** The map and key list after a step differ from those before only at the step's key. */
  lemma GroupedStep<K(!new)>(keys: seq<K>, i: nat, groups: map<K, seq<nat>>, order: seq<K>,
                             groups': map<K, seq<nat>>, order': seq<K>)
    requires i < |keys| && Grouped(keys, i, groups, order)
    requires forall k :: k in groups' <==> k in groups || k == keys[i]
    requires forall k :: k in groups' ==> groups'[k] == (if k in groups then groups[k] else []) + (if k == keys[i] then [i] else [])
    requires forall k :: k in order' <==> k in order || k == keys[i]
    requires Distinct(order')
    ensures GroupedAsSets(keys, i + 1, groups', order')
  {
    GroupsStepMembers(keys, i, groups, groups');
    assert forall k :: k in groups' <==> k in order';
    assert forall j :: 0 <= j < i + 1 ==> keys[j] in groups';
    forall k | k in groups'
      ensures |groups'[k]| > 0
    {
      if k in groups {
        assert |groups[k]| > 0;
      }
    }
  }

  lemma GroupsStepMembers<K(!new)>(keys: seq<K>, i: nat, groups: map<K, seq<nat>>, groups': map<K, seq<nat>>)
    requires i < |keys|
    requires forall k :: k in groups ==> groups[k] == Members(keys[..i], k)
    requires forall j :: 0 <= j < i ==> keys[j] in groups
    requires forall k :: k in groups' <==> k in groups || k == keys[i]
    requires forall k :: k in groups' ==> groups'[k] == (if k in groups then groups[k] else []) + (if k == keys[i] then [i] else [])
    ensures forall k :: k in groups' ==> groups'[k] == Members(keys[..i + 1], k)
  {
    forall k | k in groups'
      ensures groups'[k] == Members(keys[..i + 1], k)
    {
      MembersStep(keys, i, k);
      if k !in groups {
        MembersAbsent(keys, i, k);
      }
    }
  }

  /**
   * The grouping loop: for each position in turn, create the key's list
   * on first sight, then append the position to it. `order` lists the keys
   * in the order the dict first saw them.
   */
  method GroupIndices<K(==,!new)>(keys: seq<K>) returns (groups: map<K, seq<nat>>, order: seq<K>)
    ensures forall k :: k in groups <==> k in order
    ensures forall k :: k in groups ==> groups[k] == Members(keys, k)
    ensures forall i :: 0 <= i < |keys| ==> keys[i] in groups
    ensures forall k :: k in groups ==> |groups[k]| > 0
    ensures Distinct(order)
    ensures forall p, q :: 0 <= p < q < |order| ==> groups[order[p]][0] < groups[order[q]][0]
  {
    groups := map[];
    order := [];
    for i := 0 to |keys|
      invariant Grouped(keys, i, groups, order)
    {
      groups, order := AddToGroup(keys, i, groups, order);
    }
    assert keys[..|keys|] == keys;
  }

  // ---------------------------------------------------------------------
  // The stable sort

  /** Stable order by time: an earlier time first, and list order among equal times. */
  predicate Precedes(time: seq<int>, i: nat, j: nat)
    requires i < |time| && j < |time|
  {
    time[i] < time[j] || (time[i] == time[j] && i < j)
  }

  predicate SortedByTime(r: seq<nat>, time: seq<int>)
    requires Bounded(r, |time|)
  {
    forall p, q :: 0 <= p < q < |r| ==> Precedes(time, r[p], r[q])
  }

  function Insert(x: nat, r: seq<nat>, time: seq<int>): (out: seq<nat>)
    requires x < |time| && Bounded(r, |time|)
    ensures |out| == |r| + 1 && Bounded(out, |time|)
    ensures multiset(out) == multiset(r) + multiset{x}
  {
    if |r| == 0 then [x]
    else if time[x] < time[r[0]] then [x] + r
    else
      assert r == [r[0]] + r[1..];
      [r[0]] + Insert(x, r[1..], time)
  }

  /** `list.sort(key=time)` on a list of positions: insertion of each element in turn. */
  function SortByTime(idx: seq<nat>, time: seq<int>): (r: seq<nat>)
    requires Bounded(idx, |time|)
    ensures |r| == |idx| && Bounded(r, |time|)
  {
    if |idx| == 0 then []
    else
      assert idx == idx[..|idx| - 1] + [idx[|idx| - 1]];
      Insert(idx[|idx| - 1], SortByTime(idx[..|idx| - 1], time), time)
  }

  /** Sorting keeps the positions: the result is a permutation of the input. */
  lemma {:induction false} SortPermutes(idx: seq<nat>, time: seq<int>)
    requires Bounded(idx, |time|)
    ensures multiset(SortByTime(idx, time)) == multiset(idx)
  {
    if |idx| > 0 {
      SortPermutes(idx[..|idx| - 1], time);
      assert idx == idx[..|idx| - 1] + [idx[|idx| - 1]];
    }
  }

  lemma SortedTail(r: seq<nat>, time: seq<int>)
    requires |r| > 0 && Bounded(r, |time|) && SortedByTime(r, time)
    ensures SortedByTime(r[1..], time)
  {
    var rest := r[1..];
    forall p, q | 0 <= p < q < |rest|
      ensures Precedes(time, rest[p], rest[q])
    {
      assert rest[p] == r[p + 1] && rest[q] == r[q + 1];
    }
  }

  /** The head of a sorted list that `x` does not go before precedes everything in the insertion into its tail. */
  lemma HeadPrecedesInsert(x: nat, r: seq<nat>, time: seq<int>)
    requires x < |time| && Bounded(r, |time|) && SortedByTime(r, time)
    requires forall t :: 0 <= t < |r| ==> r[t] < x
    requires |r| > 0 && time[r[0]] <= time[x]
    ensures forall q :: 0 <= q < |Insert(x, r[1..], time)| ==> Precedes(time, r[0], Insert(x, r[1..], time)[q])
  {
    var rest := r[1..];
    var ins := Insert(x, rest, time);
    forall q | 0 <= q < |ins|
      ensures Precedes(time, r[0], ins[q])
    {
      assert ins[q] in multiset(ins);
      if ins[q] != x {
        assert ins[q] in multiset(rest);
        var u :| 0 <= u < |rest| && rest[u] == ins[q];
        assert Precedes(time, r[0], r[u + 1]);
      }
    }
  }

  lemma {:induction false} InsertSorted(x: nat, r: seq<nat>, time: seq<int>)
    requires x < |time| && Bounded(r, |time|) && SortedByTime(r, time)
    requires forall t :: 0 <= t < |r| ==> r[t] < x
    ensures SortedByTime(Insert(x, r, time), time)
  {
    if |r| > 0 && time[r[0]] <= time[x] {
      var rest := r[1..];
      SortedTail(r, time);
      InsertSorted(x, rest, time);
      var ins := Insert(x, rest, time);
      HeadPrecedesInsert(x, r, time);
      var out := [r[0]] + ins;
      forall p, q | 0 <= p < q < |out|
        ensures Precedes(time, out[p], out[q])
      {
        if p > 0 {
          assert out[p] == ins[p - 1] && out[q] == ins[q - 1];
        }
      }
    } else if |r| > 0 {
      var out := [x] + r;
      forall p, q | 0 <= p < q < |out|
        ensures Precedes(time, out[p], out[q])
      {
        if p == 0 && q > 1 {
          assert Precedes(time, r[0], r[q - 1]);
        }
      }
    }
  }

  /**
   * Sorting the positions of a group (collected in list order) gives the
   * one order that is by time and, among equal times, by list position.
   */
  lemma {:induction false} SortIsStable(idx: seq<nat>, time: seq<int>)
    requires Bounded(idx, |time|) && Increasing(idx)
    ensures SortedByTime(SortByTime(idx, time), time)
  {
    if |idx| > 0 {
      var init := idx[..|idx| - 1];
      var x := idx[|idx| - 1];
      SortIsStable(init, time);
      var r := SortByTime(init, time);
      SortPermutes(init, time);
      forall t | 0 <= t < |r|
        ensures r[t] < x
      {
        assert r[t] in multiset(init);
        var u :| 0 <= u < |init| && init[u] == r[t];
      }
      InsertSorted(x, r, time);
    }
  }

  /** A list sorted by `Precedes` holds no position twice. */
  lemma SortedDistinct(r: seq<nat>, time: seq<int>)
    requires Bounded(r, |time|) && SortedByTime(r, time)
    ensures forall p, q :: 0 <= p < q < |r| ==> r[p] != r[q]
  {
    forall p, q | 0 <= p < q < |r|
      ensures r[p] != r[q]
    {
      assert Precedes(time, r[p], r[q]);
    }
  }

  /** The sorted list holds exactly the positions of the unsorted one. */
  lemma SortSameElements(idx: seq<nat>, time: seq<int>, i: nat)
    requires Bounded(idx, |time|)
    ensures i in SortByTime(idx, time) <==> i in idx
  {
    var r := SortByTime(idx, time);
    SortPermutes(idx, time);
    assert i in r <==> i in multiset(r);
    assert i in idx <==> i in multiset(idx);
  }

  /** In a sorted list the first entry has the least time and the last the greatest. */
  lemma SortedEnds(r: seq<nat>, time: seq<int>, q: nat)
    requires Bounded(r, |time|) && SortedByTime(r, time) && q < |r|
    ensures time[r[0]] <= time[r[q]] <= time[r[|r| - 1]]
  {
    if 0 < q {
      assert Precedes(time, r[0], r[q]);
    }
    if q < |r| - 1 {
      assert Precedes(time, r[q], r[|r| - 1]);
    }
  }
}
