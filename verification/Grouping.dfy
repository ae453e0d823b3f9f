/** Splitting a batch into groups of one key each. */
module Grouping {
  import opened Wrappers

  /** The items with key `k`, in the order given. */
  function Group<T>(items: seq<T>, key: T -> string, k: string): seq<T> {
    if items == [] then []
    else
      var rest := Group(items[..|items| - 1], key, k);
      if key(items[|items| - 1]) == k then rest + [items[|items| - 1]] else rest
  }

  lemma GroupAppend<T>(items: seq<T>, key: T -> string, k: string, last: T)
    ensures Group(items + [last], key, k) == Group(items, key, k) + (if key(last) == k then [last] else [])
  {
    assert (items + [last])[..|items|] == items;
  }

  lemma {:induction false} GroupMembers<T>(items: seq<T>, key: T -> string, k: string, x: T)
    ensures x in Group(items, key, k) <==> x in items && key(x) == k
    ensures Group(items, key, k) != [] <==> exists y :: y in items && key(y) == k
  {
    if items != [] {
      var n := |items| - 1;
      GroupMembers(items[..n], key, k, x);
      assert items == items[..n] + [items[n]];
    }
  }

  lemma {:induction false} GroupCounts<T>(items: seq<T>, key: T -> string, k: string, x: T)
    ensures multiset(Group(items, key, k))[x] == if key(x) == k then multiset(items)[x] else 0
  {
    if items != [] {
      var n := |items| - 1;
      GroupCounts(items[..n], key, k, x);
      assert items == items[..n] + [items[n]];
    }
  }

  /** A key's group is what the caller's sequence holds of that key, in its order:
      the items at the increasing positions where the key occurs. */
  lemma {:induction false} GroupIsSubsequence<T>(items: seq<T>, key: T -> string, k: string)
    returns (positions: seq<nat>)
    ensures |positions| == |Group(items, key, k)|
    ensures forall i, j :: 0 <= i < j < |positions| ==> positions[i] < positions[j]
    ensures forall i :: 0 <= i < |positions| ==>
              positions[i] < |items| && Group(items, key, k)[i] == items[positions[i]]
    ensures forall n :: 0 <= n < |items| ==> (n in positions <==> key(items[n]) == k)
  {
    if items == [] {
      positions := [];
    } else {
      var n := |items| - 1;
      positions := GroupIsSubsequence(items[..n], key, k);
      if key(items[n]) == k {
        ghost var before := positions;
        positions := positions + [n];
        assert forall m :: m in positions <==> m in before || m == n;
      }
    }
  }

  predicate Inhabited<T(!new)>(groups: seq<seq<T>>) {
    forall i :: 0 <= i < |groups| ==> groups[i] != []
  }

  /** The key of each group, which all of its items share. */
  function Keys<T(!new)>(groups: seq<seq<T>>, key: T -> string): (keys: seq<string>)
    requires Inhabited(groups)
  {
    seq(|groups|, i requires 0 <= i < |groups| => key(groups[i][0]))
  }

  /** `groups` holds, in some order, each key's group once. */
  ghost predicate Partition<T(!new)>(items: seq<T>, key: T -> string, groups: seq<seq<T>>) {
    && Inhabited(groups)
    && var keys := Keys(groups, key);
    && (forall i, j :: 0 <= i < j < |keys| ==> keys[i] != keys[j])
    && (forall i :: 0 <= i < |keys| ==> groups[i] == Group(items, key, keys[i]))
    && (forall x :: x in items ==> key(x) in keys)
  }

  /** `m` holds the group of every key that has one. */
  ghost predicate Gathered<T(!new)>(items: seq<T>, key: T -> string, m: map<string, seq<T>>) {
    forall k :: Group(items, key, k) == (if k in m then m[k] else []) && (k in m ==> m[k] != [])
  }

  lemma GatherOne<T(!new)>(items: seq<T>, key: T -> string, m: map<string, seq<T>>, item: T)
    requires Gathered(items, key, m)
    ensures var k := key(item);
            Gathered(items + [item], key, m[k := (if k in m then m[k] else []) + [item]])
  {
    var k := key(item);
    var more := m[k := (if k in m then m[k] else []) + [item]];
    forall x
      ensures Group(items + [item], key, x) == (if x in more then more[x] else []) && (x in more ==> more[x] != [])
    {
      GroupAppend(items, key, x, item);
      assert Group(items, key, x) == (if x in m then m[x] else []) && (x in m ==> m[x] != []);
    }
  }

  /** One vector per key, filled in order. */
  method Gather<T(!new)>(items: seq<T>, key: T -> string) returns (m: map<string, seq<T>>)
    ensures Gathered(items, key, m)
  {
    m := map[];
    for n := 0 to |items|
      invariant Gathered(items[..n], key, m)
    {
      var item := items[n];
      var k := key(item);
      GatherOne(items[..n], key, m, item);
      assert items[..n + 1] == items[..n] + [item];
      m := m[k := (if k in m then m[k] else []) + [item]];
    }
    assert items[..|items|] == items;
  }

  /** The groups of a hash map, in no particular order. */
  method GroupPreservingOrder<T(!new)>(items: seq<T>, key: T -> string) returns (groups: seq<seq<T>>)
    ensures Partition(items, key, groups)
  {
    var m := Gather(items, key);
    forall x | x in items
      ensures key(x) in m
    {
      GroupMembers(items, key, key(x), x);
      assert Group(items, key, key(x)) == (if key(x) in m then m[key(x)] else []);
    }
    groups := [];
    ghost var keys := [];
    var left := m.Keys;
    while left != {}
      invariant left <= m.Keys && Inhabited(groups) && Keys(groups, key) == keys
      invariant forall k :: k in m <==> k in left || k in keys
      invariant forall k :: k in keys ==> k !in left
      invariant forall i, j :: 0 <= i < j < |keys| ==> keys[i] != keys[j]
      invariant forall i :: 0 <= i < |keys| ==> groups[i] == Group(items, key, keys[i])
      decreases left
    {
      var k :| k in left;
      assert Group(items, key, k) == m[k];
      GroupMembers(items, key, k, m[k][0]);
      groups := groups + [m[k]];
      keys := keys + [k];
      left := left - {k};
    }
  }

  /** No item is lost or duplicated by a partition. */
  lemma {:induction false} PartitionConserves<T(!new)>(items: seq<T>, key: T -> string, groups: seq<seq<T>>)
    requires Partition(items, key, groups)
    ensures multiset(Flatten(groups)) == multiset(items)
  {
    var keys := Keys(groups, key);
    forall x: T
      ensures multiset(Flatten(groups))[x] == multiset(items)[x]
    {
      CountAcross(items, key, groups, |keys|, x);
      assert groups[..|keys|] == groups && keys[..|keys|] == keys;
    }
  }

  lemma {:induction false} CountAcross<T(!new)>(items: seq<T>, key: T -> string, groups: seq<seq<T>>, n: nat, x: T)
    requires Partition(items, key, groups) && n <= |groups|
    ensures multiset(Flatten(groups[..n]))[x] == if key(x) in Keys(groups, key)[..n] then multiset(items)[x] else 0
  {
    var keys := Keys(groups, key);
    if n != 0 {
      CountAcross(items, key, groups, n - 1, x);
      var front, last := Flatten(groups[..n - 1]), groups[n - 1];
      GroupCounts(items, key, keys[n - 1], x);
      assert Flatten(groups[..n]) == front + last by {
        assert groups[..n] == groups[..n - 1] + [last];
        FlattenAppend(groups[..n - 1], last);
      }
      assert key(x) in keys[..n] <==> key(x) in keys[..n - 1] || key(x) == keys[n - 1] by {
        assert keys[..n] == keys[..n - 1] + [keys[n - 1]];
      }
      assert keys[n - 1] !in keys[..n - 1];
    }
  }
}
