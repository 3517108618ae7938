/**
 * The list and dictionary utilities of the library (`uniq`, `toList`,
 * `toDict`, `flat`) and the left fold that every `reduce` writing
 * `acc[key] = value` into a fresh object performs.
 */
module Utils {

  /** The object built by `list.reduce((acc, x) => { acc[key(x)] = val(x); return acc; }, {})`:
      the items are assigned in list order, so a later item overwrites an earlier
      one with the same key. */
  function Assign<T, K, V>(list: seq<T>, key: T -> K, val: T -> V): (m: map<K, V>)
    ensures m.Keys == set i | 0 <= i < |list| :: key(list[i])
  {
    if list == [] then map[]
    else
      var init := list[..|list| - 1];
      var m := Assign(init, key, val)[key(list[|list| - 1]) := val(list[|list| - 1])];
      assert forall i :: 0 <= i < |list| - 1 ==> init[i] == list[i];
      m
  }

  /** Item `i` is the last item of `list` whose key is `key(list[i])`. */
  predicate LastWithKey<T, K(==)>(list: seq<T>, key: T -> K, i: int)
  {
    0 <= i < |list| && forall j :: i < j < |list| ==> key(list[j]) != key(list[i])
  }

  /** Last one wins: the entry under a key is the value of the last item with that key. */
  lemma {:induction false} AssignLastWins<T, K, V>(list: seq<T>, key: T -> K, val: T -> V, i: int)
    requires LastWithKey(list, key, i)
    ensures key(list[i]) in Assign(list, key, val)
    ensures Assign(list, key, val)[key(list[i])] == val(list[i])
  {
    var n := |list| - 1;
    if i < n {
      var init := list[..n];
      assert LastWithKey(init, key, i) by {
        forall j | i < j < |init| ensures key(init[j]) != key(init[i]) {
          assert init[j] == list[j];
        }
      }
      AssignLastWins(init, key, val, i);
      assert key(list[n]) != key(list[i]);
    }
  }

  /** Every entry of the object comes from an item with that key; the entry is the
      value of the last such item. */
  lemma {:induction false} AssignEntry<T, K, V>(list: seq<T>, key: T -> K, val: T -> V, k: K) returns (i: nat)
    requires k in Assign(list, key, val)
    ensures LastWithKey(list, key, i) && key(list[i]) == k
    ensures Assign(list, key, val)[k] == val(list[i])
  {
    var n := |list| - 1;
    if key(list[n]) == k {
      i := n;
    } else {
      var init := list[..n];
      i := AssignEntry(init, key, val, k);
      assert init[i] == list[i];
      forall j | i < j < |list| ensures key(list[j]) != key(list[i]) {
        if j < n { assert init[j] == list[j]; }
      }
    }
  }

  /** The identity, the value stored by `toDict`. */
  function Id<T>(x: T): T { x }

  /** `demoLib.toDict(list, fn)`: keys every item by `fn`, the last item with a given
      key winning. */
  method ToDict<T, K(==)>(list: seq<T>, fn: T -> K) returns (acc: map<K, T>)
    ensures acc == Assign(list, fn, Id)
    ensures forall k :: k in acc <==> exists i :: 0 <= i < |list| && fn(list[i]) == k
    ensures forall i :: LastWithKey(list, fn, i) ==> acc[fn(list[i])] == list[i]
  {
    acc := map[];
    for n := 0 to |list|
      invariant acc == Assign(list[..n], fn, Id)
    {
      assert list[..n + 1][..n] == list[..n];
      acc := acc[fn(list[n]) := list[n]];
    }
    assert list[..|list|] == list;
    forall i | LastWithKey(list, fn, i) ensures acc[fn(list[i])] == list[i] {
      AssignLastWins(list, fn, Id, i);
    }
  }

  /** `demoLib.toList(dict)`: one value per key, in an unspecified key order. The
      keys visited are returned as a ghost witness. */
  method ToList<K, V>(dict: map<K, V>) returns (values: seq<V>, ghost keys: seq<K>)
    ensures |values| == |keys| == |dict|
    ensures forall i :: 0 <= i < |keys| ==> keys[i] in dict && values[i] == dict[keys[i]]
    ensures forall i, j :: 0 <= i < j < |keys| ==> keys[i] != keys[j]
    ensures forall k :: k in dict ==> k in keys
  {
    var rest := dict.Keys;
    values, keys := [], [];
    while rest != {}
      invariant rest <= dict.Keys
      invariant |values| == |keys|
      invariant forall k :: k in dict ==> (k in keys <==> k !in rest)
      invariant forall i :: 0 <= i < |keys| ==> keys[i] in dict && values[i] == dict[keys[i]]
      invariant forall i, j :: 0 <= i < j < |keys| ==> keys[i] != keys[j]
      invariant |keys| + |rest| == |dict|
      decreases rest
    {
      var k :| k in rest;
      values, keys := values + [dict[k]], keys + [k];
      rest := rest - {k};
    }
  }

  /** `demoLib.flat(list)`: `list.reduce((acc, x) => acc.concat(x), [])`. */
  function Flat<T>(list: seq<seq<T>>): seq<T>
  {
    if list == [] then [] else Flat(list[..|list| - 1]) + list[|list| - 1]
  }

  /** Flattening distributes over concatenation: sublists stay in order. */
  lemma {:induction false} FlatAppend<T>(a: seq<seq<T>>, b: seq<seq<T>>)
    ensures Flat(a + b) == Flat(a) + Flat(b)
  {
    if b == [] {
      assert a + b == a;
    } else {
      var n := |b| - 1;
      var init := b[..n];
      assert (a + b)[..|a + b| - 1] == a + init;
      assert (a + b)[|a + b| - 1] == b[n];
      FlatAppend(a, init);
      calc {
        Flat(a + b);
        Flat(a + init) + b[n];
        (Flat(a) + Flat(init)) + b[n];
        { assert (Flat(a) + Flat(init)) + b[n] == Flat(a) + (Flat(init) + b[n]); }
        Flat(a) + Flat(b);
      }
    }
  }

  /** Flattening a single sublist gives that sublist. */
  lemma FlatSingle<T>(a: seq<T>)
    ensures Flat([a]) == a
  {
    assert [a][..0] == [];
  }

  /** The sum of the sublists' lengths. */
  function TotalLength<T>(list: seq<seq<T>>): nat
  {
    if list == [] then 0 else TotalLength(list[..|list| - 1]) + |list[|list| - 1]|
  }

  /** Flattening keeps every element: its length is the sum of the lengths, and an
      element occurs in the result exactly when it occurs in some sublist. */
  lemma {:induction false} FlatContents<T>(list: seq<seq<T>>)
    ensures |Flat(list)| == TotalLength(list)
    ensures forall x :: x in Flat(list) <==> exists i :: 0 <= i < |list| && x in list[i]
  {
    if list != [] {
      var n := |list| - 1;
      var init := list[..n];
      FlatContents(init);
      assert forall i :: 0 <= i < n ==> init[i] == list[i];
    }
  }

  /** `filter(p)`: the items satisfying `p`, in order. */
  function Filter<T>(list: seq<T>, p: T -> bool): (r: seq<T>)
    ensures |r| <= |list|
    ensures forall i :: 0 <= i < |r| ==> r[i] in list && p(r[i])
    ensures forall i :: 0 <= i < |list| && p(list[i]) ==> list[i] in r
  {
    if list == [] then []
    else
      var init := list[..|list| - 1];
      var x := list[|list| - 1];
      assert list == init + [x];
      Filter(init, p) + (if p(x) then [x] else [])
  }

  /** `filter` keeps order and multiplicity: filtering a concatenation filters each
      part and concatenates the results. */
  lemma {:induction false} FilterAppend<T>(a: seq<T>, b: seq<T>, p: T -> bool)
    ensures Filter(a + b, p) == Filter(a, p) + Filter(b, p)
    decreases |b|
  {
    if b == [] {
      assert a + b == a;
    } else {
      var n := |b| - 1;
      assert (a + b)[..|a + b| - 1] == a + b[..n];
      assert (a + b)[|a + b| - 1] == b[n];
      FilterAppend(a, b[..n], p);
      var tail := if p(b[n]) then [b[n]] else [];
      assert (Filter(a, p) + Filter(b[..n], p)) + tail == Filter(a, p) + (Filter(b[..n], p) + tail);
    }
  }

  /** A single item is kept exactly when it satisfies the predicate. */
  lemma FilterSingle<T>(x: T, p: T -> bool)
    ensures Filter([x], p) == if p(x) then [x] else []
  {
    assert [x][..0] == [];
  }

  /** No element occurs twice. */
  predicate Distinct<T(==)>(s: seq<T>)
  {
    forall i, j :: 0 <= i < j < |s| ==> s[i] != s[j]
  }

  /** The position of the first occurrence of `x` in `s` (`s.indexOf(x)`). */
  function IndexOf<T(==)>(s: seq<T>, x: T): (i: nat)
    requires x in s
    ensures i < |s| && s[i] == x && x !in s[..i]
  {
    if s[0] == x then 0 else 1 + IndexOf(s[1..], x)
  }

  /** `IndexOf` is determined by its contract. */
  lemma {:induction false} IndexOfAt<T>(s: seq<T>, x: T, i: nat)
    requires i < |s| && s[i] == x && x !in s[..i]
    ensures IndexOf(s, x) == i
  {
    if i > 0 {
      assert s[0] in s[..i];
      var t := s[1..][..i - 1];
      forall j | 0 <= j < |t| ensures t[j] != x {
        assert t[j] == s[..i][j + 1];
      }
      IndexOfAt(s[1..], x, i - 1);
    }
  }

  /** `demoLib.uniq(list)`: `list.reduce((acc, n) => acc.indexOf(n) === -1 ? acc.concat([n]) : acc, [])`. */
  function Uniq<T(==)>(list: seq<T>): (r: seq<T>)
    ensures |r| <= |list|
    ensures |list| > 0 ==> |r| > 0
  {
    if list == [] then []
    else
      var acc := Uniq(list[..|list| - 1]);
      var n := list[|list| - 1];
      if n in acc then acc else acc + [n]
  }

  lemma {:induction false} IndexOfPrefix<T>(p: seq<T>, q: seq<T>, x: T)
    requires x in p
    ensures IndexOf(p + q, x) == IndexOf(p, x)
  {
    if p[0] != x {
      assert (p + q)[1..] == p[1..] + q;
      IndexOfPrefix(p[1..], q, x);
    }
  }

  /** `uniq` keeps exactly the distinct elements of its input, each once, in the order
      of their first occurrences. */
  lemma {:induction false} UniqSpec<T>(list: seq<T>)
    ensures Distinct(Uniq(list))
    ensures forall i :: 0 <= i < |Uniq(list)| ==> Uniq(list)[i] in list
    ensures forall i :: 0 <= i < |list| ==> list[i] in Uniq(list)
    ensures forall i, j :: 0 <= i < j < |Uniq(list)| ==>
      IndexOf(list, Uniq(list)[i]) < IndexOf(list, Uniq(list)[j])
  {
    if list != [] {
      var init := list[..|list| - 1];
      var n := list[|list| - 1];
      assert list == init + [n];
      UniqSpec(init);
      var acc := Uniq(init);
      forall x | x in acc ensures IndexOf(list, x) == IndexOf(init, x) {
        IndexOfPrefix(init, [n], x);
      }
      if n !in acc {
        assert n !in init;
        assert IndexOf(list, n) == |init| by {
          assert list[..|init|] == init;
        }
      }
    }
  }

  /** On a list without duplicates `uniq` is the identity; in particular `uniq` is
      idempotent. */
  lemma {:induction false} UniqOfDistinct<T>(list: seq<T>)
    requires Distinct(list)
    ensures Uniq(list) == list
  {
    if list != [] {
      var init := list[..|list| - 1];
      assert Distinct(init);
      UniqOfDistinct(init);
      assert list[|list| - 1] !in init;
    }
  }

  lemma UniqIdempotent<T>(list: seq<T>)
    ensures Uniq(Uniq(list)) == Uniq(list)
  {
    UniqSpec(list);
    UniqOfDistinct(Uniq(list));
  }
}
