/** Grouping a sequence by a string key, as a JavaScript loop does it with a
    `Record<string, T[]>`: the groups, the keys in first-occurrence order
    (`Object.keys`) and the default `sort()` of distinct strings. */
module Grouping {
  import opened Strings
  import opened Seqs

  /** Elements filed under key k. */
  function KeyIs<T(!new)>(key: T -> string, k: string): (p: T -> bool)
    ensures forall x :: p(x) <==> key(x) == k
  {
    x => key(x) == k
  }

  /** The record after pushing every element under its key, in order. */
  function GroupByKey<T(!new)>(s: seq<T>, key: T -> string): (m: map<string, seq<T>>)
    ensures forall i :: 0 <= i < |s| ==> key(s[i]) in m
    decreases |s|
  {
    if |s| == 0 then map[]
    else
      var init, x := s[..|s| - 1], s[|s| - 1];
      var groups := GroupByKey(init, key);
      assert s == init + [x];
      GroupStepKeys(s, init, x, key, groups, Push(groups, key(x), x));
      Push(groups, key(x), x)
  }

  /** Each key of the record holds exactly the elements filed under it, in
      input order, and at least one of them. */
  lemma {:induction false} GroupByKeyFilters<T(!new)>(s: seq<T>, key: T -> string)
    ensures forall k :: k in GroupByKey(s, key) ==>
              GroupByKey(s, key)[k] == Filter(s, KeyIs(key, k)) && |GroupByKey(s, key)[k]| > 0
    decreases |s|
  {
    if |s| > 0 {
      var init, x := s[..|s| - 1], s[|s| - 1];
      assert s == init + [x];
      GroupByKeyFilters(init, key);
      GroupStep(s, init, x, key, GroupByKey(init, key), GroupByKey(s, key));
    }
  }

  /** `(groups[k] ||= []).push(x)`: append x to the list under k, creating it
      when k is new; no other key changes. */
  function Push<T>(m: map<string, seq<T>>, k: string, x: T): (m': map<string, seq<T>>)
    ensures m'.Keys == m.Keys + {k}
    ensures m'[k] == (if k in m then m[k] else []) + [x]
    ensures forall k' :: k' in m && k' != k ==> m'[k'] == m[k']
  {
    m[k := (if k in m then m[k] else []) + [x]]
  }

  /** One push keeps every element's key present. */
  lemma GroupStepKeys<T(!new)>(s: seq<T>, init: seq<T>, x: T, key: T -> string, m: map<string, seq<T>>, m': map<string, seq<T>>)
    requires s == init + [x]
    requires forall i :: 0 <= i < |init| ==> key(init[i]) in m
    requires m' == Push(m, key(x), x)
    ensures forall i :: 0 <= i < |s| ==> key(s[i]) in m'
  {
    forall i | 0 <= i < |s| ensures key(s[i]) in m' {
      if i < |init| {
        assert s[i] == init[i];
      }
    }
  }

  /** One push keeps the record equal to the filters of the longer list. */
  lemma GroupStep<T(!new)>(s: seq<T>, init: seq<T>, x: T, key: T -> string, m: map<string, seq<T>>, m': map<string, seq<T>>)
    requires s == init + [x]
    requires forall i :: 0 <= i < |init| ==> key(init[i]) in m
    requires forall k :: k in m ==> m[k] == Filter(init, KeyIs(key, k)) && |m[k]| > 0
    requires m' == Push(m, key(x), x)
    ensures forall k :: k in m' ==> m'[k] == Filter(s, KeyIs(key, k)) && |m'[k]| > 0
  {
    forall k | k in m' ensures m'[k] == Filter(s, KeyIs(key, k)) && |m'[k]| > 0 {
      GroupValueStep(init, x, key, m, k);
    }
  }

  /** The value under one key after the push. */
  lemma GroupValueStep<T(!new)>(init: seq<T>, x: T, key: T -> string, m: map<string, seq<T>>, k: string)
    requires forall i :: 0 <= i < |init| ==> key(init[i]) in m
    requires forall k :: k in m ==> m[k] == Filter(init, KeyIs(key, k))
    requires k in m || k == key(x)
    ensures (if k == key(x) then (if k in m then m[k] else []) + [x] else m[k])
            == Filter(init + [x], KeyIs(key, k))
  {
    FilterSnoc(init, x, KeyIs(key, k));
    if k !in m {
      FilterNone(init, KeyIs(key, k));
    }
  }

  /** `Object.keys` of that record: each key once, in order of first occurrence. */
  function KeysInOrder<T(!new)>(s: seq<T>, key: T -> string): (ks: seq<string>)
    ensures forall i, j :: 0 <= i < j < |ks| ==> ks[i] != ks[j]
    ensures forall k :: k in ks <==> exists i :: 0 <= i < |s| && key(s[i]) == k
    decreases |s|
  {
    if |s| == 0 then []
    else
      var init := s[..|s| - 1];
      var ks := KeysInOrder(init, key);
      var k := key(s[|s| - 1]);
      assert forall i :: 0 <= i < |init| ==> s[i] == init[i];
      if k in ks then ks else ks + [k]
  }

  predicate StrictlySorted(s: seq<string>) {
    forall i, j :: 0 <= i < j < |s| ==> LexLess(s[i], s[j])
  }

  /** Insert x at its place in a strictly increasing list that lacks it. */
  function Insert(x: string, s: seq<string>): (r: seq<string>)
    requires StrictlySorted(s) && x !in s
    ensures StrictlySorted(r)
    ensures multiset(r) == multiset(s) + multiset{x}
  {
    if |s| == 0 then [x]
    else if LexLess(x, s[0]) then
      assert forall j :: 0 <= j < |s| ==> LexLess(x, s[j]) by {
        forall j | 0 <= j < |s| ensures LexLess(x, s[j]) {
          if j > 0 { LexTransitive(x, s[0], s[j]); }
        }
      }
      [x] + s
    else
      LexTotal(x, s[0]);
      var rest := Insert(x, s[1..]);
      assert s == [s[0]] + s[1..];
      assert forall j :: 0 <= j < |rest| ==> LexLess(s[0], rest[j]) by {
        forall j | 0 <= j < |rest| ensures LexLess(s[0], rest[j]) {
          assert rest[j] in multiset(s[1..]) + multiset{x};
        }
      }
      [s[0]] + rest
  }

  /** The default `sort()` of distinct strings: ascending string order, by
      code point (the keys it sorts here are digits and dashes). */
  function SortKeys(keys: seq<string>): (r: seq<string>)
    requires forall i, j :: 0 <= i < j < |keys| ==> keys[i] != keys[j]
    ensures StrictlySorted(r)
    ensures multiset(r) == multiset(keys)
  {
    if |keys| == 0 then []
    else
      var init := keys[..|keys| - 1];
      var sorted := SortKeys(init);
      var last := keys[|keys| - 1];
      assert keys == init + [last];
      assert last !in init by {
        forall i | 0 <= i < |init| ensures init[i] != last {
          assert init[i] == keys[i];
        }
      }
      assert last !in multiset(init);
      assert last !in multiset(sorted);
      Insert(last, sorted)
  }

  // ---------------------------------------------------------------------------
  // The sorted groups
  // ---------------------------------------------------------------------------

  /** One rendered group: its key and the elements filed under it. */
  datatype Group<T> = Group(key: string, items: seq<T>)

  /** The record's keys sorted, each paired with its list: one group per key
      that occurs, by ascending key, each holding its elements in input order;
      no elements gives no groups. */
  function SortedGroups<T(!new)>(s: seq<T>, key: T -> string): (groups: seq<Group<T>>)
    ensures |groups| == 0 <==> |s| == 0
    ensures forall i, j :: 0 <= i < j < |groups| ==> LexLess(groups[i].key, groups[j].key)
    ensures forall i :: 0 <= i < |groups| ==>
              groups[i].items == Filter(s, KeyIs(key, groups[i].key)) && |groups[i].items| > 0
    ensures forall i :: 0 <= i < |s| ==> exists g :: 0 <= g < |groups| && groups[g].key == key(s[i])
  {
    var m := GroupByKey(s, key);
    var sorted := SortKeys(KeysInOrder(s, key));
    SameMembers(sorted, KeysInOrder(s, key));
    SortedKeysAreRecordKeys(s, key, sorted);
    var groups := Lookup(m, sorted);
    SortedGroupsItems(s, key, sorted, groups);
    SortedGroupsCover(s, key, sorted, groups);
    groups
  }

  /** Sequences with the same multiset have the same members. */
  lemma SameMembers(a: seq<string>, b: seq<string>)
    requires multiset(a) == multiset(b)
    ensures forall k :: k in a <==> k in b
  {
    forall k ensures k in a <==> k in b {
      assert k in a <==> k in multiset(a);
      assert k in b <==> k in multiset(b);
    }
  }

  /** The record's entries for the keys ks, in the order of ks. */
  function Lookup<T>(m: map<string, seq<T>>, ks: seq<string>): (groups: seq<Group<T>>)
    requires forall k :: k in ks ==> k in m
    ensures |groups| == |ks|
    ensures forall i :: 0 <= i < |ks| ==> groups[i] == Group(ks[i], m[ks[i]])
  {
    seq(|ks|, i requires 0 <= i < |ks| => Group(ks[i], m[ks[i]]))
  }

  /** The sorted keys are exactly the keys of the record. */
  lemma SortedKeysAreRecordKeys<T(!new)>(s: seq<T>, key: T -> string, sorted: seq<string>)
    requires forall k :: k in sorted <==> k in KeysInOrder(s, key)
    ensures forall k :: k in sorted ==> k in GroupByKey(s, key)
    ensures forall i :: 0 <= i < |s| ==> key(s[i]) in sorted
  {
    forall k | k in sorted ensures k in GroupByKey(s, key) {
      var i :| 0 <= i < |s| && key(s[i]) == k;
    }
  }

  /** Each group holds the record's list for its key. */
  lemma SortedGroupsItems<T(!new)>(s: seq<T>, key: T -> string, sorted: seq<string>, groups: seq<Group<T>>)
    requires forall k :: k in sorted ==> k in GroupByKey(s, key)
    requires |groups| == |sorted|
    requires forall i :: 0 <= i < |sorted| ==> groups[i] == Group(sorted[i], GroupByKey(s, key)[sorted[i]])
    ensures forall i :: 0 <= i < |groups| ==>
              groups[i].items == Filter(s, KeyIs(key, groups[i].key)) && |groups[i].items| > 0
  {
    GroupByKeyFilters(s, key);
  }

  /** Every element's key has a group. */
  lemma SortedGroupsCover<T(!new)>(s: seq<T>, key: T -> string, sorted: seq<string>, groups: seq<Group<T>>)
    requires |groups| == |sorted|
    requires forall i :: 0 <= i < |sorted| ==> groups[i].key == sorted[i]
    requires forall i :: 0 <= i < |s| ==> key(s[i]) in sorted
    requires |s| == 0 ==> |sorted| == 0
    ensures |groups| == 0 <==> |s| == 0
    ensures forall i :: 0 <= i < |s| ==> exists g :: 0 <= g < |groups| && groups[g].key == key(s[i])
  {
    forall i | 0 <= i < |s| ensures exists g :: 0 <= g < |groups| && groups[g].key == key(s[i]) {
      var g :| 0 <= g < |sorted| && sorted[g] == key(s[i]);
      assert groups[g].key == key(s[i]);
    }
    if |s| > 0 {
      assert key(s[0]) in sorted;
    }
  }

  /** The element lists of the groups, in group order. */
  function Items<T>(groups: seq<Group<T>>): (ss: seq<seq<T>>)
    ensures |ss| == |groups|
    ensures forall i :: 0 <= i < |groups| ==> ss[i] == groups[i].items
  {
    seq(|groups|, i requires 0 <= i < |groups| => groups[i].items)
  }

  /** The keys of the groups, in group order. */
  function GroupKeys<T>(groups: seq<Group<T>>): (ks: seq<string>)
    ensures |ks| == |groups|
    ensures forall i :: 0 <= i < |groups| ==> ks[i] == groups[i].key
  {
    seq(|groups|, i requires 0 <= i < |groups| => groups[i].key)
  }

  /** The filters of s for each key of ks, in the order of ks. */
  function FiltersFor<T(!new)>(s: seq<T>, key: T -> string, ks: seq<string>): (ss: seq<seq<T>>)
    ensures |ss| == |ks|
    ensures forall i :: 0 <= i < |ks| ==> ss[i] == Filter(s, KeyIs(key, ks[i]))
  {
    if |ks| == 0 then [] else [Filter(s, KeyIs(key, ks[0]))] + FiltersFor(s, key, ks[1..])
  }

  /** Elements whose key is one of ks. */
  function KeyIn<T(!new)>(key: T -> string, ks: seq<string>): (p: T -> bool)
    ensures forall x :: p(x) <==> key(x) in ks
  {
    x => key(x) in ks
  }

  /** Filtering by distinct keys one after another splits the elements whose
      key is among them: each such element lands in exactly one part. */
  lemma {:induction false} FiltersForSplit<T(!new)>(s: seq<T>, key: T -> string, ks: seq<string>)
    requires forall i, j :: 0 <= i < j < |ks| ==> ks[i] != ks[j]
    ensures multiset(Flatten(FiltersFor(s, key, ks))) == multiset(Filter(s, KeyIn(key, ks)))
  {
    if |ks| == 0 {
      FilterNone(s, KeyIn(key, ks));
    } else {
      var rest := ks[1..];
      FiltersForSplit(s, key, rest);
      assert ks[0] !in rest by {
        forall j | 0 <= j < |rest| ensures rest[j] != ks[0] {
          assert rest[j] == ks[j + 1];
        }
      }
      assert forall k :: k in ks <==> k == ks[0] || k in rest by {
        assert ks == [ks[0]] + rest;
      }
      FilterDisjointUnion(s, KeyIs(key, ks[0]), KeyIn(key, rest), KeyIn(key, ks));
    }
  }

  /** The groups partition the input: flattened, they hold every element
      exactly as often as the input does. */
  lemma SortedGroupsPartition<T(!new)>(s: seq<T>, key: T -> string)
    ensures multiset(Flatten(Items(SortedGroups(s, key)))) == multiset(s)
    ensures |Flatten(Items(SortedGroups(s, key)))| == |s|
  {
    var groups := SortedGroups(s, key);
    var ks := GroupKeys(groups);
    forall i, j | 0 <= i < j < |ks| ensures ks[i] != ks[j] {
      LexIrreflexive(ks[i]);
    }
    assert Items(groups) == FiltersFor(s, key, ks);
    FiltersForSplit(s, key, ks);
    forall i | 0 <= i < |s| ensures KeyIn(key, ks)(s[i]) {
      var g :| 0 <= g < |groups| && groups[g].key == key(s[i]);
      assert ks[g] == key(s[i]);
    }
    FilterAll(s, KeyIn(key, ks));
    assert |Flatten(Items(groups))| == |multiset(Flatten(Items(groups)))|;
  }
}
