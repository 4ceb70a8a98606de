/**
  The ranking of pipe.py, `sort_domains`: the dictionary's counts sorted in
  descending order, its keys sorted by their counts in descending order,
  and the two zipped into pairs. Python's `sorted` is stable, also with
  `reverse=True`: keys with equal counts keep their insertion order.
 */
module Ranker {
  import opened Counter

  /** The counts of `ks`, in the order of `ks`. */
  function CountsOf(ks: seq<string>, counts: map<string, nat>): (r: seq<nat>)
    requires Covers(ks, counts)
    ensures |r| == |ks| && forall i :: 0 <= i < |ks| ==> r[i] == counts[ks[i]]
    decreases |ks|
  {
    if ks == [] then [] else [counts[ks[0]]] + CountsOf(ks[1..], counts)
  }

  /** `unsorted_domains.values()`: the counts in insertion order. */
  function Values(t: Table): (r: seq<nat>)
    requires Covers(t.keys, t.counts)
    ensures |r| == |t.keys|
  {
    CountsOf(t.keys, t.counts)
  }

  /** Non-increasing. */
  predicate Descending(s: seq<nat>)
  {
    forall i, j :: 0 <= i < j < |s| ==> s[i] >= s[j]
  }

  /** Inserts `v` in front of the first element that is not greater. */
  function InsertValue(v: nat, s: seq<nat>): (r: seq<nat>)
    ensures |r| == |s| + 1
    ensures multiset(r) == multiset(s) + multiset{v}
    decreases |s|
  {
    if s == [] || v >= s[0] then [v] + s
    else
      assert s == [s[0]] + s[1..];
      [s[0]] + InsertValue(v, s[1..])
  }

  /** Inserting into a non-increasing sequence keeps it non-increasing. */
  lemma {:induction false} InsertValueDescending(v: nat, s: seq<nat>)
    requires Descending(s)
    ensures Descending(InsertValue(v, s))
    decreases |s|
  {
    if s != [] && v < s[0] {
      DescendingTail(s);
      InsertValueDescending(v, s[1..]);
      TailBounded(s);
      InsertValueBounded(v, s[1..], s[0]);
      DescendingCons(s[0], InsertValue(v, s[1..]));
    }
  }

  /** Inserting a value no larger than a bound keeps every element within the bound. */
  lemma InsertValueBounded(v: nat, s: seq<nat>, m: nat)
    requires v <= m && forall x :: x in s ==> x <= m
    ensures forall x :: x in InsertValue(v, s) ==> x <= m
  {
    var r := InsertValue(v, s);
    forall x | x in r ensures x <= m {
      assert x in multiset(r);
      assert x in multiset(s) + multiset{v};
      if x != v {
        assert x in multiset(s);
        assert x in s;
      }
    }
  }

  /** The head of a non-increasing sequence bounds its tail. */
  lemma TailBounded(s: seq<nat>)
    requires Descending(s) && s != []
    ensures forall x :: x in s[1..] ==> x <= s[0]
  {
    forall x | x in s[1..] ensures x <= s[0] {
      HeadIsMax(s, x);
    }
  }

  /** A value not below any element can go in front of a non-increasing sequence. */
  lemma DescendingCons(a: nat, s: seq<nat>)
    requires Descending(s) && forall x :: x in s ==> x <= a
    ensures Descending([a] + s)
  {
    var r := [a] + s;
    forall i, j | 0 <= i < j < |r| ensures r[i] >= r[j] {
      assert r[j] == s[j - 1] && s[j - 1] in s;
      if i > 0 {
        assert r[i] == s[i - 1];
      }
    }
  }

  /** `sorted(values, reverse=True)`. */
  function SortValues(vs: seq<nat>): (r: seq<nat>)
    ensures |r| == |vs|
    ensures multiset(r) == multiset(vs)
    ensures Descending(r)
    decreases |vs|
  {
    if vs == [] then []
    else
      assert vs == [vs[0]] + vs[1..];
      var rest := SortValues(vs[1..]);
      InsertValueDescending(vs[0], rest);
      InsertValue(vs[0], rest)
  }

  /**
    Inserts `k` in front of the first key whose count is not greater; it
    stays behind every key with a greater count.
   */
  function InsertKey(k: string, s: seq<string>, counts: map<string, nat>): (r: seq<string>)
    requires k in counts && Covers(s, counts)
    ensures |r| == |s| + 1 && Covers(r, counts)
    decreases |s|
  {
    if s == [] || counts[k] >= counts[s[0]] then [k] + s
    else [s[0]] + InsertKey(k, s[1..], counts)
  }

  /** Inserting a key adds exactly that key to the multiset of keys. */
  lemma {:induction false} InsertKeyPermutation(k: string, s: seq<string>, counts: map<string, nat>)
    requires k in counts && Covers(s, counts)
    ensures multiset(InsertKey(k, s, counts)) == multiset(s) + multiset{k}
    decreases |s|
  {
    if s != [] && counts[k] < counts[s[0]] {
      InsertKeyPermutation(k, s[1..], counts);
      assert s == [s[0]] + s[1..];
    }
  }

  /** `sorted(unsorted_domains, key=unsorted_domains.__getitem__, reverse=True)`. */
  function SortKeys(ks: seq<string>, counts: map<string, nat>): (r: seq<string>)
    requires Covers(ks, counts)
    ensures |r| == |ks| && Covers(r, counts)
    decreases |ks|
  {
    if ks == [] then [] else InsertKey(ks[0], SortKeys(ks[1..], counts), counts)
  }

  /** The sort only reorders the keys. */
  lemma {:induction false} SortKeysPermutation(ks: seq<string>, counts: map<string, nat>)
    requires Covers(ks, counts)
    ensures multiset(SortKeys(ks, counts)) == multiset(ks)
    decreases |ks|
  {
    if ks != [] {
      SortKeysPermutation(ks[1..], counts);
      InsertKeyPermutation(ks[0], SortKeys(ks[1..], counts), counts);
      assert ks == [ks[0]] + ks[1..];
    }
  }

  /** Inserting a key inserts its count at the same place among the counts. */
  lemma {:induction false} CountsOfInsertKey(k: string, s: seq<string>, counts: map<string, nat>)
    requires k in counts && Covers(s, counts)
    ensures CountsOf(InsertKey(k, s, counts), counts) == InsertValue(counts[k], CountsOf(s, counts))
    decreases |s|
  {
    if s != [] && counts[k] < counts[s[0]] {
      CountsOfInsertKey(k, s[1..], counts);
      var r := InsertKey(k, s, counts);
      assert r[1..] == InsertKey(k, s[1..], counts);
      assert CountsOf(r, counts) == [counts[s[0]]] + CountsOf(r[1..], counts);
    }
  }

  /** Sorting the keys by count sorts their counts. */
  lemma {:induction false} CountsOfSortKeys(ks: seq<string>, counts: map<string, nat>)
    requires Covers(ks, counts)
    ensures CountsOf(SortKeys(ks, counts), counts) == SortValues(CountsOf(ks, counts))
    decreases |ks|
  {
    if ks != [] {
      CountsOfSortKeys(ks[1..], counts);
      var rest := SortKeys(ks[1..], counts);
      CountsOfInsertKey(ks[0], rest, counts);
      assert CountsOf(ks, counts)[1..] == CountsOf(ks[1..], counts);
    }
  }

  /** The first element of a non-increasing sequence is its largest. */
  lemma HeadIsMax(s: seq<nat>, x: nat)
    requires Descending(s) && x in s
    ensures s[0] >= x
  {
    var i :| 0 <= i < |s| && s[i] == x;
    assert i == 0 || s[0] >= s[i];
  }

  /** Two non-increasing arrangements of the same counts start with the same count. */
  lemma SameHead(s: seq<nat>, t: seq<nat>)
    requires Descending(s) && Descending(t) && multiset(s) == multiset(t) && s != []
    ensures t != [] && s[0] == t[0]
  {
    assert s[0] in multiset(t);
    assert t != [];
    assert t[0] in multiset(s);
    HeadIsMax(s, t[0]);
    HeadIsMax(t, s[0]);
  }

  /** Dropping the head of a non-increasing sequence keeps it non-increasing and removes one copy of the head. */
  lemma DescendingTail(s: seq<nat>)
    requires Descending(s) && s != []
    ensures Descending(s[1..])
    ensures multiset(s[1..]) == multiset(s) - multiset{s[0]}
  {
    assert s == [s[0]] + s[1..];
  }

  /**
    A non-increasing order of a collection of counts is unique: however the
    counts are sorted, the result is the same.
   */
  lemma {:induction false} DescendingUnique(s: seq<nat>, t: seq<nat>)
    requires Descending(s) && Descending(t) && multiset(s) == multiset(t)
    ensures s == t
    decreases |s|
  {
    if s == [] {
      assert |t| == |multiset(t)|;
    } else {
      SameHead(s, t);
      DescendingTail(s);
      DescendingTail(t);
      DescendingUnique(s[1..], t[1..]);
      assert s == [s[0]] + s[1..] && t == [t[0]] + t[1..];
    }
  }

  /** The keys of `s` whose count is `c`, in the order of `s`. */
  function WithCount(s: seq<string>, counts: map<string, nat>, c: nat): (r: seq<string>)
    requires Covers(s, counts)
    decreases |s|
  {
    if s == [] then []
    else (if counts[s[0]] == c then [s[0]] else []) + WithCount(s[1..], counts, c)
  }

  /** The keys with count `c` of a non-empty sequence: its head if it has that count, then those of its tail. */
  lemma WithCountCons(s: seq<string>, counts: map<string, nat>, c: nat)
    requires Covers(s, counts) && s != []
    ensures WithCount(s, counts, c)
      == (if counts[s[0]] == c then [s[0]] else []) + WithCount(s[1..], counts, c)
  {
  }

  /** Inserting a key puts it in front of the keys with the same count and moves no other key. */
  lemma {:induction false} WithCountInsertKey(k: string, s: seq<string>, counts: map<string, nat>, c: nat)
    requires k in counts && Covers(s, counts)
    ensures WithCount(InsertKey(k, s, counts), counts, c)
      == (if counts[k] == c then [k] else []) + WithCount(s, counts, c)
    decreases |s|
  {
    var r := InsertKey(k, s, counts);
    WithCountCons(r, counts, c);
    if s == [] || counts[k] >= counts[s[0]] {
      assert r[0] == k && r[1..] == s;
    } else {
      var r' := InsertKey(k, s[1..], counts);
      WithCountInsertKey(k, s[1..], counts, c);
      WithCountCons(s, counts, c);
      assert r[0] == s[0] && r[1..] == r';
    }
  }

  /**
    The sort is stable: the keys that share a count come out in the order
    in which they went in.
   */
  lemma {:induction false} SortKeysStable(ks: seq<string>, counts: map<string, nat>, c: nat)
    requires Covers(ks, counts)
    ensures Covers(SortKeys(ks, counts), counts)
    ensures WithCount(SortKeys(ks, counts), counts, c) == WithCount(ks, counts, c)
    decreases |ks|
  {
    if ks != [] {
      SortKeysStable(ks[1..], counts, c);
      var rest := SortKeys(ks[1..], counts);
      WithCountInsertKey(ks[0], rest, counts, c);
    }
  }

  /** `zip`: pairs of elements at the same index, as many as the shorter input has. */
  function Zip(ks: seq<string>, vs: seq<nat>): (r: seq<(string, nat)>)
    ensures |r| == if |ks| <= |vs| then |ks| else |vs|
    ensures forall i :: 0 <= i < |r| ==> r[i] == (ks[i], vs[i])
    decreases |ks|
  {
    if ks == [] || vs == [] then [] else [(ks[0], vs[0])] + Zip(ks[1..], vs[1..])
  }

  /** The names of a ranking, in order. */
  function Names(r: seq<(string, nat)>): (ns: seq<string>)
    ensures |ns| == |r| && forall i :: 0 <= i < |r| ==> ns[i] == r[i].0
  {
    seq(|r|, i requires 0 <= i < |r| => r[i].0)
  }

  /**
    `sort_domains`: the keys sorted by count, zipped with the sorted counts.
    Each pair holds a key and its own count.
   */
  function SortDomains(t: Table): (r: seq<(string, nat)>)
    requires Covers(t.keys, t.counts)
    ensures |r| == |t.keys|
    ensures forall i :: 0 <= i < |r| ==> r[i].0 in t.counts && r[i].1 == t.counts[r[i].0]
  {
    CountsOfSortKeys(t.keys, t.counts);
    Zip(SortKeys(t.keys, t.counts), SortValues(Values(t)))
  }

  /** The ranked names are the keys in the order the key sort puts them. */
  lemma SortDomainsNames(t: Table)
    requires Covers(t.keys, t.counts)
    ensures Names(SortDomains(t)) == SortKeys(t.keys, t.counts)
  {
    var r := SortDomains(t);
    var ks := SortKeys(t.keys, t.counts);
    assert |r| == |ks|;
    assert forall i :: 0 <= i < |r| ==> r[i].0 == ks[i];
  }

  /** The ranking lists every key of the dictionary, once per occurrence in its key list. */
  lemma SortDomainsPermutation(t: Table)
    requires Covers(t.keys, t.counts)
    ensures multiset(Names(SortDomains(t))) == multiset(t.keys)
  {
    SortDomainsNames(t);
    SortKeysPermutation(t.keys, t.counts);
  }

  /** Counts never increase along the ranking. */
  lemma SortDomainsDescending(t: Table)
    requires Covers(t.keys, t.counts)
    ensures forall i, j :: 0 <= i < j < |SortDomains(t)| ==> SortDomains(t)[i].1 >= SortDomains(t)[j].1
  {
    var r := SortDomains(t);
    var vs := SortValues(Values(t));
    assert forall i :: 0 <= i < |r| ==> r[i].1 == vs[i];
  }

  /** Keys with equal counts are ranked in insertion order. */
  lemma SortDomainsStable(t: Table, c: nat)
    requires Covers(t.keys, t.counts)
    ensures Covers(Names(SortDomains(t)), t.counts)
    ensures WithCount(Names(SortDomains(t)), t.counts, c) == WithCount(t.keys, t.counts, c)
  {
    SortDomainsNames(t);
    SortKeysStable(t.keys, t.counts, c);
  }

  /**
    The sorted counts are the only non-increasing arrangement of the
    dictionary's counts: `sorted` could be replaced by any other sort.
   */
  lemma SortValuesUnique(vs: seq<nat>, r: seq<nat>)
    requires Descending(r) && multiset(r) == multiset(vs)
    ensures r == SortValues(vs)
  {
    DescendingUnique(r, SortValues(vs));
  }

  /** A key whose count is at least the head's goes in front. */
  lemma InsertKeyBefore(k: string, s: seq<string>, counts: map<string, nat>)
    requires k in counts && Covers(s, counts)
    requires s == [] || counts[k] >= counts[s[0]]
    ensures InsertKey(k, s, counts) == [k] + s
  {
  }

  /** A key whose count is below the head's goes after the head. */
  lemma InsertKeyAfter(k: string, x: string, s: seq<string>, counts: map<string, nat>)
    requires k in counts && x in counts && Covers(s, counts)
    requires counts[k] < counts[x]
    ensures InsertKey(k, [x] + s, counts) == [x] + InsertKey(k, s, counts)
  {
    assert ([x] + s)[1..] == s;
  }

  /** Sorting a key list inserts its head into the sorted tail. */
  lemma SortKeysCons(k: string, ks: seq<string>, counts: map<string, nat>)
    requires k in counts && Covers(ks, counts)
    ensures SortKeys([k] + ks, counts) == InsertKey(k, SortKeys(ks, counts), counts)
  {
    assert ([k] + ks)[1..] == ks;
  }

  /** The four least frequent of six domains, sorted. */
  lemma SortKeysExampleTail(com: string, az: string, net: string, de: string, org: string,
                            counts: map<string, nat>)
    requires az != net && az != de && az != org
    requires net != de && net != org && de != org
    requires com in counts && az in counts && net in counts && de in counts && org in counts
    requires counts[com] == 57 && counts[az] == 7 && counts[net] == 1 && counts[de] == 3 && counts[org] == 5
    ensures SortKeys([az, net, de, org], counts) == [az, org, de, net]
  {
    var k5 := [org];
    var k4 := [de] + k5;
    var k3 := [net] + k4;
    var k2 := [az] + k3;
    SortKeysCons(org, [], counts);
    InsertKeyBefore(org, [], counts);
    assert [org] + [] == k5;
    SortKeysCons(de, k5, counts);
    InsertKeyAfter(de, org, [], counts);
    InsertKeyBefore(de, [], counts);
    var s4 := [org] + [de];
    assert SortKeys(k4, counts) == s4;
    SortKeysCons(net, k4, counts);
    InsertKeyAfter(net, org, [de], counts);
    InsertKeyAfter(net, de, [], counts);
    InsertKeyBefore(net, [], counts);
    var s3 := [org] + ([de] + [net]);
    assert SortKeys(k3, counts) == s3;
    SortKeysCons(az, k3, counts);
    InsertKeyBefore(az, s3, counts);
    assert k2 == [az, net, de, org];
    assert [az] + s3 == [az, org, de, net];
  }

  /** The keys of six domains with distinct counts, sorted from the most to the least frequent. */
  lemma SortKeysExample(ba: string, com: string, az: string, net: string, de: string, org: string,
                        counts: map<string, nat>)
    requires ba != com && ba != az && ba != net && ba != de && ba != org
    requires com != az && com != net && com != de && com != org
    requires az != net && az != de && az != org
    requires net != de && net != org && de != org
    requires ba in counts && com in counts && az in counts && net in counts && de in counts && org in counts
    requires counts[ba] == 38 && counts[com] == 57 && counts[az] == 7
    requires counts[net] == 1 && counts[de] == 3 && counts[org] == 5
    ensures SortKeys([ba, com, az, net, de, org], counts) == [com, ba, az, org, de, net]
  {
    var k2 := [az, net, de, org];
    var s2 := [az, org, de, net];
    SortKeysExampleTail(com, az, net, de, org, counts);
    var k1 := [com] + k2;
    var k0 := [ba] + k1;
    SortKeysCons(com, k2, counts);
    InsertKeyBefore(com, s2, counts);
    SortKeysCons(ba, k1, counts);
    InsertKeyAfter(ba, com, s2, counts);
    InsertKeyBefore(ba, s2, counts);
    assert k0 == [ba, com, az, net, de, org];
    assert [com] + ([ba] + s2) == [com, ba, az, org, de, net];
  }

  /** Once the key order is known, the ranking pairs each key with its count. */
  lemma SortDomainsPairs(t: Table, ks: seq<string>)
    requires Covers(t.keys, t.counts) && SortKeys(t.keys, t.counts) == ks
    ensures |SortDomains(t)| == |ks|
    ensures forall i :: 0 <= i < |ks| ==> ks[i] in t.counts && SortDomains(t)[i] == (ks[i], t.counts[ks[i]])
  {
    SortDomainsNames(t);
  }

  /**
    Six domains with distinct counts (com 57, ba 38, az 7, org 5, de 3,
    net 1), ranked from the most to the least frequent.
   */
  lemma SortDomainsExample(ba: string, com: string, az: string, net: string, de: string, org: string,
                           counts: map<string, nat>)
    requires ba != com && ba != az && ba != net && ba != de && ba != org
    requires com != az && com != net && com != de && com != org
    requires az != net && az != de && az != org
    requires net != de && net != org && de != org
    requires ba in counts && com in counts && az in counts && net in counts && de in counts && org in counts
    requires counts[ba] == 38 && counts[com] == 57 && counts[az] == 7
    requires counts[net] == 1 && counts[de] == 3 && counts[org] == 5
    ensures var r := SortDomains(Table([ba, com, az, net, de, org], counts));
      && |r| == 6
      && r[0] == (com, 57) && r[1] == (ba, 38) && r[2] == (az, 7)
      && r[3] == (org, 5) && r[4] == (de, 3) && r[5] == (net, 1)
  {
    var t := Table([ba, com, az, net, de, org], counts);
    SortKeysExample(ba, com, az, net, de, org, counts);
    SortDomainsPairs(t, [com, ba, az, org, de, net]);
  }
}
