/**
  The occurrence table of pipe.py, the global `domain_stats` dictionary and
  `create_statistics`, which counts one more occurrence of a domain name.
  A Python dictionary remembers the order in which its keys were first
  inserted, and the ranking relies on that order, so a table is its keys
  in insertion order together with their counts.
 */
module Counter {

  /** An insertion-ordered dictionary from domain names to counts. */
  datatype Table = Table(keys: seq<string>, counts: map<string, nat>)

  /** No key appears twice. */
  predicate Distinct(s: seq<string>)
  {
    forall i, j :: 0 <= i < j < |s| ==> s[i] != s[j]
  }

  /** Every key of `ks` has a count. */
  predicate Covers(ks: seq<string>, counts: map<string, nat>)
  {
    forall k :: k in ks ==> k in counts
  }

  /** The keys are distinct, they are exactly the mapped names, and every count is positive. */
  predicate WellFormed(t: Table)
  {
    && Distinct(t.keys)
    && (forall k :: k in t.counts ==> k in t.keys)
    && Covers(t.keys, t.counts)
    && (forall k :: k in t.counts ==> t.counts[k] >= 1)
  }

  /** The empty dictionary the program starts with. */
  const Empty: Table := Table([], map[])

  /**
    One more occurrence of `k`: its count goes up by one, or it is inserted
    with count 1 after all the existing keys.
   */
  function Bump(t: Table, k: string): (r: Table)
    ensures k in r.counts && r.counts[k] >= 1
  {
    if k in t.counts then Table(t.keys, t.counts[k := t.counts[k] + 1])
    else Table(t.keys + [k], t.counts[k := 1])
  }

  /**
    Counting `k` keeps a table well formed, raises the count of a known `k`
    by one and keeps the key order, inserts a new `k` last with count 1, and
    leaves every other name as it was.
   */
  lemma BumpProperties(t: Table, k: string)
    ensures WellFormed(t) ==> WellFormed(Bump(t, k))
    ensures k in t.counts ==> Bump(t, k).counts[k] == t.counts[k] + 1 && Bump(t, k).keys == t.keys
    ensures k !in t.counts ==> Bump(t, k).counts[k] == 1 && Bump(t, k).keys == t.keys + [k]
    ensures forall j :: j != k ==> (j in Bump(t, k).counts <==> j in t.counts)
    ensures forall j :: j != k && j in t.counts ==> Bump(t, k).counts[j] == t.counts[j]
  {
    var r := Bump(t, k);
    if WellFormed(t) && k !in t.counts {
      forall i, j | 0 <= i < j < |r.keys| ensures r.keys[i] != r.keys[j] {
        if j == |t.keys| {
          assert r.keys[i] == t.keys[i] && r.keys[i] in t.counts;
        } else {
          assert r.keys[i] == t.keys[i] && r.keys[j] == t.keys[j];
        }
      }
    }
  }

  /** The table after `create_statistics` was called once for each name of `h`, in order. */
  function Tally(h: seq<string>): (t: Table)
    ensures Covers(t.keys, t.counts)
    decreases |h|
  {
    if h == [] then Empty else Bump(Tally(h[..|h| - 1]), h[|h| - 1])
  }

  /** Counting from the empty dictionary always gives a well-formed table. */
  lemma {:induction false} TallyWellFormed(h: seq<string>)
    ensures WellFormed(Tally(h))
    decreases |h|
  {
    if h != [] {
      TallyWellFormed(h[..|h| - 1]);
      BumpProperties(Tally(h[..|h| - 1]), h[|h| - 1]);
    }
  }

  /** The index of the first occurrence of `x` in `h`. */
  function FirstIndex(h: seq<string>, x: string): (r: nat)
    requires x in h
    ensures r < |h| && h[r] == x
    ensures forall j :: 0 <= j < r ==> h[j] != x
  {
    if h[0] == x then 0 else 1 + FirstIndex(h[1..], x)
  }

  /** An index with no earlier occurrence of `x` is the first index of `x`. */
  lemma FirstIndexUnique(h: seq<string>, x: string, r: nat)
    requires r < |h| && h[r] == x
    requires forall j :: 0 <= j < r ==> h[j] != x
    ensures FirstIndex(h, x) == r
  {
  }

  /** Appending to `h` does not move a first occurrence, and a new name first occurs at the end. */
  lemma FirstIndexSnoc(p: seq<string>, x: string, y: string)
    requires y in p + [x]
    ensures y in p ==> FirstIndex(p + [x], y) == FirstIndex(p, y)
    ensures y !in p ==> FirstIndex(p + [x], y) == |p|
  {
    var h := p + [x];
    if y in p {
      var f := FirstIndex(p, y);
      assert h[f] == y;
      FirstIndexUnique(h, y, f);
    } else {
      assert forall j :: 0 <= j < |p| ==> h[j] == p[j];
      assert h[|p|] == x;
      FirstIndexUnique(h, y, |p|);
    }
  }

  /** Each name is mapped to the number of times it was counted, and only counted names are mapped. */
  lemma {:induction false} TallyCounts(h: seq<string>)
    ensures forall k :: k in Tally(h).counts <==> k in h
    ensures forall k :: k in Tally(h).counts ==> Tally(h).counts[k] == multiset(h)[k]
    decreases |h|
  {
    if h != [] {
      var p, x := h[..|h| - 1], h[|h| - 1];
      TallyCounts(p);
      BumpProperties(Tally(p), x);
      assert h == p + [x];
      assert multiset(h) == multiset(p) + multiset{x};
    }
  }

  /** The names of `ks` occur in `h`, and their first occurrences come in the order of `ks`. */
  predicate InFirstOccurrenceOrder(h: seq<string>, ks: seq<string>)
  {
    && (forall k :: k in ks ==> k in h)
    && forall i, j :: 0 <= i < j < |ks| && ks[i] in h && ks[j] in h ==>
      FirstIndex(h, ks[i]) < FirstIndex(h, ks[j])
  }

  /** Counting a name already seen keeps the keys and their first occurrences. */
  lemma KeyOrderKnownName(p: seq<string>, x: string, ks: seq<string>)
    requires InFirstOccurrenceOrder(p, ks)
    ensures InFirstOccurrenceOrder(p + [x], ks)
  {
    var h := p + [x];
    forall i, j | 0 <= i < j < |ks| && ks[i] in h && ks[j] in h
      ensures FirstIndex(h, ks[i]) < FirstIndex(h, ks[j])
    {
      FirstIndexSnoc(p, x, ks[i]);
      FirstIndexSnoc(p, x, ks[j]);
    }
  }

  /** Counting a new name appends it to the keys, and it first occurs after all of them. */
  lemma KeyOrderNewName(p: seq<string>, x: string, ks: seq<string>)
    requires InFirstOccurrenceOrder(p, ks) && x !in p
    ensures InFirstOccurrenceOrder(p + [x], ks + [x])
  {
    var h := p + [x];
    var ks1 := ks + [x];
    forall i, j | 0 <= i < j < |ks1| && ks1[i] in h && ks1[j] in h
      ensures FirstIndex(h, ks1[i]) < FirstIndex(h, ks1[j])
    {
      assert ks1[i] == ks[i];
      FirstIndexSnoc(p, x, ks1[i]);
      FirstIndexSnoc(p, x, ks1[j]);
      if j < |ks| {
        assert ks1[j] == ks[j];
      }
    }
  }

  /** Counting one more name keeps the keys in first-occurrence order. */
  lemma TallyKeyOrderStep(p: seq<string>, x: string)
    requires InFirstOccurrenceOrder(p, Tally(p).keys)
    requires forall k :: k in Tally(p).counts <==> k in p
    ensures InFirstOccurrenceOrder(p + [x], Tally(p + [x]).keys)
  {
    var h := p + [x];
    assert h[..|h| - 1] == p;
    if x in p {
      KeyOrderKnownName(p, x, Tally(p).keys);
    } else {
      KeyOrderNewName(p, x, Tally(p).keys);
    }
  }

  /**
    The keys are the counted names, each once, in the order in which they
    were first counted.
   */
  lemma {:induction false} TallyKeyOrder(h: seq<string>)
    ensures Distinct(Tally(h).keys)
    ensures forall k :: k in Tally(h).keys <==> k in h
    ensures InFirstOccurrenceOrder(h, Tally(h).keys)
    decreases |h|
  {
    TallyCounts(h);
    TallyWellFormed(h);
    if h != [] {
      var p, x := h[..|h| - 1], h[|h| - 1];
      TallyKeyOrder(p);
      TallyCounts(p);
      assert h == p + [x];
      TallyKeyOrderStep(p, x);
    }
  }

  /** The sum of the counts of `keys`. */
  function SumCounts(keys: seq<string>, counts: map<string, nat>): nat
    requires Covers(keys, counts)
    decreases |keys|
  {
    if keys == [] then 0
    else SumCounts(keys[..|keys| - 1], counts) + counts[keys[|keys| - 1]]
  }

  /** Counts of names outside `keys` do not enter their sum. */
  lemma {:induction false} SumCountsOther(keys: seq<string>, counts: map<string, nat>, k: string, n: nat)
    requires Covers(keys, counts)
    requires k !in keys
    ensures SumCounts(keys, counts[k := n]) == SumCounts(keys, counts)
    decreases |keys|
  {
    if keys != [] {
      SumCountsOther(keys[..|keys| - 1], counts, k, n);
    }
  }

  /** Adding one to the count of a key adds one to the sum. */
  lemma {:induction false} SumCountsIncrement(keys: seq<string>, counts: map<string, nat>, k: string)
    requires Covers(keys, counts)
    requires Distinct(keys) && k in keys
    ensures SumCounts(keys, counts[k := counts[k] + 1]) == SumCounts(keys, counts) + 1
    decreases |keys|
  {
    var p, last := keys[..|keys| - 1], keys[|keys| - 1];
    if last == k {
      assert k !in p;
      SumCountsOther(p, counts, k, counts[k] + 1);
    } else {
      assert k in p;
      SumCountsIncrement(p, counts, k);
    }
  }

  /** Counting one more name adds one to the sum of the counts. */
  lemma BumpSum(t: Table, x: string)
    requires WellFormed(t)
    ensures Covers(Bump(t, x).keys, Bump(t, x).counts)
    ensures SumCounts(Bump(t, x).keys, Bump(t, x).counts) == SumCounts(t.keys, t.counts) + 1
  {
    if x in t.counts {
      assert Bump(t, x) == Table(t.keys, t.counts[x := t.counts[x] + 1]);
      SumCountsIncrement(t.keys, t.counts, x);
    } else {
      var ks, cs := t.keys + [x], t.counts[x := 1];
      assert Bump(t, x) == Table(ks, cs);
      SumCountsOther(t.keys, t.counts, x, 1);
      assert ks[..|ks| - 1] == t.keys;
      assert SumCounts(ks, cs) == SumCounts(t.keys, cs) + 1;
    }
  }

  /** The counts add up to the number of names counted. */
  lemma {:induction false} TallySum(h: seq<string>)
    ensures SumCounts(Tally(h).keys, Tally(h).counts) == |h|
    decreases |h|
  {
    if h != [] {
      var p := h[..|h| - 1];
      TallySum(p);
      TallyWellFormed(p);
      BumpSum(Tally(p), h[|h| - 1]);
    }
  }

  /** The counts do not depend on the order in which the names arrive. */
  lemma TallyOrderIndependent(h1: seq<string>, h2: seq<string>)
    requires multiset(h1) == multiset(h2)
    ensures Tally(h1).counts == Tally(h2).counts
  {
    TallyCounts(h1);
    TallyCounts(h2);
    forall k ensures k in h1 <==> k in h2 {
      assert k in h1 <==> multiset(h1)[k] > 0;
      assert k in h2 <==> multiset(h2)[k] > 0;
    }
  }

  /** Counting one more name is one `Bump` of the table. */
  lemma TallySnoc(p: seq<string>, x: string)
    ensures Tally(p + [x]) == Bump(Tally(p), x)
  {
    assert (p + [x])[..|p|] == p;
  }

  /** The first four of the seven names of `TallyExample`. */
  lemma TallyExamplePrefix(com: string, de: string, fi: string)
    requires com != de && com != fi && de != fi
    ensures Tally([com, com, de, fi]) == Table([com, de, fi], map[com := 2, de := 1, fi := 1])
  {
    var h1 := [com];
    var h2 := h1 + [com];
    var h3 := h2 + [de];
    TallySnoc([], com);
    assert [] + [com] == h1;
    TallySnoc(h1, com);
    TallySnoc(h2, de);
    TallySnoc(h3, fi);
    assert Tally(h2) == Table([com], map[com := 2]);
    assert h3 + [fi] == [com, com, de, fi];
  }

  /**
    Seven names counted, as in the unit test that counts com, com, de, fi,
    com, cz, de: the keys in first-seen order and their occurrence counts.
   */
  lemma TallyExample(com: string, de: string, fi: string, cz: string)
    requires com != de && com != fi && com != cz && de != fi && de != cz && fi != cz
    ensures Tally([com, com, de, fi, com, cz, de])
      == Table([com, de, fi, cz], map[com := 3, de := 2, fi := 1, cz := 1])
  {
    var h4 := [com, com, de, fi];
    var h5 := h4 + [com];
    var h6 := h5 + [cz];
    TallyExamplePrefix(com, de, fi);
    TallySnoc(h4, com);
    TallySnoc(h5, cz);
    TallySnoc(h6, de);
    assert Tally(h5) == Table([com, de, fi], map[com := 3, de := 1, fi := 1]);
    assert Tally(h6) == Table([com, de, fi, cz], map[com := 3, de := 1, fi := 1, cz := 1]);
    assert h6 + [de] == [com, com, de, fi, com, cz, de];
  }

  /**
    The occurrence table: the dictionary's keys in insertion order, their
    counts, and, for the proofs, the names counted so far.
   */
  class DomainStats {
    var keys: seq<string>
    var counts: map<string, nat>
    ghost var recorded: seq<string>

    /** The dictionary is the one obtained by counting the recorded names in order. */
    ghost predicate Valid()
      reads this
    {
      Table(keys, counts) == Tally(recorded)
    }

    /** The empty dictionary of the program's start. */
    constructor()
      ensures Valid() && recorded == []
      ensures keys == [] && counts == map[]
    {
      keys := [];
      counts := map[];
      recorded := [];
    }

    /** Counts one more occurrence of `domain` and returns the updated dictionary. */
    method Record(domain: string) returns (t: Table)
      requires Valid()
      modifies this
      ensures Valid() && recorded == old(recorded) + [domain]
      ensures domain in old(counts) ==>
        keys == old(keys) && counts == old(counts)[domain := old(counts)[domain] + 1]
      ensures domain !in old(counts) ==>
        keys == old(keys) + [domain] && counts == old(counts)[domain := 1]
      ensures t == Table(keys, counts)
    {
      if domain in counts {
        counts := counts[domain := counts[domain] + 1];
      } else {
        keys := keys + [domain];
        counts := counts[domain := 1];
      }
      recorded := recorded + [domain];
      assert recorded[..|recorded| - 1] == old(recorded);
      t := Table(keys, counts);
    }

    /** Returns the dictionary, which is always well formed, and changes nothing. */
    method Snapshot() returns (t: Table)
      requires Valid()
      ensures t == Tally(recorded)
      ensures WellFormed(t)
    {
      TallyWellFormed(recorded);
      t := Table(keys, counts);
    }

    /**
      `create_statistics`: with `returnOnly` the dictionary is returned as it
      is, otherwise `topDomain` is counted first.
     */
    method CreateStatistics(topDomain: string, returnOnly: bool) returns (t: Table)
      requires Valid()
      modifies this
      ensures Valid()
      ensures recorded == if returnOnly then old(recorded) else old(recorded) + [topDomain]
      ensures returnOnly ==> keys == old(keys) && counts == old(counts)
      ensures t == Tally(recorded)
    {
      if returnOnly {
        t := Snapshot();
      } else {
        t := Record(topDomain);
      }
    }
  }
}
