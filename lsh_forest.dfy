/** The bucket tables of the two LSH forests, simhashlsh/lshforest.go and
    minhashlsh/lshforest.go, which carry the same code: keys are first
    gathered in a map from hash key to keys (`initHashTable`), `Index` turns
    each map into a slice of buckets sorted by hash key, and a query finds
    with `sort.Search` the first bucket whose hash-key prefix is not below
    the query key and reads every following bucket whose prefix equals it. */
module LshForest {
  import Unionability
  import opened Seqs

  datatype Bucket = Bucket(hashKey: string, keys: seq<string>)

  /** Go's `<` on strings: lexicographic order of the bytes */
  predicate Less(a: string, b: string)
    decreases |a|
  {
    if a == [] then b != []
    else b != [] && (a[0] < b[0] || (a[0] == b[0] && Less(a[1..], b[1..])))
  }

  /** Go's `a <= b` on strings */
  predicate LessEq(a: string, b: string)
  {
    !Less(b, a)
  }

  lemma {:induction false} LessTrichotomy(a: string, b: string)
    ensures a == b || Less(a, b) || Less(b, a)
    ensures !(Less(a, b) && Less(b, a))
    ensures !Less(a, a)
    decreases |a|
  {
    if a != [] && b != [] {
      LessTrichotomy(a[1..], b[1..]);
      if a[0] == b[0] && a[1..] == b[1..] {
        assert a == [a[0]] + a[1..] && b == [b[0]] + b[1..];
      }
    } else if a != [] {
      LessTrichotomy(a[1..], a[1..]);
    }
  }

  lemma {:induction false} LessTransitive(a: string, b: string, c: string)
    requires Less(a, b) && Less(b, c)
    ensures Less(a, c)
    decreases |a|
  {
    if a != [] && a[0] == b[0] && b[0] == c[0] {
      LessTransitive(a[1..], b[1..], c[1..]);
    }
  }

  lemma LessEqTransitive(a: string, b: string, c: string)
    requires LessEq(a, b) && LessEq(b, c)
    ensures LessEq(a, c)
  {
    LessTrichotomy(a, b);
    LessTrichotomy(b, c);
    LessTrichotomy(a, c);
    if Less(a, b) && Less(b, c) {
      LessTransitive(a, b, c);
    }
  }

  lemma LessEqLess(a: string, b: string, c: string)
    requires LessEq(a, b) && Less(b, c)
    ensures Less(a, c)
  {
    LessTrichotomy(a, b);
    if a != b {
      LessTransitive(a, b, c);
    }
  }

  lemma LessLessEq(a: string, b: string, c: string)
    requires Less(a, b) && LessEq(b, c)
    ensures Less(a, c)
  {
    LessTrichotomy(b, c);
    if b != c {
      LessTransitive(a, b, c);
    }
  }

  /** Cutting two ordered strings to the same length keeps them ordered:
      sorting by hash key also sorts by every hash-key prefix. */
  lemma {:induction false} PrefixMonotone(a: string, b: string, n: nat)
    requires LessEq(a, b) && n <= |a| && n <= |b|
    ensures LessEq(a[..n], b[..n])
    decreases n
  {
    if n > 0 {
      LessTrichotomy(a, b);
      assert a[..n][1..] == a[1..][..n - 1] && b[..n][1..] == b[1..][..n - 1];
      if a[0] == b[0] {
        PrefixMonotone(a[1..], b[1..], n - 1);
      } else {
        LessTrichotomy(a[..n], b[..n]);
      }
    }
  }

  /** buckets in non-decreasing order of hash key, as `sort.Sort` leaves a
      `hashTable` */
  predicate Sorted(ht: seq<Bucket>)
  {
    forall i, j :: 0 <= i < j < |ht| ==> LessEq(ht[i].hashKey, ht[j].hashKey)
  }

  /** every hash key is long enough to take its first n bytes */
  predicate KeysLong(ht: seq<Bucket>, n: nat)
  {
    forall x :: 0 <= x < |ht| ==> n <= |ht[x].hashKey|
  }

  /** b placed after every bucket whose hash key is not above its own */
  function InsertBucket(sorted: seq<Bucket>, b: Bucket): (r: seq<Bucket>)
    ensures multiset(r) == multiset(sorted) + multiset{b}
  {
    if sorted == [] || LessEq(sorted[|sorted| - 1].hashKey, b.hashKey) then sorted + [b]
    else
      assert sorted == sorted[..|sorted| - 1] + [sorted[|sorted| - 1]];
      InsertBucket(sorted[..|sorted| - 1], b) + [sorted[|sorted| - 1]]
  }

  lemma AppendSorted(s: seq<Bucket>, last: Bucket)
    requires Sorted(s)
    requires forall i :: 0 <= i < |s| ==> LessEq(s[i].hashKey, last.hashKey)
    ensures Sorted(s + [last])
  {
    var r := s + [last];
    forall i, j | 0 <= i < j < |r| ensures LessEq(r[i].hashKey, r[j].hashKey) {
      assert r[i] == s[i];
    }
  }

  lemma {:induction false} InsertBucketSorted(sorted: seq<Bucket>, b: Bucket)
    requires Sorted(sorted)
    ensures Sorted(InsertBucket(sorted, b))
  {
    if sorted != [] {
      var front, last := sorted[..|sorted| - 1], sorted[|sorted| - 1];
      if LessEq(last.hashKey, b.hashKey) {
        forall i | 0 <= i < |sorted| ensures LessEq(sorted[i].hashKey, b.hashKey) {
          if i < |sorted| - 1 {
            LessEqTransitive(sorted[i].hashKey, last.hashKey, b.hashKey);
          }
        }
        AppendSorted(sorted, b);
      } else {
        InsertBucketSorted(front, b);
        var mid := InsertBucket(front, b);
        LessTrichotomy(b.hashKey, last.hashKey);
        forall i | 0 <= i < |mid| ensures LessEq(mid[i].hashKey, last.hashKey) {
          assert mid[i] in multiset(mid);
          if mid[i] != b {
            assert mid[i] in multiset(front);
            var j :| 0 <= j < |front| && front[j] == mid[i];
            assert sorted[j] == mid[i];
          }
        }
        AppendSorted(mid, last);
      }
    }
  }

  /** `sort.Sort(ht)`: the buckets rearranged into hash-key order (an
      insertion sort; Go's sort is not stable either, so the order of
      buckets with equal hash keys is not part of the contract) */
  method SortBuckets(s: seq<Bucket>) returns (r: seq<Bucket>)
    ensures Sorted(r) && multiset(r) == multiset(s)
  {
    r := [];
    var i := 0;
    while i < |s|
      invariant 0 <= i <= |s|
      invariant Sorted(r) && multiset(r) == multiset(s[..i])
    {
      InsertBucketSorted(r, s[i]);
      r := InsertBucket(r, s[i]);
      assert s[..i + 1] == s[..i] + [s[i]];
      i := i + 1;
    }
    assert s[..i] == s;
  }

  /** one bucket per key of the bootstrapping map, in the given order */
  function Buckets(order: seq<string>, init: map<string, seq<string>>): (r: seq<Bucket>)
    requires forall h :: h in order ==> h in init
    ensures |r| == |order| && forall i :: 0 <= i < |r| ==> r[i] == Bucket(order[i], init[order[i]])
  {
    if order == [] then [] else Buckets(order[..|order| - 1], init) + [Bucket(order[|order| - 1], init[order[|order| - 1]])]
  }

  /** `Index` on one table: the buckets already there and one bucket per
      entry of the bootstrapping map (visited in the map's order, which Go
      leaves unspecified and which `order` records), sorted by hash key */
  method IndexTable(ht: seq<Bucket>, init: map<string, seq<string>>) returns (r: seq<Bucket>, ghost order: seq<string>)
    ensures Unionability.NoDuplicates(order) && forall h :: h in order <==> h in init
    ensures Sorted(r) && multiset(r) == multiset(ht + Buckets(order, init))
    ensures forall b :: b in r <==> b in ht || (b.hashKey in init && init[b.hashKey] == b.keys)
  {
    var all := ht;
    var rest := init.Keys;
    order := [];
    while rest != {}
      invariant rest <= init.Keys
      invariant Unionability.NoDuplicates(order)
      invariant forall h :: h in order <==> h in init && h !in rest
      invariant all == ht + Buckets(order, init)
      decreases |rest|
    {
      var h :| h in rest;
      assert Buckets(order + [h], init) == Buckets(order, init) + [Bucket(h, init[h])];
      all := all + [Bucket(h, init[h])];
      order := order + [h];
      rest := rest - {h};
    }
    r := SortBuckets(all);
    IndexedMembers(ht, init, order, r);
  }

  lemma IndexedMembers(ht: seq<Bucket>, init: map<string, seq<string>>, order: seq<string>, r: seq<Bucket>)
    requires forall h :: h in order <==> h in init
    requires multiset(r) == multiset(ht + Buckets(order, init))
    ensures forall b :: b in r <==> b in ht || (b.hashKey in init && init[b.hashKey] == b.keys)
  {
    var all := ht + Buckets(order, init);
    SameMembers(r, all);
    BucketsFromInit(order, init);
    InitInBuckets(order, init);
  }

  /** the buckets made from the map are its entries */
  lemma BucketsFromInit(order: seq<string>, init: map<string, seq<string>>)
    requires forall h :: h in order ==> h in init
    ensures forall b :: b in Buckets(order, init) ==> b.hashKey in init && init[b.hashKey] == b.keys
  {
  }

  /** every entry of the map is a bucket made from it */
  lemma InitInBuckets(order: seq<string>, init: map<string, seq<string>>)
    requires forall h :: h in order <==> h in init
    ensures forall b: Bucket :: b.hashKey in init && init[b.hashKey] == b.keys ==> b in Buckets(order, init)
  {
    forall b: Bucket | b.hashKey in init && init[b.hashKey] == b.keys ensures b in Buckets(order, init) {
      var i :| 0 <= i < |order| && order[i] == b.hashKey;
      assert Buckets(order, init)[i] == b;
    }
  }


  /** one bucket's contribution to a probe: its keys when its first n bytes
      are hk */
  predicate Matches(b: Bucket, n: nat, hk: string)
  {
    n <= |b.hashKey| && b.hashKey[..n] == hk
  }

  /** the keys of every bucket whose first n hash-key bytes are hk, table
      order */
  function Matching(ht: seq<Bucket>, n: nat, hk: string): seq<string>
  {
    if ht == [] then []
    else Matching(ht[..|ht| - 1], n, hk) + (if Matches(ht[|ht| - 1], n, hk) then ht[|ht| - 1].keys else [])
  }

  /** A key is found exactly when it is in a matching bucket. */
  lemma {:induction false} MatchingMembers(ht: seq<Bucket>, n: nat, hk: string, key: string)
    ensures key in Matching(ht, n, hk) <==> exists x :: 0 <= x < |ht| && Matches(ht[x], n, hk) && key in ht[x].keys
  {
    if ht != [] {
      var front := ht[..|ht| - 1];
      MatchingMembers(front, n, hk, key);
      if exists x :: 0 <= x < |ht| && Matches(ht[x], n, hk) && key in ht[x].keys {
        var x :| 0 <= x < |ht| && Matches(ht[x], n, hk) && key in ht[x].keys;
        if x < |front| {
          assert front[x] == ht[x];
        }
      }
      if key in Matching(front, n, hk) {
        var x :| 0 <= x < |front| && Matches(front[x], n, hk) && key in front[x].keys;
        assert ht[x] == front[x];
      }
    }
  }

  /** A bucket matching the first n bytes of hk also matches its first m
      bytes, for m <= n: a shorter prefix finds at least as much. */
  lemma MatchingShorter(ht: seq<Bucket>, n: nat, m: nat, hk: string, key: string)
    requires m <= n && key in Matching(ht, n, hk)
    ensures m <= |hk| && key in Matching(ht, m, hk[..m])
  {
    MatchingMembers(ht, n, hk, key);
    var x :| 0 <= x < |ht| && Matches(ht[x], n, hk) && key in ht[x].keys;
    var h := ht[x].hashKey;
    assert h[..n][..m] == h[..m];
    MatchingMembers(ht, m, hk[..m], key);
  }

  /** Buckets past j that do not match add nothing. */
  lemma {:induction false} MatchingTail(ht: seq<Bucket>, n: nat, hk: string, j: nat)
    requires j <= |ht|
    requires forall x :: j <= x < |ht| ==> !Matches(ht[x], n, hk)
    ensures Matching(ht, n, hk) == Matching(ht[..j], n, hk)
  {
    if j < |ht| {
      var front := ht[..|ht| - 1];
      assert front[..j] == ht[..j];
      MatchingTail(front, n, hk, j);
    } else {
      assert ht[..j] == ht;
    }
  }

  /** Below a bucket whose prefix is under hk, every prefix is under hk. */
  lemma PrefixBelow(ht: seq<Bucket>, n: nat, hk: string, h: nat)
    requires Sorted(ht) && KeysLong(ht, n) && h < |ht|
    requires Less(ht[h].hashKey[..n], hk)
    ensures forall x :: 0 <= x <= h ==> Less(ht[x].hashKey[..n], hk)
  {
    forall x | 0 <= x < h ensures Less(ht[x].hashKey[..n], hk) {
      PrefixMonotone(ht[x].hashKey, ht[h].hashKey, n);
      LessEqLess(ht[x].hashKey[..n], ht[h].hashKey[..n], hk);
    }
  }

  /** Above a bucket whose prefix is not under hk, no prefix is under hk. */
  lemma PrefixAbove(ht: seq<Bucket>, n: nat, hk: string, h: nat)
    requires Sorted(ht) && KeysLong(ht, n) && h < |ht|
    requires LessEq(hk, ht[h].hashKey[..n])
    ensures forall x :: h <= x < |ht| ==> LessEq(hk, ht[x].hashKey[..n])
  {
    forall x | h < x < |ht| ensures LessEq(hk, ht[x].hashKey[..n]) {
      PrefixMonotone(ht[h].hashKey, ht[x].hashKey, n);
      LessEqTransitive(hk, ht[h].hashKey[..n], ht[x].hashKey[..n]);
    }
  }

  /** Above a bucket whose prefix is strictly over hk, nothing matches. */
  lemma PrefixPast(ht: seq<Bucket>, n: nat, hk: string, h: nat)
    requires Sorted(ht) && KeysLong(ht, n) && h < |ht|
    requires Less(hk, ht[h].hashKey[..n])
    ensures forall x :: h <= x < |ht| ==> !Matches(ht[x], n, hk)
  {
    forall x | h <= x < |ht| ensures !Matches(ht[x], n, hk) {
      if x > h {
        PrefixMonotone(ht[h].hashKey, ht[x].hashKey, n);
        LessLessEq(hk, ht[h].hashKey[..n], ht[x].hashKey[..n]);
      }
      LessTrichotomy(hk, ht[x].hashKey[..n]);
    }
  }

  /** `sort.Search(len(ht), func(x) { ht[x].hashKey[:n] >= hk })`: the
      binary search for the first bucket whose n-byte prefix is not below
      hk */
  method SearchFirst(ht: seq<Bucket>, n: nat, hk: string) returns (i: nat)
    requires Sorted(ht) && KeysLong(ht, n)
    ensures i <= |ht|
    ensures forall x :: 0 <= x < i ==> Less(ht[x].hashKey[..n], hk)
    ensures forall x :: i <= x < |ht| ==> LessEq(hk, ht[x].hashKey[..n])
  {
    var lo, hi := 0, |ht|;
    while lo < hi
      invariant 0 <= lo <= hi <= |ht|
      invariant forall x :: 0 <= x < lo ==> Less(ht[x].hashKey[..n], hk)
      invariant forall x :: hi <= x < |ht| ==> LessEq(hk, ht[x].hashKey[..n])
    {
      var h := (lo + hi) / 2;
      if Less(ht[h].hashKey[..n], hk) {
        PrefixBelow(ht, n, hk, h);
        lo := h + 1;
      } else {
        PrefixAbove(ht, n, hk, h);
        hi := h;
      }
    }
    i := lo;
  }

  /** one table's probe: from the bucket `sort.Search` finds, the keys of
      every bucket whose n-byte prefix equals hk; they are all the keys of
      the matching buckets of the table */
  method Probe(ht: seq<Bucket>, n: nat, hk: string) returns (found: seq<string>)
    requires Sorted(ht) && KeysLong(ht, n)
    ensures found == Matching(ht, n, hk)
  {
    var start := SearchFirst(ht, n, hk);
    NoneBefore(ht, n, hk, start);
    found := [];
    if start < |ht| && ht[start].hashKey[..n] == hk {
      var j := start;
      while j < |ht| && ht[j].hashKey[..n] == hk
        invariant start <= j <= |ht|
        invariant found == Matching(ht[..j], n, hk)
      {
        MatchingStep(ht, n, hk, j);
        found := found + ht[j].keys;
        j := j + 1;
      }
      NoneAfter(ht, n, hk, j);
    } else {
      NoneAfter(ht, n, hk, start);
    }
  }

  /** Buckets whose prefix sorts before hk match nothing. */
  lemma NoneBefore(ht: seq<Bucket>, n: nat, hk: string, start: nat)
    requires start <= |ht| && KeysLong(ht, n)
    requires forall x :: 0 <= x < start ==> Less(ht[x].hashKey[..n], hk)
    ensures Matching(ht[..start], n, hk) == []
  {
    forall x | 0 <= x < start ensures !Matches(ht[..start][x], n, hk) {
      LessTrichotomy(ht[x].hashKey[..n], hk);
    }
    MatchingTail(ht[..start], n, hk, 0);
    assert ht[..start][..0] == [];
  }

  /** the probe past one more bucket */
  lemma MatchingStep(ht: seq<Bucket>, n: nat, hk: string, j: nat)
    requires j < |ht|
    ensures Matching(ht[..j + 1], n, hk) == Matching(ht[..j], n, hk) + if Matches(ht[j], n, hk) then ht[j].keys else []
  {
    assert ht[..j + 1][..j] == ht[..j];
  }

  /** Once a bucket's prefix is not hk, in a sorted table where every
      prefix from there on is at least hk, nothing further matches. */
  lemma NoneAfter(ht: seq<Bucket>, n: nat, hk: string, j: nat)
    requires Sorted(ht) && KeysLong(ht, n) && j <= |ht|
    requires j < |ht| ==> LessEq(hk, ht[j].hashKey[..n]) && ht[j].hashKey[..n] != hk
    ensures Matching(ht, n, hk) == Matching(ht[..j], n, hk)
  {
    if j < |ht| {
      LessTrichotomy(hk, ht[j].hashKey[..n]);
      PrefixPast(ht, n, hk, j);
    }
    MatchingTail(ht, n, hk, j);
  }


  /** `ht[hk] = append(ht[hk], key)`, creating the bucket when absent */
  function AddKey(init: map<string, seq<string>>, hk: string, key: string): (r: map<string, seq<string>>)
    ensures r.Keys == init.Keys + {hk}
    ensures r[hk] == (if hk in init then init[hk] else []) + [key]
    ensures forall h :: h in init && h != hk ==> r[h] == init[h]
  {
    init[hk := (if hk in init then init[hk] else []) + [key]]
  }

  /** the first occurrence of each element, in order: what a loop that
      skips already-seen keys emits */
  function Dedup<T(==,!new)>(s: seq<T>): (r: seq<T>)
    ensures Unionability.NoDuplicates(r)
    ensures forall x :: x in r <==> x in s
  {
    if s == [] then []
    else
      var d := Dedup(s[..|s| - 1]);
      if s[|s| - 1] in d then d
      else
        assert forall x :: x in s <==> x in s[..|s| - 1] || x == s[|s| - 1] by {
          assert s == s[..|s| - 1] + [s[|s| - 1]];
        }
        d + [s[|s| - 1]]
  }

  /** The emitted sequence grows only at the end. */
  lemma {:induction false} DedupAppend<T(!new)>(a: seq<T>, b: seq<T>)
    ensures Dedup(a) <= Dedup(a + b)
    decreases |b|
  {
    if b == [] {
      assert a + b == a;
    } else {
      var pre := b[..|b| - 1];
      assert (a + b)[..|a + b| - 1] == a + pre;
      DedupAppend(a, pre);
    }
  }

  lemma DedupSnoc<T(!new)>(s: seq<T>, x: T)
    ensures Dedup(s + [x]) == if x in Dedup(s) then Dedup(s) else Dedup(s) + [x]
  {
    assert (s + [x])[..|s|] == s;
  }

  /** the seen set of an emitting loop holds exactly what it has emitted */
  ghost predicate Tracks<T(!new)>(seen: set<T>, out: seq<T>)
  {
    seen == set x | x in out
  }

  /** the emitting loop: each key of the batch not seen before is emitted
      and marked seen */
  method EmitUnseen<T(==,!new)>(out: seq<T>, seen: set<T>, batch: seq<T>, ghost before: seq<T>) returns (out': seq<T>, seen': set<T>)
    requires out == Dedup(before) && Tracks(seen, out)
    ensures out' == Dedup(before + batch) && Tracks(seen', out')
  {
    out', seen' := out, seen;
    var i := 0;
    assert before + batch[..0] == before;
    while i < |batch|
      invariant 0 <= i <= |batch|
      invariant out' == Dedup(before + batch[..i])
      invariant Tracks(seen', out')
    {
      out', seen' := EmitOne(out', seen', batch[i], before + batch[..i]);
      AppendTakeSnoc(before, batch, i);
      i := i + 1;
    }
    assert batch[..i] == batch;
  }

  /** one key of the emitting loop */
  method EmitOne<T(==,!new)>(out: seq<T>, seen: set<T>, x: T, ghost before: seq<T>) returns (out': seq<T>, seen': set<T>)
    requires out == Dedup(before) && Tracks(seen, out)
    ensures out' == Dedup(before + [x]) && Tracks(seen', out')
  {
    DedupSnoc(before, x);
    out', seen' := out, seen;
    if x !in seen' {
      out' := out' + [x];
      seen' := seen' + {x};
    }
  }

  /** band i of l bands of width k ends within the first l*k values */
  lemma BandFits(i: nat, l: nat, k: nat)
    requires i < l
    ensures i * k + k <= l * k
  {
    assert l * k == i * k + k + (l - i - 1) * k;
  }

  lemma NextBand(i: nat, k: nat)
    ensures (i + 1) * k == i * k + k
  {
  }

  /** the hash keys of a freshly indexed table keep their length */
  lemma IndexedKeysLong(ht: seq<Bucket>, init: map<string, seq<string>>, r: seq<Bucket>, n: nat)
    requires KeysLong(ht, n) && forall h :: h in init ==> |h| == n
    requires forall b :: b in r <==> b in ht || (b.hashKey in init && init[b.hashKey] == b.keys)
    ensures KeysLong(r, n)
  {
    forall x | 0 <= x < |r| ensures n <= |r[x].hashKey| {
      assert r[x] in r;
      if r[x] in ht {
        var y :| 0 <= y < |ht| && ht[y] == r[x];
      }
    }
  }

  /** the bootstrapping loop of `Add`: key appended under hash key i in
      map i */
  method AddToTables(inits: seq<map<string, seq<string>>>, hs: seq<string>, key: string) returns (r: seq<map<string, seq<string>>>)
    requires |hs| == |inits|
    ensures |r| == |inits| && forall i :: 0 <= i < |inits| ==> r[i] == AddKey(inits[i], hs[i], key)
  {
    r := inits;
    var i := 0;
    while i < |inits|
      invariant 0 <= i <= |inits| && |r| == |inits|
      invariant forall a :: 0 <= a < i ==> r[a] == AddKey(inits[a], hs[a], key)
      invariant forall a :: i <= a < |inits| ==> r[a] == inits[a]
    {
      r := r[i := AddKey(r[i], hs[i], key)];
      i := i + 1;
    }
  }

  /** The hash keys of every map stay n bytes long when every added key is. */
  lemma AddedKeysLength(inits: seq<map<string, seq<string>>>, hs: seq<string>, key: string, r: seq<map<string, seq<string>>>, n: nat)
    requires |hs| == |inits| && |r| == |inits|
    requires forall i :: 0 <= i < |inits| ==> r[i] == AddKey(inits[i], hs[i], key)
    requires forall i, h :: 0 <= i < |inits| && h in inits[i] ==> |h| == n
    requires forall i :: 0 <= i < |hs| ==> |hs[i]| == n
    ensures forall i, h :: 0 <= i < |r| && h in r[i] ==> |h| == n
  {
  }

  /** the loop of `Index`: table i gains the buckets of map i and is sorted */
  method IndexAll(tables: seq<seq<Bucket>>, inits: seq<map<string, seq<string>>>, n: nat) returns (r: seq<seq<Bucket>>)
    requires |tables| == |inits|
    requires forall i :: 0 <= i < |tables| ==> KeysLong(tables[i], n)
    requires forall i, h :: 0 <= i < |inits| && h in inits[i] ==> |h| == n
    ensures |r| == |tables|
    ensures forall i :: 0 <= i < |r| ==> Sorted(r[i]) && KeysLong(r[i], n)
    ensures forall i, b :: 0 <= i < |r| ==>
                           (b in r[i] <==> b in tables[i] || (b.hashKey in inits[i] && inits[i][b.hashKey] == b.keys))
  {
    r := tables;
    var i := 0;
    while i < |tables|
      invariant 0 <= i <= |tables| && |r| == |tables|
      invariant forall a :: 0 <= a < i ==> Indexed(r[a], tables[a], inits[a], n)
    {
      var ht := IndexOne(tables[i], inits[i], n);
      r := r[i := ht];
      i := i + 1;
    }
  }

  /** table ht is table indexed with the bootstrapping map init: sorted,
      every hash key long enough, and holding the old buckets and one per
      entry of the map */
  ghost predicate Indexed(ht: seq<Bucket>, table: seq<Bucket>, init: map<string, seq<string>>, n: nat)
  {
    Sorted(ht) && KeysLong(ht, n) &&
    forall b :: b in ht <==> b in table || (b.hashKey in init && init[b.hashKey] == b.keys)
  }

  /** one table of `Index` */
  method IndexOne(table: seq<Bucket>, init: map<string, seq<string>>, n: nat) returns (ht: seq<Bucket>)
    requires KeysLong(table, n) && forall h :: h in init ==> |h| == n
    ensures Indexed(ht, table, init, n)
  {
    ghost var order: seq<string>;
    ht, order := IndexTable(table, init);
    IndexedKeysLong(table, init, ht, n);
  }

}
