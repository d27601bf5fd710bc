/** simhashlsh/lshforest.go: the cosine LSH forest over SimHash signatures.
    A point's signature holds one bit per random hyperplane (the sign of a
    floating-point dot product, computed by `newSignature` and taken here
    as given). `hash` cuts it into l bands of k bits, `toBasicHashTableKeys`
    writes each band as a string of '0' and '1', and that string is the
    point's hash key in the table of its band. */
module SimhashLsh {
  import opened Wrappers
  import opened Seqs
  import opened GoStrings
  import opened LshForest
  import Unionability

  /** every value is a bit */
  predicate IsBits(key: seq<Byte>)
  {
    forall j :: 0 <= j < |key| ==> key[j] <= 1
  }

  /** the sequences one after the other */
  function Concat<T>(ss: seq<seq<T>>): seq<T>
  {
    if ss == [] then [] else Concat(ss[..|ss| - 1]) + ss[|ss| - 1]
  }

  /** `hash`: the signature cut into l bands of k values, band i holding
      the values at i*k .. i*k+k-1 */
  method Hash(sig: seq<Byte>, l: nat, k: nat) returns (hvs: seq<seq<Byte>>)
    requires l * k <= |sig|
    ensures |hvs| == l
    ensures forall i :: 0 <= i < l ==> i * k + k <= |sig| && hvs[i] == sig[i * k .. i * k + k]
  {
    var bands := new seq<Byte>[l];
    var i, off := 0, 0;
    while i < l
      invariant 0 <= i <= l && off == i * k
      invariant forall a :: 0 <= a < i ==> a * k + k <= |sig| && bands[a] == sig[a * k .. a * k + k]
    {
      BandFits(i, l, k);
      var s := new Byte[k];
      var j := 0;
      while j < k
        modifies s
        invariant 0 <= j <= k
        invariant forall b :: 0 <= b < j ==> s[b] == sig[off + b]
      {
        s[j] := sig[off + j];
        j := j + 1;
      }
      assert s[..] == sig[off .. off + k];
      bands[i] := s[..];
      NextBand(i, k);
      i, off := i + 1, off + k;
    }
    hvs := bands[..];
  }

  /** The bands, one after the other, are the first l*k values of the
      signature: every value is in exactly one band. */
  lemma {:induction false} BandsCover(sig: seq<Byte>, l: nat, k: nat, hvs: seq<seq<Byte>>)
    requires l * k <= |sig| && |hvs| == l
    requires forall i :: 0 <= i < l ==> i * k + k <= |sig| && hvs[i] == sig[i * k .. i * k + k]
    ensures Concat(hvs) == sig[..l * k]
  {
    if l > 0 {
      NextBand(l - 1, k);
      BandsCover(sig, l - 1, k, hvs[..l - 1]);
      assert sig[..l * k] == sig[..(l - 1) * k] + sig[(l - 1) * k .. l * k];
    }
  }

  /** A concatenation is all bits exactly when every part is. */
  lemma {:induction false} ConcatBits(ss: seq<seq<Byte>>)
    ensures IsBits(Concat(ss)) <==> forall i :: 0 <= i < |ss| ==> IsBits(ss[i])
  {
    if ss != [] {
      var front, last := ss[..|ss| - 1], ss[|ss| - 1];
      ConcatBits(front);
      var c := Concat(front);
      assert Concat(ss) == c + last;
      AppendBits(c, last);
      assert forall i :: 0 <= i < |front| ==> front[i] == ss[i];
    }
  }

  lemma AppendBits(a: seq<Byte>, b: seq<Byte>)
    ensures IsBits(a + b) <==> IsBits(a) && IsBits(b)
  {
    if IsBits(a + b) {
      forall j | 0 <= j < |a| ensures a[j] <= 1 {
        assert (a + b)[j] == a[j];
      }
      forall j | 0 <= j < |b| ensures b[j] <= 1 {
        assert (a + b)[|a| + j] == b[j];
      }
    }
    if IsBits(a) && IsBits(b) {
      forall j | 0 <= j < |a + b| ensures (a + b)[j] <= 1 {
        if j < |a| {
          assert (a + b)[j] == a[j];
        } else {
          assert (a + b)[j] == b[j - |a|];
        }
      }
    }
  }

  /** the band written as `toBasicHashTableKeys` writes it */
  function BitString(key: seq<Byte>): (s: string)
    requires IsBits(key)
    ensures |s| == |key| && AllBits(s)
  {
    if key == [] then ""
    else BitString(key[..|key| - 1]) + (if key[|key| - 1] == 0 then "0" else "1")
  }

  /** the band a string of '0' and '1' stands for */
  function BitsOf(s: string): (key: seq<Byte>)
    requires AllBits(s)
  {
    if s == [] then [] else BitsOf(s[..|s| - 1]) + [if s[|s| - 1] == '0' then 0 else 1]
  }

  /** Writing a band loses nothing: distinct bands have distinct keys. */
  lemma {:induction false} BitsOfBitString(key: seq<Byte>)
    requires IsBits(key)
    ensures BitsOf(BitString(key)) == key
  {
    if key != [] {
      var s := BitString(key);
      assert s[..|s| - 1] == BitString(key[..|key| - 1]);
      BitsOfBitString(key[..|key| - 1]);
    }
  }

  /** `toBasicHashTableKeys`: each band as a string of '0' and '1' in a
      slice of l keys; it panics on a value other than 0 or 1, and when
      there are more bands than l */
  method ToBasicHashTableKeys(keys: seq<seq<Byte>>, l: nat) returns (r: Outcome<seq<string>>)
    ensures r.Panic? <==> |keys| > l || exists i :: 0 <= i < |keys| && !IsBits(keys[i])
    ensures r.Value? ==> |r.value| == l
    ensures r.Value? ==> forall i :: 0 <= i < |keys| ==> IsBits(keys[i]) && r.value[i] == BitString(keys[i])
    ensures r.Value? ==> forall i :: |keys| <= i < l ==> r.value[i] == ""
  {
    var basic := new string[l](_ => "");
    var i := 0;
    while i < |keys|
      invariant 0 <= i <= |keys| && i <= l
      invariant forall a :: 0 <= a < i ==> IsBits(keys[a]) && basic[a] == BitString(keys[a])
      invariant forall a :: i <= a < l ==> basic[a] == ""
    {
      var key := keys[i];
      var s := "";
      var j := 0;
      while j < |key|
        invariant 0 <= j <= |key|
        invariant IsBits(key[..j]) && s == BitString(key[..j])
      {
        assert key[..j + 1][..j] == key[..j];
        if key[j] == 0 {
          s := s + "0";
        } else if key[j] == 1 {
          s := s + "1";
        } else {
          return Panic("Hash value is not 0 or 1");
        }
        j := j + 1;
      }
      assert key[..j] == key;
      if i >= l {
        return Panic("index out of range");
      }
      basic[i] := s;
      i := i + 1;
    }
    return Value(basic[..]);
  }

  /** the hash keys of a signature, one per band */
  function BandKeys(sig: seq<Byte>, l: nat, k: nat): (keys: seq<string>)
    requires l * k <= |sig| && IsBits(sig[..l * k])
    ensures |keys| == l && forall i :: 0 <= i < l ==> |keys[i]| == k
  {
    seq(l, i requires 0 <= i < l => BandBits(sig, l, k, i); BandKey(sig, k, i))
  }

  /** the hash key of band i */
  function BandKey(sig: seq<Byte>, k: nat, i: nat): (s: string)
    requires i * k + k <= |sig| && IsBits(sig[i * k .. i * k + k])
    ensures |s| == k
  {
    var lo := i * k;
    BitString(sig[lo .. lo + k])
  }

  /** every band of a signature of bits is bits */
  lemma BandBits(sig: seq<Byte>, l: nat, k: nat, i: nat)
    requires l * k <= |sig| && IsBits(sig[..l * k]) && i < l
    ensures i * k + k <= |sig| && IsBits(sig[i * k .. i * k + k])
  {
    BandFits(i, l, k);
    var lo := i * k;
    var band := sig[lo .. lo + k];
    forall j | 0 <= j < k ensures band[j] <= 1 {
      assert band[j] == sig[..l * k][lo + j];
    }
  }

  /** the hash keys cut to their first n bytes */
  function Prefixes(keys: seq<string>, n: nat): (r: seq<string>)
    requires forall i :: 0 <= i < |keys| ==> n <= |keys[i]|
    ensures |r| == |keys| && forall i :: 0 <= i < |keys| ==> r[i] == keys[i][..n]
  {
    seq(|keys|, i requires 0 <= i < |keys| => keys[i][..n])
  }

  /** one round of `query`: table i probed with key i at prefix length n,
      the tables in turn */
  function Round(tables: seq<seq<Bucket>>, keys: seq<string>, n: nat): seq<string>
    requires |keys| == |tables|
  {
    if tables == [] then []
    else Round(tables[..|tables| - 1], keys[..|keys| - 1], n) + Matching(tables[|tables| - 1], n, keys[|keys| - 1])
  }

  /** A round finds exactly the keys that its tables' probes find. */
  lemma {:induction false} RoundMembers(tables: seq<seq<Bucket>>, keys: seq<string>, n: nat, key: string)
    requires |keys| == |tables|
    ensures key in Round(tables, keys, n) <==>
      exists i :: 0 <= i < |tables| && key in Matching(tables[i], n, keys[i])
  {
    if tables != [] {
      var m := |tables| - 1;
      RoundMembers(tables[..m], keys[..m], n, key);
      assert forall i :: 0 <= i < m ==> tables[..m][i] == tables[i] && keys[..m][i] == keys[i];
    }
  }

  /** A probe with a key whose length is not the prefix length finds nothing. */
  lemma {:induction false} MatchingWrongLength(ht: seq<Bucket>, n: nat, hk: string)
    requires |hk| != n
    ensures Matching(ht, n, hk) == []
  {
    if ht != [] {
      MatchingWrongLength(ht[..|ht| - 1], n, hk);
    }
  }

  /** A round whose keys all have the wrong length finds nothing. */
  lemma {:induction false} RoundWrongLength(tables: seq<seq<Bucket>>, keys: seq<string>, n: nat)
    requires |keys| == |tables| && forall i :: 0 <= i < |keys| ==> |keys[i]| != n
    ensures Round(tables, keys, n) == []
  {
    if tables != [] {
      var m := |tables| - 1;
      RoundWrongLength(tables[..m], keys[..m], n);
      MatchingWrongLength(tables[m], n, keys[m]);
    }
  }

  /** the rounds of `query` from prefix length k down to lo, each probing
      with the band keys cut to the round's prefix length */
  function Rounds(tables: seq<seq<Bucket>>, keys: seq<string>, k: nat, lo: nat): seq<string>
    requires |keys| == |tables| && forall i :: 0 <= i < |keys| ==> k <= |keys[i]|
    decreases k + 1 - lo
  {
    if lo > k then [] else Rounds(tables, keys, k, lo + 1) + Round(tables, Prefixes(keys, lo), lo)
  }

  /** the rounds as `query` writes them: each probes with the whole band key */
  function RoundsAsWritten(tables: seq<seq<Bucket>>, keys: seq<string>, k: nat, lo: nat): seq<string>
    requires |keys| == |tables|
    decreases k + 1 - lo
  {
    if lo > k then [] else RoundsAsWritten(tables, keys, k, lo + 1) + Round(tables, keys, lo)
  }

  /** The corrected rounds find every key of a bucket whose hash key shares
      a prefix of some length from lo to k with the query's band key in its
      table, and nothing else. */
  lemma {:induction false} RoundsMembers(tables: seq<seq<Bucket>>, keys: seq<string>, k: nat, lo: nat, key: string)
    requires |keys| == |tables| && forall i :: 0 <= i < |keys| ==> k <= |keys[i]|
    ensures key in Rounds(tables, keys, k, lo) <==>
      exists n :: lo <= n <= k && key in Round(tables, Prefixes(keys, n), n)
    decreases k + 1 - lo
  {
    if lo <= k {
      RoundsMembers(tables, keys, k, lo + 1, key);
      FoundFromStep(tables, keys, k, lo, key);
    }
  }

  /** key is found by a round from lo to k */
  ghost predicate FoundFrom(tables: seq<seq<Bucket>>, keys: seq<string>, k: nat, lo: nat, key: string)
    requires |keys| == |tables| && forall i :: 0 <= i < |keys| ==> k <= |keys[i]|
  {
    exists n :: lo <= n <= k && key in Round(tables, Prefixes(keys, n), n)
  }

  lemma FoundFromStep(tables: seq<seq<Bucket>>, keys: seq<string>, k: nat, lo: nat, key: string)
    requires |keys| == |tables| && forall i :: 0 <= i < |keys| ==> k <= |keys[i]|
    requires lo <= k
    ensures FoundFrom(tables, keys, k, lo, key) <==>
      FoundFrom(tables, keys, k, lo + 1, key) || key in Round(tables, Prefixes(keys, lo), lo)
  {
    if FoundFrom(tables, keys, k, lo, key) {
      var n :| lo <= n <= k && key in Round(tables, Prefixes(keys, n), n);
      if n > lo {
        assert FoundFrom(tables, keys, k, lo + 1, key);
      }
    }
  }

  /** As written, a round below k compares a k-byte key with a shorter
      prefix and never matches, so only the first round finds anything. */
  lemma {:induction false} ShorterRoundsFindNothing(tables: seq<seq<Bucket>>, keys: seq<string>, k: nat, lo: nat)
    requires |keys| == |tables| && forall i :: 0 <= i < |keys| ==> |keys[i]| == k
    requires lo <= k
    ensures RoundsAsWritten(tables, keys, k, lo) == Round(tables, keys, k)
    decreases k - lo
  {
    var rest := RoundsAsWritten(tables, keys, k, lo + 1);
    var round := Round(tables, keys, lo);
    assert RoundsAsWritten(tables, keys, k, lo) == rest + round;
    if lo < k {
      ShorterRoundsFindNothing(tables, keys, k, lo + 1);
      RoundWrongLength(tables, keys, lo);
      assert rest + [] == rest;
    } else {
      assert rest == [];
      assert [] + round == round;
    }
  }

  /** With minK = k, as in `Query`'s only call, the corrected rounds are
      the rounds as written: the one round cuts each key to its whole
      length. */
  lemma RoundsAtK(tables: seq<seq<Bucket>>, keys: seq<string>, k: nat)
    requires |keys| == |tables| && forall i :: 0 <= i < |keys| ==> |keys[i]| == k
    ensures Rounds(tables, keys, k, k) == RoundsAsWritten(tables, keys, k, k)
  {
    assert forall i :: 0 <= i < |keys| ==> keys[i][..k] == keys[i];
    assert Prefixes(keys, k) == keys;
    assert Rounds(tables, keys, k, k + 1) == [] && RoundsAsWritten(tables, keys, k, k + 1) == [];
    assert Rounds(tables, keys, k, k) == [] + Round(tables, Prefixes(keys, k), k);
    assert RoundsAsWritten(tables, keys, k, k) == [] + Round(tables, keys, k);
  }

  /** One table holding bucket "01" and a query whose band key is "00":
      the prefix-1 round ought to find the bucket's key, but as written it
      finds nothing. */
  lemma AsWrittenMissesSharedPrefix()
    ensures Rounds([[Bucket("01", ["a"])]], ["00"], 2, 1) == ["a"]
    ensures RoundsAsWritten([[Bucket("01", ["a"])]], ["00"], 2, 1) == []
  {
    var b := Bucket("01", ["a"]);
    var tables := [[b]];
    var keys := ["00"];
    assert [b][..0] == [];
    assert Matches(b, 1, "0") by {
      assert b.hashKey[..1] == ['0'];
    }
    assert !Matches(b, 2, "00") by {
      assert b.hashKey[1] != "00"[1];
    }
    assert Matching([b], 1, "0") == ["a"];
    assert Matching([b], 2, "00") == [];
    MatchingWrongLength([b], 1, "00");
    assert tables[..0] == [] && keys[..0] == [] && ["0"][..0] == [];
    assert "00"[..1] == "0" && "00"[..2] == "00";
    assert Prefixes(keys, 1)[0] == "0" && Prefixes(keys, 2)[0] == "00";
    assert Prefixes(keys, 1) == ["0"];
    assert Prefixes(keys, 2) == keys;
    assert Round([], [], 1) == [] && Round([], [], 2) == [];
    assert Round(tables, ["0"], 1) == Round([], [], 1) + Matching([b], 1, "0");
    assert Round(tables, keys, 2) == Round([], [], 2) + Matching([b], 2, "00");
    assert Round(tables, keys, 1) == Round([], [], 1) + Matching([b], 1, "00");
    assert Rounds(tables, keys, 2, 3) == [] && RoundsAsWritten(tables, keys, 2, 3) == [];
    assert Rounds(tables, keys, 2, 2) == [];
    assert RoundsAsWritten(tables, keys, 2, 2) == [];
  }

  /** `CosineLSH`: l sorted tables of buckets and l bootstrapping maps; k is
      the band width and numHash the number of hyperplanes (the signature
      length) */
  class CosineLSH {
    const numHash: nat
    const k: nat
    const l: nat
    var tables: seq<seq<Bucket>>
    var initTables: seq<map<string, seq<string>>>

    ghost predicate Valid()
      reads this
    {
      l * k <= numHash && |tables| == l && |initTables| == l &&
      (forall i :: 0 <= i < l ==> Sorted(tables[i]) && KeysLong(tables[i], k)) &&
      (forall i, h :: 0 <= i < l && h in initTables[i] ==> |h| == k)
    }

    /** `NewCosineLSH` once `optimalKL` has chosen k and l, which it does
        with l * k <= numHash: l empty tables and l empty maps */
    constructor(numHash: nat, k: nat, l: nat)
      requires l * k <= numHash
      ensures Valid()
      ensures this.numHash == numHash && this.k == k && this.l == l
      ensures tables == seq(l, _ => []) && initTables == seq(l, _ => map[])
    {
      this.numHash, this.k, this.l := numHash, k, l;
      tables := seq(l, _ => []);
      initTables := seq(l, _ => map[]);
    }

    /** the band keys of a signature, or a panic when a value is not a bit */
    method Keys(sig: seq<Byte>) returns (r: Outcome<seq<string>>)
      requires Valid() && |sig| == numHash
      ensures r.Panic? <==> !IsBits(sig[..l * k])
      ensures r.Value? ==> IsBits(sig[..l * k]) && r.value == BandKeys(sig, l, k)
    {
      var hvs := Hash(sig, l, k);
      r := ToBasicHashTableKeys(hvs, l);
      BandsCover(sig, l, k, hvs);
      ConcatBits(hvs);
      if r.Value? {
        assert r.value == BandKeys(sig, l, k);
      }
    }

    /** `Add`: the key appended to the bucket of its band key in every
        bootstrapping map; it is not searchable before `Index` */
    method Add(sig: seq<Byte>, key: string) returns (panicked: bool)
      requires Valid() && |sig| == numHash
      modifies this`initTables
      ensures Valid()
      ensures panicked <==> !IsBits(sig[..l * k])
      ensures panicked ==> initTables == old(initTables)
      ensures !panicked ==> IsBits(sig[..l * k]) && |initTables| == l
      ensures !panicked ==> forall i :: 0 <= i < l ==> initTables[i] == AddKey(old(initTables)[i], BandKeys(sig, l, k)[i], key)
    {
      var hs := Keys(sig);
      if hs.Panic? {
        return true;
      }
      var added := AddToTables(initTables, hs.value, key);
      AddedKeysLength(initTables, hs.value, key, added, k);
      initTables := added;
      return false;
    }

    /** `Index`: every table gains one bucket per entry of its bootstrapping
        map and is sorted by hash key; the maps are emptied */
    method Index()
      requires Valid()
      modifies this`tables, this`initTables
      ensures Valid()
      ensures initTables == seq(l, _ => map[])
      ensures forall i, b :: 0 <= i < l ==>
                             (b in tables[i] <==> b in old(tables)[i] || (b.hashKey in old(initTables)[i] && old(initTables)[i][b.hashKey] == b.keys))
    {
      tables := IndexAll(tables, initTables, k);
      initTables := seq(l, _ => map[]);
    }

    /** `query(point, minK)`, with the band key cut to the prefix length of
        each round (as written the whole key is compared, see
        `RoundsAsWritten`): prefix lengths k down to minK, each key emitted
        once */
    method QueryDown(sig: seq<Byte>, minK: nat) returns (r: Outcome<seq<string>>)
      requires Valid() && |sig| == numHash
      ensures r.Panic? <==> !IsBits(sig[..l * k])
      ensures r.Value? ==> IsBits(sig[..l * k]) && r.value == Dedup(Rounds(tables, BandKeys(sig, l, k), k, minK))
    {
      var hs := Keys(sig);
      if hs.Panic? {
        return Panic(hs.reason);
      }
      var out := ProbeRounds(tables, hs.value, k, minK);
      return Value(out);
    }

    /** `Query`: the keys of every bucket whose hash key begins with the
        query's band key in its table, each once */
    method Query(sig: seq<Byte>) returns (r: Outcome<seq<string>>)
      requires Valid() && |sig| == numHash
      ensures r.Panic? <==> !IsBits(sig[..l * k])
      ensures r.Value? ==> IsBits(sig[..l * k]) && Unionability.NoDuplicates(r.value)
      ensures r.Value? ==> forall key :: key in r.value <==>
        exists i, x :: 0 <= i < l && 0 <= x < |tables[i]| && Matches(tables[i][x], k, BandKeys(sig, l, k)[i]) && key in tables[i][x].keys
    {
      r := QueryDown(sig, k);
      if r.Value? {
        forall key ensures key in r.value <==>
          exists i, x :: 0 <= i < l && 0 <= x < |tables[i]| && Matches(tables[i][x], k, BandKeys(sig, l, k)[i]) && key in tables[i][x].keys
        {
          FirstRoundMembers(tables, BandKeys(sig, l, k), k, key);
        }
      }
    }
  }

  /** one round of `query`: every table probed with its key, the keys not
      seen before emitted */
  method ProbeTables(tables: seq<seq<Bucket>>, probes: seq<string>, n: nat, out: seq<string>, seen: set<string>, ghost before: seq<string>)
    returns (out': seq<string>, seen': set<string>)
    requires |probes| == |tables| && forall i :: 0 <= i < |tables| ==> Sorted(tables[i]) && KeysLong(tables[i], n)
    requires out == Dedup(before) && Tracks(seen, out)
    ensures out' == Dedup(before + Round(tables, probes, n))
    ensures Tracks(seen', out')
  {
    out', seen' := out, seen;
    var i := 0;
    assert tables[..0] == [] && probes[..0] == [];
    assert before + Round(tables[..0], probes[..0], n) == before;
    while i < |tables|
      invariant 0 <= i <= |tables|
      invariant out' == Dedup(before + Round(tables[..i], probes[..i], n))
      invariant Tracks(seen', out')
    {
      var found := Probe(tables[i], n, probes[i]);
      RoundSnoc(tables, probes, n, i);
      ghost var done := Round(tables[..i], probes[..i], n);
      out', seen' := EmitUnseen(out', seen', found, before + done);
      AppendAssoc(before, done, found);
      i := i + 1;
    }
    assert tables[..i] == tables && probes[..i] == probes;
  }

  /** the rounds of `query` from prefix length k down to minK, each key
      emitted once */
  method ProbeRounds(tables: seq<seq<Bucket>>, keys: seq<string>, k: nat, minK: nat) returns (out: seq<string>)
    requires |keys| == |tables| && forall i :: 0 <= i < |keys| ==> |keys[i]| == k
    requires forall i :: 0 <= i < |tables| ==> Sorted(tables[i]) && KeysLong(tables[i], k)
    ensures out == Dedup(Rounds(tables, keys, k, minK))
  {
    out := [];
    var seen: set<string> := {};
    var K: int := k;
    while K >= minK
      invariant -1 <= K <= k && (K + 1 >= minK || K == k)
      invariant out == Dedup(Rounds(tables, keys, k, K + 1))
      invariant Tracks(seen, out)
      decreases K + 1
    {
      assert forall i :: 0 <= i < |tables| ==> KeysLong(tables[i], K);
      out, seen := ProbeTables(tables, Prefixes(keys, K), K, out, seen, Rounds(tables, keys, k, K + 1));
      K := K - 1;
    }
  }

  lemma RoundSnoc(tables: seq<seq<Bucket>>, keys: seq<string>, n: nat, i: nat)
    requires |keys| == |tables| && i < |tables|
    ensures Round(tables[..i + 1], keys[..i + 1], n) == Round(tables[..i], keys[..i], n) + Matching(tables[i], n, keys[i])
  {
    assert tables[..i + 1][..i] == tables[..i] && keys[..i + 1][..i] == keys[..i];
  }

  /** The first round finds exactly the keys of the buckets whose hash key
      begins with the whole band key of their table. */
  lemma FirstRoundMembers(tables: seq<seq<Bucket>>, keys: seq<string>, k: nat, key: string)
    requires |keys| == |tables| && forall i :: 0 <= i < |keys| ==> |keys[i]| == k
    ensures key in Rounds(tables, keys, k, k) <==>
      exists i, x :: 0 <= i < |tables| && 0 <= x < |tables[i]| && Matches(tables[i][x], k, keys[i]) && key in tables[i][x].keys
  {
    assert Prefixes(keys, k) == keys by {
      forall i | 0 <= i < |keys| ensures keys[i][..k] == keys[i] {
      }
    }
    assert Rounds(tables, keys, k, k + 1) == [];
    assert Rounds(tables, keys, k, k) == Round(tables, keys, k);
    RoundMembers(tables, keys, k, key);
    forall i | 0 <= i < |tables|
      ensures key in Matching(tables[i], k, keys[i]) <==>
        exists x :: 0 <= x < |tables[i]| && Matches(tables[i][x], k, keys[i]) && key in tables[i][x].keys
    {
      MatchingMembers(tables[i], k, keys[i], key);
    }
  }
}
