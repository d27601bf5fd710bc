/** minhashlsh/lshforest.go: the MinHash LSH forest. A signature is a
    sequence of 64-bit hash values; band i of a signature is its values
    i*k .. i*k+k-1, and its hash key in table i is the first hashValueSize
    bytes of each value, little-endian, one after the other. A query
    probes with ever shorter prefixes of the band keys. */
module MinhashLsh {
  import opened Wrappers
  import opened LshForest
  import opened Embedding
  import Unionability

  /** `binary.LittleEndian.PutUint64`: the 8 bytes of v, least significant
      first */
  function PutUint64(v: Word64): (b: seq<Byte>)
    ensures |b| == 8
  {
    WordBytes(v, LittleEndian)
  }

  lemma MulSucc(size: nat, n: nat)
    ensures size * (n + 1) == size * n + size
  {
  }

  lemma MulMonotone(size: nat, m: nat, n: nat)
    requires m <= n
    ensures size * m <= size * n
  {
    assert size * n == size * m + size * (n - m);
  }

  /** the bytes of the hash key of sig: the first size bytes of each value */
  function KeyBytes(sig: seq<Word64>, size: nat): (b: seq<Byte>)
    requires size <= 8
    ensures |b| == size * |sig|
  {
    if sig == [] then []
    else
      MulSucc(size, |sig| - 1);
      KeyBytes(sig[..|sig| - 1], size) + PutUint64(sig[|sig| - 1])[..size]
  }

  /** `string(s)` of a byte slice: one character per byte */
  function ToChars(b: seq<Byte>): (s: string)
    ensures |s| == |b| && forall i :: 0 <= i < |b| ==> s[i] as int == b[i]
  {
    seq(|b|, i requires 0 <= i < |b| => b[i] as char)
  }

  /** the hash key `hashKeyFuncGen(size)` makes of sig */
  function Key(sig: seq<Word64>, size: nat): (key: string)
    requires size <= 8
    ensures |key| == size * |sig|
  {
    ToChars(KeyBytes(sig, size))
  }

  /** The key of the first K values is the first size*K bytes of the key:
      probing with a shorter band is probing with a prefix of the key. */
  lemma {:induction false} KeyBytesPrefix(sig: seq<Word64>, size: nat, K: nat)
    requires size <= 8 && K <= |sig|
    ensures size * K <= |KeyBytes(sig, size)|
    ensures KeyBytes(sig, size)[..size * K] == KeyBytes(sig[..K], size)
  {
    MulMonotone(size, K, |sig|);
    if K < |sig| {
      var init := sig[..|sig| - 1];
      MulMonotone(size, K, |init|);
      KeyBytesPrefix(init, size, K);
      assert init[..K] == sig[..K];
      assert KeyBytes(sig, size) == KeyBytes(init, size) + PutUint64(sig[|sig| - 1])[..size];
    } else {
      assert sig[..K] == sig;
    }
  }

  lemma KeyPrefix(sig: seq<Word64>, size: nat, K: nat)
    requires size <= 8 && K <= |sig|
    ensures size * K <= |Key(sig, size)|
    ensures Key(sig, size)[..size * K] == Key(sig[..K], size)
  {
    KeyBytesPrefix(sig, size, K);
  }

  /** the n bytes of w, least significant first */
  function LittleEndianBytes(w: nat, n: nat): (b: seq<Byte>)
    ensures |b| == n
  {
    if n == 0 then [] else [w % 256] + LittleEndianBytes(w / 256, n - 1)
  }

  /** the number whose bytes, least significant first, are b */
  function LittleEndianValue(b: seq<Byte>): nat
  {
    if b == [] then 0 else b[0] + 256 * LittleEndianValue(b[1..])
  }

  lemma {:induction false} ReverseBigEndian(w: nat, n: nat)
    ensures Reverse(BigEndianBytes(w, n)) == LittleEndianBytes(w, n)
  {
    if n > 0 {
      ReverseBigEndian(w / 256, n - 1);
      var be := BigEndianBytes(w, n);
      assert be[..|be| - 1] == BigEndianBytes(w / 256, n - 1);
    }
  }

  lemma {:induction false} LittleEndianPrefix(w: nat, n: nat, m: nat)
    requires m <= n
    ensures LittleEndianBytes(w, n)[..m] == LittleEndianBytes(w, m)
  {
    if m > 0 {
      LittleEndianPrefix(w / 256, n - 1, m - 1);
      assert LittleEndianBytes(w, n)[..m] == [w % 256] + LittleEndianBytes(w / 256, n - 1)[..m - 1];
    }
  }

  lemma ModUnique(w: int, m: int, a: int, c: int)
    requires m > 0 && w == m * a + c && 0 <= c < m
    ensures w % m == c
  {
    var q, r := w / m, w % m;
    assert m * (a - q) == r - c;
    if a - q > 0 {
      MulAtLeast(m, a - q);
    } else if a - q < 0 {
      MulAtLeast(m, q - a);
    }
  }

  lemma MulAtLeast(m: int, x: int)
    requires m > 0 && x >= 1
    ensures m * x >= m
  {
    assert m * x == m + m * (x - 1);
  }

  /** w mod 256*p, split into its lowest byte and the rest */
  lemma ModSplit(w: nat, p: nat)
    requires p >= 1
    ensures w % (256 * p) == w % 256 + 256 * ((w / 256) % p)
  {
    var q, r := w / 256, w % 256;
    var a, b := q / p, q % p;
    assert q == p * a + b;
    assert w == (256 * p) * a + (256 * b + r) by {
      assert w == 256 * q + r;
      assert 256 * q == 256 * (p * a) + 256 * b;
    }
    ModUnique(w, 256 * p, a, 256 * b + r);
  }

  /** Reading the n bytes back gives w trimmed to n bytes. */
  lemma {:induction false} LittleEndianRoundTrip(w: nat, n: nat)
    ensures LittleEndianValue(LittleEndianBytes(w, n)) == w % Pow256(n)
  {
    if n > 0 {
      LittleEndianRoundTrip(w / 256, n - 1);
      var b := LittleEndianBytes(w, n);
      assert b[1..] == LittleEndianBytes(w / 256, n - 1);
      ModSplit(w, Pow256(n - 1));
    }
  }

  /** The size bytes a value contributes to a key hold the value trimmed
      to its size lowest bytes (so 32-bit keys trim 64-bit values). */
  lemma TrimmedValue(v: Word64, size: nat)
    requires size <= 8
    ensures LittleEndianValue(PutUint64(v)[..size]) == v % Pow256(size)
  {
    ReverseBigEndian(v, 8);
    LittleEndianPrefix(v, 8, size);
    LittleEndianRoundTrip(v, size);
  }

  /** the bytes value i of sig contributes to its key */
  lemma {:induction false} KeyBytesAt(sig: seq<Word64>, size: nat, i: nat)
    requires size <= 8 && i < |sig|
    ensures size * i + size <= |KeyBytes(sig, size)|
    ensures KeyBytes(sig, size)[size * i .. size * i + size] == PutUint64(sig[i])[..size]
  {
    MulSucc(size, i);
    MulMonotone(size, i + 1, |sig|);
    var init := sig[..|sig| - 1];
    var kb := KeyBytes(sig, size);
    var front := KeyBytes(init, size);
    assert kb == front + PutUint64(sig[|sig| - 1])[..size];
    if i < |init| {
      KeyBytesAt(init, size, i);
      assert kb[size * i .. size * i + size] == front[size * i .. size * i + size];
    } else {
      assert size * i == |front|;
    }
  }

  /** A key holds each value of its signature trimmed to size bytes: two
      signatures of one length with the same key agree on every value
      modulo 256^size. */
  lemma KeyDetermines(a: seq<Word64>, b: seq<Word64>, size: nat, i: nat)
    requires size <= 8 && |a| == |b| && i < |a|
    requires Key(a, size) == Key(b, size)
    ensures a[i] % Pow256(size) == b[i] % Pow256(size)
  {
    KeyBytesAt(a, size, i);
    KeyBytesAt(b, size, i);
    var ka, kb := KeyBytes(a, size), KeyBytes(b, size);
    assert ka == kb by {
      assert forall j :: 0 <= j < |ka| ==> ka[j] == Key(a, size)[j] as int == kb[j];
    }
    TrimmedValue(a[i], size);
    TrimmedValue(b[i], size);
  }

  /** Go's `copy(dst[off:], src)`: src written over dst from off */
  /** one value of the loop of `hashKeyFunc`: its first size bytes, little
      endian, written after the bytes of the values before it */
  method PutKeyBytes(s: array<Byte>, sig: seq<Word64>, size: nat, i: nat, off: nat)
    requires size <= 8 && i < |sig| && off == size * i && s.Length == size * |sig|
    requires s[..off] == KeyBytes(sig[..i], size)
    modifies s
    ensures off + size == size * (i + 1) <= s.Length
    ensures s[..off + size] == KeyBytes(sig[..i + 1], size)
  {
    MulSucc(size, i);
    MulMonotone(size, i + 1, |sig|);
    var buf := PutUint64(sig[i]);
    ghost var before := s[..];
    Copy(s, off, buf[..size]);
    SplicePrefix(before, off, buf[..size]);
    assert before[..off] == KeyBytes(sig[..i], size);
    assert sig[..i + 1][..i] == sig[..i];
  }

  /** the part of a splice up to the end of what was put in */
  lemma SplicePrefix(a: seq<Byte>, off: nat, src: seq<Byte>)
    requires off + |src| <= |a|
    ensures (a[..off] + src + a[off + |src|..])[..off + |src|] == a[..off] + src
  {
  }

  method Copy(dst: array<Byte>, off: nat, src: seq<Byte>)
    requires off + |src| <= dst.Length
    modifies dst
    ensures dst[..] == old(dst[..])[..off] + src + old(dst[..])[off + |src|..]
  {
    ghost var before := dst[..];
    var j := 0;
    while j < |src|
      invariant 0 <= j <= |src|
      invariant dst[..] == before[..off] + src[..j] + before[off + j..]
    {
      dst[off + j] := src[j];
      j := j + 1;
    }
  }

  /** `hashKeyFuncGen(size)` applied to sig */
  method HashKeyFunc(sig: seq<Word64>, size: nat) returns (key: string)
    requires size <= 8
    ensures key == Key(sig, size)
  {
    var s := new Byte[size * |sig|];
    FillKey(s, sig, size);
    key := ToChars(s[..]);
  }

  /** the loop of `hashKeyFunc`: the first size bytes of each value, little
      endian, one value after another */
  method FillKey(s: array<Byte>, sig: seq<Word64>, size: nat)
    requires size <= 8 && s.Length == size * |sig|
    modifies s
    ensures s[..] == KeyBytes(sig, size)
  {
    var i, off := 0, 0;
    while i < |sig|
      invariant 0 <= i <= |sig| && off == size * i && off <= s.Length
      invariant s[..off] == KeyBytes(sig[..i], size)
    {
      PutKeyBytes(s, sig, size, i, off);
      i, off := i + 1, off + size;
    }
    assert sig[..i] == sig;
    assert s[..] == s[..off];
  }

  /** a search result: the index of the query signature and a key found */
  datatype UnionPair = UnionPair(queryIndex: nat, candidateKey: string)

  /** the keys found for query p */
  function Pairs(p: nat, keys: seq<string>): (r: seq<UnionPair>)
    ensures |r| == |keys| && forall j :: 0 <= j < |keys| ==> r[j] == UnionPair(p, keys[j])
  {
    seq(|keys|, j requires 0 <= j < |keys| => UnionPair(p, keys[j]))
  }

  /** every band of width k cut to K values lies inside sig: the last one
      ends at (l-1)*k + K */
  predicate BandsFit(sig: seq<Word64>, l: nat, k: nat, K: nat)
  {
    l == 0 || l * k - k + K <= |sig|
  }

  lemma BandInside(sig: seq<Word64>, l: nat, k: nat, K: nat, i: nat)
    requires BandsFit(sig, l, k, K) && i < l
    ensures i * k + K <= |sig|
  {
    BandFits(i, l, k);
  }

  /** The full bands fit exactly when the signature holds l*k values. */
  lemma BandsFitLength(sig: seq<Word64>, l: nat, k: nat)
    ensures BandsFit(sig, l, k, k) <==> l * k <= |sig|
  {
  }

  /** every signature holds at least n values */
  predicate AllLong(sigs: seq<seq<Word64>>, n: nat)
  {
    forall p :: 0 <= p < |sigs| ==> n <= |sigs[p]|
  }

  /** the hash key of band i of sig cut to K values */
  function BandKey(sig: seq<Word64>, k: nat, K: nat, size: nat, i: nat): (key: string)
    requires size <= 8 && i * k + K <= |sig|
    ensures |key| == size * K
  {
    Key(sig[i * k .. i * k + K], size)
  }

  /** the l band keys of one signature, each band cut to K values */
  function SignatureKeysOf(sig: seq<Word64>, l: nat, k: nat, K: nat, size: nat): (shs: seq<string>)
    requires size <= 8 && BandsFit(sig, l, k, K)
    ensures |shs| == l
  {
    seq(l, i requires 0 <= i < l => BandInside(sig, l, k, K, i); BandKey(sig, k, K, size, i))
  }

  /** the hash keys of round K: for each query, its l band keys */
  function RoundKeysOf(sigs: seq<seq<Word64>>, l: nat, k: nat, K: nat, size: nat): (hs: seq<seq<string>>)
    requires size <= 8 && forall p :: 0 <= p < |sigs| ==> BandsFit(sigs[p], l, k, K)
    ensures |hs| == |sigs| && forall p :: 0 <= p < |sigs| ==> hs[p] == SignatureKeysOf(sigs[p], l, k, K, size)
  {
    seq(|sigs|, p requires 0 <= p < |sigs| => SignatureKeysOf(sigs[p], l, k, K, size))
  }

  /** A band key cut to fewer values is a prefix of the longer one: the
      key of round K' is the first size*K' bytes of the key of round K. */
  lemma BandKeyPrefix(sig: seq<Word64>, k: nat, K: nat, K': nat, size: nat, i: nat)
    requires size <= 8 && K' <= K && i * k + K <= |sig|
    ensures size * K' <= size * K
    ensures BandKey(sig, k, K', size, i) == BandKey(sig, k, K, size, i)[..size * K']
  {
    MulMonotone(size, K', K);
    var band := sig[i * k .. i * k + K];
    assert band[..K'] == sig[i * k .. i * k + K'];
    KeyPrefix(band, size, K');
  }

  /** what probing table ht (table i) finds for each query: the keys of
      the buckets matching the query's band key i at prefix size prefix */
  function FoundIn(ht: seq<Bucket>, hs: seq<seq<string>>, i: nat, prefix: nat): (f: seq<seq<string>>)
    ensures |f| == |hs|
    ensures forall p :: 0 <= p < |hs| && i < |hs[p]| ==> f[p] == Matching(ht, prefix, hs[p][i])
  {
    seq(|hs|, p requires 0 <= p < |hs| => if i < |hs[p]| then Matching(ht, prefix, hs[p][i]) else [])
  }

  /** what each table finds for each query */
  function Found(tables: seq<seq<Bucket>>, hs: seq<seq<string>>, prefix: nat): (f: seq<seq<seq<string>>>)
    ensures |f| == |tables|
  {
    seq(|tables|, i requires 0 <= i < |tables| => FoundIn(tables[i], hs, i, prefix))
  }

  /** the pairs emitted for one table, query by query, from the first np
      queries' lists of keys found */
  function TableHits(found: seq<seq<string>>, np: nat): seq<UnionPair>
    requires np <= |found|
  {
    if np == 0 then [] else TableHits(found, np - 1) + Pairs(np - 1, found[np - 1])
  }

  /** one round of `probe` over the first nt tables, each with every query */
  function PairRound(found: seq<seq<seq<string>>>, nt: nat): seq<UnionPair>
    requires nt <= |found|
  {
    if nt == 0 then [] else PairRound(found, nt - 1) + TableHits(found[nt - 1], |found[nt - 1]|)
  }

  lemma PairsMembers(p: nat, keys: seq<string>, u: UnionPair)
    ensures u in Pairs(p, keys) <==> u.queryIndex == p && u.candidateKey in keys
  {
    var r := Pairs(p, keys);
    if u in r {
      var j :| 0 <= j < |r| && r[j] == u;
      assert u.candidateKey == keys[j];
    }
    if u.queryIndex == p && u.candidateKey in keys {
      var j :| 0 <= j < |keys| && keys[j] == u.candidateKey;
      assert r[j] == u;
    }
  }

  lemma {:induction false} TableHitsMembers(found: seq<seq<string>>, np: nat, u: UnionPair)
    requires np <= |found|
    ensures u in TableHits(found, np) <==> u.queryIndex < np && u.candidateKey in found[u.queryIndex]
  {
    if np > 0 {
      TableHitsMembers(found, np - 1, u);
      PairsMembers(np - 1, found[np - 1], u);
    }
  }

  /** A round finds the pairs (p, key) with key among what some table
      found for query p. */
  lemma {:induction false} PairRoundMembers(found: seq<seq<seq<string>>>, nt: nat, u: UnionPair)
    requires nt <= |found|
    ensures u in PairRound(found, nt) <==>
      exists i :: 0 <= i < nt && u.queryIndex < |found[i]| && u.candidateKey in found[i][u.queryIndex]
  {
    if nt > 0 {
      var m := nt - 1;
      PairRoundMembers(found, m, u);
      TableHitsMembers(found[m], |found[m]|, u);
      if u in PairRound(found, m) {
        var i :| 0 <= i < m && u.queryIndex < |found[i]| && u.candidateKey in found[i][u.queryIndex];
        assert 0 <= i < nt;
      }
      if exists i :: 0 <= i < nt && u.queryIndex < |found[i]| && u.candidateKey in found[i][u.queryIndex] {
        var i :| 0 <= i < nt && u.queryIndex < |found[i]| && u.candidateKey in found[i][u.queryIndex];
        if i < m {
          assert u in PairRound(found, m);
        } else {
          assert i == m;
        }
      }
    }
  }

  /** the rounds rs[K] from K = |rs|-1 down to lo, one after the other */
  function Downward(rs: seq<seq<UnionPair>>, lo: nat): seq<UnionPair>
    requires lo <= |rs|
    decreases |rs| - lo
  {
    if lo == |rs| then [] else Downward(rs, lo + 1) + rs[lo]
  }

  /** A pair is in the rounds from lo up exactly when one of them finds it. */
  lemma {:induction false} DownwardMembers(rs: seq<seq<UnionPair>>, lo: nat, u: UnionPair)
    requires lo <= |rs|
    ensures u in Downward(rs, lo) <==> exists K :: lo <= K < |rs| && u in rs[K]
    decreases |rs| - lo
  {
    if lo < |rs| {
      DownwardMembers(rs, lo + 1, u);
      if u in Downward(rs, lo + 1) {
        var K :| lo + 1 <= K < |rs| && u in rs[K];
        assert lo <= K;
      }
      if exists K :: lo <= K < |rs| && u in rs[K] {
        var K :| lo <= K < |rs| && u in rs[K];
        if K > lo {
          assert u in Downward(rs, lo + 1);
        }
      }
    }
  }

  /** rounds 0 .. k of `query`, round K probing with the band keys cut to K
      values at prefix size size*K */
  function AllRounds(tables: seq<seq<Bucket>>, sigs: seq<seq<Word64>>, l: nat, k: nat, size: nat): (rs: seq<seq<UnionPair>>)
    requires size <= 8 && |tables| == l
    requires AllLong(sigs, l * k)
    ensures |rs| == k + 1
  {
    seq(k + 1, K requires 0 <= K <= k => RoundAt(tables, sigs, l, k, size, K))
  }

  /** the rounds of `query` from K = k down to lo */
  function Rounds(tables: seq<seq<Bucket>>, sigs: seq<seq<Word64>>, l: nat, k: nat, size: nat, lo: nat): seq<UnionPair>
    requires size <= 8 && |tables| == l && lo <= k + 1
    requires AllLong(sigs, l * k)
  {
    Downward(AllRounds(tables, sigs, l, k, size), lo)
  }

  /** round K of `query` */
  function RoundAt(tables: seq<seq<Bucket>>, sigs: seq<seq<Word64>>, l: nat, k: nat, size: nat, K: nat): seq<UnionPair>
    requires size <= 8 && |tables| == l && K <= k
    requires AllLong(sigs, l * k)
  {
    PairRound(Found(tables, RoundKeysOf(sigs, l, k, K, size), size * K), l)
  }

  /** Round K finds the pairs (p, key) with key in a bucket of some table i
      whose hash key starts with band key i of query p cut to K values. */
  lemma RoundAtMembers(tables: seq<seq<Bucket>>, sigs: seq<seq<Word64>>, l: nat, k: nat, size: nat, K: nat, u: UnionPair)
    requires size <= 8 && |tables| == l && K <= k
    requires AllLong(sigs, l * k)
    ensures u in RoundAt(tables, sigs, l, k, size, K) <==>
      u.queryIndex < |sigs| &&
      exists i :: 0 <= i < l && u.candidateKey in Matching(tables[i], size * K, RoundKeysOf(sigs, l, k, K, size)[u.queryIndex][i])
  {
    var hs := RoundKeysOf(sigs, l, k, K, size);
    var found := Found(tables, hs, size * K);
    PairRoundMembers(found, l, u);
    if u in RoundAt(tables, sigs, l, k, size, K) {
      var i :| 0 <= i < l && u.queryIndex < |found[i]| && u.candidateKey in found[i][u.queryIndex];
      assert found[i][u.queryIndex] == Matching(tables[i], size * K, hs[u.queryIndex][i]);
    }
    if u.queryIndex < |sigs| && exists i :: 0 <= i < l && u.candidateKey in Matching(tables[i], size * K, hs[u.queryIndex][i]) {
      var i :| 0 <= i < l && u.candidateKey in Matching(tables[i], size * K, hs[u.queryIndex][i]);
      assert found[i][u.queryIndex] == Matching(tables[i], size * K, hs[u.queryIndex][i]);
    }
  }

  /** The rounds find a pair exactly when one of their rounds does. */
  lemma RoundsMembers(tables: seq<seq<Bucket>>, sigs: seq<seq<Word64>>, l: nat, k: nat, size: nat, lo: nat, u: UnionPair)
    requires size <= 8 && |tables| == l && lo <= k + 1
    requires AllLong(sigs, l * k)
    ensures u in Rounds(tables, sigs, l, k, size, lo) <==>
      exists K :: lo <= K <= k && u in RoundAt(tables, sigs, l, k, size, K)
  {
    var rs := AllRounds(tables, sigs, l, k, size);
    DownwardMembers(rs, lo, u);
    if u in Rounds(tables, sigs, l, k, size, lo) {
      var K :| lo <= K < |rs| && u in rs[K];
      assert u in RoundAt(tables, sigs, l, k, size, K);
    }
    if exists K :: lo <= K <= k && u in RoundAt(tables, sigs, l, k, size, K) {
      var K :| lo <= K <= k && u in RoundAt(tables, sigs, l, k, size, K);
      assert u in rs[K];
    }
  }

  /** every query has at least n band keys */
  predicate AllKeyed(hs: seq<seq<string>>, n: nat)
  {
    forall p :: 0 <= p < |hs| ==> n <= |hs[p]|
  }

  /** A pair found by round K is found again by every later round K' <= K,
      which probes with a prefix of the same band key. */
  lemma RoundsNest(tables: seq<seq<Bucket>>, sigs: seq<seq<Word64>>, l: nat, k: nat, size: nat, K: nat, K': nat, u: UnionPair)
    requires size <= 8 && |tables| == l && K' <= K <= k
    requires AllLong(sigs, l * k)
    requires u in RoundAt(tables, sigs, l, k, size, K)
    ensures u in RoundAt(tables, sigs, l, k, size, K')
  {
    RoundAtMembers(tables, sigs, l, k, size, K, u);
    RoundAtMembers(tables, sigs, l, k, size, K', u);
    var q := u.queryIndex;
    var hs, hs' := RoundKeysOf(sigs, l, k, K, size), RoundKeysOf(sigs, l, k, K', size);
    var i :| 0 <= i < l && u.candidateKey in Matching(tables[i], size * K, hs[q][i]);
    BandInside(sigs[q], l, k, K, i);
    BandKeyPrefix(sigs[q], k, K, K', size, i);
    assert hs[q][i] == BandKey(sigs[q], k, K, size, i);
    assert hs'[q][i] == BandKey(sigs[q], k, K', size, i);
    MatchingShorter(tables[i], size * K, size * K', hs[q][i], u.candidateKey);
  }

  /** What the rounds of `query` find, as a set, is what its last round
      K = 1 finds: the longer prefixes of the earlier rounds only put the
      closer candidates first. */
  lemma RoundsFindRoundOne(tables: seq<seq<Bucket>>, sigs: seq<seq<Word64>>, l: nat, k: nat, size: nat, u: UnionPair)
    requires size <= 8 && |tables| == l && 1 <= k
    requires AllLong(sigs, l * k)
    ensures u in Rounds(tables, sigs, l, k, size, 1) <==> u in RoundAt(tables, sigs, l, k, size, 1)
  {
    RoundsMembers(tables, sigs, l, k, size, 1, u);
    if u in Rounds(tables, sigs, l, k, size, 1) {
      var K :| 1 <= K <= k && u in RoundAt(tables, sigs, l, k, size, K);
      RoundsNest(tables, sigs, l, k, size, K, 1, u);
    }
  }

  /** The pairs `query` emits: each once, and (p, key) exactly when key is
      in a bucket of some table i whose hash key starts with the bytes of
      the first value of band i of query p. */
  lemma QueryMembers(tables: seq<seq<Bucket>>, sigs: seq<seq<Word64>>, l: nat, k: nat, size: nat, u: UnionPair)
    requires size <= 8 && |tables| == l && 1 <= k
    requires AllLong(sigs, l * k)
    ensures Unionability.NoDuplicates(Dedup(Rounds(tables, sigs, l, k, size, 1)))
    ensures u in Dedup(Rounds(tables, sigs, l, k, size, 1)) <==>
      u.queryIndex < |sigs| &&
      exists i :: 0 <= i < l && u.candidateKey in Matching(tables[i], size, RoundKeysOf(sigs, l, k, 1, size)[u.queryIndex][i])
  {
    RoundsFindRoundOne(tables, sigs, l, k, size, u);
    RoundAtMembers(tables, sigs, l, k, size, 1, u);
  }

  /** `probe` for one table: every query's band key looked up in turn,
      each key of each matching bucket sent out as a pair */
  method ProbeTable(ht: seq<Bucket>, hs: seq<seq<string>>, i: nat, prefix: nat) returns (pairs: seq<UnionPair>)
    requires Sorted(ht) && KeysLong(ht, prefix) && AllKeyed(hs, i + 1)
    ensures pairs == TableHits(FoundIn(ht, hs, i, prefix), |hs|)
  {
    pairs := [];
    var p := 0;
    while p < |hs|
      invariant 0 <= p <= |hs|
      invariant pairs == TableHits(FoundIn(ht, hs, i, prefix), p)
    {
      pairs := ProbeQuery(ht, hs, i, prefix, p, pairs);
      p := p + 1;
    }
  }

  /** the body of the inner loop of `probe`: query p probed in table i */
  method ProbeQuery(ht: seq<Bucket>, hs: seq<seq<string>>, i: nat, prefix: nat, p: nat, pairs: seq<UnionPair>) returns (pairs': seq<UnionPair>)
    requires Sorted(ht) && KeysLong(ht, prefix) && AllKeyed(hs, i + 1) && p < |hs|
    requires pairs == TableHits(FoundIn(ht, hs, i, prefix), p)
    ensures pairs' == TableHits(FoundIn(ht, hs, i, prefix), p + 1)
  {
    var found := Probe(ht, prefix, hs[p][i]);
    assert found == FoundIn(ht, hs, i, prefix)[p];
    pairs' := pairs + Pairs(p, found);
  }

  /** every table is sorted and its hash keys are at least n bytes long, so
      that it can be probed at prefix size n; stated table by table from the
      last one down */
  ghost predicate Searchable(tables: seq<seq<Bucket>>, n: nat)
    decreases |tables|
  {
    tables == [] ||
    (Searchable(tables[..|tables| - 1], n) && Sorted(tables[|tables| - 1]) && KeysLong(tables[|tables| - 1], n))
  }

  lemma {:induction false} SearchableAt(tables: seq<seq<Bucket>>, n: nat, i: nat)
    requires Searchable(tables, n) && i < |tables|
    ensures Sorted(tables[i]) && KeysLong(tables[i], n)
    decreases |tables|
  {
    if i < |tables| - 1 {
      SearchableAt(tables[..|tables| - 1], n, i);
    }
  }

  /** Sorted tables whose hash keys hold n bytes can be probed at prefix
      size n. */
  lemma {:induction false} SearchableFrom(tables: seq<seq<Bucket>>, n: nat)
    requires forall i :: 0 <= i < |tables| ==> Sorted(tables[i]) && KeysLong(tables[i], n)
    ensures Searchable(tables, n)
    decreases |tables|
  {
    if tables != [] {
      var front := tables[..|tables| - 1];
      forall i | 0 <= i < |front| ensures Sorted(front[i]) && KeysLong(front[i], n) {
        assert front[i] == tables[i];
      }
      SearchableFrom(front, n);
    }
  }

  /** Tables that can be probed at prefix size n can be probed at every
      shorter prefix size m. */
  lemma {:induction false} SearchableShorter(tables: seq<seq<Bucket>>, n: nat, m: nat)
    requires Searchable(tables, n) && m <= n
    ensures Searchable(tables, m)
    decreases |tables|
  {
    if tables != [] {
      SearchableShorter(tables[..|tables| - 1], n, m);
    }
  }

  lemma AllKeyedFewer(hs: seq<seq<string>>, n: nat, m: nat)
    requires AllKeyed(hs, n) && m <= n
    ensures AllKeyed(hs, m)
  {
  }

  lemma FoundAt(tables: seq<seq<Bucket>>, hs: seq<seq<string>>, prefix: nat, i: nat)
    requires i < |tables|
    ensures Found(tables, hs, prefix)[i] == FoundIn(tables[i], hs, i, prefix)
    ensures |FoundIn(tables[i], hs, i, prefix)| == |hs|
  {
  }

  /** `probe(Hs, prefixSize)`: the tables in turn, each with every query */
  method ProbePairs(tables: seq<seq<Bucket>>, hs: seq<seq<string>>, prefix: nat) returns (pairs: seq<UnionPair>)
    requires Searchable(tables, prefix)
    requires AllKeyed(hs, |tables|)
    ensures pairs == PairRound(Found(tables, hs, prefix), |tables|)
  {
    pairs := [];
    var i := 0;
    while i < |tables|
      invariant 0 <= i <= |tables|
      invariant pairs == PairRound(Found(tables, hs, prefix), i)
    {
      pairs := ProbeNext(tables, hs, prefix, i, pairs);
      i := i + 1;
    }
  }

  /** the body of the loop of `probe`: table i probed with every query */
  method ProbeNext(tables: seq<seq<Bucket>>, hs: seq<seq<string>>, prefix: nat, i: nat, pairs: seq<UnionPair>) returns (pairs': seq<UnionPair>)
    requires Searchable(tables, prefix) && AllKeyed(hs, |tables|) && i < |tables|
    requires pairs == PairRound(Found(tables, hs, prefix), i)
    ensures pairs' == PairRound(Found(tables, hs, prefix), i + 1)
  {
    SearchableAt(tables, prefix, i);
    AllKeyedFewer(hs, |tables|, i + 1);
    FoundAt(tables, hs, prefix, i);
    var hits := ProbeTable(tables[i], hs, i, prefix);
    pairs' := pairs + hits;
  }

  /** the band keys of one query cut to K values; a slice past the end of
      the signature panics */
  method SignatureKeys(sig: seq<Word64>, l: nat, k: nat, K: nat, size: nat) returns (r: Outcome<seq<string>>)
    requires size <= 8
    ensures r.Panic? <==> !BandsFit(sig, l, k, K)
    ensures r.Value? ==> BandsFit(sig, l, k, K) && r.value == SignatureKeysOf(sig, l, k, K, size)
  {
    var shs := new string[l];
    var i := 0;
    while i < l
      invariant 0 <= i <= l
      invariant forall a :: 0 <= a < i ==> a * k + K <= |sig| && shs[a] == BandKey(sig, k, K, size, a)
    {
      if i * k + K > |sig| {
        BandFits(i, l, k);
        return Panic("slice bounds out of range");
      }
      shs[i] := HashKeyFunc(sig[i * k .. i * k + K], size);
      i := i + 1;
    }
    if l > 0 {
      NextBand(l - 1, k);
      assert (l - 1) * k + K <= |sig|;
    }
    return Value(shs[..]);
  }

  /** the hash keys of round K, query by query */
  method RoundKeys(sigs: seq<seq<Word64>>, l: nat, k: nat, K: nat, size: nat) returns (r: Outcome<seq<seq<string>>>)
    requires size <= 8
    ensures r.Panic? <==> exists p :: 0 <= p < |sigs| && !BandsFit(sigs[p], l, k, K)
    ensures r.Value? ==> (forall p :: 0 <= p < |sigs| ==> BandsFit(sigs[p], l, k, K)) && r.value == RoundKeysOf(sigs, l, k, K, size)
  {
    var hs := new seq<string>[|sigs|];
    var j := 0;
    while j < |sigs|
      invariant 0 <= j <= |sigs|
      invariant forall p :: 0 <= p < j ==> BandsFit(sigs[p], l, k, K) && hs[p] == SignatureKeysOf(sigs[p], l, k, K, size)
    {
      var shs := SignatureKeys(sigs[j], l, k, K, size);
      if shs.Panic? {
        return Panic(shs.reason);
      }
      hs[j] := shs.value;
      j := j + 1;
    }
    return Value(hs[..]);
  }

  /** round K of `query`: the band keys of every query cut to K values,
      then every table probed with them at prefix size size*K; cutting a
      band past the end of a signature panics */
  method QueryRound(tables: seq<seq<Bucket>>, sigs: seq<seq<Word64>>, l: nat, k: nat, size: nat, K: nat,
                    out: seq<UnionPair>, seen: set<UnionPair>, ghost before: seq<UnionPair>)
    returns (panicked: bool, out': seq<UnionPair>, seen': set<UnionPair>)
    requires size <= 8 && |tables| == l && K <= k
    requires Searchable(tables, size * k)
    requires K < k ==> AllLong(sigs, l * k)
    requires out == Dedup(before) && Tracks(seen, out)
    ensures panicked <==> K == k && !AllLong(sigs, l * k)
    ensures !panicked ==> AllLong(sigs, l * k)
    ensures !panicked ==> out' == Dedup(before + RoundAt(tables, sigs, l, k, size, K)) && Tracks(seen', out')
  {
    var hs := RoundKeys(sigs, l, k, K, size);
    if hs.Panic? {
      ShortSignature(sigs, l, k, K);
      return true, out, seen;
    }
    if K == k {
      LongSignatures(sigs, l, k);
    }
    MulMonotone(size, K, k);
    SearchableShorter(tables, size * k, size * K);
    var pairs := ProbePairs(tables, hs.value, size * K);
    out', seen' := EmitUnseen(out, seen, pairs, before);
    return false, out', seen';
  }

  /** A band cut to K <= k values only runs past the end of a signature
      shorter than l*k. */
  lemma ShortSignature(sigs: seq<seq<Word64>>, l: nat, k: nat, K: nat)
    requires K <= k && exists p :: 0 <= p < |sigs| && !BandsFit(sigs[p], l, k, K)
    ensures !AllLong(sigs, l * k)
  {
    var p :| 0 <= p < |sigs| && !BandsFit(sigs[p], l, k, K);
    BandsFitLength(sigs[p], l, k);
  }

  lemma LongSignatures(sigs: seq<seq<Word64>>, l: nat, k: nat)
    requires forall p :: 0 <= p < |sigs| ==> BandsFit(sigs[p], l, k, k)
    ensures AllLong(sigs, l * k)
  {
    forall p | 0 <= p < |sigs| ensures l * k <= |sigs[p]| {
      BandsFitLength(sigs[p], l, k);
    }
  }

  /** Rounds k down to K are rounds k down to K+1 followed by round K. */
  lemma RoundsStep(tables: seq<seq<Bucket>>, sigs: seq<seq<Word64>>, l: nat, k: nat, size: nat, K: nat)
    requires size <= 8 && |tables| == l && K <= k
    requires AllLong(sigs, l * k)
    ensures Rounds(tables, sigs, l, k, size, K) ==
            (if K < k then Rounds(tables, sigs, l, k, size, K + 1) else []) + RoundAt(tables, sigs, l, k, size, K)
  {
    var rs := AllRounds(tables, sigs, l, k, size);
    DownwardStep(rs, K);
    assert rs[K] == RoundAt(tables, sigs, l, k, size, K);
  }

  lemma DownwardStep(rs: seq<seq<UnionPair>>, lo: nat)
    requires lo < |rs|
    ensures Downward(rs, lo) == (if lo + 1 < |rs| then Downward(rs, lo + 1) else []) + rs[lo]
  {
  }

  /** the rounds of `query`, K = k down to 1 */
  method QueryRounds(tables: seq<seq<Bucket>>, sigs: seq<seq<Word64>>, l: nat, k: nat, size: nat) returns (r: Outcome<seq<UnionPair>>)
    requires size <= 8 && |tables| == l
    requires Searchable(tables, size * k)
    ensures r.Panic? <==> k > 0 && !AllLong(sigs, l * k)
    ensures r.Value? ==> AllLong(sigs, l * k) || k == 0
    ensures r.Value? && k > 0 ==> r.value == Dedup(Rounds(tables, sigs, l, k, size, 1))
  {
    var out: seq<UnionPair> := [];
    var seen: set<UnionPair> := {};
    var K: nat := k;
    while K > 0
      invariant K <= k
      invariant K < k ==> AllLong(sigs, l * k)
      invariant K < k ==> out == Dedup(Rounds(tables, sigs, l, k, size, K + 1))
      invariant K == k ==> out == []
      invariant Tracks(seen, out)
    {
      ghost var before: seq<UnionPair> := if K < k then Rounds(tables, sigs, l, k, size, K + 1) else [];
      var panicked;
      panicked, out, seen := QueryRound(tables, sigs, l, k, size, K, out, seen, before);
      if panicked {
        return Panic("slice bounds out of range");
      }
      RoundsStep(tables, sigs, l, k, size, K);
      K := K - 1;
    }
    return Value(out);
  }

  /** `MinhashLSH`: l sorted tables and l bootstrapping maps; band width k,
      hashValueSize bytes per value in a hash key */
  class MinhashLSH {
    const k: nat
    const l: nat
    const hashValueSize: nat
    var initHashTables: seq<map<string, seq<string>>>
    var hashTables: seq<seq<Bucket>>

    ghost predicate Valid()
      reads this
    {
      hashValueSize <= 8 && |hashTables| == l && |initHashTables| == l &&
      Searchable(hashTables, hashValueSize * k) &&
      (forall i, h :: 0 <= i < l && h in initHashTables[i] ==> |h| == hashValueSize * k)
    }

    /** `newMinhashLSH` once `optimalKL` has chosen k and l; the public
        constructors pass 8, 4 or 2 bytes per hash value */
    constructor(k: nat, l: nat, hashValueSize: nat)
      requires hashValueSize <= 8
      ensures Valid()
      ensures this.k == k && this.l == l && this.hashValueSize == hashValueSize
      ensures hashTables == seq(l, _ => []) && initHashTables == seq(l, _ => map[])
    {
      this.k, this.l, this.hashValueSize := k, l, hashValueSize;
      hashTables := seq(l, _ => []);
      initHashTables := seq(l, _ => map[]);
      new;
      SearchableFrom(hashTables, hashValueSize * k);
    }

    /** `Add`: the key appended to the bucket of band key i in bootstrapping
        map i; slicing a band past the end of the signature panics */
    method Add(key: string, sig: seq<Word64>) returns (panicked: bool)
      requires Valid()
      modifies this`initHashTables
      ensures Valid()
      ensures panicked <==> |sig| < l * k
      ensures panicked ==> initHashTables == old(initHashTables)
      ensures !panicked ==> BandsFit(sig, l, k, k) && |initHashTables| == l
      ensures !panicked ==> forall i :: 0 <= i < l ==>
        initHashTables[i] == AddKey(old(initHashTables)[i], SignatureKeysOf(sig, l, k, k, hashValueSize)[i], key)
    {
      BandsFitLength(sig, l, k);
      // the band keys sig[i*k .. (i+1)*k], as the first round of a query
      // computes them
      var hs := SignatureKeys(sig, l, k, k, hashValueSize);
      if hs.Panic? {
        return true;
      }
      var added := AddToTables(initHashTables, hs.value, key);
      AddedKeysLength(initHashTables, hs.value, key, added, hashValueSize * k);
      initHashTables := added;
      return false;
    }

    /** `Index`: every table gains one bucket per entry of its bootstrapping
        map and is sorted by hash key; the maps are emptied */
    method Index()
      requires Valid()
      modifies this`hashTables, this`initHashTables
      ensures Valid()
      ensures initHashTables == seq(l, _ => map[])
      ensures forall i, b :: 0 <= i < l ==>
        (b in hashTables[i] <==>
           b in old(hashTables)[i] || (b.hashKey in old(initHashTables)[i] && old(initHashTables)[i][b.hashKey] == b.keys))
    {
      forall i | 0 <= i < l ensures Sorted(hashTables[i]) && KeysLong(hashTables[i], hashValueSize * k) {
        SearchableAt(hashTables, hashValueSize * k, i);
      }
      hashTables := IndexAll(hashTables, initHashTables, hashValueSize * k);
      SearchableFrom(hashTables, hashValueSize * k);
      initHashTables := seq(l, _ => map[]);
    }

    /** `query` (and `QueryPlus`): rounds K = k down to 1, each probing every
        table with every query's band keys cut to K values, every pair
        emitted once; it panics when a query signature is shorter than l*k */
    method Query(sigs: seq<seq<Word64>>) returns (r: Outcome<seq<UnionPair>>)
      requires Valid()
      ensures r.Panic? <==> k > 0 && !AllLong(sigs, l * k)
      ensures r.Value? ==> AllLong(sigs, l * k) || k == 0
      ensures r.Value? && k > 0 ==> r.value == Dedup(Rounds(hashTables, sigs, l, k, hashValueSize, 1))
    {
      r := QueryRounds(hashTables, sigs, l, k, hashValueSize);
    }
  }
}
