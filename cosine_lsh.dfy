/** embserver/cosinelsh.go: the cosine LSH index over embedding vectors.
    A point's signature holds one bit per random hyperplane (the sign of a
    floating-point dot product, computed by `newSignature` and taken here
    as given). `hash` cuts it into l bands of m bits; `toBasicHashTableKeys`
    reads each band as a base-2 number, and that 64-bit word is the point's
    key in the hash table of its band. */
module CosineLsh {
  import opened Wrappers
  import opened GoStrings
  import SimhashLsh
  import LshForest
  import Unionability

  /** a hash table: 64-bit key to the ids inserted under it, in order */
  type Table = map<Word64, seq<string>>

  function Pow2(n: nat): (p: nat)
    ensures p >= 1
  {
    if n == 0 then 1 else 2 * Pow2(n - 1)
  }

  lemma {:induction false} Pow2Monotone(a: nat, b: nat)
    requires a <= b
    ensures Pow2(a) <= Pow2(b)
  {
    if a < b {
      Pow2Monotone(a, b - 1);
    }
  }

  lemma {:induction false} Pow2Sum(a: nat, b: nat)
    ensures Pow2(a + b) == Pow2(a) * Pow2(b)
  {
    if b > 0 {
      Pow2Sum(a, b - 1);
    }
  }

  lemma Pow2SixtyFour()
    ensures Pow2(64) == TwoTo64
  {
    assert Pow2(4) == 16;
    Pow2Sum(4, 4);
    assert Pow2(8) == 256;
    Pow2Sum(8, 8);
    assert Pow2(16) == 65536;
    Pow2Sum(16, 16);
    assert Pow2(32) == 4294967296;
    Pow2Sum(32, 32);
  }

  /** A string of n binary digits stands for a number below 2^n. */
  lemma {:induction false} BinValueBound(s: string)
    requires AllBits(s)
    ensures BinValue(s) < Pow2(|s|)
  {
    if s != [] {
      BinValueBound(s[..|s| - 1]);
    }
  }

  /** Two strings of binary digits of one length with one value are equal. */
  lemma {:induction false} BinValueInjective(s: string, t: string)
    requires AllBits(s) && AllBits(t) && |s| == |t|
    requires BinValue(s) == BinValue(t)
    ensures s == t
  {
    if s != [] {
      var n := |s| - 1;
      assert (s[n] == '1') == (t[n] == '1') by {
        assert BinValue(s) % 2 == (if s[n] == '1' then 1 else 0);
        assert BinValue(t) % 2 == (if t[n] == '1' then 1 else 0);
      }
      BinValueInjective(s[..n], t[..n]);
      assert s == s[..n] + [s[n]] && t == t[..n] + [t[n]];
    }
  }

  /** the table key of one band: its bits read as a base-2 number, or the
      error `toBasicHashTableKeys` panics with */
  function BandWord(band: seq<Byte>): (r: Result<Word64>)
  {
    if !SimhashLsh.IsBits(band) then Err("Hash value is not 0 or 1")
    else
      match ParseUintBase2(SimhashLsh.BitString(band))
      case Ok(v) => Ok(v as Word64)
      case Err(e) => Err(e)
  }

  /** A band of 1 to 64 bits always has a key. */
  lemma BandWordFits(band: seq<Byte>)
    requires SimhashLsh.IsBits(band) && 1 <= |band| <= 64
    ensures BandWord(band).Ok?
  {
    var s := SimhashLsh.BitString(band);
    BinValueBound(s);
    Pow2Monotone(|s|, 64);
    Pow2SixtyFour();
  }

  /** An empty band, or one that is not all bits, has no key and panics. */
  lemma BandWordFails(band: seq<Byte>)
    requires band == [] || !SimhashLsh.IsBits(band)
    ensures BandWord(band).Err?
  {
  }

  /** Distinct bands of one width have distinct keys: a table key stands for
      exactly one band. */
  lemma BandWordInjective(a: seq<Byte>, b: seq<Byte>)
    requires |a| == |b| && BandWord(a).Ok? && BandWord(a) == BandWord(b)
    ensures a == b
  {
    var s, t := SimhashLsh.BitString(a), SimhashLsh.BitString(b);
    BinValueInjective(s, t);
    SimhashLsh.BitsOfBitString(a);
    SimhashLsh.BitsOfBitString(b);
  }

  /** `toBasicHashTableKeys`: the key of every band in a slice of l words
      (zero past the last band); it panics when a band has no key or when
      there are more bands than l */
  method ToBasicHashTableKeys(keys: seq<seq<Byte>>, l: nat) returns (r: Outcome<seq<Word64>>)
    ensures r.Panic? <==> |keys| > l || exists i :: 0 <= i < |keys| && BandWord(keys[i]).Err?
    ensures r.Value? ==> |r.value| == l
    ensures r.Value? ==> forall i :: 0 <= i < |keys| ==> BandWord(keys[i]) == Ok(r.value[i])
    ensures r.Value? ==> forall i :: |keys| <= i < l ==> r.value[i] == 0
  {
    var basic := new Word64[l](_ => 0);
    var i := 0;
    while i < |keys|
      invariant 0 <= i <= |keys| && i <= l
      invariant forall a :: 0 <= a < i ==> BandWord(keys[a]) == Ok(basic[a])
      invariant forall a :: i <= a < l ==> basic[a] == 0
    {
      var key := keys[i];
      var s := "";
      var j := 0;
      while j < |key|
        invariant 0 <= j <= |key|
        invariant SimhashLsh.IsBits(key[..j]) && s == SimhashLsh.BitString(key[..j])
      {
        assert key[..j + 1][..j] == key[..j];
        if key[j] == 0 {
          s := s + "0";
        } else if key[j] == 1 {
          s := s + "1";
        } else {
          assert !SimhashLsh.IsBits(key) by {
            assert key[j] > 1;
          }
          return Panic("Hash value is not 0 or 1");
        }
        j := j + 1;
      }
      assert key[..j] == key;
      var v := ParseUintBase2(s);
      if v.Err? {
        return Panic(v.error);
      }
      if i >= l {
        return Panic("index out of range");
      }
      basic[i] := v.value as Word64;
      i := i + 1;
    }
    return Value(basic[..]);
  }

  /** the key (or the error) of every band of a signature */
  function Words(sig: seq<Byte>, l: nat, m: nat): (w: seq<Result<Word64>>)
    requires l * m <= |sig|
    ensures |w| == l
  {
    seq(l, i requires 0 <= i < l => LshForest.BandFits(i, l, m); BandWord(sig[i * m .. i * m + m]))
  }

  /** every band has a key */
  predicate AllWords(w: seq<Result<Word64>>)
  {
    forall i :: 0 <= i < |w| ==> w[i].Ok?
  }

  /** Bands of 1 to 64 bits all have keys when the signature is bits. */
  lemma WordsExist(sig: seq<Byte>, l: nat, m: nat)
    requires l * m <= |sig| && SimhashLsh.IsBits(sig[..l * m]) && 1 <= m <= 64
    ensures AllWords(Words(sig, l, m))
  {
    var w := Words(sig, l, m);
    forall i | 0 <= i < l ensures w[i].Ok? {
      SimhashLsh.BandBits(sig, l, m, i);
      BandWordFits(sig[i * m .. i * m + m]);
    }
  }

  /** With a table or more, empty bands or a value that is not a bit leave
      some band without a key. */
  lemma WordsMissing(sig: seq<Byte>, l: nat, m: nat)
    requires l * m <= |sig| && l >= 1 && (m == 0 || !SimhashLsh.IsBits(sig[..l * m]))
    ensures !AllWords(Words(sig, l, m))
  {
    var w := Words(sig, l, m);
    if m == 0 {
      assert sig[0 * m .. 0 * m + m] == [];
      assert w[0].Err?;
    } else {
      var j :| 0 <= j < l * m && sig[..l * m][j] > 1;
      var i := j / m;
      BandOf(j, l, m);
      var lo := i * m;
      var band := sig[lo .. lo + m];
      assert band[j - lo] == sig[j] == sig[..l * m][j];
      assert !SimhashLsh.IsBits(band);
      assert w[i] == BandWord(band);
    }
  }

  /** position j of the first l bands of m values lies in band j / m */
  lemma BandOf(j: nat, l: nat, m: nat)
    requires m > 0 && j < l * m
    ensures j / m < l && 0 <= (j / m) * m <= j < (j / m) * m + m <= l * m
  {
    var i := j / m;
    assert j == i * m + j % m;
    LshForest.BandFits(i, l, m);
  }

  /** the key of every band, when every band has one */
  function KeysOf(sig: seq<Byte>, l: nat, m: nat): (keys: seq<Word64>)
    requires l * m <= |sig| && AllWords(Words(sig, l, m))
    ensures |keys| == l && forall i :: 0 <= i < l ==> Words(sig, l, m)[i] == Ok(keys[i])
  {
    var w := Words(sig, l, m);
    seq(l, i requires 0 <= i < l => w[i].value)
  }

  /** `Insert` on one table: the id appended to the bucket of its key, the
      bucket created when the key is new; no other bucket changes */
  function Append(t: Table, hv: Word64, id: string): (r: Table)
    ensures r.Keys == t.Keys + {hv}
    ensures r[hv] == (if hv in t then t[hv] else []) + [id]
    ensures forall h :: h in t && h != hv ==> r[h] == t[h]
  {
    t[hv := (if hv in t then t[hv] else []) + [id]]
  }

  /** `Insert` on every table, table i under key i */
  function Inserted(tables: seq<Table>, keys: seq<Word64>, id: string): (r: seq<Table>)
    requires |tables| <= |keys|
    ensures |r| == |tables|
  {
    seq(|tables|, i requires 0 <= i < |tables| => Append(tables[i], keys[i], id))
  }

  /** the ids in table t's bucket for key hv */
  function Hits(t: Table, hv: Word64): set<string>
  {
    if hv in t then set id | id in t[hv] else {}
  }

  /** the ids of the first n tables' buckets that the keys select */
  function Candidates(tables: seq<Table>, keys: seq<Word64>, n: nat): set<string>
    requires n <= |tables| && n <= |keys|
  {
    if n == 0 then {} else Candidates(tables, keys, n - 1) + Hits(tables[n - 1], keys[n - 1])
  }

  /** An id is a candidate exactly when one of the first n tables holds it
      under the key of that table. */
  lemma {:induction false} CandidatesMembers(tables: seq<Table>, keys: seq<Word64>, n: nat, id: string)
    requires n <= |tables| && n <= |keys|
    ensures id in Candidates(tables, keys, n) <==>
            exists i :: 0 <= i < n && keys[i] in tables[i] && id in tables[i][keys[i]]
  {
    if n > 0 {
      CandidatesMembers(tables, keys, n - 1, id);
      if id in Hits(tables[n - 1], keys[n - 1]) {
        assert keys[n - 1] in tables[n - 1] && id in tables[n - 1][keys[n - 1]];
      }
    }
  }

  lemma AppendHits(t: Table, hv: Word64, id: string, q: Word64)
    ensures Hits(Append(t, hv, id), q) == Hits(t, q) + (if q == hv then {id} else {})
  {
  }

  /** After an insert under keys, a query under q finds what it found before,
      and the new id exactly when q shares a key with the insert in some
      table: in particular a point's own query finds it. */
  lemma {:induction false} InsertedCandidates(tables: seq<Table>, keys: seq<Word64>, id: string, q: seq<Word64>, n: nat)
    requires |tables| <= |keys| && n <= |tables| && n <= |q|
    ensures Candidates(Inserted(tables, keys, id), q, n) ==
            Candidates(tables, q, n) + (if SharesKey(q, keys, n) then {id} else {})
  {
    if n > 0 {
      var ins := Inserted(tables, keys, id);
      InsertedCandidates(tables, keys, id, q, n - 1);
      assert ins[n - 1] == Append(tables[n - 1], keys[n - 1], id);
      AppendHits(tables[n - 1], keys[n - 1], id, q[n - 1]);
      SharedKeySnoc(keys, q, n);
      assert Candidates(ins, q, n) == Candidates(ins, q, n - 1) + Hits(ins[n - 1], q[n - 1]);
      assert Candidates(tables, q, n) == Candidates(tables, q, n - 1) + Hits(tables[n - 1], q[n - 1]);
      UnionWithId(Candidates(tables, q, n - 1), Hits(tables[n - 1], q[n - 1]), id,
                  SharesKey(q, keys, n - 1), q[n - 1] == keys[n - 1]);
    }
  }

  lemma UnionWithId(b: set<string>, h: set<string>, id: string, f1: bool, f2: bool)
    ensures (b + if f1 then {id} else {}) + (h + if f2 then {id} else {}) == (b + h) + if f1 || f2 then {id} else {}
  {
  }

  /** q and keys agree in one of the first n tables */
  predicate SharesKey(q: seq<Word64>, keys: seq<Word64>, n: nat)
    requires n <= |keys| && n <= |q|
  {
    exists i :: 0 <= i < n && q[i] == keys[i]
  }

  /** q shares a key with keys among the first n tables exactly when it
      does among the first n - 1 or in table n - 1 */
  lemma SharedKeySnoc(keys: seq<Word64>, q: seq<Word64>, n: nat)
    requires 0 < n <= |keys| && n <= |q|
    ensures SharesKey(q, keys, n) <==> SharesKey(q, keys, n - 1) || q[n - 1] == keys[n - 1]
  {
    if SharesKey(q, keys, n) {
      var i :| 0 <= i < n && q[i] == keys[i];
      if i < n - 1 {
        assert SharesKey(q, keys, n - 1);
      }
    }
  }

  /** `CosineLsh`: the parameters (dim dimensions, l tables, m hash values
      per table, h = m * l hyperplanes) and l hash tables */
  class CosineLsh {
    const dim: nat
    const l: nat
    const m: nat
    const h: nat
    var tables: seq<Table>

    predicate Valid()
      reads this
    {
      h == l * m && |tables| == l
    }

    /** `NewCosineLsh`: m * l hyperplanes and l empty hash tables */
    constructor(dim: nat, l: nat, m: nat)
      ensures Valid()
      ensures this.dim == dim && this.l == l && this.m == m && h == l * m
      ensures tables == seq(l, _ => map[])
    {
      this.dim, this.l, this.m, h := dim, l, m, l * m;
      tables := seq(l, _ => map[]);
    }

    /** `toBasicHashTableKeys(hash(point))`: the key of each band of the
        point's signature, or a panic when some band has none */
    method Keys(sig: seq<Byte>) returns (r: Outcome<seq<Word64>>)
      requires Valid() && |sig| == h
      ensures r.Panic? <==> !AllWords(Words(sig, l, m))
      ensures r.Value? ==> AllWords(Words(sig, l, m)) && r.value == KeysOf(sig, l, m)
    {
      var hvs := SimhashLsh.Hash(sig, l, m);
      r := ToBasicHashTableKeys(hvs, l);
      var w := Words(sig, l, m);
      assert forall i :: 0 <= i < l ==> w[i] == BandWord(hvs[i]);
      if r.Value? {
        assert r.value == KeysOf(sig, l, m);
      }
    }

    /** `Insert`: the id appended to its bucket in every table; a panic
        leaves the tables as they were */
    method Insert(sig: seq<Byte>, id: string) returns (panicked: bool)
      requires Valid() && |sig| == h
      modifies this`tables
      ensures Valid()
      ensures panicked <==> !AllWords(Words(sig, l, m))
      ensures panicked ==> tables == old(tables)
      ensures !panicked ==> AllWords(Words(sig, l, m)) && tables == Inserted(old(tables), KeysOf(sig, l, m), id)
    {
      var hvs := Keys(sig);
      if hvs.Panic? {
        return true;
      }
      var keys := hvs.value;
      var ts := tables;
      var i := 0;
      while i < l
        invariant 0 <= i <= l && |ts| == l
        invariant forall a :: 0 <= a < i ==> ts[a] == Append(tables[a], keys[a], id)
        invariant forall a :: i <= a < l ==> ts[a] == tables[a]
      {
        ts := ts[i := Append(ts[i], keys[i], id)];
        i := i + 1;
      }
      assert ts == Inserted(tables, keys, id);
      tables := ts;
      return false;
    }

    /** `Query`: every id of the buckets the point's keys select, each once,
        in the unspecified order of Go's map iteration */
    method Query(sig: seq<Byte>) returns (r: Outcome<seq<string>>)
      requires Valid() && |sig| == h
      ensures r.Panic? <==> !AllWords(Words(sig, l, m))
      ensures r.Value? ==> AllWords(Words(sig, l, m)) && Unionability.NoDuplicates(r.value)
      ensures r.Value? ==> forall id :: id in r.value <==> id in Candidates(tables, KeysOf(sig, l, m), l)
    {
      var hvs := Keys(sig);
      if hvs.Panic? {
        return Panic(hvs.reason);
      }
      var keys := hvs.value;
      var seen: set<string> := {};
      var i := 0;
      while i < l
        invariant 0 <= i <= l
        invariant seen == Candidates(tables, keys, i)
      {
        if keys[i] in tables[i] {
          seen := AddIds(seen, tables[i][keys[i]]);
        }
        i := i + 1;
      }
      var ids := Collect(seen);
      return Value(ids);
    }
  }

  /** the inner loop of `Query`: the ids of one bucket added to those
      seen */
  method AddIds(seen: set<string>, candidates: seq<string>) returns (r: set<string>)
    ensures r == seen + set id | id in candidates
  {
    r := seen;
    var j := 0;
    while j < |candidates|
      invariant 0 <= j <= |candidates|
      invariant r == seen + set id | id in candidates[..j]
    {
      assert candidates[..j + 1] == candidates[..j] + [candidates[j]];
      if candidates[j] !in r {
        r := r + {candidates[j]};
      }
      j := j + 1;
    }
    assert candidates[..j] == candidates;
  }

  /** the members of a set in some order, each once (Go's `range` over a
      map visits its keys in an unspecified order) */
  method Collect(seen: set<string>) returns (ids: seq<string>)
    ensures Unionability.NoDuplicates(ids)
    ensures forall id :: id in ids <==> id in seen
  {
    ids := [];
    var rest := seen;
    while rest != {}
      invariant rest <= seen
      invariant Unionability.NoDuplicates(ids)
      invariant forall id :: id in ids <==> id in seen && id !in rest
      decreases |rest|
    {
      var id :| id in rest;
      ids := ids + [id];
      rest := rest - {id};
    }
  }
}
