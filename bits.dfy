/** Meta values, full state keys and the enumeration of the states a bitmask allows. */
module Bits {

  /** The 4-bit packed state ("meta") that sits under a block id. */
  type Meta = bv4

  /** Number of slots in every registry table. */
  const Capacity: int := 8192

  /** The full state key `(id << 4) | meta`; for a 4-bit meta the OR is an addition. */
  function Key(id: int, meta: Meta): int
  {
    id * 16 + meta as int
  }

  /** `key >> 4`: PHP's shift floors, and so does Dafny's division by a positive constant. */
  function KeyId(key: int): int
  {
    key / 16
  }

  /** The meta with value `n`, listed case by case so that no integer is converted to a bit-vector. */
  function MetaOf(n: int): (m: Meta)
    requires 0 <= n < 16
    ensures m as int == n
  {
    if n < 8 then
      if n < 4 then (if n == 0 then 0 else if n == 1 then 1 else if n == 2 then 2 else 3)
      else (if n == 4 then 4 else if n == 5 then 5 else if n == 6 then 6 else 7)
    else
      if n < 12 then (if n == 8 then 8 else if n == 9 then 9 else if n == 10 then 10 else 11)
      else (if n == 12 then 12 else if n == 13 then 13 else if n == 14 then 14 else 15)
  }

  lemma MetaOfValue(m: Meta)
    ensures MetaOf(m as int) == m
  {
  }

  /** `key & 0xf`. */
  function KeyMeta(key: int): Meta
  {
    MetaOf(key % 16)
  }

  lemma KeySplit(id: int, meta: Meta)
    ensures KeyId(Key(id, meta)) == id && KeyMeta(Key(id, meta)) == meta
  {
    MetaOfValue(meta);
  }

  lemma KeyJoin(key: int)
    ensures Key(KeyId(key), KeyMeta(key)) == key
  {
  }

  /** A key lies in the tables for every meta exactly when the id is below 512. */
  lemma KeyInRange(id: int, meta: Meta)
    ensures 0 <= Key(id, meta) < Capacity <==> 0 <= id < Capacity / 16
  {
  }

  /** `m` is one of the metas `register` enumerates: `variant` with only masked bits varying. */
  function IsCandidate(m: Meta, variant: Meta, mask: Meta): (r: bool)
    ensures r ==> variant & mask == 0
    ensures r ==> m & variant == variant && (m ^ variant) & !mask == 0
    ensures variant & mask == 0 && m & variant == variant && (m ^ variant) & !mask == 0 ==> r
  {
    m & !mask == variant
  }

  /** Every candidate lies in the loop range `[variant, variant | mask]`. */
  lemma CandidateBounds(m: Meta, variant: Meta, mask: Meta)
    requires IsCandidate(m, variant, mask)
    ensures variant as int <= m as int <= (variant | mask) as int
  {
  }

  /** The single bit `1 << k`. */
  function Bit(k: nat): (b: Meta)
    requires k < 4
  {
    if k == 0 then 1 else if k == 1 then 2 else if k == 2 then 4 else 8
  }

  /** The bits below position `k`: `(1 << k) - 1`. */
  function Low(k: nat): (b: Meta)
    requires k <= 4
  {
    if k == 0 then 0 else if k == 1 then 1 else if k == 2 then 3 else if k == 3 then 7 else 15
  }

  function Pow2(n: nat): (r: nat)
    ensures r >= 1
  {
    if n == 0 then 1 else 2 * Pow2(n - 1)
  }

  /** Number of set bits of `mask` below position `k`. */
  function PopCountBelow(mask: Meta, k: nat): (r: nat)
    requires k <= 4
    ensures r <= k
  {
    if k == 0 then 0
    else PopCountBelow(mask, k - 1) + (if mask & Bit(k - 1) != 0 then 1 else 0)
  }

  function PopCount(mask: Meta): nat
  {
    PopCountBelow(mask, 4)
  }

  /** Adds bit `d` to every element of `s`. */
  function WithBit(s: seq<Meta>, d: Meta): (r: seq<Meta>)
    ensures |r| == |s|
  {
    seq(|s|, i requires 0 <= i < |s| => s[i] | d)
  }

  /** The sub-masks of `mask` that only use bits below position `k`, listed bit by bit. */
  function SubmasksBelow(mask: Meta, k: nat): seq<Meta>
    requires k <= 4
  {
    if k == 0 then [0]
    else
      var low := SubmasksBelow(mask, k - 1);
      if mask & Bit(k - 1) == 0 then low else low + WithBit(low, Bit(k - 1))
  }

  /** The metas `register` enumerates for a prototype with this variant and mask, in a list. */
  function CandidateList(variant: Meta, mask: Meta): seq<Meta>
  {
    WithBit(SubmasksBelow(mask, 4), variant)
  }

  /** The full state keys of the candidates of a prototype with this id, variant and mask. */
  function CandidateKeyList(id: int, variant: Meta, mask: Meta): (r: seq<int>)
    ensures |r| == |CandidateList(variant, mask)|
  {
    var c := CandidateList(variant, mask);
    seq(|c|, i requires 0 <= i < |c| => Key(id, c[i]))
  }

  /** The same keys as a set. */
  function CandidateKeys(id: int, variant: Meta, mask: Meta): set<int>
  {
    set k | k in CandidateKeyList(id, variant, mask)
  }

  /** No value occurs twice in `s`. */
  predicate Distinct<T(==)>(s: seq<T>)
  {
    forall i, j :: 0 <= i < j < |s| ==> s[i] != s[j]
  }

  lemma {:induction false} SubmasksBelowLength(mask: Meta, k: nat)
    requires k <= 4
    ensures |SubmasksBelow(mask, k)| == Pow2(PopCountBelow(mask, k))
  {
    if k > 0 {
      SubmasksBelowLength(mask, k - 1);
    }
  }

  lemma {:induction false} SubmasksBelowMembers(mask: Meta, k: nat)
    requires k <= 4
    ensures forall s :: s in SubmasksBelow(mask, k) <==> s & !mask == 0 && s & !Low(k) == 0
  {
    if k > 0 {
      SubmasksBelowMembers(mask, k - 1);
      var low := SubmasksBelow(mask, k - 1);
      var d := Bit(k - 1);
      if mask & d != 0 {
        forall s | s in WithBit(low, d)
          ensures s & !mask == 0 && s & !Low(k) == 0
        {
          var i :| 0 <= i < |low| && WithBit(low, d)[i] == s;
          assert low[i] in low;
        }
      }
      forall s | s & !mask == 0 && s & !Low(k) == 0
        ensures s in SubmasksBelow(mask, k)
      {
        if s & d != 0 {
          var s0 := s & !d;
          assert s0 in low;
          var i :| 0 <= i < |low| && low[i] == s0;
          assert WithBit(low, d)[i] == s;
        }
      }
    }
  }

  lemma {:induction false} SubmasksBelowDistinct(mask: Meta, k: nat)
    requires k <= 4
    ensures Distinct(SubmasksBelow(mask, k))
  {
    if k > 0 {
      SubmasksBelowDistinct(mask, k - 1);
      SubmasksBelowMembers(mask, k - 1);
      var low := SubmasksBelow(mask, k - 1);
      var d := Bit(k - 1);
      if mask & d != 0 {
        var all := low + WithBit(low, d);
        forall i, j | 0 <= i < j < |all|
          ensures all[i] != all[j]
        {
          if j < |low| {
          } else if i >= |low| {
            assert all[i] == low[i - |low|] | d && all[j] == low[j - |low|] | d;
            assert low[i - |low|] in low && low[j - |low|] in low;
          } else {
            assert low[j - |low|] in low && all[i] in low;
          }
        }
      }
    }
  }

  lemma CandidateListSound(variant: Meta, mask: Meta, m: Meta)
    requires m in CandidateList(variant, mask)
    ensures IsCandidate(m, variant, mask) || variant & mask != 0
  {
    SubmasksBelowMembers(mask, 4);
    var subs := SubmasksBelow(mask, 4);
    var i :| 0 <= i < |subs| && CandidateList(variant, mask)[i] == m;
    assert subs[i] in subs;
  }

  lemma CandidateListComplete(variant: Meta, mask: Meta, m: Meta)
    requires IsCandidate(m, variant, mask)
    ensures m in CandidateList(variant, mask)
  {
    SubmasksBelowMembers(mask, 4);
    var subs := SubmasksBelow(mask, 4);
    assert m & mask in subs;
    var i :| 0 <= i < |subs| && subs[i] == m & mask;
    assert CandidateList(variant, mask)[i] == m;
  }

  /** The candidate keys are exactly the keys of this id whose meta is a candidate. */
  lemma CandidateKeysMembers(id: int, variant: Meta, mask: Meta, k: int)
    requires variant & mask == 0
    ensures k in CandidateKeys(id, variant, mask) <==> KeyId(k) == id && IsCandidate(KeyMeta(k), variant, mask)
  {
    var c := CandidateList(variant, mask);
    if k in CandidateKeyList(id, variant, mask) {
      var i :| 0 <= i < |c| && Key(id, c[i]) == k;
      assert c[i] in c;
      CandidateListSound(variant, mask, c[i]);
      KeySplit(id, c[i]);
    }
    if KeyId(k) == id && IsCandidate(KeyMeta(k), variant, mask) {
      CandidateListComplete(variant, mask, KeyMeta(k));
      var i :| 0 <= i < |c| && c[i] == KeyMeta(k);
      KeyJoin(k);
      assert CandidateKeyList(id, variant, mask)[i] == k;
    }
  }

  /** A list without repetitions has as many distinct values as entries. */
  lemma {:induction false} DistinctSize(s: seq<int>)
    requires Distinct(s)
    ensures |set m | m in s| == |s|
  {
    if s != [] {
      DistinctSize(s[1..]);
      assert (set m | m in s) == (set m | m in s[1..]) + {s[0]};
      assert s[0] !in s[1..];
    }
  }

  /** A set whose values all occur in `s` has at most `|s|` values. */
  lemma {:induction false} SubsetSize(a: set<int>, s: seq<int>)
    requires forall m :: m in a ==> m in s
    ensures |a| <= |s|
  {
    if s == [] {
      assert forall m :: m !in a;
      assert a == {};
    } else {
      forall m | m in a - {s[0]}
        ensures m in s[1..]
      {
        var i :| 0 <= i < |s| && s[i] == m;
        assert s[1..][i - 1] == m;
      }
      SubsetSize(a - {s[0]}, s[1..]);
      if s[0] in a {
        assert a == (a - {s[0]}) + {s[0]};
      } else {
        assert a == a - {s[0]};
      }
    }
  }

  lemma CandidateKeyListDistinct(id: int, variant: Meta, mask: Meta)
    requires variant & mask == 0
    ensures Distinct(CandidateKeyList(id, variant, mask))
  {
    var subs := SubmasksBelow(mask, 4);
    SubmasksBelowDistinct(mask, 4);
    SubmasksBelowMembers(mask, 4);
    var keys := CandidateKeyList(id, variant, mask);
    forall i, j | 0 <= i < j < |keys|
      ensures keys[i] != keys[j]
    {
      assert subs[i] in subs && subs[j] in subs;
      KeySplit(id, subs[i] | variant);
      KeySplit(id, subs[j] | variant);
    }
  }

  /** A prototype has exactly `2^popcount(mask)` candidate keys. */
  lemma CandidateKeysCount(id: int, variant: Meta, mask: Meta)
    requires variant & mask == 0
    ensures |CandidateKeys(id, variant, mask)| == Pow2(PopCount(mask))
  {
    SubmasksBelowLength(mask, 4);
    CandidateKeyListDistinct(id, variant, mask);
    DistinctSize(CandidateKeyList(id, variant, mask));
  }
}
