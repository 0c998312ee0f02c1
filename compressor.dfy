/** The coordinate compressor (coord_compressor.rs): a dense numbering of keys, with
    a map from key to number and a vector from number back to key. */
module Compressor {

  /** The two tables are inverse to each other: `back` lists the keys in the order
      they were numbered, and `fwd` maps each of them to its position and holds
      nothing else. */
  ghost predicate Bijection<T>(fwd: map<T, nat>, back: seq<T>)
  {
    && |fwd| == |back|
    && (forall i :: 0 <= i < |back| ==> back[i] in fwd && fwd[back[i]] == i)
    && (forall k :: k in fwd ==> fwd[k] < |back| && back[fwd[k]] == k)
  }

  /** Numbering is injective: distinct positions hold distinct keys. */
  lemma Injective<T>(fwd: map<T, nat>, back: seq<T>, i: nat, j: nat)
    requires Bijection(fwd, back) && i < |back| && j < |back| && back[i] == back[j]
    ensures i == j
  {
    assert fwd[back[i]] == i && fwd[back[j]] == j;
  }

  /** Numbering a key not present yet with the next free number keeps the tables
      inverse to each other. */
  lemma InsertKeepsBijection<T>(fwd: map<T, nat>, back: seq<T>, v: T)
    requires Bijection(fwd, back) && v !in fwd
    ensures Bijection(fwd[v := |back|], back + [v])
  {
    var fwd', back' := fwd[v := |back|], back + [v];
    assert |fwd'| == |fwd| + 1;
    forall i | 0 <= i < |back'|
      ensures back'[i] in fwd' && fwd'[back'[i]] == i
    {
      if i < |back| {
        assert back'[i] == back[i];
        assert back[i] != v;
      }
    }
  }

  /** The keys numbered so far are exactly the keys listed in `back`. */
  lemma KeysListed<T>(fwd: map<T, nat>, back: seq<T>, v: T)
    requires Bijection(fwd, back)
    ensures v in fwd <==> v in back
  {
    if v in back {
      var i :| 0 <= i < |back| && back[i] == v;
      assert back[i] in fwd;
    }
  }

  class CoordCompressor<T(==)> {
    var fwd: map<T, nat>
    var back: seq<T>

    ghost predicate Valid()
      reads this
    {
      Bijection(fwd, back)
    }

    /** `new` (and `with_capacity`, whose capacity is only a hint): no key numbered. */
    constructor ()
      ensures Valid() && fwd == map[] && back == []
    {
      fwd := map[];
      back := [];
    }

    /** `compress`: the number of `v`, given on first sight as the next free number,
        at which `v` is appended to `back`. A key seen before keeps its number and
        changes neither table. */
    method Compress(v: T) returns (idx: nat)
      requires Valid()
      modifies this
      ensures Valid()
      ensures idx < |back| && back[idx] == v && v in fwd && fwd[v] == idx
      ensures v in old(fwd) ==> idx == old(fwd)[v] && fwd == old(fwd) && back == old(back)
      ensures v !in old(fwd) ==> idx == |old(back)| && back == old(back) + [v] && fwd == old(fwd)[v := idx]
    {
      if v in fwd {
        idx := fwd[v];
      } else {
        idx := |back|;
        InsertKeepsBijection(fwd, back, v);
        back := back + [v];
        fwd := fwd[v := idx];
      }
    }

    /** `decompress`: the key with number `idx`, whose number is `idx` again. */
    function Decompress(idx: nat): (r: T)
      reads this
      requires Valid() && idx < |back|
      ensures r in fwd && fwd[r] == idx
    {
      back[idx]
    }
  }
}
