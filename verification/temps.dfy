/**
 * The pointer-to-temporary map of one loop's rewrite: the first hoistable load of each
 * pointer creates its temporary, later loads of that pointer find it in the map.
 */
module Temps {
  import opened Seqs
  import opened Ir

  /** The pointer operands of `hs`, in order. */
  function Ptrs(hs: seq<LoadRef>): (ps: seq<Loc>)
    ensures |ps| == |hs|
    ensures forall k :: 0 <= k < |hs| ==> ps[k] == hs[k].ptr
  {
    seq(|hs|, k requires 0 <= k < |hs| => hs[k].ptr)
  }

  /** The pointers of one more load are those before and the load's. */
  lemma PtrsSnoc(hs: seq<LoadRef>, h: LoadRef)
    ensures Ptrs(hs + [h]) == Ptrs(hs) + [h.ptr]
  {
  }

  /**
   * The map after processing the pointers `ps` in order, the temporaries being numbered
   * from `base`: a pointer seen before keeps its temporary, a new one gets the next number.
   */
  function TempMap(ps: seq<Loc>, base: Loc): (m: map<Loc, Loc>)
    ensures forall p :: p in m <==> p in ps
  {
    if ps == [] then map[]
    else
      var m := TempMap(ps[..|ps| - 1], base);
      var p := ps[|ps| - 1];
      assert forall q :: q in ps <==> q in ps[..|ps| - 1] || q == p by {
        assert ps == ps[..|ps| - 1] + [p];
      }
      if p in m then m else m[p := base + |Dedup(ps[..|ps| - 1])|]
  }

  /**
   * One temporary per distinct pointer, numbered in first-occurrence order: the k-th
   * distinct pointer gets `base + k`. Hence distinct pointers get distinct temporaries, all
   * in `[base, base + number of distinct pointers)`.
   */
  lemma {:induction false} TempMapNumbering(ps: seq<Loc>, base: Loc)
    ensures forall i :: 0 <= i < |Dedup(ps)| ==> TempMap(ps, base)[Dedup(ps)[i]] == base + i
    ensures forall p :: p in TempMap(ps, base) ==> base <= TempMap(ps, base)[p] < base + |Dedup(ps)|
    ensures forall p, q :: p in TempMap(ps, base) && q in TempMap(ps, base) && p != q ==> TempMap(ps, base)[p] != TempMap(ps, base)[q]
  {
    var m, d := TempMap(ps, base), Dedup(ps);
    if ps != [] {
      var init := ps[..|ps| - 1];
      var p := ps[|ps| - 1];
      TempMapNumbering(init, base);
      var m0, d0 := TempMap(init, base), Dedup(init);
      assert p in m0 <==> p in d0;
      assert d == if p in d0 then d0 else d0 + [p];
      assert m == if p in m0 then m0 else m0[p := base + |d0|];
      forall i | 0 <= i < |d|
        ensures m[d[i]] == base + i
      {
        if i < |d0| {
          assert d[i] == d0[i] && d0[i] in m0;
        }
      }
      forall q | q in m
        ensures exists i :: 0 <= i < |d| && d[i] == q
      {
        assert q in d;
      }
      forall p1 | p1 in m
        ensures base <= m[p1] < base + |d|
      {
        var i :| 0 <= i < |d| && d[i] == p1;
      }
    }
  }

  /** Extending the processed pointers never changes a temporary already handed out. */
  lemma {:induction false} TempMapGrows(ps: seq<Loc>, qs: seq<Loc>, base: Loc)
    ensures forall p :: p in TempMap(ps, base) ==> p in TempMap(ps + qs, base) && TempMap(ps + qs, base)[p] == TempMap(ps, base)[p]
    decreases |qs|
  {
    if qs == [] {
      assert ps + qs == ps;
    } else {
      var init := qs[..|qs| - 1];
      TempMapGrows(ps, init, base);
      assert (ps + qs)[..|ps + qs| - 1] == ps + init;
      assert (ps + qs)[|ps + qs| - 1] == qs[|qs| - 1];
    }
  }

  /** Processing one more pointer keeps the map, or maps the new pointer to the next number. */
  lemma TempMapSnoc(ps: seq<Loc>, p: Loc, base: Loc)
    ensures TempMap(ps + [p], base) ==
      if p in ps then TempMap(ps, base) else TempMap(ps, base)[p := base + |Dedup(ps)|]
  {
    assert (ps + [p])[..|ps|] == ps;
  }

  /** Distinct keys have distinct values. */
  predicate Injective(m: map<Loc, Loc>) {
    forall p, q :: p in m && q in m && p != q ==> m[p] != m[q]
  }

  lemma TempMapInjective(ps: seq<Loc>, base: Loc)
    ensures Injective(TempMap(ps, base))
  {
    TempMapNumbering(ps, base);
  }
}
