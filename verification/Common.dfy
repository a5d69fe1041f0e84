/**
 * Vocabulary shared by every ownership-bridge model: addresses, the two
 * exceptions the handles throw, the three-way address comparison behind all
 * comparison operators, and the bookkeeping that ties a reference count to
 * the handles that hold it.
 */
module Common {

  /** A raw object address; 0 is the null pointer. */
  type Addr = nat

  datatype Option<+T> = None | Some(value: T)

  /** The two exceptions: unique_ptr_already_acquired and ptr_is_already_deleted. */
  datatype Error = AlreadyAcquired | AlreadyDeleted

  /** The value of a call that may throw one of the two exceptions. */
  datatype Result<+T> = Ok(value: T) | Err(error: Error)

  /**
   * `compare(const void*)`: 0 when the addresses are equal, -1 when the
   * first is below the second, +1 otherwise.
   */
  function CompareAddr(a: Addr, b: Addr): (r: int)
    ensures r == -1 || r == 0 || r == 1
    ensures r == 0 <==> a == b
    ensures r < 0 <==> a < b
    ensures r > 0 <==> a > b
  {
    if a == b then 0 else if a < b then -1 else 1
  }

  /** Swapping the operands of a comparison negates it. */
  lemma CompareAddrAntisymmetric(a: Addr, b: Addr)
    ensures CompareAddr(a, b) == -CompareAddr(b, a)
  {
  }

  /** The keys of `hs` that are bound to `v`: the handles sharing one control block. */
  function Holders<K, V(==)>(hs: map<K, V>, v: V): set<K>
  {
    set k | k in hs && hs[k] == v
  }

  /** Adding a fresh key adds it to the holders of its value and to no others. */
  lemma HoldersInsert<K, V>(hs: map<K, V>, k: K, v: V, w: V)
    requires k !in hs
    ensures Holders(hs[k := v], w) == if v == w then Holders(hs, w) + {k} else Holders(hs, w)
    ensures v == w ==> |Holders(hs[k := v], w)| == |Holders(hs, w)| + 1
    ensures v != w ==> |Holders(hs[k := v], w)| == |Holders(hs, w)|
  {
    assert k !in Holders(hs, w);
  }

  /** Removing a key removes it from the holders of its value and from no others. */
  lemma HoldersRemove<K, V>(hs: map<K, V>, k: K, w: V)
    requires k in hs
    ensures Holders(hs - {k}, w) == Holders(hs, w) - {k}
    ensures hs[k] == w ==> |Holders(hs - {k}, w)| == |Holders(hs, w)| - 1
    ensures hs[k] != w ==> |Holders(hs - {k}, w)| == |Holders(hs, w)|
  {
    var before, after := Holders(hs, w), Holders(hs - {k}, w);
    assert after == before - {k};
    if hs[k] == w {
      assert before == after + {k};
    } else {
      assert after == before;
    }
  }

  /** Rebinding an existing key moves it from the holders of its old value to those of its new one. */
  lemma HoldersUpdate<K, V>(hs: map<K, V>, k: K, v: V, w: V)
    requires k in hs
    ensures Holders(hs[k := v], w) == (Holders(hs, w) - {k}) + (if v == w then {k} else {})
    ensures hs[k] != w && v == w ==> |Holders(hs[k := v], w)| == |Holders(hs, w)| + 1
    ensures hs[k] == w && v != w ==> |Holders(hs[k := v], w)| == |Holders(hs, w)| - 1
    ensures (hs[k] == w) == (v == w) ==> |Holders(hs[k := v], w)| == |Holders(hs, w)|
  {
    var before, after := Holders(hs, w), Holders(hs[k := v], w);
    if v == w {
      assert after == before + {k};
      assert (before - {k}) + {k} == after;
      if hs[k] == w {
        assert after == before;
      }
    } else {
      assert after == before - {k};
      if hs[k] != w {
        assert after == before;
      }
    }
  }

  /** A value with no holders is held by no key. */
  lemma NoHolders<K, V>(hs: map<K, V>, w: V)
    requires |Holders(hs, w)| == 0
    ensures forall k :: k in hs ==> hs[k] != w
  {
    assert Holders(hs, w) == {};
    forall k | k in hs ensures hs[k] != w {
      assert hs[k] == w ==> k in Holders(hs, w);
    }
  }
}
