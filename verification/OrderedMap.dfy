/** std::map with std::string keys: the entries in strictly ascending bytewise order of their keys. */
module OrderedMap {
  import opened Bytes

  datatype Option<+T> = None | Some(value: T)

  type Entries<V> = seq<(Bytes, V)>

  predicate Sorted<V>(m: Entries<V>) {
    forall i, j :: 0 <= i < j < |m| ==> Less(m[i].0, m[j].0)
  }

  function Lookup<V>(m: Entries<V>, k: Bytes): (r: Option<V>)
    ensures r.Some? ==> (k, r.value) in m
    ensures r.None? ==> forall i :: 0 <= i < |m| ==> m[i].0 != k
  {
    if m == [] then None
    else if m[0].0 == k then assert m[0] in m; Some(m[0].1)
    else Lookup(m[1..], k)
  }

  /** emplace: an existing entry wins. */
  function Emplace<V>(m: Entries<V>, k: Bytes, v: V): Entries<V> {
    if m == [] || Less(k, m[0].0) then [(k, v)] + m
    else if m[0].0 == k then m
    else [m[0]] + Emplace(m[1..], k, v)
  }

  /** operator[] followed by an assignment: an existing entry is replaced. */
  function Assign<V>(m: Entries<V>, k: Bytes, v: V): Entries<V> {
    if m == [] || Less(k, m[0].0) then [(k, v)] + m
    else if m[0].0 == k then [(k, v)] + m[1..]
    else [m[0]] + Assign(m[1..], k, v)
  }

  function Erase<V>(m: Entries<V>, k: Bytes): Entries<V> {
    if m == [] then []
    else if m[0].0 == k then m[1..]
    else [m[0]] + Erase(m[1..], k)
  }

  ghost predicate Above<V>(k: Bytes, m: Entries<V>) {
    forall e :: e in m ==> Less(k, e.0)
  }

  ghost predicate Below<V>(m: Entries<V>, k: Bytes) {
    forall e :: e in m ==> Less(e.0, k)
  }

  lemma SortedCons<V>(e: (Bytes, V), m: Entries<V>)
    requires Sorted(m) && Above(e.0, m)
    ensures Sorted([e] + m)
  {
  }

  lemma SortedTail<V>(m: Entries<V>)
    requires Sorted(m) && m != []
    ensures Sorted(m[1..]) && Above(m[0].0, m[1..])
  {
  }

  lemma AboveAll<V>(k: Bytes, m: Entries<V>)
    requires Sorted(m) && m != [] && Less(k, m[0].0)
    ensures Above(k, m)
  {
    forall e | e in m
      ensures Less(k, e.0)
    {
      var i :| 0 <= i < |m| && m[i] == e;
      if i > 0 {
        LessTransitive(k, m[0].0, e.0);
      }
    }
  }

  lemma {:induction false} EmplaceSorted<V>(m: Entries<V>, k: Bytes, v: V)
    requires Sorted(m)
    ensures Sorted(Emplace(m, k, v))
    ensures forall e :: e in Emplace(m, k, v) ==> e in m || e == (k, v)
    ensures |Emplace(m, k, v)| <= |m| + 1
    ensures (forall e :: e in m ==> e.0 != k) ==> (k, v) in Emplace(m, k, v)
  {
    if m == [] {
    } else if Less(k, m[0].0) {
      AboveAll(k, m);
      SortedCons((k, v), m);
    } else if m[0].0 != k {
      LessTotal(k, m[0].0);
      SortedTail(m);
      EmplaceSorted(m[1..], k, v);
      SortedCons(m[0], Emplace(m[1..], k, v));
      assert m == [m[0]] + m[1..];
    }
  }

  lemma {:induction false} AssignSorted<V>(m: Entries<V>, k: Bytes, v: V)
    requires Sorted(m)
    ensures Sorted(Assign(m, k, v))
    ensures (k, v) in Assign(m, k, v)
    ensures forall e :: e in Assign(m, k, v) ==> (e in m && e.0 != k) || e == (k, v)
    ensures forall e :: e in m && e.0 != k ==> e in Assign(m, k, v)
  {
    if m == [] {
    } else if Less(k, m[0].0) {
      AboveAll(k, m);
      SortedCons((k, v), m);
      forall e | e in m
        ensures e.0 != k
      {
        LessIrreflexive(k);
      }
    } else if m[0].0 == k {
      SortedTail(m);
      SortedCons((k, v), m[1..]);
      assert m == [m[0]] + m[1..];
      forall e | e in m[1..]
        ensures e.0 != k
      {
        LessIrreflexive(k);
      }
    } else {
      LessTotal(k, m[0].0);
      SortedTail(m);
      AssignSorted(m[1..], k, v);
      var rest := Assign(m[1..], k, v);
      forall e | e in rest
        ensures Less(m[0].0, e.0)
      {
        assert e in m[1..] || e == (k, v);
      }
      SortedCons(m[0], rest);
      assert m == [m[0]] + m[1..];
    }
  }

  lemma {:induction false} EraseSorted<V>(m: Entries<V>, k: Bytes)
    requires Sorted(m)
    ensures Sorted(Erase(m, k))
    ensures forall e :: e in Erase(m, k) ==> e in m && e.0 != k
    ensures forall e :: e in m && e.0 != k ==> e in Erase(m, k)
  {
    if m != [] {
      SortedTail(m);
      assert m == [m[0]] + m[1..];
      if m[0].0 == k {
        forall e | e in m[1..]
          ensures e.0 != k
        {
          LessIrreflexive(k);
        }
      } else {
        EraseSorted(m[1..], k);
        var rest := Erase(m[1..], k);
        forall e | e in rest
          ensures Less(m[0].0, e.0)
        {
          assert e in m[1..];
        }
        SortedCons(m[0], rest);
      }
    }
  }

  /** Entries that arrive in order go to the end. */
  lemma {:induction false} EmplaceLast<V>(m: Entries<V>, k: Bytes, v: V)
    requires Below(m, k)
    ensures Emplace(m, k, v) == m + [(k, v)]
  {
    if m != [] {
      LessAsymmetric(m[0].0, k);
      EmplaceLast(m[1..], k, v);
      assert m == [m[0]] + m[1..];
    }
  }

  lemma {:induction false} LookupFinds<V>(m: Entries<V>, k: Bytes, v: V)
    requires Sorted(m) && (k, v) in m
    ensures Lookup(m, k) == Some(v)
  {
    if m[0].0 == k {
      var i :| 0 <= i < |m| && m[i] == (k, v);
      if i > 0 {
        LessIrreflexive(k);
      }
    } else {
      SortedTail(m);
      assert m == [m[0]] + m[1..];
      LookupFinds(m[1..], k, v);
    }
  }

  /** Two sorted maps with the same entries are the same sequence. */
  lemma {:induction false} SortedUnique<V>(m: Entries<V>, n: Entries<V>)
    requires Sorted(m) && Sorted(n)
    requires forall e :: e in m <==> e in n
    ensures m == n
  {
    assert n != [] ==> n[0] in n;
    if m != [] {
      assert m[0] in m && m[0] in n;
      SortedTail(m);
      assert n != [] && n[0] in n && n[0] in m;
      SortedTail(n);
      assert m == [m[0]] + m[1..] && n == [n[0]] + n[1..];
      if m[0] != n[0] {
        var i :| 0 < i < |m| && m[i] == n[0];
        var j :| 0 < j < |n| && n[j] == m[0];
        LessAsymmetric(m[0].0, m[i].0);
      }
      LessIrreflexive(m[0].0);
      assert forall e :: e in m[1..] ==> e in n && e.0 != n[0].0;
      assert forall e :: e in n[1..] ==> e in m && e.0 != m[0].0;
      SortedUnique(m[1..], n[1..]);
    }
  }

  lemma NotFound<V>(m: Entries<V>, k: Bytes)
    requires forall e :: e in m ==> e.0 != k
    ensures Lookup(m, k) == None
  {
  }

  /** Two maps with the same entries for a key look the same there. */
  lemma LookupSame<V>(m: Entries<V>, n: Entries<V>, k: Bytes)
    requires Sorted(m) && Sorted(n)
    requires forall e :: e in m && e.0 == k ==> e in n
    requires forall e :: e in n && e.0 == k ==> e in m
    ensures Lookup(m, k) == Lookup(n, k)
  {
    hide Less;
    if Lookup(m, k).Some? {
      LookupFinds(n, k, Lookup(m, k).value);
    } else if Lookup(n, k).Some? {
      LookupFinds(m, k, Lookup(n, k).value);
    }
  }

  lemma LookupAssign<V>(m: Entries<V>, k: Bytes, v: V, other: Bytes)
    requires Sorted(m)
    ensures Lookup(Assign(m, k, v), other) == if other == k then Some(v) else Lookup(m, other)
  {
    hide Less, Assign, Lookup;
    AssignSorted(m, k, v);
    if other == k {
      LookupFinds(Assign(m, k, v), k, v);
    } else {
      LookupSame(Assign(m, k, v), m, other);
    }
  }

  lemma LookupErase<V>(m: Entries<V>, k: Bytes, other: Bytes)
    requires Sorted(m)
    ensures Lookup(Erase(m, k), other) == if other == k then None else Lookup(m, other)
  {
    hide Less, Erase, Lookup;
    EraseSorted(m, k);
    if other == k {
      NotFound(Erase(m, k), k);
    } else {
      LookupSame(Erase(m, k), m, other);
    }
  }

  lemma {:induction false} EmplaceKeeps<V>(m: Entries<V>, k: Bytes, v: V)
    ensures forall e :: e in m ==> e in Emplace(m, k, v)
  {
    if m != [] && !Less(k, m[0].0) && m[0].0 != k {
      EmplaceKeeps(m[1..], k, v);
      assert m == [m[0]] + m[1..];
    }
  }

  /** emplace of a new key. */
  lemma LookupEmplace<V>(m: Entries<V>, k: Bytes, v: V, other: Bytes)
    requires Sorted(m) && Lookup(m, k).None?
    ensures Lookup(Emplace(m, k, v), other) == if other == k then Some(v) else Lookup(m, other)
  {
    hide Less, Emplace;
    EmplaceSorted(m, k, v);
    EmplaceKeeps(m, k, v);
    assert forall e :: e in m ==> e.0 != k;
    hide Lookup;
    if other == k {
      LookupFinds(Emplace(m, k, v), k, v);
    } else {
      LookupSame(Emplace(m, k, v), m, other);
    }
  }
}
