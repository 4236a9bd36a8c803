/** The ordered index over encoded keys. */
module Index {
  import opened Bytes
  import opened OrderedMap
  import opened Values
  import opened Keys

  /** A row address; page 2^32 - 1 marks an invalid one. */
  datatype Rid = Rid(page: U32, slot: nat)

  predicate IsValid(r: Rid) {
    r.page != 0xFFFF_FFFF
  }

  type Tree = Entries<seq<Rid>>

  datatype Status = Done | BadRid | Exists | Missing

  function RidsOf(t: Tree, k: Bytes): seq<Rid> {
    match Lookup(t, k)
    case None => []
    case Some(rids) => rids
  }

  /** The entry (k, r) is live. */
  predicate Holds(t: Tree, k: Bytes, r: Rid) {
    r in RidsOf(t, k)
  }

  function Without(rids: seq<Rid>, r: Rid): seq<Rid> {
    if rids == [] then []
    else if rids[0] == r then Without(rids[1..], r)
    else [rids[0]] + Without(rids[1..], r)
  }

  lemma {:induction false} WithoutIs(rids: seq<Rid>, r: Rid, q: Rid)
    ensures q in Without(rids, r) <==> q in rids && q != r
  {
    if rids != [] {
      WithoutIs(rids[1..], r, q);
      assert rids == [rids[0]] + rids[1..];
    }
  }

  // ---- Ranges ----

  function Pairs(e: (Bytes, seq<Rid>)): seq<(Bytes, Rid)> {
    seq(|e.1|, i requires 0 <= i < |e.1| => (e.0, e.1[i]))
  }

  function Flatten(t: Tree): seq<(Bytes, Rid)> {
    if t == [] then [] else Pairs(t[0]) + Flatten(t[1..])
  }

  /** The index of the first key that is not below k. */
  function LowerBound(t: Tree, k: Bytes): (i: nat)
    ensures i <= |t|
  {
    if t == [] || !Less(t[0].0, k) then 0 else 1 + LowerBound(t[1..], k)
  }

  function Range(t: Tree, lower: Bytes): seq<(Bytes, Rid)> {
    Flatten(t[LowerBound(t, lower)..])
  }

  lemma {:induction false} FlattenHas(t: Tree, p: (Bytes, Rid))
    ensures p in Flatten(t) <==> exists e :: e in t && e.0 == p.0 && p.1 in e.1
  {
    if t != [] {
      FlattenHas(t[1..], p);
      assert t == [t[0]] + t[1..];
      assert t[0] in t;
      assert forall e :: e in t ==> e == t[0] || e in t[1..];
      PairsHas(t[0], p);
    }
  }

  lemma PairsHas(e: (Bytes, seq<Rid>), p: (Bytes, Rid))
    ensures p in Pairs(e) <==> e.0 == p.0 && p.1 in e.1
  {
    if e.0 == p.0 && p.1 in e.1 {
      var i :| 0 <= i < |e.1| && e.1[i] == p.1;
      assert Pairs(e)[i] == p;
    }
  }

  lemma {:induction false} LowerBoundIs(t: Tree, k: Bytes)
    requires Sorted(t)
    ensures forall e :: e in t[..LowerBound(t, k)] ==> Less(e.0, k)
    ensures forall e :: e in t[LowerBound(t, k)..] ==> !Less(e.0, k)
  {
    var i := LowerBound(t, k);
    if t == [] {
    } else if Less(t[0].0, k) {
      SortedTail(t);
      LowerBoundIs(t[1..], k);
      assert t[..i] == [t[0]] + t[1..][..i - 1];
      assert t[i..] == t[1..][i - 1..];
    } else {
      forall e | e in t
        ensures !Less(e.0, k)
      {
        var j :| 0 <= j < |t| && t[j] == e;
        if j > 0 && Less(e.0, k) {
          LessTransitive(t[0].0, e.0, k);
        }
      }
      assert t[0..] == t;
    }
  }

  lemma LookupIsEntry(t: Tree, k: Bytes, r: Rid)
    requires Sorted(t)
    ensures Holds(t, k, r) <==> exists e :: e in t && e.0 == k && r in e.1
  {
    hide Less;
    if exists e :: e in t && e.0 == k && r in e.1 {
      var e :| e in t && e.0 == k && r in e.1;
      assert e == (k, e.1);
      LookupFinds(t, k, e.1);
    }
    if Holds(t, k, r) {
      assert (k, RidsOf(t, k)) in t;
    }
  }

  /** A range holds exactly the live entries whose key is not below the bound. */
  lemma RangeExact(t: Tree, lower: Bytes, k: Bytes, r: Rid)
    requires Sorted(t)
    ensures (k, r) in Range(t, lower) <==> Holds(t, k, r) && !Less(k, lower)
  {
    hide Less, Flatten, LowerBound, Holds, Lookup;
    var i := LowerBound(t, lower);
    LowerBoundIs(t, lower);
    FlattenHas(t[i..], (k, r));
    LookupIsEntry(t, k, r);
    assert t == t[..i] + t[i..];
    assert forall e :: e in t ==> e in t[..i] || e in t[i..];
    assert forall e :: e in t[i..] ==> e in t;
    if (k, r) in Range(t, lower) {
      var e :| e in t[i..] && e.0 == k && r in e.1;
      assert e in t;
    }
  }

  ghost predicate Ascending(ps: seq<(Bytes, Rid)>) {
    forall i, j :: 0 <= i < j < |ps| ==> LessEq(ps[i].0, ps[j].0)
  }

  lemma {:induction false} FlattenAscending(t: Tree)
    requires Sorted(t)
    ensures Ascending(Flatten(t))
    ensures forall p :: p in Flatten(t) ==> exists e :: e in t && e.0 == p.0
  {
    hide Less;
    forall p | p in Flatten(t)
      ensures exists e :: e in t && e.0 == p.0
    {
      FlattenHas(t, p);
    }
    if t != [] {
      SortedTail(t);
      FlattenAscending(t[1..]);
      var a, b := Pairs(t[0]), Flatten(t[1..]);
      var all: seq<(Bytes, Rid)> := a + b;
      forall i, j | 0 <= i < j < |all|
        ensures LessEq(all[i].0, all[j].0)
      {
        if j >= |a| && i < |a| {
          assert b[j - |a|] in b;
        }
      }
    }
  }

  lemma {:induction false} SortedSuffix(t: Tree, i: nat)
    requires Sorted(t) && i <= |t|
    ensures Sorted(t[i..])
  {
    hide Less;
    assert forall j :: 0 <= j < |t[i..]| ==> t[i..][j] == t[i + j];
  }

  // ---- The index of one column ----

  /** Every key in the tree encodes a value of the column's type, or NULL. */
  ghost predicate KeysOf(t: Tree, typ: TypeId) {
    forall e :: e in t ==> exists v: Value :: (v.Null? || TypeOf(v) == typ) && e.0 == Key(v)
  }

  /**
   * Range(EncodeKey(v)) on a column of one type returns exactly the live entries of values not below v, in
   * value order.
   */
  lemma RangeByValue(t: Tree, v: Value, a: Value, r: Rid)
    requires Sorted(t) && !v.Null? && TypeOf(a) == TypeOf(v)
    ensures (Key(a), r) in Range(t, Key(v)) <==> Holds(t, Key(a), r) && !ValueLess(a, v)
  {
    hide Key, Less, Range, Holds, ValueLess;
    RangeExact(t, Key(v), Key(a), r);
    KeyOrder(a, v);
  }

  lemma RangeInValueOrder(t: Tree, v: Value, i: nat, j: nat, a: Value, b: Value)
    requires Sorted(t) && !v.Null? && TypeOf(a) == TypeOf(b) == TypeOf(v)
    requires i < j < |Range(t, Key(v))| && Range(t, Key(v))[i].0 == Key(a) && Range(t, Key(v))[j].0 == Key(b)
    ensures !ValueLess(b, a)
  {
    hide Key, Less, Flatten, ValueLess;
    var n := LowerBound(t, Key(v));
    SortedSuffix(t, n);
    FlattenAscending(t[n..]);
    KeyOrder(b, a);
    if Less(Key(b), Key(a)) {
      LessAsymmetric(Key(b), Key(a));
    }
  }

  lemma NullBelow(v: Value)
    requires !v.Null?
    ensures Less(Key(Null), Key(v))
  {
  }

  /** Nothing else is in the range: no NULL, and no value that is below or of another type. */
  lemma RangeOfColumn(t: Tree, v: Value, p: (Bytes, Rid))
    requires Sorted(t) && KeysOf(t, TypeOf(v)) && !v.Null? && p in Range(t, Key(v))
    ensures exists a :: TypeOf(a) == TypeOf(v) && !ValueLess(a, v) && p.0 == Key(a)
  {
    hide Key, Less, Range, ValueLess, Holds;
    RangeExact(t, Key(v), p.0, p.1);
    LookupIsEntry(t, p.0, p.1);
    var e :| e in t && e.0 == p.0 && p.1 in e.1;
    var a: Value :| (a.Null? || TypeOf(a) == TypeOf(v)) && e.0 == Key(a);
    NullBelow(v);
    assert !a.Null?;
    KeyOrder(a, v);
  }

  class BPlusTree {
    const unique: bool
    var entries: Tree

    constructor (unique: bool)
      ensures this.unique == unique && entries == [] && Valid()
    {
      this.unique := unique;
      entries := [];
    }

    /** No empty entries, no duplicate row, and one row per key in a unique index. */
    ghost predicate Valid()
      reads this
    {
      && Sorted(entries)
      && forall e :: e in entries ==>
           && e.1 != [] && (unique ==> |e.1| == 1)
           && forall i, j :: 0 <= i < j < |e.1| ==> e.1[i] != e.1[j]
    }

    method Insert(k: Bytes, r: Rid) returns (s: Status)
      requires Valid()
      modifies this
      ensures Valid()
      ensures s == if !IsValid(r) then BadRid
                   else if (unique && RidsOf(old(entries), k) != []) || Holds(old(entries), k, r) then Exists
                   else Done
      ensures s == Done ==> entries == Assign(old(entries), k, RidsOf(old(entries), k) + [r])
      ensures s != Done ==> entries == old(entries)
    {
      hide Less, Lookup, Assign;
      if !IsValid(r) {
        return BadRid;
      }
      var values := RidsOf(entries, k);
      if unique && values != [] {
        return Exists;
      }
      if r in values {
        return Exists;
      }
      LookupEntry(entries, k);
      AssignSorted(entries, k, values + [r]);
      entries := Assign(entries, k, values + [r]);
      s := Done;
    }

    method Remove(k: Bytes, r: Rid) returns (s: Status)
      requires Valid()
      modifies this
      ensures Valid()
      ensures s == if Lookup(old(entries), k).None? then Missing else Done
      ensures s == Missing ==> entries == old(entries)
      ensures s == Done ==> entries == Removed(old(entries), unique, k, r)
    {
      hide Less, Lookup, Assign, Erase;
      if Lookup(entries, k).None? {
        return Missing;
      }
      LookupEntry(entries, k);
      EraseSorted(entries, k);
      var left := Without(RidsOf(entries, k), r);
      WithoutDistinct(RidsOf(entries, k), r);
      if unique || !IsValid(r) || left == [] {
        entries := Erase(entries, k);
      } else {
        AssignSorted(entries, k, left);
        entries := Assign(entries, k, left);
      }
      s := Done;
    }

    method SearchAll(k: Bytes) returns (rids: seq<Rid>)
      requires Valid()
      ensures forall r :: r in rids <==> Holds(entries, k, r)
      ensures unique ==> |rids| <= 1
    {
      hide Less, Lookup;
      LookupEntry(entries, k);
      rids := RidsOf(entries, k);
    }

    /** From the lower bound to the end, row by row. */
    method RangeFrom(lower: Bytes) returns (result: seq<(Bytes, Rid)>)
      requires Valid()
      ensures result == Range(entries, lower)
      ensures forall k, r :: (k, r) in result <==> Holds(entries, k, r) && !Less(k, lower)
    {
      hide Less, Lookup, Holds, Sorted, Range;
      result := RangeLoop(entries, lower);
      RangeExactAll(entries, lower);
    }
  }

  method RangeLoop(entries: Tree, lower: Bytes) returns (result: seq<(Bytes, Rid)>)
    ensures result == Range(entries, lower)
  {
    hide LowerBound, Pairs;
    result := [];
    var i := LowerBound(entries, lower);
    while i < |entries|
      invariant LowerBound(entries, lower) <= i <= |entries|
      invariant result + Flatten(entries[i..]) == Range(entries, lower)
    {
      assert entries[i..][1..] == entries[i + 1..];
      ghost var before := result;
      result := AppendRids(result, entries[i].0, entries[i].1);
      assert result == before + Pairs(entries[i]);
      i := i + 1;
    }
    assert entries[i..] == [];
  }

  method AppendRids(done: seq<(Bytes, Rid)>, key: Bytes, rids: seq<Rid>) returns (result: seq<(Bytes, Rid)>)
    ensures result == done + Pairs((key, rids))
  {
    result := done;
    var j := 0;
    while j < |rids|
      invariant 0 <= j <= |rids|
      invariant result == done + Pairs((key, rids))[..j]
    {
      assert Pairs((key, rids))[..j + 1] == Pairs((key, rids))[..j] + [(key, rids[j])];
      result := result + [(key, rids[j])];
      j := j + 1;
    }
    assert Pairs((key, rids))[..|rids|] == Pairs((key, rids));
  }

  lemma RangeExactAll(t: Tree, lower: Bytes)
    requires Sorted(t)
    ensures forall k, r :: (k, r) in Range(t, lower) <==> Holds(t, k, r) && !Less(k, lower)
  {
    hide Less, Lookup, Range, Holds, Sorted;
    forall k, r
      ensures (k, r) in Range(t, lower) <==> Holds(t, k, r) && !Less(k, lower)
    {
      RangeExact(t, lower, k, r);
    }
  }

  lemma LookupEntry(t: Tree, k: Bytes)
    ensures Lookup(t, k).Some? ==> (k, RidsOf(t, k)) in t
    ensures Lookup(t, k).None? ==> RidsOf(t, k) == []
  {
  }

  lemma {:induction false} WithoutDistinct(rids: seq<Rid>, r: Rid)
    requires forall i, j :: 0 <= i < j < |rids| ==> rids[i] != rids[j]
    ensures var left := Without(rids, r);
            |left| <= |rids| && forall i, j :: 0 <= i < j < |left| ==> left[i] != left[j]
  {
    if rids != [] {
      WithoutDistinct(rids[1..], r);
      forall q | q in Without(rids[1..], r)
        ensures q in rids[1..]
      {
        WithoutIs(rids[1..], r, q);
      }
      var left := Without(rids[1..], r);
      assert forall i :: 0 <= i < |left| ==> left[i] in left;
    }
  }

  /** Inserting makes exactly one more entry live; the others stay as they were. */
  lemma InsertEffect(t: Tree, k: Bytes, r: Rid, k': Bytes, r': Rid)
    requires Sorted(t)
    ensures Holds(Assign(t, k, RidsOf(t, k) + [r]), k', r') <==> Holds(t, k', r') || (k', r') == (k, r)
  {
    hide Less, Lookup, Assign;
    var t' := Assign(t, k, RidsOf(t, k) + [r]);
    AssignSorted(t, k, RidsOf(t, k) + [r]);
    LookupEntry(t, k');
    LookupEntry(t', k');
    if k' == k {
      LookupFinds(t', k, RidsOf(t, k) + [r]);
    } else {
      if Lookup(t, k').Some? {
        LookupFinds(t', k', RidsOf(t, k'));
      } else if Lookup(t', k').Some? {
        LookupFinds(t, k', RidsOf(t', k'));
      }
    }
  }

  /** Remove on a key that is there: in a unique index, or without a valid row, the whole key goes. */
  function Removed(t: Tree, unique: bool, k: Bytes, r: Rid): Tree {
    var left := Without(RidsOf(t, k), r);
    if unique || !IsValid(r) || left == [] then Erase(t, k) else Assign(t, k, left)
  }

  lemma OtherKeyKept(t: Tree, t': Tree, k': Bytes, r': Rid)
    requires forall e :: e in t && e.0 == k' ==> e in t'
    requires forall e :: e in t' && e.0 == k' ==> e in t
    requires Sorted(t) && Sorted(t')
    ensures Holds(t', k', r') <==> Holds(t, k', r')
  {
    hide Less, Lookup;
    LookupIsEntry(t, k', r');
    LookupIsEntry(t', k', r');
  }

  /** Removing ends exactly the entry named, or every entry of the key; the others stay live. */
  lemma RemoveEffect(t: Tree, unique: bool, k: Bytes, r: Rid, k': Bytes, r': Rid)
    requires Sorted(t)
    ensures Holds(Removed(t, unique, k, r), k', r')
       <==> Holds(t, k', r') && (k' != k || (!unique && IsValid(r) && r' != r))
  {
    hide Less, Lookup, Assign, Erase, Without;
    var t' := Removed(t, unique, k, r);
    var left := Without(RidsOf(t, k), r);
    EraseSorted(t, k);
    AssignSorted(t, k, left);
    if k' != k {
      OtherKeyKept(t, t', k', r');
    } else {
      WithoutIs(RidsOf(t, k), r, r');
      LookupIsEntry(t', k, r');
      if left != [] && !unique && IsValid(r) {
        LookupFinds(t', k, left);
      }
    }
  }
}
