/** The LRU-K replacer: truncated access lists against the full access history. */
module LruK {
  import opened OrderedMap

  datatype Entry = Entry(accesses: seq<nat>, evictable: bool)

  /** What the replacer keeps of a history: its last k accesses. */
  function LastK(h: seq<nat>, k: nat): seq<nat> {
    if |h| <= k then h else h[|h| - k..]
  }

  /** The k-th most recent access, or the first one of a frame that has fewer. */
  function Reference(h: seq<nat>, k: nat): nat
    requires h != [] && k > 0
  {
    if |h| < k then h[0] else h[|h| - k]
  }

  /** Backward k-distance: a frame with fewer than k accesses is infinitely far back, then older is farther. */
  predicate Farther(h: seq<nat>, g: seq<nat>, k: nat)
    requires h != [] && g != [] && k > 0
  {
    if (|h| < k) != (|g| < k) then |h| < k else Reference(h, k) < Reference(g, k)
  }

  ghost predicate HistoriesOk(history: map<nat, seq<nat>>, clock: nat) {
    && (forall f :: f in history ==> history[f] != [])
    && (forall f, i :: f in history && 0 <= i < |history[f]| ==> history[f][i] <= clock)
    && (forall f, i, j :: f in history && 0 <= i < j < |history[f]| ==> history[f][i] < history[f][j])
    && (forall f, g, i, j ::
          f in history && g in history && f != g && 0 <= i < |history[f]| && 0 <= j < |history[g]| ==>
            history[f][i] != history[g][j])
  }

  /** The frame LRU-K must evict: every other evictable frame is nearer. */
  ghost predicate IsVictim(history: map<nat, seq<nat>>, evictable: set<nat>, k: nat, f: nat)
    requires k > 0 && evictable <= history.Keys && forall g :: g in history ==> history[g] != []
  {
    f in evictable && forall g :: g in evictable && g != f ==> Farther(history[f], history[g], k)
  }

  /** There is never more than one, so the scan order does not matter. */
  lemma VictimUnique(history: map<nat, seq<nat>>, evictable: set<nat>, k: nat, f: nat, g: nat)
    requires k > 0 && evictable <= history.Keys && forall g :: g in history ==> history[g] != []
    requires IsVictim(history, evictable, k, f) && IsVictim(history, evictable, k, g)
    ensures f == g
  {
    hide Farther;
    FartherAsymmetric(history[f], history[g], k);
  }

  lemma FartherAsymmetric(h: seq<nat>, g: seq<nat>, k: nat)
    requires h != [] && g != [] && k > 0
    ensures !(Farther(h, g, k) && Farther(g, h, k))
  {
  }

  lemma FartherTransitive(a: seq<nat>, b: seq<nat>, c: seq<nat>, k: nat)
    requires a != [] && b != [] && c != [] && k > 0 && Farther(a, b, k) && Farther(b, c, k)
    ensures Farther(a, c, k)
  {
  }

  /** Histories of two frames never tie. */
  lemma FartherTotal(history: map<nat, seq<nat>>, clock: nat, k: nat, f: nat, g: nat)
    requires HistoriesOk(history, clock) && k > 0 && f in history && g in history && f != g
    ensures Farther(history[f], history[g], k) != Farther(history[g], history[f], k)
  {
  }

  function PriorHistory(history: map<nat, seq<nat>>, f: nat): seq<nat> {
    if f in history then history[f] else []
  }

  lemma AccessHistory(history: map<nat, seq<nat>>, clock: nat, f: nat)
    requires HistoriesOk(history, clock)
    ensures HistoriesOk(history[f := PriorHistory(history, f) + [clock + 1]], clock + 1)
  {
    var h := PriorHistory(history, f) + [clock + 1];
    var more := history[f := h];
    forall a, b, i, j | a in more && b in more && a != b && 0 <= i < |more[a]| && 0 <= j < |more[b]|
      ensures more[a][i] != more[b][j]
    {
    }
  }

  lemma LastKGrows(h: seq<nat>, k: nat, t: nat)
    requires k > 0
    ensures LastK(h + [t], k) == (if |LastK(h, k)| == k then LastK(h, k)[1..] else LastK(h, k)) + [t]
    ensures |LastK(h, k)| <= k && (h == [] ==> LastK(h, k) == [])
  {
  }

  class LRUKReplacer {
    const capacity: nat
    const k: nat
    var clock: nat
    var entries: map<nat, Entry>
    ghost var history: map<nat, seq<nat>>

    constructor (capacity: nat, k: nat)
      ensures Valid() && entries == map[] && this.capacity == capacity && this.k == if k == 0 then 1 else k
    {
      this.capacity := capacity;
      this.k := if k == 0 then 1 else k;
      clock, entries, history := 0, map[], map[];
    }

    ghost predicate Valid()
      reads this
    {
      && k > 0 && HistoriesOk(history, clock) && entries.Keys == history.Keys
      && forall f :: f in entries ==> entries[f].accesses == LastK(history[f], k)
    }

    ghost function Evictable(): set<nat>
      reads this
    {
      set f | f in entries && entries[f].evictable
    }

    /** A known frame, or a new one while there is room, gets one more access; a full replacer ignores strangers. */
    method RecordAccess(f: nat)
      requires Valid()
      modifies this
      ensures Valid()
      ensures |old(entries)| >= capacity && f !in old(entries) ==> unchanged(this)
      ensures !(|old(entries)| >= capacity && f !in old(entries)) ==>
                && clock == old(clock) + 1
                && history == old(history)[f := PriorHistory(old(history), f) + [clock]]
                && f in entries && entries[f].evictable == (f in old(entries) && old(entries)[f].evictable)
                && forall g :: g in old(entries) && g != f ==> g in entries && entries[g] == old(entries)[g]
    {
      hide HistoriesOk, LastK;
      if |entries| >= capacity && f !in entries {
        return;
      }
      var entry := if f in entries then entries[f] else Entry([], false);
      AccessHistory(history, clock, f);
      LastKGrows(PriorHistory(history, f), k, clock + 1);
      clock := clock + 1;
      var accesses := entry.accesses + [clock];
      if |accesses| > k {
        accesses := accesses[1..];
      }
      entries := entries[f := entry.(accesses := accesses)];
      history := history[f := PriorHistory(history, f) + [clock]];
    }

    /** An unknown frame is entered, with one access, whatever the capacity. */
    method SetEvictable(f: nat, evictable: bool)
      requires Valid()
      modifies this
      ensures Valid()
      ensures f in old(entries) ==> history == old(history) && clock == old(clock)
      ensures f !in old(entries) ==> clock == old(clock) + 1 && history == old(history)[f := [clock]]
      ensures f in entries && entries[f].evictable == evictable
      ensures forall g :: g in old(entries) && g != f ==> g in entries && entries[g] == old(entries)[g]
    {
      hide HistoriesOk;
      NonEmpty(history, clock);
      var entry := (if f in entries then entries[f] else Entry([], false)).(evictable := evictable);
      if entry.accesses == [] {
        AccessHistory(history, clock, f);
        assert [] + [clock + 1] == [clock + 1];
        clock := clock + 1;
        entry := entry.(accesses := [clock]);
        history := history[f := [clock]];
      }
      entries := entries[f := entry];
    }

    /** Evicts the evictable frame of greatest backward k-distance over the full history, in any scan order. */
    method Evict() returns (victim: Option<nat>)
      requires Valid()
      modifies this
      ensures Valid() && clock == old(clock)
      ensures victim.None? <==> old(Evictable()) == {}
      ensures victim.None? ==> unchanged(this)
      ensures victim.Some? ==>
                && IsVictim(old(history), old(Evictable()), k, victim.value)
                && entries == old(entries) - {victim.value} && history == old(history) - {victim.value}
    {
      hide HistoriesOk, Farther;
      NonEmpty(history, clock);
      var best, oldest, oldestHasK, found := 0, 0, false, false;
      var left := entries.Keys;
      ghost var seen: set<nat> := {};
      while left != {}
        invariant left + seen == entries.Keys && left !! seen && unchanged(this)
        invariant found <==> seen * Evictable() != {}
        invariant found ==>
                    && best in seen && IsVictim(history, seen * Evictable(), k, best)
                    && oldest == Reference(history[best], k) && oldestHasK == (|history[best]| >= k)
        decreases left
      {
        var f :| f in left;
        left := left - {f};
        ghost var before := seen * Evictable();
        seen := seen + {f};
        if entries[f].evictable {
          assert seen * Evictable() == before + {f};
          var hasK := |entries[f].accesses| >= k;
          var kth := entries[f].accesses[0];
          assert kth == Reference(history[f], k) && hasK == (|history[f]| >= k);
          if found {
            CompareIs(history[f], history[best], k);
            FartherTotal(history, clock, k, f, best);
          }
          if !found || (!hasK && oldestHasK) || (hasK == oldestHasK && kth < oldest) {
            if found {
              NewBest(history, before, k, best, f);
            }
            oldest, oldestHasK, best, found := kth, hasK, f, true;
          }
        } else {
          assert seen * Evictable() == before;
        }
      }
      assert seen == entries.Keys && seen * Evictable() == Evictable();
      if !found {
        return None;
      }
      EraseHistory(history, clock, best);
      entries := entries - {best};
      history := history - {best};
      victim := Some(best);
    }

    method Remove(f: nat)
      requires Valid()
      modifies this
      ensures Valid() && entries == old(entries) - {f} && history == old(history) - {f} && clock == old(clock)
    {
      entries := entries - {f};
      history := history - {f};
    }

    /** How many frames could be evicted. */
    method Size() returns (n: nat)
      ensures n == |Evictable()|
    {
      n := 0;
      var left := entries.Keys;
      ghost var seen: set<nat> := {};
      while left != {}
        invariant left + seen == entries.Keys && left !! seen
        invariant n == |seen * Evictable()|
        decreases left
      {
        var f :| f in left;
        left := left - {f};
        ghost var before := seen * Evictable();
        seen := seen + {f};
        if entries[f].evictable {
          assert seen * Evictable() == before + {f};
          n := n + 1;
        } else {
          assert seen * Evictable() == before;
        }
      }
      assert seen * Evictable() == Evictable();
    }
  }

  lemma NonEmpty(history: map<nat, seq<nat>>, clock: nat)
    requires HistoriesOk(history, clock)
    ensures forall f :: f in history ==> history[f] != []
  {
  }

  /** The comparison of the scan is the comparison of distances. */
  lemma CompareIs(h: seq<nat>, g: seq<nat>, k: nat)
    requires h != [] && g != [] && k > 0
    ensures Farther(h, g, k) <==>
              (|h| < k && |g| >= k) || ((|h| >= k) == (|g| >= k) && Reference(h, k) < Reference(g, k))
  {
  }

  lemma NewBest(history: map<nat, seq<nat>>, evictable: set<nat>, k: nat, best: nat, f: nat)
    requires k > 0 && evictable + {f} <= history.Keys && forall g :: g in history ==> history[g] != []
    requires IsVictim(history, evictable, k, best) && Farther(history[f], history[best], k)
    ensures IsVictim(history, evictable + {f}, k, f)
  {
    hide Farther;
    forall g | g in evictable && g != f
      ensures Farther(history[f], history[g], k)
    {
      if g != best {
        FartherTransitive(history[f], history[best], history[g], k);
      }
    }
  }

  lemma EraseHistory(history: map<nat, seq<nat>>, clock: nat, f: nat)
    requires HistoriesOk(history, clock)
    ensures HistoriesOk(history - {f}, clock)
  {
  }
}
