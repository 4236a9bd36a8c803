/** The LIKE operator: a backtracking loop with one saved wildcard, against the recursive meaning of % and _. */
module Like {
  import opened Bytes

  const ANY: Byte := 37  // '%'
  const ONE: Byte := 95  // '_'

  /** What LIKE means: % stands for any bytes, _ for one byte, every other byte for itself. */
  predicate Matches(v: Bytes, p: Bytes)
    decreases |v| + |p|
  {
    if p == [] then v == []
    else if p[0] == ANY then Matches(v, p[1..]) || (v != [] && Matches(v[1..], p))
    else v != [] && (p[0] == ONE || p[0] == v[0]) && Matches(v[1..], p[1..])
  }

  /** The last wildcard passed, and the value position where its match currently ends. */
  datatype Wildcard = NoWildcard | Wildcard(at: nat, end: nat)

  ghost predicate InRange(v: Bytes, p: Bytes, vi: nat, pi: nat, wild: Wildcard) {
    && vi <= |v| && pi <= |p|
    && (wild.Wildcard? ==> wild.at < pi && p[wild.at] == ANY && wild.end <= vi)
  }

  predicate AllAny(p: Bytes) {
    forall i :: 0 <= i < |p| ==> p[i] == ANY
  }

  /** The answer the loop goes on to give from a given state. */
  predicate Answer(v: Bytes, p: Bytes, vi: nat, pi: nat, wild: Wildcard)
    requires InRange(v, p, vi, pi, wild)
    decreases if wild.NoWildcard? then |v| + 1 else |v| - wild.end, |p| - pi
  {
    if vi == |v| then AllAny(p[pi..])
    else if pi < |p| && (p[pi] == ONE || p[pi] == v[vi]) then Answer(v, p, vi + 1, pi + 1, wild)
    else if pi < |p| && p[pi] == ANY then Answer(v, p, vi, pi + 1, Wildcard(pi, vi))
    else if wild.Wildcard? then Answer(v, p, wild.end + 1, wild.at + 1, wild.(end := wild.end + 1))
    else false
  }

  predicate Like(v: Bytes, p: Bytes) {
    Answer(v, p, 0, 0, NoWildcard)
  }

  /** The loops of Eval. Together they take fewer than (|v| + 1) * (|p| + 1) iterations on every input. */
  method Evaluate(v: Bytes, p: Bytes) returns (matched: bool, ghost iterations: nat)
    ensures matched == Like(v, p)
    ensures iterations < (|v| + 1) * (|p| + 1)
  {
    var vi: nat, pi: nat, wild := 0, 0, NoWildcard;
    iterations := 0;
    ghost var rounds, spent := 0, 0;
    while vi < |v|
      invariant InRange(v, p, vi, pi, wild)
      invariant Answer(v, p, vi, pi, wild) == Like(v, p)
      invariant rounds <= |v| && (wild.NoWildcard? ==> rounds == 0) && (wild.Wildcard? ==> rounds <= wild.end)
      invariant spent == rounds * (|p| + 1) && iterations <= spent + pi
      decreases if wild.NoWildcard? then |v| + 1 else |v| - wild.end, |p| - pi
    {
      iterations := iterations + 1;
      if pi < |p| && (p[pi] == ONE || p[pi] == v[vi]) {
        pi := pi + 1;
        vi := vi + 1;
      } else if pi < |p| && p[pi] == ANY {
        wild := Wildcard(pi, vi);
        pi := pi + 1;
      } else if wild.Wildcard? {
        assert (rounds + 1) * (|p| + 1) == spent + |p| + 1;
        rounds, spent := rounds + 1, spent + |p| + 1;
        wild := wild.(end := wild.end + 1);
        pi := wild.at + 1;
        vi := wild.end;
      } else {
        BoundProduct(1, |v|, |p|, iterations);
        return false, iterations;
      }
    }
    var tail := pi;
    while tail < |p| && p[tail] == ANY
      invariant pi <= tail <= |p|
      invariant forall i :: pi <= i < tail ==> p[i] == ANY
      invariant iterations <= spent + tail
    {
      iterations := iterations + 1;
      tail := tail + 1;
    }
    BoundProduct(rounds, |v|, |p|, iterations);
    matched := tail == |p|;
    assert matched == AllAny(p[pi..]) by {
      if tail < |p| {
        assert p[pi..][tail - pi] != ANY;
      }
    }
  }

  lemma BoundProduct(rounds: nat, n: nat, m: nat, iterations: nat)
    requires rounds <= n && iterations <= rounds * (m + 1) + m
    ensures iterations < (n + 1) * (m + 1)
  {
    assert rounds * (m + 1) <= n * (m + 1);
  }

  // ---- Facts about the meaning ----

  lemma {:induction false} EmptyMatchesAny(p: Bytes)
    ensures Matches([], p) <==> AllAny(p)
  {
    if p != [] {
      EmptyMatchesAny(p[1..]);
      assert p == [p[0]] + p[1..];
    }
  }

  /** A pattern that starts with % matches everything that has a matching suffix. */
  lemma {:induction false} AnyAbsorbs(v: Bytes, p: Bytes, k: nat)
    requires p != [] && p[0] == ANY && k <= |v| && Matches(v[k..], p)
    ensures Matches(v, p)
    decreases k
  {
    if k == 0 {
      assert v[0..] == v;
    } else {
      assert v[1..][k - 1..] == v[k..];
      AnyAbsorbs(v[1..], p, k - 1);
    }
  }

  lemma {:induction false} AnyNeedsSuffix(v: Bytes, p: Bytes) returns (k: nat)
    requires p != [] && p[0] == ANY && Matches(v, p)
    ensures k <= |v| && Matches(v[k..], p[1..])
    decreases v
  {
    if Matches(v, p[1..]) {
      k := 0;
      assert v[0..] == v;
    } else {
      var j := AnyNeedsSuffix(v[1..], p);
      k := j + 1;
      assert v[1..][j..] == v[k..];
    }
  }

  /** A stretch of pattern without % takes exactly as many bytes as it is long. */
  lemma {:induction false} FixedStretch(v: Bytes, fixed: Bytes, rest: Bytes)
    requires ANY !in fixed && Matches(v, fixed + rest)
    ensures |fixed| <= |v| && Matches(v[|fixed|..], rest)
    decreases fixed
  {
    if fixed == [] {
      assert fixed + rest == rest && v[0..] == v;
    } else {
      assert (fixed + rest)[1..] == fixed[1..] + rest;
      FixedStretch(v[1..], fixed[1..], rest);
      assert v[1..][|fixed| - 1..] == v[|fixed|..];
    }
  }

  // ---- The loop against the meaning ----

  /** What is left to match in a loop state. */
  predicate Rest(v: Bytes, p: Bytes, vi: nat, pi: nat)
    requires vi <= |v| && pi <= |p|
  {
    Matches(v[vi..], p[pi..])
  }

  lemma RestStep(v: Bytes, p: Bytes, vi: nat, pi: nat)
    requires vi < |v| && pi < |p|
    ensures p[pi] == ANY ==> (Rest(v, p, vi, pi) <==> Rest(v, p, vi, pi + 1) || Rest(v, p, vi + 1, pi))
    ensures p[pi] != ANY ==>
              (Rest(v, p, vi, pi) <==> (p[pi] == ONE || p[pi] == v[vi]) && Rest(v, p, vi + 1, pi + 1))
  {
    assert v[vi..][1..] == v[vi + 1..] && p[pi..][1..] == p[pi + 1..];
  }

  lemma RestAtEnd(v: Bytes, p: Bytes, pi: nat)
    requires pi <= |p|
    ensures Rest(v, p, |v|, pi) <==> AllAny(p[pi..])
  {
    assert v[|v|..] == [];
    EmptyMatchesAny(p[pi..]);
  }

  /** What the loop may still accept: the rest from here, or the rest from the saved wildcard. */
  ghost predicate Hope(v: Bytes, p: Bytes, vi: nat, pi: nat, wild: Wildcard)
    requires InRange(v, p, vi, pi, wild)
  {
    Rest(v, p, vi, pi) || (wild.Wildcard? && Rest(v, p, wild.end, wild.at))
  }

  /** On every input, the loop accepts only what matches. */
  lemma {:induction false} AnswerSound(v: Bytes, p: Bytes, vi: nat, pi: nat, wild: Wildcard)
    requires InRange(v, p, vi, pi, wild)
    ensures Answer(v, p, vi, pi, wild) ==> Hope(v, p, vi, pi, wild)
    decreases if wild.NoWildcard? then |v| + 1 else |v| - wild.end, |p| - pi
  {
    hide Matches;
    if vi == |v| {
      RestAtEnd(v, p, pi);
    } else if pi < |p| && (p[pi] == ONE || p[pi] == v[vi]) {
      AnswerSound(v, p, vi + 1, pi + 1, wild);
      RestStep(v, p, vi, pi);
      if p[pi] == ANY && Rest(v, p, vi + 1, pi + 1) {
        RestAny(v, p, vi + 1, pi);
      }
    } else if pi < |p| && p[pi] == ANY {
      AnswerSound(v, p, vi, pi + 1, Wildcard(pi, vi));
      RestStep(v, p, vi, pi);
    } else if wild.Wildcard? {
      AnswerSound(v, p, wild.end + 1, wild.at + 1, wild.(end := wild.end + 1));
      RestStep(v, p, wild.end, wild.at);
      RestAny(v, p, wild.end + 1, wild.at);
    }
  }

  lemma RestAny(v: Bytes, p: Bytes, vi: nat, pi: nat)
    requires vi <= |v| && pi < |p| && p[pi] == ANY
    ensures Rest(v, p, vi, pi + 1) ==> Rest(v, p, vi, pi)
  {
    assert p[pi..][1..] == p[pi + 1..];
  }

  /** The bytes between the saved wildcard and the current place have no %, in the pattern, and line up. */
  ghost predicate Aligned(p: Bytes, vi: nat, pi: nat, wild: Wildcard) {
    wild.Wildcard? ==> wild.at < pi <= |p| && ANY !in p[wild.at + 1..pi] && vi - wild.end == pi - (wild.at + 1)
  }

  /** Earlier wildcards never need revisiting: their whole hope passes to the next one. */
  lemma HopePassesOn(v: Bytes, p: Bytes, vi: nat, pi: nat, wild: Wildcard)
    requires InRange(v, p, vi, pi, wild) && wild.Wildcard? && Aligned(p, vi, pi, wild)
    requires pi < |p| && p[pi] == ANY && Rest(v, p, wild.end, wild.at)
    ensures Rest(v, p, vi, pi)
  {
    var k := AnyNeedsSuffix(v[wild.end..], p[wild.at..]);
    var t := wild.end + k;
    assert v[wild.end..][k..] == v[t..] && p[wild.at..][1..] == p[wild.at + 1..];
    var fixed := p[wild.at + 1..pi];
    assert p[wild.at + 1..] == fixed + p[pi..];
    FixedStretch(v[t..], fixed, p[pi..]);
    assert v[t..][|fixed|..] == v[t + |fixed|..] == v[vi..][k..];
    AnyAbsorbs(v[vi..], p[pi..], k);
  }

  /** When % cannot meet % as a literal, the loop accepts everything that matches. */
  lemma {:induction false} AnswerComplete(v: Bytes, p: Bytes, vi: nat, pi: nat, wild: Wildcard)
    requires InRange(v, p, vi, pi, wild) && Aligned(p, vi, pi, wild)
    requires ANY !in v || ANY !in p
    requires Hope(v, p, vi, pi, wild)
    ensures Answer(v, p, vi, pi, wild)
    decreases if wild.NoWildcard? then |v| + 1 else |v| - wild.end, |p| - pi
  {
    hide Matches;
    if vi == |v| {
      RestAtEnd(v, p, pi);
      if !Rest(v, p, vi, pi) {
        EndOfValue(v, p, pi, wild);
      }
    } else if pi < |p| && (p[pi] == ONE || p[pi] == v[vi]) {
      RestStep(v, p, vi, pi);
      assert p[pi] != ANY by { assert p[pi] in p && v[vi] in v; }
      AnswerComplete(v, p, vi + 1, pi + 1, wild);
    } else if pi < |p| && p[pi] == ANY {
      if !Rest(v, p, vi, pi) {
        HopePassesOn(v, p, vi, pi, wild);
      }
      AnswerComplete(v, p, vi, pi + 1, Wildcard(pi, vi));
    } else {
      if pi < |p| {
        RestStep(v, p, vi, pi);
      } else {
        NothingLeft(v, p, vi);
      }
      AttemptCarries(v, p, vi, pi, wild);
      RestStep(v, p, wild.end, wild.at);
      AnswerComplete(v, p, wild.end + 1, wild.at + 1, wild.(end := wild.end + 1));
    }
  }

  lemma NothingLeft(v: Bytes, p: Bytes, vi: nat)
    requires vi < |v|
    ensures !Rest(v, p, vi, |p|)
  {
    assert p[|p|..] == [];
  }

  /** If the stretch right behind the wildcard matches from its present end, so does what is left of it. */
  lemma AttemptCarries(v: Bytes, p: Bytes, vi: nat, pi: nat, wild: Wildcard)
    requires InRange(v, p, vi, pi, wild) && wild.Wildcard? && Aligned(p, vi, pi, wild)
    ensures Rest(v, p, wild.end, wild.at + 1) ==> Rest(v, p, vi, pi)
  {
    if Rest(v, p, wild.end, wild.at + 1) {
      var fixed := p[wild.at + 1..pi];
      assert p[wild.at + 1..] == fixed + p[pi..];
      FixedStretch(v[wild.end..], fixed, p[pi..]);
      assert v[wild.end..][|fixed|..] == v[vi..];
    }
  }

  /** At the end of the value the wildcard has no more bytes to take. */
  lemma EndOfValue(v: Bytes, p: Bytes, pi: nat, wild: Wildcard)
    requires InRange(v, p, |v|, pi, wild) && wild.Wildcard? && Aligned(p, |v|, pi, wild)
    requires Rest(v, p, wild.end, wild.at)
    ensures Rest(v, p, |v|, pi)
  {
    var k := AnyNeedsSuffix(v[wild.end..], p[wild.at..]);
    var t := wild.end + k;
    assert v[wild.end..][k..] == v[t..] && p[wild.at..][1..] == p[wild.at + 1..];
    var fixed := p[wild.at + 1..pi];
    assert p[wild.at + 1..] == fixed + p[pi..];
    FixedStretch(v[t..], fixed, p[pi..]);
    assert v[t..][|fixed|..] == v[|v|..];
  }

  lemma Sound(v: Bytes, p: Bytes)
    ensures Like(v, p) ==> Matches(v, p)
  {
    AnswerSound(v, p, 0, 0, NoWildcard);
    assert v[0..] == v && p[0..] == p;
  }

  lemma Correct(v: Bytes, p: Bytes)
    requires ANY !in v || ANY !in p
    ensures Like(v, p) <==> Matches(v, p)
  {
    Sound(v, p);
    assert v[0..] == v && p[0..] == p;
    if Matches(v, p) {
      AnswerComplete(v, p, 0, 0, NoWildcard);
    }
  }

  // ---- A % in the value ----

  /** A literal copy of the value's front is walked over byte by byte. */
  lemma {:induction false} WalksLiteral(v: Bytes, p: Bytes, i: nat, n: nat)
    requires i <= n <= |v| && n <= |p| && p[..n] == v[..n]
    ensures Answer(v, p, i, i, NoWildcard) == Answer(v, p, n, n, NoWildcard)
    decreases n - i
  {
    if i < n {
      assert p[..n][i] == v[..n][i];
      WalksLiteral(v, p, i + 1, n);
    }
  }

  lemma {:induction false} LiteralPrefix(v: Bytes, tail: Bytes, n: nat)
    requires n <= |v| && ANY !in v[..n] && Matches(v[n..], tail)
    ensures Matches(v, v[..n] + tail)
    decreases n
  {
    if n == 0 {
      assert v[..0] + tail == tail && v[0..] == v;
    } else {
      var p := v[..n] + tail;
      assert v[0] in v[..n];
      assert v[1..][..n - 1] == v[..n][1..] && v[1..][n - 1..] == v[n..];
      assert p[1..] == v[1..][..n - 1] + tail;
      LiteralPrefix(v[1..], tail, n - 1);
    }
  }

  /** A pattern that shows the difference for a value whose first % is at n. */
  function Witness(v: Bytes, n: nat): Bytes
    requires n < |v|
  {
    v[..n] + (if n + 1 < |v| then [ANY] else [ANY, ONE])
  }

  lemma WitnessDiffers(v: Bytes, n: nat)
    requires n < |v| && v[n] == ANY && ANY !in v[..n]
    ensures Matches(v, Witness(v, n)) && !Like(v, Witness(v, n))
  {
    var tail: Bytes := if n + 1 < |v| then [ANY] else [ANY, ONE];
    var p := Witness(v, n);
    assert Matches(v[n..], tail) by {
      if n + 1 < |v| {
        assert Matches([], tail) by { EmptyMatchesAny(tail); }
        assert v[n..][|v| - n..] == [];
        AnyAbsorbs(v[n..], tail, |v| - n);
      } else {
        assert v[n..] == [ANY] && tail[1..] == [ONE] && tail[1..][1..] == [] && v[n..][1..] == [];
        assert Matches([ANY], [ONE]);
      }
    }
    LiteralPrefix(v, tail, n);
    assert p[..n] == v[..n] && p[n] == ANY;
    WalksLiteral(v, p, 0, n);
    assert Answer(v, p, n, n, NoWildcard) == Answer(v, p, n + 1, n + 1, NoWildcard);
    if n + 1 == |v| {
      assert p[n + 1..][0] == ONE;
    }
  }

  lemma {:induction false} FirstAny(v: Bytes) returns (n: nat)
    requires ANY in v
    ensures n < |v| && v[n] == ANY && ANY !in v[..n]
    decreases v
  {
    if v[0] == ANY {
      n := 0;
    } else {
      assert v == [v[0]] + v[1..];
      var m := FirstAny(v[1..]);
      n := m + 1;
      assert v[..n] == [v[0]] + v[1..][..m];
    }
  }

  /** Exactly the values without % are handled right: every other value has a pattern the loop gets wrong. */
  lemma CorrectExactly(v: Bytes)
    ensures (forall p: Bytes :: Like(v, p) <==> Matches(v, p)) <==> ANY !in v
  {
    if ANY in v {
      var n := FirstAny(v);
      WitnessDiffers(v, n);
    } else {
      forall p: Bytes
        ensures Like(v, p) <==> Matches(v, p)
      {
        Correct(v, p);
      }
    }
  }
}
