/** Memcomparable index keys: the order of encodings is the order of values. */
module Keys {
  import opened Bytes
  import opened OrderedMap
  import opened Values

  // ---- Encoding ----

  /** Blocks of eight bytes, each followed by 255 if more follow and by its length if it is the last. */
  function Chunks(t: Bytes): (e: Bytes)
    requires t != []
    ensures |e| >= 9
  {
    if |t| <= 8 then t + Zeros(8 - |t|) + [|t|] else t[..8] + [255] + Chunks(t[8..])
  }

  /** The empty string is a single zero byte. */
  function Escaped(t: Bytes): Bytes {
    if t == [] then [0] else Chunks(t)
  }

  /** A 64-bit word with its top bit flipped. */
  function FlipTop(u: U64): U64 {
    if u >= 0x8000_0000_0000_0000 then u - 0x8000_0000_0000_0000 else u + 0x8000_0000_0000_0000
  }

  /** REAL bits made to sort as unsigned: all bits flipped when negative, only the sign otherwise. */
  function SortableBits(bits: U64): U64 {
    if bits >= 0x8000_0000_0000_0000 then 0xFFFF_FFFF_FFFF_FFFF - bits else FlipTop(bits)
  }

  function UnsortedBits(u: U64): U64 {
    if u >= 0x8000_0000_0000_0000 then FlipTop(u) else 0xFFFF_FFFF_FFFF_FFFF - u
  }

  function Payload(v: Value): Bytes {
    match v
    case Null => []
    case Boolean(b) => [if b then 1 else 0]
    case Integer(i) => BigEndian(FlipTop(ToU64(i)), 8)
    case Real(bits) => BigEndian(SortableBits(bits), 8)
    case Text(t) => Escaped(t)
    case Blob(b) => Escaped(b)
  }

  function Key(v: Value): Bytes {
    if v.Null? then [0] else [1, Tag(TypeOf(v))] + Payload(v)
  }

  function Inverted(s: Bytes): (r: Bytes)
    ensures |r| == |s|
  {
    seq(|s|, i requires 0 <= i < |s| => 255 - s[i])
  }

  function EncodeKey(v: Value, descending: bool): Bytes {
    if descending then Inverted(Key(v)) else Key(v)
  }

  method AppendBigEndian(out: Bytes, value: U64) returns (r: Bytes)
    ensures r == out + BigEndian(value, 8)
  {
    r := out;
    var i := 0;
    while i < 8
      invariant 0 <= i <= 8
      invariant r + BigEndian(value, 8 - i) == out + BigEndian(value, 8)
    {
      BigEndianFront(value, 7 - i);
      r := r + [value / Pow256(7 - i) % 256];
      i := i + 1;
    }
  }

  /** A block of eight bytes and its flag. */
  function Block(t: Bytes): (b: Bytes)
    requires t != []
  {
    if |t| <= 8 then t + Zeros(8 - |t|) + [|t|] else t[..8] + [255]
  }

  lemma ChunksUnfold(t: Bytes)
    requires t != []
    ensures Chunks(t) == if |t| <= 8 then Block(t) else Block(t) + Chunks(t[8..])
  {
    hide Zeros;
  }

  method AppendEscaped(out: Bytes, text: Bytes) returns (r: Bytes)
    ensures r == out + Escaped(text)
  {
    hide Chunks, Zeros;
    r := out;
    var offset := 0;
    assert text[0..] == text;
    while offset < |text|
      invariant 0 <= offset <= |text|
      invariant if offset < |text| then r + Chunks(text[offset..]) == out + Escaped(text)
                else r == if text == [] then out else out + Escaped(text)
    {
      ghost var rest, before := text[offset..], r;
      ChunksUnfold(rest);
      var count := if |text| - offset < 8 then |text| - offset else 8;
      r := r + text[offset..offset + count];
      r := r + Zeros(8 - count);
      r := r + [if count == 8 && offset + count < |text| then 255 else count];
      assert r == before + Block(rest) by { OneBlock(before, text, offset, count); }
      if |rest| > 8 {
        assert rest[8..] == text[offset + 8..];
        assert before + (Block(rest) + Chunks(rest[8..])) == before + Block(rest) + Chunks(rest[8..]);
      }
      hide Block;
      offset := if offset + 8 < |text| then offset + 8 else |text|;
    }
    if text == [] {
      r := r + [0];
    }
  }

  lemma OneBlock(before: Bytes, text: Bytes, offset: nat, count: nat)
    requires offset < |text| && count == if |text| - offset < 8 then |text| - offset else 8
    ensures before + text[offset..offset + count] + Zeros(8 - count)
            + [if count == 8 && offset + count < |text| then 255 else count]
         == before + Block(text[offset..])
  {
    var rest := text[offset..];
    assert rest[..count] == text[offset..offset + count];
    assert |rest| > 8 ==> Zeros(8 - count) == [];
  }

  method Encode(v: Value, descending: bool) returns (r: Bytes)
    ensures r == EncodeKey(v, descending)
  {
    hide BigEndian, Escaped;
    if v.Null? {
      r := [0];
    } else {
      r := [1, Tag(TypeOf(v))];
      match v {
        case Boolean(b) => r := r + [if b then 1 else 0];
        case Integer(i) => r := AppendBigEndian(r, FlipTop(ToU64(i)));
        case Real(bits) => r := AppendBigEndian(r, SortableBits(bits));
        case Text(t) => r := AppendEscaped(r, t);
        case Blob(b) => r := AppendEscaped(r, b);
      }
    }
    assert r == Key(v);
    if descending {
      r := InvertBytes(r);
    }
  }

  /** The loop that inverts a key in place. */
  method InvertBytes(s: Bytes) returns (r: Bytes)
    ensures r == Inverted(s)
  {
    r := s;
    var i := 0;
    while i < |r|
      invariant 0 <= i <= |r| == |s|
      invariant forall k :: 0 <= k < i ==> r[k] == 255 - s[k]
      invariant forall k :: i <= k < |r| ==> r[k] == s[k]
    {
      r := r[i := 255 - r[i]];
      i := i + 1;
    }
  }

  function DecodeChunks(p: Bytes, done: Bytes): Option<Bytes>
    decreases p
  {
    if |p| < 9 then None
    else if p[8] > 8 then if p[8] != 255 then None else DecodeChunks(p[9..], done + p[..8])
    else if |p| != 9 then None
    else Some(done + p[..p[8]])
  }

  function Decoded(p: Bytes): (u: U64)
    requires |p| == 8
  {
    FromBigEndianBounded(p);
    Pow256Values();
    FromBigEndian(p)
  }

  function DecodeKey(e: Bytes): Option<Value> {
    if e == [] then None
    else if e[0] == 0 then Some(Null)
    else if e[0] != 1 || |e| < 3 then None
    else
      var p := e[2..];
      if e[1] == 1 then if |p| == 1 && p[0] <= 1 then Some(Boolean(p[0] != 0)) else None
      else if e[1] == 2 then if |p| != 8 then None else Some(Integer(ToI64(FlipTop(Decoded(p)))))
      else if e[1] == 3 then if |p| != 8 then None else Some(Real(UnsortedBits(Decoded(p))))
      else if e[1] == 4 then
        match DecodeChunks(p, []) {
          case None => None
          case Some(t) => Some(Text(t))
        }
      else if e[1] == 5 then
        match DecodeChunks(p, []) {
          case None => None
          case Some(b) => Some(Blob(b))
        }
      else None
  }

  /** The loop of DecodeKey over the blocks of a TEXT or BLOB. */
  method DecodeBlocks(payload: Bytes) returns (r: Option<Bytes>)
    ensures r == DecodeChunks(payload, [])
  {
    var bytes: Bytes := [];
    var pos := 0;
    assert payload[0..] == payload;
    while pos + 9 <= |payload|
      invariant 0 <= pos <= |payload|
      invariant DecodeChunks(payload[pos..], bytes) == DecodeChunks(payload, [])
    {
      var rest := payload[pos..];
      var count := payload[pos + 8];
      assert rest[8] == count && rest[9..] == payload[pos + 9..] && rest[..8] == payload[pos..pos + 8];
      if count > 8 {
        if count != 255 {
          return None;
        }
        bytes := bytes + payload[pos..pos + 8];
        pos := pos + 9;
      } else {
        assert rest[..count] == payload[pos..pos + count];
        bytes := bytes + payload[pos..pos + count];
        pos := pos + 9;
        if pos != |payload| {
          return None;
        }
        return Some(bytes);
      }
    }
    r := None;
  }

  // ---- Decoding what was encoded ----

  lemma {:induction false} ChunksBack(t: Bytes, done: Bytes)
    requires t != []
    ensures DecodeChunks(Chunks(t), done) == Some(done + t)
    decreases t
  {
    var e := Chunks(t);
    if |t| <= 8 {
      assert e[8] == |t| && e[..|t|] == t;
    } else {
      assert e[..8] == t[..8] && e[8] == 255 && e[9..] == Chunks(t[8..]);
      ChunksBack(t[8..], done + t[..8]);
      assert done + t[..8] + t[8..] == done + t;
    }
  }

  lemma WordBack(u: U64)
    ensures Decoded(BigEndian(u, 8)) == u
  {
    Pow256Values();
    BigEndianRoundTrip(u, 8);
  }

  predicate IsEmptyString(v: Value) {
    (v.Text? && v.text == []) || (v.Blob? && v.blob == [])
  }

  /** DecodeKey inverts the ascending encoding of exactly the values that are not an empty TEXT or BLOB. */
  lemma DecodeExactly(v: Value)
    ensures DecodeKey(EncodeKey(v, false)) == Some(v) <==> !IsEmptyString(v)
  {
    hide BigEndian, Chunks, DecodeChunks;
    if !v.Null? {
      assert Key(v)[2..] == Payload(v);
    }
    match v
    case Null =>
    case Boolean(_) =>
    case Integer(i) => WordBack(FlipTop(ToU64(i)));
    case Real(bits) => WordBack(SortableBits(bits));
    case Text(t) =>
      if t == [] { ShortFails([0]); } else { ChunksBack(t, []); assert [] + t == t; }
    case Blob(b) =>
      if b == [] { ShortFails([0]); } else { ChunksBack(b, []); assert [] + b == b; }
  }

  lemma ShortFails(p: Bytes)
    requires |p| < 9
    ensures DecodeChunks(p, []) == None
  {
  }

  // ---- First differences ----

  ghost predicate DiffAt(x: Bytes, y: Bytes, k: nat) {
    k < |x| && k < |y| && x[..k] == y[..k] && x[k] < y[k]
  }

  lemma {:induction false} DiffIsLess(x: Bytes, y: Bytes, k: nat)
    requires DiffAt(x, y, k)
    ensures Less(x, y)
    decreases k
  {
    if k > 0 {
      assert x[0] == x[..k][0] == y[..k][0] == y[0];
      assert x[1..][..k - 1] == x[..k][1..] && y[1..][..k - 1] == y[..k][1..];
      DiffIsLess(x[1..], y[1..], k - 1);
    }
  }

  lemma {:induction false} LessHasDiff(x: Bytes, y: Bytes) returns (k: nat)
    requires Less(x, y)
    ensures DiffAt(x, y, k) || x < y
    decreases x
  {
    if x == [] || x[0] < y[0] {
      k := 0;
    } else {
      var j := LessHasDiff(x[1..], y[1..]);
      k := j + 1;
      assert x == [x[0]] + x[1..] && y == [y[0]] + y[1..];
      if DiffAt(x[1..], y[1..], j) {
        assert x[..k] == [x[0]] + x[1..][..j] && y[..k] == [y[0]] + y[1..][..j];
      }
    }
  }

  lemma DiffShift(p: Bytes, x: Bytes, y: Bytes, k: nat)
    requires DiffAt(x, y, k)
    ensures DiffAt(p + x, p + y, |p| + k)
  {
    assert (p + x)[..|p| + k] == p + x[..k] && (p + y)[..|p| + k] == p + y[..k];
  }

  lemma DiffInverts(x: Bytes, y: Bytes, k: nat)
    requires DiffAt(x, y, k)
    ensures DiffAt(Inverted(y), Inverted(x), k)
  {
    assert forall j :: 0 <= j < k ==> x[j] == y[j] by {
      assert forall j :: 0 <= j < k ==> x[j] == x[..k][j] && y[j] == y[..k][j];
    }
    assert Inverted(x)[..k] == Inverted(y)[..k];
  }

  lemma DiffIsNoPrefix(x: Bytes, y: Bytes, k: nat)
    requires DiffAt(x, y, k)
    ensures !(x <= y) && !(y <= x)
  {
  }

  // ---- TEXT and BLOB ----

  /** The first eight bytes and the flag of a first block. */
  lemma {:induction false} FirstBlock(t: Bytes)
    requires t != []
    ensures forall j :: 0 <= j < 8 ==> Chunks(t)[j] == if j < |t| then t[j] else 0
    ensures Chunks(t)[8] == if |t| <= 8 then |t| else 255
  {
    if |t| <= 8 {
      assert Chunks(t) == t + Zeros(8 - |t|) + [|t|];
    } else {
      assert Chunks(t) == t[..8] + ([255] + Chunks(t[8..]));
      hide Chunks;
    }
  }

  /** A difference of the strings is a difference of their encodings. */
  lemma {:induction false} ChunksOfDiff(a: Bytes, b: Bytes, k: nat) returns (m: nat)
    requires DiffAt(a, b, k)
    ensures DiffAt(Chunks(a), Chunks(b), m)
    decreases k
  {
    if k < 8 {
      FirstBlock(a);
      FirstBlock(b);
      m := k;
      assert forall j :: 0 <= j < k ==> a[j] == a[..k][j] && b[j] == b[..k][j];
      assert Chunks(a)[..k] == a[..k] && Chunks(b)[..k] == b[..k];
    } else {
      assert a[..8] == a[..k][..8] && b[..8] == b[..k][..8];
      assert a[8..][..k - 8] == a[..k][8..] && b[8..][..k - 8] == b[..k][8..];
      var n := ChunksOfDiff(a[8..], b[8..], k - 8);
      DiffShift(a[..8] + [255], Chunks(a[8..]), Chunks(b[8..]), n);
      m := n + 9;
    }
  }

  /** The first place in lo..8 where the padded block of a shorter string differs, or the flag's. */
  lemma {:induction false} ShorterBlock(a: Bytes, b: Bytes, lo: nat) returns (m: nat)
    requires a != [] && a < b && |a| <= lo <= 8
    requires forall j :: |a| <= j < lo && j < |b| ==> b[j] == 0
    ensures DiffAt(Chunks(a), Chunks(b), m)
    decreases 8 - lo
  {
    FirstBlock(a);
    FirstBlock(b);
    if lo < 8 && (lo >= |b| || b[lo] == 0) {
      m := ShorterBlock(a, b, lo + 1);
    } else {
      m := lo;
      assert forall j :: 0 <= j < lo ==> Chunks(a)[j] == Chunks(b)[j];
      assert Chunks(a)[..lo] == Chunks(b)[..lo];
    }
  }

  lemma {:induction false} ChunksOfPrefix(a: Bytes, b: Bytes) returns (m: nat)
    requires a != [] && a < b
    ensures DiffAt(Chunks(a), Chunks(b), m)
    decreases a
  {
    if |a| <= 8 {
      m := ShorterBlock(a, b, |a|);
    } else {
      assert a[..8] == b[..8] && a[8..] < b[8..];
      var n := ChunksOfPrefix(a[8..], b[8..]);
      DiffShift(a[..8] + [255], Chunks(a[8..]), Chunks(b[8..]), n);
      m := n + 9;
    }
  }

  lemma ChunksDiffer(a: Bytes, b: Bytes) returns (m: nat)
    requires a != [] && b != [] && Less(a, b)
    ensures DiffAt(Chunks(a), Chunks(b), m)
  {
    var k := LessHasDiff(a, b);
    if DiffAt(a, b, k) {
      m := ChunksOfDiff(a, b, k);
    } else {
      m := ChunksOfPrefix(a, b);
    }
  }

  lemma EscapedMonotonic(a: Bytes, b: Bytes)
    requires Less(a, b)
    ensures Less(Escaped(a), Escaped(b))
  {
    hide Chunks;
    if a == [] {
      FirstBlock(b);
      assert Less([], Chunks(b)[1..]);
    } else {
      var m := ChunksDiffer(a, b);
      DiffIsLess(Chunks(a), Chunks(b), m);
    }
  }

  /** Encodings sort as the strings do, for all byte strings. */
  lemma EscapedOrder(a: Bytes, b: Bytes)
    ensures Less(Escaped(a), Escaped(b)) <==> Less(a, b)
    ensures Escaped(a) == Escaped(b) <==> a == b
  {
    hide Escaped, Less;
    LessTotal(a, b);
    LessIrreflexive(Escaped(a));
    if Less(a, b) {
      EscapedMonotonic(a, b);
      LessAsymmetric(a, b);
      LessAsymmetric(Escaped(a), Escaped(b));
    } else if Less(b, a) {
      EscapedMonotonic(b, a);
      LessAsymmetric(b, a);
      LessAsymmetric(Escaped(b), Escaped(a));
    } else {
      LessIrreflexive(a);
    }
  }

  /** No encoding of a non-empty string is a prefix of another's. */
  lemma ChunksPrefixFree(a: Bytes, b: Bytes)
    requires a != [] && b != [] && a != b
    ensures !(Chunks(a) <= Chunks(b))
  {
    hide Chunks, Less;
    LessTotal(a, b);
    if Less(a, b) {
      var m := ChunksDiffer(a, b);
      DiffIsNoPrefix(Chunks(a), Chunks(b), m);
    } else {
      var m := ChunksDiffer(b, a);
      DiffIsNoPrefix(Chunks(b), Chunks(a), m);
    }
  }

  /** One string is empty and the other starts with a NUL byte. */
  predicate Shadowed(a: Bytes, b: Bytes) {
    (a == [] && b != [] && b[0] == 0) || (b == [] && a != [] && a[0] == 0)
  }

  lemma EscapedDiffer(a: Bytes, b: Bytes) returns (m: nat)
    requires Less(a, b) && !Shadowed(a, b)
    ensures DiffAt(Escaped(a), Escaped(b), m)
  {
    if a == [] {
      FirstBlock(b);
      m := 0;
    } else {
      m := ChunksDiffer(a, b);
    }
  }

  lemma InvertedReverses(a: Bytes, b: Bytes)
    requires Less(a, b) && !Shadowed(a, b)
    ensures Less(Inverted(Escaped(b)), Inverted(Escaped(a)))
  {
    hide Escaped, Shadowed, Inverted;
    var m := EscapedDiffer(a, b);
    DiffInverts(Escaped(a), Escaped(b), m);
    DiffIsLess(Inverted(Escaped(b)), Inverted(Escaped(a)), m);
  }

  lemma ShadowBreaksOrder(b: Bytes)
    requires b != [] && b[0] == 0
    ensures Less([], b) && Less(Inverted(Escaped([])), Inverted(Escaped(b)))
  {
    hide Chunks;
    FirstBlock(b);
    var x, y := Inverted(Escaped([])), Inverted(Escaped(b));
    assert x == [255] && y[0] == 255 && x[1..] == [] && y[1..] != [];
  }

  /**
   * The inverted encoding reverses the order of two strings exactly when it is not the case that one is empty
   * and the other starts with a NUL byte.
   */
  lemma DescendingExactly(a: Bytes, b: Bytes)
    ensures (Less(Inverted(Escaped(a)), Inverted(Escaped(b))) <==> Less(b, a)) <==> !Shadowed(a, b)
  {
    hide Escaped, Inverted, Less;
    var x, y := Inverted(Escaped(a)), Inverted(Escaped(b));
    LessTotal(a, b);
    if Shadowed(a, b) {
      ShadowBreaksOrder(if a == [] then b else a);
      if a == [] { LessAsymmetric(a, b); LessAsymmetric(x, y); } else { LessAsymmetric(b, a); LessAsymmetric(y, x); }
    } else if Less(a, b) {
      InvertedReverses(a, b);
      LessAsymmetric(a, b);
      LessAsymmetric(y, x);
    } else if Less(b, a) {
      InvertedReverses(b, a);
    } else {
      LessIrreflexive(x);
      LessIrreflexive(a);
    }
  }

  // ---- All types ----

  /** totalOrder of section 5.10 of IEEE 754-2008 on bit patterns: sign and magnitude. */
  predicate TotalLess(x: U64, y: U64) {
    var nx, ny := x >= 0x8000_0000_0000_0000, y >= 0x8000_0000_0000_0000;
    if nx != ny then nx else if nx then x > y else x < y
  }

  /** The order of two values of one type. */
  predicate ValueLess(a: Value, b: Value) {
    match (a, b)
    case (Boolean(x), Boolean(y)) => !x && y
    case (Integer(x), Integer(y)) => x < y
    case (Real(x), Real(y)) => TotalLess(x, y)
    case (Text(x), Text(y)) => Less(x, y)
    case (Blob(x), Blob(y)) => Less(x, y)
    case _ => false
  }

  lemma WordOrder(u: U64, w: U64)
    ensures Less(BigEndian(u, 8), BigEndian(w, 8)) <==> u < w
    ensures BigEndian(u, 8) == BigEndian(w, 8) <==> u == w
  {
    hide BigEndian, Less;
    Pow256Values();
    BigEndianOrder(u, w, 8);
  }

  /** Keys of one type sort as their values, and distinct values have distinct keys. */
  lemma KeyOrder(a: Value, b: Value)
    requires TypeOf(a) == TypeOf(b) && !a.Null?
    ensures Less(Key(a), Key(b)) <==> ValueLess(a, b)
    ensures Key(a) == Key(b) <==> a == b
  {
    hide BigEndian, Escaped, Less;
    var tag := [1, Tag(TypeOf(a))];
    LessBlocks(tag, tag, Payload(a), Payload(b));
    LessIrreflexive(tag);
    assert Key(a)[2..] == Payload(a) && Key(b)[2..] == Payload(b);
    match a
    case Boolean(x) => BooleanOrder(x, b.truth);
    case Integer(x) => WordOrder(FlipTop(ToU64(x)), FlipTop(ToU64(b.number)));
    case Real(x) => WordOrder(SortableBits(x), SortableBits(b.bits));
    case Text(x) => EscapedOrder(x, b.text);
    case Blob(x) => EscapedOrder(x, b.blob);
  }

  lemma BooleanOrder(x: bool, y: bool)
    ensures Less(Payload(Boolean(x)), Payload(Boolean(y))) <==> !x && y
  {
    assert !Less([], []);
  }

  lemma InvertedOrder(x: Bytes, y: Bytes)
    requires |x| == |y|
    ensures Less(Inverted(x), Inverted(y)) <==> Less(y, x)
  {
    hide Inverted, Less;
    LessTotal(x, y);
    if Less(x, y) {
      LessAsymmetric(x, y);
      EqualLengthReverses(x, y);
      LessAsymmetric(Inverted(y), Inverted(x));
    } else if Less(y, x) {
      EqualLengthReverses(y, x);
    } else {
      LessIrreflexive(Inverted(x));
    }
  }

  lemma EqualLengthReverses(x: Bytes, y: Bytes)
    requires |x| == |y| && Less(x, y)
    ensures Less(Inverted(y), Inverted(x))
  {
    hide Inverted, Less;
    var k := LessHasDiff(x, y);
    DiffInverts(x, y, k);
    DiffIsLess(Inverted(y), Inverted(x), k);
  }

  lemma InvertedTag(tag: Byte, x: Bytes)
    ensures Inverted([1, tag] + x) == [254, 255 - tag] + Inverted(x)
  {
  }

  predicate ShadowedValues(a: Value, b: Value) {
    (a.Text? && b.Text? && Shadowed(a.text, b.text)) || (a.Blob? && b.Blob? && Shadowed(a.blob, b.blob))
  }

  /**
   * Descending keys of one type sort in the reverse order of their values, except for an empty string beside
   * one that starts with a NUL byte.
   */
  lemma DescendingKeyOrder(a: Value, b: Value)
    requires TypeOf(a) == TypeOf(b) && !a.Null?
    ensures (Less(EncodeKey(a, true), EncodeKey(b, true)) <==> ValueLess(b, a)) <==> !ShadowedValues(a, b)
  {
    hide BigEndian, Escaped, Less, Inverted, TotalLess, Shadowed;
    var tag := Tag(TypeOf(a));
    var front := [254, 255 - tag];
    InvertedTag(tag, Payload(a));
    InvertedTag(tag, Payload(b));
    LessBlocks(front, front, Inverted(Payload(a)), Inverted(Payload(b)));
    LessIrreflexive(front);
    if a.Text? {
      DescendingExactly(a.text, b.text);
    } else if a.Blob? {
      DescendingExactly(a.blob, b.blob);
    } else {
      InvertedOrder(Payload(a), Payload(b));
      PayloadOrder(b, a);
    }
  }

  lemma PayloadOrder(a: Value, b: Value)
    requires TypeOf(a) == TypeOf(b) && !a.Null?
    ensures Less(Payload(a), Payload(b)) <==> ValueLess(a, b)
  {
    hide Less, Payload;
    KeyOrder(a, b);
    var tag := [1, Tag(TypeOf(a))];
    LessBlocks(tag, tag, Payload(a), Payload(b));
    LessIrreflexive(tag);
  }
}
