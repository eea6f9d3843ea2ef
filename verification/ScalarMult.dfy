/** Scalar multiplication over any commutative group (src/crypto/crypto-ops.c): signed sliding windows
    for a * A + b * B, signed radix 16 for a * A and, with a table of multiples, for a * B. */
module ScalarMult {
  import opened Words
  import opened Groups
  import S = Slide

  type int8 = S.int8

  // ---------------------------------------------------------------------------
  // Sliding windows
  // ---------------------------------------------------------------------------

  /** x, 3x, 5x, ..., 15x */
  ghost predicate OddMultiples<G(!new)>(g: Group<G>, t: seq<G>, x: G) {
    |t| == 8 && forall k :: 0 <= k < 8 ==> t[k] == g.Times(2 * k + 1, x)
  }

  /** ge_dsm_precomp */
  method DsmPrecomp<G(!new)>(g: Group<G>, s: G) returns (r: seq<G>)
    requires g.Commutative()
    ensures OddMultiples(g, r, s)
  {
    hide Group.Commutative, Group.Times;
    var s2 := g.add(s, s);
    var r0 := s;
    var r1 := g.add(s2, r0);
    var r2 := g.add(s2, r1);
    var r3 := g.add(s2, r2);
    var r4 := g.add(s2, r3);
    var r5 := g.add(s2, r4);
    var r6 := g.add(s2, r5);
    var r7 := g.add(s2, r6);
    r := [r0, r1, r2, r3, r4, r5, r6, r7];
    TimesOne(g, s);
    TimesSucc(g, 1, s);
    NextOdd(g, s, 1);
    NextOdd(g, s, 3);
    NextOdd(g, s, 5);
    NextOdd(g, s, 7);
    NextOdd(g, s, 9);
    NextOdd(g, s, 11);
    NextOdd(g, s, 13);
  }

  lemma NextOdd<G(!new)>(g: Group<G>, s: G, n: int)
    requires g.Commutative()
    ensures g.add(g.add(s, s), g.Times(n, s)) == g.Times(n + 2, s)
  {
    hide Group.Commutative, Group.Times;
    TimesOne(g, s);
    TimesSucc(g, 1, s);
    TimesAdd(g, 2, n, s);
  }

  /** Adds or subtracts the odd multiple that a digit asks for. */
  method AddDigit<G(!new)>(g: Group<G>, t: G, d: int8, table: seq<G>, ghost x: G) returns (u: G)
    requires g.Commutative() && OddMultiples(g, table, x)
    requires d == 0 || (d as int % 2 == 1 && -15 <= d <= 15)
    ensures u == g.add(t, g.Times(d as int, x))
  {
    hide Group.Commutative, Group.Times;
    if d > 0 {
      u := g.add(t, table[d as int / 2]);
    } else if d < 0 {
      u := g.Sub(t, table[(-d as int) / 2]);
      TimesNeg(g, -d as int, x);
    } else {
      u := t;
      Zero(g, t);
      TimesZero(g, x);
    }
  }

  /** What slide makes of a scalar: its value, unless a carry is dropped. */
  ghost function Slid(a: seq<uint8>): int {
    S.Tail(S.Recoding(LittleEndian(a), 256), 0)
  }

  lemma SlidIsValue(a: seq<uint8>)
    requires |a| == 32 && a[31] <= 127
    ensures Slid(a) == LittleEndian(a)
  {
    TopByte(a);
    LittleEndianIsBounded(a);
    var n := 256;
    S.RecodingIsExact(LittleEndian(a), n);
  }

  /** a * A + b * B. The table Bi is ge_Bi for the base point, or comes from ge_dsm_precomp. */
  method DoubleScalarMult<G(!new)>(g: Group<G>, a: seq<uint8>, A: G, b: seq<uint8>, Bi: seq<G>, ghost B: G)
    returns (r: G)
    requires g.Commutative() && |a| == 32 && |b| == 32 && OddMultiples(g, Bi, B)
    ensures r == g.add(g.Times(Slid(a), A), g.Times(Slid(b), B))
    ensures a[31] <= 127 && b[31] <= 127 ==>
              r == g.add(g.Times(LittleEndian(a), A), g.Times(LittleEndian(b), B))
  {
    hide Group.Commutative, Group.Times, S.Tail, S.Recoding, LittleEndian;
    var aslide := new int8[256];
    var bslide := new int8[256];
    S.Slide(aslide, a);
    S.Slide(bslide, b);
    var Ai := DsmPrecomp(g, A);
    r := g.zero;
    ghost var as_, bs := aslide[..], bslide[..];
    var i := 255;
    EmptySum(g, as_, bs, A, B);
    while i >= 0 && aslide[i] == 0 && bslide[i] == 0
      invariant -1 <= i <= 255 && aslide[..] == as_ && bslide[..] == bs
      invariant S.Tail(as_, i + 1) == 0 == S.Tail(bs, i + 1)
    {
      TailStep(as_, i);
      TailStep(bs, i);
      assert as_[i] == aslide[i] && bs[i] == bslide[i];
      i := i - 1;
    }
    while i >= 0
      invariant -1 <= i <= 255 && aslide[..] == as_ && bslide[..] == bs
      invariant r == g.add(g.Times(S.Tail(as_, i + 1), A), g.Times(S.Tail(bs, i + 1), B))
    {
      DigitShape(a, i);
      DigitShape(b, i);
      assert as_[i] == aslide[i] && bs[i] == bslide[i];
      var t := g.add(r, r);
      t := AddDigit(g, t, aslide[i], Ai, A);
      t := AddDigit(g, t, bslide[i], Bi, B);
      HornerStep(g, S.Tail(as_, i + 1), S.Tail(bs, i + 1), aslide[i] as int, bslide[i] as int, A, B);
      TailStep(as_, i);
      TailStep(bs, i);
      r := t;
      i := i - 1;
    }
    if a[31] <= 127 && b[31] <= 127 {
      SlidIsValue(a);
      SlidIsValue(b);
    }
  }

  lemma EmptySum<G(!new)>(g: Group<G>, s: seq<int8>, t: seq<int8>, x: G, y: G)
    requires g.Commutative() && |s| == 256 && |t| == 256
    ensures S.Tail(s, 256) == 0 == S.Tail(t, 256)
    ensures g.zero == g.add(g.Times(0, x), g.Times(0, y))
  {
    hide Group.Commutative;
    Zero(g, g.zero);
  }

  lemma TailStep(s: seq<int8>, i: nat)
    requires i < |s|
    ensures S.Tail(s, i) == s[i] as int + 2 * S.Tail(s, i + 1)
  {
  }

  lemma DigitShape(a: seq<uint8>, k: nat)
    requires k < 256
    ensures var d := S.Recoding(LittleEndian(a), 256)[k]; d == 0 || (d as int % 2 == 1 && -15 <= d <= 15)
  {
    hide S.Rest, S.Digit;
    S.SlideShape(LittleEndian(a), k);
  }

  lemma HornerStep<G(!new)>(g: Group<G>, m: int, n: int, d: int, e: int, x: G, y: G)
    requires g.Commutative()
    ensures var r := g.add(g.Times(m, x), g.Times(n, y));
            g.add(g.add(g.add(r, r), g.Times(d, x)), g.Times(e, y)) ==
            g.add(g.Times(d + 2 * m, x), g.Times(e + 2 * n, y))
  {
    hide Group.Commutative, Group.Times;
    var mx, ny, dx, ey := g.Times(m, x), g.Times(n, y), g.Times(d, x), g.Times(e, y);
    var m2, n2 := g.Times(2 * m, x), g.Times(2 * n, y);
    Interchange(g, mx, ny, mx, ny);
    TimesAdd(g, m, m, x);
    TimesAdd(g, n, n, y);
    assert g.add(g.add(mx, ny), g.add(mx, ny)) == g.add(m2, n2);
    Associates(g, g.add(m2, n2), dx, ey);
    Interchange(g, m2, n2, dx, ey);
    TimesAdd(g, 2 * m, d, x);
    TimesAdd(g, 2 * n, e, y);
  }

  // ---------------------------------------------------------------------------
  // Signed radix 16
  // ---------------------------------------------------------------------------

  /** The value of radix-16 digits with the least significant first, from place i on. */
  ghost function Radix(e: seq<int8>, i: nat): int
    requires i <= |e|
    decreases |e| - i
  {
    if i == |e| then 0 else e[i] as int + 16 * Radix(e, i + 1)
  }

  lemma {:induction false} RadixAppend(e: seq<int8>, x: int8, i: nat)
    requires i <= |e|
    ensures Radix(e + [x], i) == Radix(e, i) + Pow2(4 * (|e| - i)) * (x as int)
    decreases |e| - i
  {
    if i == |e| {
      assert Pow2(0) == 1;
      assert Radix(e + [x], i + 1) == 0;
    } else {
      RadixAppend(e, x, i + 1);
      Pow16(|e| - (i + 1));
      hide Pow2;
      MulAssociates(16, Pow2(4 * (|e| - (i + 1))), x as int);
    }
  }

  lemma Pow16(n: nat)
    ensures Pow2(4 * (n + 1)) == 16 * Pow2(4 * n)
  {
    Pow2Adds(4, 4 * n);
    assert Pow2(4) == 16;
  }

  /** Signed digits of a scalar: each between -8 and 8, and worth the scalar together. */
  ghost predicate IsRecoding16(e: seq<int8>, a: seq<uint8>) {
    |e| == 64 && (forall k :: 0 <= k < 64 ==> -8 <= e[k] <= 8) && Radix(e, 0) == LittleEndian(a)
  }

  /** The recoding in ge_scalarmult, which takes a byte at a time. */
  method RecodeBytes(a: seq<uint8>) returns (e: array<int8>)
    requires |a| == 32 && a[31] <= 127
    ensures fresh(e) && IsRecoding16(e[..], a)
  {
    hide Pow2, Radix, LittleEndian;
    e := new int8[64];
    var carry := 0;
    NothingYet(e[..0], a);
    for i := 0 to 31
      invariant 0 <= carry <= 1
      invariant forall k :: 0 <= k < 2 * i ==> -8 <= e[k] <= 7
      invariant Accounts(e[..2 * i], a, i, carry)
    {
      var lo, hi;
      lo, hi, carry := RecodeByte(e[..2 * i], a, i, carry);
      e[2 * i] := lo;
      e[2 * i + 1] := hi;
      assert e[..2 * (i + 1)] == e[..2 * i] + [lo, hi];
    }
    ghost var c := carry;
    carry := carry + a[31] as int;
    var carry2 := (carry + 8) / 16;
    e[62] := (carry - carry2 * 16) as int8;
    e[63] := carry2 as int8;
    PairAppended(e[..62], e[62], e[63], a, 31, c, 0);
    AllBytes(e[..62] + [e[62], e[63]], a);
    assert e[..] == e[..62] + [e[62], e[63]];
  }

  /** The digits so far and the carry account for the first i bytes. */
  ghost predicate Accounts(e: seq<int8>, a: seq<uint8>, i: nat, carry: int)
    requires i <= |a|
  {
    Radix(e, 0) + Pow2(8 * i) * (carry + LittleEndian(a[i..])) == LittleEndian(a)
  }

  /** The body of the loop. */
  method RecodeByte(ghost e: seq<int8>, a: seq<uint8>, i: nat, carry: int) returns (lo: int8, hi: int8, carry': int)
    requires i < |a| && |e| == 2 * i && 0 <= carry <= 1 && Accounts(e, a, i, carry)
    ensures 0 <= carry' <= 1 && -8 <= lo <= 7 && -8 <= hi <= 7
    ensures Accounts(e + [lo, hi], a, i + 1, carry')
  {
    hide Pow2, Radix, LittleEndian;
    var sum := carry + a[i] as int;
    var carry2 := (sum + 8) / 16;
    lo := (sum - carry2 * 16) as int8;
    carry' := (carry2 + 8) / 16;
    hi := (carry2 - carry' * 16) as int8;
    PairAppended(e, lo, hi, a, i, carry, carry');
  }

  lemma NothingYet(e: seq<int8>, a: seq<uint8>)
    requires e == []
    ensures Accounts(e, a, 0, 0)
  {
    assert Pow2(0) == 1 && a[0..] == a;
  }

  lemma AllBytes(e: seq<int8>, a: seq<uint8>)
    requires |a| == 32 && Accounts(e, a, 32, 0)
    ensures Radix(e, 0) == LittleEndian(a)
  {
    hide Pow2, Radix;
    assert a[32..] == [];
  }

  /** Two digits more account for one byte more. */
  lemma PairAppended(e: seq<int8>, lo: int8, hi: int8, a: seq<uint8>, i: nat, carry: int, carry': int)
    requires i < |a| && |e| == 2 * i
    requires carry + a[i] as int == lo as int + 16 * (hi as int) + 256 * carry'
    ensures Accounts(e, a, i, carry) ==> Accounts(e + [lo, hi], a, i + 1, carry')
  {
    hide Pow2, Radix, LittleEndian;
    LittleEndianStep(a, i);
    var t := carry' + LittleEndian(a[i + 1..]);
    assert carry + LittleEndian(a[i..]) == lo as int + 16 * (hi as int) + 256 * t;
    RadixAppend(e, lo, 0);
    RadixAppend(e + [lo], hi, 0);
    assert (e + [lo]) + [hi] == e + [lo, hi];
    Pow16(2 * i);
    Pow2Byte(8 * i);
    Distribute(Pow2(8 * i), lo as int, hi as int, t);
  }

  lemma Distribute(p: int, x: int, y: int, t: int)
    ensures p * (x + 16 * y + 256 * t) == p * x + (16 * p) * y + (256 * p) * t
  {
  }

  /** x, 2x, 3x, ..., 8x */
  ghost predicate Multiples<G(!new)>(g: Group<G>, t: seq<G>, x: G) {
    |t| == 8 && forall k :: 0 <= k < 8 ==> t[k] == g.Times(k + 1, x)
  }

  /** The constant-time selection of b * x: eight conditional moves by |b|, then one by the sign. */
  method Select<G(!new)>(g: Group<G>, row: seq<G>, b: int8, ghost x: G) returns (t: G)
    requires g.Commutative() && Multiples(g, row, x) && -8 <= b <= 8
    ensures t == g.Times(b as int, x)
  {
    hide Group.Commutative, Group.Times;
    var bnegative := if b < 0 then 1 else 0;
    var babs := b as int - 2 * (bnegative * b as int);
    t := g.zero;
    if babs == 1 { t := row[0]; }
    if babs == 2 { t := row[1]; }
    if babs == 3 { t := row[2]; }
    if babs == 4 { t := row[3]; }
    if babs == 5 { t := row[4]; }
    if babs == 6 { t := row[5]; }
    if babs == 7 { t := row[6]; }
    if babs == 8 { t := row[7]; }
    TimesZero(g, x);
    assert t == g.Times(babs, x);
    if bnegative == 1 {
      TimesNeg(g, babs, x);
      t := g.neg(t);
    }
  }

  /** a * A */
  method GeScalarMult<G(!new)>(g: Group<G>, a: seq<uint8>, A: G) returns (r: G)
    requires g.Commutative() && |a| == 32 && a[31] <= 127
    ensures r == g.Times(LittleEndian(a), A)
  {
    hide Group.Commutative, Group.Times, Radix, LittleEndian;
    var e := RecodeBytes(a);
    ghost var es := e[..];
    var Ai := [A];
    TimesOne(g, A);
    for i := 0 to 7
      invariant e[..] == es && |Ai| == i + 1 && forall k :: 0 <= k <= i ==> Ai[k] == g.Times(k + 1, A)
    {
      Commutes(g, A, Ai[i]);
      TimesSucc(g, i + 1, A);
      Ai := Ai + [g.add(A, Ai[i])];
    }
    r := g.zero;
    TimesZero(g, A);
    RadixEnd(es);
    assert |es| == 64;
    for i := 64 downto 0
      invariant e[..] == es
      invariant r == g.Times(Radix(es, i), A)
    {
      assert es[i] == e[i];
      var cur := Select(g, Ai, e[i], A);
      var t := g.add(r, r);
      t := g.add(t, t);
      t := g.add(t, t);
      t := g.add(t, t);
      Sixteen(g, Radix(es, i + 1), A);
      RadixStep(es, i);
      TimesAdd(g, 16 * Radix(es, i + 1), e[i] as int, A);
      r := g.add(t, cur);
    }
  }

  lemma RadixEnd(e: seq<int8>)
    ensures Radix(e, |e|) == 0
  {
  }

  lemma RadixStep(e: seq<int8>, i: nat)
    requires i < |e|
    ensures Radix(e, i) == e[i] as int + 16 * Radix(e, i + 1)
  {
  }

  lemma Sixteen<G(!new)>(g: Group<G>, n: int, x: G)
    requires g.Commutative()
    ensures var t := g.Times(n, x);
            var u := g.add(t, t);
            var v := g.add(u, u);
            var w := g.add(v, v);
            g.add(w, w) == g.Times(16 * n, x)
  {
    hide Group.Commutative, Group.Times;
    TimesAdd(g, n, n, x);
    TimesAdd(g, 2 * n, 2 * n, x);
    TimesAdd(g, 4 * n, 4 * n, x);
    TimesAdd(g, 8 * n, 8 * n, x);
  }

  /** The recoding in ge_scalarmult_base: split into nibbles, then carry in place. */
  method RecodeNibbles(a: seq<uint8>) returns (e: array<int8>)
    requires |a| == 32 && a[31] <= 127
    ensures fresh(e) && IsRecoding16(e[..], a)
  {
    hide Pow2, Radix, LittleEndian;
    e := new int8[64];
    NothingYet(e[..0], a);
    for i := 0 to 32
      invariant forall k :: 0 <= k < 2 * i ==> 0 <= e[k] <= 15
      invariant i == 32 ==> e[63] <= 7
      invariant Accounts(e[..2 * i], a, i, 0)
    {
      e[2 * i] := (a[i] as int % 16) as int8;
      e[2 * i + 1] := (a[i] as int / 16 % 16) as int8;
      PairAppended(e[..2 * i], e[2 * i], e[2 * i + 1], a, i, 0, 0);
      assert e[..2 * (i + 1)] == e[..2 * i] + [e[2 * i], e[2 * i + 1]];
    }
    assert e[..] == e[..64];
    AllBytes(e[..], a);
    CarryNibbles(e);
  }

  /** The carry loop: from digits 0 to 15 to digits -8 to 7, the value kept. */
  method CarryNibbles(e: array<int8>)
    requires e.Length == 64 && (forall k :: 0 <= k < 64 ==> 0 <= e[k] <= 15) && e[63] <= 7
    modifies e
    ensures Radix(e[..], 0) == Radix(old(e[..]), 0)
    ensures forall k :: 0 <= k < 64 ==> -8 <= e[k] <= 8
  {
    hide Pow2, Radix;
    var carry := 0;
    ghost var v := Radix(e[..], 0);
    for i := 0 to 63
      invariant 0 <= carry <= 1
      invariant forall k :: 0 <= k < i ==> -8 <= e[k] <= 7
      invariant forall k :: i <= k < 64 ==> e[k] == old(e[k])
      invariant Radix(e[..], 0) + carry * Pow2(4 * i) == v
    {
      ghost var before := e[..];
      ghost var c := carry;
      e[i] := e[i] + carry as int8;
      carry := (e[i] as int + 8) / 16;
      e[i] := (e[i] as int - carry * 16) as int8;
      assert e[..] == before[i := e[i]];
      RadixUpdate(before, 0, i, e[i]);
      Pow16(i);
      CarryStep(Pow2(4 * i), before[i] as int, e[i] as int, c, carry);
    }
    ghost var before := e[..];
    e[63] := e[63] + carry as int8;
    assert e[..] == before[63 := e[63]];
    RadixUpdate(before, 0, 63, e[63]);
  }

  lemma CarryStep(p: int, x: int, x': int, c: int, c': int)
    requires x + c == x' + 16 * c'
    ensures (x' - x) * p + c' * (16 * p) == c * p
  {
  }

  lemma {:induction false} RadixUpdate(e: seq<int8>, i: nat, k: nat, x: int8)
    requires i <= k < |e|
    ensures Radix(e[k := x], i) == Radix(e, i) + (x as int - e[k] as int) * Pow2(4 * (k - i))
    decreases k - i
  {
    assert Pow2(0) == 1;
    hide Pow2;
    if i == k {
      RadixFrame(e, e[k := x], k + 1);
    } else {
      RadixUpdate(e, i + 1, k, x);
      Pow16(k - (i + 1));
      MulAssociates(x as int - e[k] as int, 16, Pow2(4 * (k - (i + 1))));
    }
  }

  lemma {:induction false} RadixFrame(e: seq<int8>, e': seq<int8>, i: nat)
    requires i <= |e| == |e'| && e[i..] == e'[i..]
    ensures Radix(e, i) == Radix(e', i)
    decreases |e| - i
  {
    if i < |e| {
      assert e[i] == e[i..][0] == e'[i..][0] == e'[i];
      assert e[i + 1..] == e[i..][1..] == e'[i..][1..] == e'[i + 1..];
      RadixFrame(e, e', i + 1);
    }
  }

  /** ge_base: base[i][j] = (j+1) * 256^i * B */
  ghost predicate BaseTable<G(!new)>(g: Group<G>, base: seq<seq<G>>, B: G) {
    |base| == 32 && forall i :: 0 <= i < 32 ==> Multiples(g, base[i], g.Times(Pow2(8 * i), B))
  }

  /** The digits at even places of the first k pairs (j = 0), or those at odd places (j = 1), by powers of 256. */
  ghost function Every2(e: seq<int8>, j: nat, k: nat): int
    requires j <= 1 && 2 * k <= |e|
  {
    if k == 0 then 0 else Every2(e, j, k - 1) + e[2 * (k - 1) + j] as int * Pow2(8 * (k - 1))
  }

  lemma {:induction false} RadixByPairs(e: seq<int8>, k: nat)
    requires 2 * k <= |e|
    ensures Radix(e[..2 * k], 0) == Every2(e, 0, k) + 16 * Every2(e, 1, k)
  {
    hide Pow2, Radix;
    if k > 0 {
      var s, lo, hi := e[..2 * (k - 1)], e[2 * (k - 1)], e[2 * (k - 1) + 1];
      RadixByPairs(e, k - 1);
      RadixAppend(s, lo, 0);
      RadixAppend(s + [lo], hi, 0);
      assert e[..2 * k] == (s + [lo]) + [hi];
      NextPair(k - 1);
      MulAssociates(16, Pow2(8 * (k - 1)), hi as int);
    } else {
      NoDigits(e[..0]);
    }
  }

  lemma NextPair(k: nat)
    ensures Pow2(4 * (2 * k)) == Pow2(8 * k) && Pow2(4 * (2 * k + 1)) == 16 * Pow2(8 * k)
  {
    assert Pow2(4) == 16;
    Pow2Adds(8 * k, 4);
  }

  lemma NoDigits(e: seq<int8>)
    requires e == []
    ensures Radix(e, 0) == 0
  {
  }

  /** a * B, from a table of multiples: the odd places first, then four doublings, then the even places. */
  method GeScalarMultBase<G(!new)>(g: Group<G>, a: seq<uint8>, base: seq<seq<G>>, ghost B: G) returns (h: G)
    requires g.Commutative() && |a| == 32 && a[31] <= 127 && BaseTable(g, base, B)
    ensures h == g.Times(LittleEndian(a), B)
  {
    hide Group.Commutative, Group.Times, Radix, LittleEndian, Pow2, Every2;
    var e := RecodeNibbles(a);
    ghost var es := e[..];
    h := g.zero;
    TimesZero(g, B);
    EveryZero(es);
    for k := 0 to 32
      invariant e[..] == es
      invariant h == g.Times(Every2(es, 1, k), B)
    {
      h := AddSelected(g, h, e[2 * k + 1], es, 1, k, base, B, 0);
    }
    ghost var odd := Every2(es, 1, 32);
    Sixteen(g, odd, B);
    h := g.add(h, h);
    h := g.add(h, h);
    h := g.add(h, h);
    h := g.add(h, h);
    Zero(g, h);
    for k := 0 to 32
      invariant e[..] == es
      invariant h == g.Times(16 * odd + Every2(es, 0, k), B)
    {
      h := AddSelected(g, h, e[2 * k], es, 0, k, base, B, 16 * odd);
    }
    RadixByPairs(es, 32);
    assert es[..2 * 32] == es;
  }

  /** select, ge_madd, ge_p1p1_to_p3 */
  method AddSelected<G(!new)>(g: Group<G>, h: G, b: int8, ghost e: seq<int8>, ghost j: nat, k: nat, base: seq<seq<G>>,
                              ghost B: G, ghost m: int)
    returns (h': G)
    requires g.Commutative() && BaseTable(g, base, B) && k < 32 && |e| == 64 && j <= 1
    requires b == e[2 * k + j] && -8 <= b <= 8
    requires h == g.Times(m + Every2(e, j, k), B)
    ensures h' == g.Times(m + Every2(e, j, k + 1), B)
  {
    hide Group.Commutative, Group.Times, Pow2, Every2;
    EveryStep(e, j, k);
    var t := Select(g, base[k], b, g.Times(Pow2(8 * k), B));
    TimesTimes(g, b as int, Pow2(8 * k), B);
    TimesAdd(g, m + Every2(e, j, k), b as int * Pow2(8 * k), B);
    h' := g.add(h, t);
  }

  lemma EveryZero(e: seq<int8>)
    ensures Every2(e, 0, 0) == 0 == Every2(e, 1, 0)
  {
  }

  lemma EveryStep(e: seq<int8>, j: nat, k: nat)
    requires j <= 1 && 2 * (k + 1) <= |e|
    ensures Every2(e, j, k + 1) == Every2(e, j, k) + e[2 * k + j] as int * Pow2(8 * k)
  {
  }
}
