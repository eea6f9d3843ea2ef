/** The cipher context of src/crypto/oaes_lib.c: an imported key, the mode, and the vector that chains blocks. */
module AesContext {
  import opened Wrappers
  import opened Words
  import opened AesTables
  import opened AesBlock
  import opened Aes

  // ---------------------------------------------------------------------------
  // Key expansion
  // ---------------------------------------------------------------------------

  const ROUND_BASE: nat := 7

  const RCON: seq<bv8> := [0x01, 0x02, 0x04, 0x08, 0x10, 0x20, 0x40, 0x80, 0x1b, 0x36]

  function SubWord(w: Column): (r: Column) {
    Column(SubByte(w.a), SubByte(w.b), SubByte(w.c), SubByte(w.d))
  }

  function XorWord(v: Column, w: Column): (r: Column) {
    Column(Xor(v.a, w.a), Xor(v.b, w.b), Xor(v.c, w.c), Xor(v.d, w.d))
  }

  /** A key length in words for which the round constants suffice. */
  predicate IsKeyBase(base: nat) {
    base == 4 || base == 6 || base == 8
  }

  /** What is done to the word before the i-th. */
  function Transform(base: nat, i: nat, w: Column): (r: Column)
    requires IsKeyBase(base) && base <= i < 4 * (base + ROUND_BASE)
  {
    if i % base == 0 then
      var t := SubWord(Column(w.b, w.c, w.d, w.a));
      t.(a := Xor(t.a, RCON[i / base - 1]))
    else if base > 6 && i % base == 4 then SubWord(w)
    else w
  }

  /** Section 5.2 of FIPS 197: the key itself, then each word from the one before it and the one a key's length back. */
  ghost predicate IsSchedule(data: seq<bv8>, exp: seq<bv8>, base: nat, n: nat)
    requires IsKeyBase(base) && n <= 4 * (base + ROUND_BASE)
  {
    && |data| == 4 * base && 4 * n <= |exp| && base <= n
    && exp[..4 * base] == data
    && forall i {:trigger Word(exp, i)} :: base <= i < n ==>
         Word(exp, i) == XorWord(Word(exp, i - base), Transform(base, i, Word(exp, i - 1)))
  }

  function Word(exp: seq<bv8>, i: nat): (w: Column)
    requires 4 * i + 4 <= |exp|
  {
    ColumnAt(exp, 4 * i)
  }

  /** x^k in the field, x being 2. */
  function XPower(k: nat): (b: bv8) {
    if k == 0 then 1 else Product(2, XPower(k - 1))
  }

  /** The round constants are the powers of x. */
  lemma RconIsPower(k: nat)
    requires k < |RCON|
    ensures |RCON| == 10 && RCON[k] == XPower(k)
  {
    hide Product;
    DoubledConstants();
    assert XPower(0) == 0x01 && XPower(1) == 0x02 && XPower(2) == 0x04 && XPower(3) == 0x08 && XPower(4) == 0x10;
    assert XPower(5) == 0x20 && XPower(6) == 0x40 && XPower(7) == 0x80 && XPower(8) == 0x1b && XPower(9) == 0x36;
  }

  lemma DoubledConstants()
    ensures Product(2, 0x01) == 0x02 && Product(2, 0x02) == 0x04 && Product(2, 0x04) == 0x08
    ensures Product(2, 0x08) == 0x10 && Product(2, 0x10) == 0x20 && Product(2, 0x20) == 0x40
    ensures Product(2, 0x40) == 0x80 && Product(2, 0x80) == 0x1b && Product(2, 0x1b) == 0x36
  {
  }

  /** The schedule byte by byte (section 5.2 of FIPS 197): byte j of word i is the one a key's length back, and that
      of the word before, turned, substituted and with a power of x added if i is a multiple of the key's length,
      substituted if the key is of eight words and i is halfway, and as it is otherwise. */
  lemma ScheduleByte(data: seq<bv8>, exp: seq<bv8>, base: nat, n: nat, i: nat, j: nat)
    requires IsKeyBase(base) && n <= 4 * (base + ROUND_BASE) && IsSchedule(data, exp, base, n) && j < 4
    ensures i < base ==> exp[4 * i + j] == data[4 * i + j]
    ensures base <= i < n && i % base == 0 ==>
              exp[4 * i + j] == Xor(exp[4 * (i - base) + j],
                                    Xor(SubByte(exp[4 * (i - 1) + (j + 1) % 4]),
                                        if j == 0 then XPower(i / base - 1) else 0))
    ensures base <= i < n && i % base != 0 ==>
              exp[4 * i + j] == Xor(exp[4 * (i - base) + j],
                                    if base == 8 && i % 8 == 4 then SubByte(exp[4 * (i - 1) + j])
                                    else exp[4 * (i - 1) + j])
  {
    hide Xor, SubByte, XPower, XorWord, Transform, Column.At, Word, IsSchedule;
    ScheduleLength(data, exp, base, n);
    if i < base {
      KeyBytes(data, exp, base, n, 4 * i + j);
    } else if i < n {
      var v, w := Word(exp, i - base), Word(exp, i - 1);
      ScheduleWord(data, exp, base, n, i);
      ByteOfWord(exp, i, j);
      ByteOfWord(exp, i - base, j);
      ByteOfWord(exp, i - 1, j);
      ByteOfWord(exp, i - 1, j + 1);
      XorWordAt(v, Transform(base, i, w), j);
      TransformAt(base, i, w, j);
    }
  }

  lemma ScheduleLength(data: seq<bv8>, exp: seq<bv8>, base: nat, n: nat)
    requires IsKeyBase(base) && n <= 4 * (base + ROUND_BASE) && IsSchedule(data, exp, base, n)
    ensures |data| == 4 * base && 4 * n <= |exp| && base <= n
  {
  }

  lemma KeyBytes(data: seq<bv8>, exp: seq<bv8>, base: nat, n: nat, k: nat)
    requires IsKeyBase(base) && n <= 4 * (base + ROUND_BASE) && IsSchedule(data, exp, base, n) && k < 4 * base
    ensures k < |exp| && k < |data| && exp[k] == data[k]
  {
    assert exp[k] == exp[..4 * base][k];
  }

  lemma ScheduleWord(data: seq<bv8>, exp: seq<bv8>, base: nat, n: nat, i: nat)
    requires IsKeyBase(base) && n <= 4 * (base + ROUND_BASE) && IsSchedule(data, exp, base, n) && base <= i < n
    ensures 4 * i + 4 <= |exp| && Word(exp, i) == XorWord(Word(exp, i - base), Transform(base, i, Word(exp, i - 1)))
  {
    hide XorWord, Transform, Word;
  }

  lemma ByteOfWord(exp: seq<bv8>, i: nat, j: nat)
    requires 4 * i + 4 <= |exp|
    ensures Word(exp, i).At(j) == exp[4 * i + j % 4]
  {
    ByteOfColumn(exp, 4 * i, j);
  }

  lemma XorWordAt(v: Column, w: Column, j: nat)
    ensures XorWord(v, w).At(j) == Xor(v.At(j), w.At(j))
  {
    hide Xor;
  }

  lemma TransformAt(base: nat, i: nat, w: Column, j: nat)
    requires IsKeyBase(base) && base <= i < 4 * (base + ROUND_BASE) && j < 4
    ensures i % base == 0 ==>
              Transform(base, i, w).At(j) == Xor(SubByte(w.At(j + 1)), if j == 0 then XPower(i / base - 1) else 0)
    ensures i % base != 0 ==>
              Transform(base, i, w).At(j) == if base == 8 && i % 8 == 4 then SubByte(w.At(j)) else w.At(j)
  {
    hide Xor, SubByte, XPower, Column.At, SubWord;
    if i % base == 0 {
      var k := i / base - 1;
      RconIsPower(k);
      TurnedAt(w, RCON[k], j);
    } else {
      SubWordAt(w, j);
    }
  }

  lemma SubWordAt(w: Column, j: nat)
    ensures SubWord(w).At(j) == SubByte(w.At(j))
  {
    hide SubByte;
  }

  lemma TurnedAt(w: Column, k: bv8, j: nat)
    requires j < 4
    ensures var t := SubWord(Column(w.b, w.c, w.d, w.a));
            t.(a := Xor(t.a, k)).At(j) == Xor(SubByte(w.At(j + 1)), if j == 0 then k else 0)
  {
    hide Xor, SubByte;
    XorZero(SubByte(w.At(j + 1)));
  }

  lemma XorZero(b: bv8)
    ensures Xor(b, 0) == b
  {
  }

  method KeyExpand(data: seq<bv8>) returns (key: Key)
    requires IsKeyBase(|data| / 4) && |data| % 4 == 0
    ensures key.Valid() && key.data == data &&
            key.numKeys == (if |data| == 16 then 11 else if |data| == 24 then 13 else 15)
    ensures IsSchedule(data, key.exp, |data| / 4, 4 * key.numKeys)
  {
    hide SubWord, XorWord, Transform, IsSchedule, Word;
    var base := |data| / 4;
    var numKeys := base + ROUND_BASE;
    var exp := new bv8[16 * numKeys](_ => 0);
    for k := 0 to |data|
      invariant exp[..k] == data[..k]
    {
      exp[k] := data[k];
    }
    ScheduleStart(data, exp[..], base);
    var i := base;
    while i < 4 * numKeys
      invariant base <= i <= 4 * numKeys && IsSchedule(data, exp[..], base, i)
    {
      var w := XorWord(Word(exp[..], i - base), Transform(base, i, Word(exp[..], i - 1)));
      ghost var before := exp[..];
      exp[4 * i], exp[4 * i + 1], exp[4 * i + 2], exp[4 * i + 3] := w.a, w.b, w.c, w.d;
      WordsAfter(before, exp[..], i, w);
      ScheduleStep(data, before, exp[..], base, i);
      i := i + 1;
    }
    key := Key(data, exp[..], numKeys);
  }

  lemma ScheduleStart(data: seq<bv8>, exp: seq<bv8>, base: nat)
    requires IsKeyBase(base) && |data| == 4 * base <= |exp| && exp[..|data|] == data[..|data|]
    ensures IsSchedule(data, exp, base, base)
  {
  }

  lemma ScheduleStep(data: seq<bv8>, exp: seq<bv8>, after: seq<bv8>, base: nat, i: nat)
    requires IsKeyBase(base) && base <= i < 4 * (base + ROUND_BASE) && 4 * i + 4 <= |exp| &&
             IsSchedule(data, exp, base, i)
    requires |after| == |exp| && after[..4 * i] == exp[..4 * i]
    requires forall j :: 0 <= j < i ==> Word(after, j) == Word(exp, j)
    requires Word(after, i) == XorWord(Word(exp, i - base), Transform(base, i, Word(exp, i - 1)))
    ensures IsSchedule(data, after, base, i + 1)
  {
    hide XorWord, Transform, Word;
    assert exp[..4 * base] == data;
    forall j | base <= j < i + 1
      ensures Word(after, j) == XorWord(Word(after, j - base), Transform(base, j, Word(after, j - 1)))
    {
      assert Word(after, j - base) == Word(exp, j - base) && Word(after, j - 1) == Word(exp, j - 1);
      assert j < i ==> Word(after, j) == Word(exp, j);
    }
    assert after[..4 * base] == after[..4 * i][..4 * base] == exp[..4 * i][..4 * base] == exp[..4 * base];
  }

  lemma WordsAfter(before: seq<bv8>, after: seq<bv8>, i: nat, w: Column)
    requires 4 * i + 4 <= |before| &&
             after == before[4 * i := w.a][4 * i + 1 := w.b][4 * i + 2 := w.c][4 * i + 3 := w.d]
    ensures Word(after, i) == w && after[..4 * i] == before[..4 * i]
    ensures forall j :: 0 <= j < i ==> Word(after, j) == Word(before, j)
  {
  }

  // ---------------------------------------------------------------------------
  // Buffers
  // ---------------------------------------------------------------------------

  /** s with t written over it at a place. */
  function Spliced(s: seq<bv8>, at: nat, t: seq<bv8>): (r: seq<bv8>)
    requires at + |t| <= |s|
    ensures |r| == |s|
  {
    s[..at] + t + s[at + |t|..]
  }

  method Put(dst: array<bv8>, at: nat, src: seq<bv8>)
    requires at + |src| <= dst.Length
    modifies dst
    ensures dst[..] == Spliced(old(dst[..]), at, src)
  {
    for k := 0 to |src|
      invariant forall j :: at <= j < at + k ==> dst[j] == src[j - at]
      invariant forall j :: 0 <= j < at || at + k <= j < dst.Length ==> dst[j] == old(dst[j])
    {
      dst[at + k] := src[k];
    }
  }

  method XorInPlace(block: array<bv8>, iv: seq<bv8>)
    requires block.Length == |iv| == BLOCK_SIZE
    modifies block
    ensures block[..] == XorBlocks(old(block[..]), iv)
  {
    hide Xor;
    for j := 0 to BLOCK_SIZE
      invariant forall k :: 0 <= k < j ==> block[k] == Xor(old(block[k]), iv[k])
      invariant forall k :: j <= k < BLOCK_SIZE ==> block[k] == old(block[k])
    {
      block[j] := Xor(block[j], iv[j]);
    }
  }

  /** A block read from a buffer, the missing bytes padded. */
  method LoadBlock(src: seq<bv8>) returns (block: array<bv8>)
    requires 1 <= |src| <= BLOCK_SIZE
    ensures fresh(block) && block[..] == src + Pad(BLOCK_SIZE - |src|)
  {
    block := new bv8[BLOCK_SIZE](_ => 0);
    for k := 0 to |src|
      invariant block[..k] == src[..k]
    {
      block[k] := src[k];
    }
    hide Pad;
    for j := 0 to BLOCK_SIZE - |src|
      invariant block[..|src| + j] == src + Pad(BLOCK_SIZE - |src|)[..j]
    {
      PadAt(BLOCK_SIZE - |src|, j);
      block[|src| + j] := (j + 1) as bv8;
    }
  }

  lemma PadAt(k: nat, j: nat)
    requires j < k < BLOCK_SIZE
    ensures Pad(k)[j] == (j + 1) as bv8
  {
  }

  /** Pads, chains and encrypts one block. */
  method EncryptStep(key: Key, cbc: bool, iv: seq<bv8>, src: seq<bv8>) returns (t: seq<bv8>)
    requires key.Valid() && |iv| == BLOCK_SIZE && 1 <= |src| <= BLOCK_SIZE
    ensures t == EncryptOne(key, cbc, iv, src + Pad(BLOCK_SIZE - |src|))
  {
    hide Cipher, XorBlocks, Pad;
    var block := LoadBlock(src);
    if cbc {
      XorInPlace(block, iv);
    }
    EncryptBlock(key.exp, key.numKeys, block);
    t := block[..];
  }

  /** Where the data starts. */
  const DATA: nat := 2 * BLOCK_SIZE

  /** The vector after the blocks of c. */
  function LastVector(cbc: bool, iv: seq<bv8>, c: seq<bv8>): (v: seq<bv8>)
    requires c != [] ==> |c| >= BLOCK_SIZE
  {
    if cbc && c != [] then c[|c| - BLOCK_SIZE..] else iv
  }

  /** The vector left after one text makes the next one chain on: they come to the same as both in one. */
  lemma {:induction false} ChainsOn(key: Key, cbc: bool, iv: seq<bv8>, m: seq<bv8>, next: seq<bv8>)
    requires key.Valid() && |iv| == BLOCK_SIZE && Whole(m) && Whole(next)
    ensures var c := EncryptAll(key, cbc, iv, m);
            && (c != [] ==> |c| >= BLOCK_SIZE) && |LastVector(cbc, iv, c)| == BLOCK_SIZE && Whole(m + next)
            && EncryptAll(key, cbc, iv, m + next) == c + EncryptAll(key, cbc, LastVector(cbc, iv, c), next)
    decreases |m|
  {
    hide EncryptOne, EncryptAll, Key.Valid, LastVector;
    WholeSum(m, next);
    if m == [] {
      NothingEncrypted(key, cbc, iv);
      assert m + next == next;
    } else {
      WholeRest(m);
      WholeRest(m + next);
      var t, rest := EncryptOne(key, cbc, iv, m[..BLOCK_SIZE]), m[BLOCK_SIZE..];
      var iv' := if cbc then t else iv;
      ChainsOn(key, cbc, iv', rest, next);
      assert (m + next)[..BLOCK_SIZE] == m[..BLOCK_SIZE] && (m + next)[BLOCK_SIZE..] == rest + next;
      EncryptAllStep(key, cbc, iv, m);
      EncryptAllStep(key, cbc, iv, m + next);
      VectorAfter(cbc, iv, t, EncryptAll(key, cbc, iv', rest));
    }
  }

  lemma WholeSum(m: seq<bv8>, next: seq<bv8>)
    requires Whole(m) && Whole(next)
    ensures Whole(m + next)
  {
  }

  lemma NothingEncrypted(key: Key, cbc: bool, iv: seq<bv8>)
    requires key.Valid() && |iv| == BLOCK_SIZE
    ensures EncryptAll(key, cbc, iv, []) == [] && LastVector(cbc, iv, []) == iv
  {
    hide Key.Valid, EncryptOne;
  }

  lemma VectorAfter(cbc: bool, iv: seq<bv8>, t: seq<bv8>, c: seq<bv8>)
    requires |t| == |iv| == BLOCK_SIZE && (c != [] ==> |c| >= BLOCK_SIZE)
    ensures LastVector(cbc, iv, t + c) == LastVector(cbc, if cbc then t else iv, c)
    ensures |LastVector(cbc, iv, t + c)| == BLOCK_SIZE
  {
    if c == [] {
      assert t + c == t;
    }
  }

  /** The buffer with i bytes of its data encrypted. */
  ghost predicate Progress(
    c: seq<bv8>, old_c: seq<bv8>, m: seq<bv8>, key: Key, cbc: bool, iv0: seq<bv8>, i: nat, iv: seq<bv8>, todo: seq<bv8>)
    requires key.Valid() && |iv0| == BLOCK_SIZE
  {
    var p := Padded(m);
    && |c| == |old_c| >= DATA + |p| && |iv| == BLOCK_SIZE && Whole(todo) && i + |todo| == |p|
    && c[..DATA] == old_c[..DATA] && c[DATA + |p|..] == old_c[DATA + |p|..]
    && (i <= |m| ==> c[DATA + i..DATA + |m|] == m[i..])
    && Chained(key, cbc, iv0, p, iv, c[DATA..DATA + i], todo)
  }

  lemma ProgressStart(c: seq<bv8>, m: seq<bv8>, key: Key, cbc: bool, iv: seq<bv8>)
    requires key.Valid() && |iv| == BLOCK_SIZE && |c| >= DATA + |Padded(m)| && c[DATA..DATA + |m|] == m
    ensures Progress(c, c, m, key, cbc, iv, 0, iv, Padded(m))
  {
    hide Chained, Pad;
    ChainedStart(key, cbc, iv, Padded(m));
    assert c[DATA..DATA + 0] == [];
  }

  /** The next block is there to be read, and what comes after it is encrypted. */
  lemma ProgressStep(
    c: seq<bv8>, old_c: seq<bv8>, m: seq<bv8>, key: Key, cbc: bool, iv0: seq<bv8>, i: nat, iv: seq<bv8>, todo: seq<bv8>)
    requires key.Valid() && |iv0| == BLOCK_SIZE && Progress(c, old_c, m, key, cbc, iv0, i, iv, todo) && todo != []
    ensures i < |m| && |todo| >= BLOCK_SIZE && |iv| == BLOCK_SIZE && DATA + i + BLOCK_SIZE <= |c|
    ensures var size := if |m| - i < BLOCK_SIZE then |m| - i else BLOCK_SIZE;
            c[DATA + i..DATA + i + size] + Pad(BLOCK_SIZE - size) == todo[..BLOCK_SIZE]
    ensures var t := EncryptOne(key, cbc, iv, todo[..BLOCK_SIZE]);
            Progress(Spliced(c, DATA + i, t), old_c, m, key, cbc, iv0, i + BLOCK_SIZE,
                     if cbc then t else iv, todo[BLOCK_SIZE..])
  {
    hide Chained, Pad, EncryptOne, Key.Valid, Padded;
    PaddedLength(m);
    ChainedStep(key, cbc, iv0, Padded(m), iv, c[DATA..DATA + i], todo);
    NextBlock(m, todo);
    var size := if |m| - i < BLOCK_SIZE then |m| - i else BLOCK_SIZE;
    SubSlice(c, DATA + i, DATA + |m|, size);
    StillThere(c, i, EncryptOne(key, cbc, iv, todo[..BLOCK_SIZE]), |m|, |Padded(m)|);
  }

  lemma SubSlice(c: seq<bv8>, lo: nat, hi: nat, n: nat)
    requires lo + n <= hi <= |c|
    ensures c[lo..hi][..n] == c[lo..lo + n]
  {
  }

  lemma StillThere(c: seq<bv8>, i: nat, t: seq<bv8>, n: nat, len: nat)
    requires |t| == BLOCK_SIZE && i + BLOCK_SIZE <= len && n <= len && DATA + len <= |c|
    ensures var after := Spliced(c, DATA + i, t);
            && |after| == |c| && after[..DATA] == c[..DATA] && after[DATA + len..] == c[DATA + len..]
            && after[DATA..DATA + i + BLOCK_SIZE] == c[DATA..DATA + i] + t
            && (i + BLOCK_SIZE <= n ==> after[DATA + i + BLOCK_SIZE..DATA + n] == c[DATA + i..DATA + n][BLOCK_SIZE..])
  {
  }

  lemma ProgressEnd(
    c: seq<bv8>, old_c: seq<bv8>, m: seq<bv8>, key: Key, cbc: bool, iv0: seq<bv8>, i: nat, iv: seq<bv8>, todo: seq<bv8>)
    requires key.Valid() && |iv0| == BLOCK_SIZE && Progress(c, old_c, m, key, cbc, iv0, i, iv, todo) && todo == []
    ensures var e := EncryptAll(key, cbc, iv0, Padded(m));
            && c == old_c[..DATA] + e + old_c[DATA + |Padded(m)|..]
            && (e != [] ==> |e| >= BLOCK_SIZE) && iv == LastVector(cbc, iv0, e) && |iv| == BLOCK_SIZE
  {
    hide Chained, Pad, EncryptAll, Key.Valid, Padded;
    PaddedLength(m);
    ChainedEnd(key, cbc, iv0, Padded(m), iv, c[DATA..DATA + i], todo);
    assert c == c[..DATA] + c[DATA..DATA + i] + c[DATA + i..];
  }

  /** Encrypts the message that lies in c behind its header, block by block, in place. */
  method EncryptInPlace(key: Key, cbc: bool, iv: seq<bv8>, m: seq<bv8>, c: array<bv8>) returns (iv': seq<bv8>)
    requires key.Valid() && |iv| == BLOCK_SIZE
    requires DATA + |Padded(m)| <= c.Length && c[DATA..DATA + |m|] == m
    modifies c
    ensures var e := EncryptAll(key, cbc, iv, Padded(m));
            && c[..] == old(c[..DATA]) + e + old(c[DATA + |Padded(m)|..])
            && (e != [] ==> |e| >= BLOCK_SIZE) && iv' == LastVector(cbc, iv, e) && |iv'| == BLOCK_SIZE
  {
    hide EncryptAll, EncryptOne, Pad, Key.Valid, Padded, Progress, Whole, LastVector, Spliced;
    var i, dataLen := 0, |m| + PadLength(|m|);
    ghost var old_c, todo := c[..], Padded(m);
    PaddedLength(m);
    ProgressStart(c[..], m, key, cbc, iv);
    iv' := iv;
    while i < dataLen
      invariant 0 <= i && i + |todo| == dataLen && Progress(c[..], old_c, m, key, cbc, iv, i, iv', todo)
    {
      ProgressStep(c[..], old_c, m, key, cbc, iv, i, iv', todo);
      var size := if |m| - i < BLOCK_SIZE then |m| - i else BLOCK_SIZE;
      var src := c[DATA + i..DATA + i + size];
      assert src == c[..][DATA + i..DATA + i + size];
      var t := EncryptStep(key, cbc, iv', src);
      Put(c, DATA + i, t);
      if cbc {
        iv' := t;
      }
      i, todo := i + BLOCK_SIZE, todo[BLOCK_SIZE..];
    }
    ProgressEnd(c[..], old_c, m, key, cbc, iv, i, iv', todo);
  }

  lemma PaddedLength(m: seq<bv8>)
    ensures |Padded(m)| == |m| + PadLength(|m|) && Whole(Padded(m))
  {
  }

  /** The next block of the padded message. */
  lemma NextBlock(m: seq<bv8>, todo: seq<bv8>)
    requires |todo| >= BLOCK_SIZE && Whole(todo) && |todo| <= |Padded(m)| && todo == Padded(m)[|Padded(m)| - |todo|..]
    ensures var i := |Padded(m)| - |todo|;
            i < |m| && var size := if |m| - i < BLOCK_SIZE then |m| - i else BLOCK_SIZE;
                       todo[..BLOCK_SIZE] == m[i..][..size] + Pad(BLOCK_SIZE - size)
  {
    hide Pad;
  }

  /** p is encrypted to c up to what is to do, and iv goes into that. */
  ghost predicate Chained(key: Key, cbc: bool, iv0: seq<bv8>, p: seq<bv8>, iv: seq<bv8>, c: seq<bv8>, todo: seq<bv8>)
    requires key.Valid() && |iv0| == |iv| == BLOCK_SIZE && Whole(p) && Whole(todo)
  {
    && |todo| <= |p| && todo == p[|p| - |todo|..] && |c| == |p| - |todo|
    && EncryptAll(key, cbc, iv0, p) == c + EncryptAll(key, cbc, iv, todo)
    && (cbc && c != [] ==> |c| >= BLOCK_SIZE && iv == c[|c| - BLOCK_SIZE..])
    && (!cbc || c == [] ==> iv == iv0)
  }

  lemma ChainedStart(key: Key, cbc: bool, iv: seq<bv8>, p: seq<bv8>)
    requires key.Valid() && |iv| == BLOCK_SIZE && Whole(p)
    ensures Chained(key, cbc, iv, p, iv, [], p)
  {
    hide EncryptAll;
    assert p[0..] == p;
  }

  lemma WholeRest(m: seq<bv8>)
    requires Whole(m) && m != []
    ensures |m| >= BLOCK_SIZE && Whole(m[BLOCK_SIZE..])
  {
  }

  lemma EncryptAllStep(key: Key, cbc: bool, iv: seq<bv8>, m: seq<bv8>)
    requires key.Valid() && |iv| == BLOCK_SIZE && Whole(m) && |m| >= BLOCK_SIZE && Whole(m[BLOCK_SIZE..])
    ensures var t := EncryptOne(key, cbc, iv, m[..BLOCK_SIZE]);
            EncryptAll(key, cbc, iv, m) == t + EncryptAll(key, cbc, if cbc then t else iv, m[BLOCK_SIZE..])
  {
    hide EncryptOne, Key.Valid;
  }

  lemma ChainedStep(key: Key, cbc: bool, iv0: seq<bv8>, p: seq<bv8>, iv: seq<bv8>, c: seq<bv8>, todo: seq<bv8>)
    requires key.Valid() && |iv0| == |iv| == BLOCK_SIZE && Whole(p) && Whole(todo) && todo != []
    requires Chained(key, cbc, iv0, p, iv, c, todo)
    ensures |todo| >= BLOCK_SIZE && Whole(todo[BLOCK_SIZE..]) && |todo| <= |p| && todo == p[|p| - |todo|..]
    ensures var t := EncryptOne(key, cbc, iv, todo[..BLOCK_SIZE]);
            Chained(key, cbc, iv0, p, if cbc then t else iv, c + t, todo[BLOCK_SIZE..])
  {
    hide EncryptOne, EncryptAll, Key.Valid, Whole;
    WholeRest(todo);
    EncryptAllStep(key, cbc, iv, todo);
  }

  lemma ChainedEnd(key: Key, cbc: bool, iv0: seq<bv8>, p: seq<bv8>, iv: seq<bv8>, c: seq<bv8>, todo: seq<bv8>)
    requires key.Valid() && |iv0| == |iv| == BLOCK_SIZE && Whole(p) && Whole(todo) && todo == []
    requires Chained(key, cbc, iv0, p, iv, c, todo)
    ensures c == EncryptAll(key, cbc, iv0, p)
    ensures p != [] ==> |p| >= BLOCK_SIZE
    ensures iv == if cbc && p != [] then c[|p| - BLOCK_SIZE..] else iv0
  {
    hide EncryptOne, Key.Valid;
  }

  /** Header, vector and data go into c, and the data is encrypted there. */
  method EncryptBuffer(key: Key, options: bv16, iv: seq<bv8>, m: seq<bv8>, c: array<bv8>) returns (iv': seq<bv8>)
    requires key.Valid() && |iv| == BLOCK_SIZE && DATA + |m| + PadLength(|m|) <= c.Length
    modifies c
    ensures var e := Encrypted(key, options, iv, m);
            && c[..] == e + old(c[|e|..])
            && (m != [] ==> |e| >= DATA + BLOCK_SIZE)
            && iv' == LastVector(options == CBC, iv, e[DATA..]) && |iv'| == BLOCK_SIZE
  {
    hide EncryptAll, Pad, HeaderOf, Key.Valid, LastVector, Padded, Spliced;
    PaddedLength(m);
    var head := HeaderOf(options, FlagsFor(|m|)) + iv;
    ghost var before, e := c[..], EncryptAll(key, options == CBC, iv, Padded(m));
    Put(c, 0, head);
    ghost var mid := c[..];
    Put(c, DATA, m);
    AfterPuts(before, mid, c[..], head, m);
    iv' := EncryptInPlace(key, options == CBC, iv, m, c);
    BehindHead(head, e);
  }

  lemma BehindHead(head: seq<bv8>, e: seq<bv8>)
    requires |head| == DATA
    ensures (head + e)[DATA..] == e
  {
  }

  lemma AfterPuts(before: seq<bv8>, mid: seq<bv8>, after: seq<bv8>, head: seq<bv8>, m: seq<bv8>)
    requires |head| == DATA && DATA + |m| <= |before|
    requires mid == Spliced(before, 0, head) && after == Spliced(mid, DATA, m)
    ensures |after| == |before| && after[..DATA] == head && after[DATA..DATA + |m|] == m
    ensures forall n :: DATA + |m| <= n <= |before| ==> after[n..] == before[n..]
  {
  }

  // ---------------------------------------------------------------------------
  // Decrypting in place
  // ---------------------------------------------------------------------------

  lemma DecryptAllStep(key: Key, cbc: bool, iv: seq<bv8>, c: seq<bv8>)
    requires key.Valid() && |iv| == BLOCK_SIZE && Whole(c) && |c| >= BLOCK_SIZE && Whole(c[BLOCK_SIZE..])
    ensures DecryptAll(key, cbc, iv, c) ==
            DecryptOne(key, cbc, iv, c[..BLOCK_SIZE]) +
            DecryptAll(key, cbc, if cbc then c[..BLOCK_SIZE] else iv, c[BLOCK_SIZE..])
  {
    hide DecryptOne, Key.Valid;
  }

  /** The buffer m with the first bytes of data decrypted to d, and todo still to be decrypted with iv. */
  ghost predicate Opening(
    m: seq<bv8>, rest: seq<bv8>, key: Key, cbc: bool, iv0: seq<bv8>, data: seq<bv8>, d: seq<bv8>, iv: seq<bv8>,
    todo: seq<bv8>)
    requires key.Valid() && |iv0| == BLOCK_SIZE && Whole(data)
  {
    && |iv| == BLOCK_SIZE && Whole(todo) && m == d + todo + rest
    && |todo| <= |data| && todo == data[|data| - |todo|..] && |d| == |data| - |todo|
    && DecryptAll(key, cbc, iv0, data) == d + DecryptAll(key, cbc, iv, todo)
  }

  lemma OpeningStep(
    m: seq<bv8>, rest: seq<bv8>, key: Key, cbc: bool, iv0: seq<bv8>, data: seq<bv8>, d: seq<bv8>, iv: seq<bv8>,
    todo: seq<bv8>)
    requires key.Valid() && |iv0| == BLOCK_SIZE && Whole(data) && todo != []
    requires Opening(m, rest, key, cbc, iv0, data, d, iv, todo)
    ensures |todo| >= BLOCK_SIZE && |iv| == BLOCK_SIZE && |m| >= |d| + BLOCK_SIZE
    ensures m[|d|..|d| + BLOCK_SIZE] == todo[..BLOCK_SIZE] == data[|d|..|d| + BLOCK_SIZE]
    ensures var t := DecryptOne(key, cbc, iv, todo[..BLOCK_SIZE]);
            Opening(Spliced(m, |d|, t), rest, key, cbc, iv0, data, d + t,
                    if cbc then todo[..BLOCK_SIZE] else iv, todo[BLOCK_SIZE..])
  {
    hide DecryptOne, DecryptAll, Key.Valid, Whole;
    WholeRest(todo);
    DecryptAllStep(key, cbc, iv, todo);
    var t := DecryptOne(key, cbc, iv, todo[..BLOCK_SIZE]);
    assert Spliced(m, |d|, t) == d + t + todo[BLOCK_SIZE..] + rest;
  }

  lemma OpeningStart(m: seq<bv8>, key: Key, cbc: bool, iv: seq<bv8>, data: seq<bv8>)
    requires key.Valid() && |iv| == BLOCK_SIZE && Whole(data) && |data| <= |m| && m[..|data|] == data
    ensures Opening(m, m[|data|..], key, cbc, iv, data, [], iv, data)
  {
    hide DecryptAll;
  }

  lemma OpeningEnd(
    m: seq<bv8>, rest: seq<bv8>, key: Key, cbc: bool, iv0: seq<bv8>, data: seq<bv8>, d: seq<bv8>, iv: seq<bv8>,
    todo: seq<bv8>)
    requires key.Valid() && |iv0| == BLOCK_SIZE && Whole(data) && todo == []
    requires Opening(m, rest, key, cbc, iv0, data, d, iv, todo)
    ensures m == DecryptAll(key, cbc, iv0, data) + rest
  {
    hide DecryptOne, Key.Valid;
  }

  method DecryptStep(key: Key, cbc: bool, iv: seq<bv8>, src: seq<bv8>) returns (t: seq<bv8>)
    requires key.Valid() && |iv| == |src| == BLOCK_SIZE
    ensures t == DecryptOne(key, cbc, iv, src)
  {
    hide InvCipher, XorBlocks;
    var block := new bv8[BLOCK_SIZE](_ => 0);
    Store(block, src);
    DecryptBlock(key.exp, key.numKeys, block);
    if cbc {
      XorInPlace(block, iv);
    }
    t := block[..];
  }

  /** c is the whole cipher text; its data has been copied to m. */
  method DecryptInPlace(key: Key, cbc: bool, c: seq<bv8>, m: array<bv8>)
    requires key.Valid() && Whole(c) && |c| >= DATA && |c| - DATA <= m.Length && m[..|c| - DATA] == c[DATA..]
    modifies m
    ensures Whole(c[DATA..])
    ensures m[..] == DecryptAll(key, cbc, c[BLOCK_SIZE..DATA], c[DATA..]) + old(m[|c| - DATA..])
  {
    hide DecryptAll, DecryptOne, Key.Valid, Opening, Whole, Spliced;
    DataIsWhole(c);
    var iv, i := c[BLOCK_SIZE..DATA], 0;
    ghost var data, rest, d, todo := c[DATA..], m[|c| - DATA..], [], c[DATA..];
    OpeningStart(m[..], key, cbc, iv, data);
    while i < |c| - DATA
      invariant 0 <= i == |d| && i + |todo| == |data|
      invariant Opening(m[..], rest, key, cbc, c[BLOCK_SIZE..DATA], data, d,
                        if cbc && i > 0 then c[BLOCK_SIZE + i..DATA + i] else iv, todo)
      invariant !cbc || i == 0 ==> iv == c[BLOCK_SIZE..DATA]
    {
      if cbc && i > 0 {
        iv := c[BLOCK_SIZE + i..DATA + i];
      }
      OpeningStep(m[..], rest, key, cbc, c[BLOCK_SIZE..DATA], data, d, iv, todo);
      var src := m[i..i + BLOCK_SIZE];
      assert src == m[..][i..i + BLOCK_SIZE];
      var t := DecryptStep(key, cbc, iv, src);
      Put(m, i, t);
      DataSlice(c, i);
      i, d, todo := i + BLOCK_SIZE, d + t, todo[BLOCK_SIZE..];
    }
    OpeningEnd(m[..], rest, key, cbc, c[BLOCK_SIZE..DATA], data, d,
               if cbc && i > 0 then c[BLOCK_SIZE + i..DATA + i] else iv, todo);
  }

  lemma DataSlice(c: seq<bv8>, i: nat)
    requires DATA + i + BLOCK_SIZE <= |c|
    ensures c[DATA..][i..i + BLOCK_SIZE] == c[BLOCK_SIZE + (i + BLOCK_SIZE)..DATA + (i + BLOCK_SIZE)]
  {
  }

  lemma DataIsWhole(c: seq<bv8>)
    requires Whole(c) && |c| >= DATA
    ensures Whole(c[DATA..])
  {
  }

  /** Looks for a padding at the end of s, and how long it is. */
  method FindPad(s: seq<bv8>) returns (isPad: bool, t: nat)
    requires |s| >= BLOCK_SIZE
    ensures t <= |s| && Unpad(s) == if isPad then Plain(s[..|s| - t]) else Failed(Header)
  {
    var last := s[|s| - 1] as int;
    if last <= 0 || last > 0x0f {
      return false, 0;
    }
    t, isPad := last, true;
    for i := 0 to t
      invariant isPad <==> forall j :: |s| - i <= j < |s| ==> s[j] as int == j - (|s| - t) + 1
    {
      if s[|s| - 1 - i] as int != t - i {
        isPad := false;
      }
    }
  }

  /** How decrypting ends: with a return code, or with a read in front of the buffer. */
  datatype Outcome = Returned(rc: Ret) | OutOfBoundsRead

  /** Checks the header, copies the data to m, decrypts it there and takes off the padding. */
  method DecryptBuffer(key: Key, c: seq<bv8>, m: array<bv8>) returns (o: Outcome, n: nat)
    requires key.Valid() && Whole(c) && DATA <= |c| <= DATA + m.Length
    modifies m
    ensures match Decrypted(key, c)
            case Plain(p) =>
              && o == Returned(Success) && n == |p| <= |c| - DATA
              && m[..] == p + seq(|c| - DATA - |p|, _ => 0) + old(m[|c| - DATA..])
            case Failed(code) => o == Returned(code)
            case OutOfBounds => o == OutOfBoundsRead
  {
    hide DecryptAll, Key.Valid, Unpad, ReadHeader, Spliced, Whole;
    n := |c| - DATA;
    var mode := ReadHeader(c);
    if mode.None? {
      return Returned(Header), n;
    }
    DataIsWhole(c);
    ghost var all, rest := DecryptAll(key, mode.value.cbc, c[BLOCK_SIZE..DATA], c[DATA..]), m[n..];
    CopiedAt(m[..], 0, c[DATA..]);
    Put(m, 0, c[DATA..]);
    DecryptInPlace(key, mode.value.cbc, c, m);
    if mode.value.padded {
      if n == 0 {
        return OutOfBoundsRead, n;
      }
      DataIsABlock(c);
      assert m[..n] == all;
      var isPad, t := FindPad(m[..n]);
      if !isPad {
        return Returned(Header), n;
      }
      Cleared(all, rest, t);
      Put(m, n - t, seq(t, _ => 0));
      n := n - t;
    } else {
      NothingCleared(all, rest);
    }
    return Returned(Success), n;
  }

  lemma CopiedAt(m: seq<bv8>, at: nat, t: seq<bv8>)
    requires at + |t| <= |m|
    ensures Spliced(m, at, t)[at..at + |t|] == t && Spliced(m, at, t)[at + |t|..] == m[at + |t|..]
  {
  }

  lemma Cleared(all: seq<bv8>, rest: seq<bv8>, t: nat)
    requires t <= |all|
    ensures Spliced(all + rest, |all| - t, seq(t, _ => 0)) == all[..|all| - t] + seq(t, _ => 0) + rest
  {
  }

  lemma NothingCleared(all: seq<bv8>, rest: seq<bv8>)
    ensures all + rest == all + seq(0, _ => 0) + rest
  {
  }

  lemma DataIsABlock(c: seq<bv8>)
    requires Whole(c) && |c| > DATA
    ensures |c| - DATA >= BLOCK_SIZE
  {
  }

  // ---------------------------------------------------------------------------
  // The context
  // ---------------------------------------------------------------------------

  class Context {
    var key: Option<Key>
    var options: bv16
    var iv: seq<bv8>

    ghost predicate Valid()
      reads this
    {
      && (key.Some? ==> key.value.Valid())
      && (options == ECB || options == CBC)
      && |iv| == BLOCK_SIZE
    }

    /** oaes_alloc: no key, and chaining from a random vector. */
    constructor (random: seq<bv8>)
      requires |random| == BLOCK_SIZE
      ensures Valid() && key == None && options == CBC && iv == random
    {
      key, options, iv := None, CBC, random;
    }

    /** The vector for chaining is the one given, or a random one. */
    method SetOption(option: bv16, value: Option<seq<bv8>>, random: seq<bv8>) returns (rc: Ret)
      requires Valid() && |random| == BLOCK_SIZE && (value.Some? ==> |value.value| == BLOCK_SIZE)
      modifies this
      ensures Valid() && key == old(key)
      ensures option == ECB ==> rc == Success && options == ECB && iv == seq(BLOCK_SIZE, _ => 0)
      ensures option == CBC ==> rc == Success && options == CBC && iv == if value.Some? then value.value else random
      ensures option != ECB && option != CBC ==> rc == Arg2 && options == old(options) && iv == old(iv)
    {
      if option == ECB {
        options, iv := ECB, seq(BLOCK_SIZE, _ => 0);
      } else if option == CBC {
        options, iv := CBC, if value.Some? then value.value else random;
      } else {
        return Arg2;
      }
      return Success;
    }

    method KeyImportData(data: seq<bv8>) returns (rc: Ret)
      requires Valid()
      modifies this
      ensures Valid() && options == old(options) && iv == old(iv)
      ensures if |data| in {16, 24, 32} then
                && rc == Success && key.Some? && key.value.data == data
                && key.value.numKeys == |data| / 4 + ROUND_BASE
                && IsSchedule(data, key.value.exp, |data| / 4, 4 * key.value.numKeys)
              else rc == Arg3 && key == old(key)
    {
      if |data| != 16 && |data| != 24 && |data| != 32 {
        return Arg3;
      }
      var k := KeyExpand(data);
      key := Some(k);
      return Success;
    }

    /** cLen is the room in c; the new cLen what the result takes. Without a buffer only that is computed. */
    method Encrypt(m: seq<bv8>, c: array?<bv8>, cLen: nat) returns (rc: Ret, cLen': nat)
      requires Valid() && (c != null ==> cLen <= c.Length)
      modifies this, c
      ensures Valid() && key == old(key) && options == old(options)
      ensures cLen' == 2 * BLOCK_SIZE + |m| + PadLength(|m|)
      ensures rc == if c == null then Success else if cLen < cLen' then Buf else if key.None? then NoKey else Success
      ensures c == null || rc != Success ==> iv == old(iv) && (c != null ==> c[..] == old(c[..]))
      ensures c != null && rc == Success ==>
                && c[..] == Encrypted(key.value, options, old(iv), m) + old(c[cLen'..])
                && iv == LastVector(options == CBC, old(iv),
                                    Encrypted(key.value, options, old(iv), m)[2 * BLOCK_SIZE..])
    {
      hide Encrypted, Key.Valid, LastVector;
      cLen' := DATA + |m| + PadLength(|m|);
      if c == null {
        return Success, cLen';
      }
      if cLen < cLen' {
        return Buf, cLen';
      }
      if key.None? {
        return NoKey, cLen';
      }
      iv := EncryptBuffer(key.value, options, iv, m, c);
      return Success, cLen';
    }

    /** mLen is the room in m; the new mLen what the result takes, computed modulo 2^64, so that a text shorter than the
        header and the vector asks for more room than there is. */
    method Decrypt(c: seq<bv8>, m: array?<bv8>, mLen: nat) returns (o: Outcome, mLen': nat)
      requires Valid() && |c| < TWO64 && (m != null ==> mLen <= m.Length && mLen < TWO64 - DATA)
      modifies m
      ensures !Whole(c) ==> o == Returned(Arg3) && mLen' == mLen
      ensures Whole(c) && m == null ==> o == Returned(Success) && mLen' == (|c| - DATA) % TWO64
      ensures Whole(c) && m != null && (|c| < DATA || mLen < |c| - DATA) ==> o == Returned(Buf)
      ensures Whole(c) && m != null && DATA <= |c| <= DATA + mLen ==>
                if key.None? then o == Returned(NoKey)
                else
                  match Decrypted(key.value, c)
                  case Plain(p) =>
                    && o == Returned(Success) && mLen' == |p| <= |c| - DATA
                    && m[..] == p + seq(|c| - DATA - |p|, _ => 0) + old(m[|c| - DATA..])
                  case Failed(code) => o == Returned(code)
                  case OutOfBounds => o == OutOfBoundsRead
      ensures o == OutOfBoundsRead <==>
              m != null && key.Some? && |c| == DATA && ReadHeader(c).Some? && ReadHeader(c).value.padded
    {
      hide Decrypted, Key.Valid, ReadHeader;
      mLen' := mLen;
      if |c| % BLOCK_SIZE != 0 {
        return Returned(Arg3), mLen';
      }
      mLen' := (|c| - DATA) % TWO64;
      if m == null {
        return Returned(Success), mLen';
      }
      RoomFor(|c|);
      if mLen < mLen' {
        return Returned(Buf), mLen';
      }
      if key.None? {
        return Returned(NoKey), mLen';
      }
      OutOfBoundsExactly(key.value, c);
      o, mLen' := DecryptBuffer(key.value, c, m);
    }
  }

  lemma RoomFor(n: nat)
    requires n < TWO64
    ensures if n < DATA then (n - DATA) % TWO64 >= TWO64 - DATA else (n - DATA) % TWO64 == n - DATA
  {
  }
}
