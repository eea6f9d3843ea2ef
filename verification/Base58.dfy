/** Block-wise base 58 (src/common/base58.cpp): eight bytes to eleven letters, a shorter last block to fewer. */
module Base58 {
  import opened Words
  import opened Numerals
  import IntUtil

  const ALPHABET: string :=
    "123456789" + "ABCDEFGH" + "JKLMN" + "PQRSTUVWXYZ" + "abcdefghijk" + "mnopqrstuvwxyz"

  const ALPHABET_SIZE: nat := 58

  const ENCODED_BLOCK_SIZES: seq<nat> := [0, 2, 3, 5, 6, 7, 9, 10, 11]

  const FULL_BLOCK: nat := 8

  const FULL_ENCODED_BLOCK: nat := 11

  // ---------------------------------------------------------------------------
  // The two lookup tables
  // ---------------------------------------------------------------------------

  function Letter(d: int): (c: char)
    requires 0 <= d < ALPHABET_SIZE
    ensures '1' <= c <= 'z'
  {
    ALPHABET[d]
  }

  lemma LettersAscend(d: int)
    requires 0 < d < ALPHABET_SIZE
    ensures Letter(d - 1) < Letter(d)
  {
    assert Letter(d - 1) == ALPHABET[d - 1];
    assert Letter(d) == ALPHABET[d];
  }

  lemma {:induction false} LettersDiffer(c: int, d: int)
    requires 0 <= c < d < ALPHABET_SIZE
    ensures Letter(c) < Letter(d)
    decreases d
  {
    hide Letter;
    LettersAscend(d);
    if c < d - 1 {
      LettersDiffer(c, d - 1);
    }
  }

  /** The last place of a letter among the first k of the alphabet, or -1. */
  function Find(c: char, k: nat): (d: int)
    requires k <= ALPHABET_SIZE
  {
    if k == 0 then -1 else if Letter(k - 1) == c then k - 1 else Find(c, k - 1)
  }

  lemma {:induction false} Found(c: char, k: nat)
    requires k <= ALPHABET_SIZE
    ensures var d := Find(c, k);
            if d >= 0 then d < k && Letter(d) == c else d == -1 && forall j :: 0 <= j < k ==> Letter(j) != c
  {
    hide Letter;
    if k > 0 {
      Found(c, k - 1);
    }
  }

  /** The place of a letter in the alphabet, or -1. */
  function Symbol(c: char): (d: int)
    ensures -1 <= d < ALPHABET_SIZE
    ensures d >= 0 ==> Letter(d) == c
    ensures d < 0 ==> forall j :: 0 <= j < ALPHABET_SIZE ==> Letter(j) != c
  {
    Found(c, ALPHABET_SIZE);
    Find(c, ALPHABET_SIZE)
  }

  lemma SymbolOfLetter(d: int)
    requires 0 <= d < ALPHABET_SIZE
    ensures Symbol(Letter(d)) == d
  {
    hide Letter, Find;
    var e := Symbol(Letter(d));
    if 0 <= e < d {
      LettersDiffer(e, d);
    } else if d < e {
      LettersDiffer(d, e);
    }
  }

  /** The letters are the digits and the ASCII letters but for those easily mistaken: 0, I, O and l. */
  lemma LettersExactly(c: char)
    ensures Symbol(c) >= 0 <==>
            ('0' <= c <= '9' || 'A' <= c <= 'Z' || 'a' <= c <= 'z') && c != '0' && c != 'I' && c != 'O' && c != 'l'
  {
    hide Find, Letter;
    Digit(c);
    UpperCase(c);
    LowerCase(c);
    var d := Symbol(c);
    if 9 <= d < 33 {
      OnlyUpperCase(d);
    }
  }

  /** The digits 1 to 9 are the first nine. */
  lemma Digit(c: char)
    ensures forall d :: 0 <= d < 9 ==> Letter(d) == ('1' as int + d) as char
    ensures '1' <= c <= '9' ==> Letter(c as int - '1' as int) == c
  {
  }

  /** Then the capitals, */
  lemma UpperCase(c: char)
    ensures 'A' <= c <= 'H' ==> Letter(9 + (c as int - 'A' as int)) == c
    ensures 'J' <= c <= 'N' ==> Letter(17 + (c as int - 'J' as int)) == c
    ensures 'P' <= c <= 'Z' ==> Letter(22 + (c as int - 'P' as int)) == c
  {
  }

  lemma OnlyUpperCase(d: int)
    requires 9 <= d < 33
    ensures 'A' <= Letter(d) <= 'Z' && Letter(d) != 'I' && Letter(d) != 'O'
  {
  }

  /** and the small letters. */
  lemma LowerCase(c: char)
    ensures 'a' <= c <= 'k' ==> Letter(33 + (c as int - 'a' as int)) == c
    ensures 'm' <= c <= 'z' ==> Letter(44 + (c as int - 'm' as int)) == c
    ensures forall d :: 33 <= d < 58 ==> 'a' <= Letter(d) <= 'z' && Letter(d) != 'l'
  {
  }

  /** The table made by the constructor of reverse_alphabet, indexed by the distance from the first letter. */
  method ReverseAlphabet() returns (table: array<int>)
    ensures forall c: char :: LookUp(table[..], c) == Symbol(c)
  {
    hide Letter;
    table := new int['z' as int - '1' as int + 1](_ => -1);
    for i := 0 to ALPHABET_SIZE
      invariant forall k :: 0 <= k < 74 ==> table[k] == Find((k + '1' as int) as char, i)
    {
      table[Letter(i) as int - '1' as int] := i;
    }
    forall c: char
      ensures LookUp(table[..], c) == Symbol(c)
    {
      var k := c as int - '1' as int;
      Found(c, ALPHABET_SIZE);
      assert 0 <= k < 74 ==> (k + '1' as int) as char == c;
    }
  }

  function LookUp(table: seq<int>, c: char): (d: int)
  {
    var k := c as int - '1' as int;
    if 0 <= k < |table| then table[k] else -1
  }

  /** The number of bytes in a block of m letters, or -1. */
  function DecodedSize(m: nat): (n: int)
    requires m <= FULL_ENCODED_BLOCK
    ensures -1 <= n <= FULL_BLOCK
    ensures n >= 0 ==> ENCODED_BLOCK_SIZES[n] == m
    ensures n < 0 ==> m !in ENCODED_BLOCK_SIZES
  {
    FindSize(m, FULL_BLOCK + 1)
  }

  function FindSize(m: nat, k: nat): (n: int)
    requires k <= |ENCODED_BLOCK_SIZES|
    ensures -1 <= n < k
    ensures n >= 0 ==> ENCODED_BLOCK_SIZES[n] == m
    ensures n < 0 ==> m !in ENCODED_BLOCK_SIZES[..k]
  {
    if k == 0 then -1 else if ENCODED_BLOCK_SIZES[k - 1] == m then k - 1 else FindSize(m, k - 1)
  }

  lemma SizesAreDistinct(n: nat)
    requires n <= FULL_BLOCK
    ensures n <= ENCODED_BLOCK_SIZES[n] <= FULL_ENCODED_BLOCK && DecodedSize(ENCODED_BLOCK_SIZES[n]) == n
  {
  }

  /** The table made by the constructor of decoded_block_sizes. */
  method DecodedBlockSizes() returns (table: array<int>)
    ensures table.Length == FULL_ENCODED_BLOCK + 1
    ensures forall m :: 0 <= m <= FULL_ENCODED_BLOCK ==> table[m] == DecodedSize(m)
  {
    table := new int[FULL_ENCODED_BLOCK + 1](_ => -1);
    for i := 0 to FULL_BLOCK + 1
      invariant forall m :: 0 <= m <= FULL_ENCODED_BLOCK ==> table[m] == FindSize(m, i)
    {
      SizesAreDistinct(i);
      table[ENCODED_BLOCK_SIZES[i]] := i;
    }
  }

  // ---------------------------------------------------------------------------
  // Blocks
  // ---------------------------------------------------------------------------

  function Ints(s: seq<uint8>): (ds: seq<int>)
    ensures |ds| == |s| && Numeral(ds, 0x100)
  {
    seq(|s|, i requires 0 <= i < |s| => s[i] as int)
  }

  function Uints(ds: seq<int>): (s: seq<uint8>)
    requires Numeral(ds, 0x100)
    ensures |s| == |ds| && Ints(s) == ds
  {
    seq(|ds|, i requires 0 <= i < |ds| => ds[i] as uint8)
  }

  function Letters(ds: seq<int>): (e: string)
    requires Numeral(ds, ALPHABET_SIZE)
    ensures |e| == |ds|
    ensures forall i :: 0 <= i < |e| ==> e[i] == Letter(ds[i])
  {
    seq(|ds|, i requires 0 <= i < |ds| => Letter(ds[i]))
  }

  function Symbols(e: string): (ds: seq<int>)
    ensures |ds| == |e|
    ensures forall i :: 0 <= i < |e| ==> ds[i] == Symbol(e[i])
  {
    seq(|e|, i requires 0 <= i < |e| => Symbol(e[i]))
  }

  lemma SymbolsOfLetters(ds: seq<int>)
    requires Numeral(ds, ALPHABET_SIZE)
    ensures Symbols(Letters(ds)) == ds
  {
    hide Letter, Symbol;
    forall i | 0 <= i < |ds|
      ensures Symbols(Letters(ds))[i] == ds[i]
    {
      SymbolOfLetter(ds[i]);
    }
  }

  lemma LettersOfSymbols(e: string)
    requires Numeral(Symbols(e), ALPHABET_SIZE)
    ensures Letters(Symbols(e)) == e
  {
    hide Letter;
  }

  /** The number a block of bytes stands for, and the number a block of letters stands for. */
  function Packed(s: seq<uint8>): (n: int)
    ensures 0 <= n < Pow(0x100, |s|)
  {
    NumberIsBounded(Ints(s), 0x100);
    Number(Ints(s), 0x100)
  }

  function EncodedBlock(s: seq<uint8>): (e: string)
    requires 1 <= |s| <= FULL_BLOCK
    ensures |e| == ENCODED_BLOCK_SIZES[|s|]
  {
    var m := ENCODED_BLOCK_SIZES[|s|];
    DigitsAreNumeral(Packed(s), ALPHABET_SIZE, m);
    Letters(Digits(Packed(s), ALPHABET_SIZE, m))
  }

  /** A block of letters that stands for a block of bytes. */
  predicate BlockAccepted(e: string) {
    && |e| <= FULL_ENCODED_BLOCK
    && DecodedSize(|e|) > 0
    && Numeral(Symbols(e), ALPHABET_SIZE)
    && Number(Symbols(e), ALPHABET_SIZE) < Pow(0x100, DecodedSize(|e|))
  }

  function DecodedBlock(e: string): (s: seq<uint8>)
    requires BlockAccepted(e)
    ensures |s| == DecodedSize(|e|)
  {
    DigitsAreNumeral(Number(Symbols(e), ALPHABET_SIZE), 0x100, DecodedSize(|e|));
    Uints(Digits(Number(Symbols(e), ALPHABET_SIZE), 0x100, DecodedSize(|e|)))
  }

  /** Every number of n bytes has that many letters. */
  lemma Capacity(n: nat)
    requires 1 <= n <= FULL_BLOCK
    ensures Pow(0x100, n) <= Pow(ALPHABET_SIZE, ENCODED_BLOCK_SIZES[n])
    ensures Pow(0x100, n) <= TWO64 && (n == FULL_BLOCK ==> Pow(0x100, n) == TWO64)
  {
    PowersOf256();
    PowersOf58();
    hide Pow;
  }

  /** And no fewer would do. */
  lemma SizesAreLeast(n: nat, m: nat)
    requires n <= FULL_BLOCK
    ensures Pow(0x100, n) <= Pow(58, m) <==> ENCODED_BLOCK_SIZES[n] <= m
  {
    PowersOf256();
    PowersOf58();
    assert Pow(0x100, 0) == 1 && Pow(58, 0) == 1 && Pow(58, 1) == 58 && Pow(58, 4) == 11316496 &&
           Pow(58, 8) == 128063081718016;
    hide Pow;
    var least := ENCODED_BLOCK_SIZES[n];
    if least <= m {
      PowGrows(58, least, m);
    } else {
      PowGrows(58, m, least - 1);
    }
  }

  lemma PowersOf256()
    ensures Pow(0x100, 1) == 0x100 && Pow(0x100, 2) == 0x1_0000 && Pow(0x100, 3) == 0x100_0000
    ensures Pow(0x100, 4) == 0x1_0000_0000 && Pow(0x100, 5) == 0x100_0000_0000 && Pow(0x100, 6) == 0x1_0000_0000_0000
    ensures Pow(0x100, 7) == 0x100_0000_0000_0000 && Pow(0x100, 8) == TWO64
  {
  }

  lemma PowersOf58()
    ensures Pow(58, 2) == 3364 && Pow(58, 3) == 195112 && Pow(58, 5) == 656356768 && Pow(58, 6) == 38068692544
    ensures Pow(58, 7) == 2207984167552 && Pow(58, 9) == 7427658739644928 && Pow(58, 10) == 430804206899405824
    ensures Pow(58, 11) == 24986644000165537792
  {
    assert Pow(58, 4) == 11316496;
    assert Pow(58, 8) == 128063081718016;
  }

  lemma BlockRoundTrip(s: seq<uint8>)
    requires 1 <= |s| <= FULL_BLOCK
    ensures BlockAccepted(EncodedBlock(s)) && DecodedBlock(EncodedBlock(s)) == s
  {
    hide Letter, Symbol, Pow, Number;
    var n, m := |s|, ENCODED_BLOCK_SIZES[|s|];
    var ds := Digits(Packed(s), ALPHABET_SIZE, m);
    SizesAreDistinct(n);
    Capacity(n);
    DigitsAreNumeral(Packed(s), ALPHABET_SIZE, m);
    SymbolsOfLetters(ds);
    NumberOfDigits(Packed(s), ALPHABET_SIZE, m);
    DigitsOfNumber(Ints(s), 0x100);
  }

  /** A block and its letters are one number: the bytes by their places in base 256, the places of the letters in the
      alphabet by theirs in base 58. */
  lemma BlockValue(s: seq<uint8>)
    requires 1 <= |s| <= FULL_BLOCK
    ensures var e := EncodedBlock(s);
            Weighted(seq(|e|, i requires 0 <= i < |e| => Symbol(e[i])), 58) ==
            Weighted(seq(|s|, i requires 0 <= i < |s| => s[i] as int), 0x100)
  {
    hide Letter, Symbol, Pow, Number, Weighted;
    var m, e := ENCODED_BLOCK_SIZES[|s|], EncodedBlock(s);
    var ds := Digits(Packed(s), ALPHABET_SIZE, m);
    Capacity(|s|);
    DigitsAreNumeral(Packed(s), ALPHABET_SIZE, m);
    SymbolsOfLetters(ds);
    NumberOfDigits(Packed(s), ALPHABET_SIZE, m);
    NumberIsWeighted(ds, 58);
    NumberIsWeighted(Ints(s), 0x100);
    assert seq(|e|, i requires 0 <= i < |e| => Symbol(e[i])) == Symbols(e);
    assert seq(|s|, i requires 0 <= i < |s| => s[i] as int) == Ints(s);
  }

  lemma BlockInverse(e: string)
    requires BlockAccepted(e)
    ensures 1 <= |DecodedBlock(e)| <= FULL_BLOCK && EncodedBlock(DecodedBlock(e)) == e
  {
    hide Letter, Symbol, Pow, Number;
    var n, x := DecodedSize(|e|), Number(Symbols(e), ALPHABET_SIZE);
    NumberIsBounded(Symbols(e), ALPHABET_SIZE);
    DigitsAreNumeral(x, 0x100, n);
    NumberOfDigits(x, 0x100, n);
    DigitsOfNumber(Symbols(e), ALPHABET_SIZE);
    LettersOfSymbols(e);
  }

  // ---------------------------------------------------------------------------
  // The block routines
  // ---------------------------------------------------------------------------

  /** Gathers bytes, most significant first; the cases of the switch fall through, one for each byte. */
  method Uint8beTo64(data: seq<uint8>) returns (res: uint64)
    requires 1 <= |data| <= FULL_BLOCK
    ensures res == Packed(data)
  {
    res := 0;
    for i := 0 to |data|
      invariant res == Packed(data[..i])
    {
      ShiftIn(data, i);
      hide *;
      res := IntUtil.OrWords(data[i] as int, res * 0x100 % TWO64);
    }
    assert data[..|data|] == data;
  }

  lemma ShiftIn(data: seq<uint8>, i: nat)
    requires i < |data| <= FULL_BLOCK
    ensures var x := Packed(data[..i]);
            0 <= x * 0x100 % TWO64 && Or(data[i] as int, x * 0x100 % TWO64) == Packed(data[..i + 1])
  {
    hide Pow, Packed, Or;
    PackedStep(data, i);
    Capacity(i + 1);
    LastByte(data[i] as int, Packed(data[..i]));
  }

  lemma PackedStep(data: seq<uint8>, i: nat)
    requires i < |data|
    ensures Packed(data[..i + 1]) == Packed(data[..i]) * 0x100 + data[i] as int
  {
    assert Ints(data[..i + 1])[..i] == Ints(data[..i]);
  }

  lemma LastByte(b: nat, x: nat)
    requires b < 0x100
    ensures Or(b, x * 0x100) == x * 0x100 + b
  {
    assert Pow2(8) == 0x100;
    hide Pow2, Or;
    OrIsSum(b, x, 8);
  }

  /** The last `size` bytes of the number written out on eight. */
  method Uint64To8be(num: uint64, size: nat) returns (data: seq<uint8>)
    requires 1 <= size <= FULL_BLOCK
    ensures Ints(data) == Digits(num, 0x100, size)
  {
    DigitsAreNumeral(num, 0x100, FULL_BLOCK);
    var swapped := Uints(Digits(num, 0x100, FULL_BLOCK));
    data := swapped[FULL_BLOCK - size..];
    LastDigits(num, FULL_BLOCK, size);
  }

  lemma {:induction false} LastDigits(n: int, k: nat, size: nat)
    requires size <= k
    ensures Digits(n, 0x100, k)[k - size..] == Digits(n, 0x100, size)
    decreases k
  {
    if size > 0 {
      LastDigits(n / 0x100, k - 1, size - 1);
    }
  }

  /** Writes the letters of a block from the last one back; the leading letters are already those of zero. */
  method EncodeBlock(block: seq<uint8>, res: array<char>, at: nat)
    requires 1 <= |block| <= FULL_BLOCK
    requires at + ENCODED_BLOCK_SIZES[|block|] <= res.Length
    requires forall j :: at <= j < at + ENCODED_BLOCK_SIZES[|block|] ==> res[j] == Letter(0)
    modifies res
    ensures res[..] == old(res[..at]) + EncodedBlock(block) + old(res[at + ENCODED_BLOCK_SIZES[|block|]..])
  {
    hide Letter, Pow, Packed, Written, Digits, Numeral, EncodedBlock, Letters;
    var num := Uint8beTo64(block);
    ghost var m := ENCODED_BLOCK_SIZES[|block|];
    ghost var pre, post := res[..at], res[at + m..];
    ghost var ds := Digits(num, ALPHABET_SIZE, m);
    Capacity(|block|);
    DigitsAreNumeral(num, ALPHABET_SIZE, m);
    StartsBlank(res[..], at, ds);
    var i: int := ENCODED_BLOCK_SIZES[|block|] - 1;
    while 0 < num
      invariant -1 <= i < m && 0 <= num < Pow(ALPHABET_SIZE, i + 1)
      invariant ds[..i + 1] == Digits(num, ALPHABET_SIZE, i + 1)
      invariant res[..] == pre + Written(ds, i) + post
    {
      LeadingDigits(ds, num, i);
      WriteOne(pre, ds, i, post);
      res[at + i] := Letter(num % ALPHABET_SIZE);
      num := num / ALPHABET_SIZE;
      i := i - 1;
    }
    AllWritten(ds, i);
    IsEncoded(block, ds);
  }

  /** The letters of ds after place i, and those of zero up to there. */
  ghost function Written(ds: seq<int>, i: int): (e: string)
    requires Numeral(ds, ALPHABET_SIZE)
    ensures |e| == |ds|
  {
    seq(|ds|, j requires 0 <= j < |ds| => if j <= i then Letter(0) else Letter(ds[j]))
  }

  lemma StartsBlank(res: string, at: nat, ds: seq<int>)
    requires at + |ds| <= |res| && Numeral(ds, ALPHABET_SIZE)
    requires forall j :: at <= j < at + |ds| ==> res[j] == Letter(0)
    ensures res == res[..at] + Written(ds, |ds| - 1) + res[at + |ds|..]
    ensures ds[..|ds|] == ds
  {
    hide Letter;
  }

  lemma WriteOne(pre: string, ds: seq<int>, i: nat, post: string)
    requires i < |ds| && Numeral(ds, ALPHABET_SIZE)
    ensures (pre + Written(ds, i) + post)[|pre| + i := Letter(ds[i])] == pre + Written(ds, i - 1) + post
  {
    hide Letter;
    assert Written(ds, i)[i := Letter(ds[i])] == Written(ds, i - 1);
  }

  lemma AllWritten(ds: seq<int>, i: int)
    requires -1 <= i < |ds| && Numeral(ds, ALPHABET_SIZE) && ds[..i + 1] == Digits(0, ALPHABET_SIZE, i + 1)
    ensures Written(ds, i) == Letters(ds)
  {
    hide Letter, Digits;
    ZeroDigits(i + 1);
    assert forall j :: 0 <= j <= i ==> ds[j] == ds[..i + 1][j];
  }

  lemma IsEncoded(block: seq<uint8>, ds: seq<int>)
    requires 1 <= |block| <= FULL_BLOCK
    requires ds == Digits(Packed(block), ALPHABET_SIZE, ENCODED_BLOCK_SIZES[|block|]) && Numeral(ds, ALPHABET_SIZE)
    ensures EncodedBlock(block) == Letters(ds)
  {
  }

  lemma LeadingDigits(ds: seq<int>, num: nat, i: int)
    requires -1 <= i < |ds| && 0 < num < Pow(ALPHABET_SIZE, i + 1)
    requires ds[..i + 1] == Digits(num, ALPHABET_SIZE, i + 1)
    ensures 0 <= i && num / ALPHABET_SIZE < Pow(ALPHABET_SIZE, i)
    ensures ds[i] == num % ALPHABET_SIZE && ds[..i] == Digits(num / ALPHABET_SIZE, ALPHABET_SIZE, i)
  {
    assert ds[..i] == ds[..i + 1][..i];
    assert ds[i] == ds[..i + 1][i];
  }

  lemma {:induction false} ZeroDigits(k: nat)
    ensures forall j :: 0 <= j < k ==> Digits(0, ALPHABET_SIZE, k)[j] == 0
  {
    if k > 0 {
      ZeroDigits(k - 1);
    }
  }

  /** Accepts exactly the blocks that stand for bytes; both tests of the loop are for a value of 2^64 or more. */
  method DecodeBlock(block: string) returns (ok: bool, res: seq<uint8>)
    requires 1 <= |block| <= FULL_ENCODED_BLOCK
    ensures ok <==> BlockAccepted(block)
    ensures ok ==> res == DecodedBlock(block)
  {
    hide Pow, Number, Symbol, Letter, Numeral, Symbols, DecodedSize, Digits, Ints, Uints;
    var size, resSize := |block|, DecodedSize(|block|);
    if resSize <= 0 {
      return false, [];
    }
    ghost var ds := Symbols(block);
    Capacity(resSize);
    var resNum, order, i := 0, 1, size;
    StartsAtEnd(ds);
    while i > 0
      invariant 0 <= i <= size && Numeral(ds[i..], ALPHABET_SIZE)
      invariant resNum == Number(ds[i..], ALPHABET_SIZE) && 0 <= resNum < TWO64
      invariant i > 0 ==> order == Pow(ALPHABET_SIZE, size - i) && 0 <= order < TWO64
    {
      i := i - 1;
      var digit := Symbol(block[i]);
      if digit < 0 {
        NoNumeral(ds, i);
        return false, [];
      }
      AddDigit(ds, i);
      var fits, tmp := Accumulate(resNum, order, digit);
      if !fits {
        TooLarge(ds, i, resSize);
        return false, [];
      }
      resNum := tmp;
      NextOrder(size - i);
      order := order * ALPHABET_SIZE % TWO64;
    }
    assert ds[0..] == ds;
    if resSize < FULL_BLOCK && Pow(0x100, resSize) <= resNum {
      return false, [];
    }
    res := Uint64To8be(resNum, resSize);
    IsDecoded(block, res);
    return true, res;
  }

  lemma IsDecoded(e: string, s: seq<uint8>)
    requires BlockAccepted(e) && Ints(s) == Digits(Number(Symbols(e), ALPHABET_SIZE), 0x100, DecodedSize(|e|))
    ensures s == DecodedBlock(e)
  {
    hide Number, Symbols, Digits, Pow, DecodedSize;
    var t := DecodedBlock(e);
    assert forall i :: 0 <= i < |s| ==> s[i] as int == Ints(s)[i] == Ints(t)[i] == t[i] as int;
  }

  /** Adds a product; the carry and the high word tell exactly when the sum does not fit. */
  method Accumulate(resNum: uint64, order: uint64, digit: uint64) returns (fits: bool, tmp: uint64)
    ensures fits <==> resNum + order * digit < TWO64
    ensures fits ==> tmp == resNum + order * digit
  {
    var product, productHi := IntUtil.Mul128(order, digit);
    tmp := IntUtil.Add64(resNum, product);
    fits := !(tmp < resNum || 0 != productHi);
  }

  lemma StartsAtEnd(ds: seq<int>)
    ensures Number(ds[|ds|..], ALPHABET_SIZE) == 0 && Pow(ALPHABET_SIZE, 0) == 1
    ensures Numeral(ds[|ds|..], ALPHABET_SIZE)
  {
  }

  lemma NoNumeral(ds: seq<int>, i: nat)
    requires i < |ds| && ds[i] < 0
    ensures !Numeral(ds, ALPHABET_SIZE)
  {
  }

  lemma AddDigit(ds: seq<int>, i: nat)
    requires i < |ds|
    ensures 0 <= ds[i] < ALPHABET_SIZE && Numeral(ds[i + 1..], ALPHABET_SIZE) ==> Numeral(ds[i..], ALPHABET_SIZE)
    ensures Number(ds[i..], ALPHABET_SIZE) ==
            Pow(ALPHABET_SIZE, |ds| - i - 1) * ds[i] + Number(ds[i + 1..], ALPHABET_SIZE)
  {
    hide Pow, Number;
    assert ds[i..] == [ds[i]] + ds[i + 1..];
    NumberFront(ds[i], ds[i + 1..], ALPHABET_SIZE);
  }

  /** The order of the next digit fits in 64 bits except after the eleventh digit, that of a full block's last turn. */
  lemma NextOrder(k: nat)
    requires 1 <= k <= FULL_ENCODED_BLOCK
    ensures Pow(ALPHABET_SIZE, k) == Pow(ALPHABET_SIZE, k - 1) * ALPHABET_SIZE
    ensures Pow(ALPHABET_SIZE, k) < TWO64 <==> k < FULL_ENCODED_BLOCK
  {
    PowersOf58();
  }

  lemma TooLarge(ds: seq<int>, i: nat, n: nat)
    requires i <= |ds| && 1 <= n <= FULL_BLOCK && Number(ds[i..], ALPHABET_SIZE) >= TWO64
    ensures !(Numeral(ds, ALPHABET_SIZE) && Number(ds, ALPHABET_SIZE) < Pow(0x100, n))
  {
    hide Pow, Number;
    Capacity(n);
    if Numeral(ds, ALPHABET_SIZE) {
      SuffixIsSmaller(ds, ALPHABET_SIZE, i);
    }
  }

  // ---------------------------------------------------------------------------
  // Strings of blocks
  // ---------------------------------------------------------------------------

  function Encoded(d: seq<uint8>): (e: string)
  {
    if d == [] then ""
    else if |d| <= FULL_BLOCK then EncodedBlock(d)
    else EncodedBlock(d[..FULL_BLOCK]) + Encoded(d[FULL_BLOCK..])
  }

  predicate Accepted(e: string) {
    if e == "" then true
    else if |e| <= FULL_ENCODED_BLOCK then BlockAccepted(e)
    else BlockAccepted(e[..FULL_ENCODED_BLOCK]) && Accepted(e[FULL_ENCODED_BLOCK..])
  }

  function Decoded(e: string): (d: seq<uint8>)
    requires Accepted(e)
  {
    if e == "" then []
    else if |e| <= FULL_ENCODED_BLOCK then DecodedBlock(e)
    else DecodedBlock(e[..FULL_ENCODED_BLOCK]) + Decoded(e[FULL_ENCODED_BLOCK..])
  }

  /** Decoding undoes encoding. */
  lemma {:induction false} RoundTrip(d: seq<uint8>)
    ensures Accepted(Encoded(d)) && Decoded(Encoded(d)) == d
  {
    hide EncodedBlock, BlockAccepted, DecodedBlock;
    if d != [] {
      SizesArePositive(|d|);
      if |d| <= FULL_BLOCK {
        BlockRoundTrip(d);
      } else {
        var first, rest := d[..FULL_BLOCK], d[FULL_BLOCK..];
        BlockRoundTrip(first);
        RoundTrip(rest);
        EncodedNonempty(rest);
        var e := Encoded(d);
        assert e[..FULL_ENCODED_BLOCK] == EncodedBlock(first) && e[FULL_ENCODED_BLOCK..] == Encoded(rest);
      }
    }
  }

  lemma SizesArePositive(n: nat)
    requires n > 0
    ensures n <= FULL_BLOCK ==> 0 < ENCODED_BLOCK_SIZES[n] <= FULL_ENCODED_BLOCK
  {
    if n <= FULL_BLOCK {
      SizesAreDistinct(n);
    }
  }

  /** Up to eight bytes are a block, and whole blocks are encoded apart from what follows. */
  lemma {:induction false} EncodedByBlocks(d: seq<uint8>, rest: seq<uint8>)
    requires |d| % FULL_BLOCK == 0
    ensures Encoded(d + rest) == Encoded(d) + Encoded(rest)
    ensures |d| == FULL_BLOCK ==> Encoded(d) == EncodedBlock(d)
    ensures 0 < |rest| <= FULL_BLOCK ==> Encoded(rest) == EncodedBlock(rest)
    decreases |d|
  {
    hide EncodedBlock;
    if d == [] {
      assert d + rest == rest;
    } else {
      var first, more := d[..FULL_BLOCK], d[FULL_BLOCK..];
      EncodedByBlocks(more, rest);
      assert (d + rest)[..FULL_BLOCK] == first && (d + rest)[FULL_BLOCK..] == more + rest;
      if more == [] {
        assert d == first;
        if rest == [] {
          assert d + rest == d;
        }
      }
    }
  }

  lemma EncodedNonempty(d: seq<uint8>)
    requires d != []
    ensures Encoded(d) != ""
  {
    hide EncodedBlock;
    SizesArePositive(|d|);
  }

  /** Encoding undoes decoding. */
  lemma {:induction false} Inverse(e: string)
    requires Accepted(e)
    ensures Encoded(Decoded(e)) == e
  {
    hide EncodedBlock, BlockAccepted, DecodedBlock;
    if e != "" {
      if |e| <= FULL_ENCODED_BLOCK {
        BlockInverse(e);
      } else {
        var first, rest := e[..FULL_ENCODED_BLOCK], e[FULL_ENCODED_BLOCK..];
        FullBlock(first);
        BlockInverse(first);
        Inverse(rest);
        DecodedNonempty(rest);
        var d := Decoded(e);
        assert d[..FULL_BLOCK] == DecodedBlock(first) && d[FULL_BLOCK..] == Decoded(rest);
      }
    }
  }

  lemma FullBlock(e: string)
    requires |e| == FULL_ENCODED_BLOCK && BlockAccepted(e)
    ensures |DecodedBlock(e)| == FULL_BLOCK
  {
    SizesAreDistinct(FULL_BLOCK);
  }

  lemma DecodedNonempty(e: string)
    requires e != "" && Accepted(e)
    ensures Decoded(e) != []
  {
  }

  /** Base 58 is a bijection between byte strings and accepted texts. */
  lemma Bijection(d: seq<uint8>, e: string)
    ensures Encoded(d) == e <==> Accepted(e) && Decoded(e) == d
  {
    hide Encoded, Accepted, Decoded;
    RoundTrip(d);
    if Accepted(e) {
      Inverse(e);
    }
  }

  method Encode(data: seq<uint8>) returns (text: string)
    ensures text == Encoded(data)
  {
    hide Letter, EncodedBlock, Encoded, Filled;
    if data == [] {
      NothingDecoded();
      return "";
    }
    var fullBlocks, lastSize := |data| / FULL_BLOCK, |data| % FULL_BLOCK;
    var res := new char[fullBlocks * FULL_ENCODED_BLOCK + ENCODED_BLOCK_SIZES[lastSize]](_ => Letter(0));
    StartsUnfilled(res[..], data);
    for i := 0 to fullBlocks
      invariant Filled(res[..], data, i)
    {
      FillStep(res[..], data, i, FULL_BLOCK);
      EncodeBlock(data[FULL_BLOCK * i..FULL_BLOCK * i + FULL_BLOCK], res, FULL_ENCODED_BLOCK * i);
    }
    if 0 < lastSize {
      FillStep(res[..], data, fullBlocks, lastSize);
      EncodeBlock(data[FULL_BLOCK * fullBlocks..FULL_BLOCK * fullBlocks + lastSize], res,
                  FULL_ENCODED_BLOCK * fullBlocks);
    }
    text := res[..];
    AllFilled(text, data, fullBlocks);
  }

  /** i blocks are encoded, and the rest is still blank. */
  ghost predicate Filled(res: string, data: seq<uint8>, i: nat)
    requires FULL_BLOCK * i <= |data| && FULL_ENCODED_BLOCK * i <= |res|
  {
    && res[..FULL_ENCODED_BLOCK * i] + Encoded(data[FULL_BLOCK * i..]) == Encoded(data)
    && forall j :: FULL_ENCODED_BLOCK * i <= j < |res| ==> res[j] == Letter(0)
  }

  lemma StartsUnfilled(res: string, data: seq<uint8>)
    requires forall j :: 0 <= j < |res| ==> res[j] == Letter(0)
    ensures Filled(res, data, 0)
  {
    hide Letter, Encoded;
    assert data[0..] == data;
  }

  lemma FillStep(res: string, data: seq<uint8>, i: nat, size: nat)
    requires 1 <= size <= FULL_BLOCK && FULL_BLOCK * i + size <= |data|
    requires FULL_ENCODED_BLOCK * i + ENCODED_BLOCK_SIZES[size] <= |res| && Filled(res, data, i)
    requires size < FULL_BLOCK ==> FULL_BLOCK * i + size == |data|
    ensures var at, piece := FULL_ENCODED_BLOCK * i, EncodedBlock(data[FULL_BLOCK * i..FULL_BLOCK * i + size]);
            && (forall j :: at <= j < at + |piece| ==> res[j] == Letter(0))
            && var next := res[..at] + piece + res[at + |piece|..];
               if size == FULL_BLOCK then Filled(next, data, i + 1) else next[..at + |piece|] == Encoded(data)
  {
    hide Letter, EncodedBlock, Encoded;
    var at, piece := FULL_ENCODED_BLOCK * i, EncodedBlock(data[FULL_BLOCK * i..FULL_BLOCK * i + size]);
    var next := res[..at] + piece + res[at + |piece|..];
    assert next[..at + |piece|] == res[..at] + piece;
    if size == FULL_BLOCK {
      TakeBlock(data, i);
    } else {
      LastEncoded(data[FULL_BLOCK * i..]);
      assert data[FULL_BLOCK * i..] == data[FULL_BLOCK * i..FULL_BLOCK * i + size];
    }
  }

  lemma AllFilled(res: string, data: seq<uint8>, i: nat)
    requires FULL_BLOCK * i <= |data| && FULL_ENCODED_BLOCK * i <= |res|
    ensures |data| == FULL_BLOCK * i && |res| == FULL_ENCODED_BLOCK * i && Filled(res, data, i) ==> res == Encoded(data)
    ensures res[..|res|] == res
  {
    hide EncodedBlock, Letter;
  }

  lemma LastEncoded(d: seq<uint8>)
    requires 1 <= |d| < FULL_BLOCK
    ensures Encoded(d) == EncodedBlock(d)
  {
    hide EncodedBlock;
  }

  lemma NothingDecoded()
    ensures Encoded([]) == ""
  {
  }

  lemma TakeBlock(data: seq<uint8>, i: nat)
    requires FULL_BLOCK * i + FULL_BLOCK <= |data|
    ensures Encoded(data[FULL_BLOCK * i..]) ==
            EncodedBlock(data[FULL_BLOCK * i..FULL_BLOCK * i + FULL_BLOCK]) + Encoded(data[FULL_BLOCK * (i + 1)..])
  {
    hide EncodedBlock;
    var rest := data[FULL_BLOCK * i..];
    assert rest[..FULL_BLOCK] == data[FULL_BLOCK * i..FULL_BLOCK * i + FULL_BLOCK];
    assert rest[FULL_BLOCK..] == data[FULL_BLOCK * (i + 1)..];
    if |rest| == FULL_BLOCK {
      assert rest[..FULL_BLOCK] == rest;
    }
  }

  method Decode(enc: string) returns (ok: bool, data: seq<uint8>)
    ensures ok <==> Accepted(enc)
    ensures ok ==> data == Decoded(enc)
  {
    hide BlockAccepted, DecodedBlock, Accepted, Decoded, DecodedSize;
    if enc == "" {
      NothingEncoded();
      return true, [];
    }
    var fullBlocks, lastSize := |enc| / FULL_ENCODED_BLOCK, |enc| % FULL_ENCODED_BLOCK;
    if DecodedSize(lastSize) < 0 {
      BadLength(enc);
      return false, [];
    }
    data := [];
    assert enc[0..] == enc;
    for i := 0 to fullBlocks
      invariant Remaining(enc, i, data)
    {
      NextBlock(enc, i, data);
      var good, part := DecodeBlock(enc[FULL_ENCODED_BLOCK * i..FULL_ENCODED_BLOCK * i + FULL_ENCODED_BLOCK]);
      if !good {
        return false, [];
      }
      data := data + part;
    }
    var last := enc[FULL_ENCODED_BLOCK * fullBlocks..];
    LastBlock(last);
    if 0 < lastSize {
      var good, part := DecodeBlock(last);
      if !good {
        return false, [];
      }
      data := data + part;
    }
    return true, data;
  }

  /** What is still to be decoded after i blocks decides the whole. */
  ghost predicate Remaining(enc: string, i: nat, data: seq<uint8>)
    requires FULL_ENCODED_BLOCK * i <= |enc|
  {
    var rest := enc[FULL_ENCODED_BLOCK * i..];
    && (Accepted(enc) <==> Accepted(rest))
    && (Accepted(enc) ==> Decoded(enc) == data + Decoded(rest))
  }

  lemma NextBlock(enc: string, i: nat, data: seq<uint8>)
    requires FULL_ENCODED_BLOCK * (i + 1) <= |enc| && Remaining(enc, i, data)
    ensures var b := enc[FULL_ENCODED_BLOCK * i..FULL_ENCODED_BLOCK * i + FULL_ENCODED_BLOCK];
            && (Accepted(enc) ==> BlockAccepted(b))
            && (BlockAccepted(b) ==> Remaining(enc, i + 1, data + DecodedBlock(b)))
  {
    hide BlockAccepted, DecodedBlock;
    var rest := enc[FULL_ENCODED_BLOCK * i..];
    assert rest[..FULL_ENCODED_BLOCK] == enc[FULL_ENCODED_BLOCK * i..FULL_ENCODED_BLOCK * i + FULL_ENCODED_BLOCK];
    assert rest[FULL_ENCODED_BLOCK..] == enc[FULL_ENCODED_BLOCK * (i + 1)..];
    OneBlock(rest);
  }

  /** The definitions unfolded for a full block, whether or not something follows it. */
  lemma OneBlock(e: string)
    requires |e| >= FULL_ENCODED_BLOCK
    ensures Accepted(e) <==> BlockAccepted(e[..FULL_ENCODED_BLOCK]) && Accepted(e[FULL_ENCODED_BLOCK..])
    ensures Accepted(e) ==>
              Decoded(e) == DecodedBlock(e[..FULL_ENCODED_BLOCK]) + Decoded(e[FULL_ENCODED_BLOCK..])
  {
    hide BlockAccepted, DecodedBlock;
    if |e| == FULL_ENCODED_BLOCK {
      assert e[..FULL_ENCODED_BLOCK] == e;
    }
  }

  lemma NothingEncoded()
    ensures Accepted("") && Decoded("") == []
  {
  }

  lemma LastBlock(e: string)
    requires |e| < FULL_ENCODED_BLOCK
    ensures Accepted(e) <==> e == "" || BlockAccepted(e)
    ensures Accepted(e) ==> Decoded(e) == if e == "" then [] else DecodedBlock(e)
  {
    hide BlockAccepted, DecodedBlock;
  }

  lemma {:induction false} BadLength(e: string)
    requires DecodedSize(|e| % FULL_ENCODED_BLOCK) < 0
    ensures !Accepted(e)
    decreases |e|
  {
    hide DecodedSize, Accepted, Decoded, BlockAccepted;
    if |e| < FULL_ENCODED_BLOCK {
      LastBlock(e);
      SizesAreDistinct(0);
      NoSize(e);
    } else {
      BadLength(e[FULL_ENCODED_BLOCK..]);
      OneBlock(e);
    }
  }

  lemma NoSize(e: string)
    requires |e| <= FULL_ENCODED_BLOCK && DecodedSize(|e|) < 0
    ensures !BlockAccepted(e)
  {
  }
}
