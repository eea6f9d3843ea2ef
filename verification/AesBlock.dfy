/** The block cipher of src/crypto/oaes_lib.c (FIPS 197, sections 5.1 and 5.3) and its inverse, under any expanded
    key. */
module AesBlock {
  import opened Wrappers
  import opened AesTables

  const BLOCK_SIZE: nat := 16

  // ---------------------------------------------------------------------------
  // The four transformations and their inverses
  // ---------------------------------------------------------------------------

  function SubBytes(s: seq<bv8>): (t: seq<bv8>)
    ensures |t| == |s|
  {
    seq(|s|, i requires 0 <= i < |s| => SubByte(s[i]))
  }

  function InvSubBytes(s: seq<bv8>): (t: seq<bv8>)
    ensures |t| == |s|
  {
    seq(|s|, i requires 0 <= i < |s| => InvSubByte(s[i]))
  }

  lemma SubBytesInverse(s: seq<bv8>)
    ensures InvSubBytes(SubBytes(s)) == s
  {
    hide SubByte, InvSubByte;
    forall i | 0 <= i < |s|
      ensures InvSubBytes(SubBytes(s))[i] == s[i]
    {
      SubByteInverse(s[i]);
    }
  }

  function ShiftRows(s: seq<bv8>): (t: seq<bv8>)
    requires |s| == BLOCK_SIZE
    ensures |t| == BLOCK_SIZE
  {
    [s[0x0], s[0x5], s[0xa], s[0xf], s[0x4], s[0x9], s[0xe], s[0x3],
     s[0x8], s[0xd], s[0x2], s[0x7], s[0xc], s[0x1], s[0x6], s[0xb]]
  }

  function InvShiftRows(s: seq<bv8>): (t: seq<bv8>)
    requires |s| == BLOCK_SIZE
    ensures |t| == BLOCK_SIZE
  {
    [s[0x0], s[0xd], s[0xa], s[0x7], s[0x4], s[0x1], s[0xe], s[0xb],
     s[0x8], s[0x5], s[0x2], s[0xf], s[0xc], s[0x9], s[0x6], s[0x3]]
  }

  lemma ShiftRowsInverse(s: seq<bv8>)
    requires |s| == BLOCK_SIZE
    ensures InvShiftRows(ShiftRows(s)) == s
  {
  }

  function ColumnAt(s: seq<bv8>, i: nat): (w: Column)
    requires i + 4 <= |s|
  {
    Column(s[i], s[i + 1], s[i + 2], s[i + 3])
  }

  function Flat(w: Column): (s: seq<bv8>)
    ensures |s| == 4
  {
    [w.a, w.b, w.c, w.d]
  }

  function MixColumns(s: seq<bv8>): (t: seq<bv8>)
    requires |s| == BLOCK_SIZE
    ensures |t| == BLOCK_SIZE
  {
    Flat(MixColumn(ColumnAt(s, 0))) + Flat(MixColumn(ColumnAt(s, 4))) +
    Flat(MixColumn(ColumnAt(s, 8))) + Flat(MixColumn(ColumnAt(s, 12)))
  }

  function InvMixColumns(s: seq<bv8>): (t: seq<bv8>)
    requires |s| == BLOCK_SIZE
    ensures |t| == BLOCK_SIZE
  {
    Flat(InvMixColumn(ColumnAt(s, 0))) + Flat(InvMixColumn(ColumnAt(s, 4))) +
    Flat(InvMixColumn(ColumnAt(s, 8))) + Flat(InvMixColumn(ColumnAt(s, 12)))
  }

  lemma MixColumnsInverse(s: seq<bv8>)
    requires |s| == BLOCK_SIZE
    ensures InvMixColumns(MixColumns(s)) == s
  {
    hide MixColumn, InvMixColumn;
    MixedColumn(s);
    MixColumnInverse(ColumnAt(s, 0));
    MixColumnInverse(ColumnAt(s, 4));
    MixColumnInverse(ColumnAt(s, 8));
    MixColumnInverse(ColumnAt(s, 12));
  }

  lemma MixedColumn(s: seq<bv8>)
    requires |s| == BLOCK_SIZE
    ensures ColumnAt(MixColumns(s), 0) == MixColumn(ColumnAt(s, 0))
    ensures ColumnAt(MixColumns(s), 4) == MixColumn(ColumnAt(s, 4))
    ensures ColumnAt(MixColumns(s), 8) == MixColumn(ColumnAt(s, 8))
    ensures ColumnAt(MixColumns(s), 12) == MixColumn(ColumnAt(s, 12))
  {
    hide MixColumn;
  }

  /** The bytes of one round key. */
  function AddKey(s: seq<bv8>, key: seq<bv8>, round: nat): (t: seq<bv8>)
    requires |s| == BLOCK_SIZE && BLOCK_SIZE * (round + 1) <= |key|
    ensures |t| == BLOCK_SIZE
  {
    seq(BLOCK_SIZE, i requires 0 <= i < BLOCK_SIZE => Xor(s[i], key[BLOCK_SIZE * round + i]))
  }

  lemma AddKeyInverse(s: seq<bv8>, key: seq<bv8>, round: nat)
    requires |s| == BLOCK_SIZE && BLOCK_SIZE * (round + 1) <= |key|
    ensures AddKey(AddKey(s, key, round), key, round) == s
  {
    hide Xor;
    forall i | 0 <= i < BLOCK_SIZE
      ensures AddKey(AddKey(s, key, round), key, round)[i] == s[i]
    {
      XorCancels(s[i], key[BLOCK_SIZE * round + i]);
    }
  }

  // ---------------------------------------------------------------------------
  // The cipher
  // ---------------------------------------------------------------------------

  /** The state after round k. */
  function Rounds(key: seq<bv8>, k: nat, s: seq<bv8>): (t: seq<bv8>)
    requires |s| == BLOCK_SIZE && BLOCK_SIZE * (k + 1) <= |key|
    ensures |t| == BLOCK_SIZE
    decreases k
  {
    if k == 0 then AddKey(s, key, 0)
    else AddKey(MixColumns(ShiftRows(SubBytes(Rounds(key, k - 1, s)))), key, k)
  }

  /** An expanded key holds at least two round keys. */
  predicate IsKey(key: seq<bv8>, numKeys: nat) {
    numKeys >= 2 && |key| == BLOCK_SIZE * numKeys
  }

  function Cipher(key: seq<bv8>, numKeys: nat, s: seq<bv8>): (t: seq<bv8>)
    requires |s| == BLOCK_SIZE && IsKey(key, numKeys)
    ensures |t| == BLOCK_SIZE
  {
    AddKey(ShiftRows(SubBytes(Rounds(key, numKeys - 2, s))), key, numKeys - 1)
  }

  /** What is left to undo before round k. */
  function InvRounds(key: seq<bv8>, k: nat, s: seq<bv8>): (t: seq<bv8>)
    requires |s| == BLOCK_SIZE && BLOCK_SIZE * (k + 1) <= |key|
    ensures |t| == BLOCK_SIZE
    decreases k
  {
    var u := AddKey(InvSubBytes(InvShiftRows(s)), key, k);
    if k == 0 then u else InvRounds(key, k - 1, InvMixColumns(u))
  }

  function InvCipher(key: seq<bv8>, numKeys: nat, s: seq<bv8>): (t: seq<bv8>)
    requires |s| == BLOCK_SIZE && IsKey(key, numKeys)
    ensures |t| == BLOCK_SIZE
  {
    InvRounds(key, numKeys - 2, AddKey(s, key, numKeys - 1))
  }

  lemma {:induction false} RoundsInverse(key: seq<bv8>, k: nat, s: seq<bv8>)
    requires |s| == BLOCK_SIZE && BLOCK_SIZE * (k + 1) <= |key|
    ensures InvRounds(key, k, ShiftRows(SubBytes(Rounds(key, k, s)))) == s
    decreases k
  {
    hide SubBytes, InvSubBytes, ShiftRows, InvShiftRows, MixColumns, InvMixColumns, AddKey;
    var r := Rounds(key, k, s);
    ShiftRowsInverse(SubBytes(r));
    SubBytesInverse(r);
    if k == 0 {
      AddKeyInverse(s, key, 0);
    } else {
      var below := ShiftRows(SubBytes(Rounds(key, k - 1, s)));
      AddKeyInverse(MixColumns(below), key, k);
      MixColumnsInverse(below);
      RoundsInverse(key, k - 1, s);
    }
  }

  /** Decryption of a block undoes its encryption, under any expanded key of any number of rounds. */
  lemma CipherInverse(key: seq<bv8>, numKeys: nat, s: seq<bv8>)
    requires |s| == BLOCK_SIZE && IsKey(key, numKeys)
    ensures InvCipher(key, numKeys, Cipher(key, numKeys, s)) == s
  {
    hide SubBytes, ShiftRows, AddKey, Rounds, InvRounds;
    AddKeyInverse(ShiftRows(SubBytes(Rounds(key, numKeys - 2, s))), key, numKeys - 1);
    RoundsInverse(key, numKeys - 2, s);
  }

  // ---------------------------------------------------------------------------
  // The cipher byte by byte: row r of column c is byte 4c + r
  // ---------------------------------------------------------------------------

  /** Row r is shifted by r columns (section 5.1.2 of FIPS 197), and back (section 5.3.1). */
  lemma ShiftRowsAt(s: seq<bv8>, c: nat, r: nat)
    requires |s| == BLOCK_SIZE && c < 4 && r < 4
    ensures ShiftRows(s)[4 * c + r] == s[4 * ((c + r) % 4) + r]
    ensures InvShiftRows(s)[4 * ((c + r) % 4) + r] == s[4 * c + r]
  {
    match c {
      case 0 => match r { case 0 => case 1 => case 2 => case _ => }
      case 1 => match r { case 0 => case 1 => case 2 => case _ => }
      case 2 => match r { case 0 => case 1 => case 2 => case _ => }
      case _ => match r { case 0 => case 1 => case 2 => case _ => }
    }
  }

  lemma MixColumnsAt(s: seq<bv8>, c: nat, r: nat)
    requires |s| == BLOCK_SIZE && c < 4 && r < 4
    ensures MixColumns(s)[4 * c + r] ==
            Xor(Xor(Product(2, s[4 * c + r]), Product(3, s[4 * c + (r + 1) % 4])),
                Xor(s[4 * c + (r + 2) % 4], s[4 * c + (r + 3) % 4]))
  {
    hide Xor, Product, MixColumn, MixColumns, ColumnAt, Column.At;
    MixedColumn(s);
    ByteOfColumn(MixColumns(s), 4 * c, r);
    MixColumnAt(ColumnAt(s, 4 * c), r);
    ByteOfColumn(s, 4 * c, r);
    ByteOfColumn(s, 4 * c, r + 1);
    ByteOfColumn(s, 4 * c, r + 2);
    ByteOfColumn(s, 4 * c, r + 3);
  }

  lemma ByteOfColumn(s: seq<bv8>, i: nat, r: nat)
    requires i + 4 <= |s|
    ensures ColumnAt(s, i).At(r) == s[i + r % 4]
  {
  }

  /** What a round makes of row r of column c of the state, before the mixing of columns. */
  function Shifted(s: seq<bv8>, c: nat, r: nat): (b: bv8)
    requires |s| == BLOCK_SIZE && c < 4 && r < 4
  {
    SubByte(s[4 * ((c + r) % 4) + r])
  }

  lemma ShiftedAt(s: seq<bv8>, c: nat, r: nat)
    requires |s| == BLOCK_SIZE && c < 4 && r < 4
    ensures ShiftRows(SubBytes(s))[4 * c + r] == Shifted(s, c, r)
  {
    hide SubByte, ShiftRows;
    ShiftRowsAt(SubBytes(s), c, r);
  }

  /** Section 5.1 of FIPS 197 for a byte of the state: the key alone before the first round; */
  lemma StartByte(key: seq<bv8>, s: seq<bv8>, i: nat)
    requires |s| == BLOCK_SIZE <= |key| && i < BLOCK_SIZE
    ensures Rounds(key, 0, s)[i] == Xor(s[i], key[i])
  {
    hide Xor;
  }

  /** in every round but the last, bytes substituted and shifted, mixed, and the key of the round added; */
  lemma RoundByte(key: seq<bv8>, k: nat, s: seq<bv8>, c: nat, r: nat)
    requires |s| == BLOCK_SIZE && 0 < k && BLOCK_SIZE * (k + 1) <= |key| && c < 4 && r < 4
    ensures var p := Rounds(key, k - 1, s);
            Rounds(key, k, s)[4 * c + r] ==
            Xor(Xor(Xor(Product(2, Shifted(p, c, r)), Product(3, Shifted(p, c, (r + 1) % 4))),
                    Xor(Shifted(p, c, (r + 2) % 4), Shifted(p, c, (r + 3) % 4))),
                key[BLOCK_SIZE * k + 4 * c + r])
  {
    hide Xor, Product, SubByte, SubBytes, ShiftRows, MixColumns, Shifted;
    var p := Rounds(key, k - 1, s);
    MixColumnsAt(ShiftRows(SubBytes(p)), c, r);
    ShiftedAt(p, c, r);
    ShiftedAt(p, c, (r + 1) % 4);
    ShiftedAt(p, c, (r + 2) % 4);
    ShiftedAt(p, c, (r + 3) % 4);
  }

  /** and no mixing in the last. */
  lemma LastByte(key: seq<bv8>, numKeys: nat, s: seq<bv8>, c: nat, r: nat)
    requires |s| == BLOCK_SIZE && IsKey(key, numKeys) && c < 4 && r < 4
    ensures Cipher(key, numKeys, s)[4 * c + r] ==
            Xor(Shifted(Rounds(key, numKeys - 2, s), c, r), key[BLOCK_SIZE * (numKeys - 1) + 4 * c + r])
  {
    hide Xor, SubByte, SubBytes, ShiftRows, Shifted, Rounds;
    ShiftedAt(Rounds(key, numKeys - 2, s), c, r);
  }

  // ---------------------------------------------------------------------------
  // The loops, in place
  // ---------------------------------------------------------------------------

  method AddKeyInPlace(c: array<bv8>, key: seq<bv8>, round: nat)
    requires c.Length == BLOCK_SIZE && BLOCK_SIZE * (round + 1) <= |key|
    modifies c
    ensures c[..] == AddKey(old(c[..]), key, round)
  {
    hide Xor;
    for i := 0 to BLOCK_SIZE
      invariant forall j :: 0 <= j < i ==> c[j] == Xor(old(c[j]), key[BLOCK_SIZE * round + j])
      invariant forall j :: i <= j < BLOCK_SIZE ==> c[j] == old(c[j])
    {
      c[i] := Xor(c[i], key[BLOCK_SIZE * round + i]);
    }
  }

  method SubBytesInPlace(c: array<bv8>)
    modifies c
    ensures c[..] == SubBytes(old(c[..]))
  {
    hide SubByte;
    for i := 0 to c.Length
      invariant forall j :: 0 <= j < i ==> c[j] == SubByte(old(c[j]))
      invariant forall j :: i <= j < c.Length ==> c[j] == old(c[j])
    {
      c[i] := SubByte(c[i]);
    }
  }

  method InvSubBytesInPlace(c: array<bv8>)
    modifies c
    ensures c[..] == InvSubBytes(old(c[..]))
  {
    hide InvSubByte;
    for i := 0 to c.Length
      invariant forall j :: 0 <= j < i ==> c[j] == InvSubByte(old(c[j]))
      invariant forall j :: i <= j < c.Length ==> c[j] == old(c[j])
    {
      c[i] := InvSubByte(c[i]);
    }
  }

  method EncryptBlock(key: seq<bv8>, numKeys: nat, c: array<bv8>)
    requires c.Length == BLOCK_SIZE && IsKey(key, numKeys)
    modifies c
    ensures c[..] == Cipher(key, numKeys, old(c[..]))
  {
    hide SubBytes, ShiftRows, MixColumns, AddKey;
    ghost var s := c[..];
    AddKeyInPlace(c, key, 0);
    for i := 1 to numKeys - 1
      invariant c[..] == Rounds(key, i - 1, s)
    {
      SubBytesInPlace(c);
      Store(c, ShiftRows(c[..]));
      Store(c, MixColumns(c[..]));
      AddKeyInPlace(c, key, i);
    }
    SubBytesInPlace(c);
    Store(c, ShiftRows(c[..]));
    AddKeyInPlace(c, key, numKeys - 1);
  }

  method DecryptBlock(key: seq<bv8>, numKeys: nat, c: array<bv8>)
    requires c.Length == BLOCK_SIZE && IsKey(key, numKeys)
    modifies c
    ensures c[..] == InvCipher(key, numKeys, old(c[..]))
  {
    hide InvSubBytes, InvShiftRows, InvMixColumns, AddKey;
    ghost var s := c[..];
    AddKeyInPlace(c, key, numKeys - 1);
    for i := numKeys - 2 downto 0
      invariant InvRounds(key, i, c[..]) == InvCipher(key, numKeys, s)
    {
      Store(c, InvShiftRows(c[..]));
      InvSubBytesInPlace(c);
      AddKeyInPlace(c, key, i + 1);
      Store(c, InvMixColumns(c[..]));
    }
    Store(c, InvShiftRows(c[..]));
    InvSubBytesInPlace(c);
    AddKeyInPlace(c, key, 0);
  }
}
