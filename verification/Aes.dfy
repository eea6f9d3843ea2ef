/** Whole messages: header, initialisation vector, padding and chaining (src/crypto/oaes_lib.c; section 6.2 of
    NIST SP 800-38A). */
module Aes {
  import opened Wrappers
  import opened AesTables
  import opened AesBlock

  /** The return codes that can occur; null pointers are not modelled. */
  datatype Ret = Success | Arg2 | Arg3 | NoKey | Buf | Header

  const ECB: bv16 := 1
  const CBC: bv16 := 2
  const PAD: bv8 := 1

  /** An imported key and its expansion. */
  datatype Key = Key(data: seq<bv8>, exp: seq<bv8>, numKeys: nat) {
    ghost predicate Valid() {
      IsKey(exp, numKeys)
    }
  }

  // ---------------------------------------------------------------------------
  // Chaining
  // ---------------------------------------------------------------------------

  function XorBlocks(s: seq<bv8>, t: seq<bv8>): (r: seq<bv8>)
    requires |s| == |t| == BLOCK_SIZE
    ensures |r| == BLOCK_SIZE
  {
    seq(BLOCK_SIZE, i requires 0 <= i < BLOCK_SIZE => Xor(s[i], t[i]))
  }

  lemma XorBlocksInverse(s: seq<bv8>, t: seq<bv8>)
    requires |s| == |t| == BLOCK_SIZE
    ensures XorBlocks(XorBlocks(s, t), t) == s
  {
    hide Xor;
    forall i | 0 <= i < BLOCK_SIZE
      ensures XorBlocks(XorBlocks(s, t), t)[i] == s[i]
    {
      XorCancels(s[i], t[i]);
    }
  }

  /** One block, xored with the vector if chained. */
  function EncryptOne(key: Key, cbc: bool, iv: seq<bv8>, s: seq<bv8>): (t: seq<bv8>)
    requires key.Valid() && |iv| == |s| == BLOCK_SIZE
    ensures |t| == BLOCK_SIZE
  {
    Cipher(key.exp, key.numKeys, if cbc then XorBlocks(s, iv) else s)
  }

  function DecryptOne(key: Key, cbc: bool, iv: seq<bv8>, t: seq<bv8>): (s: seq<bv8>)
    requires key.Valid() && |iv| == |t| == BLOCK_SIZE
    ensures |s| == BLOCK_SIZE
  {
    var u := InvCipher(key.exp, key.numKeys, t);
    if cbc then XorBlocks(u, iv) else u
  }

  lemma OneInverse(key: Key, cbc: bool, iv: seq<bv8>, s: seq<bv8>)
    requires key.Valid() && |iv| == |s| == BLOCK_SIZE
    ensures DecryptOne(key, cbc, iv, EncryptOne(key, cbc, iv, s)) == s
  {
    hide Cipher, InvCipher, XorBlocks;
    CipherInverse(key.exp, key.numKeys, if cbc then XorBlocks(s, iv) else s);
    XorBlocksInverse(s, iv);
  }

  predicate Whole(s: seq<bv8>) {
    |s| % BLOCK_SIZE == 0
  }

  function EncryptAll(key: Key, cbc: bool, iv: seq<bv8>, m: seq<bv8>): (c: seq<bv8>)
    requires key.Valid() && |iv| == BLOCK_SIZE && Whole(m)
    ensures |c| == |m|
    decreases |m|
  {
    hide EncryptOne, Key.Valid;
    if m == [] then []
    else
      var t := EncryptOne(key, cbc, iv, m[..BLOCK_SIZE]);
      t + EncryptAll(key, cbc, if cbc then t else iv, m[BLOCK_SIZE..])
  }

  function DecryptAll(key: Key, cbc: bool, iv: seq<bv8>, c: seq<bv8>): (m: seq<bv8>)
    requires key.Valid() && |iv| == BLOCK_SIZE && Whole(c)
    ensures |m| == |c|
    decreases |c|
  {
    hide DecryptOne, Key.Valid;
    if c == [] then []
    else
      DecryptOne(key, cbc, iv, c[..BLOCK_SIZE]) +
      DecryptAll(key, cbc, if cbc then c[..BLOCK_SIZE] else iv, c[BLOCK_SIZE..])
  }

  lemma {:induction false} AllInverse(key: Key, cbc: bool, iv: seq<bv8>, m: seq<bv8>)
    requires key.Valid() && |iv| == BLOCK_SIZE && Whole(m)
    ensures DecryptAll(key, cbc, iv, EncryptAll(key, cbc, iv, m)) == m
    decreases |m|
  {
    hide EncryptOne, DecryptOne;
    if m != [] {
      var t := EncryptOne(key, cbc, iv, m[..BLOCK_SIZE]);
      var c := EncryptAll(key, cbc, iv, m);
      OneInverse(key, cbc, iv, m[..BLOCK_SIZE]);
      AllInverse(key, cbc, if cbc then t else iv, m[BLOCK_SIZE..]);
      assert c[..BLOCK_SIZE] == t && c[BLOCK_SIZE..] == EncryptAll(key, cbc, if cbc then t else iv, m[BLOCK_SIZE..]);
    }
  }

  /** Block j of whole blocks. */
  function BlockAt(m: seq<bv8>, j: nat): (b: seq<bv8>)
    requires BLOCK_SIZE * (j + 1) <= |m|
    ensures |b| == BLOCK_SIZE
  {
    m[BLOCK_SIZE * j..BLOCK_SIZE * (j + 1)]
  }

  /** Sections 6.1 and 6.2 of NIST SP 800-38A: every block is enciphered, when chained with the cipher text before it,
      or the vector, added to it first. */
  lemma {:induction false} ChainedBlock(key: Key, cbc: bool, iv: seq<bv8>, m: seq<bv8>, j: nat)
    requires key.Valid() && |iv| == BLOCK_SIZE && Whole(m) && BLOCK_SIZE * (j + 1) <= |m|
    ensures var c, s := EncryptAll(key, cbc, iv, m), BlockAt(m, j);
            var before := if j == 0 then iv else BlockAt(c, j - 1);
            BlockAt(c, j) == Cipher(key.exp, key.numKeys, if cbc then Sum(s, before) else s)
    decreases j
  {
    hide Cipher, XorBlocks, EncryptOne, Sum;
    var t, rest := EncryptOne(key, cbc, iv, m[..BLOCK_SIZE]), m[BLOCK_SIZE..];
    var iv' := if cbc then t else iv;
    var c' := EncryptAll(key, cbc, iv', rest);
    assert EncryptAll(key, cbc, iv, m) == t + c';
    EncipheredOne(key, cbc, iv, m[..BLOCK_SIZE]);
    BlockOfRest(t, c', j);
    BlockOfRest(m[..BLOCK_SIZE], rest, j);
    assert m == m[..BLOCK_SIZE] + rest;
    if j > 0 {
      BlockOfRest(t, c', j - 1);
      ChainedBlock(key, cbc, iv', rest, j - 1);
    }
  }

  lemma EncipheredOne(key: Key, cbc: bool, iv: seq<bv8>, s: seq<bv8>)
    requires key.Valid() && |iv| == |s| == BLOCK_SIZE
    ensures EncryptOne(key, cbc, iv, s) == Cipher(key.exp, key.numKeys, if cbc then Sum(s, iv) else s)
  {
    hide Cipher, XorBlocks, Sum;
    BlocksAdd(s, iv);
  }

  lemma BlockOfRest(t: seq<bv8>, rest: seq<bv8>, j: nat)
    requires |t| == BLOCK_SIZE && BLOCK_SIZE * j <= |rest|
    ensures j == 0 ==> BlockAt(t + rest, 0) == t
    ensures j > 0 ==> BlockAt(t + rest, j) == BlockAt(rest, j - 1)
  {
  }

  ghost function Sum(s: seq<bv8>, t: seq<bv8>): (r: seq<bv8>)
    requires |s| == |t| == BLOCK_SIZE
    ensures |r| == BLOCK_SIZE
  {
    seq(BLOCK_SIZE, i requires 0 <= i < BLOCK_SIZE => s[i] ^ t[i])
  }

  lemma BlocksAdd(s: seq<bv8>, t: seq<bv8>)
    requires |s| == |t| == BLOCK_SIZE
    ensures XorBlocks(s, t) == Sum(s, t)
  {
  }

  // ---------------------------------------------------------------------------
  // Padding
  // ---------------------------------------------------------------------------

  function PadLength(n: nat): (k: nat)
    ensures k < BLOCK_SIZE && (n + k) % BLOCK_SIZE == 0
  {
    if n % BLOCK_SIZE == 0 then 0 else BLOCK_SIZE - n % BLOCK_SIZE
  }

  /** 1, 2, 3, ... up to the length of the padding. */
  function Pad(k: nat): (p: seq<bv8>)
    requires k < BLOCK_SIZE
    ensures |p| == k
  {
    seq(k, j requires 0 <= j < k => (j + 1) as bv8)
  }

  function Padded(m: seq<bv8>): (p: seq<bv8>)
    ensures Whole(p)
  {
    m + Pad(PadLength(|m|))
  }

  /** What decrypting a text comes to; the code may also look in front of its buffer. */
  datatype Result = Plain(m: seq<bv8>) | Failed(code: Ret) | OutOfBounds

  /** The last byte tells how many to take off, and they must count up to it. */
  function Unpad(m: seq<bv8>): (r: Result)
    requires |m| >= BLOCK_SIZE
  {
    var t := m[|m| - 1] as int;
    if t == 0 || t > 0x0f then Failed(Header)
    else if forall j :: |m| - t <= j < |m| ==> m[j] as int == j - (|m| - t) + 1 then Plain(m[..|m| - t])
    else Failed(Header)
  }

  lemma UnpadPadded(m: seq<bv8>)
    requires PadLength(|m|) > 0
    ensures |Padded(m)| >= BLOCK_SIZE && Unpad(Padded(m)) == Plain(m)
  {
    var p := Padded(m);
    forall j | |m| <= j < |p|
      ensures p[j] as int == j - |m| + 1
    {
      PadByte(j - |m| + 1);
    }
    assert p[..|m|] == m;
  }

  /** m is p and t bytes that count up from one. */
  ghost predicate EndsInPad(m: seq<bv8>, p: seq<bv8>, t: nat) {
    1 <= t <= 15 && |m| == |p| + t && p <= m && forall j :: |p| <= j < |m| ==> m[j] as int == j - |p| + 1
  }

  /** What is taken off is a padding, and anything else fails. */
  lemma UnpadExactly(m: seq<bv8>, p: seq<bv8>)
    requires |m| >= BLOCK_SIZE
    ensures Unpad(m) == Plain(p) <==> exists t :: EndsInPad(m, p, t)
    ensures Unpad(m).Plain? || Unpad(m) == Failed(Header)
  {
    var t := m[|m| - 1] as int;
    if Unpad(m) == Plain(p) {
      assert EndsInPad(m, p, t);
    }
    if t' :| EndsInPad(m, p, t') {
      assert m[|m| - 1] as int == t';
      assert m[..|m| - t] == p;
    }
  }

  /** The padding counts up from one to the next whole block, which the message itself is if it can be. */
  lemma PaddedAt(m: seq<bv8>, i: nat)
    ensures |m| <= |Padded(m)| < |m| + BLOCK_SIZE && |Padded(m)| % BLOCK_SIZE == 0
    ensures i < |Padded(m)| ==> if i < |m| then Padded(m)[i] == m[i] else Padded(m)[i] as int == i - |m| + 1
  {
    if |m| <= i < |Padded(m)| {
      PadByte(i - |m| + 1);
    }
  }

  lemma PadByte(n: nat)
    requires n < BLOCK_SIZE
    ensures (n as bv8) as int == n
  {
    match n
    case 0 => case 1 => case 2 => case 3 => case 4 => case 5 => case 6 => case 7 =>
    case 8 => case 9 => case 10 => case 11 => case 12 => case 13 => case 14 => case _ =>
  }

  // ---------------------------------------------------------------------------
  // Messages
  // ---------------------------------------------------------------------------

  /** The sixteen bytes before the vector: a name, a version, a type, the options in two bytes, and the flags. */
  function HeaderOf(options: bv16, flags: bv8): (h: seq<bv8>)
    ensures |h| == BLOCK_SIZE
  {
    [0x4f, 0x41, 0x45, 0x53, 0x01, 0x02, (options & 0xff) as bv8, (options >> 8) as bv8, flags, 0, 0, 0, 0, 0, 0, 0]
  }

  datatype Mode = Mode(cbc: bool, padded: bool)

  /** The mode a header asks for, if it is valid. */
  function ReadHeader(c: seq<bv8>): (r: Option<Mode>)
    requires |c| >= BLOCK_SIZE
  {
    var options: bv16 := ((c[7] as bv16) << 8) | c[6] as bv16;
    if c[0] != 0x4f || c[1] != 0x41 || c[2] != 0x45 || c[3] != 0x53 then None
    else if c[4] != 0x01 || c[5] != 0x02 then None
    else if options & !(ECB | CBC) != 0 || (options & ECB != 0 && options & CBC != 0) || options == 0 then None
    else if c[8] & !PAD != 0 then None
    else Some(Mode(options & CBC != 0, c[8] & PAD != 0))
  }

  lemma HeaderIsRead(options: bv16, flags: bv8, rest: seq<bv8>)
    requires (options == ECB || options == CBC) && (flags == 0 || flags == PAD)
    ensures ReadHeader(HeaderOf(options, flags) + rest) == Some(Mode(options == CBC, flags == PAD))
  {
    var c := HeaderOf(options, flags) + rest;
    assert c[6] == (options & 0xff) as bv8 && c[7] == (options >> 8) as bv8 && c[8] == flags;
    assert c[0] == 0x4f && c[1] == 0x41 && c[2] == 0x45 && c[3] == 0x53 && c[4] == 0x01 && c[5] == 0x02;
  }

  /** And no other header is: the first nine bytes are those written for one of the two modes, padded or not. */
  lemma HeaderAcceptsExactly(c: seq<bv8>)
    requires |c| >= BLOCK_SIZE
    ensures ReadHeader(c).Some? <==>
            exists options, flags :: IsMode(options, flags) && c[..9] == HeaderOf(options, flags)[..9]
  {
    if ReadHeader(c).Some? {
      var options: bv16 := ((c[7] as bv16) << 8) | c[6] as bv16;
      OptionBytes(c[7], c[6]);
      assert options == ECB || options == CBC by { OptionIsMode(options); }
      assert c[8] == 0 || c[8] == PAD by { FlagIsPad(c[8]); }
      assert IsMode(options, c[8]) && c[..9] == HeaderOf(options, c[8])[..9];
    }
    if options, flags :| IsMode(options, flags) && c[..9] == HeaderOf(options, flags)[..9] {
      hide ReadHeader, HeaderOf;
      SameHeader(c, HeaderOf(options, flags));
      HeaderIsRead(options, flags, []);
      assert HeaderOf(options, flags) + [] == HeaderOf(options, flags);
    }
  }

  predicate IsMode(options: bv16, flags: bv8) {
    (options == ECB || options == CBC) && (flags == 0 || flags == PAD)
  }

  lemma SameHeader(c: seq<bv8>, h: seq<bv8>)
    requires |c| >= BLOCK_SIZE && |h| >= BLOCK_SIZE && c[..9] == h[..9]
    ensures ReadHeader(c) == ReadHeader(h)
  {
    assert forall i :: 0 <= i < 9 ==> c[i] == c[..9][i] == h[..9][i] == h[i];
  }

  lemma OptionBytes(hi: bv8, lo: bv8)
    ensures var options: bv16 := ((hi as bv16) << 8) | lo as bv16;
            (options & 0xff) as bv8 == lo && (options >> 8) as bv8 == hi
  {
  }

  lemma OptionIsMode(options: bv16)
    requires options & !(ECB | CBC) == 0 && !(options & ECB != 0 && options & CBC != 0) && options != 0
    ensures options == ECB || options == CBC
  {
  }

  lemma FlagIsPad(flags: bv8)
    requires flags & !PAD == 0
    ensures flags == 0 || flags == PAD
  {
  }

  function FlagsFor(n: nat): (flags: bv8) {
    if PadLength(n) > 0 then PAD else 0
  }

  function Encrypted(key: Key, options: bv16, iv: seq<bv8>, m: seq<bv8>): (c: seq<bv8>)
    requires key.Valid() && |iv| == BLOCK_SIZE
    ensures |c| == 2 * BLOCK_SIZE + |m| + PadLength(|m|)
  {
    HeaderOf(options, FlagsFor(|m|)) + iv + EncryptAll(key, options == CBC, iv, Padded(m))
  }

  /** Where everything is: the name, version and type, the options with the low byte first, the flag that tells a
      padding, zeros, the vector, and the data. */
  lemma Layout(key: Key, options: bv16, iv: seq<bv8>, m: seq<bv8>)
    requires key.Valid() && |iv| == BLOCK_SIZE
    ensures var c := Encrypted(key, options, iv, m);
            && (forall i :: 0 <= i < 4 ==> c[i] as int == "OAES"[i] as int)
            && c[4] == 1 && c[5] == 2 && (c[6] as bv16) | ((c[7] as bv16) << 8) == options
            && (c[8] as int == if |m| % BLOCK_SIZE == 0 then 0 else 1)
            && (forall i :: 9 <= i < 16 ==> c[i] == 0)
            && c[16..32] == iv && c[32..] == EncryptAll(key, options == CBC, iv, Padded(m))
  {
    hide EncryptAll, Key.Valid, Pad;
    var h, data := HeaderOf(options, FlagsFor(|m|)), EncryptAll(key, options == CBC, iv, Padded(m));
    var c := Encrypted(key, options, iv, m);
    assert forall i :: 0 <= i < 16 ==> c[i] == h[i];
    assert h[0] as int == 'O' as int && h[1] as int == 'A' as int && h[2] as int == 'E' as int &&
           h[3] as int == 'S' as int;
    SplitOptions(options);
  }

  lemma SplitOptions(options: bv16)
    ensures (((options & 0xff) as bv8) as bv16) | ((((options >> 8) as bv8) as bv16) << 8) == options
  {
  }

  /** The last byte of the data tells the length of the padding; if there is no data the byte in front of the buffer
      is read instead. */
  function Decrypted(key: Key, c: seq<bv8>): (r: Result)
    requires key.Valid() && Whole(c) && |c| >= 2 * BLOCK_SIZE
  {
    match ReadHeader(c)
    case None => Failed(Header)
    case Some(mode) =>
      var m := DecryptAll(key, mode.cbc, c[BLOCK_SIZE..2 * BLOCK_SIZE], c[2 * BLOCK_SIZE..]);
      if !mode.padded then Plain(m) else if m == [] then OutOfBounds else Unpad(m)
  }

  /** A padding is looked for in front of the buffer exactly if it is announced where there is no data. */
  lemma OutOfBoundsExactly(key: Key, c: seq<bv8>)
    requires key.Valid() && Whole(c) && |c| >= 2 * BLOCK_SIZE
    ensures Decrypted(key, c) == OutOfBounds <==>
            |c| == 2 * BLOCK_SIZE && ReadHeader(c).Some? && ReadHeader(c).value.padded
  {
    hide DecryptAll, ReadHeader, Key.Valid;
  }

  /** A header that announces padding, a vector and nothing else is such a text. */
  lemma HeaderAloneIsOutOfBounds(key: Key, options: bv16, iv: seq<bv8>)
    requires key.Valid() && |iv| == BLOCK_SIZE && (options == ECB || options == CBC)
    ensures var c := HeaderOf(options, PAD) + iv; Whole(c) && |c| == 2 * BLOCK_SIZE && Decrypted(key, c) == OutOfBounds
  {
    hide DecryptAll, ReadHeader, HeaderOf, Key.Valid, Decrypted;
    HeaderIsRead(options, PAD, iv);
    OutOfBoundsExactly(key, HeaderOf(options, PAD) + iv);
  }

  /** Decrypting gives back the message, whatever its length, the vector, the mode and the expanded key. */
  lemma RoundTrip(key: Key, options: bv16, iv: seq<bv8>, m: seq<bv8>)
    requires key.Valid() && |iv| == BLOCK_SIZE && (options == ECB || options == CBC)
    ensures Whole(Encrypted(key, options, iv, m)) && Decrypted(key, Encrypted(key, options, iv, m)) == Plain(m)
  {
    hide EncryptAll, DecryptAll, ReadHeader, HeaderOf, Unpad, Key.Valid, Pad;
    var flags, data := FlagsFor(|m|), EncryptAll(key, options == CBC, iv, Padded(m));
    var c := Encrypted(key, options, iv, m);
    HeaderIsRead(options, flags, iv + data);
    assert c == HeaderOf(options, flags) + (iv + data);
    assert c[BLOCK_SIZE..2 * BLOCK_SIZE] == iv && c[2 * BLOCK_SIZE..] == data;
    AllInverse(key, options == CBC, iv, Padded(m));
    if PadLength(|m|) > 0 {
      UnpadPadded(m);
    } else {
      assert Padded(m) == m;
    }
  }
}
