/** Variable-length integers, seven bits a byte, least significant first (src/common/varint.h). */
module Varint {
  import opened Words

  /** The one encoding of i. */
  function Encode(i: nat): (s: seq<uint8>)
    ensures |s| > 0
  {
    if i < 0x80 then [i as uint8] else [(0x80 + i % 0x80) as uint8] + Encode(i / 0x80)
  }

  method WriteVarint(i: nat) returns (dest: seq<uint8>)
    ensures dest == Encode(i)
  {
    dest := [];
    var j := i;
    while j >= 0x80
      invariant dest + Encode(j) == Encode(i)
    {
      SetTopBit(j % 0x80);
      dest := dest + [Or(j % 0x80, 0x80) as uint8];
      j := j / 0x80;
    }
    dest := dest + [j as uint8];
  }

  lemma SetTopBit(x: nat)
    requires x < 0x80
    ensures Or(x, 0x80) == 0x80 + x
  {
    assert Pow2(7) == 0x80;
    OrIsSum(x, 1, 7);
  }

  /** What read_varint returns: the number of bytes read, or -1 for an overflow and -2 for a superfluous zero byte;
      and the value gathered up to there. */
  datatype Reading = Reading(read: int, value: nat)

  /** Reading at a place with `room` bits left; `first` says that nothing has been read yet. */
  function Decode(s: seq<uint8>, room: nat, first: bool): (r: Reading)
    ensures -2 <= r.read <= |s|
  {
    if s == [] then Reading(0, 0)
    else if room <= 7 && s[0] as int >= Pow2(room) then Reading(-1, 0)
    else if s[0] == 0 && !first then Reading(-2, 0)
    else if s[0] < 0x80 then Reading(1, s[0] as int)
    else
      LastByte(room);
      var r := Decode(s[1..], room - 7, false);
      Reading(if r.read < 0 then r.read else r.read + 1, s[0] as int - 0x80 + 0x80 * r.value)
  }

  lemma LastByte(room: nat)
    ensures room <= 7 ==> Pow2(room) <= 0x80
    ensures Pow2(7) == 0x80
  {
    assert Pow2(7) == 0x80;
    if room <= 7 {
      Pow2Monotone(room, 7);
    }
  }

  /** Reading s from the start, once `read` bytes have given i, comes to reading the remaining bytes. */
  ghost predicate Continues(s: seq<uint8>, bits: nat, read: nat, i: nat)
    requires read <= |s| && 7 * read <= bits
  {
    var rest := Decode(s[read..], bits - 7 * read, read == 0);
    && i < Pow2(7 * read)
    && Decode(s, bits, true) ==
       Reading(if rest.read < 0 then rest.read else read + rest.read, i + Pow2(7 * read) * rest.value)
  }

  /** (byte & 0x7f) << shift */
  function Shifted(byte: nat, shift: nat): (r: nat) {
    byte % 0x80 * Pow2(shift)
  }

  method ReadVarint(bits: nat, s: seq<uint8>) returns (read: int, i: nat)
    ensures Reading(read, i) == Decode(s, bits, true)
    ensures i < Pow2(bits)
  {
    read, i := 0, 0;
    var shift := 0;
    StartsReading(s, bits);
    hide Pow2, Or, Decode, Continues, Shifted;
    while true
      invariant 0 <= read <= |s| && shift == 7 * read && shift <= bits
      invariant Continues(s, bits, read, i)
      decreases |s| - read
    {
      AtByte(s, bits, read, i);
      if read == |s| {
        return;
      }
      var byte := s[read] as int;
      read := read + 1;
      if shift + 7 >= bits && byte >= Pow2(bits - shift) {
        return -1, i;
      }
      if byte == 0 && shift != 0 {
        return -2, i;
      }
      i := Or(i, Shifted(byte, shift));
      if byte < 0x80 {
        return;
      }
      shift := shift + 7;
    }
  }

  lemma StartsReading(s: seq<uint8>, bits: nat)
    ensures Continues(s, bits, 0, 0)
  {
    assert s[0..] == s;
  }

  /** What each outcome at one byte makes of the whole reading. */
  lemma AtByte(s: seq<uint8>, bits: nat, read: nat, i: nat)
    requires read <= |s| && 7 * read <= bits && Continues(s, bits, read, i)
    ensures i < Pow2(bits)
    ensures read == |s| ==> Decode(s, bits, true) == Reading(read, i)
    ensures read < |s| ==>
              var byte, room := s[read] as int, bits - 7 * read;
              var j := Or(i, Shifted(byte, 7 * read));
              if room <= 7 && byte >= Pow2(room) then Decode(s, bits, true) == Reading(-1, i)
              else if byte == 0 && read != 0 then Decode(s, bits, true) == Reading(-2, i)
              else if byte < 0x80 then Decode(s, bits, true) == Reading(read + 1, j) && j < Pow2(bits)
              else room > 7 && Continues(s, bits, read + 1, j)
  {
    hide Decode, Pow2, Or, Shifted;
    Pow2Monotone(7 * read, bits);
    if read < |s| {
      OneByte(s[read..], bits - 7 * read, read == 0);
      if s[read] < 0x80 {
        if (bits - 7 * read <= 7 ==> (s[read] as int) < Pow2(bits - 7 * read)) && (s[read] != 0 || read == 0) {
          FinalByte(s, bits, read, i);
        }
      } else if bits - 7 * read > 7 {
        MoreBytes(s, bits, read, i);
      }
    } else {
      NoByte(bits - 7 * read, read == 0);
      assert s[read..] == [];
    }
  }

  lemma NoByte(room: nat, first: bool)
    ensures Decode([], room, first) == Reading(0, 0)
  {
  }

  /** The outcomes of Decode at a byte, with the size of the last byte made explicit. */
  lemma OneByte(t: seq<uint8>, room: nat, first: bool)
    requires t != []
    ensures room <= 7 && t[0] >= 0x80 ==> t[0] as int >= Pow2(room)
    ensures Decode(t, room, first) ==
            if room <= 7 && t[0] as int >= Pow2(room) then Reading(-1, 0)
            else if t[0] == 0 && !first then Reading(-2, 0)
            else if t[0] < 0x80 then Reading(1, t[0] as int)
            else
              var r := Decode(t[1..], room - 7, false);
              Reading(if r.read < 0 then r.read else r.read + 1, t[0] as int - 0x80 + 0x80 * r.value)
    ensures t[0] as int < Pow2(room) || room <= 7 || t[0] >= 0x80
  {
    LastByte(room);
    assert Pow2(7) == 0x80;
    if room > 7 {
      Pow2Monotone(7, room);
    }
  }

  lemma FinalByte(s: seq<uint8>, bits: nat, read: nat, i: nat)
    requires read < |s| && 7 * read <= bits && Continues(s, bits, read, i) && s[read] < 0x80
    requires bits - 7 * read <= 7 ==> (s[read] as int) < Pow2(bits - 7 * read)
    requires s[read] != 0 || read == 0
    ensures var j := Or(i, Shifted(s[read] as int, 7 * read));
            Decode(s, bits, true) == Reading(read + 1, j) && j < Pow2(bits)
  {
    hide Pow2, Or, Decode;
    var byte, room := s[read] as int, bits - 7 * read;
    OneByte(s[read..], room, read == 0);
    PutBits(i, byte, 7 * read, room);
  }

  lemma MoreBytes(s: seq<uint8>, bits: nat, read: nat, i: nat)
    requires read < |s| && bits - 7 * read > 7 && Continues(s, bits, read, i) && s[read] >= 0x80
    ensures Continues(s, bits, read + 1, Or(i, Shifted(s[read] as int, 7 * read)))
  {
    hide Pow2, Or, Decode;
    var byte, p := s[read] as int - 0x80, Pow2(7 * read);
    OneByte(s[read..], bits - 7 * read, read == 0);
    assert s[read..][1..] == s[read + 1..];
    var rest := Decode(s[read + 1..], bits - 7 * (read + 1), false);
    LastByte(7);
    PutBits(i, byte, 7 * read, 7);
    Pow2Adds(7, 7 * read);
    Regroup(i, p, byte, rest.value);
  }

  lemma PutBits(i: nat, x: nat, shift: nat, room: nat)
    requires i < Pow2(shift) && x < Pow2(room)
    ensures Or(i, x * Pow2(shift)) == i + Pow2(shift) * x < Pow2(shift + room)
  {
    hide Pow2, Or;
    OrIsSum(i, x, shift);
    Pow2Adds(shift, room);
    MulMonotone(Pow2(shift), x, Pow2(room) - 1);
  }

  lemma Regroup(i: int, p: int, x: int, v: int)
    ensures i + p * (x + 0x80 * v) == i + p * x + (0x80 * p) * v
  {
  }

  /** Reading undoes writing, whatever follows, for every value that fits in the number of bits asked for, and answers
      -1 for every value that does not. A value of zero may only stand at the first byte. */
  lemma {:induction false} RoundTrip(i: nat, t: seq<uint8>, bits: nat, first: bool)
    requires i != 0 || first
    ensures i < Pow2(bits) ==> Decode(Encode(i) + t, bits, first) == Reading(|Encode(i)|, i)
    ensures i >= Pow2(bits) ==> Decode(Encode(i) + t, bits, first).read == -1
  {
    var s := Encode(i) + t;
    OneByte(s, bits, first);
    LastByte(bits);
    SevenMore(bits, i);
    if i >= 0x80 && bits > 7 {
      assert s[1..] == Encode(i / 0x80) + t;
      RoundTrip(i / 0x80, t, bits - 7, false);
    }
  }

  lemma SevenMore(bits: nat, i: nat)
    ensures bits >= 7 ==> (i < Pow2(bits) <==> i / 0x80 < Pow2(bits - 7))
  {
    hide Pow2;
    LastByte(7);
    if bits >= 7 {
      Pow2Adds(7, bits - 7);
    }
  }

  /** A last byte with its top bit clear. */
  predicate Terminated(s: seq<uint8>, read: int) {
    0 < read <= |s| && s[read - 1] < 0x80
  }

  /** What is accepted and terminated is the one encoding of the value read, and that value fits; what is accepted and
      not terminated is the whole input, every byte announcing another. */
  lemma {:induction false} Canonical(s: seq<uint8>, bits: nat, first: bool)
    ensures var r := Decode(s, bits, first);
            if Terminated(s, r.read) then
              s[..r.read] == Encode(r.value) && r.value < Pow2(bits) && (r.value != 0 || first)
            else r.read >= 0 ==> r.read == |s| && forall k :: 0 <= k < |s| ==> s[k] >= 0x80
  {
    hide Pow2, Decode;
    if s == [] {
      NoByte(bits, first);
    } else {
      OneByte(s, bits, first);
      if s[0] >= 0x80 && bits > 7 {
        Canonical(s[1..], bits - 7, false);
        var r := Decode(s[1..], bits - 7, false);
        SevenMore(bits, s[0] as int - 0x80 + 0x80 * r.value);
        OneMoreByte(s, r.read);
      }
    }
  }

  /** Some byte announces no other. */
  predicate HasLastByte(s: seq<uint8>) {
    exists k :: 0 <= k < |s| && s[k] < 0x80
  }

  /** Whether an accepted reading is terminated can be told from the bytes alone. */
  lemma TerminatedExactly(s: seq<uint8>, bits: nat)
    requires Decode(s, bits, true).read > 0
    ensures Terminated(s, Decode(s, bits, true).read) <==> HasLastByte(s)
  {
    hide Decode, Pow2, Encode;
    Canonical(s, bits, true);
  }

  lemma OneMoreByte(s: seq<uint8>, read: int)
    requires s != [] && s[0] >= 0x80
    ensures 0 <= read < |s| ==> s[..read + 1] == [s[0]] + s[1..][..read]
    ensures read >= 0 ==> (Terminated(s[1..], read) <==> Terminated(s, read + 1))
    ensures (forall k :: 0 <= k < |s[1..]| ==> s[1..][k] >= 0x80) ==> forall k :: 0 <= k < |s| ==> s[k] >= 0x80
  {
    if forall k :: 0 <= k < |s[1..]| ==> s[1..][k] >= 0x80 {
      assert forall k :: 1 <= k < |s| ==> s[k] == s[1..][k - 1];
    }
  }

  /** Reading ends at a terminated encoding exactly when the input starts with what is written for some value that
      fits. */
  lemma AcceptsExactlyWritten(s: seq<uint8>, bits: nat)
    ensures Terminated(s, Decode(s, bits, true).read) <==> exists i :: 0 <= i < Pow2(bits) && Encode(i) <= s
  {
    hide Pow2, Decode, Encode;
    Canonical(s, bits, true);
    if i :| 0 <= i < Pow2(bits) && Encode(i) <= s {
      RoundTrip(i, s[|Encode(i)|..], bits, true);
      assert s == Encode(i) + s[|Encode(i)|..];
      LastWritten(i);
    }
  }

  lemma {:induction false} LastWritten(i: nat)
    ensures Terminated(Encode(i), |Encode(i)|)
  {
    if i >= 0x80 {
      LastWritten(i / 0x80);
    }
  }

  /** A value below 2^(7k) takes at most k bytes. */
  lemma {:induction false} EncodedLength(i: nat, k: nat)
    requires k > 0 && i < Pow2(7 * k)
    ensures |Encode(i)| <= k
    decreases k
  {
    LastByte(7);
    if i >= 0x80 {
      SevenMore(7 * k, i);
      if k > 1 {
        EncodedLength(i / 0x80, k - 1);
      }
    }
  }

  /** Byte k holds the seven bits of i from place 7k on, and in its top bit whether it is not the last. */
  lemma {:induction false} EncodedByte(i: nat, k: nat)
    requires k < |Encode(i)|
    ensures Encode(i)[k] as int == i / Pow2(7 * k) % 0x80 + if k == |Encode(i)| - 1 then 0 else 0x80
    ensures i / Pow2(7 * |Encode(i)|) == 0
    decreases i
  {
    LastByte(7);
    if i < 0x80 {
      assert Pow2(0) == 1;
    } else {
      var n := |Encode(i / 0x80)|;
      EncodedByte(i / 0x80, if k > 0 then k - 1 else 0);
      SevenBits(i, n);
      if k == 0 {
        assert Pow2(0) == 1;
      } else {
        SevenBits(i, k - 1);
      }
    }
  }

  lemma SevenBits(i: nat, k: nat)
    ensures i / 0x80 / Pow2(7 * k) == i / Pow2(7 * (k + 1))
  {
    hide Pow2;
    LastByte(7);
    Pow2Adds(7 * k, 7);
    DivDiv(i, 0x80, Pow2(7 * k));
  }

  /** No shorter encoding would hold the value. */
  lemma {:induction false} EncodedIsShortest(i: nat, k: nat)
    requires 0 < k < |Encode(i)|
    ensures i >= Pow2(7 * k)
    decreases k
  {
    LastByte(7);
    if k > 1 {
      EncodedIsShortest(i / 0x80, k - 1);
    }
    SevenMore(7 * k, i);
    if k == 1 {
      hide Pow2;
    }
  }
}
