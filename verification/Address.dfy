/** Addresses: a varint tag, the data and four bytes of a hash of both, in base 58 (src/common/base58.cpp). */
module Address {
  import opened Words
  import Base58
  import Varint

  const CHECKSUM_SIZE: nat := 4

  /** Any hash that gives at least the four bytes used. */
  type Hash = h: seq<uint8> -> seq<uint8> | forall s :: |h(s)| >= CHECKSUM_SIZE witness (s => [0, 0, 0, 0])

  ghost function Payload(tag: nat, data: seq<uint8>): (s: seq<uint8>) {
    Varint.Encode(tag) + data
  }

  ghost function Sealed(hash: Hash, s: seq<uint8>): (t: seq<uint8>) {
    s + hash(s)[..CHECKSUM_SIZE]
  }

  method EncodeAddr(hash: Hash, tag: uint64, data: seq<uint8>) returns (addr: string)
    ensures addr == Base58.Encoded(Sealed(hash, Payload(tag, data)))
    ensures var body := Varint.Encode(tag) + data;
            Base58.Accepted(addr) && Base58.Decoded(addr) == body + hash(body)[..4]
  {
    hide Base58.Accepted, Base58.Decoded, Base58.Encoded, Varint.Encode;
    Base58.RoundTrip(Sealed(hash, Payload(tag, data)));
    var buf := Varint.WriteVarint(tag);
    buf := buf + data;
    buf := buf + hash(buf)[..CHECKSUM_SIZE];
    addr := Base58.Encode(buf);
  }

  method DecodeAddr(hash: Hash, addr: string) returns (ok: bool, tag: uint64, data: seq<uint8>)
    ensures ok <==> Opens(hash, addr)
    ensures ok ==> var r := Varint.Decode(Body(addr), 64, true); tag == r.value && data == Body(addr)[r.read..]
  {
    hide Base58.Accepted, Base58.Decoded, Varint.Decode, Pow2;
    tag, data := 0, [];
    var good, addrData := Base58.Decode(addr);
    if !good || |addrData| <= CHECKSUM_SIZE {
      return false, tag, data;
    }
    var checksum := addrData[|addrData| - CHECKSUM_SIZE..];
    addrData := addrData[..|addrData| - CHECKSUM_SIZE];
    if hash(addrData)[..CHECKSUM_SIZE] != checksum {
      return false, tag, data;
    }
    var read, value := Varint.ReadVarint(64, addrData);
    if read <= 0 {
      return false, tag, data;
    }
    Pow2OfWords();
    return true, value, addrData[read..];
  }

  /** What is left of an address when its checksum is taken off. */
  ghost function Body(addr: string): (s: seq<uint8>)
    requires Base58.Accepted(addr) && |Base58.Decoded(addr)| > CHECKSUM_SIZE
  {
    var all := Base58.Decoded(addr);
    all[..|all| - CHECKSUM_SIZE]
  }

  ghost predicate Opens(hash: Hash, addr: string) {
    && Base58.Accepted(addr)
    && |Base58.Decoded(addr)| > CHECKSUM_SIZE
    && Base58.Decoded(addr) == Sealed(hash, Body(addr))
    && Varint.Decode(Body(addr), 64, true).read > 0
  }

  /** Decoding the address of a tag and data accepts it and gives both back. */
  lemma RoundTrip(hash: Hash, tag: uint64, data: seq<uint8>)
    ensures var addr := Base58.Encoded(Sealed(hash, Payload(tag, data)));
            && Opens(hash, addr)
            && Varint.Decode(Body(addr), 64, true) == Varint.Reading(|Varint.Encode(tag)|, tag)
            && Body(addr)[|Varint.Encode(tag)|..] == data
  {
    hide Base58.Accepted, Base58.Decoded, Base58.Encoded, Varint.Decode, Varint.Encode, Pow2;
    var s := Payload(tag, data);
    var addr := Base58.Encoded(Sealed(hash, s));
    Base58.RoundTrip(Sealed(hash, s));
    Pow2OfWords();
    Varint.RoundTrip(tag, data, 64, true);
    assert Body(addr) == s;
  }

  /** Any bytes with four more are an address exactly if these are the first of the hash of all the bytes and a tag
      can be read. */
  lemma SealedExactly(hash: Hash, body: seq<uint8>, sum: seq<uint8>)
    requires body != [] && |sum| == 4
    ensures Opens(hash, Base58.Encoded(body + sum)) <==>
            hash(body)[..4] == sum && Varint.Decode(body, 64, true).read > 0
  {
    hide Base58.Accepted, Base58.Decoded, Base58.Encoded, Varint.Decode, Pow2;
    Base58.RoundTrip(body + sum);
    var addr, all := Base58.Encoded(body + sum), body + sum;
    assert Body(addr) == body && all[|body|..] == sum && Sealed(hash, body)[|body|..] == hash(body)[..4];
  }

  /** An accepted address is the one encoded for the tag and data it gives, if and only if some byte of its payload is
      below 80 hex. A payload whose every byte announces another is accepted too, and is the address of no tag. */
  lemma OpensExactly(hash: Hash, addr: string)
    requires Opens(hash, addr)
    ensures var body, r := Body(addr), Varint.Decode(Body(addr), 64, true);
            Varint.HasLastByte(body) <==>
            addr == Base58.Encoded(Sealed(hash, Payload(r.value, body[r.read..])))
  {
    hide Base58.Accepted, Base58.Decoded, Base58.Encoded, Varint.Decode, Varint.Encode, Pow2, Varint.HasLastByte,
         Varint.Terminated;
    var body, r := Body(addr), Varint.Decode(Body(addr), 64, true);
    Varint.Canonical(body, 64, true);
    Varint.TerminatedExactly(body, 64);
    Base58.Inverse(addr);
    if Varint.HasLastByte(body) {
      assert Payload(r.value, body[r.read..]) == body;
    } else {
      NoTag(hash, body, r.value, body[r.read..]);
    }
  }

  /** A payload whose every byte announces another is not written for any tag and data. */
  lemma NoTag(hash: Hash, body: seq<uint8>, tag: nat, data: seq<uint8>)
    requires forall k :: 0 <= k < |body| ==> body[k] >= 0x80
    ensures Base58.Encoded(Sealed(hash, body)) != Base58.Encoded(Sealed(hash, Payload(tag, data)))
  {
    hide Base58.Accepted, Base58.Decoded, Base58.Encoded, Varint.Encode;
    var s := Payload(tag, data);
    Base58.RoundTrip(Sealed(hash, body));
    Base58.RoundTrip(Sealed(hash, s));
    Varint.LastWritten(tag);
    var last := |Varint.Encode(tag)| - 1;
    assert s[last] < 0x80;
    assert Sealed(hash, s)[last] < 0x80;
  }

  /** The payload of the one byte 80 hex is accepted, and yields the address of no tag and data. */
  lemma UnterminatedIsAccepted(hash: Hash, tag: nat, data: seq<uint8>)
    ensures var addr := Base58.Encoded(Sealed(hash, [0x80]));
            Opens(hash, addr) && addr != Base58.Encoded(Sealed(hash, Payload(tag, data)))
  {
    hide Base58.Accepted, Base58.Decoded, Base58.Encoded, Varint.Encode, Varint.Decode, Pow2;
    Base58.RoundTrip(Sealed(hash, [0x80]));
    assert Body(Base58.Encoded(Sealed(hash, [0x80]))) == [0x80];
    OneByteRead();
    NoTag(hash, [0x80], tag, data);
  }

  lemma OneByteRead()
    ensures Varint.Decode([0x80], 64, true) == Varint.Reading(1, 0)
  {
    hide Varint.Decode, Pow2;
    Varint.OneByte([0x80], 64, true);
    Varint.NoByte(57, false);
    assert [0x80 as uint8][1..] == [];
  }
}
