/**
 * Conversion of an attribute payload into a raw buffer (conntrack/src/encoders.rs).
 * A payload is either a raw `Buffer`, passed through unchanged, or an
 * attribute, serialised through a `std::io::Cursor` over a zero-filled vector
 * sized to the attribute's unpadded size.
 */
module Encoders {
  import opened Netlink

  /** The two kinds of value that implement `IntoBuffer`. */
  datatype Payload = Raw(buf: seq<Byte>) | Nla(attr: Attr)

  /**
   * How far the attribute serialiser got: the whole wire form, or only its
   * first `written` bytes before it reported an error.
   */
  datatype SerOutcome = Completed | FailedAfter(written: nat)

  /** The bytes a payload stands for on the wire. */
  function PayloadBytes(e: Endian, p: Payload): seq<Byte>
  {
    match p
    case Raw(buf) => buf
    case Nla(a) => Encode(e, a)
  }

  /** The number of bytes of the wire form the serialiser writes before it stops. */
  function Written(e: Endian, a: Attr, outcome: SerOutcome): (k: nat)
    ensures k <= |Encode(e, a)|
    ensures outcome.Completed? ==> k == |Encode(e, a)|
  {
    match outcome
    case Completed => |Encode(e, a)|
    case FailedAfter(n) => if n < |Encode(e, a)| then n else |Encode(e, a)|
  }

  /** `v` with `bytes` written over it from position `at`, growing it where the write runs past its end. */
  function Overwrite(v: seq<Byte>, at: nat, bytes: seq<Byte>): (r: seq<Byte>)
    requires at <= |v|
    ensures |r| == if at + |bytes| <= |v| then |v| else at + |bytes|
    ensures r[..at] == v[..at] && r[at..at + |bytes|] == bytes
    ensures forall i :: at + |bytes| <= i < |v| ==> r[i] == v[i]
  {
    v[..at] + bytes + (if at + |bytes| < |v| then v[at + |bytes|..] else [])
  }

  /** `std::io::Cursor<Vec<u8>>`: a vector and a write position inside it. */
  class Cursor {
    var inner: seq<Byte>
    var pos: nat

    ghost predicate Valid()
      reads this
    {
      pos <= |inner|
    }

    constructor (v: seq<Byte>)
      ensures Valid() && inner == v && pos == 0
    {
      inner := v;
      pos := 0;
    }

    /** Writes byte by byte at the position, overwriting and then appending past the end. */
    method Write(bytes: seq<Byte>)
      requires Valid()
      modifies this
      ensures Valid()
      ensures pos == old(pos) + |bytes|
      ensures inner == Overwrite(old(inner), old(pos), bytes)
    {
      var i := 0;
      while i < |bytes|
        invariant 0 <= i <= |bytes|
        invariant pos == old(pos) + i && pos <= |inner|
        invariant inner == Overwrite(old(inner), old(pos), bytes[..i])
      {
        ghost var before := inner;
        if pos < |inner| {
          inner := inner[pos := bytes[i]];
        } else {
          inner := inner + [bytes[i]];
        }
        assert bytes[..i + 1] == bytes[..i] + [bytes[i]];
        assert inner == Overwrite(old(inner), old(pos), bytes[..i + 1]);
        pos := pos + 1;
        i := i + 1;
      }
      assert bytes[..i] == bytes;
    }
  }

  /**
   * `into_buffer`: a raw buffer is returned as it is; an attribute is written
   * from offset 0 into a zero-filled vector of its unpadded size, and whatever
   * the serialiser reports is discarded.
   */
  method IntoBuffer(e: Endian, p: Payload, outcome: SerOutcome) returns (r: seq<Byte>)
    ensures p.Raw? ==> r == p.buf
    ensures p.Nla? ==> |r| >= UnpaddedSize(p.attr)
    ensures p.Nla? ==>
      var k := Written(e, p.attr, outcome);
      |r| == (if k < UnpaddedSize(p.attr) then UnpaddedSize(p.attr) else k) &&
      r[..k] == Encode(e, p.attr)[..k] &&
      forall i :: k <= i < |r| ==> r[i] == 0
    ensures outcome.Completed? ==> r == PayloadBytes(e, p)
  {
    match p
    case Raw(buf) =>
      r := buf;
    case Nla(a) =>
      var cursor := new Cursor(Zeros(UnpaddedSize(a)));
      var k := Written(e, a, outcome);
      cursor.Write(Encode(e, a)[..k]);
      r := cursor.inner;
      if outcome.Completed? {
        assert Encode(e, a)[..k] == Encode(e, a);
      }
  }
}
