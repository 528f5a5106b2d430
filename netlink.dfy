/**
 * The Linux netlink attribute (struct nlattr, linux/netlink.h) at the level of
 * bytes: a 4-byte header holding the 16-bit `nla_len` and the 16-bit
 * `nla_type`, then the payload, then zero padding to NLA_ALIGNTO.
 *
 * The attribute encoder, `nest` and the attribute parser live in the neli
 * crate, which is not part of this model; the functions here are the
 * specification the conntrack code relies on. Header fields are written in
 * host byte order, which is a parameter (`Endian`) rather than a guess.
 */
module Netlink {
  import opened Wrappers

  type Byte = b: int | 0 <= b < 0x100
  type U16 = x: int | 0 <= x < 0x1_0000
  type U32 = x: int | 0 <= x < 0x1_0000_0000

  /** Byte order of the host the request is built on. */
  datatype Endian = Little | Big

  const NLA_HDRLEN: nat := 4
  const NLA_F_NESTED: U16 := 0x8000
  const NLA_F_NET_BYTEORDER: U16 := 0x4000

  /** The low 14 bits of `nla_type`: the attribute's meaning in its scope. */
  type TypeCode = x: int | 0 <= x < 0x4000

  /** The `nla_type` field: a type code and the two flag bits. */
  datatype AttrType = AttrType(code: TypeCode, nested: bool, netOrder: bool)

  /** An attribute whose payload is already a byte buffer (neli's `Nlattr<T, Buffer>`). */
  datatype Attr = Attr(typ: AttrType, payload: seq<Byte>)

  function U16Value(e: Endian, b0: Byte, b1: Byte): U16
  {
    if e.Little? then b1 * 0x100 + b0 else b0 * 0x100 + b1
  }

  /** The two bytes of a u16 in the given byte order. */
  function U16Bytes(e: Endian, v: U16): (r: seq<Byte>)
    ensures |r| == 2 && U16Value(e, r[0], r[1]) == v
  {
    var lo, hi := v % 0x100, v / 0x100;
    if e.Little? then [lo, hi] else [hi, lo]
  }

  function U32Value(e: Endian, b: seq<Byte>): U32
    requires |b| == 4
  {
    var b0, b1, b2, b3: int := b[0], b[1], b[2], b[3];
    if e.Little? then ((b3 * 0x100 + b2) * 0x100 + b1) * 0x100 + b0
    else ((b0 * 0x100 + b1) * 0x100 + b2) * 0x100 + b3
  }

  /** The four bytes of a u32 in the given byte order (Rust's `to_ne_bytes`). */
  function U32Bytes(e: Endian, v: U32): (r: seq<Byte>)
    ensures |r| == 4 && U32Value(e, r) == v
  {
    var q1 := v / 0x100;
    var q2 := q1 / 0x100;
    var b0, b1, b2, b3 := v % 0x100, q1 % 0x100, q2 % 0x100, q2 / 0x100;
    if e.Little? then [b0, b1, b2, b3] else [b3, b2, b1, b0]
  }

  /** The `nla_type` field: code in bits 0-13, NLA_F_NET_BYTEORDER in bit 14, NLA_F_NESTED in bit 15. */
  function TypeField(t: AttrType): (f: U16)
    ensures f % 0x4000 == t.code
    ensures (f / 0x8000 == 1) == t.nested
    ensures (f / 0x4000 % 2 == 1) == t.netOrder
  {
    t.code + (if t.nested then NLA_F_NESTED else 0) + (if t.netOrder then NLA_F_NET_BYTEORDER else 0)
  }

  /** Reads an `nla_type` field back into its code and flags. */
  function TypeOf(f: U16): AttrType
  {
    AttrType(f % 0x4000, f / 0x8000 == 1, f / 0x4000 % 2 == 1)
  }

  /** A multiple of NLA_ALIGNTO, which is 4. */
  predicate Aligned(n: nat)
  {
    n % 4 == 0
  }

  /** NLA_ALIGN: round up to the next multiple of NLA_ALIGNTO (4). */
  function Align(n: nat): (m: nat)
    ensures Aligned(m) && n <= m < n + 4
  {
    (n + 3) / 4 * 4
  }

  /** Header plus payload, without alignment padding. */
  function UnpaddedSize(a: Attr): nat
  {
    NLA_HDRLEN + |a.payload|
  }

  /** The attribute's length fits the 16-bit `nla_len` field. */
  predicate Fits(a: Attr)
  {
    UnpaddedSize(a) < 0x1_0000
  }

  /** `nla_len` as stored: the unpadded size cast to u16. */
  function NlaLen(a: Attr): U16
  {
    UnpaddedSize(a) % 0x1_0000
  }

  function Zeros(n: nat): (z: seq<Byte>)
    ensures |z| == n && forall i :: 0 <= i < n ==> z[i] == 0
  {
    if n == 0 then [] else [0] + Zeros(n - 1)
  }

  /** The wire form of one attribute: header, payload, zero padding to the alignment. */
  function Encode(e: Endian, a: Attr): (r: seq<Byte>)
    ensures |r| == Align(UnpaddedSize(a))
  {
    var n := UnpaddedSize(a);
    U16Bytes(e, NlaLen(a)) + U16Bytes(e, TypeField(a.typ)) + a.payload + Zeros(Align(n) - n)
  }

  /**
   * Where each field sits in the wire form: `nla_len` (the unpadded size) in
   * bytes 0-1, `nla_type` in bytes 2-3, the payload from byte 4, then zeros.
   */
  lemma EncodeLayout(e: Endian, a: Attr)
    ensures var r := Encode(e, a);
      (Fits(a) ==> U16Value(e, r[0], r[1]) == UnpaddedSize(a)) &&
      TypeOf(U16Value(e, r[2], r[3])) == a.typ &&
      r[NLA_HDRLEN..UnpaddedSize(a)] == a.payload &&
      forall i :: UnpaddedSize(a) <= i < |r| ==> r[i] == 0
  {
    var r := Encode(e, a);
    var n := UnpaddedSize(a);
    assert r[NLA_HDRLEN..n] == a.payload;
    TypeFieldRoundTrip(a.typ);
  }

  /** The wire form of a sequence of sibling attributes. */
  function EncodeAll(e: Endian, attrs: seq<Attr>): seq<Byte>
  {
    if attrs == [] then [] else Encode(e, attrs[0]) + EncodeAll(e, attrs[1..])
  }

  /**
   * Reads sibling attributes until the buffer is used up, skipping the
   * padding after each one (the last one may lack it, as in the kernel's
   * nla_for_each_attr). None when a header or a payload runs past the end.
   * Padding bytes are discarded, not inspected.
   */
  function Parse(e: Endian, bytes: seq<Byte>): Option<seq<Attr>>
    decreases |bytes|
  {
    if |bytes| == 0 then Some([])
    else if |bytes| < NLA_HDRLEN then None
    else
      var len := U16Value(e, bytes[0], bytes[1]);
      if len < NLA_HDRLEN || |bytes| < len then None
      else
        var a := Attr(TypeOf(U16Value(e, bytes[2], bytes[3])), bytes[NLA_HDRLEN..len]);
        var next := if Align(len) <= |bytes| then Align(len) else |bytes|;
        match Parse(e, bytes[next..])
        case None => None
        case Some(rest) => Some([a] + rest)
  }

  lemma TypeFieldRoundTrip(t: AttrType)
    ensures TypeOf(TypeField(t)) == t
  {
  }

  /** Parsing one encoded attribute followed by anything gives that attribute first. */
  lemma ParseEncodeHead(e: Endian, a: Attr, rest: seq<Byte>)
    requires Fits(a)
    ensures Parse(e, Encode(e, a) + rest) ==
            match Parse(e, rest) case None => None case Some(xs) => Some([a] + xs)
  {
    var enc := Encode(e, a);
    EncodeLayout(e, a);
    var b := enc + rest;
    var n := UnpaddedSize(a);
    assert b[0] == enc[0] && b[1] == enc[1] && b[2] == enc[2] && b[3] == enc[3];
    assert b[NLA_HDRLEN..n] == enc[NLA_HDRLEN..n];
    assert b[|enc|..] == rest;
  }

  /** Decoding inverts encoding for every sequence of attributes that fit. */
  lemma {:induction false} ParseEncodeAll(e: Endian, attrs: seq<Attr>)
    requires forall i :: 0 <= i < |attrs| ==> Fits(attrs[i])
    ensures Parse(e, EncodeAll(e, attrs)) == Some(attrs)
  {
    if attrs != [] {
      ParseEncodeAll(e, attrs[1..]);
      ParseEncodeHead(e, attrs[0], EncodeAll(e, attrs[1..]));
      assert [attrs[0]] + attrs[1..] == attrs;
    }
  }

  /** A single encoded attribute decodes to exactly itself. */
  lemma ParseEncodeOne(e: Endian, a: Attr)
    requires Fits(a)
    ensures Parse(e, Encode(e, a)) == Some([a])
  {
    ParseEncodeHead(e, a, []);
    assert Encode(e, a) + [] == Encode(e, a);
    assert Parse(e, []) == Some([]);
    assert [a] + [] == [a];
  }

  /** Within an aligned buffer, an attribute that fits also fits with its padding. */
  lemma AlignWithin(len: nat, n: nat)
    requires len <= n && Aligned(n)
    ensures Align(len) <= n
  {
  }

  lemma ConsAppend<T>(h: T, a: seq<T>, b: seq<T>)
    ensures [h] + (a + b) == ([h] + a) + b
  {
  }

  lemma AlignedDifference(n: nat, m: nat)
    requires m <= n && Aligned(n) && Aligned(m)
    ensures Aligned(n - m)
  {
    assert n == n / 4 * 4 && m == m / 4 * 4;
    assert n - m == (n / 4 - m / 4) * 4;
  }

  /** One step of Parse on a buffer whose first attribute is followed by its full padding. */
  lemma ParseStep(e: Endian, b: seq<Byte>, len: nat)
    requires NLA_HDRLEN <= len <= |b| && len == U16Value(e, b[0], b[1]) && Align(len) <= |b|
    ensures Parse(e, b) ==
            match Parse(e, b[Align(len)..])
            case None => None
            case Some(rest) => Some([Attr(TypeOf(U16Value(e, b[2], b[3])), b[NLA_HDRLEN..len])] + rest)
  {
  }

  /** The first step of Parse over `p + q` reads the same attribute as over `p` and continues into `q`. */
  lemma ParseStepAppend(e: Endian, p: seq<Byte>, q: seq<Byte>, len: nat)
    requires NLA_HDRLEN <= len <= |p| && len == U16Value(e, p[0], p[1]) && Align(len) <= |p|
    ensures Parse(e, p + q) ==
            match Parse(e, p[Align(len)..] + q)
            case None => None
            case Some(rest) => Some([Attr(TypeOf(U16Value(e, p[2], p[3])), p[NLA_HDRLEN..len])] + rest)
  {
    var b := p + q;
    assert b[0] == p[0] && b[1] == p[1] && b[2] == p[2] && b[3] == p[3];
    assert b[NLA_HDRLEN..len] == p[NLA_HDRLEN..len];
    assert b[Align(len)..] == p[Align(len)..] + q;
    ParseStep(e, b, len);
  }

  /** Two aligned, well-formed attribute streams decode to the concatenation of their attributes. */
  lemma {:induction false} ParseAppend(e: Endian, p: seq<Byte>, q: seq<Byte>, xs: seq<Attr>, ys: seq<Attr>)
    requires Aligned(|p|)
    requires Parse(e, p) == Some(xs) && Parse(e, q) == Some(ys)
    ensures Parse(e, p + q) == Some(xs + ys)
    decreases |p|
  {
    if |p| == 0 {
      assert xs == [];
      assert p + q == q && xs + ys == ys;
    } else {
      var len := U16Value(e, p[0], p[1]);
      AlignWithin(len, |p|);
      AlignedDifference(|p|, Align(len));
      var tail := p[Align(len)..];
      ParseStep(e, p, len);
      var rest := Parse(e, tail).value;
      ParseAppend(e, tail, q, rest, ys);
      ParseStepAppend(e, p, q, len);
      ConsAppend(xs[0], rest, ys);
    }
  }

  /**
   * neli's `nest`: appends the child's full wire form (with its padding) to
   * the parent's payload, keeping the parent's type and flags.
   */
  function Nest(e: Endian, parent: Attr, child: Attr): (r: Attr)
    ensures r.typ == parent.typ
    ensures UnpaddedSize(r) == UnpaddedSize(parent) + Align(UnpaddedSize(child))
  {
    Attr(parent.typ, parent.payload + Encode(e, child))
  }

  /** Nesting adds the child as the last sibling inside the parent, after the ones already there. */
  lemma NestAppendsChild(e: Endian, parent: Attr, child: Attr, kids: seq<Attr>)
    requires Aligned(|parent.payload|) && Parse(e, parent.payload) == Some(kids)
    requires Fits(child)
    ensures Parse(e, Nest(e, parent, child).payload) == Some(kids + [child])
  {
    ParseEncodeOne(e, child);
    ParseAppend(e, parent.payload, Encode(e, child), kids, [child]);
  }
}
