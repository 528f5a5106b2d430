/**
 * The conntrack table operations (conntrack/src/connection.rs): building the
 * delete-by-tuple request as a nested netlink attribute tree, and collecting
 * the flows of a table dump from the responses the socket delivers.
 *
 * The socket itself is not modelled: the dump receives its responses as a
 * sequence, and the delete yields the request it would send.
 */
module Connection {
  import opened Wrappers
  import opened Netlink
  import opened Encoders

  // ---------------------------------------------------------------------------
  // Attribute types. Numeric codes are those of linux/netfilter/nfnetlink_conntrack.h.

  /** Top-level conntrack attributes used here. */
  datatype ConntrackAttr = CtaTupleOrig | CtaTupleReply
  {
    function Code(): TypeCode
    {
      match this
      case CtaTupleOrig => 1
      case CtaTupleReply => 2
    }
  }

  /** Attributes nested in a tuple. */
  datatype TupleAttr = CtaTupleIp | CtaTupleProto
  {
    function Code(): TypeCode
    {
      match this
      case CtaTupleIp => 1
      case CtaTupleProto => 2
    }
  }

  /** Address attributes nested in CTA_TUPLE_IP. */
  datatype IpTupleAttr = CtaIpv4Src | CtaIpv4Dst | CtaIpv6Src | CtaIpv6Dst
  {
    function Code(): TypeCode
    {
      match this
      case CtaIpv4Src => 1
      case CtaIpv4Dst => 2
      case CtaIpv6Src => 3
      case CtaIpv6Dst => 4
    }

    predicate IsV4()
    {
      CtaIpv4Src? || CtaIpv4Dst?
    }

    predicate IsSource()
    {
      CtaIpv4Src? || CtaIpv6Src?
    }
  }

  /** Attributes nested in CTA_TUPLE_PROTO. */
  datatype ProtoTupleAttr = CtaProtoNum
  {
    function Code(): TypeCode
    {
      1
    }
  }

  type Ipv4Octets = s: seq<Byte> | |s| == 4 witness [0, 0, 0, 0]
  type Ipv6Octets = s: seq<Byte> | |s| == 16 witness [0, 0, 0, 0, 0, 0, 0, 0, 0, 0, 0, 0, 0, 0, 0, 0]

  /** `std::net::IpAddr`, by its octets in network byte order. */
  datatype IpAddr = V4(v4: Ipv4Octets) | V6(v6: Ipv6Octets)
  {
    function Octets(): seq<Byte>
    {
      if V4? then v4 else v6
    }
  }

  // ---------------------------------------------------------------------------
  // Messages.

  /** Netlink message types of the conntrack subsystem used here. */
  datatype CtNetlinkMessage = Conntrack | CtDelete

  /** Netlink request flags (`NlmF`); a set of them is their bitwise or. */
  datatype NlmF = ACK | ROOT | MATCH

  /** `NlmF::DUMP`, which is `ROOT | MATCH`. */
  const DUMP: set<NlmF> := {ROOT, MATCH}
  const AF_INET: Byte := 2
  const NFNETLINK_V0: Byte := 0

  /** The generic-netlink header with its attributes. */
  datatype Genlmsghdr = Genlmsghdr(cmd: Byte, version: Byte, attrs: seq<Attr>)

  /** An outgoing request: message type, flags and payload. */
  datatype Request = Request(msgType: CtNetlinkMessage, flags: set<NlmF>, genl: Genlmsghdr)

  /** The payload of a received message; only `Payload` carries attributes. */
  datatype NlPayload = Payload(message: Genlmsghdr) | Ack | DumpExtAck | Err | Empty

  /** A received netlink message. */
  datatype Nlmsghdr = Nlmsghdr(payload: NlPayload)

  // ---------------------------------------------------------------------------
  // Building the delete request.

  /**
   * The attribute types and address bytes `delete` picks: the tuple is the
   * original one exactly for a source address, and the address attribute
   * matches both the family and the direction.
   */
  function Select(ip: IpAddr, src: bool): (r: (ConntrackAttr, IpTupleAttr, seq<Byte>))
    ensures r.0.CtaTupleOrig? <==> src
    ensures r.1.IsSource() <==> src
    ensures r.1.IsV4() <==> ip.V4?
    ensures r.2 == ip.Octets() && |r.2| == (if ip.V4? then 4 else 16)
  {
    match ip
    case V4(octets) =>
      if src then (CtaTupleOrig, CtaIpv4Src, octets) else (CtaTupleReply, CtaIpv4Dst, octets)
    case V6(octets) =>
      if src then (CtaTupleOrig, CtaIpv6Src, octets) else (CtaTupleReply, CtaIpv6Dst, octets)
  }

  /** The protocol number zero-extended to a u32, in host byte order. */
  function ProtoPayload(e: Endian, proto: Byte): (r: seq<Byte>)
    ensures |r| == 4 && U32Value(e, r) == proto
    ensures e.Little? ==> r == [proto, 0, 0, 0]
    ensures e.Big? ==> r == [0, 0, 0, proto]
  {
    U32Bytes(e, proto)
  }

  /** A nested payload decodes to exactly the attribute it was made from. */
  lemma ParseNlaPayload(e: Endian, p: Payload)
    ensures p.Nla? && Fits(p.attr) ==> Parse(e, PayloadBytes(e, p)) == Some([p.attr])
  {
    if p.Nla? && Fits(p.attr) {
      ParseEncodeOne(e, p.attr);
    }
  }

  /**
   * `make_attr`: an attribute of the given type and nested flag, without the
   * network-byte-order flag, over the payload's bytes; a nested attribute
   * payload decodes back to that one attribute.
   */
  function MakeAttr(e: Endian, code: TypeCode, nest: bool, payload: Payload): (r: Attr)
    ensures r.typ.code == code && r.typ.nested == nest && !r.typ.netOrder
    ensures payload.Raw? ==> r.payload == payload.buf
    ensures payload.Nla? ==> r.payload == Encode(e, payload.attr)
  {
    Attr(AttrType(code, nest, false), PayloadBytes(e, payload))
  }

  /**
   * An attribute tree as the kernel reads it: a scalar attribute with its
   * bytes, or a nested attribute with its children in order.
   */
  datatype Tree = Scalar(code: TypeCode, bytes: seq<Byte>) | Nested(code: TypeCode, children: seq<Tree>)

  /** The attribute carries the tree: flags as the tree says, and nested payloads decode child by child. */
  predicate Represents(e: Endian, a: Attr, t: Tree)
    decreases t
  {
    match t
    case Scalar(code, bytes) =>
      a == Attr(AttrType(code, false, false), bytes)
    case Nested(code, children) =>
      a.typ == AttrType(code, true, false) &&
      var parsed := Parse(e, a.payload);
      parsed.Some? && |parsed.value| == |children| &&
      forall i :: 0 <= i < |children| ==> Represents(e, parsed.value[i], children[i])
  }

  /**
   * What a delete request asks for: under the selected tuple, the IP tuple
   * holding only the address, then the protocol tuple holding only the
   * protocol number.
   */
  function DeleteTree(e: Endian, proto: Byte, ip: IpAddr, src: bool): Tree
  {
    var (tuple, addr, bin) := Select(ip, src);
    Nested(tuple.Code(), [
      Nested(CtaTupleIp.Code(), [Scalar(addr.Code(), bin)]),
      Nested(CtaTupleProto.Code(), [Scalar(CtaProtoNum.Code(), ProtoPayload(e, proto))])
    ])
  }

  /** `make_attr` with a nested flag over one attribute that carries `t` carries a tree with `t` as its only child. */
  lemma MakeAttrNestsOne(e: Endian, code: TypeCode, child: Attr, t: Tree)
    requires Fits(child) && Represents(e, child, t)
    ensures Represents(e, MakeAttr(e, code, true, Nla(child)), Nested(code, [t]))
    ensures UnpaddedSize(MakeAttr(e, code, true, Nla(child))) == NLA_HDRLEN + Align(UnpaddedSize(child))
  {
    var parent := MakeAttr(e, code, true, Nla(child));
    ParseNlaPayload(e, Nla(child));
    assert Parse(e, parent.payload) == Some([child]);
  }

  /** `nest` adds the child's tree as the last sibling of the trees already in the parent. */
  lemma NestAddsSibling(e: Endian, parent: Attr, child: Attr, code: TypeCode, kids: seq<Tree>, t: Tree)
    requires Represents(e, parent, Nested(code, kids)) && Aligned(|parent.payload|)
    requires Fits(child) && Represents(e, child, t)
    ensures Represents(e, Nest(e, parent, child), Nested(code, kids + [t]))
  {
    var attrs := Parse(e, parent.payload).value;
    NestAppendsChild(e, parent, child, attrs);
    var parsed := attrs + [child];
    assert forall i :: 0 <= i < |kids| ==> parsed[i] == attrs[i] && (kids + [t])[i] == kids[i];
  }

  /** A nested `make_attr` over a scalar `make_attr` carries the one-scalar tree. */
  lemma ScalarInNest(e: Endian, outer: TypeCode, code: TypeCode, bytes: seq<Byte>)
    requires NLA_HDRLEN + |bytes| < 0x1_0000
    ensures var a := MakeAttr(e, outer, true, Nla(MakeAttr(e, code, false, Raw(bytes))));
      Represents(e, a, Nested(outer, [Scalar(code, bytes)])) &&
      UnpaddedSize(a) == NLA_HDRLEN + Align(NLA_HDRLEN + |bytes|)
  {
    MakeAttrNestsOne(e, outer, MakeAttr(e, code, false, Raw(bytes)), Scalar(code, bytes));
  }

  /** A nested `make_attr` over one attribute, then `nest` of a second, carries both trees in that order. */
  lemma TwoChildren(e: Endian, code: TypeCode, first: Attr, second: Attr, t1: Tree, t2: Tree)
    requires Fits(first) && Represents(e, first, t1)
    requires Fits(second) && Represents(e, second, t2)
    ensures var a := Nest(e, MakeAttr(e, code, true, Nla(first)), second);
      Represents(e, a, Nested(code, [t1, t2])) &&
      UnpaddedSize(a) == NLA_HDRLEN + Align(UnpaddedSize(first)) + Align(UnpaddedSize(second))
  {
    var parent := MakeAttr(e, code, true, Nla(first));
    MakeAttrNestsOne(e, code, first, t1);
    NestAddsSibling(e, parent, second, code, [t1], t2);
    assert [t1] + [t2] == [t1, t2];
  }

  /** The sizes of the attributes of a delete request, from the innermost out. */
  lemma DeleteSize(addrLen: nat, ipTupleSize: nat, protoTupleSize: nat, firstSize: nat, size: nat)
    requires addrLen == 4 || addrLen == 16
    requires ipTupleSize == NLA_HDRLEN + Align(NLA_HDRLEN + addrLen)
    requires protoTupleSize == NLA_HDRLEN + Align(NLA_HDRLEN + 4)
    requires firstSize == NLA_HDRLEN + Align(ipTupleSize)
    requires size == firstSize + Align(protoTupleSize)
    ensures size == if addrLen == 4 then 28 else 40
  {
    assert Align(8) == 8 && Align(12) == 12 && Align(20) == 20 && Align(24) == 24;
  }

  /** The attribute `delete` builds from its two tuples carries DeleteTree and is 28 (IPv4) or 40 (IPv6) bytes long. */
  lemma DeleteCarriesTree(e: Endian, proto: Byte, ip: IpAddr, src: bool, ipTuple: Attr, protoTuple: Attr, attr: Attr)
    requires ipTuple == MakeAttr(e, CtaTupleIp.Code(), true, Nla(MakeAttr(e, Select(ip, src).1.Code(), false, Raw(Select(ip, src).2))))
    requires protoTuple == MakeAttr(e, CtaTupleProto.Code(), true, Nla(MakeAttr(e, CtaProtoNum.Code(), false, Raw(ProtoPayload(e, proto)))))
    requires attr == Nest(e, MakeAttr(e, Select(ip, src).0.Code(), true, Nla(ipTuple)), protoTuple)
    ensures Represents(e, attr, DeleteTree(e, proto, ip, src))
    ensures UnpaddedSize(attr) == if ip.V4? then 28 else 40
  {
    var (topAttrType, attrType, bin) := Select(ip, src);
    var ipTree := Nested(CtaTupleIp.Code(), [Scalar(attrType.Code(), bin)]);
    var protoTree := Nested(CtaTupleProto.Code(), [Scalar(CtaProtoNum.Code(), ProtoPayload(e, proto))]);
    ScalarInNest(e, CtaTupleIp.Code(), attrType.Code(), bin);
    ScalarInNest(e, CtaTupleProto.Code(), CtaProtoNum.Code(), ProtoPayload(e, proto));
    TwoChildren(e, topAttrType.Code(), ipTuple, protoTuple, ipTree, protoTree);
    assert DeleteTree(e, proto, ip, src) == Nested(topAttrType.Code(), [ipTree, protoTree]);
    var first := MakeAttr(e, topAttrType.Code(), true, Nla(ipTuple));
    DeleteSize(|bin|, UnpaddedSize(ipTuple), UnpaddedSize(protoTuple), UnpaddedSize(first), UnpaddedSize(attr));
  }

  /**
   * `delete`, up to the point where the request is handed to the socket:
   * one top-level attribute that decodes to DeleteTree, command AF_INET for
   * either address family, version NFNETLINK_V0, flags ACK and MATCH.
   */
  method Delete(e: Endian, proto: Byte, ip: IpAddr, src: bool) returns (req: Request)
    ensures req.msgType == CtDelete && req.flags == {ACK, MATCH}
    ensures req.genl.cmd == AF_INET && req.genl.version == NFNETLINK_V0
    ensures |req.genl.attrs| == 1
    ensures Represents(e, req.genl.attrs[0], DeleteTree(e, proto, ip, src))
    ensures UnpaddedSize(req.genl.attrs[0]) == if ip.V4? then 28 else 40
  {
    var (topAttrType, attrType, bin) := Select(ip, src);

    var ipAttr := MakeAttr(e, attrType.Code(), false, Raw(bin));
    var ipTuple := MakeAttr(e, CtaTupleIp.Code(), true, Nla(ipAttr));
    var protoAttr := MakeAttr(e, CtaProtoNum.Code(), false, Raw(ProtoPayload(e, proto)));
    var protoTuple := MakeAttr(e, CtaTupleProto.Code(), true, Nla(protoAttr));

    var attr := MakeAttr(e, topAttrType.Code(), true, Nla(ipTuple));
    attr := Nest(e, attr, protoTuple);
    var attrs: seq<Attr> := [];
    attrs := attrs + [attr];

    req := Request(CtDelete, {ACK, MATCH}, Genlmsghdr(AF_INET, NFNETLINK_V0, attrs));
    DeleteCarriesTree(e, proto, ip, src, ipTuple, protoTuple, attr);
  }

  /**
   * Two requests worked through: TCP (6) from 10.0.0.1 as source, and TCP to
   * ::1 as destination. The protocol payload reads back as 6 in either byte order.
   */
  lemma DeleteExamples(e: Endian)
    ensures DeleteTree(e, 6, V4([10, 0, 0, 1]), true) ==
            Nested(CtaTupleOrig.Code(), [
              Nested(CtaTupleIp.Code(), [Scalar(CtaIpv4Src.Code(), [10, 0, 0, 1])]),
              Nested(CtaTupleProto.Code(), [Scalar(CtaProtoNum.Code(), ProtoPayload(e, 6))])])
    ensures DeleteTree(e, 6, V6([0, 0, 0, 0, 0, 0, 0, 0, 0, 0, 0, 0, 0, 0, 0, 1]), false) ==
            Nested(CtaTupleReply.Code(), [
              Nested(CtaTupleIp.Code(), [Scalar(CtaIpv6Dst.Code(), [0, 0, 0, 0, 0, 0, 0, 0, 0, 0, 0, 0, 0, 0, 0, 1])]),
              Nested(CtaTupleProto.Code(), [Scalar(CtaProtoNum.Code(), ProtoPayload(e, 6))])])
    ensures U32Value(e, ProtoPayload(e, 6)) == 6
  {
  }

  // ---------------------------------------------------------------------------
  // Collecting a dump.

  /** What one received item contributes to a dump. */
  datatype Step<F, E> = Push(flow: F) | Skip | Abort(error: E)

  /**
   * A receive error aborts; a message with a payload is decoded into a flow,
   * or aborts with the decoder's error; any other message adds nothing.
   */
  function StepOf<F, E>(received: Result<Nlmsghdr, E>, decode: seq<Attr> -> Result<F, E>): Step<F, E>
  {
    match received
    case Failure(err) => Abort(err)
    case Success(msg) =>
      match msg.payload
      case Payload(message) =>
        (match decode(message.attrs)
         case Success(flow) => Push(flow)
         case Failure(err) => Abort(err))
      case _ => Skip
  }

  /** The outcome of a dump over the received items, in order. */
  function DumpSpec<F, E>(received: seq<Result<Nlmsghdr, E>>, decode: seq<Attr> -> Result<F, E>): Result<seq<F>, E>
    decreases |received|
  {
    if received == [] then Success([])
    else
      match StepOf(received[0], decode)
      case Abort(err) => Failure(err)
      case Skip => DumpSpec(received[1..], decode)
      case Push(flow) => Prepend([flow], DumpSpec(received[1..], decode))
  }

  /** Flows already collected, in front of the outcome of the rest. */
  function Prepend<F, E>(flows: seq<F>, rest: Result<seq<F>, E>): Result<seq<F>, E>
  {
    match rest
    case Success(more) => Success(flows + more)
    case Failure(err) => Failure(err)
  }

  lemma PrependNothing<F, E>(rest: Result<seq<F>, E>)
    ensures Prepend([], rest) == rest
  {
    if rest.Success? {
      assert [] + rest.value == rest.value;
    }
  }

  lemma PrependTwice<F, E>(first: seq<F>, second: seq<F>, rest: Result<seq<F>, E>)
    ensures Prepend(first, Prepend(second, rest)) == Prepend(first + second, rest)
  {
    if rest.Success? {
      assert first + (second + rest.value) == (first + second) + rest.value;
    }
  }

  /**
   * `dump`: the request it sends (message type `Conntrack`, flags DUMP,
   * command 0, version NFNETLINK_V0, no attributes), then one flow per
   * payload message of the responses, in the order received; the first
   * receive or decode error is returned at once.
   */
  method Dump<F, E>(received: seq<Result<Nlmsghdr, E>>, decode: seq<Attr> -> Result<F, E>)
    returns (sent: Request, r: Result<seq<F>, E>)
    ensures sent.msgType == Conntrack && sent.flags == {ROOT, MATCH}
    ensures sent.genl.cmd == 0 && sent.genl.version == NFNETLINK_V0 && sent.genl.attrs == []
    ensures r == DumpSpec(received, decode)
  {
    sent := Request(Conntrack, DUMP, Genlmsghdr(0, NFNETLINK_V0, []));
    var flows: seq<F> := [];
    assert received[0..] == received;
    PrependNothing(DumpSpec(received, decode));
    for i := 0 to |received|
      invariant DumpSpec(received, decode) == Prepend(flows, DumpSpec(received[i..], decode))
    {
      assert received[i..][0] == received[i] && received[i..][1..] == received[i + 1..];
      var result := received[i];
      if result.Failure? {
        return sent, Failure(result.error);
      }
      var msg := result.value;
      if msg.payload.Payload? {
        var flow := decode(msg.payload.message.attrs);
        if flow.Failure? {
          return sent, Failure(flow.error);
        }
        PrependTwice(flows, [flow.value], DumpSpec(received[i + 1..], decode));
        flows := flows + [flow.value];
      }
    }
    assert received[|received|..] == [];
    assert flows + [] == flows;
    r := Success(flows);
  }

  /** A dump of a single item: its flow, nothing, or its error. */
  lemma DumpOne<F, E>(item: Result<Nlmsghdr, E>, decode: seq<Attr> -> Result<F, E>)
    ensures DumpSpec([item], decode) ==
            match StepOf(item, decode)
            case Push(flow) => Success([flow])
            case Skip => Success([])
            case Abort(err) => Failure(err)
  {
    assert [item][1..] == [];
    match StepOf(item, decode) {
      case Push(flow) => assert [flow] + [] == [flow];
      case Skip =>
      case Abort(_) =>
    }
  }

  /** Dumping two runs of responses back to back: the first one's flows, then the second one's; an error in the first ends it. */
  lemma {:induction false} DumpAppend<F, E>(xs: seq<Result<Nlmsghdr, E>>, ys: seq<Result<Nlmsghdr, E>>, decode: seq<Attr> -> Result<F, E>)
    ensures DumpSpec(xs + ys, decode) ==
            match DumpSpec(xs, decode)
            case Failure(err) => Failure(err)
            case Success(flows) => Prepend(flows, DumpSpec(ys, decode))
    decreases |xs|
  {
    if xs == [] {
      assert xs + ys == ys;
      match DumpSpec(ys, decode) {
        case Success(more) => assert [] + more == more;
        case Failure(_) =>
      }
    } else {
      assert (xs + ys)[0] == xs[0] && (xs + ys)[1..] == xs[1..] + ys;
      DumpAppend(xs[1..], ys, decode);
      match StepOf(xs[0], decode) {
        case Push(flow) =>
          match DumpSpec(xs[1..], decode) {
            case Success(fs) =>
              match DumpSpec(ys, decode) {
                case Success(more) => assert [flow] + (fs + more) == ([flow] + fs) + more;
                case Failure(_) =>
              }
            case Failure(_) =>
          }
        case Skip =>
        case Abort(_) =>
      }
    }
  }

  /** A receive or decode failure aborts the dump with that error, whatever follows it. */
  lemma {:induction false} DumpFailsAtFirstError<F, E>(received: seq<Result<Nlmsghdr, E>>, decode: seq<Attr> -> Result<F, E>, i: nat)
    requires i < |received| && StepOf(received[i], decode).Abort?
    requires forall j :: 0 <= j < i ==> !StepOf(received[j], decode).Abort?
    ensures DumpSpec(received, decode) == Failure(StepOf(received[i], decode).error)
    decreases i
  {
    if i > 0 {
      DumpFailsAtFirstError(received[1..], decode, i - 1);
    }
  }

  /** A dump succeeds exactly when no item fails. */
  lemma {:induction false} DumpSucceedsIffNoError<F, E>(received: seq<Result<Nlmsghdr, E>>, decode: seq<Attr> -> Result<F, E>)
    ensures DumpSpec(received, decode).Success? <==>
            forall i :: 0 <= i < |received| ==> !StepOf(received[i], decode).Abort?
    decreases |received|
  {
    if received != [] {
      DumpSucceedsIffNoError(received[1..], decode);
      assert forall i :: 1 <= i < |received| ==> received[i] == received[1..][i - 1];
    }
  }
}
