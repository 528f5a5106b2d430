# conntrack: delete request, dump collection and attribute buffers in Dafny

This project models the core of the `conntrack` Rust crate, which talks to the
Linux connection-tracking table over a netfilter netlink socket:

- `Conntrack::delete` builds a delete-by-tuple request. It picks the original or
  reply tuple from the direction, and an IPv4/IPv6 source/destination address
  attribute. The address sits in `CTA_TUPLE_IP` and the protocol number, widened
  to a host-order u32, in `CTA_TUPLE_PROTO`. Both tuples are nested in that order
  under one top-level attribute. The request carries command `AF_INET`, version
  `NFNETLINK_V0` and flags `ACK | MATCH`.
- `Conntrack::dump` collects one `Flow` per received payload message, in the
  order received, and returns the first receive or decode error instead.
- `IntoBuffer` turns a `Buffer` into itself, and turns an `Nlattr` into its wire
  form. The wire form is written through a `std::io::Cursor` over a zeroed vector
  of the attribute's unpadded size.

Files:

- `wrappers.dfy`: `Option` and `Result`.
- `netlink.dfy`: the netlink attribute (struct `nlattr` of `linux/netlink.h`)
  at the byte level. It covers the 16-bit `nla_len` (header plus unpadded
  payload), the 16-bit `nla_type` (bit 15 `NLA_F_NESTED`, bit 14
  `NLA_F_NET_BYTEORDER`) and padding to `NLA_ALIGNTO` = 4. It has an encoder, a
  parser that inverts it, and `nest`. These stand for the neli crate, which is
  not part of this model.
- `encoders.dfy`: `IntoBuffer`, with a `Cursor` class whose writes overwrite
  and then extend its vector.
- `connection.dfy`: the conntrack attribute types, `make_attr`, `delete` and `dump`.

The meaning of a delete request is given by `Connection.Represents`: the
attribute's flags match the tree, and each nested payload, once parsed, yields
the children of the tree in order. `Connection.DeleteTree` is the tree a
delete asks for. `Connection.Delete` is proved to produce an attribute that
represents it.

Notes on the code's behaviour:

- `dump` aborts on the first `Flow::decode` failure. It does not skip the entry and go on.
- The command byte of a delete is `AF_INET` for IPv6 addresses too.
- The protocol number is a 4-byte u32 in host byte order (`to_ne_bytes`). On a
  big-endian host its first byte is therefore 0.

The numeric attribute codes come from `linux/netfilter/nfnetlink_conntrack.h`.
The crate's `attributes` module, which defines them, is not part of this model.
They are `CTA_TUPLE_ORIG` 1, `CTA_TUPLE_REPLY` 2, `CTA_TUPLE_IP` 1,
`CTA_TUPLE_PROTO` 2, `CTA_IP_V4_SRC` 1, `CTA_IP_V4_DST` 2, `CTA_IP_V6_SRC` 3,
`CTA_IP_V6_DST` 4 and `CTA_PROTO_NUM` 1. `AF_INET` is 2 and `NFNETLINK_V0` is 0.

## Model

| member | source | states |
|---|---|---|
| `Connection.Select` | conntrack/src/connection.rs:64-81 | The original tuple is chosen exactly when `src` holds. The address attribute is a source attribute exactly when `src` holds, and an IPv4 one exactly for an IPv4 address. The payload is the address octets unchanged: 4 bytes for v4, 16 for v6. |
| `Connection.ProtoPayload` | conntrack/src/connection.rs:88 | The protocol payload is 4 bytes: `proto` zero-extended to a u32 in host byte order, i.e. `[proto,0,0,0]` little-endian and `[0,0,0,proto]` big-endian. It reads back as `proto`. |
| `Connection.MakeAttr` | conntrack/src/connection.rs:119-133 | `make_attr` gives the requested type code and nested flag, never sets the network-byte-order flag, and carries the given payload: a raw buffer unchanged, an attribute as its full wire form. |
| `Connection.MakeAttrNestsOne` | conntrack/src/connection.rs:84-90 | A nested `make_attr` over an attribute carrying tree `t` carries a tree whose only child is `t`. Its size is the header plus the child's padded size. |
| `Connection.NestAddsSibling` | conntrack/src/connection.rs:92-93 | `nest` adds the child's tree as the last sibling, after the trees already in the parent. |
| `Connection.TwoChildren` | conntrack/src/connection.rs:92-93 | A nested `make_attr` over one attribute, followed by `nest` of a second, carries both trees in that order. Its size is the header plus both padded sizes. |
| `Connection.DeleteCarriesTree` | conntrack/src/connection.rs:83-93 | The top-level attribute built from the IP tuple and the protocol tuple carries `DeleteTree` and is 28/40 bytes long. |
| `Connection.DeleteSize` | conntrack/src/connection.rs:83-93 | The size arithmetic of the delete construction: an address of 4 or 16 bytes, wrapped as lines 83-93 wrap it, gives 28 or 40 bytes. |
| `Connection.Delete` | conntrack/src/connection.rs:63-101 | The request has exactly one top-level attribute. It is nested, of the selected tuple type, and holds `CTA_TUPLE_IP` (only the address attribute) and then `CTA_TUPLE_PROTO` (only `CTA_PROTO_NUM`). All inner attributes have the nested flag as stated and no byte-order flag. The request's message type is `CtDelete`, command `AF_INET`, version `NFNETLINK_V0`, flags `ACK` and `MATCH`, and its size is 28/40 bytes. |
| `Connection.DeleteExamples` | conntrack/src/connection.rs:63-93 | Worked trees: TCP from 10.0.0.1 as source, and TCP to ::1 as destination. |
| `Connection.Dump` | conntrack/src/connection.rs:38-60 | The request sent has message type `Conntrack`, flags `ROOT` and `MATCH` (`NlmF::DUMP`), command 0, version `NFNETLINK_V0` and no attributes. The loop returns exactly `DumpSpec` of the received items. |
| `Connection.DumpOne` | conntrack/src/connection.rs:51-57 | A single payload message gives its decoded flow, a message without payload gives nothing, and a receive or decode error gives that error. |
| `Connection.DumpAppend` | conntrack/src/connection.rs:50-60 | Dumping two runs of responses gives the first run's flows followed by the second's. An error in the first run ends the dump with that error. |
| `Connection.DumpFailsAtFirstError` | conntrack/src/connection.rs:52-56 | The first receive or decode error is the dump's result, whatever follows it. A failed entry is never skipped. |
| `Connection.DumpSucceedsIffNoError` | conntrack/src/connection.rs:50-60 | A dump succeeds if and only if no item fails. |
| `Encoders.IntoBuffer` | conntrack/src/encoders.rs:8-22 | A `Buffer` is returned unchanged. For an `Nlattr` the result is never shorter than the unpadded size, starts with the bytes the serialiser wrote from offset 0, and keeps zero everywhere it did not write. When serialisation completes, the result is exactly the attribute's wire form. A serialiser error is never reported. |
| `Encoders.Cursor.Write` | conntrack/src/encoders.rs:19-21 | Writing at the cursor overwrites bytes inside the vector, appends the rest, and advances the position by the number of bytes written. |
| `Encoders.Overwrite` | conntrack/src/encoders.rs:19-21 | The written range holds the new bytes. Bytes before it and after it are kept. The length is the larger of the old length and the end of the write. |
| `Encoders.Written` | conntrack/src/encoders.rs:20 | The serialiser writes at most the whole wire form, and all of it when it completes. |
| `Netlink.Encode` | conntrack/src/encoders.rs:20 | The wire form of an attribute is its unpadded size rounded up to 4. |
| `Netlink.EncodeLayout` | conntrack/src/encoders.rs:20-21 | `nla_len` in bytes 0-1 is header plus unpadded payload. `nla_type` in bytes 2-3 decodes to the attribute's code and flags. The payload starts at byte 4 and the padding is zero. |
| `Netlink.TypeField` | conntrack/src/connection.rs:125-129 | The type code is in bits 0-13, the network-byte-order flag in bit 14 and the nested flag in bit 15. |
| `Netlink.U32Bytes` | conntrack/src/connection.rs:88 | A u32 becomes 4 bytes in the given byte order, which read back as the same value. |
| `Netlink.ParseEncodeAll` | conntrack/src/connection.rs:52-54 | Parsing the encoding of any sequence of attributes that fit gives back exactly those attributes. |
| `Netlink.ParseAppend` | conntrack/src/connection.rs:92-93 | Two aligned attribute streams, concatenated, parse to the concatenation of their attributes. |
| `Netlink.Nest` | conntrack/src/connection.rs:93 | `nest` keeps the parent's type and flags. It grows the parent by the child's padded size. |
| `Netlink.NestAppendsChild` | conntrack/src/connection.rs:93 | After `nest`, the parent's payload parses to its previous children followed by the new child. |

## Left out

- Socket I/O: `Conntrack::connect`, sending requests, and iterating over the receiver. The dump takes its received items as a sequence. Both operations return the request they would send.
- The acknowledgement loop and logging of `delete`, and its `Result<()>` from transport errors.
- `Flow::decode` and the `Flow` type: the flow type and the decoder are parameters of the dump. The crate's `decoders`, `model`, `attributes` and `message` modules are not part of this model.
- The numeric values of the `CtNetlinkMessage` message types and of the `NlmF` flags. Only the names used here are kept.
- Errors from the neli builders (`build()?`) and from `nest`. `make_attr` is total here, because with the inputs `delete` gives them these cannot fail.
- `nla_len` wider than 16 bits: the stored value is the size modulo 2^16. The round-trip lemmas require attributes that fit. Every attribute `delete` builds is at most 40 bytes.
- Netlink.Parse: it stands for the attribute parser only as far as the round trip needs. It rejects a trailing fragment shorter than a header, and it does not inspect padding bytes.
- Encoders.IntoBuffer: the serialiser's failure is modelled as stopping after some prefix of the wire form. Which errors neli can raise is not modelled.
- Non-payload responses (acknowledgements, error and done messages) are modelled by their kind only.
- Host byte order is a parameter (`Endian`), not a fixed choice.
- Kernel-side matching and deletion, and the `conntrack_dump` example program.
