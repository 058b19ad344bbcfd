/** Netlink attributes and the conntrack query (src/conntrack.rs). */
module Netlink {
  import opened Basics

  const NLA_F_NESTED := 0x8000
  const CTA_TUPLE_ORIG := 1
  const CTA_MARK := 8
  const CTA_TUPLE_IP := 1
  const CTA_TUPLE_PROTO := 2
  const CTA_IP_V4_SRC := 1
  const CTA_IP_V4_DST := 2
  const CTA_IP_V6_SRC := 3
  const CTA_IP_V6_DST := 4
  const CTA_PROTO_NUM := 1
  const CTA_PROTO_SRC_PORT := 2
  const CTA_PROTO_DST_PORT := 3
  const IPPROTO_TCP: Byte := 6
  const IPPROTO_UDP: Byte := 17
  const AF_INET: Byte := 2
  const AF_INET6: Byte := 10
  const NLMSG_ERROR := 2
  const NLM_F_REQUEST := 1
  const CT_GET := 0x0101

  function Le16(v: int): seq<Byte> { [v % 256, v / 256 % 256] }

  function Le32(v: int): seq<Byte> { [v % 256, v / 256 % 256, v / 65536 % 256, v / 16777216 % 256] }

  function Be16(v: int): seq<Byte> { [v / 256 % 256, v % 256] }

  function ReadLe16(b: seq<Byte>): int
    requires |b| >= 2
  {
    b[0] + (b[1] as int) * 256
  }

  function ReadLe32(b: seq<Byte>): int
    requires |b| >= 4
  {
    b[0] + (b[1] as int) * 256 + (b[2] as int) * 65536 + (b[3] as int) * 16777216
  }

  function ReadBe16(b: seq<Byte>): int
    requires |b| >= 2
  {
    (b[0] as int) * 256 + b[1]
  }

  function ReadBe32(b: seq<Byte>): int
    requires |b| >= 4
  {
    (b[0] as int) * 16777216 + (b[1] as int) * 65536 + (b[2] as int) * 256 + b[3]
  }

  lemma ReadLe16Inverts(v: int)
    requires 0 <= v < 0x1_0000
    ensures ReadLe16(Le16(v)) == v
  {
  }

  lemma ReadLe32Inverts(v: int)
    requires 0 <= v < 0x1_0000_0000
    ensures ReadLe32(Le32(v)) == v
  {
    assert v / 65536 == v / 256 / 256;
    assert v / 16777216 == v / 256 / 256 / 256;
  }

  datatype Attr = Attr(kind: nat, data: seq<Byte>)

  /** `(4 - len % 4) % 4`. */
  function Padding(len: nat): nat { if len % 4 == 0 then 0 else 4 - len % 4 }

  /** `append_nla` on an empty buffer: length, type, data, zeros up to a multiple of four. */
  function Encode(a: Attr): seq<Byte> {
    var len := 4 + |a.data|;
    Le16(len % 0x1_0000) + Le16(a.kind % 0x1_0000) + a.data + seq(Padding(len), _ => 0)
  }

  function EncodeAll(attrs: seq<Attr>): seq<Byte> {
    if attrs == [] then [] else Encode(attrs[0]) + EncodeAll(attrs[1..])
  }

  lemma Assembled(buf: seq<Byte>, x: seq<Byte>, y: seq<Byte>, data: seq<Byte>, zeros: seq<Byte>)
    ensures buf + x + y + data + zeros == buf + (x + y + data + zeros)
  {
  }

  /** Writing the padding byte by byte. */
  method Pad(buf: seq<Byte>, pad: nat) returns (out: seq<Byte>)
    ensures out == buf + seq(pad, _ => 0)
  {
    out := buf;
    for i := 0 to pad
      invariant out == buf + seq(i, _ => 0)
    {
      out := out + [0];
    }
  }

  method AppendNla(buf: seq<Byte>, kind: nat, data: seq<Byte>) returns (out: seq<Byte>)
    ensures out == buf + Encode(Attr(kind, data))
  {
    var len := 4 + |data|;
    out := buf + Le16(len % 0x1_0000);
    out := out + Le16(kind % 0x1_0000);
    out := out + data;
    var pad := (4 - (len % 4)) % 4;
    assert pad == Padding(len);
    out := Pad(out, pad);
    Assembled(buf, Le16(len % 0x1_0000), Le16(kind % 0x1_0000), data, seq(pad, _ => 0));
  }

  /** An attribute found in a buffer, and the position of the next one. */
  datatype Item = Item(attr: Attr, next: nat)

  /** The attribute at `pos`, unless it is malformed or cut short. */
  function ItemAt(buf: seq<Byte>, pos: nat): (r: Option<Item>)
    ensures r.Some? ==> pos + 4 <= |buf| && pos + 4 <= r.value.next
  {
    if pos + 4 > |buf| then None
    else
      var len := ReadLe16([buf[pos], buf[pos + 1]]);
      var kind := ReadLe16([buf[pos + 2], buf[pos + 3]]) % 0x8000;
      if len < 4 || pos + len > |buf| then None
      else Some(Item(Attr(kind, buf[pos + 4..pos + len]), pos + len + Padding(len)))
  }

  /** The attributes from `pos` on, up to the first bad one. */
  function Walk(buf: seq<Byte>, pos: nat): seq<Attr>
    decreases |buf| - pos
  {
    match ItemAt(buf, pos)
    case None => []
    case Some(item) => [item.attr] + Walk(buf, item.next)
  }

  function Decode(buf: seq<Byte>): seq<Attr> { Walk(buf, 0) }

  /** `for_each_nla` visits exactly the attributes of the walk; it ends and stays in bounds on any bytes. */
  method ForEachNla(buf: seq<Byte>, off: nat) returns (visited: seq<Attr>)
    ensures visited == Walk(buf, off)
  {
    visited := [];
    var pos := off;
    while true
      invariant Walk(buf, off) == visited + Walk(buf, pos)
      decreases |buf| - pos
    {
      var item := ItemAt(buf, pos);
      if item.None? {
        return;
      }
      visited := visited + [item.value.attr];
      pos := item.value.next;
    }
  }

  lemma ItemShift(buf: seq<Byte>, pos: nat)
    requires pos <= |buf|
    ensures ItemAt(buf[pos..], 0) == match ItemAt(buf, pos)
                                     case None => None
                                     case Some(item) => Some(item.(next := item.next - pos))
  {
    if pos + 4 <= |buf| {
      var here := buf[pos..];
      assert [here[0], here[1]] == [buf[pos], buf[pos + 1]] && [here[2], here[3]] == [buf[pos + 2], buf[pos + 3]];
      var len := ReadLe16([buf[pos], buf[pos + 1]]);
      if 4 <= len && pos + len <= |buf| {
        assert here[4..len] == buf[pos + 4..pos + len];
      }
    }
  }

  lemma WalkPastEnd(buf: seq<Byte>, pos: nat)
    requires pos > |buf|
    ensures Walk(buf, pos) == []
  {
  }

  /** Walking from a position is walking what follows it. */
  lemma {:induction false} WalkShift(buf: seq<Byte>, pos: nat)
    requires pos <= |buf|
    ensures Walk(buf, pos) == Walk(buf[pos..], 0)
    decreases |buf| - pos
  {
    ItemShift(buf, pos);
    var item := ItemAt(buf, pos);
    if item.Some? {
      var n := item.value.next - pos;
      if item.value.next <= |buf| {
        WalkShift(buf, item.value.next);
        WalkShift(buf[pos..], n);
        assert buf[pos..][n..] == buf[item.value.next..];
      } else {
        WalkPastEnd(buf, item.value.next);
        WalkPastEnd(buf[pos..], n);
      }
    }
  }

  /** The data fits the 16-bit length field, and the type field is 16 bits. */
  predicate Encodable(a: Attr) {
    |a.data| <= 65531 && a.kind < 0x1_0000
  }

  function Visible(a: Attr): Attr { a.(kind := a.kind % 0x8000) }

  function VisibleAll(attrs: seq<Attr>): seq<Attr> {
    if attrs == [] then [] else [Visible(attrs[0])] + VisibleAll(attrs[1..])
  }

  lemma EncodedLength(a: Attr)
    ensures |Encode(a)| == 4 + |a.data| + Padding(4 + |a.data|) && |Encode(a)| <= |a.data| + 7
  {
  }

  lemma ItemOfLayout(x: seq<Byte>, y: seq<Byte>, data: seq<Byte>, pad: seq<Byte>, rest: seq<Byte>)
    requires |x| == 2 && |y| == 2 && ReadLe16(x) == 4 + |data| && |pad| == Padding(4 + |data|)
    ensures var b := x + y + data + pad + rest;
            ItemAt(b, 0) == Some(Item(Attr(ReadLe16(y) % 0x8000, data), 4 + |data| + |pad|))
              && b[4 + |data| + |pad|..] == rest
  {
    var b := x + y + data + pad + rest;
    assert [b[0], b[1]] == x && [b[2], b[3]] == y;
    assert b[4..4 + |data|] == data;
  }

  /** An encoded attribute is found where it was put. */
  lemma ItemOfEncode(a: Attr, rest: seq<Byte>)
    requires Encodable(a)
    ensures ItemAt(Encode(a) + rest, 0) == Some(Item(Visible(a), |Encode(a)|))
              && (Encode(a) + rest)[|Encode(a)|..] == rest
  {
    var len := 4 + |a.data|;
    assert len % 0x1_0000 == len && a.kind % 0x1_0000 == a.kind;
    ReadLe16Inverts(len);
    ReadLe16Inverts(a.kind);
    ItemOfLayout(Le16(len), Le16(a.kind), a.data, seq(Padding(len), _ => 0), rest);
  }

  lemma DecodeCons(a: Attr, rest: seq<Byte>)
    requires Encodable(a)
    ensures Decode(Encode(a) + rest) == [Visible(a)] + Decode(rest)
  {
    ItemOfEncode(a, rest);
    WalkShift(Encode(a) + rest, |Encode(a)|);
  }

  /** Decoding gives back every encoded attribute, in order, despite the padding; the nesting bit is masked. */
  lemma DecodeInvertsEncode(attrs: seq<Attr>)
    requires forall i :: 0 <= i < |attrs| ==> Encodable(attrs[i])
    ensures Decode(EncodeAll(attrs)) == VisibleAll(attrs)
  {
    DecodeInvertsEncodeIff(attrs);
  }

  lemma WrappedHeader(x: seq<Byte>, y: seq<Byte>, tail: seq<Byte>)
    requires |x| == 2 && |y| == 2
    ensures var item := ItemAt(x + y + tail, 0); item.Some? ==> |item.value.attr.data| == ReadLe16(x) - 4
  {
    var b := x + y + tail;
    assert [b[0], b[1]] == x;
  }

  /** The length field of an attribute that is too large wraps to less than its length. */
  lemma OversizedReadsShort(a: Attr, rest: seq<Byte>)
    requires |a.data| > 65531
    ensures var d := Decode(Encode(a) + rest); d == [] || d[0] != Visible(a)
  {
    var len := 4 + |a.data|;
    var x, y, tail := Le16(len % 0x1_0000), Le16(a.kind % 0x1_0000), a.data + seq(Padding(len), _ => 0) + rest;
    assert Encode(a) + rest == x + y + tail;
    ReadLe16Inverts(len % 0x1_0000);
    WrappedHeader(x, y, tail);
  }

  /** A sequence of attributes is read back as it was written if and only if each one fits its length field. */
  lemma {:induction false} DecodeInvertsEncodeIff(attrs: seq<Attr>)
    requires forall i :: 0 <= i < |attrs| ==> attrs[i].kind < 0x1_0000
    ensures Decode(EncodeAll(attrs)) == VisibleAll(attrs) <==> forall i :: 0 <= i < |attrs| ==> |attrs[i].data| <= 65531
  {
    if attrs == [] {
      assert Decode(EncodeAll(attrs)) == [];
    } else {
      var a, rest := attrs[0], attrs[1..];
      DecodeInvertsEncodeIff(rest);
      if |a.data| <= 65531 {
        DecodeCons(a, EncodeAll(rest));
        SameTail(Visible(a), Decode(EncodeAll(rest)), VisibleAll(rest));
        assert forall i :: 0 < i < |attrs| ==> attrs[i] == rest[i - 1];
        assert forall i :: 0 <= i < |rest| ==> rest[i] == attrs[i + 1];
      } else {
        OversizedReadsShort(a, EncodeAll(rest));
        assert VisibleAll(attrs)[0] == Visible(a);
      }
    }
  }

  lemma SameTail(v: Attr, s: seq<Attr>, t: seq<Attr>)
    ensures [v] + s == [v] + t <==> s == t
  {
    if [v] + s == [v] + t {
      assert ([v] + s)[1..] == s && ([v] + t)[1..] == t;
    }
  }

  /** An attribute is the first one read from its encoding if and only if its data fits the length field. */
  lemma AttributeReadsBackIff(a: Attr)
    requires a.kind < 0x1_0000
    ensures (exists rest :: Decode(Encode(a)) == [Visible(a)] + rest) <==> |a.data| <= 65531
  {
    assert Encode(a) + [] == Encode(a);
    if |a.data| <= 65531 {
      DecodeCons(a, []);
    } else {
      OversizedReadsShort(a, []);
    }
  }

  /** One byte over the limit, the length field wraps and the attribute is lost. */
  lemma OversizedAttributeIsLost(data: seq<Byte>)
    requires |data| == 65532
    ensures Decode(Encode(Attr(1, data))) == []
  {
    var b := Encode(Attr(1, data));
    assert (4 + |data|) % 0x1_0000 == 0;
    assert b[0] == 0 && b[1] == 0;
  }

  // ----- the query -----

  datatype Ip = V4(octets: seq<Byte>) | V6(octets: seq<Byte>)

  ghost predicate ValidIp(ip: Ip) { |ip.octets| == if ip.V4? then 4 else 16 }

  datatype Flow = Flow(peer: Ip, peerPort: nat, local: Ip, daemonPort: nat, tcp: bool)

  function IpAttrs(f: Flow): seq<Attr> {
    if f.peer.V4? && f.local.V4? then [Attr(CTA_IP_V4_SRC, f.peer.octets), Attr(CTA_IP_V4_DST, f.local.octets)]
    else if f.peer.V6? && f.local.V6? then [Attr(CTA_IP_V6_SRC, f.peer.octets), Attr(CTA_IP_V6_DST, f.local.octets)]
    else []
  }

  function ProtoAttrs(f: Flow): seq<Attr> {
    [Attr(CTA_PROTO_NUM, [if f.tcp then IPPROTO_TCP else IPPROTO_UDP]),
     Attr(CTA_PROTO_SRC_PORT, Be16(f.peerPort)),
     Attr(CTA_PROTO_DST_PORT, Be16(f.daemonPort))]
  }

  function TupleAttrs(ip: seq<Byte>, proto: seq<Byte>): seq<Attr> {
    [Attr(CTA_TUPLE_IP + NLA_F_NESTED, ip), Attr(CTA_TUPLE_PROTO + NLA_F_NESTED, proto)]
  }

  function QueryAttrs(tuple: seq<Byte>): seq<Attr> {
    [Attr(CTA_TUPLE_ORIG + NLA_F_NESTED, tuple)]
  }

  /** The attribute part of the query: three levels, innermost first. */
  function QueryBody(f: Flow): seq<Byte> {
    EncodeAll(QueryAttrs(EncodeAll(TupleAttrs(EncodeAll(IpAttrs(f)), EncodeAll(ProtoAttrs(f))))))
  }

  function Header(total: nat, kind: nat, flags: nat, seqno: nat, family: Byte): seq<Byte> {
    Le32(total) + Le16(kind) + Le16(flags) + Le32(seqno) + Le32(0) + [family, 0, 0, 0]
  }

  method AppendNested(buf: seq<Byte>, kind: nat, body: seq<Byte>) returns (out: seq<Byte>)
    requires kind < NLA_F_NESTED
    ensures out == buf + Encode(Attr(kind + NLA_F_NESTED, body))
  {
    out := AppendNla(buf, kind + NLA_F_NESTED, body);
  }

  method BuildIpBody(f: Flow) returns (body: seq<Byte>)
    ensures body == EncodeAll(IpAttrs(f))
  {
    body := [];
    if f.peer.V4? && f.local.V4? {
      body := AppendNla(body, CTA_IP_V4_SRC, f.peer.octets);
      body := AppendNla(body, CTA_IP_V4_DST, f.local.octets);
      Encode2(IpAttrs(f));
    } else if f.peer.V6? && f.local.V6? {
      body := AppendNla(body, CTA_IP_V6_SRC, f.peer.octets);
      body := AppendNla(body, CTA_IP_V6_DST, f.local.octets);
      Encode2(IpAttrs(f));
    }
  }

  method BuildProtoBody(f: Flow) returns (body: seq<Byte>)
    ensures body == EncodeAll(ProtoAttrs(f))
  {
    body := [];
    body := AppendNla(body, CTA_PROTO_NUM, [if f.tcp then IPPROTO_TCP else IPPROTO_UDP]);
    body := AppendNla(body, CTA_PROTO_SRC_PORT, Be16(f.peerPort));
    body := AppendNla(body, CTA_PROTO_DST_PORT, Be16(f.daemonPort));
    Encode3(ProtoAttrs(f));
  }

  method BuildTuple(ip: seq<Byte>, proto: seq<Byte>) returns (nlas: seq<Byte>)
    ensures nlas == EncodeAll(QueryAttrs(EncodeAll(TupleAttrs(ip, proto))))
  {
    var tuple: seq<Byte> := [];
    tuple := AppendNested(tuple, CTA_TUPLE_IP, ip);
    tuple := AppendNested(tuple, CTA_TUPLE_PROTO, proto);
    Encode2(TupleAttrs(ip, proto));
    nlas := AppendNested([], CTA_TUPLE_ORIG, tuple);
    Encode1(QueryAttrs(tuple));
  }

  /** `build_get_mark_query`. */
  method BuildGetMarkQuery(f: Flow, seqno: nat) returns (buf: seq<Byte>)
    ensures buf == QueryMessage(f, seqno)
  {
    var ip := BuildIpBody(f);
    var proto := BuildProtoBody(f);
    var nlas := BuildTuple(ip, proto);
    var family := if f.peer.V4? then AF_INET else AF_INET6;
    buf := Header(16 + 4 + |nlas|, CT_GET, NLM_F_REQUEST, seqno, family);
    buf := buf + nlas;
  }

  function QueryMessage(f: Flow, seqno: nat): seq<Byte> {
    var nlas := QueryBody(f);
    Header(20 + |nlas|, CT_GET, NLM_F_REQUEST, seqno, if f.peer.V4? then AF_INET else AF_INET6) + nlas
  }

  lemma Joined(a: seq<Byte>, b: seq<Byte>, c: seq<Byte>)
    ensures a + [] == [] + a
    ensures a + (b + c) == [] + a + b + c
    ensures a + ([] + b) == [] + a + b
    ensures a + ([] + b + c) == [] + a + b + c
  {
  }

  lemma Encode1(attrs: seq<Attr>)
    requires |attrs| == 1
    ensures EncodeAll(attrs) == [] + Encode(attrs[0])
  {
    assert attrs[1..] == [];
    Joined(Encode(attrs[0]), [], []);
  }

  lemma Encode2(attrs: seq<Attr>)
    requires |attrs| == 2
    ensures EncodeAll(attrs) == [] + Encode(attrs[0]) + Encode(attrs[1])
  {
    Encode1(attrs[1..]);
    Joined(Encode(attrs[0]), Encode(attrs[1]), []);
  }

  lemma Encode3(attrs: seq<Attr>)
    requires |attrs| == 3
    ensures EncodeAll(attrs) == [] + Encode(attrs[0]) + Encode(attrs[1]) + Encode(attrs[2])
  {
    Encode2(attrs[1..]);
    Joined(Encode(attrs[0]), Encode(attrs[1]), Encode(attrs[2]));
  }

  /** Reading a query back, as a receiver of the message would: three levels of attributes. */
  function ReadQuery(buf: seq<Byte>): Option<Flow> {
    if |buf| < 20 then None else ReadTop(Decode(buf[20..]))
  }

  function ReadTop(top: seq<Attr>): Option<Flow> {
    if |top| != 1 || top[0].kind != CTA_TUPLE_ORIG then None else ReadPair(Decode(top[0].data))
  }

  function ReadPair(pair: seq<Attr>): Option<Flow> {
    if |pair| != 2 || pair[0].kind != CTA_TUPLE_IP || pair[1].kind != CTA_TUPLE_PROTO then None
    else ReadTuple(Decode(pair[0].data), Decode(pair[1].data))
  }

  function ReadTuple(ip: seq<Attr>, proto: seq<Attr>): Option<Flow> {
    if |ip| != 2 || |proto| != 3 then None
    else if !(proto[0].kind == CTA_PROTO_NUM && |proto[0].data| == 1
              && proto[1].kind == CTA_PROTO_SRC_PORT && |proto[1].data| == 2
              && proto[2].kind == CTA_PROTO_DST_PORT && |proto[2].data| == 2) then None
    else
      var src, dst, tcp := ReadBe16(proto[1].data), ReadBe16(proto[2].data), proto[0].data[0] == IPPROTO_TCP;
      if ip[0].kind == CTA_IP_V4_SRC && ip[1].kind == CTA_IP_V4_DST
      then Some(Flow(V4(ip[0].data), src, V4(ip[1].data), dst, tcp))
      else if ip[0].kind == CTA_IP_V6_SRC && ip[1].kind == CTA_IP_V6_DST
      then Some(Flow(V6(ip[0].data), src, V6(ip[1].data), dst, tcp))
      else None
  }

  ghost predicate ValidFlow(f: Flow) {
    ValidIp(f.peer) && ValidIp(f.local) && f.peerPort < 0x1_0000 && f.daemonPort < 0x1_0000
  }

  /** One attribute in front, named as it is read back. */
  lemma RoundTripCons(a: Attr, v: Attr, rest: seq<Attr>)
    requires Encodable(a) && v == Visible(a)
    ensures Decode(EncodeAll([a] + rest)) == [v] + Decode(EncodeAll(rest))
    ensures |EncodeAll([a] + rest)| <= |a.data| + 7 + |EncodeAll(rest)|
  {
    assert ([a] + rest)[1..] == rest;
    DecodeCons(a, EncodeAll(rest));
    EncodedLength(a);
  }

  lemma RoundTrip1(a: Attr, v: Attr)
    requires Encodable(a) && v == Visible(a)
    ensures Decode(EncodeAll([a])) == [v] && |EncodeAll([a])| <= |a.data| + 7
  {
    assert [a] == [a] + [];
    RoundTripCons(a, v, []);
  }

  lemma RoundTrip2(a: Attr, v: Attr, b: Attr, w: Attr)
    requires Encodable(a) && Encodable(b) && v == Visible(a) && w == Visible(b)
    ensures Decode(EncodeAll([a, b])) == [v, w] && |EncodeAll([a, b])| <= |a.data| + |b.data| + 14
  {
    assert [a, b] == [a] + [b];
    RoundTripCons(a, v, [b]);
    RoundTrip1(b, w);
  }

  lemma RoundTrip3(a: Attr, b: Attr, c: Attr)
    requires Encodable(a) && Encodable(b) && Encodable(c) && a == Visible(a) && b == Visible(b) && c == Visible(c)
    ensures Decode(EncodeAll([a, b, c])) == [a, b, c]
    ensures |EncodeAll([a, b, c])| <= |a.data| + |b.data| + |c.data| + 21
  {
    assert [a, b, c] == [a] + [b, c];
    RoundTripCons(a, a, [b, c]);
    RoundTrip2(b, b, c, c);
  }

  lemma IpDecodes(f: Flow)
    requires ValidFlow(f)
    ensures Decode(EncodeAll(IpAttrs(f))) == IpAttrs(f) && |EncodeAll(IpAttrs(f))| <= 46
  {
    var a := IpAttrs(f);
    if a != [] {
      assert a == [a[0], a[1]];
      RoundTrip2(a[0], a[0], a[1], a[1]);
    }
  }

  lemma ProtoDecodes(f: Flow)
    requires ValidFlow(f)
    ensures Decode(EncodeAll(ProtoAttrs(f))) == ProtoAttrs(f) && |EncodeAll(ProtoAttrs(f))| <= 27
  {
    var a := ProtoAttrs(f);
    assert a == [a[0], a[1], a[2]];
    RoundTrip3(a[0], a[1], a[2]);
  }

  lemma TupleDecodes(ip: seq<Byte>, proto: seq<Byte>)
    requires |ip| <= 46 && |proto| <= 27
    ensures Decode(EncodeAll(TupleAttrs(ip, proto))) == [Attr(CTA_TUPLE_IP, ip), Attr(CTA_TUPLE_PROTO, proto)]
    ensures |EncodeAll(TupleAttrs(ip, proto))| <= 87
  {
    var a := TupleAttrs(ip, proto);
    RoundTrip2(a[0], Attr(CTA_TUPLE_IP, ip), a[1], Attr(CTA_TUPLE_PROTO, proto));
  }

  lemma TopDecodes(tuple: seq<Byte>)
    requires |tuple| <= 87
    ensures Decode(EncodeAll(QueryAttrs(tuple))) == [Attr(CTA_TUPLE_ORIG, tuple)]
    ensures |EncodeAll(QueryAttrs(tuple))| <= 94
  {
    var a := QueryAttrs(tuple);
    RoundTrip1(a[0], Attr(CTA_TUPLE_ORIG, tuple));
  }

  lemma PortInverts(p: nat)
    requires p < 0x1_0000
    ensures ReadBe16(Be16(p)) == p
  {
  }

  /** The tuple level gives back the flow, or nothing when the address families are mixed. */
  lemma ReadTupleInverts(f: Flow)
    requires ValidFlow(f)
    ensures ReadTuple(IpAttrs(f), ProtoAttrs(f)) == if f.peer.V4? == f.local.V4? then Some(f) else None
  {
    PortInverts(f.peerPort);
    PortInverts(f.daemonPort);
  }

  lemma HeaderLayout(total: nat, kind: nat, flags: nat, seqno: nat, family: Byte, nlas: seq<Byte>)
    requires total < 0x1_0000_0000
    ensures var buf := Header(total, kind, flags, seqno, family) + nlas;
            |buf| == 20 + |nlas| && buf[20..] == nlas && ReadLe32(buf) == total
  {
    var buf := Header(total, kind, flags, seqno, family) + nlas;
    ReadLe32Inverts(total);
    assert buf[0] == Le32(total)[0] && buf[1] == Le32(total)[1] && buf[2] == Le32(total)[2] && buf[3] == Le32(total)[3];
  }

  /** The query's length field is its length, and it decodes back to the address, port and protocol tuple it was
      built from, for peers and listeners of one address family; with mixed families it names no flow. */
  lemma QueryDecodesToItsFlow(f: Flow, seqno: nat)
    requires ValidFlow(f)
    ensures ReadLe32(QueryMessage(f, seqno)) == |QueryMessage(f, seqno)|
    ensures ReadQuery(QueryMessage(f, seqno)) == if f.peer.V4? == f.local.V4? then Some(f) else None
  {
    BodyDecodes(f);
    var nlas := QueryBody(f);
    HeaderLayout(20 + |nlas|, CT_GET, NLM_F_REQUEST, seqno, if f.peer.V4? then AF_INET else AF_INET6, nlas);
  }

  lemma BodyDecodes(f: Flow)
    requires ValidFlow(f)
    ensures |QueryBody(f)| <= 94
    ensures ReadTop(Decode(QueryBody(f))) == if f.peer.V4? == f.local.V4? then Some(f) else None
  {
    var ip, proto := EncodeAll(IpAttrs(f)), EncodeAll(ProtoAttrs(f));
    IpDecodes(f);
    ProtoDecodes(f);
    PairDecodes(f, ip, proto);
    TupleDecodes(ip, proto);
    TopDecodes(EncodeAll(TupleAttrs(ip, proto)));
  }

  lemma PairDecodes(f: Flow, ip: seq<Byte>, proto: seq<Byte>)
    requires ValidFlow(f) && Decode(ip) == IpAttrs(f) && Decode(proto) == ProtoAttrs(f)
    ensures ReadPair([Attr(CTA_TUPLE_IP, ip), Attr(CTA_TUPLE_PROTO, proto)])
         == if f.peer.V4? == f.local.V4? then Some(f) else None
  {
    ReadTupleInverts(f);
  }

  // ----- the query in bytes -----

  lemma EncodeBytes(a: Attr, x0: Byte, x1: Byte, y0: Byte, y1: Byte, pad: seq<Byte>)
    requires 4 + |a.data| == x0 + (x1 as int) * 256 && a.kind == y0 + (y1 as int) * 256
    requires |pad| == Padding(4 + |a.data|) && forall i :: 0 <= i < |pad| ==> pad[i] == 0
    ensures Encode(a) == [x0, x1, y0, y1] + a.data + pad
  {
    Le16Bytes(x0, x1, 4 + |a.data|);
    Le16Bytes(y0, y1, a.kind);
    ZeroBytes(pad);
    Assembled([], [x0, x1], [y0, y1], a.data, pad);
    assert [x0, x1, y0, y1] == [x0, x1] + [y0, y1];
  }

  lemma Le16Bytes(low: Byte, high: Byte, v: nat)
    requires v == low + (high as int) * 256
    ensures Le16(v % 0x1_0000) == [low, high]
  {
    assert v < 0x1_0000 && v / 256 == high && v % 256 == low;
  }

  lemma ZeroBytes(pad: seq<Byte>)
    requires forall i :: 0 <= i < |pad| ==> pad[i] == 0
    ensures seq(|pad|, _ => 0) == pad
  {
  }

  /** The addresses of an IPv4 flow, as bytes. */
  lemma IpBytes(f: Flow)
    requires ValidFlow(f) && f.peer.V4? && f.local.V4?
    ensures EncodeAll(IpAttrs(f)) == [] + ([8, 0, 1, 0] + f.peer.octets + []) + ([8, 0, 2, 0] + f.local.octets + [])
  {
    Encode2(IpAttrs(f));
    EncodeBytes(IpAttrs(f)[0], 8, 0, 1, 0, []);
    EncodeBytes(IpAttrs(f)[1], 8, 0, 2, 0, []);
  }

  /** The protocol and the ports, as bytes: UDP is 17, TCP is 6, and ports have their high byte first. */
  lemma ProtoBytes(f: Flow)
    requires ValidFlow(f)
    ensures EncodeAll(ProtoAttrs(f))
         == [] + ([5, 0, 1, 0] + [if f.tcp then 6 else 17] + [0, 0, 0])
            + ([6, 0, 2, 0] + [f.peerPort / 256, f.peerPort % 256] + [0, 0])
            + ([6, 0, 3, 0] + [f.daemonPort / 256, f.daemonPort % 256] + [0, 0])
  {
    Encode3(ProtoAttrs(f));
    EncodeBytes(Attr(CTA_PROTO_NUM, [if f.tcp then IPPROTO_TCP else IPPROTO_UDP]), 5, 0, 1, 0, [0, 0, 0]);
    PortBytes(CTA_PROTO_SRC_PORT, f.peerPort, 2);
    PortBytes(CTA_PROTO_DST_PORT, f.daemonPort, 3);
  }

  lemma PortBytes(kind: nat, port: nat, byte: Byte)
    requires port < 0x1_0000 && kind == byte
    ensures Encode(Attr(kind, Be16(port))) == [6, 0, byte, 0] + [port / 256, port % 256] + [0, 0]
  {
    EncodeBytes(Attr(kind, Be16(port)), 6, 0, byte, 0, [0, 0]);
    assert Be16(port) == [port / 256, port % 256];
  }

  /** The two nested levels around them, whose type fields have the nesting bit in their high byte. */
  lemma TupleBytes(ip: seq<Byte>, proto: seq<Byte>)
    requires |ip| == 16 && |proto| == 24
    ensures EncodeAll(QueryAttrs(EncodeAll(TupleAttrs(ip, proto))))
         == [] + ([52, 0, 1, 0x80] + ([] + ([20, 0, 1, 0x80] + ip + []) + ([28, 0, 2, 0x80] + proto + [])) + [])
  {
    var attrs := TupleAttrs(ip, proto);
    Encode2(attrs);
    EncodeBytes(attrs[0], 20, 0, 1, 0x80, []);
    EncodeBytes(attrs[1], 28, 0, 2, 0x80, []);
    var top := QueryAttrs(EncodeAll(attrs));
    Encode1(top);
    EncodeBytes(top[0], 52, 0, 1, 0x80, []);
  }

  /** The whole query for an IPv4 flow: 72 bytes, type 0x0101, a request, the sequence number, no port identifier, and
      the family AF_INET. */
  lemma QueryBytes(f: Flow, seqno: nat)
    requires ValidFlow(f) && f.peer.V4? && f.local.V4?
    ensures QueryMessage(f, seqno)
         == [72, 0, 0, 0] + [1, 1] + [1, 0] + Le32(seqno) + [0, 0, 0, 0] + [2, 0, 0, 0]
            + EncodeAll(QueryAttrs(EncodeAll(TupleAttrs(EncodeAll(IpAttrs(f)), EncodeAll(ProtoAttrs(f))))))
  {
    IpBytes(f);
    ProtoBytes(f);
    TupleBytes(EncodeAll(IpAttrs(f)), EncodeAll(ProtoAttrs(f)));
    assert |QueryBody(f)| == 52;
  }

  /** The header names the family of the peer, AF_INET as 2 and AF_INET6 as 10. */
  lemma QueryFamily(f: Flow, seqno: nat)
    ensures |QueryMessage(f, seqno)| >= 20 && QueryMessage(f, seqno)[16] == if f.peer.V4? then 2 else 10
  {
  }

  // ----- the response -----

  /** The last mark among the attributes. */
  function LastMark(attrs: seq<Attr>): Option<int> {
    if attrs == [] then None
    else
      var a := attrs[|attrs| - 1];
      if a.kind == CTA_MARK && |a.data| == 4 then Some(ReadBe32(a.data)) else LastMark(attrs[..|attrs| - 1])
  }

  /** The mark in a response: none in short and error messages. */
  function MarkOf(buf: seq<Byte>): Option<int> {
    if |buf| < 20 || ReadLe16(buf[4..]) == NLMSG_ERROR then None else LastMark(Decode(buf[20..]))
  }

  /** `parse_mark_response`. */
  method ParseMarkResponse(buf: seq<Byte>) returns (mark: Option<int>)
    ensures mark == MarkOf(buf)
  {
    if |buf| < 16 {
      return None;
    }
    var kind := ReadLe16([buf[4], buf[5]]);
    assert ReadLe16(buf[4..]) == kind;
    if kind == NLMSG_ERROR {
      return None;
    }
    if |buf| < 16 + 4 {
      return None;
    }
    var attrs := ForEachNla(buf, 16 + 4);
    WalkShift(buf, 20);
    mark := None;
    for i := 0 to |attrs|
      invariant mark == LastMark(attrs[..i])
    {
      assert attrs[..i + 1][..i] == attrs[..i];
      if attrs[i].kind == CTA_MARK && |attrs[i].data| == 4 {
        mark := Some(ReadBe32(attrs[i].data));
      }
    }
    assert attrs[..|attrs|] == attrs;
  }

  /** A four-byte attribute of the type CTA_MARK. */
  predicate IsMark(a: Attr) { a.kind % 0x8000 == 8 && |a.data| == 4 }

  lemma {:induction false} VisibleAt(attrs: seq<Attr>)
    ensures |VisibleAll(attrs)| == |attrs| && forall i :: 0 <= i < |attrs| ==> VisibleAll(attrs)[i] == Visible(attrs[i])
  {
    if attrs == [] {
    } else {
      VisibleAt(attrs[1..]);
      assert forall i :: 0 < i < |attrs| ==> VisibleAll(attrs)[i] == VisibleAll(attrs[1..])[i - 1];
    }
  }

  lemma {:induction false} LastMarkAt(attrs: seq<Attr>, i: nat)
    requires i < |attrs| && attrs[i].kind == CTA_MARK && |attrs[i].data| == 4
    requires forall j :: i < j < |attrs| ==> !(attrs[j].kind == CTA_MARK && |attrs[j].data| == 4)
    ensures LastMark(attrs) == Some(ReadBe32(attrs[i].data))
  {
    if i == |attrs| - 1 {
    } else {
      LastMarkAt(attrs[..|attrs| - 1], i);
    }
  }

  lemma {:induction false} NoMark(attrs: seq<Attr>)
    requires forall j :: 0 <= j < |attrs| ==> !(attrs[j].kind == CTA_MARK && |attrs[j].data| == 4)
    ensures LastMark(attrs) == None
  {
    if attrs == [] {
    } else {
      NoMark(attrs[..|attrs| - 1]);
    }
  }

  /** The bytes of a mark, the most significant first. */
  function BigEndian(m: int): seq<Byte>
    requires 0 <= m < 0x1_0000_0000
  {
    [m / 16777216, m / 65536 % 256, m / 256 % 256, m % 256]
  }

  lemma ReadBe32Inverts(m: int)
    requires 0 <= m < 0x1_0000_0000
    ensures ReadBe32(BigEndian(m)) == m
  {
    assert m / 65536 == m / 256 / 256;
    assert m / 16777216 == m / 256 / 256 / 256;
  }

  /** A response that is no error message and whose last four-byte mark attribute holds the bytes of `m`, the most
      significant first, yields `m`; the nesting bit of the attribute does not matter. */
  lemma ResponseMark(header: seq<Byte>, attrs: seq<Attr>, i: nat, m: int)
    requires |header| == 20 && !(header[4] == 2 && header[5] == 0)
    requires forall j :: 0 <= j < |attrs| ==> Encodable(attrs[j])
    requires i < |attrs| && IsMark(attrs[i]) && forall j :: i < j < |attrs| ==> !IsMark(attrs[j])
    requires 0 <= m < 0x1_0000_0000
    requires attrs[i].data == BigEndian(m)
    ensures MarkOf(header + EncodeAll(attrs)) == Some(m)
  {
    MarkAt(header, attrs, i);
    ReadBe32Inverts(m);
  }

  lemma MarkAt(header: seq<Byte>, attrs: seq<Attr>, i: nat)
    requires |header| == 20 && !(header[4] == 2 && header[5] == 0)
    requires forall j :: 0 <= j < |attrs| ==> Encodable(attrs[j])
    requires i < |attrs| && IsMark(attrs[i]) && forall j :: i < j < |attrs| ==> !IsMark(attrs[j])
    ensures MarkOf(header + EncodeAll(attrs)) == Some(ReadBe32(attrs[i].data))
  {
    var buf, seen := header + EncodeAll(attrs), VisibleAll(attrs);
    ResponseDecodes(header, attrs);
    NoError(header[4], header[5]);
    ResponseIs(buf, seen);
    LastVisibleMark(attrs, i);
  }

  lemma NoError(low: Byte, high: Byte)
    ensures low + (high as int) * 256 == 2 <==> low == 2 && high == 0
  {
  }

  lemma LastVisibleMark(attrs: seq<Attr>, i: nat)
    requires i < |attrs| && IsMark(attrs[i]) && forall j :: i < j < |attrs| ==> !IsMark(attrs[j])
    ensures LastMark(VisibleAll(attrs)) == Some(ReadBe32(attrs[i].data))
  {
    VisibleAt(attrs);
    var seen := VisibleAll(attrs);
    assert seen[i] == Visible(attrs[i]);
    forall j | i < j < |seen|
      ensures !(seen[j].kind == CTA_MARK && |seen[j].data| == 4)
    {
      assert seen[j] == Visible(attrs[j]);
    }
    LastMarkAt(seen, i);
  }

  lemma ResponseIs(buf: seq<Byte>, seen: seq<Attr>)
    requires |buf| >= 20 && ReadLe16(buf[4..]) != 2 && Decode(buf[20..]) == seen
    ensures MarkOf(buf) == LastMark(seen)
  {
  }

  /** Without such an attribute there is no mark, and neither is there in an error message or a message without room for
      its headers. */
  lemma NoResponseMark(header: seq<Byte>, attrs: seq<Attr>)
    requires forall j :: 0 <= j < |attrs| ==> Encodable(attrs[j])
    ensures |header| == 20 && (forall j :: 0 <= j < |attrs| ==> !IsMark(attrs[j])) ==>
              MarkOf(header + EncodeAll(attrs)) == None
    ensures |header| >= 20 && header[4] == 2 && header[5] == 0 ==> MarkOf(header) == None
    ensures |header| < 20 ==> MarkOf(header) == None
  {
    if |header| == 20 && forall j :: 0 <= j < |attrs| ==> !IsMark(attrs[j]) {
      ResponseDecodes(header, attrs);
      VisibleAt(attrs);
      NoMark(VisibleAll(attrs));
    }
  }

  lemma ResponseDecodes(header: seq<Byte>, attrs: seq<Attr>)
    requires |header| == 20 && forall j :: 0 <= j < |attrs| ==> Encodable(attrs[j])
    ensures Decode((header + EncodeAll(attrs))[20..]) == VisibleAll(attrs)
    ensures ReadLe16((header + EncodeAll(attrs))[4..]) == header[4] + (header[5] as int) * 256
  {
    assert (header + EncodeAll(attrs))[20..] == EncodeAll(attrs);
    DecodeInvertsEncode(attrs);
  }
}
