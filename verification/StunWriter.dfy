/** append_attr_string and append_attr_address: the writer that goes with the parser. */
module StunWriter {
  import opened Sequences
  import opened StunPacket
  import opened StunReceiver

  const MESSAGE := 1024       // unsigned char respdata[1024]
  const ROOM := 1004          // sizeof(respdata) - sizeof(struct stun_header)

  // ----- specification

  /** Whether an attribute with a value of n bytes is still appended. */
  predicate Fits(left: int, n: nat) {
    left > ATTR_HEADER + n
  }

  /** What the caller asks for: a string or an address, with an attribute number. */
  datatype Request = AppendString(kind: int, s: seq<byte>) | AppendAddress(kind: int, address: Address)

  predicate IsAddress(a: Address) {
    |a.port| == 2 && |a.addr| == 4
  }

  predicate IsRequest(r: Request) {
    r.AppendAddress? ==> IsAddress(r.address)
  }

  function AttrOf(r: Request): (a: Attr)
    requires IsRequest(r)
  {
    match r
    case AppendString(kind, s) => Attr(kind % 0x1_0000, s)
    case AppendAddress(kind, address) => Attr(kind % 0x1_0000, [0, 1] + address.port + address.addr)
  }

  /** The attributes that end up in the message: those that still fit when their turn comes. */
  function Written(rs: seq<Request>, left: int): (attrs: seq<Attr>)
    requires forall r | r in rs :: IsRequest(r)
    decreases |rs|
  {
    if rs == [] then []
    else
      var a := AttrOf(rs[0]);
      if Fits(left, |a.value|) then [a] + Written(rs[1..], left - ATTR_HEADER - |a.value|)
      else Written(rs[1..], left)
  }

  /** A message: a header that announces the length of the body, and the body. */
  ghost predicate Framed(packet: seq<byte>, attrs: seq<Attr>) {
    && AllFit(attrs) && |EncodeAll(attrs)| < 0x1_0000
    && |packet| == HEADER + |EncodeAll(attrs)|
    && U16(packet[2], packet[3]) == |EncodeAll(attrs)|
    && packet[HEADER..] == EncodeAll(attrs)
  }

  /** Reading back what was written: no error, the same attributes in the same order, and
      the address of the last 8-byte MAPPED-ADDRESS among them. */
  lemma RoundTrip(packet: seq<byte>, attrs: seq<Attr>)
    requires Framed(packet, attrs)
    ensures Verdict(packet) == |packet|
    ensures Attributes(packet) == attrs
  {
    assert Body(packet) == EncodeAll(attrs) + [];
    ParseUnique(attrs, []);
  }

  /** An address that was written is the address that is read. */
  lemma AddressSurvives(r: Request)
    requires IsRequest(r) && r.AppendAddress? && r.kind % 0x1_0000 == MAPPED_ADDRESS
    ensures IsMappedAddress(AttrOf(r)) && AddressOf(AttrOf(r)) == r.address
  {
    var v := AttrOf(r).value;
    assert v[2..4] == r.address.port && v[4..8] == r.address.addr;
  }

  /** The bytes of a string: number and length, high byte first, and the string. */
  lemma StringOnWire(kind: int, s: seq<byte>)
    requires |s| < 0x1_0000
    ensures var w := Encode(AttrOf(AppendString(kind, s)));
            && |w| == 4 + |s| && w[4..] == s
            && w[0] as int * 256 + w[1] == kind % 0x1_0000 && w[2] as int * 256 + w[3] == |s|
  {}

  /** The bytes of a MAPPED-ADDRESS: its number, its length, the family, port and address. */
  lemma AddressOnWireAs(address: Address)
    requires IsAddress(address)
    ensures Encode(AttrOf(AppendAddress(1, address))) == [0, 1, 0, 8, 0, 1] + address.port + address.addr
  {}

  lemma {:induction false} EncodeAppend(attrs: seq<Attr>, a: Attr)
    requires AllFit(attrs) && FitsFormat(a)
    ensures EncodeAll(attrs + [a]) == EncodeAll(attrs) + Encode(a)
  {
    hide Encode;
    if attrs == [] {
      assert attrs + [a] == [a] && [a][1..] == [];
      assert EncodeAll([a]) == Encode(a) + [];
    } else {
      EncodeAppend(attrs[1..], a);
      assert (attrs + [a])[0] == attrs[0] && (attrs + [a])[1..] == attrs[1..] + [a];
      Regroup(Encode(attrs[0]), EncodeAll(attrs[1..]), Encode(a));
    }
  }

  // ----- the writer

  /** The buffer with the pointer and the two counters the append functions advance. */
  class MessageWriter {
    const buf: array<byte>
    var attr: nat                   // *attr, as an offset into buf
    var len: int                    // bytes written after the header
    var left: int                   // bytes still free
    ghost var sent: seq<Attr>

    ghost predicate Valid() reads this, buf {
      && buf.Length == MESSAGE && attr == HEADER + len && len + left == ROOM && 0 <= len && 0 < left
      && AllFit(sent) && |EncodeAll(sent)| == len && buf[HEADER..attr] == EncodeAll(sent)
    }

    constructor ()
      ensures Valid() && fresh(buf) && sent == [] && len == 0 && left == ROOM == 1004
    {
      buf := new byte[MESSAGE](_ => 0);
      attr, len, left := HEADER, 0, ROOM;
      sent := [];
    }

    /** An attribute is appended if and only if there is more room than it takes; the sum
        of the two counters never changes. */
    method Append(kind: int, value: seq<byte>) returns (done: bool)
      requires Valid()
      modifies this, buf
      ensures Valid()
      ensures done <==> old(left) > 4 + |value|
      ensures done <==> Fits(old(left), |value|)
      ensures sent == if done then old(sent) + [Attr(kind % 0x1_0000, value)] else old(sent)
      ensures left == if done then old(left) - ATTR_HEADER - |value| else old(left)
    {
      var size := ATTR_HEADER + |value|;
      done := left > size;
      if done {
        ghost var a := Attr(kind % 0x1_0000, value);
        ghost var start, before := attr, buf[HEADER..attr];
        WriteAttr(kind, value);
        EncodeAppend(sent, a);
        attr := attr + size;
        len := len + size;
        left := left - size;
        sent := sent + [a];
        assert buf[HEADER..attr] == buf[HEADER..start] + buf[start..attr];
        assert buf[HEADER..start] == before;
      }
    }

    /** The three assignments through the attribute pointer. */
    method WriteAttr(kind: int, value: seq<byte>)
      requires attr + ATTR_HEADER + |value| <= buf.Length && |value| < 0x1_0000
      modifies buf
      ensures buf[attr..attr + ATTR_HEADER + |value|] == Encode(Attr(kind % 0x1_0000, value))
      ensures forall i | 0 <= i < attr :: buf[i] == old(buf[i])
    {
      var k := kind % 0x1_0000;
      buf[attr], buf[attr + 1] := k / 256, k % 256;
      buf[attr + 2], buf[attr + 3] := |value| / 256, |value| % 256;
      CopyInto(attr + ATTR_HEADER, value);
      var end := attr + ATTR_HEADER + |value|;
      assert buf[attr..end] == [buf[attr], buf[attr + 1]] + [buf[attr + 2], buf[attr + 3]] + buf[attr + ATTR_HEADER..end];
    }

    /** memcpy */
    method CopyInto(at: nat, value: seq<byte>)
      requires at + |value| <= buf.Length
      modifies buf
      ensures buf[at..at + |value|] == value
      ensures forall i | 0 <= i < buf.Length && !(at <= i < at + |value|) :: buf[i] == old(buf[i])
    {
      for i := 0 to |value|
        invariant buf[at..at + i] == value[..i]
        invariant forall j | 0 <= j < buf.Length && !(at <= j < at + i) :: buf[j] == old(buf[j])
      {
        buf[at + i] := value[i];
      }
    }

    method AppendString(kind: int, s: seq<byte>)
      requires Valid()
      modifies this, buf
      ensures Valid()
      ensures sent == if Fits(old(left), |s|) then old(sent) + [AttrOf(Request.AppendString(kind, s))] else old(sent)
      ensures left == if Fits(old(left), |s|) then old(left) - ATTR_HEADER - |s| else old(left)
    {
      var _ := Append(kind, s);
    }

    method AppendAddress(kind: int, address: Address)
      requires Valid() && IsAddress(address)
      modifies this, buf
      ensures Valid()
      ensures sent == if Fits(old(left), 8) then old(sent) + [AttrOf(Request.AppendAddress(kind, address))] else old(sent)
      ensures left == if Fits(old(left), 8) then old(left) - ATTR_HEADER - 8 else old(left)
    {
      var _ := Append(kind, [0, 1] + address.port + address.addr);
    }

    /** resp->msglen = htons(resplen): the message that stun_send puts on the wire. */
    method Finish() returns (packet: seq<byte>)
      requires Valid()
      modifies buf
      ensures Valid() && Framed(packet, sent)
    {
      buf[2], buf[3] := len / 256, len % 256;
      packet := buf[..attr];
      assert packet[HEADER..] == buf[HEADER..attr];
    }
  }

  /** Any sequence of appends. */
  method WriteAll(writer: MessageWriter, rs: seq<Request>)
    requires writer.Valid() && forall r | r in rs :: IsRequest(r)
    modifies writer, writer.buf
    ensures writer.Valid() && writer.sent == old(writer.sent) + Written(rs, old(writer.left))
  {
    ghost var all := writer.sent + Written(rs, writer.left);
    assert rs[0..] == rs;
    for i := 0 to |rs|
      invariant writer.Valid() && writer.sent + Written(rs[i..], writer.left) == all
    {
      var r := rs[i];
      assert r in rs;
      ghost var left, sent := writer.left, writer.sent;
      WrittenNext(rs[i..], left, sent);
      assert rs[i..][1..] == rs[i + 1..];
      match r {
        case AppendString(kind, s) => writer.AppendString(kind, s);
        case AppendAddress(kind, address) => writer.AppendAddress(kind, address);
      }
    }
    assert writer.sent + [] == writer.sent;
  }

  lemma WrittenNext(rs: seq<Request>, left: int, sent: seq<Attr>)
    requires rs != [] && forall r | r in rs :: IsRequest(r)
    ensures var a := AttrOf(rs[0]);
            sent + Written(rs, left) == if Fits(left, |a.value|) then (sent + [a]) + Written(rs[1..], left - ATTR_HEADER - |a.value|)
                                        else sent + Written(rs[1..], left)
  {}

  /** Any sequence of appends to a fresh message, sent and received in a buffer of the
      same size: the receiver sees the attributes that fitted, in order and without error,
      and the address of the last 8-byte MAPPED-ADDRESS among them. */
  method SendAndReceive(rs: seq<Request>) returns (ret: int, seen: seq<Attr>, mapped: Address)
    requires forall r | r in rs :: IsRequest(r)
    ensures seen == Written(rs, ROOM) && AllFit(seen)
    ensures ret == HEADER + |EncodeAll(seen)|
    ensures mapped == Mapped(seen, NO_ADDRESS)
  {
    var writer := new MessageWriter();
    WriteAll(writer, rs);
    var packet := writer.Finish();
    RoundTrip(packet, writer.sent);
    var buf := new byte[BUFFER](i => if 0 <= i < |packet| then packet[i] else 0);
    assert buf[..|packet|] == packet;
    ret, seen, mapped := HandlePacket(buf, |packet|);
  }
}
