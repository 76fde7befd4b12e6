/** STUN messages (RFC 3489, sections 11.1 and 11.2): the format, what a reply means, and
    the loop of stun_handle_packet that walks and overwrites the receive buffer. */
module StunPacket {
  type byte = b: int | 0 <= b < 256

  const HEADER := 20          // sizeof(struct stun_header)
  const ATTR_HEADER := 4      // sizeof(struct stun_attr)
  const MAPPED_ADDRESS := 0x0001

  function U16(hi: byte, lo: byte): (x: nat)
    ensures x < 0x1_0000
  {
    hi * 256 + lo
  }

  function Bytes16(x: nat): (s: seq<byte>)
    requires x < 0x1_0000
    ensures |s| == 2 && U16(s[0], s[1]) == x
  {
    [x / 256, x % 256]
  }

  datatype Attr = Attr(kind: nat, value: seq<byte>)

  predicate FitsFormat(a: Attr) {
    a.kind < 0x1_0000 && |a.value| < 0x1_0000
  }

  function Encode(a: Attr): (s: seq<byte>)
    requires FitsFormat(a)
    ensures |s| == ATTR_HEADER + |a.value|
  {
    Bytes16(a.kind) + Bytes16(|a.value|) + a.value
  }

  predicate AllFit(attrs: seq<Attr>) {
    forall a | a in attrs :: FitsFormat(a)
  }

  function EncodeAll(attrs: seq<Attr>): seq<byte>
    requires AllFit(attrs)
  {
    if attrs == [] then [] else Encode(attrs[0]) + EncodeAll(attrs[1..])
  }

  // ----- reading a body

  /** The body begins with a complete attribute. */
  predicate HasAttr(body: seq<byte>) {
    |body| >= ATTR_HEADER && ATTR_HEADER + U16(body[2], body[3]) <= |body|
  }

  function FirstAttr(body: seq<byte>): (a: Attr)
    requires HasAttr(body)
    ensures FitsFormat(a)
  {
    Attr(U16(body[0], body[1]), body[ATTR_HEADER..ATTR_HEADER + U16(body[2], body[3])])
  }

  function AfterAttr(body: seq<byte>): seq<byte>
    requires HasAttr(body)
  {
    body[ATTR_HEADER + U16(body[2], body[3])..]
  }

  /** The complete attributes at the front of the body, and what is left. */
  function Parse(body: seq<byte>): (r: (seq<Attr>, seq<byte>))
    ensures AllFit(r.0)
    ensures |EncodeAll(r.0)| + |r.1| == |body|
    decreases |body|
  {
    if HasAttr(body) then
      var (attrs, rest) := Parse(AfterAttr(body));
      assert ([FirstAttr(body)] + attrs)[1..] == attrs;
      ([FirstAttr(body)] + attrs, rest)
    else ([], body)
  }

  lemma EncodeFirst(body: seq<byte>)
    requires HasAttr(body)
    ensures Encode(FirstAttr(body)) + AfterAttr(body) == body
  {
    var n := U16(body[2], body[3]);
    assert Bytes16(U16(body[0], body[1])) == body[..2];
    assert Bytes16(n) == body[2..4];
    assert body == body[..2] + body[2..4] + body[4..4 + n] + body[4 + n..];
  }

  lemma FirstEncoded(a: Attr, rest: seq<byte>)
    requires FitsFormat(a)
    ensures HasAttr(Encode(a) + rest)
    ensures FirstAttr(Encode(a) + rest) == a && AfterAttr(Encode(a) + rest) == rest
  {
    var body := Encode(a) + rest;
    assert body[0] == Bytes16(a.kind)[0] && body[1] == Bytes16(a.kind)[1];
    assert body[2] == Bytes16(|a.value|)[0] && body[3] == Bytes16(|a.value|)[1];
    assert body[ATTR_HEADER..ATTR_HEADER + |a.value|] == a.value;
  }

  /** Parse splits the body into attributes and a rest without a complete attribute at
      its front: the maximal prefix of complete attributes. */
  lemma {:induction false} ParseSound(body: seq<byte>)
    ensures EncodeAll(Parse(body).0) + Parse(body).1 == body
    ensures !HasAttr(Parse(body).1)
    decreases |body|
  {
    if HasAttr(body) {
      var (attrs, rest) := Parse(AfterAttr(body));
      ParseSound(AfterAttr(body));
      EncodeFirst(body);
      assert ([FirstAttr(body)] + attrs)[1..] == attrs;
      assert Encode(FirstAttr(body)) + EncodeAll(attrs) + rest == Encode(FirstAttr(body)) + (EncodeAll(attrs) + rest);
    } else {
      assert EncodeAll([]) + body == body;
    }
  }

  /** ... and no other split is possible. */
  lemma {:induction false} ParseUnique(attrs: seq<Attr>, rest: seq<byte>)
    requires AllFit(attrs) && !HasAttr(rest)
    ensures Parse(EncodeAll(attrs) + rest) == (attrs, rest)
  {
    if attrs == [] {
      assert EncodeAll(attrs) + rest == rest;
    } else {
      ParseUnique(attrs[1..], rest);
      var tail := EncodeAll(attrs[1..]) + rest;
      assert EncodeAll(attrs) + rest == Encode(attrs[0]) + tail;
      FirstEncoded(attrs[0], tail);
      assert [attrs[0]] + attrs[1..] == attrs;
    }
  }

  // ----- the meaning of a packet

  /** The attribute bytes of a packet: at most as many as the header announces. */
  function Body(packet: seq<byte>): seq<byte>
    requires |packet| >= HEADER
  {
    var announced := U16(packet[2], packet[3]);
    if announced < |packet| - HEADER then packet[HEADER..HEADER + announced] else packet[HEADER..]
  }

  /** What stun_handle_packet returns. */
  function Verdict(packet: seq<byte>): int {
    if |packet| < HEADER then -20
    else
      var rest := Parse(Body(packet)).1;
      if rest == [] then |packet| else if |rest| < ATTR_HEADER then -21 else -22
  }

  function Attributes(packet: seq<byte>): seq<Attr> {
    if |packet| < HEADER then [] else Parse(Body(packet)).0
  }

  /** Port and address as they stand in the packet, in network order. */
  datatype Address = Address(port: seq<byte>, addr: seq<byte>)

  const NO_ADDRESS := Address([0, 0], [0, 0, 0, 0])

  predicate IsMappedAddress(a: Attr) {
    a.kind == MAPPED_ADDRESS && |a.value| == 8
  }

  function AddressOf(a: Attr): Address
    requires IsMappedAddress(a)
  {
    Address(a.value[2..4], a.value[4..8])
  }

  /** The address left in mapped after the callback has seen attrs. */
  function Mapped(attrs: seq<Attr>, before: Address): Address
    decreases |attrs|
  {
    if attrs == [] then before
    else Mapped(attrs[1..], if IsMappedAddress(attrs[0]) then AddressOf(attrs[0]) else before)
  }

  predicate IsLastMapped(attrs: seq<Attr>, i: int) {
    && 0 <= i < |attrs| && IsMappedAddress(attrs[i])
    && forall j | i < j < |attrs| :: !IsMappedAddress(attrs[j])
  }

  /** It is the address of the last complete 8-byte MAPPED-ADDRESS, or what was there. */
  lemma {:induction false} MappedIsLast(attrs: seq<Attr>, before: Address)
    ensures (forall a | a in attrs :: !IsMappedAddress(a)) ==> Mapped(attrs, before) == before
    ensures (exists a | a in attrs :: IsMappedAddress(a)) ==>
              exists i :: IsLastMapped(attrs, i) && Mapped(attrs, before) == AddressOf(attrs[i])
    decreases |attrs|
  {
    if attrs != [] {
      var tail := attrs[1..];
      var next := if IsMappedAddress(attrs[0]) then AddressOf(attrs[0]) else before;
      MappedIsLast(tail, next);
      if a :| a in tail && IsMappedAddress(a) {
        var i :| IsLastMapped(tail, i) && Mapped(tail, next) == AddressOf(tail[i]);
        forall j | i + 1 < j < |attrs| ensures !IsMappedAddress(attrs[j]) {
          assert tail[j - 1] == attrs[j];
        }
        assert IsLastMapped(attrs, i + 1);
      } else if IsMappedAddress(attrs[0]) {
        assert IsLastMapped(attrs, 0);
      }
    }
  }

  ghost predicate SplitsInto(body: seq<byte>, attrs: seq<Attr>, rest: seq<byte>) {
    AllFit(attrs) && EncodeAll(attrs) + rest == body
  }

  /** The return value tells exactly how the clipped body is built: attributes only, or
      attributes and a stump of a header, or attributes and one that is cut short. */
  lemma VerdictMeaning(packet: seq<byte>)
    requires |packet| >= HEADER
    ensures Verdict(packet) == |packet| <==> exists attrs :: SplitsInto(Body(packet), attrs, [])
    ensures Verdict(packet) == -21 <==> exists attrs, rest :: SplitsInto(Body(packet), attrs, rest) && 0 < |rest| < ATTR_HEADER
    ensures Verdict(packet) == -22 <==> exists attrs, rest :: SplitsInto(Body(packet), attrs, rest) && |rest| >= ATTR_HEADER && !HasAttr(rest)
  {
    var body := Body(packet);
    var (attrs, rest) := Parse(body);
    ParseSound(body);
    assert SplitsInto(body, attrs, rest);
    forall as', rest' | SplitsInto(body, as', rest') && !HasAttr(rest') ensures rest == rest' {
      ParseUnique(as', rest');
    }
  }

  /** The packet has a complete attribute with this address. */
  ghost predicate Carries(packet: seq<byte>, address: Address) {
    exists a | a in Attributes(packet) :: IsMappedAddress(a) && AddressOf(a) == address
  }

  /** That a reply is accepted says that its body consists of attributes, not that it has an
      address: the address left is one that the packet carries if and only if one of its
      attributes is an 8-byte MAPPED-ADDRESS, and otherwise it is zero. */
  lemma AcceptedAddress(packet: seq<byte>)
    requires Verdict(packet) == |packet|
    ensures EncodeAll(Attributes(packet)) == Body(packet)
    ensures var address := Mapped(Attributes(packet), NO_ADDRESS);
            if exists a | a in Attributes(packet) :: IsMappedAddress(a) then Carries(packet, address)
            else address == NO_ADDRESS && !Carries(packet, address)
  {
    var attrs := Attributes(packet);
    ParseSound(Body(packet));
    assert EncodeAll(attrs) + [] == EncodeAll(attrs);
    MappedIsLast(attrs, NO_ADDRESS);
    if exists a | a in attrs :: IsMappedAddress(a) {
      var i :| IsLastMapped(attrs, i) && Mapped(attrs, NO_ADDRESS) == AddressOf(attrs[i]);
      assert attrs[i] in attrs;
    }
  }

  /** Such replies exist: one whose header announces no attributes is accepted, whatever
      follows it. */
  lemma EmptyReplyIsAccepted(packet: seq<byte>)
    requires |packet| >= HEADER && U16(packet[2], packet[3]) == 0
    ensures Verdict(packet) == |packet| && Mapped(Attributes(packet), NO_ADDRESS) == NO_ADDRESS
  {
    assert Body(packet) == [];
  }
}
