/** A received packet byte by byte: where its attributes begin, what is accepted, and which
    twelve bytes the external address is taken from. */
module StunWire {
  import opened StunPacket

  /** The length in bytes at + 2 and at + 3: that of the body at 0, that of an attribute
      elsewhere. */
  function Length(p: seq<byte>, at: nat): nat {
    if at + 4 <= |p| then p[at + 2] as int * 256 + p[at + 3] else 0
  }

  /** Going from attribute to attribute leads from one place to the other. */
  predicate Leads(p: seq<byte>, from: nat, to: nat)
    decreases to - from
  {
    from == to || (from + 4 + Length(p, from) <= to <= |p| && Leads(p, from + 4 + Length(p, from), to))
  }

  /** An attribute begins here, or the body ends. */
  predicate Boundary(p: seq<byte>, at: nat) {
    Leads(p, 20, at)
  }

  /** The end of the body: where its length says, or where the packet ends. */
  function End(p: seq<byte>): nat {
    if 20 + Length(p, 0) < |p| then 20 + Length(p, 0) else |p|
  }

  /** The bytes 00 01 00 08 and eight more. */
  predicate MappedHere(p: seq<byte>, at: nat) {
    at + 12 <= End(p) <= |p| && p[at..at + 4] == [0, 1, 0, 8]
  }

  ghost predicate LastMappedAt(p: seq<byte>, at: nat) {
    && Boundary(p, at) && MappedHere(p, at)
    && forall j: nat | at < j && Boundary(p, j) :: !MappedHere(p, j)
  }

  // ----- the parser on the bytes

  lemma AttrHere(p: seq<byte>, from: nat, end: nat)
    requires from <= end <= |p|
    ensures HasAttr(p[from..end]) <==> from + 4 <= end && from + 4 + Length(p, from) <= end
    ensures from + 4 <= end ==> U16(p[from..end][2], p[from..end][3]) == Length(p, from)
  {
    var body := p[from..end];
    if from + 4 <= end {
      assert body[2] == p[from + 2] && body[3] == p[from + 3];
    }
  }

  lemma AttrParts(p: seq<byte>, from: nat, end: nat)
    requires from + 4 + Length(p, from) <= end <= |p|
    ensures HasAttr(p[from..end])
    ensures var body, next := p[from..end], from + 4 + Length(p, from);
            && AfterAttr(body) == p[next..end]
            && FirstAttr(body) == Attr(p[from] as int * 256 + p[from + 1], p[from + 4..next])
  {
    AttrHere(p, from, end);
    var body, n := p[from..end], Length(p, from);
    assert body[0] == p[from] && body[1] == p[from + 1];
    Within(p, from, end, 4, 4 + n);
    Within(p, from, end, 4 + n, |body|);
    assert body[4 + n..] == body[4 + n..|body|];
  }

  lemma Within(p: seq<byte>, from: nat, end: nat, a: nat, b: nat)
    requires from <= end <= |p| && a <= b <= end - from
    ensures p[from..end][a..b] == p[from + a..from + b]
  {
    forall i | 0 <= i < b - a ensures p[from..end][a..b][i] == p[from + a..from + b][i] {}
  }

  lemma ParseHere(p: seq<byte>, from: nat, end: nat)
    requires from + 4 + Length(p, from) <= end <= |p|
    ensures var next := from + 4 + Length(p, from);
            && HasAttr(p[from..end])
            && Parse(p[from..end]) == ([FirstAttr(p[from..end])] + Parse(p[next..end]).0, Parse(p[next..end]).1)
  {
    AttrParts(p, from, end);
  }

  lemma LeadsForward(p: seq<byte>, from: nat, to: nat)
    requires Leads(p, from, to)
    ensures from <= to
  {}

  lemma LeadsStep(p: seq<byte>, from: nat, to: nat)
    requires Leads(p, from, to) && from != to
    ensures from + 4 + Length(p, from) <= to <= |p| && Leads(p, from + 4 + Length(p, from), to)
  {}

  lemma LeadsNowhere(p: seq<byte>, from: nat)
    ensures Leads(p, from, from)
  {}

  /** What the parser leaves is the same from every boundary. */
  lemma {:induction false} RestFrom(p: seq<byte>, from: nat, at: nat, end: nat)
    requires Leads(p, from, at) && from <= at <= end <= |p|
    ensures Parse(p[from..end]).1 == Parse(p[at..end]).1
    decreases at - from
  {
    hide *;
    if from != at {
      LeadsStep(p, from, at);
      ParseHere(p, from, end);
      RestFrom(p, from + 4 + Length(p, from), at, end);
    }
  }

  lemma ParseStops(body: seq<byte>)
    requires !HasAttr(body)
    ensures Parse(body) == ([], body)
  {}

  lemma {:induction false} StopsAt(p: seq<byte>, from: nat, end: nat) returns (at: nat)
    requires from <= end <= |p|
    ensures Leads(p, from, at) && at <= end && Parse(p[from..end]).1 == p[at..end] && !HasAttr(p[at..end])
    decreases end - from
  {
    hide *;
    if HasAttr(p[from..end]) {
      AttrHere(p, from, end);
      ParseHere(p, from, end);
      at := StopsAt(p, from + 4 + Length(p, from), end);
      LeadsFrom(p, from, at);
    } else {
      at := from;
      ParseStops(p[from..end]);
      LeadsNowhere(p, from);
    }
  }

  lemma RestAt(p: seq<byte>, at: nat, end: nat)
    requires Boundary(p, at) && at <= end <= |p| && !HasAttr(p[at..end])
    ensures Parse(p[20..end]).1 == p[at..end]
  {
    LeadsForward(p, 20, at);
    RestFrom(p, 20, at, end);
  }

  lemma BodyHere(p: seq<byte>)
    requires |p| >= 20
    ensures 20 <= End(p) <= |p| && Body(p) == p[20..End(p)]
  {}

  /** The return value on the bytes: -20 for less than a header; the length if and only if the
      end of the body is a boundary; -21 if and only if fewer than four bytes are left behind
      the last boundary, and -22 if and only if the attribute there is longer than the body. */
  lemma VerdictOnWire(p: seq<byte>)
    ensures Verdict(p) == -20 <==> |p| < 20
    ensures Verdict(p) == |p| <==> |p| >= 20 && Boundary(p, End(p))
    ensures Verdict(p) == -21 <==> |p| >= 20 && exists at: nat :: Boundary(p, at) && at < End(p) < at + 4
    ensures Verdict(p) == -22 <==>
              |p| >= 20 && exists at: nat :: Boundary(p, at) && at + 4 <= End(p) < at + 4 + Length(p, at)
  {
    if |p| >= 20 {
      BodyHere(p);
      var at := LastBoundary(p);
      hide Parse, Leads, Length, End, Boundary;
    }
  }

  /** The walk stops at one boundary, whose distance from the end tells the rest. */
  lemma LastBoundary(p: seq<byte>) returns (at: nat)
    requires |p| >= 20
    ensures 20 <= End(p) <= |p| && at <= End(p) && Boundary(p, at)
    ensures at + 4 <= End(p) ==> End(p) < at + 4 + Length(p, at)
    ensures |Parse(p[20..End(p)]).1| == End(p) - at
    ensures forall at': nat | Boundary(p, at') && at' <= End(p) && (at' + 4 <= End(p) ==> End(p) < at' + 4 + Length(p, at')) :: at' == at
  {
    var end := End(p);
    BodyHere(p);
    at := StopsAt(p, 20, end);
    AttrHere(p, at, end);
    hide Parse, Leads, Length, End, HasAttr;
    forall at': nat | Boundary(p, at') && at' <= end && (at' + 4 <= end ==> end < at' + 4 + Length(p, at')) ensures at' == at {
      AttrHere(p, at', end);
      RestAt(p, at', end);
      assert |p[at..end]| == |p[at'..end]|;
    }
  }

  // ----- the address on the bytes

  lemma IsMappedHere(p: seq<byte>, from: nat)
    requires from + 4 + Length(p, from) <= End(p) <= |p|
    ensures HasAttr(p[from..End(p)])
    ensures IsMappedAddress(FirstAttr(p[from..End(p)])) <==> MappedHere(p, from)
    ensures MappedHere(p, from) ==> AddressOf(FirstAttr(p[from..End(p)])) == Address(p[from + 6..from + 8], p[from + 8..from + 12])
  {
    var end := End(p);
    AttrParts(p, from, end);
    var a := FirstAttr(p[from..end]);
    assert p[from..from + 4] == [p[from], p[from + 1], p[from + 2], p[from + 3]];
    if MappedHere(p, from) {
      Within(p, from + 4, from + 12, 2, 4);
      Within(p, from + 4, from + 12, 4, 8);
    }
  }

  lemma {:induction false} NoneMapped(p: seq<byte>, from: nat, before: Address)
    requires Leads(p, from, End(p)) && End(p) <= |p|
    requires forall j: nat | Leads(p, from, j) :: !MappedHere(p, j)
    ensures Mapped(Parse(p[from..End(p)]).0, before) == before
    decreases End(p) - from
  {
    LeadsForward(p, from, End(p));
    if from == End(p) {
      assert p[from..End(p)] == [];
    } else {
      var next := from + 4 + Length(p, from);
      LeadsForward(p, next, End(p));
      ParseHere(p, from, End(p));
      IsMappedHere(p, from);
      assert Leads(p, from, from);
      hide Parse, Length, Leads, MappedHere, End;
      forall j: nat | Leads(p, next, j) ensures !MappedHere(p, j) {
        LeadsFrom(p, from, j);
      }
      NoneMapped(p, next, before);
      MappedCons(FirstAttr(p[from..End(p)]), Parse(p[next..End(p)]).0, before);
    }
  }

  lemma LeadsFrom(p: seq<byte>, from: nat, j: nat)
    requires from + 4 + Length(p, from) <= |p| && Leads(p, from + 4 + Length(p, from), j)
    ensures Leads(p, from, j)
  {
    LeadsForward(p, from + 4 + Length(p, from), j);
    LeadsInside(p, from + 4 + Length(p, from), j);
  }

  lemma LeadsInside(p: seq<byte>, from: nat, to: nat)
    requires Leads(p, from, to) && from <= |p|
    ensures to <= |p|
  {}

  lemma MappedCons(a: Attr, attrs: seq<Attr>, before: Address)
    ensures Mapped([a] + attrs, before) == Mapped(attrs, if IsMappedAddress(a) then AddressOf(a) else before)
  {
    assert ([a] + attrs)[1..] == attrs;
  }

  lemma MappedFirst(p: seq<byte>, k: nat, before: Address)
    requires Leads(p, k, End(p)) && End(p) <= |p| && MappedHere(p, k)
    requires forall j: nat | k < j && Leads(p, k, j) :: !MappedHere(p, j)
    ensures Mapped(Parse(p[k..End(p)]).0, before) == Address(p[k + 6..k + 8], p[k + 8..k + 12])
  {
    var next := k + 4 + Length(p, k);
    LeadsForward(p, k, End(p));
    LeadsForward(p, next, End(p));
    assert Leads(p, next, End(p));
    hide Parse, Length, Leads, End;
    ParseHere(p, k, End(p));
    IsMappedHere(p, k);
    forall j: nat | Leads(p, next, j) ensures !MappedHere(p, j) {
      LeadsForward(p, next, j);
      LeadsFrom(p, k, j);
    }
    NoneMapped(p, next, Address(p[k + 6..k + 8], p[k + 8..k + 12]));
    MappedCons(FirstAttr(p[k..End(p)]), Parse(p[next..End(p)]).0, before);
  }

  lemma {:induction false} MappedAt(p: seq<byte>, from: nat, k: nat, before: Address)
    requires Leads(p, from, k) && Leads(p, k, End(p)) && End(p) <= |p| && MappedHere(p, k)
    requires forall j: nat | k < j && Leads(p, k, j) :: !MappedHere(p, j)
    ensures Mapped(Parse(p[from..End(p)]).0, before) == Address(p[k + 6..k + 8], p[k + 8..k + 12])
    decreases k - from
  {
    if from == k {
      MappedFirst(p, k, before);
    } else {
      var next := from + 4 + Length(p, from);
      LeadsForward(p, next, k);
      assert Leads(p, next, k);
      hide Parse, Length, Leads, End, MappedHere;
      LeadsForward(p, k, End(p));
      ParseHere(p, from, End(p));
      var a := FirstAttr(p[from..End(p)]);
      MappedAt(p, next, k, if IsMappedAddress(a) then AddressOf(a) else before);
      MappedCons(a, Parse(p[next..End(p)]).0, before);
    }
  }

  /** The way to a place leads through every boundary before it. */
  lemma {:induction false} LeadsOn(p: seq<byte>, from: nat, k: nat, to: nat)
    requires Leads(p, from, k) && Leads(p, from, to) && k <= to
    ensures Leads(p, k, to)
    decreases k - from
  {
    if from != k {
      LeadsForward(p, from + 4 + Length(p, from), k);
      LeadsOn(p, from + 4 + Length(p, from), k, to);
    }
  }

  lemma {:induction false} LeadsVia(p: seq<byte>, from: nat, k: nat, to: nat)
    requires Leads(p, from, k) && Leads(p, k, to) && to <= |p|
    ensures Leads(p, from, to)
    decreases k - from
  {
    if from != k {
      LeadsForward(p, k, to);
      LeadsVia(p, from + 4 + Length(p, from), k, to);
    }
  }

  /** The address taken from an accepted packet: the port and the address in the last 00 01 00
      08 that stands at a boundary, or zero if none does. */
  lemma AddressOnWire(p: seq<byte>)
    requires |p| >= 20 && Boundary(p, End(p))
    ensures var address := Mapped(Attributes(p), NO_ADDRESS);
            && (forall k: nat | LastMappedAt(p, k) :: address == Address(p[k + 6..k + 8], p[k + 8..k + 12]))
            && ((forall k: nat | Boundary(p, k) :: !MappedHere(p, k)) ==> address == Address([0, 0], [0, 0, 0, 0]))
  {
    BodyHere(p);
    forall k: nat | LastMappedAt(p, k)
      ensures Mapped(Attributes(p), NO_ADDRESS) == Address(p[k + 6..k + 8], p[k + 8..k + 12])
    {
      LeadsOn(p, 20, k, End(p));
      forall j: nat | k < j && Leads(p, k, j) ensures !MappedHere(p, j) {
        LeadsInside(p, k, j);
        LeadsVia(p, 20, k, j);
      }
      MappedAt(p, 20, k, NO_ADDRESS);
    }
    if forall k: nat | Boundary(p, k) :: !MappedHere(p, k) {
      NoneMapped(p, 20, NO_ADDRESS);
    }
  }

  /** What handling the packet p comes to: it is accepted exactly when its body ends at a
      boundary, and then the address is the one in the last 00 01 00 08 at a boundary, or zero
      if there is none. */
  ghost predicate HandledAs(p: seq<byte>, ret: int, mapped: Address) {
    && (ret == |p| <==> |p| >= 20 && Boundary(p, End(p)))
    && (ret == -20 <==> |p| < 20)
    && (ret == |p| ==>
          && (forall k: nat | LastMappedAt(p, k) :: mapped == Address(p[k + 6..k + 8], p[k + 8..k + 12]))
          && ((forall k: nat | Boundary(p, k) :: !MappedHere(p, k)) ==> mapped == Address([0, 0], [0, 0, 0, 0])))
  }

  lemma PacketHandled(p: seq<byte>)
    ensures HandledAs(p, Verdict(p), Mapped(Attributes(p), NO_ADDRESS))
  {
    VerdictOnWire(p);
    hide Verdict, Attributes, Mapped, Boundary, LastMappedAt, MappedHere, End;
    if |p| >= 20 && Boundary(p, End(p)) {
      AddressOnWire(p);
    }
  }
}
