/** stun_handle_packet and StunRequest2 on the receive buffer. */
module StunReceiver {
  import opened Sequences
  import opened StunPacket
  import opened StunWire

  // ----- what happens to the buffer

  /** The buffer after the attributes at pos have been handled: the type of each is
      cleared, and the byte after the last one is overwritten by a terminator. */
  ghost function Scrub(s: seq<byte>, pos: nat, attrs: seq<Attr>): (r: seq<byte>)
    requires AllFit(attrs) && pos + |EncodeAll(attrs)| < |s|
    ensures |r| == |s|
    decreases |attrs|
  {
    if attrs == [] then s[pos := 0]
    else Scrub(s[pos := 0][pos + 1 := 0], pos + ATTR_HEADER + |attrs[0].value|, attrs[1..])
  }

  lemma {:induction false} ScrubFrame(s: seq<byte>, pos: nat, attrs: seq<Attr>, i: nat)
    requires AllFit(attrs) && pos + |EncodeAll(attrs)| < |s|
    requires i < pos || pos + |EncodeAll(attrs)| < i < |s|
    ensures Scrub(s, pos, attrs)[i] == s[i]
    decreases |attrs|
  {
    if attrs != [] {
      ScrubFrame(s[pos := 0][pos + 1 := 0], pos + ATTR_HEADER + |attrs[0].value|, attrs[1..], i);
    }
  }

  lemma ScrubZeroAt(s: seq<byte>, pos: nat, attrs: seq<Attr>)
    requires AllFit(attrs) && pos + |EncodeAll(attrs)| < |s|
    ensures Scrub(s, pos, attrs)[pos] == 0
  {
    if attrs != [] {
      ScrubFrame(s[pos := 0][pos + 1 := 0], pos + ATTR_HEADER + |attrs[0].value|, attrs[1..], pos);
    }
  }

  /** The bytes of the first value stay, and the byte after them becomes zero. */
  lemma ScrubFirst(s: seq<byte>, pos: nat, attrs: seq<Attr>)
    requires AllFit(attrs) && pos + |EncodeAll(attrs)| < |s| && attrs != []
    ensures var at, end := pos + ATTR_HEADER, pos + ATTR_HEADER + |attrs[0].value|;
            end < |s| && Scrub(s, pos, attrs)[at..end] == s[at..end] && Scrub(s, pos, attrs)[end] == 0
  {
    hide Encode;
    var at, end := pos + ATTR_HEADER, pos + ATTR_HEADER + |attrs[0].value|;
    var s' := s[pos := 0][pos + 1 := 0];
    assert EncodeAll(attrs) == Encode(attrs[0]) + EncodeAll(attrs[1..]);
    assert Scrub(s, pos, attrs) == Scrub(s', end, attrs[1..]);
    forall k | at <= k < end ensures Scrub(s, pos, attrs)[k] == s[k] {
      ScrubFrame(s', end, attrs[1..], k);
    }
    ScrubZeroAt(s', end, attrs[1..]);
  }

  /** Every value handed to the callback is still in place afterwards and is followed by
      a zero byte, so a string attribute is terminated. */
  lemma {:induction false} ScrubTerminates(s: seq<byte>, pos: nat, attrs: seq<Attr>, i: nat)
    requires AllFit(attrs) && pos + |EncodeAll(attrs)| < |s| && i < |attrs|
    ensures var at := pos + |EncodeAll(attrs[..i])| + ATTR_HEADER; var end := at + |attrs[i].value|;
            && end < |s|
            && Scrub(s, pos, attrs)[at..end] == s[at..end]
            && Scrub(s, pos, attrs)[end] == 0
    decreases i
  {
    if i == 0 {
      assert attrs[..0] == [];
      ScrubFirst(s, pos, attrs);
    } else {
      var a, tail := attrs[0], attrs[1..];
      var next, s' := pos + ATTR_HEADER + |a.value|, s[pos := 0][pos + 1 := 0];
      ScrubTerminates(s', next, tail, i - 1);
      assert attrs[..i][1..] == tail[..i - 1];
      assert |EncodeAll(attrs[..i])| == ATTR_HEADER + |a.value| + |EncodeAll(tail[..i - 1])|;
      var at := pos + |EncodeAll(attrs[..i])| + ATTR_HEADER;
      assert s'[at..at + |attrs[i].value|] == s[at..at + |attrs[i].value|];
    }
  }

  /** A walk over s[pos..end] clears the byte x: one of the two type bytes of a complete
      attribute, or the byte at which it stops. */
  ghost predicate Clears(s: seq<byte>, pos: nat, end: nat, x: nat) {
    exists k: nat | k <= end :: Leads(s, pos, k)
      && (x == k || (x == k + 1 && k + 4 + Length(s, k) <= end))
  }

  lemma {:induction false} SameWay(s: seq<byte>, s': seq<byte>, from: nat, k: nat)
    requires |s| == |s'| && from <= |s| && s[from..] == s'[from..]
    ensures Leads(s, from, k) <==> Leads(s', from, k)
    ensures Length(s, from) == Length(s', from)
    decreases k - from
  {
    if from + 4 <= |s| {
      assert s[from + 2] == s[from..][2] == s'[from..][2] == s'[from + 2];
      assert s[from + 3] == s[from..][3] == s'[from..][3] == s'[from + 3];
    }
    var next := from + 4 + Length(s, from);
    if from != k && next <= k <= |s| {
      assert s[next..] == s[from..][next - from..] && s'[next..] == s'[from..][next - from..];
      SameWay(s, s', next, k);
    }
  }

  lemma SameFrom(s: seq<byte>, s': seq<byte>, next: nat, k: nat)
    requires |s| == |s'| && next <= |s| && s[next..] == s'[next..] && Leads(s, next, k) && k <= |s|
    ensures Leads(s', next, k) && Length(s', k) == Length(s, k)
  {
    SameWay(s, s', next, k);
    LeadsForward(s, next, k);
    assert s[k..] == s[next..][k - next..] && s'[k..] == s'[next..][k - next..];
    SameWay(s, s', k, k);
  }

  lemma ClearsStep(s: seq<byte>, s': seq<byte>, pos: nat, end: nat, x: nat)
    requires pos + 4 + Length(s, pos) <= end < |s| && s' == s[pos := 0][pos + 1 := 0]
    ensures Clears(s, pos, end, x) <==> x == pos || x == pos + 1 || Clears(s', pos + 4 + Length(s, pos), end, x)
  {
    var next := pos + 4 + Length(s, pos);
    assert s[next..] == s'[next..];
    hide Length;
    LeadsNowhere(s, pos);
    if k: nat :| k <= end && Leads(s, pos, k) && (x == k || (x == k + 1 && k + 4 + Length(s, k) <= end)) && k != pos {
      LeadsStep(s, pos, k);
      SameFrom(s, s', next, k);
      assert Clears(s', next, end, x);
    }
    if k: nat :| k <= end && Leads(s', next, k) && (x == k || (x == k + 1 && k + 4 + Length(s', k) <= end)) {
      SameFrom(s', s, next, k);
      LeadsFrom(s, pos, k);
      assert Clears(s, pos, end, x);
    }
  }

  lemma ClearsLast(s: seq<byte>, pos: nat, end: nat, x: nat)
    requires pos <= end < |s| && !HasAttr(s[pos..end])
    ensures Clears(s, pos, end, x) <==> x == pos
  {
    AttrHere(s, pos, end);
    LeadsNowhere(s, pos);
    if k: nat :| k <= end && Leads(s, pos, k) && k != pos {
      LeadsStep(s, pos, k);
    }
  }

  lemma ScrubCons(s: seq<byte>, pos: nat, a: Attr, rest: seq<Attr>)
    requires FitsFormat(a) && AllFit(rest) && pos + 4 + |a.value| + |EncodeAll(rest)| < |s|
    ensures AllFit([a] + rest) && pos + |EncodeAll([a] + rest)| < |s|
    ensures Scrub(s, pos, [a] + rest) == Scrub(s[pos := 0][pos + 1 := 0], pos + 4 + |a.value|, rest)
  {
    assert ([a] + rest)[1..] == rest;
  }

  lemma ScrubStep(s: seq<byte>, s': seq<byte>, pos: nat, end: nat)
    requires pos + 4 + Length(s, pos) <= end < |s| && s' == s[pos := 0][pos + 1 := 0]
    ensures Scrub(s, pos, Parse(s[pos..end]).0) ==
            Scrub(s', pos + 4 + Length(s, pos), Parse(s'[pos + 4 + Length(s, pos)..end]).0)
  {
    hide *;
    var next := pos + 4 + Length(s, pos);
    AttrParts(s, pos, end);
    ParseHere(s, pos, end);
    assert s'[next..end] == s[next..end];
    ScrubCons(s, pos, FirstAttr(s[pos..end]), Parse(s[next..end]).0);
  }

  lemma ScrubLast(s: seq<byte>, pos: nat, end: nat)
    requires pos <= end < |s| && !HasAttr(s[pos..end])
    ensures Scrub(s, pos, Parse(s[pos..end]).0) == s[pos := 0]
  {
    ParseStops(s[pos..end]);
  }

  /** The bytes that the walk writes are exactly those; all others stay as they were. */
  lemma {:induction false} ScrubOnWire(s: seq<byte>, pos: nat, end: nat, x: nat)
    requires pos <= end < |s| && x < |s|
    ensures Scrub(s, pos, Parse(s[pos..end]).0)[x] == if Clears(s, pos, end, x) then 0 else s[x]
    decreases end - pos
  {
    hide *;
    if HasAttr(s[pos..end]) {
      AttrHere(s, pos, end);
      var next, s' := pos + 4 + Length(s, pos), s[pos := 0][pos + 1 := 0];
      ScrubStep(s, s', pos, end);
      ScrubOnWire(s', next, end, x);
      ClearsStep(s, s', pos, end, x);
    } else {
      ScrubLast(s, pos, end);
      ClearsLast(s, pos, end, x);
    }
  }

  // ----- the loop

  lemma {:induction false} MappedAppend(attrs: seq<Attr>, a: Attr, before: Address)
    ensures Mapped(attrs + [a], before) == Mapped([a], Mapped(attrs, before))
    decreases |attrs|
  {
    if attrs == [] {
      assert attrs + [a] == [a];
    } else {
      MappedAppend(attrs[1..], a, if IsMappedAddress(attrs[0]) then AddressOf(attrs[0]) else before);
      assert (attrs + [a])[1..] == attrs[1..] + [a];
    }
  }

  lemma MappedOne(a: Attr, before: Address)
    ensures Mapped([a], before) == if IsMappedAddress(a) then AddressOf(a) else before
  {
    assert [a][1..] == [];
  }

  /** What the walk has read when it is at data: the attributes seen so far and those
      still to come are all the attributes of the body. */
  ghost predicate Reads(s0: seq<byte>, end: nat, data: nat, seen: seq<Attr>, mapped: Address) {
    && HEADER <= data <= end < |s0|
    && Parse(s0[HEADER..end]) == (seen + Parse(s0[data..end]).0, Parse(s0[data..end]).1)
    && mapped == Mapped(seen, NO_ADDRESS)
  }

  /** What it has written: nothing from data on, and scrubbing what is still to come
      will complete the buffer to goal. */
  ghost predicate Writes(s0: seq<byte>, cur: seq<byte>, data: nat, todo: seq<Attr>, goal: seq<byte>) {
    && data <= |s0| == |cur| && cur[data..] == s0[data..]
    && AllFit(todo) && data + |EncodeAll(todo)| < |cur| && Scrub(cur, data, todo) == goal
  }

  lemma ParseOn(s0: seq<byte>, end: nat, data: nat, next: nat)
    requires data <= end <= |s0| && HasAttr(s0[data..end])
    requires next == data + ATTR_HEADER + |FirstAttr(s0[data..end]).value|
    ensures next <= end
    ensures Parse(s0[data..end]) == ([FirstAttr(s0[data..end])] + Parse(s0[next..end]).0, Parse(s0[next..end]).1)
  {
    assert AfterAttr(s0[data..end]) == s0[next..end];
  }

  lemma ReadsOn(s0: seq<byte>, end: nat, data: nat, next: nat, seen: seq<Attr>, mapped: Address)
    requires Reads(s0, end, data, seen, mapped) && HasAttr(s0[data..end])
    requires next == data + ATTR_HEADER + |FirstAttr(s0[data..end]).value|
    ensures Reads(s0, end, next, seen + [FirstAttr(s0[data..end])], Mapped([FirstAttr(s0[data..end])], mapped))
  {
    var a := FirstAttr(s0[data..end]);
    ParseOn(s0, end, data, next);
    MappedAppend(seen, a, NO_ADDRESS);
    Regroup(seen, [a], Parse(s0[next..end]).0);
  }

  lemma WritesOn(s0: seq<byte>, cur: seq<byte>, data: nat, a: Attr, todo: seq<Attr>, goal: seq<byte>)
    requires Writes(s0, cur, data, [a] + todo, goal) && AllFit(todo)
    ensures Writes(s0, cur[data := 0][data + 1 := 0], data + ATTR_HEADER + |a.value|, todo, goal)
  {
    var cur', next := cur[data := 0][data + 1 := 0], data + ATTR_HEADER + |a.value|;
    assert ([a] + todo)[1..] == todo;
    forall k | next <= k < |cur| ensures cur'[k] == s0[k] {
      assert cur[k] == cur[data..][k - data] == s0[data..][k - data];
    }
    assert cur'[next..] == s0[next..];
  }

  /** stun_get_mapped: attr is the attribute at buf[data..]. */
  method GetMapped(buf: array<byte>, data: nat, before: Address) returns (mapped: Address)
    requires data <= buf.Length && HasAttr(buf[data..])
    ensures mapped == Mapped([FirstAttr(buf[data..])], before)
    ensures if buf[data..data + 4] == [0, 1, 0, 8] then mapped == Address(buf[data + 6..data + 8], buf[data + 8..data + 12])
            else mapped == before
  {
    assert buf[data..data + 4] == [buf[data], buf[data + 1], buf[data + 2], buf[data + 3]];
    ghost var a := FirstAttr(buf[data..]);
    MappedOne(a, before);
    if U16(buf[data], buf[data + 1]) != MAPPED_ADDRESS || U16(buf[data + 2], buf[data + 3]) != 8 {
      return before;
    }
    var addr := data + ATTR_HEADER;
    assert a.value == buf[addr..addr + 8];
    Within(buf[..], addr, addr + 8, 2, 4);
    Within(buf[..], addr, addr + 8, 4, 8);
    assert a.value == buf[..][addr..addr + 8];
    mapped := Address(buf[addr + 2..addr + 4], buf[addr + 4..addr + 8]);
  }

  /** One attribute: the callback, then attr->attr = 0. */
  method HandleAttr(buf: array<byte>, data: nat, before: Address) returns (attr: Attr, mapped: Address)
    requires data <= buf.Length && HasAttr(buf[data..])
    modifies buf
    ensures attr == old(FirstAttr(buf[data..])) && mapped == Mapped([attr], before)
    ensures buf[..] == old(buf[..])[data := 0][data + 1 := 0]
  {
    mapped := GetMapped(buf, data, before);
    var n := U16(buf[data + 2], buf[data + 3]);
    assert FirstAttr(buf[data..]).value == buf[data + ATTR_HEADER..data + ATTR_HEADER + n];
    attr := Attr(U16(buf[data], buf[data + 1]), buf[data + ATTR_HEADER..data + ATTR_HEADER + n]);
    buf[data], buf[data + 1] := 0, 0;
  }

  ghost predicate Walk(s0: seq<byte>, cur: seq<byte>, end: nat, data: nat, seen: seq<Attr>, mapped: Address, goal: seq<byte>) {
    Reads(s0, end, data, seen, mapped) && Writes(s0, cur, data, Parse(s0[data..end]).0, goal)
  }

  /** The loop's tests on buf[data..] are those of the format on what is left of the body. */
  lemma WalkTests(s0: seq<byte>, cur: seq<byte>, end: nat, data: nat, seen: seq<Attr>, mapped: Address, goal: seq<byte>)
    requires Walk(s0, cur, end, data, seen, mapped, goal)
    ensures data <= end < |s0| == |cur|
    ensures HasAttr(s0[data..end]) <==> end - data >= ATTR_HEADER && ATTR_HEADER + U16(cur[data + 2], cur[data + 3]) <= end - data
    ensures HasAttr(s0[data..end]) ==> HasAttr(cur[data..]) && FirstAttr(cur[data..]) == FirstAttr(s0[data..end])
  {
    var body := s0[data..end];
    assert body == cur[data..][..end - data];
    hide Walk, Parse, Scrub;
    if |body| >= ATTR_HEADER {
      assert body[0] == cur[data] && body[1] == cur[data + 1] && body[2] == cur[data + 2] && body[3] == cur[data + 3];
    }
    if HasAttr(body) {
      FirstOfPrefix(cur[data..], end - data);
    }
  }

  lemma FirstOfPrefix(s: seq<byte>, n: nat)
    requires n <= |s| && HasAttr(s[..n])
    ensures HasAttr(s) && FirstAttr(s) == FirstAttr(s[..n])
  {
    var m := ATTR_HEADER + U16(s[2], s[3]);
    assert s[..n][2] == s[2] && s[..n][3] == s[3];
    assert s[..n] == s[0..n];
    Within(s, 0, n, ATTR_HEADER, m);
  }

  lemma WalkStarts(s0: seq<byte>, end: nat)
    requires HEADER <= end < |s0|
    ensures Walk(s0, s0, end, HEADER, [], NO_ADDRESS, Scrub(s0, HEADER, Parse(s0[HEADER..end]).0))
  {
    assert [] + Parse(s0[HEADER..end]).0 == Parse(s0[HEADER..end]).0;
  }

  lemma WritesNext(s0: seq<byte>, cur: seq<byte>, end: nat, data: nat, next: nat, goal: seq<byte>)
    requires data <= end <= |s0| && HasAttr(s0[data..end])
    requires next == data + ATTR_HEADER + |FirstAttr(s0[data..end]).value|
    requires Writes(s0, cur, data, Parse(s0[data..end]).0, goal)
    ensures next <= end && data + 1 < |cur|
    ensures Writes(s0, cur[data := 0][data + 1 := 0], next, Parse(s0[next..end]).0, goal)
  {
    assert data + 1 < |cur|;
    hide Writes;
    ParseOn(s0, end, data, next);
    WritesOn(s0, cur, data, FirstAttr(s0[data..end]), Parse(s0[next..end]).0, goal);
  }

  lemma WalkOn(s0: seq<byte>, cur: seq<byte>, end: nat, data: nat, next: nat, seen: seq<Attr>, mapped: Address, goal: seq<byte>)
    requires Walk(s0, cur, end, data, seen, mapped, goal) && HasAttr(s0[data..end])
    requires next == data + ATTR_HEADER + |FirstAttr(s0[data..end]).value|
    ensures next <= end && data + 1 < |cur|
    ensures var a := FirstAttr(s0[data..end]);
            Walk(s0, cur[data := 0][data + 1 := 0], end, next, seen + [a], Mapped([a], mapped), goal)
  {
    ReadsOn(s0, end, data, next, seen, mapped);
    WritesNext(s0, cur, end, data, next, goal);
  }

  lemma WalkEnds(s0: seq<byte>, cur: seq<byte>, end: nat, data: nat, seen: seq<Attr>, mapped: Address, goal: seq<byte>)
    requires Walk(s0, cur, end, data, seen, mapped, goal) && !HasAttr(s0[data..end])
    ensures mapped == Mapped(seen, NO_ADDRESS)
    ensures Parse(s0[HEADER..end]) == (seen, s0[data..end])
    ensures cur[data := 0] == goal
  {
    assert seen + [] == seen;
  }

  /** The tests of one round: the error, or 0 and the size of the attribute at data. */
  method CheckAttr(buf: array<byte>, data: nat, left: nat) returns (stop: int, x: nat)
    requires 0 < left && data + left <= buf.Length
    ensures stop == if left < ATTR_HEADER then -21
                    else if ATTR_HEADER + U16(buf[data + 2], buf[data + 3]) > left then -22 else 0
    ensures x == if stop == 0 then ATTR_HEADER + U16(buf[data + 2], buf[data + 3]) else 0
  {
    if left < ATTR_HEADER {
      return -21, 0;
    }
    x := U16(buf[data + 2], buf[data + 3]) + ATTR_HEADER;
    if x > left {
      return -22, 0;
    }
    stop := 0;
  }

  /** The attribute at data is handled, and the walk goes on behind it. */
  method Advance(buf: array<byte>, end: nat, data: nat, seen: seq<Attr>, before: Address, ghost s0: seq<byte>, ghost goal: seq<byte>)
    returns (attrs: seq<Attr>, mapped: Address)
    requires Walk(s0, buf[..], end, data, seen, before, goal)
    requires data <= end <= |s0| && HasAttr(s0[data..end])
    requires HasAttr(buf[data..]) && FirstAttr(buf[data..]) == FirstAttr(s0[data..end])
    modifies buf
    ensures var next := data + ATTR_HEADER + |FirstAttr(s0[data..end]).value|;
            next <= end && Walk(s0, buf[..], end, next, attrs, mapped, goal)
  {
    hide Walk;
    ghost var next := data + ATTR_HEADER + |FirstAttr(s0[data..end]).value|;
    WalkOn(s0, buf[..], end, data, next, seen, before, goal);
    var attr;
    attr, mapped := HandleAttr(buf, data, before);
    attrs := seen + [attr];
  }

  /** One round of the while loop, at buf[data..end]: stop is the error, or 0 to go on. */
  method WalkRound(buf: array<byte>, end: nat, data: nat, seen: seq<Attr>, before: Address, ghost s0: seq<byte>, ghost goal: seq<byte>)
    returns (stop: int, x: nat, attrs: seq<Attr>, mapped: Address)
    requires Walk(s0, buf[..], end, data, seen, before, goal) && data < end <= |s0|
    modifies buf
    ensures data + x <= end && Walk(s0, buf[..], end, data + x, attrs, mapped, goal)
    ensures stop == 0 ==> x > 0
    ensures stop != 0 ==> x == 0 && !HasAttr(s0[data..end]) && stop == if end - data < ATTR_HEADER then -21 else -22
  {
    hide Walk;
    WalkTests(s0, buf[..], end, data, seen, before, goal);
    stop, x := CheckAttr(buf, data, end - data);
    attrs, mapped := seen, before;
    if stop == 0 {
      assert buf[..][data..] == buf[data..];
      attrs, mapped := Advance(buf, end, data, seen, before, s0, goal);
    }
  }

  /** The while loop over the attributes in buf[HEADER..end], and the final terminator. */
  method WalkAttrs(buf: array<byte>, end: nat) returns (stop: int, seen: seq<Attr>, mapped: Address)
    requires HEADER <= end < buf.Length
    modifies buf
    ensures var (attrs, rest) := old(Parse(buf[HEADER..end]));
            && seen == attrs && mapped == Mapped(attrs, NO_ADDRESS)
            && stop == if rest == [] then 0 else if |rest| < ATTR_HEADER then -21 else -22
    ensures buf[..] == old(Scrub(buf[..], HEADER, Parse(buf[HEADER..end]).0))
  {
    hide Walk, Parse, Scrub;
    ghost var s0 := buf[..];
    assert buf[HEADER..end] == s0[HEADER..end];
    WalkStarts(s0, end);
    ghost var goal := Scrub(s0, HEADER, Parse(s0[HEADER..end]).0);
    var left, data: nat := end - HEADER, HEADER;
    mapped, seen, stop := NO_ADDRESS, [], 0;
    while left != 0 && stop == 0
      invariant 0 <= left && data + left == end < |s0|
      invariant Walk(s0, buf[..], end, data, seen, mapped, goal)
      invariant stop == 0 || (!HasAttr(s0[data..end]) && left != 0 && stop == if left < ATTR_HEADER then -21 else -22)
      decreases left, stop == 0
    {
      var x;
      stop, x, seen, mapped := WalkRound(buf, end, data, seen, mapped, s0, goal);
      data, left := data + x, left - x;
    }
    WalkEnds(s0, buf[..], end, data, seen, mapped, goal);
    buf[data] := 0;
  }

  /** The packet is in buf[..len], and the buffer is at least one byte longer. The callback
      sees exactly the complete attributes at the front of the body, in order, before
      their types are cleared. */
  method HandlePacket(buf: array<byte>, len: nat) returns (ret: int, seen: seq<Attr>, mapped: Address)
    requires len < buf.Length
    modifies buf
    ensures var packet := old(buf[..len]);
            ret == Verdict(packet) && seen == Attributes(packet) && mapped == Mapped(Attributes(packet), NO_ADDRESS)
    ensures HandledAs(old(buf[..len]), ret, mapped)
    ensures len < HEADER ==> buf[..] == old(buf[..])
    ensures len >= HEADER ==> HEADER + |EncodeAll(seen)| < buf.Length && buf[..] == Scrub(old(buf[..]), HEADER, seen)
    ensures len >= HEADER ==> forall x: nat | x < buf.Length ::
              buf[x] == if Clears(old(buf[..]), 20, End(old(buf[..len])), x) then 0 else old(buf[x])
  {
    hide Verdict, Attributes, HandledAs, Clears, Scrub, Mapped, Parse, End;
    PacketHandled(buf[..len]);
    if len < HEADER {
      ShortPacket(buf[..len]);
      return -20, [], NO_ADDRESS;
    }
    ret, seen, mapped := HandleBody(buf, len);
    ClearedBytes(old(buf[..]), len);
  }

  lemma ShortPacket(p: seq<byte>)
    requires |p| < HEADER
    ensures Verdict(p) == -20 && Attributes(p) == [] && Mapped([], NO_ADDRESS) == NO_ADDRESS
  {}

  /** Behind the test on the header. */
  method HandleBody(buf: array<byte>, len: nat) returns (ret: int, seen: seq<Attr>, mapped: Address)
    requires HEADER <= len < buf.Length
    modifies buf
    ensures var packet := old(buf[..len]);
            ret == Verdict(packet) && seen == Attributes(packet) && mapped == Mapped(Attributes(packet), NO_ADDRESS)
    ensures HEADER + |EncodeAll(seen)| < buf.Length && buf[..] == Scrub(old(buf[..]), HEADER, seen)
  {
    hide Scrub, Mapped, Parse;
    var left := len - HEADER;
    var x := U16(buf[2], buf[3]);
    if x < left {
      left := x;
    }
    assert Body(buf[..len]) == buf[HEADER..HEADER + left];
    var stop;
    stop, seen, mapped := WalkAttrs(buf, HEADER + left);
    ret := if stop == 0 then len else stop;
  }

  lemma ClearedBytes(s: seq<byte>, len: nat)
    requires HEADER <= len < |s|
    ensures var end := End(s[..len]);
            && 20 <= end <= len
            && Attributes(s[..len]) == Parse(s[20..end]).0
            && forall x: nat | x < |s| :: Scrub(s, 20, Parse(s[20..end]).0)[x] == if Clears(s, 20, end, x) then 0 else s[x]
  {
    BodyHere(s[..len]);
    var end := End(s[..len]);
    assert s[..len][20..end] == s[20..end];
    forall x: nat | x < |s| ensures Scrub(s, 20, Parse(s[20..end]).0)[x] == if Clears(s, 20, end, x) then 0 else s[x] {
      ScrubOnWire(s, 20, end, x);
    }
  }

  const BUFFER := 1024   // unsigned char reply_buf[1024]

  datatype Reply = NoReply | Received(bytes: seq<byte>)

  /** What recvfrom puts into the buffer. */
  function Clip(bytes: seq<byte>): seq<byte> {
    if |bytes| < BUFFER then bytes else bytes[..BUFFER - 1]
  }

  /** StunRequest2 once the request is out: no reply is an error and leaves the address
      alone, and at most BUFFER - 1 bytes of a reply are handled in a buffer that has room
      for the terminator. Of an accepted reply the address is the one that stands in the last
      00 01 00 08 at an attribute boundary. */
  method ReceiveReply(reply: Reply, before: Address) returns (ret: int, mapped: Address)
    ensures reply.NoReply? ==> ret == -11 && mapped == before
    ensures reply.Received? && reply.bytes == [] ==> ret == -12 && mapped == before
    ensures reply.Received? && reply.bytes != [] ==>
              var packet := Clip(reply.bytes);
              ret == Verdict(packet) && mapped == Mapped(Attributes(packet), NO_ADDRESS)
    ensures reply.Received? && reply.bytes != [] ==>
              HandledAs(if |reply.bytes| < 1024 then reply.bytes else reply.bytes[..1023], ret, mapped)
  {
    hide Verdict, Attributes, Mapped, HandledAs;
    if reply.NoReply? {
      return -11, before;
    }
    var res := if |reply.bytes| < BUFFER then |reply.bytes| else BUFFER - 1;
    if res <= 0 {
      return -12, before;
    }
    var replyBuf := new byte[BUFFER](i => if 0 <= i < res <= |reply.bytes| then reply.bytes[i] else 0);
    assert replyBuf[..res] == reply.bytes[..res];
    assert |reply.bytes| < BUFFER ==> reply.bytes[..res] == reply.bytes;
    var seen;
    ret, seen, mapped := HandlePacket(replyBuf, res);
    PacketHandled(Clip(reply.bytes));
  }
}
