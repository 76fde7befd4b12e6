/** GetExternalIPbySTUN: one server after the other is asked until a reply is accepted. */
module StunClient {
  import opened StunPacket
  import opened StunProbe
  import opened StunReceiver
  import opened StunWire

  type ErrorCode = rc: int | rc < 0 witness -1

  /** How one request goes: it fails before a reply can come, with the code of the host
      lookup, the socket, the binding or the sending; or it is sent. */
  datatype Attempt = Failed(rc: ErrorCode) | Sent(reply: Reply)

  /** The reply to this attempt is accepted. */
  predicate Answered(a: Attempt) {
    a.Sent? && a.reply.Received? && a.reply.bytes != [] && Verdict(Clip(a.reply.bytes)) == |Clip(a.reply.bytes)|
  }

  /** At most 1023 bytes of a reply are received. */
  function Received1023(bytes: seq<byte>): seq<byte> {
    if |bytes| < 1024 then bytes else bytes[..1023]
  }

  /** StunRequest */
  method StunRequest(a: Attempt, before: Address) returns (rc: int, mapped: Address)
    ensures rc >= 0 <==> Answered(a)
    ensures Answered(a) ==> mapped == Mapped(Attributes(Clip(a.reply.bytes)), NO_ADDRESS)
    ensures a.Sent? && a.reply.Received? && a.reply.bytes != [] ==> HandledAs(Received1023(a.reply.bytes), rc, mapped)
    ensures a.Failed? ==> rc == a.rc && mapped == before
  {
    match a
    case Failed(code) => return code, before;
    case Sent(reply) => rc, mapped := ReceiveReply(reply, before);
  }

  /** attempts[k - 1] is how attempt k goes. The result is the first attempt that is
      answered, or -1; srv is the server asked last, and asked lists all of them in order. */
  method GetExternalIPbySTUN(rnd: Word, attempts: seq<Attempt>, before: Address)
    returns (result: int, mapped: Address, srv: nat, asked: seq<nat>, step: nat, rounds: nat)
    requires |attempts| == 525
    ensures 1 <= rounds <= 8 && step == Refills(rnd, rounds) % 263 && step > 0
    ensures forall k | 1 <= k < rounds :: Refills(rnd, k) % 263 == 0
    ensures 1 <= |asked| <= 525 && asked[0] == (rnd % 0x1_0000 + step) % 263
    ensures forall k | 0 <= k < |asked| - 1 :: asked[k + 1] == (asked[k] + step) % 263
    ensures srv == asked[|asked| - 1]
    ensures result == -1 <==> forall k | 0 <= k < 525 :: !Answered(attempts[k])
    ensures result == -1 ==> |asked| == 525 && forall s: nat | s < 263 :: s in asked
    ensures result != -1 ==>
              && 1 <= result == |asked| && Answered(attempts[result - 1])
              && (forall k | 0 <= k < result - 1 :: !Answered(attempts[k]))
              && mapped == Mapped(Attributes(Clip(attempts[result - 1].reply.bytes)), NO_ADDRESS)
              && var p := Received1023(attempts[result - 1].reply.bytes); HandledAs(p, |p|, mapped)
  {
    step, rounds := ChooseStep(rnd);
    hide Refills, Answered, Mapped, Attributes, Clip, HandledAs;
    result, mapped, srv, asked := AskServers(rnd % 0x1_0000, step, attempts, before);
    InSteps(rnd % 0x1_0000, step, asked);
    hide Probe;
    if result == -1 {
      AllAsked(rnd % 0x1_0000, step, asked);
    } else {
      AnsweredOnWire(attempts[result - 1]);
    }
  }

  /** The for loop over the attempts. */
  method AskServers(start: nat, step: nat, attempts: seq<Attempt>, before: Address)
    returns (result: int, mapped: Address, srv: nat, asked: seq<nat>)
    requires |attempts| == ATTEMPTS
    ensures 1 <= |asked| <= ATTEMPTS && forall k | 0 <= k < |asked| :: asked[k] == Probe(start, step, k + 1)
    ensures srv == asked[|asked| - 1]
    ensures result == -1 <==> forall k | 0 <= k < ATTEMPTS :: !Answered(attempts[k])
    ensures result == -1 ==> |asked| == ATTEMPTS
    ensures result != -1 ==>
              && 1 <= result == |asked| && Answered(attempts[result - 1])
              && (forall k | 0 <= k < result - 1 :: !Answered(attempts[k]))
              && mapped == Mapped(Attributes(Clip(attempts[result - 1].reply.bytes)), NO_ADDRESS)
  {
    hide Answered, Mapped, Attributes, Clip, HandledAs;
    var pos: nat := start;
    assert pos % QTY == Probe(start, step, 0);
    hide Probe;
    asked, mapped, srv := [], before, 0;
    var attempt := 1;
    while attempt < QTY * 2
      invariant 1 <= attempt <= QTY * 2 && |asked| == attempt - 1
      invariant pos % QTY == Probe(start, step, attempt - 1)
      invariant forall k | 0 <= k < |asked| :: asked[k] == Probe(start, step, k + 1)
      invariant asked != [] ==> srv == asked[|asked| - 1]
      invariant forall k | 0 <= k < attempt - 1 :: !Answered(attempts[k])
    {
      NextProbe(start, step, pos, attempt);
      pos := (pos + step) % QTY;
      srv, asked := pos, asked + [pos];
      var rc;
      rc, mapped := StunRequest(attempts[attempt - 1], mapped);
      if rc >= 0 {
        result := attempt;
        return;
      }
      attempt := attempt + 1;
    }
    result := -1;
  }

  /** Each server asked is one step behind the one before, around the list. */
  lemma InSteps(start: nat, step: nat, asked: seq<nat>)
    requires asked != [] && forall k | 0 <= k < |asked| :: asked[k] == Probe(start, step, k + 1)
    ensures asked[0] == (start + step) % QTY
    ensures forall k | 0 <= k < |asked| - 1 :: asked[k + 1] == (asked[k] + step) % QTY
  {
    forall k | 0 <= k < |asked| - 1 ensures asked[k + 1] == (asked[k] + step) % QTY {
      assert asked[k] == Probe(start, step, k + 1);
      NextProbe(start, step, asked[k], k + 2);
    }
  }

  lemma AnsweredOnWire(a: Attempt)
    requires Answered(a)
    ensures a.Sent? && a.reply.Received?
    ensures var p := Received1023(a.reply.bytes); HandledAs(p, |p|, Mapped(Attributes(Clip(a.reply.bytes)), NO_ADDRESS))
  {
    PacketHandled(Clip(a.reply.bytes));
    hide HandledAs, Mapped, Attributes;
  }

  lemma AllAsked(start: nat, step: nat, asked: seq<nat>)
    requires 1 <= step < QTY <= |asked|
    requires forall k | 0 <= k < |asked| :: asked[k] == Probe(start, step, k + 1)
    ensures forall s: nat | s < QTY :: s in asked
  {
    hide Probe;
    forall s: nat | s < QTY ensures s in asked {
      var k := EveryServerProbed(start, step, s);
      assert asked[k - 1] == s;
    }
  }
}
