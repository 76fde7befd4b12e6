/** The JSON command link from the GUI to the service: sendCommand writes a text and '\n',
    and the service cuts its receive buffer at '\n'. */
module ClientConnection {
  import opened Framing
  import opened Sequences
  import opened TextCodec

  const LF: Byte := 10

  // ----- the writer

  /** What sendCommand puts on the socket for a sequence of commands. */
  function Sent(texts: seq<string>): seq<Byte> {
    if texts == [] then [] else ToLatin1(texts[0]) + [LF] + Sent(texts[1..])
  }

  // ----- the reader

  class QVPNClientConnection {
    var mReceiveBuffer: seq<Byte>
    var commands: seq<seq<Byte>>      // handed to the JSON parser so far
    ghost var stream: seq<Byte>       // everything received so far

    /** The commands extracted and the bytes kept are those of the whole stream. */
    ghost predicate Valid() reads this {
      (commands, mReceiveBuffer) == Split(stream, [LF])
    }

    constructor ()
      ensures Valid() && stream == [] && commands == []
    {
      mReceiveBuffer, commands, stream := [], [], [];
    }

    /** socket_readyRead, whatever part of the stream the chunk is. */
    method SocketReadyRead(chunk: seq<Byte>)
      requires Valid()
      modifies this
      ensures Valid() && stream == old(stream) + chunk
      ensures !Contains(mReceiveBuffer, [LF])
    {
      SplitAppend(stream, chunk, [LF]);
      stream := stream + chunk;
      mReceiveBuffer := mReceiveBuffer + chunk;
      ghost var all := Split(mReceiveBuffer, [LF]);
      ghost var before := commands;
      var pos := IndexOf(mReceiveBuffer, [LF]);
      while pos >= 0
        invariant stream == old(stream) + chunk
        invariant if pos >= 0 then IsFirst(mReceiveBuffer, [LF], pos) else !Contains(mReceiveBuffer, [LF])
        invariant commands + Split(mReceiveBuffer, [LF]).0 == before + all.0
        invariant Split(mReceiveBuffer, [LF]).1 == all.1
        decreases |mReceiveBuffer|
      {
        SplitAtFirst(mReceiveBuffer, [LF], pos);
        var command := mReceiveBuffer[..pos];
        Regroup(commands, [command], Split(mReceiveBuffer[pos + 1..], [LF]).0);
        mReceiveBuffer := mReceiveBuffer[|command| + 1..];
        commands := commands + [command];
        pos := IndexOf(mReceiveBuffer, [LF]);
      }
      assert commands + [] == commands;
    }
  }

  // ----- round trip

  function Received(texts: seq<string>): (r: seq<seq<Byte>>)
    ensures |r| == |texts| && forall i | 0 <= i < |texts| :: r[i] == ToLatin1(texts[i])
  {
    seq(|texts|, i requires 0 <= i < |texts| => ToLatin1(texts[i]))
  }

  lemma {:induction false} SentIsJoined(texts: seq<string>)
    ensures Sent(texts) == Join(Received(texts), [LF])
  {
    if texts != [] {
      SentIsJoined(texts[1..]);
      assert Received(texts)[1..] == Received(texts[1..]);
    }
  }

  /** Any sequence of texts without a newline arrives as that many commands, in order, and
      nothing is left in the buffer. */
  lemma CommandsArrive(texts: seq<string>)
    requires forall t | t in texts :: '\n' !in t
    ensures Split(Sent(texts), [LF]) == (Received(texts), [])
  {
    SentIsJoined(texts);
    forall p | p in Received(texts) ensures IsPiece(p, [LF]) {
      var i :| 0 <= i < |texts| && p == ToLatin1(texts[i]);
      assert texts[i] in texts;
      Latin1Has(texts[i], '\n');
      PieceOfOne(p, LF);
    }
    assert !Contains<Byte>([], [LF]);
    SplitJoin(Received(texts), [], [LF]);
    assert Join(Received(texts), [LF]) + [] == Join(Received(texts), [LF]);
  }

  predicate IsAscii(text: string) {
    forall c | c in text :: c as int < 0x80
  }

  lemma {:induction false} AsciiSurvives(text: string)
    ensures |ToLatin1(text)| <= |ToUtf8(text)|
    ensures ToLatin1(text) == ToUtf8(text) <==> IsAscii(text)
  {
    if text != [] {
      AsciiSurvives(text[1..]);
      if text[0] as int >= 0x80 {
        assert |Latin1(text[0])| < |Utf8(text[0])|;
        assert text[0] in text;
      } else {
        assert ToLatin1(text)[1..] == ToLatin1(text[1..]) && ToUtf8(text)[1..] == ToUtf8(text[1..]);
        if IsAscii(text[1..]) {
          forall i | 0 <= i < |text| ensures text[i] as int < 0x80 {
            if i > 0 { assert text[i] == text[1..][i - 1] && text[1..][i - 1] in text[1..]; }
          }
        } else {
          var i :| 0 <= i < |text[1..]| && text[1..][i] as int >= 0x80;
          assert text[i + 1] in text;
        }
      }
    }
  }

  /** The receiver parses its commands as UTF-8, in which the sender's texts were produced:
      it gets those very bytes for every text if and only if all texts are ASCII. */
  lemma JsonArrives(texts: seq<string>)
    requires forall t | t in texts :: '\n' !in t
    ensures |Split(Sent(texts), [LF]).0| == |texts|
    ensures (forall i | 0 <= i < |texts| :: Split(Sent(texts), [LF]).0[i] == ToUtf8(texts[i])) <==> (forall t | t in texts :: IsAscii(t))
  {
    CommandsArrive(texts);
    forall i | 0 <= i < |texts| ensures Received(texts)[i] == ToUtf8(texts[i]) <==> IsAscii(texts[i]) {
      AsciiSurvives(texts[i]);
    }
  }
}
