/** The cache of a control socket outlives the connection: what the next connection on the
    same address executes. */
module ServiceLeftover {
  import opened Framing
  import opened Sequences
  import opened ServiceClients
  import opened ServiceSocket
  import opened TextCodec

  // ----- text in front of a stream

  lemma OccursLater(r: string, s: string, k: nat)
    ensures OccursAt(r + s, CRLF, |r| + k) <==> OccursAt(s, CRLF, k)
  {
    if |r| + k + 2 <= |r + s| {
      assert (r + s)[|r| + k..|r| + k + 2] == s[k..k + 2];
    }
  }

  lemma PieceWithoutFirst(p: string)
    requires IsPiece(p, CRLF) && p != ""
    ensures IsPiece(p[1..], CRLF)
  {
    var p' := p[1..];
    assert p + CRLF == [p[0]] + (p' + CRLF);
    forall k: nat | k <= |p'| ensures OccursAt(p' + CRLF, CRLF, k) == OccursAt(p + CRLF, CRLF, k + 1) {
      OccursLater([p[0]], p' + CRLF, k);
    }
    assert OccursAt(p + CRLF, CRLF, |p'| + 1);
    forall k: nat | k < |p'| ensures !OccursAt(p' + CRLF, CRLF, k) {
      assert !OccursAt(p + CRLF, CRLF, k + 1);
    }
  }

  lemma PieceBeforeCR(r: string)
    requires !Contains(r, CRLF) && r != "" && r[|r| - 1] == '\r'
    ensures IsPiece(r[..|r| - 1], CRLF)
  {
    var j := |r| - 1;
    var q := r[..j];
    assert (q + CRLF)[j..j + 2] == CRLF;
    assert (q + CRLF)[..|r|] == r;
    forall k: nat | k < j ensures !OccursAt(q + CRLF, CRLF, k) {
      assert (q + CRLF)[k..k + 2] == r[k..k + 2];
      assert !OccursAt(r, CRLF, k);
    }
  }

  lemma StraddleEnds(r: string, p: string)
    requires r != "" && OccursAt(r + (p + CRLF), CRLF, |r| - 1)
    ensures r == r[..|r| - 1] + "\r" && p != "" && p == "\n" + p[1..]
  {
    var x := r + (p + CRLF);
    assert x[|r| - 1..|r| + 1][0] == r[|r| - 1] && x[|r| - 1..|r| + 1][1] == (p + CRLF)[0];
  }

  /** Behind a leftover that ends in '\r', a stream that starts with '\n'. */
  lemma Straddle(r: string, p: string, tail: string)
    requires !Contains(r, CRLF) && IsPiece(p, CRLF)
    requires r != "" && OccursAt(r + (p + CRLF), CRLF, |r| - 1)
    ensures var (ps, rest) := Split(r + (p + CRLF + tail), CRLF);
            |ps| == |Split(tail, CRLF).0| + 2 && rest == Split(tail, CRLF).1
  {
    StraddleEnds(r, p);
    var q, p' := r[..|r| - 1], p[1..];
    PieceBeforeCR(r);
    PieceWithoutFirst(p);
    SplitCons(q, p' + CRLF + tail, CRLF);
    SplitCons(p', tail, CRLF);
    StraddleText(q, "\r", "\n", p', CRLF, tail);
    assert "\r" + "\n" == CRLF;
  }

  lemma StraddleText(q: string, x: string, y: string, p: string, d: string, tail: string)
    ensures (q + x) + ((y + p) + d + tail) == q + (x + y) + (p + d + tail)
  {
    Regroup(y, p, d);
    Regroup(y, p + d, tail);
    Regroup(q + x, y, p + d + tail);
    Regroup(q, x, y);
  }

  lemma Unbroken(r: string, p: string)
    requires !Contains(r, CRLF) && IsPiece(p, CRLF)
    requires r == "" || !OccursAt(r + (p + CRLF), CRLF, |r| - 1)
    ensures IsPiece(r + p, CRLF)
  {
    Regroup(r, p, CRLF);
    forall j: nat | j < |r + p| ensures !OccursAt(r + (p + CRLF), CRLF, j) {
      if j + 2 <= |r| {
        OccursInPrefix(r, p + CRLF, CRLF, j);
      } else if j >= |r| {
        OccursLater(r, p + CRLF, j - |r|);
      }
    }
    OccursLater(r, p + CRLF, |p|);
  }

  /** Behind any other leftover the first piece becomes longer. */
  lemma Longer(r: string, p: string, tail: string)
    requires !Contains(r, CRLF) && IsPiece(p, CRLF)
    requires r == "" || !OccursAt(r + (p + CRLF), CRLF, |r| - 1)
    ensures Split(r + (p + CRLF + tail), CRLF) == ([r + p] + Split(tail, CRLF).0, Split(tail, CRLF).1)
  {
    Unbroken(r, p);
    SplitCons(r + p, tail, CRLF);
    Regroup(r, p + CRLF, tail);
    Regroup(r, p, CRLF);
  }

  lemma FrontPieces(r: string, p: string, tail: string)
    requires !Contains(r, CRLF) && IsPiece(p, CRLF)
    ensures var s := p + CRLF + tail;
            && |Split(r + s, CRLF).0| >= |Split(s, CRLF).0|
            && (r != "" ==> Split(r + s, CRLF).0 != Split(s, CRLF).0)
  {
    SplitCons(p, tail, CRLF);
    hide Split, IsPiece, Contains;
    var ps := Split(tail, CRLF).0;
    if r != "" && OccursAt(r + (p + CRLF), CRLF, |r| - 1) {
      Straddle(r, p, tail);
    } else {
      Longer(r, p, tail);
      assert ([r + p] + ps)[0] == r + p && ([p] + ps)[0] == p;
    }
  }

  lemma LeftoverPieces(r: string, s: string)
    requires !Contains(r, CRLF)
    ensures |Split(r + s, CRLF).0| >= |Split(s, CRLF).0|
    ensures r != "" && Contains(s, CRLF) ==> Split(r + s, CRLF).0 != Split(s, CRLF).0
  {
    if Contains(s, CRLF) {
      var p, tail := Cut(s, CRLF);
      FrontPieces(r, p, tail);
    }
  }

  /** slotClosed leaves the cache of the socket behind, and a later connection may get the
      same address. Whatever is left over, r is prepended to the new stream s; the pieces
      are those of s itself if and only if there is no leftover, or no complete command in
      the two together. */
  lemma LeftoverChangesCommands(r: string, s: string)
    ensures Split(r + s, CRLF).0 == Split(s, CRLF).0 <==> r == "" || !Contains(r + s, CRLF)
  {
    if r == "" {
      assert r + s == s;
    } else if Contains(r + s, CRLF) {
      var q := Split(r, CRLF).1;
      SplitAppend(r, s, CRLF);
      SplitConserves(r, CRLF);
      LeftoverPieces(q, s);
      if Split(r, CRLF).0 == [] {
        assert q == r;
        if !Contains(s, CRLF) {
          assert Split(r + s, CRLF).0 != [];
        }
      }
    } else if Contains(s, CRLF) {
      var i: nat :| i <= |s| && OccursAt(s, CRLF, i);
      OccursLater(r, s, i);
    }
  }

  lemma FromNext(cache: string, chunks: seq<string>, chunk: string)
    ensures var r := FeedFrom(cache, chunks); var d := Drain(r.1 + chunk);
            FeedFrom(cache, chunks + [chunk]) == (r.0 + d.0, d.1)
  {
    assert (chunks + [chunk])[..|chunks|] == chunks;
  }

  lemma {:induction false} FromContinues(r: string, a: seq<string>, b: seq<string>)
    ensures var f := FeedFrom(r, a); var g := FeedFrom(f.1, b); FeedFrom(r, a + b) == (f.0 + g.0, g.1)
    decreases |b|
  {
    hide Drain;
    var f := FeedFrom(r, a);
    if b == [] {
      assert a + b == a && f.0 + [] == f.0;
    } else {
      var before, chunk := b[..|b| - 1], b[|b| - 1];
      FromContinues(r, a, before);
      assert a + b == (a + before) + [chunk];
      FromNext(r, a + before, chunk);
      var g := FeedFrom(f.1, before);
      Regroup(f.0, g.0, Drain(g.1 + chunk).0);
    }
  }

  /** The commands of a connection that finds a leftover are what its chunks add to the
      commands of the connections before it on that address, whatever they left behind. */
  lemma ReusedSocket(earlier: seq<seq<Byte>>, own: seq<seq<Byte>>)
    ensures Receive(earlier + own).0 == Receive(earlier).0 + FeedFrom(Receive(earlier).1, DecodeAll(own)).0
    ensures Receive(earlier + own).1 == FeedFrom(Receive(earlier).1, DecodeAll(own)).1
  {
    hide Decode, FeedFrom;
    assert DecodeAll(earlier + own) == DecodeAll(earlier) + DecodeAll(own);
    FromContinues("", DecodeAll(earlier), DecodeAll(own));
  }

  /** What it executes, or has waiting, is in this order: the commands that had stalled in
      the leftover, and then its own stream behind the leftover's unfinished text. */
  lemma LeftoverFirst(r: string, own: seq<string>)
    ensures var (done, rest) := FeedFrom(r, own); var (stalled, unfinished) := Split(r, CRLF);
            done + NonEmpty(Split(rest, CRLF).0)
            == NonEmpty(stalled) + NonEmpty(Split(unfinished + Concat(own), CRLF).0)
  {
    var s := Concat(own);
    FeedConserves(r, own);
    SplitAppend(r, s, CRLF);
    NonEmptyAppend(Split(r, CRLF).0, Split(Split(r, CRLF).1 + s, CRLF).0);
  }

  /** A command that stalled is executed by the next connection, even by one that sends
      nothing complete. */
  lemma StalledCommand(cmd: string, s: string)
    requires cmd != "" && IsPiece(cmd, CRLF) && !Contains(s, CRLF)
    ensures Feed([CRLF + (cmd + CRLF)]) == ([], cmd + CRLF)
    ensures Feed([CRLF + (cmd + CRLF), s]).0 == [cmd] && Feed([s]).0 == []
  {
    var line := cmd + CRLF;
    FeedOne(CRLF + line);
    DrainEmptyCommand(line);
    FeedTwo(CRLF + line, s);
    TakeCons(cmd, s);
    assert Drain(s) == ([], s);
    assert Drain(line + s).0 == [cmd] + Drain(s).0;
    assert [] + ([cmd] + []) == [cmd];
    FeedOne(s);
  }

  // ----- when a leftover is harmless

  lemma FirstRead(r: string, s: string)
    ensures FeedFrom(r, [s]) == Drain(r + s)
  {
    FromNext(r, [], s);
    assert [] + [s] == [s] && [] + Drain(r + s).0 == Drain(r + s).0;
  }

  /** A command as the controllers of the service send them. */
  predicate IsOneLine(cmd: string) {
    cmd != "" && IsPlainText(cmd) && '\r' !in cmd && '\n' !in cmd
  }

  lemma OneLineSendable(cmd: string)
    requires IsOneLine(cmd)
    ensures Sendable(cmd)
  {
    PieceWithout(cmd);
  }

  lemma NoStraddle(q: string, c: string)
    requires c != "" && c[0] != '\n'
    ensures q == "" || !OccursAt(q + (c + CRLF), CRLF, |q| - 1)
  {
    if q != "" && OccursAt(q + (c + CRLF), CRLF, |q| - 1) {
      StraddleEnds(q, c);
    }
  }

  lemma DrainFirst(p: string, tail: string)
    requires IsPiece(p, CRLF)
    ensures var done := Drain(p + CRLF + tail).0; if p == "" then done == [] else done != [] && done[0] == p
  {
    TakeCons(p, tail);
  }

  /** Behind a leftover that is not empty a longer command is not what is executed first. */
  lemma LongCommandChanged(r: string, c: string)
    requires r != "" && |c| > |r| && IsOneLine(c)
    ensures Drain(r + (c + CRLF)).0 != [c]
  {
    if Contains(r, CRLF) {
      var p, tail := Cut(r, CRLF);
      Regroup(p + CRLF, tail, c + CRLF);
      DrainFirst(p, tail + (c + CRLF));
    } else {
      assert c[0] in c;
      OneLineSendable(c);
      NoStraddle(r, c);
      Unbroken(r, c);
      Regroup(r, c, CRLF);
      assert r + (c + CRLF) == (r + c) + CRLF + "";
      DrainFirst(r + c, "");
    }
  }

  /** For every leftover that is not empty there is a command that, sent in one chunk, is not
      executed as it was sent. */
  lemma LeftoverHarms(r: string) returns (cmd: string, own: seq<seq<Byte>>)
    requires r != ""
    ensures IsOneLine(cmd) && [] !in own && Concat(own) == Wire([cmd])
    ensures FeedFrom(r, DecodeAll(own)).0 != [cmd]
  {
    hide Decode;
    cmd := seq(|r| + 1, _ => 'a');
    assert IsOneLine(cmd);
    WirePlain([cmd]);
    var b := Wire([cmd]);
    JoinOne(cmd, CRLF);
    assert b != [];
    own := [b];
    DecodeOne(b);
    DecodePlain(b);
    FirstRead(r, cmd + CRLF);
    LongCommandChanged(r, cmd);
  }

  /** Whatever commands a connection sends, and however their bytes arrive, those are the
      commands executed, if and only if the cache that it finds is empty. */
  lemma LeftoverHarmless(r: string)
    ensures (forall cmds: seq<string>, own: seq<seq<Byte>> |
               (forall cmd | cmd in cmds :: IsOneLine(cmd)) && [] !in own && Concat(own) == Wire(cmds) ::
               FeedFrom(r, DecodeAll(own)).0 == cmds)
            <==> r == ""
  {
    if r == "" {
      forall cmds: seq<string>, own: seq<seq<Byte>> |
        (forall cmd | cmd in cmds :: IsOneLine(cmd)) && [] !in own && Concat(own) == Wire(cmds)
        ensures FeedFrom(r, DecodeAll(own)).0 == cmds
      {
        forall cmd | cmd in cmds ensures Sendable(cmd) {
          OneLineSendable(cmd);
        }
        CommandsArrive(cmds, own);
      }
    } else {
      var cmd, own := LeftoverHarms(r);
      assert forall c | c in [cmd] :: IsOneLine(c);
    }
  }

  /** The same for connections that send one command each, as sendCmd does. */
  lemma OneCommandHarmless(r: string)
    ensures (forall cmd: string, own: seq<seq<Byte>> |
               IsOneLine(cmd) && [] !in own && Concat(own) == Wire([cmd]) :: FeedFrom(r, DecodeAll(own)).0 == [cmd])
            <==> r == ""
  {
    if r == "" {
      forall cmd: string, own: seq<seq<Byte>> | IsOneLine(cmd) && [] !in own && Concat(own) == Wire([cmd])
        ensures FeedFrom(r, DecodeAll(own)).0 == [cmd]
      {
        OneLineSendable(cmd);
        CommandsArrive([cmd], own);
      }
    } else {
      var cmd, own := LeftoverHarms(r);
    }
  }

  /** So a leftover changes nothing for any later bytes, of which every chunk has some, if and
      only if it is empty. */
  lemma EmptyCacheOnly(r: string)
    ensures (forall own: seq<seq<Byte>> | [] !in own :: FeedFrom(r, DecodeAll(own)).0 == Receive(own).0) <==> r == ""
  {
    if r != "" {
      var cmd, own := LeftoverHarms(r);
      OneLineSendable(cmd);
      CommandsArrive([cmd], own);
    }
  }
}
