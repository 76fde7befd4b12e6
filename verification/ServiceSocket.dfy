/** The control socket of the Unix service: commands delimited by "\r\n", one cache of
    text per socket, to which every chunk of bytes is added after being decoded on its own. */
module ServiceSocket {
  import opened Framing
  import opened Sequences
  import opened TextCodec

  type Socket = int           // a QLocalSocket pointer

  const CRLF := "\r\n"

  datatype Flags = Flags(cannotBeStopped: bool, canBeSuspended: bool)

  /** The answer to one command. */
  function Reply(cmd: string, flags: Flags): string {
    if Accepts(cmd, flags) then "true" else "false"
  }

  predicate Accepts(cmd: string, flags: Flags) {
    || (cmd == "terminate" && !flags.cannotBeStopped)
    || (cmd == "pause" && flags.canBeSuspended)
    || (cmd == "resume" && flags.canBeSuspended)
    || cmd == "alive"
    || (|cmd| > 4 && cmd[..4] == "num:")
  }

  /** A command that was carried out and what was written back for it. */
  datatype Exchange = Exchange(cmd: string, reply: string)

  function Exchanges(cmds: seq<string>, flags: Flags): (es: seq<Exchange>)
    ensures |es| == |cmds| && forall i | 0 <= i < |cmds| :: es[i] == Exchange(cmds[i], Reply(cmds[i], flags))
  {
    seq(|cmds|, i requires 0 <= i < |cmds| => Exchange(cmds[i], Reply(cmds[i], flags)))
  }

  // ----- what one readyRead does to a buffer

  /** What getCommand takes from a buffer. It answers "" both for "no command yet" and for
      an empty command. */
  function Take(buffer: string): (r: (string, string))
    ensures r.0 != "" ==> |r.1| < |buffer|
  {
    if Contains(buffer, CRLF) then
      var i := FirstFrom(buffer, CRLF, 0);
      (buffer[..i], buffer[i + 2..])
    else ("", buffer)
  }

  /** The loop of slotReady: it stops at an empty command. */
  function Drain(buffer: string): (r: (seq<string>, string))
    ensures "" !in r.0
    decreases |buffer|
  {
    var (cmd, rest) := Take(buffer);
    if cmd == "" then ([], rest)
    else ([cmd] + Drain(rest).0, Drain(rest).1)
  }

  /** The commands executed while texts arrive at a socket whose cache is not empty, and
      the cache then. */
  function FeedFrom(cache: string, chunks: seq<string>): (r: (seq<string>, string))
    ensures "" !in r.0
  {
    if chunks == [] then ([], cache)
    else
      var (done, c) := FeedFrom(cache, chunks[..|chunks| - 1]);
      var (cmds, rest) := Drain(c + chunks[|chunks| - 1]);
      (done + cmds, rest)
  }

  function Feed(chunks: seq<string>): (r: (seq<string>, string))
    ensures "" !in r.0
  {
    FeedFrom("", chunks)
  }

  // ----- independence of the chunking

  lemma SplitTake(buffer: string)
    requires Contains(buffer, CRLF)
    ensures var (cmd, rest) := Take(buffer); Split(buffer, CRLF) == ([cmd] + Split(rest, CRLF).0, Split(rest, CRLF).1)
    ensures |Take(buffer).1| < |buffer|
  {
    SplitAtFirst(buffer, CRLF, FirstFrom(buffer, CRLF, 0));
  }

  lemma {:induction false} DrainConserves(buffer: string)
    ensures Drain(buffer).0 + NonEmpty(Split(Drain(buffer).1, CRLF).0) == NonEmpty(Split(buffer, CRLF).0)
    ensures Split(Drain(buffer).1, CRLF).1 == Split(buffer, CRLF).1
    decreases |buffer|
  {
    if Contains(buffer, CRLF) {
      SplitTake(buffer);
      var (cmd, rest) := Take(buffer);
      var ps := Split(rest, CRLF).0;
      assert ([cmd] + ps)[1..] == ps;
      if cmd != "" {
        DrainConserves(rest);
        Regroup([cmd], Drain(rest).0, NonEmpty(Split(Drain(rest).1, CRLF).0));
      }
    }
  }

  /** Whatever the cache and the chunking, nothing is lost, invented or reordered: what has
      been executed and the non-empty commands still in the cache are the non-empty commands
      of the whole text, and the cache ends in its unfinished text. */
  lemma {:induction false} FeedConserves(cache: string, chunks: seq<string>)
    ensures var (done, rest) := FeedFrom(cache, chunks); var (ps, unfinished) := Split(cache + Concat(chunks), CRLF);
            done + NonEmpty(Split(rest, CRLF).0) == NonEmpty(ps) && Split(rest, CRLF).1 == unfinished
    decreases |chunks|
  {
    if chunks == [] {
      assert cache + "" == cache && [] + NonEmpty(Split(cache, CRLF).0) == NonEmpty(Split(cache, CRLF).0);
    } else {
      var before, chunk := chunks[..|chunks| - 1], chunks[|chunks| - 1];
      FeedConserves(cache, before);
      var (done, c) := FeedFrom(cache, before);
      var s := cache + Concat(before);
      Regroup(cache, Concat(before), chunk);
      SplitAppend(s, chunk, CRLF);
      SplitAppend(c, chunk, CRLF);
      DrainConserves(c + chunk);
      var more := Split(Split(s, CRLF).1 + chunk, CRLF).0;
      NonEmptyAppend(Split(s, CRLF).0, more);
      NonEmptyAppend(Split(c, CRLF).0, more);
      Regroup(done, NonEmpty(Split(c, CRLF).0), NonEmpty(more));
      Regroup(done, Drain(c + chunk).0, NonEmpty(Split(Drain(c + chunk).1, CRLF).0));
    }
  }

  lemma {:induction false} DrainAll(buffer: string)
    requires "" !in Split(buffer, CRLF).0
    ensures !Contains(Drain(buffer).1, CRLF)
    decreases |buffer|
  {
    if Contains(buffer, CRLF) {
      SplitTake(buffer);
      var (cmd, rest) := Take(buffer);
      assert Split(buffer, CRLF).0[0] == cmd;
      forall p | p in Split(rest, CRLF).0 ensures p != "" {
        assert p in [cmd] + Split(rest, CRLF).0;
      }
      DrainAll(rest);
    }
  }

  lemma {:induction false} FeedAll(chunks: seq<string>)
    requires "" !in Split(Concat(chunks), CRLF).0
    ensures !Contains(Feed(chunks).1, CRLF)
    decreases |chunks|
  {
    if chunks != [] {
      var before, chunk := chunks[..|chunks| - 1], chunks[|chunks| - 1];
      var s, cache := Concat(before), Feed(before).1;
      SplitAppend(s, chunk, CRLF);
      forall p | p in Split(s, CRLF).0 ensures p != "" {
        assert p in Split(Concat(chunks), CRLF).0;
      }
      FeedAll(before);
      FeedConserves("", before);
      assert "" + s == s && cache == Split(s, CRLF).1;
      forall p | p in Split(cache + chunk, CRLF).0 ensures p != "" {
        assert p in Split(Concat(chunks), CRLF).0;
      }
      DrainAll(cache + chunk);
    }
  }

  /** The executed commands are exactly the delimited pieces of the stream, for every
      chunking, if and only if no piece is empty. */
  lemma ExecutesPieces(chunks: seq<string>)
    ensures Feed(chunks).0 == Split(Concat(chunks), CRLF).0 <==> "" !in Split(Concat(chunks), CRLF).0
    ensures "" !in Split(Concat(chunks), CRLF).0 ==> Feed(chunks) == Split(Concat(chunks), CRLF)
  {
    if "" !in Split(Concat(chunks), CRLF).0 {
      FeedAll(chunks);
      FeedConserves("", chunks);
      assert "" + Concat(chunks) == Concat(chunks);
      NonEmptySame(Split(Concat(chunks), CRLF).0);
      assert Feed(chunks).0 + [] == Feed(chunks).0;
    }
  }

  lemma TakeCons(p: string, tail: string)
    requires IsPiece(p, CRLF)
    ensures Take(p + CRLF + tail) == (p, tail)
  {
    var s := p + CRLF + tail;
    FirstInPrefix(p + CRLF, tail, CRLF, |p|);
    assert Contains(s, CRLF);
    var i := FirstFrom(s, CRLF, 0);
    assert i == |p|;
    assert s[..i] == p && s[i + 2..] == tail;
  }

  lemma DrainEmptyCommand(tail: string)
    ensures Drain(CRLF + tail) == ([], tail)
  {
    EmptyIsPiece();
    TakeCons("", tail);
    assert "" + CRLF + tail == CRLF + tail;
  }

  lemma DrainOneCommand(cmd: string)
    requires cmd != "" && IsPiece(cmd, CRLF)
    ensures Drain(cmd + CRLF) == ([cmd], "")
  {
    TakeCons(cmd, "");
    assert cmd + CRLF + "" == cmd + CRLF;
    NoneInEmpty();
    assert Drain("") == ([], "");
    assert [cmd] + [] == [cmd];
  }

  lemma FeedOne(a: string)
    ensures Feed([a]) == Drain(a) && Concat([a]) == a
  {
    FeedNext([], a);
    assert [] + [a] == [a] && "" + a == a && [] + Drain(a).0 == Drain(a).0;
  }

  lemma FeedTwo(a: string, b: string)
    ensures Feed([a, b]) == (Drain(a).0 + Drain(Drain(a).1 + b).0, Drain(Drain(a).1 + b).1)
    ensures Concat([a, b]) == a + b
  {
    FeedOne(a);
    FeedNext([a], b);
    assert [a] + [b] == [a, b];
  }

  /** After an empty command the result does depend on the chunking: the command behind it
      waits for the next chunk, whatever that is. */
  lemma EmptyCommandStalls(cmd: string)
    requires cmd != "" && IsPiece(cmd, CRLF)
    ensures var line := cmd + CRLF;
            && Concat([CRLF + line]) == Concat([CRLF, line])
            && Feed([CRLF + line]) == ([], line)
            && Feed([CRLF, line]) == ([cmd], "")
  {
    var line := cmd + CRLF;
    var e := CRLF;
    FeedOne(e + line);
    FeedTwo(e, line);
    DrainEmptyCommand(line);
    assert Drain(e) == ([], "") by {
      DrainEmptyCommand("");
      assert CRLF + "" == CRLF;
    }
    DrainOneCommand(cmd);
    assert "" + line == line && [] + [cmd] == [cmd];
  }

  lemma FeedNext(chunks: seq<string>, chunk: string)
    ensures Feed(chunks + [chunk]) == (Feed(chunks).0 + Drain(Feed(chunks).1 + chunk).0, Drain(Feed(chunks).1 + chunk).1)
    ensures Concat(chunks + [chunk]) == Concat(chunks) + chunk
  {
    assert (chunks + [chunk])[..|chunks|] == chunks;
  }

  lemma NoneInEmpty()
    ensures !Contains("", CRLF)
  {}

  lemma ExchangesAppend(a: seq<string>, b: seq<string>, flags: Flags)
    ensures Exchanges(a + b, flags) == Exchanges(a, flags) + Exchanges(b, flags)
  {}

  /** What the bytes of a connection lead to. */
  function Receive(chunks: seq<seq<Byte>>): (r: (seq<string>, string))
    ensures "" !in r.0
  {
    Feed(DecodeAll(chunks))
  }

  /** A cache and the exchanges so far are those of the chunks received. */
  ghost predicate Served(cache: string, done: seq<Exchange>, chunks: seq<seq<Byte>>, flags: Flags) {
    cache == Receive(chunks).1 && done == Exchanges(Receive(chunks).0, flags)
  }

  lemma ServesNext(cache: string, done: seq<Exchange>, chunks: seq<seq<Byte>>, chunk: seq<Byte>, flags: Flags)
    requires Served(cache, done, chunks, flags)
    ensures var r := Drain(cache + Decode(chunk)); Served(r.1, done + Exchanges(r.0, flags), chunks + [chunk], flags)
  {
    DecodeNext(chunks, chunk);
    FeedNext(DecodeAll(chunks), Decode(chunk));
    ExchangesAppend(Receive(chunks).0, Drain(cache + Decode(chunk)).0, flags);
  }

  lemma OthersServed(
    cache: map<Socket, string>, done: map<Socket, seq<Exchange>>, chunks: map<Socket, seq<seq<Byte>>>, flags: Flags,
    socket: Socket,
    cache': map<Socket, string>, done': map<Socket, seq<Exchange>>, chunks': map<Socket, seq<seq<Byte>>>)
    requires cache.Keys == done.Keys == chunks.Keys && socket in cache
    requires forall s | s in cache :: Served(cache[s], done[s], chunks[s], flags)
    requires cache'.Keys == done'.Keys == chunks'.Keys && socket in cache'
    requires cache' == cache[socket := cache'[socket]] && done' == done[socket := done'[socket]]
    requires chunks' == chunks[socket := chunks'[socket]]
    requires Served(cache'[socket], done'[socket], chunks'[socket], flags)
    ensures forall s | s in cache' :: Served(cache'[s], done'[s], chunks'[s], flags)
  {
    hide Served;
  }

  lemma EmptyIsPiece()
    ensures IsPiece("", CRLF)
  {
    assert "" + CRLF == CRLF;
    assert OccursAt(CRLF, CRLF, 0);
  }

  // ----- the object

  class QtServiceSysPrivate {
    const flags: Flags
    var cache: map<Socket, string>
    var done: map<Socket, seq<Exchange>>      // carried out and answered so far, per socket
    ghost var chunks: map<Socket, seq<seq<Byte>>>

    ghost predicate Valid() reads this {
      && cache.Keys == done.Keys == chunks.Keys
      && forall s | s in cache :: Served(cache[s], done[s], chunks[s], flags)
    }

    constructor (flags: Flags)
      ensures Valid() && this.flags == flags && cache == map[]
    {
      this.flags := flags;
      cache, done, chunks := map[], map[], map[];
    }

    method GetCommand(socket: Socket) returns (cmd: string)
      requires socket in cache
      modifies this`cache
      ensures cmd == Take(old(cache)[socket]).0 && cache == old(cache)[socket := Take(old(cache)[socket]).1]
    {
      var buffer := cache[socket];
      var pos := IndexOf(buffer, CRLF);
      if pos >= 0 {
        assert pos == FirstFrom(buffer, CRLF, 0);
        cmd := buffer[..pos];
        cache := cache[socket := buffer[pos + 2..]];
        return;
      }
      assert cache == cache[socket := buffer];
      cmd := "";
    }

    /** cache[socket] starts out empty. */
    method Touch(socket: Socket)
      requires Valid()
      modifies this
      ensures Valid() && socket in cache
      ensures chunks == if socket in old(chunks) then old(chunks) else old(chunks)[socket := []]
    {
      if socket !in cache {
        cache, done, chunks := cache[socket := ""], done[socket := []], chunks[socket := []];
        assert Served("", [], [], flags);
      }
    }

    /** readyRead on one socket: only that socket is affected, and one reply is written for
        each command that is executed. */
    method SlotReady(socket: Socket, chunk: seq<Byte>)
      requires Valid()
      modifies this
      ensures Valid()
      ensures chunks == old(chunks)[socket := (if socket in old(chunks) then old(chunks)[socket] else []) + [chunk]]
    {
      hide Served, Drain, Exchanges, Decode;
      Touch(socket);
      ghost var cache0, done0, chunks0 := cache, done, chunks;
      ServesNext(cache0[socket], done0[socket], chunks0[socket], chunk, flags);
      chunks := chunks[socket := chunks[socket] + [chunk]];
      cache := cache[socket := cache[socket] + Decode(chunk)];
      ExecuteCommands(socket);
      ghost var r := Drain(cache0[socket] + Decode(chunk));
      assert cache == cache0[socket := r.1] && done == done0[socket := done0[socket] + Exchanges(r.0, flags)];
      OthersServed(cache0, done0, chunks0, flags, socket, cache, done, chunks);
    }

    /** The loop of slotReady. */
    method ExecuteCommands(socket: Socket)
      requires socket in cache && socket in done
      modifies this`cache, this`done
      ensures cache == old(cache)[socket := Drain(old(cache[socket])).1]
      ensures done == old(done)[socket := old(done)[socket] + Exchanges(Drain(old(cache[socket])).0, flags)]
    {
      hide Take, Reply;
      ghost var b, cmds := cache[socket], [];
      ghost var all := Drain(b);
      assert Exchanges([], flags) == [] && done[socket] + [] == done[socket] && done == done[socket := done[socket]];
      var cmd := GetCommand(socket);
      while cmd != ""
        invariant socket in cache && cache == old(cache)[socket := Take(b).1] && cmd == Take(b).0
        invariant cmds + Drain(b).0 == all.0 && Drain(b).1 == all.1
        invariant socket in done && done == old(done)[socket := old(done)[socket] + Exchanges(cmds, flags)]
        decreases |b|
      {
        var reply := Answer(cmd);
        Regroup(cmds, [cmd], Drain(Take(b).1).0);
        Regroup(old(done)[socket], Exchanges(cmds, flags), [Exchange(cmd, reply)]);
        assert Exchanges(cmds + [cmd], flags) == Exchanges(cmds, flags) + [Exchange(cmd, reply)];
        done := done[socket := done[socket] + [Exchange(cmd, reply)]];
        b, cmds := cache[socket], cmds + [cmd];
        cmd := GetCommand(socket);
      }
      assert cmds + [] == cmds;
    }

    /** The branches of slotReady for one command. */
    method Answer(cmd: string) returns (reply: string)
      ensures reply == Reply(cmd, flags)
      ensures reply == "true" || reply == "false"
      ensures cmd == "alive" || "num:" < cmd ==> reply == "true"
      ensures cmd == "terminate" ==> (reply == "true" <==> !flags.cannotBeStopped)
      ensures cmd == "pause" || cmd == "resume" ==> (reply == "true" <==> flags.canBeSuspended)
      ensures !("num:" < cmd) && cmd !in {"alive", "terminate", "pause", "resume"} ==> reply == "false"
    {
      assert |cmd| > 4 && cmd[..4] == "num:" ==> cmd[0] == cmd[..4][0] == 'n';
      var retValue := false;
      if cmd == "terminate" {
        if !flags.cannotBeStopped { retValue := true; }
      } else if cmd == "pause" {
        if flags.canBeSuspended { retValue := true; }
      } else if cmd == "resume" {
        if flags.canBeSuspended { retValue := true; }
      } else if cmd == "alive" {
        retValue := true;
      } else if |cmd| > 4 && cmd[..4] == "num:" {
        retValue := true;
      }
      reply := if retValue then "true" else "false";
    }
  }
}
