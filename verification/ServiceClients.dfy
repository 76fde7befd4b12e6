/** What reaches the control socket from its clients: bytes, cut anywhere, each chunk of
    which is decoded by itself. */
module ServiceClients {
  import opened Framing
  import opened Sequences
  import opened ServiceSocket
  import opened TextCodec
  import opened TextEncoding

  // ----- bytes

  /** On the bytes 1..127 the decoding of single chunks does no harm: the executed commands
      are the pieces of the stream, for every chunking, if and only if no piece is empty. */
  lemma PlainBytesExecute(chunks: seq<seq<Byte>>)
    requires IsPlain(Concat(chunks))
    ensures var pieces := Split(AsText(Concat(chunks)), CRLF).0; Receive(chunks).0 == pieces <==> "" !in pieces
  {
    PlainChunks(chunks);
    ExecutesPieces(DecodeAll(chunks));
  }

  /** Texts in UTF-8 that are cut between characters: the commands executed are the pieces of
      the text if and only if none is empty. */
  lemma TextsExecute(ts: seq<string>)
    requires forall t | t in ts :: Survives(t)
    ensures var pieces := Split(Concat(ts), CRLF).0; Receive(InUtf8(ts)).0 == pieces <==> "" !in pieces
  {
    hide Decode;
    TextsSurvive(ts);
    ExecutesPieces(ts);
  }

  lemma {:induction false} StreamChars(chunks: seq<seq<Byte>>)
    ensures TextWeight(Concat(DecodeAll(chunks))) <= |Concat(chunks)|
    ensures '\0' !in Concat(DecodeAll(chunks))
    ensures (forall b | b in Concat(chunks) :: b < 0x80) ==> forall c | c in Concat(DecodeAll(chunks)) :: c as int < 0x80
    decreases |chunks|
  {
    hide Decode, Weight;
    if chunks != [] {
      var before, chunk := chunks[..|chunks| - 1], chunks[|chunks| - 1];
      assert chunks == before + [chunk];
      DecodeNext(before, chunk);
      assert forall b | b in Concat(before) || b in chunk :: b in Concat(before) + chunk;
      StreamChars(before);
      DecodeChars(chunk);
      WeightAppend(Concat(DecodeAll(before)), Decode(chunk));
    }
  }

  lemma {:induction false} JoinWeight(ps: seq<string>)
    ensures TextWeight(Join(NonEmpty(ps), CRLF)) <= TextWeight(Join(ps, CRLF))
    decreases |ps|
  {
    if ps != [] {
      JoinWeight(ps[1..]);
      var line := ps[0] + CRLF;
      WeightAppend(line, Join(ps[1..], CRLF));
      if ps[0] != "" {
        assert ([ps[0]] + NonEmpty(ps[1..]))[1..] == NonEmpty(ps[1..]);
        WeightAppend(line, Join(NonEmpty(ps[1..]), CRLF));
      } else {
        assert [] + NonEmpty(ps[1..]) == NonEmpty(ps[1..]);
      }
    }
  }

  lemma {:induction false} JoinChars(ps: seq<string>, p: string)
    requires p in ps
    ensures forall c | c in p :: c in Join(ps, CRLF)
  {
    if p != ps[0] {
      assert p in ps[1..];
      JoinChars(ps[1..], p);
    }
  }

  lemma {:induction false} NonEmptyIn(ps: seq<string>, p: string)
    requires p in NonEmpty(ps)
    ensures p in ps && p != ""
  {
    if !(ps[0] != "" && p == ps[0]) {
      NonEmptyIn(ps[1..], p);
    }
  }

  /** What is executed, whatever the bytes and the chunking: non-empty pieces without NUL
      that together weigh no more than the bytes received. */
  lemma ExecutedWeight(chunks: seq<seq<Byte>>)
    ensures TextWeight(Join(Receive(chunks).0, CRLF)) <= |Concat(chunks)|
    ensures forall cmd | cmd in Receive(chunks).0 :: cmd != "" && IsPiece(cmd, CRLF) && '\0' !in cmd
    ensures (forall b | b in Concat(chunks) :: b < 0x80) ==> forall cmd | cmd in Receive(chunks).0 :: forall c | c in cmd :: c as int < 0x80
  {
    var texts := DecodeAll(chunks);
    var t := Concat(texts);
    var (done, cache) := Feed(texts);
    var (ps, rest) := Split(t, CRLF);
    var waiting := NonEmpty(Split(cache, CRLF).0);
    StreamChars(chunks);
    FeedConserves("", texts);
    assert "" + t == t && done + waiting == NonEmpty(ps);
    SplitConserves(t, CRLF);
    JoinWeight(ps);
    JoinAppend(done, waiting, CRLF);
    WeightAppend(Join(done, CRLF), Join(waiting, CRLF));
    WeightAppend(Join(ps, CRLF), rest);
    forall cmd | cmd in done ensures cmd in ps && cmd != "" && forall c | c in cmd :: c in t {
      assert cmd in done + waiting;
      NonEmptyIn(ps, cmd);
      JoinChars(ps, cmd);
    }
  }

  // ----- what sendCmd achieves

  /** The bytes of one connection of sendCmd: its text in Latin-1, up to the first NUL. */
  function Wire(cmds: seq<string>): seq<Byte> {
    if cmds == [] then [] else BeforeNul(ToLatin1(cmds[0] + CRLF)) + Wire(cmds[1..])
  }

  predicate Sendable(cmd: string) {
    cmd != "" && IsPlainText(cmd) && IsPiece(cmd, CRLF)
  }

  lemma {:induction false} WireLatin1(cmds: seq<string>)
    ensures |Wire(cmds)| <= |ToLatin1(Join(cmds, CRLF))|
    ensures (forall b | b in ToLatin1(Join(cmds, CRLF)) :: b < 0x80) ==> forall b | b in Wire(cmds) :: b < 0x80
  {
    if cmds != [] {
      var line, tail := cmds[0] + CRLF, Join(cmds[1..], CRLF);
      WireLatin1(cmds[1..]);
      BeforeNulIn(ToLatin1(line));
      Latin1Append(line, tail);
      assert forall b | b in ToLatin1(line) :: b in ToLatin1(line) + ToLatin1(tail);
      assert forall b | b in ToLatin1(tail) :: b in ToLatin1(line) + ToLatin1(tail);
    }
  }

  lemma {:induction false} WirePlain(cmds: seq<string>)
    requires forall cmd | cmd in cmds :: IsPlainText(cmd)
    ensures IsPlain(Wire(cmds)) && AsText(Wire(cmds)) == Join(cmds, CRLF)
  {
    hide ToLatin1, BeforeNul, AsText;
    if cmds != [] {
      var line := cmds[0] + CRLF;
      assert cmds[0] in cmds && forall cmd | cmd in cmds[1..] :: cmd in cmds;
      WirePlain(cmds[1..]);
      PlainLatin1(line);
      assert BeforeNul(ToLatin1(line)) == ToLatin1(line);
      TextAppend(ToLatin1(line), Wire(cmds[1..]));
    }
  }

  /** Any number of commands written by sendCmd, in any number of chunks, cut anywhere: the
      commands executed are those that were sent if and only if each of them is ASCII
      without NUL, not empty, and without a "\r\n" in it. */
  lemma CommandsArrive(cmds: seq<string>, chunks: seq<seq<Byte>>)
    requires Concat(chunks) == Wire(cmds)
    ensures Receive(chunks).0 == cmds <==> forall cmd | cmd in cmds :: Sendable(cmd)
  {
    if forall cmd | cmd in cmds :: Sendable(cmd) {
      WirePlain(cmds);
      PlainBytesExecute(chunks);
      NoneInEmpty();
      SplitJoin(cmds, "", CRLF);
      assert Join(cmds, CRLF) + "" == Join(cmds, CRLF);
    }
    if Receive(chunks).0 == cmds {
      ExecutedWeight(chunks);
      WireLatin1(cmds);
      Latin1Weight(Join(cmds, CRLF));
      forall cmd | cmd in cmds ensures Sendable(cmd) {
        forall c | c in cmd ensures 0 < c as int < 0x80 {
          assert c != '\0';
        }
      }
    }
  }

  /** The one command of a connection. */
  lemma CommandArrives(cmd: string, chunks: seq<seq<Byte>>)
    requires Concat(chunks) == BeforeNul(ToLatin1(cmd + CRLF))
    ensures Receive(chunks).0 == [cmd] <==> Sendable(cmd)
  {
    assert [cmd][1..] == [] && Wire([cmd]) == BeforeNul(ToLatin1(cmd + CRLF)) + [];
    CommandsArrive([cmd], chunks);
    assert cmd in [cmd];
  }

  // ----- arbitrary bytes

  const CRLF_BYTES: seq<Byte> := [13, 10]

  function Texts(ps: seq<seq<Byte>>): (texts: seq<string>)
    ensures |texts| == |ps| && forall i | 0 <= i < |ps| :: texts[i] == AsText(ps[i])
  {
    seq(|ps|, i requires 0 <= i < |ps| => AsText(ps[i]))
  }

  lemma Pair<T>(s: seq<T>, j: nat, x: T, y: T)
    requires j + 2 <= |s|
    ensures s[j..j + 2] == [x, y] <==> s[j] == x && s[j + 1] == y
  {
    var t := s[j..j + 2];
    assert t == [t[0], t[1]] && t[0] == s[j] && t[1] == s[j + 1];
  }

  lemma TextOccurs(s: seq<Byte>, j: nat)
    ensures OccursAt(AsText(s), CRLF, j) <==> OccursAt(s, CRLF_BYTES, j)
  {
    if j + 2 <= |s| {
      Pair(AsText(s), j, '\r', '\n');
      Pair(s, j, 13, 10);
    }
  }

  lemma TextContains(s: seq<Byte>)
    ensures Contains(AsText(s), CRLF) <==> Contains(s, CRLF_BYTES)
  {
    forall j: nat | j <= |s| ensures OccursAt(AsText(s), CRLF, j) <==> OccursAt(s, CRLF_BYTES, j) {
      TextOccurs(s, j);
    }
  }

  lemma TextPiece(p: seq<Byte>)
    requires IsPiece(p, CRLF_BYTES)
    ensures IsPiece(AsText(p), CRLF)
  {
    var b := p + CRLF_BYTES;
    assert AsText(b) == AsText(p) + CRLF;
    TextOccurs(b, |p|);
    forall j: nat | j < |p| ensures !OccursAt(AsText(b), CRLF, j) {
      TextOccurs(b, j);
    }
  }

  lemma {:induction false} TextsJoin(ps: seq<seq<Byte>>)
    ensures AsText(Join(ps, CRLF_BYTES)) == Join(Texts(ps), CRLF)
  {
    if ps != [] {
      TextsJoin(ps[1..]);
      assert Texts(ps)[1..] == Texts(ps[1..]);
      assert AsText(ps[0] + CRLF_BYTES + Join(ps[1..], CRLF_BYTES)) == AsText(ps[0]) + CRLF + AsText(Join(ps[1..], CRLF_BYTES));
    }
  }

  lemma {:induction false} JoinPlain(ps: seq<seq<Byte>>)
    requires forall p | p in ps :: IsPlain(p)
    ensures IsPlain(Join(ps, CRLF_BYTES))
  {
    if ps != [] {
      assert ps[0] in ps;
      JoinPlain(ps[1..]);
    }
  }

  /** Characters that are read from one byte each are not replacement characters if they
      are Latin-1 characters, so they are ASCII. */
  lemma {:induction false} LightText(text: string)
    requires forall c | c in text :: c as int < 0x100
    ensures TextWeight(text) >= |text|
    ensures TextWeight(text) <= |text| ==> forall c | c in text :: c as int < 0x80
  {
    if text != [] {
      assert text[0] in text && forall c | c in text[1..] :: c in text;
      LightText(text[1..]);
      assert Weight(text[0]) == if text[0] as int < 0x80 then 1 else 2;
      assert forall c | c in text :: c == text[0] || c in text[1..];
    }
  }

  lemma AsTextIn(p: seq<Byte>)
    ensures forall c | c in AsText(p) :: c as int < 0x100
    ensures (forall c | c in AsText(p) :: 0 < c as int < 0x80) ==> IsPlain(p)
  {
    if forall c | c in AsText(p) :: 0 < c as int < 0x80 {
      forall b | b in p ensures 0 < b < 0x80 {
        var i :| 0 <= i < |p| && p[i] == b;
        assert AsText(p)[i] == b as char && AsText(p)[i] in AsText(p);
      }
    }
  }

  lemma UnfinishedIsPiece(q: string)
    requires !Contains(q, CRLF)
    ensures IsPiece(q, CRLF)
  {
    assert (q + CRLF)[|q|..|q| + 2] == CRLF;
    forall j: nat | j < |q| ensures !OccursAt(q + CRLF, CRLF, j) {
      if j + 2 <= |q| {
        OccursInPrefix(q, CRLF, CRLF, j);
      } else {
        assert (q + CRLF)[j..j + 2][1] == '\r';
      }
    }
  }

  /** A text that ends in a delimiter leaves nothing unfinished. */
  lemma NothingUnfinished(x: string)
    ensures Split(x + CRLF, CRLF).1 == ""
  {
    var q := Split(x, CRLF).1;
    SplitAppend(x, CRLF, CRLF);
    SplitConserves(x, CRLF);
    UnfinishedIsPiece(q);
    SplitCons(q, "", CRLF);
    assert q + CRLF + "" == q + CRLF;
    NoneInEmpty();
  }

  /** An unfinished tail adds nothing to what is executed. */
  lemma ExecutedBeforeTail(chunks: seq<seq<Byte>>, head: seq<Byte>, tail: seq<Byte>)
    requires Concat(chunks) == (head + CRLF_BYTES) + tail && 0 !in head
    requires IsPlain(tail) && !Contains(AsText(tail), CRLF)
    ensures TextWeight(Join(Receive(chunks).0, CRLF)) <= |head| + 2
  {
    hide Decode, IsPlain;
    assert IsPlain(CRLF_BYTES) by { PlainCrlf(); }
    var before := CutTail(chunks, head + CRLF_BYTES, tail);
    var first := CutTail(before, head, CRLF_BYTES);
    assert AsText(CRLF_BYTES) == CRLF;
    var texts, t0 := DecodeAll(chunks), Concat(DecodeAll(before));
    NothingUnfinished(Concat(DecodeAll(first)));
    SplitAppend(t0, AsText(tail), CRLF);
    assert "" + AsText(tail) == AsText(tail);
    var ps := Split(t0, CRLF).0;
    assert Split(Concat(texts), CRLF).0 == ps + [] == ps;
    SplitConserves(t0, CRLF);
    assert t0 == Join(ps, CRLF) + "" == Join(ps, CRLF);
    FeedConserves("", texts);
    assert "" + Concat(texts) == Concat(texts);
    var (done, cache) := Feed(texts);
    var waiting := NonEmpty(Split(cache, CRLF).0);
    assert done + waiting == NonEmpty(ps);
    JoinAppend(done, waiting, CRLF);
    WeightAppend(Join(done, CRLF), Join(waiting, CRLF));
    JoinWeight(ps);
    StreamChars(before);
  }

  lemma PlainCrlf()
    ensures IsPlain(CRLF_BYTES)
  {}

  lemma JoinedHead(ps: seq<seq<Byte>>) returns (head: seq<Byte>)
    requires ps != []
    ensures Join(ps, CRLF_BYTES) == head + CRLF_BYTES
  {
    var n := |ps| - 1;
    assert ps == ps[..n] + [ps[n]];
    JoinAppend(ps[..n], [ps[n]], CRLF_BYTES);
    JoinOne(ps[n], CRLF_BYTES);
    head := Join(ps[..n], CRLF_BYTES) + ps[n];
  }

  lemma NoNulIn(ps: seq<seq<Byte>>)
    requires forall x | x in Texts(ps) :: '\0' !in x
    ensures 0 !in Join(ps, CRLF_BYTES)
  {
    if ps != [] {
      assert Texts(ps)[0] in Texts(ps);
      assert '\0' !in AsText(ps[0]);
      forall x | x in Texts(ps[1..]) ensures '\0' !in x {
        var i :| 0 <= i < |ps[1..]| && x == AsText(ps[1..][i]);
        assert Texts(ps)[i + 1] == x && Texts(ps)[i + 1] in Texts(ps);
      }
      NoNulIn(ps[1..]);
      forall i | 0 <= i < |ps[0]| ensures ps[0][i] != 0 {
        assert AsText(ps[0])[i] in AsText(ps[0]);
      }
    }
  }

  lemma PlainPieces(ps: seq<seq<Byte>>)
    requires TextWeight(Join(Texts(ps), CRLF)) <= |Join(ps, CRLF_BYTES)|
    requires forall x | x in Texts(ps) :: x != "" && '\0' !in x
    ensures forall p | p in ps :: p != [] && IsPlain(p)
  {
    var t := AsText(Join(ps, CRLF_BYTES));
    TextsJoin(ps);
    AsTextIn(Join(ps, CRLF_BYTES));
    LightText(t);
    forall p | p in ps ensures p != [] && IsPlain(p) {
      var i :| 0 <= i < |ps| && ps[i] == p;
      assert Texts(ps)[i] == AsText(p) && Texts(ps)[i] in Texts(ps);
      JoinChars(Texts(ps), AsText(p));
      AsTextIn(p);
    }
  }

  lemma PlainPiecesExecute(chunks: seq<seq<Byte>>, ps: seq<seq<Byte>>, rest: seq<Byte>)
    requires Concat(chunks) == Join(ps, CRLF_BYTES) + rest && !Contains(rest, CRLF_BYTES) && IsPlain(rest)
    requires forall p | p in ps :: p != [] && IsPlain(p) && IsPiece(p, CRLF_BYTES)
    ensures Receive(chunks).0 == Texts(ps)
  {
    JoinPlain(ps);
    TextsJoin(ps);
    TextAppend(Join(ps, CRLF_BYTES), rest);
    TextContains(rest);
    forall x | x in Texts(ps) ensures IsPiece(x, CRLF) && x != "" {
      var i :| 0 <= i < |ps| && x == AsText(ps[i]);
      assert ps[i] in ps;
      TextPiece(ps[i]);
    }
    SplitJoin(Texts(ps), AsText(rest), CRLF);
    PlainBytesExecute(chunks);
  }

  /** Any bytes at all, in any chunks, as long as the unfinished text behind the last
      delimiter is ASCII without NUL: what is executed are the pieces of the bytes, in order,
      if and only if none is empty and all of them are ASCII without NUL. */
  lemma BytesExecute(chunks: seq<seq<Byte>>)
    requires IsPlain(Split(Concat(chunks), CRLF_BYTES).1)
    ensures var pieces := Split(Concat(chunks), CRLF_BYTES).0;
            Receive(chunks).0 == Texts(pieces) <==> forall p | p in pieces :: p != [] && IsPlain(p)
  {
    hide Decode, Receive;
    var b := Concat(chunks);
    var (ps, rest) := Split(b, CRLF_BYTES);
    SplitConserves(b, CRLF_BYTES);
    if forall p | p in ps :: p != [] && IsPlain(p) {
      PlainPiecesExecute(chunks, ps, rest);
    }
    if Receive(chunks).0 == Texts(ps) && ps != [] {
      ExecutedWeight(chunks);
      NoNulIn(ps);
      TextContains(rest);
      var head := JoinedHead(ps);
      assert forall x | x in head :: x in head + CRLF_BYTES;
      ExecutedBeforeTail(chunks, head, rest);
      PlainPieces(ps);
    }
  }

  lemma ReceiveOne(a: seq<Byte>)
    ensures Receive([a]) == Drain(Decode(a))
  {
    hide Decode, Drain;
    assert DecodeAll([a]) == [Decode(a)];
    FeedOne(Decode(a));
  }

  lemma ReceiveTwo(a: seq<Byte>, b: seq<Byte>)
    requires !Contains(Decode(a), CRLF)
    ensures Receive([a, b]) == Drain(Decode(a) + Decode(b))
  {
    hide Decode;
    assert DecodeAll([a, b]) == [Decode(a), Decode(b)];
    FeedTwo(Decode(a), Decode(b));
    assert Drain(Decode(a)) == ([], Decode(a));
    assert [] + Drain(Decode(a) + Decode(b)).0 == Drain(Decode(a) + Decode(b)).0;
  }

  /** The two bytes of one character in one chunk and in two. */
  lemma SplitCharacter()
    ensures Receive([[0xC3, 0xA9, 13, 10]]).0 == ["\U{E9}"]
    ensures Receive([[0xC3], [0xA9, 13, 10]]).0 == ["\U{FFFD}\U{FFFD}"]
  {
    hide Decode, Drain, Receive;
    var e: string, x: string := "\U{E9}", "\U{FFFD}";
    DecodeSplit();
    ReceiveOne([0xC3, 0xA9, 13, 10]);
    PieceWithout(e);
    DrainOneCommand(e);
    NoDelimiterIn(x);
    ReceiveTwo([0xC3], [0xA9, 13, 10]);
    Regroup(x, x, CRLF);
    assert x + x == "\U{FFFD}\U{FFFD}";
    PieceWithout(x + x);
    DrainOneCommand(x + x);
  }

  lemma DecodeSplit()
    ensures Decode([0xC3, 0xA9, 13, 10]) == "\U{E9}" + CRLF
    ensures Decode([0xC3]) == "\U{FFFD}"
    ensures Decode([0xA9, 13, 10]) == "\U{FFFD}" + CRLF
  {
    var a: seq<Byte>, b: seq<Byte>, c: seq<Byte> := [0xC3, 0xA9, 13, 10], [0xA9, 13, 10], [0xC3];
    assert SkipBom(BeforeNul(a)) == a && SkipBom(BeforeNul(b)) == b && SkipBom(BeforeNul(c)) == c;
    CrlfDecoded();
    assert a[2..] == CRLF_BYTES && b[1..] == CRLF_BYTES && c[1..] == [];
    assert FirstChar(a) == ('\U{E9}', 2) && FirstChar(b) == (REPLACEMENT, 1) && FirstChar(c) == (REPLACEMENT, 1);
  }

  lemma CrlfDecoded()
    ensures FromUtf8(CRLF_BYTES) == CRLF
  {
    PlainFromUtf8(CRLF_BYTES);
  }

  lemma PieceWithout(p: string)
    requires '\r' !in p
    ensures IsPiece(p, CRLF)
  {
    assert (p + CRLF)[|p|..|p| + 2] == CRLF;
    forall j: nat | j < |p| ensures !OccursAt(p + CRLF, CRLF, j) {
      assert (p + CRLF)[j..j + 2][0] == p[j] && p[j] in p;
    }
  }

  lemma NoDelimiterIn(p: string)
    requires '\r' !in p
    ensures !Contains(p, CRLF)
  {
    forall j: nat | j <= |p| ensures !OccursAt(p, CRLF, j) {
      if j + 2 <= |p| {
        assert p[j..j + 2][0] == p[j] && p[j] in p;
      }
    }
  }

  lemma DecodeNul()
    ensures Decode([97, 0, 98, 13, 10]) == Decode([97, 0]) == "a"
    ensures Decode([98, 13, 10]) == "b" + CRLF
  {
    hide Decode;
    var a: seq<Byte>, b: seq<Byte> := [97], [98, 13, 10];
    NulEndsChunk(a, b);
    NulEndsChunk(a, []);
    assert a + [0] + b == [97, 0, 98, 13, 10] && a + [0] + [] == [97, 0];
    DecodePlain(a);
    DecodePlain(b);
    assert AsText(a) == "a" && AsText(b) == "b" + CRLF;
  }

  /** What stands behind a NUL byte is lost, unless the chunk ends there. */
  lemma NulCut()
    ensures Receive([[97, 0, 98, 13, 10]]).0 == []
    ensures Receive([[97, 0], [98, 13, 10]]).0 == ["ab"]
  {
    hide Decode, Receive;
    DecodeNul();
    ReceiveOne([97, 0, 98, 13, 10]);
    NoDelimiterIn("a");
    ReceiveTwo([97, 0], [98, 13, 10]);
    assert "a" + ("b" + CRLF) == "ab" + CRLF;
    PieceWithout("ab");
    DrainOneCommand("ab");
  }

  /** An unfinished text with a NUL can add a command of its own: a delimiter forms across
      the border of two chunks. */
  lemma NulInTail()
    ensures Split<Byte>([98, 13, 0, 10], CRLF_BYTES) == ([], [98, 13, 0, 10])
    ensures Receive([[98, 13, 0], [10]]).0 == ["b"]
  {
    hide Decode, Receive;
    var tail: seq<Byte> := [98, 13, 0, 10];
    forall i: nat ensures !OccursAt(tail, CRLF_BYTES, i) {
      if i + 2 <= |tail| {
        assert tail[i..i + 2] == [tail[i], tail[i + 1]];
      }
    }
    DecodeTail();
    forall j: nat ensures !OccursAt("b\r", CRLF, j) {
      if j + 2 <= |"b\r"| {
        assert "b\r"[j..j + 2] == "b\r";
      }
    }
    ReceiveTwo([98, 13, 0], [10]);
    assert "b\r" + "\n" == "b" + CRLF;
    PieceWithout("b");
    DrainOneCommand("b");
  }

  lemma DecodeTail()
    ensures Decode([98, 13, 0]) == "b\r" && Decode([10]) == "\n"
  {
    DecodePlain([10]);
    var a: seq<Byte> := [98, 13];
    NulEndsChunk(a, []);
    assert a + [0] + [] == [98, 13, 0];
    DecodePlain(a);
    assert AsText(a) == "b\r";
  }

  // ----- the answers

  /** A client that sends one command gets one answer, however its bytes are cut: "true" for
      alive and for a number, for terminate unless the service cannot be stopped, for pause
      and resume if it can be suspended; and "false" for everything else. */
  lemma CommandAnswered(cmd: string, chunks: seq<seq<Byte>>, flags: Flags) returns (reply: string)
    requires Sendable(cmd) && Concat(chunks) == Wire([cmd])
    ensures Exchanges(Receive(chunks).0, flags) == [Exchange(cmd, reply)]
    ensures reply == "true" || reply == "false"
    ensures cmd == "alive" || "num:" < cmd ==> reply == "true"
    ensures cmd == "terminate" ==> (reply == "true" <==> !flags.cannotBeStopped)
    ensures cmd == "pause" || cmd == "resume" ==> (reply == "true" <==> flags.canBeSuspended)
    ensures !("num:" < cmd) && cmd !in {"alive", "terminate", "pause", "resume"} ==> reply == "false"
  {
    CommandsArrive([cmd], chunks);
    reply := Reply(cmd, flags);
    hide Receive;
    assert "num:" < cmd <==> |cmd| > 4 && cmd[..4] == "num:";
    assert cmd == "terminate" || cmd == "pause" || cmd == "resume" || cmd == "alive" ==> cmd[0] != 'n';
  }
}
