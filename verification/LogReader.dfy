/** How the service follows the OpenVPN log file: openvpnLogfileChanged reads what was
    appended since the last notification. */
module LogReader {
  import opened Framing
  import opened Sequences
  import opened TextCodec
  import opened TextEncoding

  const LF := "\n"

  /** split('\n', SkipEmptyParts) */
  function Lines(s: string): seq<string> {
    NonEmpty(Split(s, LF).0 + [Split(s, LF).1])
  }

  class OpenvpnManager {
    var mLogFilePosition: nat
    var mProcessing: bool
    var mError: bool
    var parsed: seq<string>        // the lines handed to parseOpenvpnLogLine
    var file: seq<Byte>            // the log file
    ghost var batches: seq<seq<Byte>>  // the non-empty reads
    ghost var missed: nat          // bytes appended behind the back of a read

    /** The bytes read are those of the file up to the position, each once and in order, if
        and only if no read missed bytes; a missed byte is never read later. */
    ghost predicate Valid() reads this {
      && Good(batches, parsed, file, mLogFilePosition, missed)
      && !mProcessing
    }

    /** setupFileWatcher: reading starts at the beginning of what is there. */
    constructor (file: seq<Byte>)
      ensures Valid() && this.file == file && mLogFilePosition == 0 && !mError && missed == 0
    {
      mLogFilePosition, mProcessing, mError, parsed, batches, missed := 0, false, false, [], [], 0;
      this.file := file;
    }

    /** OpenVPN appends to its log. */
    method Append(bytes: seq<Byte>)
      requires Valid()
      modifies this`file
      ensures Valid() && file == old(file) + bytes
    {
      file := file + bytes;
      assert file[..mLogFilePosition] == old(file)[..mLogFilePosition];
    }

    /** The change notification. late is what OpenVPN appends between the read and the
        assignment of the position, which asks for the file's size again; tunnelError tells
        whether one of the lines makes the parser set mError. */
    method OpenvpnLogfileChanged(isLogFile: bool, opens: bool, late: seq<Byte>, tunnelError: bool)
      requires Valid()
      modifies this
      ensures Valid()
      ensures var read := !old(mError) && isLogFile && opens && old(mLogFilePosition) + 1 < |old(file)|;
              && batches == old(batches) + (if read then [old(file)[old(mLogFilePosition)..]] else [])
              && mLogFilePosition == (if read then |file| else old(mLogFilePosition))
              && file == old(file) + (if read then late else [])
              && missed == old(missed) + (if read then |late| else 0)
              && mError == if read then tunnelError else old(mError)
      ensures !old(mError) && isLogFile && opens ==> |file| - mLogFilePosition <= 1
    {
      if mProcessing || mError {
        return;
      }
      mProcessing := true;
      if isLogFile && opens {
        FollowLog(late, tunnelError);
      }
      mProcessing := false;
    }

    /** What is behind the position is read and parsed. */
    method FollowLog(late: seq<Byte>, tunnelError: bool)
      requires Good(batches, parsed, file, mLogFilePosition, missed) && !mError
      modifies this`mLogFilePosition, this`file, this`parsed, this`mError, this`batches, this`missed
      ensures Good(batches, parsed, file, mLogFilePosition, missed)
      ensures var read := old(mLogFilePosition) + 1 < |old(file)|;
              && batches == old(batches) + (if read then [old(file)[old(mLogFilePosition)..]] else [])
              && mLogFilePosition == (if read then |file| else old(mLogFilePosition))
              && file == old(file) + (if read then late else [])
              && missed == old(missed) + (if read then |late| else 0)
              && mError == (read && tunnelError)
    {
      assert mLogFilePosition <= |file|;
      hide *;
      ReadOn(batches, parsed, file, mLogFilePosition, missed, late);
      var ba := ReadLog(late);
      if ba != [] {
        ParseLines(ba);
        mError := tunnelError;
        batches, missed := batches + [ba], missed + |late|;
      }
    }

    /** The reading itself. A file that was replaced is read from its start exactly when the
        old position lies beyond its end. */
    method ReadLog(late: seq<Byte>) returns (ba: seq<Byte>)
      modifies this`mLogFilePosition, this`file
      ensures var start := if old(mLogFilePosition) > |old(file)| then 0 else old(mLogFilePosition);
              if start + 1 < |old(file)| then
                ba == old(file)[start..] && file == old(file) + late && mLogFilePosition == |file|
              else
                ba == [] && file == old(file) && mLogFilePosition == start
      ensures |old(file)| >= 2 ==>
                (ba == old(file) <==> old(mLogFilePosition) == 0 || old(mLogFilePosition) > |old(file)|)
    {
      ba := [];
      if mLogFilePosition > |file| {
        mLogFilePosition := 0;
      }
      if mLogFilePosition + 1 < |file| {
        ba := file[mLogFilePosition..];
        file := file + late;
        mLogFilePosition := |file|;
      }
    }

    /** The bytes are turned into text and cut into lines. */
    method ParseLines(ba: seq<Byte>)
      modifies this`parsed
      ensures parsed == old(parsed) + Lines(Decode(ba))
    {
      var s1 := Split(Decode(ba), LF);
      var sl := NonEmpty(s1.0 + [s1.1]);
      for k := 0 to |sl|
        invariant parsed == old(parsed) + sl[..k]
      {
        parsed := parsed + [sl[k]];
      }
      assert sl[..|sl|] == sl;
    }
  }

  /** Reads that are missing this many of the first pos bytes of the file. */
  ghost predicate Good(batches: seq<seq<Byte>>, parsed: seq<string>, file: seq<Byte>, pos: nat, missed: nat) {
    && parsed == LinesOf(DecodeAll(batches))
    && pos <= |file|
    && |Concat(batches)| + missed == pos
    && (Concat(batches) == file[..pos] <==> missed == 0)
  }

  lemma ReadOn(batches: seq<seq<Byte>>, parsed: seq<string>, file: seq<Byte>, pos: nat, missed: nat, late: seq<Byte>)
    requires Good(batches, parsed, file, pos, missed)
    ensures Good(batches + [file[pos..]], parsed + Lines(Decode(file[pos..])), file + late, |file + late|, missed + |late|)
  {
    hide Decode, Lines;
    DecodeNext(batches, file[pos..]);
    LinesNext(DecodeAll(batches), Decode(file[pos..]));
    if missed + |late| == 0 {
      assert Concat(batches) + file[pos..] == file;
    }
  }

  function LinesOf(ts: seq<string>): seq<string> {
    if ts == [] then [] else LinesOf(ts[..|ts| - 1]) + Lines(ts[|ts| - 1])
  }

  lemma LinesNext(ts: seq<string>, t: string)
    ensures LinesOf(ts + [t]) == LinesOf(ts) + Lines(t)
  {
    assert (ts + [t])[..|ts|] == ts;
  }

  // ----- lines across reads

  /** A line does not run across the border between a and b. */
  predicate CleanBorder(a: string, b: string) {
    a == "" || b == "" || a[|a| - 1] == '\n' || b[0] == '\n'
  }

  lemma LinesCons(p: string, tail: string)
    requires IsPiece(p, LF)
    ensures Lines(p + LF + tail) == NonEmpty([p]) + Lines(tail)
  {
    SplitCons(p, tail, LF);
    var ps, rest := Split(tail, LF).0, Split(tail, LF).1;
    Regroup([p], ps, [rest]);
    NonEmptyAppend([p], ps + [rest]);
  }

  lemma OneLine(s: string)
    requires !Contains(s, LF)
    ensures Lines(s) == NonEmpty([s]) && NonEmpty([s]) == if s == "" then [] else [s]
  {
    assert [] + [s] == [s];
    assert NonEmpty([s][1..]) == [];
  }

  lemma NoNewline(s: string)
    ensures !Contains(s, LF) <==> '\n' !in s
  {
    forall i: nat | i < |s| ensures OccursAt(s, LF, i) <==> s[i] == '\n' {
      assert s[i..i + 1] == [s[i]];
    }
    if '\n' in s {
      var i :| 0 <= i < |s| && s[i] == '\n';
      assert OccursAt(s, LF, i);
    }
  }

  /** An unfinished line r, what follows it up to the next newline, and the rest. */
  lemma LinesAfterPiece(r: string, p: string, tail: string)
    requires r != "" && '\n' !in r && '\n' !in p
    ensures Lines(r + (p + LF + tail)) == [r + p] + Lines(tail)
    ensures Lines(p + LF + tail) == (if p == "" then [] else [p]) + Lines(tail)
  {
    PieceOfOne(p, '\n');
    PieceOfOne(r + p, '\n');
    LinesCons(p, tail);
    LinesCons(r + p, tail);
    Regroup(r, p + LF, tail);
    Regroup(r, p, LF);
  }

  /** An unfinished line r and what follows it, up to the first newline or without one. */
  lemma LinesAfterCut(r: string, b: string) returns (p: string, tail: string)
    requires r != "" && '\n' !in r && '\n' in b
    ensures Lines(r + b) == [r + p] + Lines(tail)
    ensures Lines(b) == (if p == "" then [] else [p]) + Lines(tail)
    ensures p == "" <==> b[0] == '\n'
  {
    NoNewline(b);
    p, tail := Cut(b, LF);
    PieceOfOne(p, '\n');
    assert b == p + LF + tail;
    assert b[0] == (p + LF)[0];
    hide Lines, Contains;
    LinesAfterPiece(r, p, tail);
  }

  lemma LinesAfterLast(r: string, b: string)
    requires r != "" && '\n' !in r && b != "" && '\n' !in b
    ensures Lines(r + b) == [r + b] && Lines(b) == [b]
  {
    NoNewline(b);
    NoNewline(r + b);
    OneLine(b);
    OneLine(r + b);
  }

  lemma LinesAfter(r: string, b: string)
    requires r != "" && '\n' !in r && b != ""
    ensures b[0] == '\n' ==> Lines(r + b) == [r] + Lines(b)
    ensures b[0] != '\n' ==> |Lines(r + b)| == |Lines(b)|
  {
    if '\n' in b {
      hide Lines;
      var p, tail := LinesAfterCut(r, b);
      assert p == "" ==> r + p == r;
      assert [] + Lines(tail) == Lines(tail);
    } else {
      LinesAfterLast(r, b);
    }
  }

  lemma RestEnd(a: string)
    ensures var r := Split(a, LF).1; '\n' !in r && |r| <= |a| && r == a[|a| - |r|..]
    ensures Split(a, LF).1 == "" <==> a == "" || a[|a| - 1] == '\n'
  {
    SplitConserves(a, LF);
    var ps, r := Split(a, LF).0, Split(a, LF).1;
    NoNewline(r);
    if r == "" && a != "" {
      JoinEnd(ps);
      assert Join(ps, LF) + r == Join(ps, LF);
    }
  }

  lemma {:induction false} JoinEnd(ps: seq<string>)
    ensures Join(ps, LF) != "" ==> Join(ps, LF)[|Join(ps, LF)| - 1] == '\n'
  {
    if ps != [] {
      JoinEnd(ps[1..]);
    }
  }

  /** The complete lines of the first part do not depend on the second. */
  lemma LinesSplit(a: string, b: string)
    ensures Lines(a + b) == NonEmpty(Split(a, LF).0) + Lines(Split(a, LF).1 + b)
    ensures Lines(a) == NonEmpty(Split(a, LF).0) + NonEmpty([Split(a, LF).1])
  {
    var ps, r := Split(a, LF).0, Split(a, LF).1;
    SplitAppend(a, b, LF);
    var qs, t := Split(r + b, LF).0, Split(r + b, LF).1;
    Regroup(ps, qs, [t]);
    NonEmptyAppend(ps, qs + [t]);
    NonEmptyAppend(ps, [r]);
  }

  /** Reading in two parts hands over one line too many when a line runs across the
      border, and the same lines otherwise. */
  lemma LinesBorder(a: string, b: string)
    ensures CleanBorder(a, b) ==> Lines(a + b) == Lines(a) + Lines(b)
    ensures !CleanBorder(a, b) ==> |Lines(a + b)| + 1 == |Lines(a)| + |Lines(b)|
  {
    hide Lines, NonEmpty, Split, Contains;
    var ps, r := Split(a, LF).0, Split(a, LF).1;
    RestEnd(a);
    LinesSplit(a, b);
    NoNewline(r);
    OneLine(r);
    if b == "" {
      assert r + b == r && a + b == a;
      NoNewline(b);
      OneLine(b);
    } else if r == "" {
      assert r + b == b;
    } else {
      LinesAfter(r, b);
      if b[0] == '\n' {
        Regroup(NonEmpty(ps), [r], Lines(b));
      }
    }
  }

  /** The number of reads that start in the middle of a line. */
  function BrokenLines(ts: seq<string>): nat {
    if ts == [] then 0
    else
      var before := ts[..|ts| - 1];
      BrokenLines(before) + (if CleanBorder(Concat(before), ts[|ts| - 1]) then 0 else 1)
  }

  /** Over a whole run: the lines handed to the parser are the lines of the text read if and
      only if no read started in the middle of a line; each that did adds a line. */
  lemma {:induction false} LinesOfRun(ts: seq<string>)
    ensures |LinesOf(ts)| == |Lines(Concat(ts))| + BrokenLines(ts)
    ensures LinesOf(ts) == Lines(Concat(ts)) <==> BrokenLines(ts) == 0
    decreases |ts|
  {
    if ts == [] {
      NoNewline("");
      OneLine("");
    } else {
      var before := ts[..|ts| - 1];
      LinesOfRun(before);
      LinesBorder(Concat(before), ts[|ts| - 1]);
    }
  }

  /** As long as the log is ASCII without NUL, that text is the text of the bytes read, so
      the parser sees the lines of the file if and only if no read started inside one. */
  lemma PlainLines(bs: seq<seq<Byte>>)
    requires IsPlain(Concat(bs))
    ensures LinesOf(DecodeAll(bs)) == Lines(AsText(Concat(bs))) <==> BrokenLines(DecodeAll(bs)) == 0
  {
    hide Decode, Lines, LinesOf, BrokenLines;
    PlainChunks(bs);
    LinesOfRun(DecodeAll(bs));
  }

  /** And for a log in UTF-8 without NUL, read so that no read starts inside a character or at
      a byte order mark, they are the lines of its text, under the same condition. */
  lemma TextLines(ts: seq<string>)
    requires forall t | t in ts :: Survives(t)
    ensures LinesOf(DecodeAll(InUtf8(ts))) == LinesOf(ts)
    ensures LinesOf(DecodeAll(InUtf8(ts))) == Lines(Concat(ts)) <==> BrokenLines(ts) == 0
    ensures |ts| == 1 ==> LinesOf(DecodeAll(InUtf8(ts))) == Lines(ts[0])
  {
    hide Decode, Lines;
    TextsSurvive(ts);
    LinesOfRun(ts);
    if |ts| == 1 {
      LinesNext([], ts[0]);
      assert [] + [ts[0]] == ts && [] + Lines(ts[0]) == Lines(ts[0]);
    }
  }
}
