/** Text on the wire: QString::toLatin1 and toUtf8 on the way out, and on the way in the
    QString that Qt 5 makes of a byte array. */
module TextCodec {
  import opened Sequences

  type Byte = b: int | 0 <= b < 256

  const REPLACEMENT: char := '\U{FFFD}'

  // ----- writing

  /** toLatin1 of one character: what has no Latin-1 code becomes '?', once for each of
      its UTF-16 units. */
  function Latin1(c: char): (s: seq<Byte>)
    ensures 1 <= |s| <= 2
  {
    if c as int < 0x100 then [c as int] else if c as int < 0x1_0000 then [63] else [63, 63]
  }

  function Utf8(ch: char): seq<Byte> {
    var c := ch as int;
    if c < 0x80 then [c]
    else if c < 0x800 then [0xC0 + c / 0x40, 0x80 + c % 0x40]
    else if c < 0x1_0000 then [0xE0 + c / 0x1000, 0x80 + c / 0x40 % 0x40, 0x80 + c % 0x40]
    else [0xF0 + c / 0x4_0000, 0x80 + c / 0x1000 % 0x40, 0x80 + c / 0x40 % 0x40, 0x80 + c % 0x40]
  }

  function ToLatin1(text: string): seq<Byte> {
    if text == [] then [] else Latin1(text[0]) + ToLatin1(text[1..])
  }

  function ToUtf8(text: string): seq<Byte> {
    if text == [] then [] else Utf8(text[0]) + ToUtf8(text[1..])
  }

  // ----- reading

  predicate IsContinuation(b: Byte) { 0x80 <= b < 0xC0 }

  /** The bits of a byte behind its marker. */
  function Low(b: Byte, marker: int): int { b as int - marker }

  /** The first character of a byte sequence and the number of bytes it takes. A byte that
      begins no complete character becomes a replacement character of its own. */
  function FirstChar(s: seq<Byte>): (r: (char, nat))
    requires s != []
    ensures 1 <= r.1 <= |s|
    ensures Weight(r.0) <= r.1
    ensures s[0] < 0x80 ==> r == (s[0] as char, 1)
    ensures s[0] >= 0x80 ==> r.0 as int >= 0x80
  {
    if s[0] < 0x80 then (s[0] as char, 1)
    else if 0xC2 <= s[0] < 0xE0 && |s| >= 2 && IsContinuation(s[1]) then
      ((Low(s[0], 0xC0) * 0x40 + Low(s[1], 0x80)) as char, 2)
    else if 0xE0 <= s[0] < 0xF0 && |s| >= 3 && IsContinuation(s[1]) && IsContinuation(s[2]) then
      var c := Low(s[0], 0xE0) * 0x1000 + Low(s[1], 0x80) * 0x40 + Low(s[2], 0x80);
      if c < 0x800 || 0xD800 <= c < 0xE000 then (REPLACEMENT, 1) else (c as char, 3)
    else if 0xF0 <= s[0] < 0xF5 && |s| >= 4 && IsContinuation(s[1]) && IsContinuation(s[2]) && IsContinuation(s[3]) then
      var c := Low(s[0], 0xF0) * 0x4_0000 + Low(s[1], 0x80) * 0x1000 + Low(s[2], 0x80) * 0x40 + Low(s[3], 0x80);
      if c < 0x1_0000 || c > 0x10_FFFF then (REPLACEMENT, 1) else (c as char, 4)
    else (REPLACEMENT, 1)
  }

  function FromUtf8(s: seq<Byte>): string
    decreases |s|
  {
    if s == [] then [] else
      var (c, n) := FirstChar(s);
      [c] + FromUtf8(s[n..])
  }

  function BeforeNul(s: seq<Byte>): (r: seq<Byte>)
    ensures |r| <= |s| && 0 !in r
    ensures 0 !in s ==> r == s
  {
    if s == [] || s[0] == 0 then [] else [s[0]] + BeforeNul(s[1..])
  }

  const BOM: seq<Byte> := [0xEF, 0xBB, 0xBF]

  function SkipBom(s: seq<Byte>): seq<Byte> {
    if BOM <= s then s[3..] else s
  }

  /** QString(QByteArray): the UTF-8 text before the first NUL byte. */
  function Decode(s: seq<Byte>): string {
    FromUtf8(SkipBom(BeforeNul(s)))
  }

  /** Chunks that are decoded each on its own. */
  function DecodeAll(chunks: seq<seq<Byte>>): seq<string> {
    seq(|chunks|, i requires 0 <= i < |chunks| => Decode(chunks[i]))
  }

  lemma DecodeNext(chunks: seq<seq<Byte>>, chunk: seq<Byte>)
    ensures DecodeAll(chunks + [chunk]) == DecodeAll(chunks) + [Decode(chunk)]
    ensures Concat(DecodeAll(chunks + [chunk])) == Concat(DecodeAll(chunks)) + Decode(chunk)
    ensures Concat(chunks + [chunk]) == Concat(chunks) + chunk
  {
    hide Decode;
    assert DecodeAll(chunks + [chunk]) == DecodeAll(chunks) + [Decode(chunk)];
    ConcatNext(DecodeAll(chunks), Decode(chunk));
    ConcatNext(chunks, chunk);
  }

  lemma DecodeOne(chunk: seq<Byte>)
    ensures DecodeAll([chunk]) == [Decode(chunk)]
    ensures Concat([chunk]) == chunk
  {
    hide Decode;
    assert |DecodeAll([chunk])| == 1 && DecodeAll([chunk])[0] == Decode(chunk);
    assert [chunk][..0] == [];
  }

  // ----- what survives

  /** The least number of bytes that are decoded as this character. */
  function Weight(c: char): nat {
    if c as int < 0x80 || c == REPLACEMENT then 1
    else if c as int < 0x800 then 2
    else if c as int < 0x1_0000 then 3
    else 4
  }

  function TextWeight(text: string): nat {
    if text == [] then 0 else Weight(text[0]) + TextWeight(text[1..])
  }

  predicate IsPlain(s: seq<Byte>) {
    forall b | b in s :: 0 < b < 0x80
  }

  /** ASCII without NUL. */
  predicate IsPlainText(text: string) {
    forall c | c in text :: 0 < c as int < 0x80
  }

  function AsText(s: seq<Byte>): (text: string)
    ensures |text| == |s| && forall i | 0 <= i < |s| :: text[i] == s[i] as char
  {
    seq(|s|, i requires 0 <= i < |s| => s[i] as char)
  }

  lemma {:induction false} PlainFromUtf8(s: seq<Byte>)
    requires IsPlain(s)
    ensures FromUtf8(s) == AsText(s)
    decreases |s|
  {
    if s != [] {
      assert s[0] in s && forall b | b in s[1..] :: b in s;
      PlainFromUtf8(s[1..]);
      assert AsText(s) == [s[0] as char] + AsText(s[1..]);
    }
  }

  /** Decoding is the identity on the bytes 1..127. */
  lemma DecodePlain(s: seq<Byte>)
    requires IsPlain(s)
    ensures Decode(s) == AsText(s)
  {
    assert BOM <= s ==> s[0] == 0xEF;
    PlainFromUtf8(s);
  }

  lemma {:induction false} FromUtf8Chars(s: seq<Byte>)
    requires 0 !in s
    ensures TextWeight(FromUtf8(s)) <= |s|
    ensures '\0' !in FromUtf8(s)
    ensures (forall b | b in s :: b < 0x80) ==> forall c | c in FromUtf8(s) :: c as int < 0x80
    decreases |s|
  {
    if s != [] {
      var (c, n) := FirstChar(s);
      assert s[0] in s && forall b | b in s[n..] :: b in s;
      FromUtf8Chars(s[n..]);
      assert ([c] + FromUtf8(s[n..]))[1..] == FromUtf8(s[n..]);
    }
  }

  /** No chunk is decoded to more than it holds, and none to a NUL. */
  lemma DecodeChars(s: seq<Byte>)
    ensures TextWeight(Decode(s)) <= |s|
    ensures '\0' !in Decode(s)
    ensures (forall b | b in s :: b < 0x80) ==> forall c | c in Decode(s) :: c as int < 0x80
  {
    var t := BeforeNul(s);
    BeforeNulIn(s);
    assert forall b | b in SkipBom(t) :: b in t;
    FromUtf8Chars(SkipBom(t));
  }

  lemma {:induction false} BeforeNulIn(s: seq<Byte>)
    ensures forall b | b in BeforeNul(s) :: b in s
  {
    if s != [] && s[0] != 0 {
      BeforeNulIn(s[1..]);
    }
  }

  lemma {:induction false} BeforeNulAt(a: seq<Byte>, b: seq<Byte>)
    requires 0 !in a
    ensures BeforeNul(a + [0] + b) == a
  {
    var s := a + [0] + b;
    if a == [] {
      assert s[0] == 0;
    } else {
      assert s[1..] == a[1..] + [0] + b;
      BeforeNulAt(a[1..], b);
    }
  }

  /** What stands behind a NUL byte in a chunk is lost. */
  lemma NulEndsChunk(a: seq<Byte>, b: seq<Byte>)
    requires 0 !in a
    ensures Decode(a + [0] + b) == Decode(a)
  {
    BeforeNulAt(a, b);
  }

  lemma {:induction false} WeightAppend(a: string, b: string)
    ensures TextWeight(a + b) == TextWeight(a) + TextWeight(b)
  {
    if a == [] {
      assert a + b == b;
    } else {
      WeightAppend(a[1..], b);
      assert (a + b)[1..] == a[1..] + b;
    }
  }

  lemma {:induction false} Latin1Append(a: string, b: string)
    ensures ToLatin1(a + b) == ToLatin1(a) + ToLatin1(b)
  {
    if a == [] {
      assert a + b == b;
    } else {
      Latin1Append(a[1..], b);
      assert (a + b)[1..] == a[1..] + b;
      Regroup(Latin1(a[0]), ToLatin1(a[1..]), ToLatin1(b));
    }
  }

  /** A text needs at least as many bytes to be read as toLatin1 makes of it, and if that is
      enough it is ASCII apart from replacement characters, which are written as '?'. */
  lemma {:induction false} Latin1Weight(text: string)
    ensures |ToLatin1(text)| <= TextWeight(text)
    ensures |ToLatin1(text)| == TextWeight(text) ==> forall b | b in ToLatin1(text) :: b < 0x80
  {
    if text != [] {
      Latin1Weight(text[1..]);
    }
  }

  lemma {:induction false} PlainLatin1(text: string)
    requires IsPlainText(text)
    ensures IsPlain(ToLatin1(text)) && AsText(ToLatin1(text)) == text
  {
    if text != [] {
      assert text[0] in text && forall c | c in text[1..] :: c in text;
      PlainLatin1(text[1..]);
      var first, rest := text[0], ToLatin1(text[1..]);
      assert ToLatin1(text) == [first as int] + rest;
      assert AsText([first as int] + rest) == [first] + AsText(rest);
    }
  }

  lemma {:induction false} Latin1Has(text: string, c: char)
    requires c as int < 0x80 && c != '?'
    ensures c as int in ToLatin1(text) <==> c in text
  {
    if text != [] {
      Latin1Has(text[1..], c);
    }
  }

  /** Bytes 1..127 become the same text however they are cut. */
  lemma {:induction false} PlainChunks(chunks: seq<seq<Byte>>)
    requires IsPlain(Concat(chunks))
    ensures Concat(DecodeAll(chunks)) == AsText(Concat(chunks))
    decreases |chunks|
  {
    hide Decode;
    if chunks != [] {
      var before, chunk := chunks[..|chunks| - 1], chunks[|chunks| - 1];
      assert chunks == before + [chunk];
      DecodeNext(before, chunk);
      assert forall b | b in Concat(before) || b in chunk :: b in Concat(before) + chunk;
      PlainChunks(before);
      DecodePlain(chunk);
    }
  }

  // ----- plain bytes behind others

  lemma TextAppend(a: seq<Byte>, b: seq<Byte>)
    ensures AsText(a + b) == AsText(a) + AsText(b)
    ensures IsPlain(a) && IsPlain(b) ==> IsPlain(a + b)
  {}

  lemma FirstCharStays(a: seq<Byte>, b: seq<Byte>)
    requires a != [] && IsPlain(b)
    ensures FirstChar(a + b) == FirstChar(a)
  {
    forall i | |a| <= i < |a + b| ensures !IsContinuation((a + b)[i]) {
      assert (a + b)[i] == b[i - |a|] && b[i - |a|] in b;
    }
  }

  lemma {:induction false} FromUtf8Append(a: seq<Byte>, b: seq<Byte>)
    requires IsPlain(b)
    ensures FromUtf8(a + b) == FromUtf8(a) + AsText(b)
    decreases |a|
  {
    if a == [] {
      assert a + b == b;
      PlainFromUtf8(b);
    } else {
      FirstCharStays(a, b);
      hide FirstChar, IsPlain, AsText;
      var (c, n) := FirstChar(a);
      FromUtf8Append(a[n..], b);
      assert (a + b)[n..] == a[n..] + b;
      Regroup([c], FromUtf8(a[n..]), AsText(b));
    }
  }

  lemma {:induction false} NoNul(s: seq<Byte>)
    requires 0 !in s
    ensures BeforeNul(s) == s
  {}

  lemma BomStays(a: seq<Byte>, b: seq<Byte>)
    requires IsPlain(b)
    ensures BOM <= a + b <==> BOM <= a
  {
    forall i | |a| <= i < |a + b| ensures (a + b)[i] < 0x80 {
      assert (a + b)[i] == b[i - |a|] && b[i - |a|] in b;
    }
    if BOM <= a + b {
      assert BOM[2] == 0xBF && (a + b)[2] == BOM[2];
      assert |a| > 2;
      forall i | 0 <= i < 3 ensures a[i] == BOM[i] {
        assert (a + b)[i] == BOM[i];
      }
      assert a[..3] == BOM;
    }
  }

  /** Plain bytes at the end of a chunk are the end of its text. */
  lemma DecodeAppend(a: seq<Byte>, b: seq<Byte>)
    requires 0 !in a && IsPlain(b)
    ensures Decode(a + b) == Decode(a) + AsText(b)
  {
    NoNul(a);
    NoNul(a + b);
    BomStays(a, b);
    if BOM <= a {
      assert (a + b)[3..] == a[3..] + b;
      FromUtf8Append(a[3..], b);
    } else {
      FromUtf8Append(a, b);
    }
  }

  /** Plain bytes at the end of the chunks can be cut off them. */
  lemma {:induction false} CutTail(chunks: seq<seq<Byte>>, head: seq<Byte>, tail: seq<Byte>) returns (before: seq<seq<Byte>>)
    requires Concat(chunks) == head + tail && 0 !in head && IsPlain(tail)
    ensures Concat(before) == head && Concat(DecodeAll(chunks)) == Concat(DecodeAll(before)) + AsText(tail)
    decreases |chunks|
  {
    hide Decode;
    if chunks == [] {
      before := [];
    } else {
      var front, last := chunks[..|chunks| - 1], chunks[|chunks| - 1];
      assert chunks == front + [last];
      DecodeNext(front, last);
      if |last| <= |tail| {
        TwoCuts(Concat(front), last, head, tail);
        var rest := tail[..|tail| - |last|];
        assert forall b | b in rest || b in last :: b in rest + last;
        before := CutTail(front, head, rest);
        DecodePlain(last);
        TextAppend(rest, last);
        Regroup(Concat(DecodeAll(before)), AsText(rest), AsText(last));
      } else {
        TwoCuts(head, tail, Concat(front), last);
        var rest := last[..|last| - |tail|];
        before := front + [rest];
        DecodeNext(front, rest);
        assert forall b | b in rest :: b in Concat(front) + rest;
        DecodeAppend(rest, tail);
        Regroup(Concat(DecodeAll(front)), Decode(rest), AsText(tail));
      }
    }
  }
}
