/** The conversions of TextCodec against the encodings they are for: UTF-8 as section 3 of
    RFC 3629 has it, and Latin-1 by UTF-16 units. */
module TextEncoding {
  import opened Sequences
  import opened TextCodec

  // ----- the encoding of one character

  /** The six bits in a continuation byte. */
  function Six(b: Byte): int { b as int - 0x80 }

  /** The bits of character n, in groups of six from the right, each in a byte of its own with
      its marker, and no more bytes than are needed. */
  predicate IsUtf8(u: seq<Byte>, n: int) {
    || (|u| == 1 && 0 <= n < 0x80 && u[0] == n)
    || (|u| == 2 && 0x80 <= n < 0x800 && 0xC0 <= u[0] < 0xE0 && 0x80 <= u[1] < 0xC0
        && n == (u[0] - 0xC0) * 0x40 + Six(u[1]))
    || (|u| == 3 && 0x800 <= n < 0x1_0000 && 0xE0 <= u[0] < 0xF0 && 0x80 <= u[1] < 0xC0 && 0x80 <= u[2] < 0xC0
        && n == ((u[0] - 0xE0) * 0x40 + Six(u[1])) * 0x40 + Six(u[2]))
    || (|u| == 4 && 0x1_0000 <= n < 0x11_0000 && 0xF0 <= u[0] < 0xF8
        && 0x80 <= u[1] < 0xC0 && 0x80 <= u[2] < 0xC0 && 0x80 <= u[3] < 0xC0
        && n == (((u[0] - 0xF0) * 0x40 + Six(u[1])) * 0x40 + Six(u[2])) * 0x40 + Six(u[3]))
  }

  lemma Groups(n: nat)
    ensures n == n / 0x40 * 0x40 + n % 0x40
    ensures n / 0x40 == n / 0x1000 * 0x40 + n / 0x40 % 0x40
    ensures n / 0x1000 == n / 0x4_0000 * 0x40 + n / 0x1000 % 0x40
  {}

  lemma Utf8IsUtf8(c: char)
    ensures IsUtf8(Utf8(c), c as int)
  {
    var n, u := c as int, Utf8(c);
    Groups(n);
    if n >= 0x1_0000 {
      assert |u| == 4 && u[0] - 0xF0 == n / 0x4_0000 && Six(u[1]) == n / 0x1000 % 0x40 && Six(u[2]) == n / 0x40 % 0x40 && Six(u[3]) == n % 0x40;
    } else if n >= 0x800 {
      assert |u| == 3 && u[0] - 0xE0 == n / 0x1000 && Six(u[1]) == n / 0x40 % 0x40 && Six(u[2]) == n % 0x40;
    } else if n >= 0x80 {
      assert |u| == 2 && u[0] - 0xC0 == n / 0x40 && Six(u[1]) == n % 0x40;
    }
  }

  /** A character has one encoding. */
  lemma OneEncoding(u: seq<Byte>, v: seq<Byte>, n: int)
    requires IsUtf8(u, n) && IsUtf8(v, n)
    ensures u == v
  {}

  lemma FirstOfUtf8(u: seq<Byte>, rest: seq<Byte>, c: char)
    requires IsUtf8(u, c as int)
    ensures FirstChar(u + rest) == (c, |u|)
  {
    var s := u + rest;
    assert forall i | 0 <= i < |u| :: s[i] == u[i];
  }

  /** The first n bytes encode the character c. */
  predicate Begins(s: seq<Byte>, n: int, c: char) {
    0 <= n <= |s| && IsUtf8(s[..n], c as int)
  }

  /** What is read first is the character whose encoding stands there; and where none does, one
      byte is read as a replacement character. */
  lemma FirstCharMeaning(s: seq<Byte>)
    requires s != []
    ensures var (c, n) := FirstChar(s);
            Begins(s, n, c) || (c == REPLACEMENT && n == 1 && forall k, d :: !Begins(s, k, d))
    ensures forall k, d :: Begins(s, k, d) ==> FirstChar(s) == (d, k)
  {
    forall k, d | Begins(s, k, d) ensures FirstChar(s) == (d, k) {
      assert s == s[..k] + s[k..];
      FirstOfUtf8(s[..k], s[k..], d);
    }
    FirstEncoded(s);
  }

  lemma FirstEncoded(s: seq<Byte>)
    requires s != []
    ensures var (c, n) := FirstChar(s); Begins(s, n, c) || (c == REPLACEMENT && n == 1)
  {
    var (c, n) := FirstChar(s);
    assert forall i | 0 <= i < n :: s[..n][i] == s[i];
  }

  // ----- whole texts

  lemma FirstOfText(t: string)
    requires t != ""
    ensures ToUtf8(t) != [] && FirstChar(ToUtf8(t)) == (t[0], |Utf8(t[0])|)
    ensures ToUtf8(t)[|Utf8(t[0])|..] == ToUtf8(t[1..])
  {
    Utf8IsUtf8(t[0]);
    FirstOfUtf8(Utf8(t[0]), ToUtf8(t[1..]), t[0]);
  }

  lemma {:induction false} ReadsBack(t: string)
    ensures FromUtf8(ToUtf8(t)) == t
  {
    if t != "" {
      FirstOfText(t);
      ReadsBack(t[1..]);
    }
  }

  lemma {:induction false} NulInText(t: string)
    ensures 0 in ToUtf8(t) <==> '\0' in t
  {
    if t != "" {
      Utf8IsUtf8(t[0]);
      NulInText(t[1..]);
    }
  }

  const BOM_CHAR: char := '\U{FEFF}'

  lemma BomInText(t: string)
    ensures BOM <= ToUtf8(t) <==> t != "" && t[0] == BOM_CHAR
  {
    if t != "" {
      FirstOfText(t);
      if BOM <= ToUtf8(t) {
        assert ToUtf8(t) == BOM + ToUtf8(t)[3..];
        FirstOfUtf8(BOM, ToUtf8(t)[3..], BOM_CHAR);
      }
    }
  }

  /** A text survives being written as UTF-8 and read if and only if it has no NUL and does not
      begin with a byte order mark. */
  lemma TextSurvives(t: string)
    ensures Decode(ToUtf8(t)) == t <==> '\0' !in t && (t == "" || t[0] != BOM_CHAR)
  {
    var u := ToUtf8(t);
    NulInText(t);
    BomInText(t);
    ReadsBack(t);
    DecodeChars(u);
    if '\0' !in t {
      NoNul(u);
      if BOM <= u {
        FirstOfText(t);
        ReadsBack(t[1..]);
      }
    }
  }

  predicate Survives(t: string) {
    '\0' !in t && (t == "" || t[0] != BOM_CHAR)
  }

  /** Texts in chunks of their own. */
  function InUtf8(ts: seq<string>): (chunks: seq<seq<Byte>>)
    ensures |chunks| == |ts| && forall i | 0 <= i < |ts| :: chunks[i] == ToUtf8(ts[i])
  {
    seq(|ts|, i requires 0 <= i < |ts| => ToUtf8(ts[i]))
  }

  lemma TextsSurvive(ts: seq<string>)
    requires forall t | t in ts :: Survives(t)
    ensures DecodeAll(InUtf8(ts)) == ts
  {
    forall i | 0 <= i < |ts| ensures DecodeAll(InUtf8(ts))[i] == ts[i] {
      assert ts[i] in ts;
      TextSurvives(ts[i]);
    }
  }

  // ----- Latin-1

  /** The UTF-16 units of a text. */
  function Units(text: string): seq<int> {
    if text == "" then []
    else
      var n := text[0] as int;
      (if n < 0x1_0000 then [n] else [0xD800 + (n - 0x1_0000) / 0x400, 0xDC00 + (n - 0x1_0000) % 0x400]) + Units(text[1..])
  }

  /** One byte for each unit: the unit itself, or '?' for one that has no Latin-1 code. */
  lemma {:induction false} Latin1Units(text: string)
    ensures |ToLatin1(text)| == |Units(text)|
    ensures forall i | 0 <= i < |Units(text)| :: ToLatin1(text)[i] == if Units(text)[i] < 0x100 then Units(text)[i] else 0x3F
  {
    if text != "" {
      Latin1Units(text[1..]);
    }
  }
}
