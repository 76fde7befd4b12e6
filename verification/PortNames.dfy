/** How a port is shown in the port list and how its protocol and number are read back. */
module PortNames {
  /** A 32-bit int. */
  type int32 = x: int | -0x8000_0000 <= x < 0x8000_0000

  datatype Protocol = Protocol(tcp: bool, port: int32)

  predicate IsDigit(c: char) { '0' <= c <= '9' }

  predicate AllDigits(s: string) {
    forall c | c in s :: IsDigit(c)
  }

  function Digits(n: nat): string {
    (if n < 10 then "" else Digits(n / 10)) + ['0' + (n % 10) as char]
  }

  /** QString::number */
  function Number(p: int32): string {
    if p < 0 then "-" + Digits(-(p as int)) else Digits(p)
  }

  function DisplayName(p: Protocol): string {
    (if p.tcp then "TCP " else "UDP ") + Number(p.port)
  }

  // ----- reading a name

  /** split(" ").last() */
  function LastWord(s: string): string {
    if ' ' in s then LastWord(s[1..]) else s
  }

  function Value(digits: string): nat
    requires AllDigits(digits)
  {
    if digits == "" then 0
    else
      var c := digits[|digits| - 1];
      assert c in digits && IsDigit(c);
      Value(digits[..|digits| - 1]) * 10 + (c - '0') as nat
  }

  /** QString::toInt for a text without spaces: 0 for anything that is not a number, or not
      an int. */
  function ToInt(s: string): int32 {
    var digits := if s != "" && (s[0] == '-' || s[0] == '+') then s[1..] else s;
    if digits == "" || !AllDigits(digits) then 0
    else
      var v: int := if s[0] == '-' then -(Value(digits) as int) else Value(digits);
      if -0x8000_0000 <= v < 0x8000_0000 then v else 0
  }

  function Lower(c: char): char {
    if 'A' <= c <= 'Z' then c - 'A' + 'a' else c
  }

  /** startsWith("T", Qt::CaseInsensitive) */
  predicate StartsWithT(s: string) {
    s != "" && Lower(s[0]) == 't'
  }

  /** contains("udp", Qt::CaseInsensitive) */
  predicate ContainsUdp(s: string) {
    exists i | 0 <= i < |s| - 2 :: Lower(s[i]) == 'u' && Lower(s[i + 1]) == 'd' && Lower(s[i + 2]) == 'p'
  }

  // ----- what is read is what was shown

  lemma {:induction false} DigitsReadBack(n: nat)
    ensures Digits(n) != "" && AllDigits(Digits(n)) && Value(Digits(n)) == n
  {
    var d := Digits(n);
    if n >= 10 {
      DigitsReadBack(n / 10);
      assert d[..|d| - 1] == Digits(n / 10);
    }
  }

  lemma ReadSigned(digits: string)
    requires digits != "" && AllDigits(digits)
    ensures Value(digits) < 0x8000_0000 ==> ToInt(digits) == Value(digits)
    ensures Value(digits) <= 0x8000_0000 ==> ToInt("-" + digits) == -(Value(digits) as int)
  {
    assert digits[0] in digits;
    assert ("-" + digits)[1..] == digits;
  }

  /** Every int survives being printed and parsed. */
  lemma NumberReadsBack(p: int32)
    ensures ToInt(Number(p)) == p
    ensures forall c | c in Number(p) :: c == '-' || IsDigit(c)
  {
    var digits := Digits(if p < 0 then -(p as int) else p);
    DigitsReadBack(if p < 0 then -(p as int) else p);
    ReadSigned(digits);
  }

  lemma LastWordAfter(w: string, s: string)
    requires ' ' !in s
    ensures LastWord(w + " " + s) == s
  {
    var t := w + " " + s;
    assert t[|w|] == ' ';
    if w == "" {
      assert t[1..] == s;
    } else {
      assert t[1..] == w[1..] + " " + s;
      LastWordAfter(w[1..], s);
    }
  }

  lemma NoUdpIn(s: string)
    requires forall c | c in s :: c == '-' || IsDigit(c)
    ensures !ContainsUdp("TCP " + s) && ContainsUdp("UDP " + s)
  {
    var t, u := "TCP " + s, "UDP " + s;
    forall i | 4 <= i < |t| ensures Lower(t[i]) != 'u' {
      assert t[i] == s[i - 4] && s[i - 4] in s;
    }
    assert Lower(u[0]) == 'u' && Lower(u[1]) == 'd' && Lower(u[2]) == 'p';
  }

  lemma NumberIsLast(p: Protocol)
    requires ' ' !in Number(p.port)
    ensures LastWord(DisplayName(p)) == Number(p.port)
  {
    if p.tcp {
      assert "TCP" + " " == "TCP ";
      LastWordAfter("TCP", Number(p.port));
    } else {
      assert "UDP" + " " == "UDP ";
      LastWordAfter("UDP", Number(p.port));
    }
  }

  lemma LetterReadsBack(p: Protocol)
    ensures StartsWithT(DisplayName(p)) == p.tcp
  {
    hide Number;
  }

  lemma UdpReadsBack(p: Protocol)
    ensures ContainsUdp(DisplayName(p)) == !p.tcp
  {
    NumberReadsBack(p.port);
    NoUdpIn(Number(p.port));
    hide ContainsUdp, Number, ToInt;
  }

  lemma PortReadsBack(p: Protocol)
    ensures ToInt(LastWord(DisplayName(p))) == p.port
  {
    NumberReadsBack(p.port);
    hide ToInt, Number, DisplayName;
    NumberIsLast(p);
  }

  /** Both readers recover from a printed name what it was printed from: the one that looks
      for a leading T and the one that looks for "udp" agree on every name. */
  lemma NameReadsBack(p: Protocol)
    ensures StartsWithT(DisplayName(p)) == p.tcp
    ensures ContainsUdp(DisplayName(p)) == !p.tcp
    ensures ToInt(LastWord(DisplayName(p))) == p.port
  {
    hide *;
    LetterReadsBack(p);
    UdpReadsBack(p);
    PortReadsBack(p);
  }

  /** The protocol in capitals, a space, and the number in decimals. */
  lemma ShownText()
    ensures DisplayName(Protocol(true, 443)) == "TCP 443" && DisplayName(Protocol(false, 53)) == "UDP 53"
  {
    assert Digits(4) == "4" && Digits(44) == "44" && Digits(443) == "443";
    assert Digits(5) == "5" && Digits(53) == "53";
  }

  /** Different ports are shown by different names. */
  lemma NamesDiffer(p: Protocol, q: Protocol)
    ensures DisplayName(p) == DisplayName(q) <==> p == q
  {
    NameReadsBack(p);
    NameReadsBack(q);
  }
}
