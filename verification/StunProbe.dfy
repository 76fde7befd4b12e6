/** The order in which GetExternalIPbySTUN asks the STUN servers. */
module StunProbe {
  const QTY := 263            // StunSrvListQty, "must be prime"
  const ATTEMPTS := 525       // attempt runs from 1 while attempt < 2 * QTY

  // ----- choosing the step

  const TWO_64 := 0x1_0000_0000_0000_0000

  type Word = r: int | 0 <= r < TWO_64

  /** (rnd >> 8) | 0xff00000000000000 on 64 bits: the two operands share no bit. */
  function Refill(rnd: Word): Word {
    rnd / 0x100 + 0xff00_0000_0000_0000
  }

  /** Byte i of a number, the lowest first. */
  function ByteOf(r: nat, i: nat): nat {
    if i == 0 then r % 0x100 else ByteOf(r / 0x100, i - 1)
  }

  function Place(k: nat): (n: nat)
    ensures n > 0
  {
    if k == 0 then 1 else 0x100 * Place(k - 1)
  }

  /** A byte added on top changes none of those below. */
  lemma {:induction false} OnTop(q: nat, k: nat, i: nat)
    requires i < k || (i == k && q < Place(k))
    ensures ByteOf(q + 0xff * Place(k), i) == if i < k then ByteOf(q, i) else 0xff
    decreases k
  {
    if k > 0 {
      var r, n := q + 0xff * Place(k), 0xff * Place(k - 1);
      assert r == q + 0x100 * n;
      assert r / 0x100 == q / 0x100 + n && r % 0x100 == q % 0x100;
      if i > 0 {
        OnTop(q / 0x100, k - 1, i - 1);
      }
    }
  }

  /** One round moves the bytes of the number one place down and puts ff on top. */
  lemma RefillBytes(rnd: Word)
    ensures forall i: nat | i < 7 :: ByteOf(Refill(rnd), i) == ByteOf(rnd, i + 1)
    ensures ByteOf(Refill(rnd), 7) == 0xff
  {
    var q := rnd / 0x100;
    assert Place(7) == 0x100_0000_0000_0000 by { SevenPlaces(); }
    forall i: nat | i < 7 ensures ByteOf(Refill(rnd), i) == ByteOf(rnd, i + 1) {
      OnTop(q, 7, i);
    }
    OnTop(q, 7, 7);
  }

  lemma SevenPlaces()
    ensures Place(7) == 0x100_0000_0000_0000
  {
    assert Place(1) == 0x100 && Place(2) == 0x1_0000 && Place(3) == 0x100_0000 && Place(4) == 0x1_0000_0000;
    assert Place(5) == 0x100_0000_0000 && Place(6) == 0x1_0000_0000_0000;
  }

  function Refills(rnd: Word, n: nat): Word {
    if n == 0 then rnd else Refill(Refills(rnd, n - 1))
  }

  /** What still differs from 2^64 - 1 after n rounds. */
  function Unset(n: nat): nat
    requires n <= 8
  {
    [TWO_64, 0x100_0000_0000_0000, 0x1_0000_0000_0000, 0x100_0000_0000, 0x1_0000_0000, 0x100_0000, 0x1_0000, 0x100, 1][n]
  }

  lemma RefillShrinks(rnd: Word, n: nat)
    requires n < 8 && TWO_64 - 1 - rnd < Unset(n)
    ensures TWO_64 - 1 - Refill(rnd) < Unset(n + 1)
  {
    assert TWO_64 - 1 - Refill(rnd) == (TWO_64 - 1 - rnd) / 0x100;
  }

  /** The do-while loop: it ends within eight rounds, for every random number, with a
      step that is not a multiple of the number of servers. */
  method ChooseStep(rnd: Word) returns (step: nat, rounds: nat)
    ensures 1 <= step < QTY && 1 <= rounds <= 8
    ensures step == Refills(rnd, rounds) % QTY
    ensures forall k | 1 <= k < rounds :: Refills(rnd, k) % QTY == 0
  {
    var r := rnd;
    rounds, step := 0, 0;
    while step == 0
      invariant rounds <= 8 && step < QTY && r == Refills(rnd, rounds)
      invariant step == if rounds == 0 then 0 else r % QTY
      invariant TWO_64 - 1 - r < Unset(rounds)
      invariant forall k | 1 <= k < rounds + (if step == 0 then 1 else 0) :: Refills(rnd, k) % QTY == 0
      decreases 8 - rounds
    {
      RefillShrinks(r, rounds);
      r := Refill(r);
      rounds := rounds + 1;
      step := r % QTY;
    }
  }

  // ----- the walk over the servers

  /** The server asked at attempt k. */
  function Probe(start: nat, step: nat, k: nat): (pos: nat)
    ensures pos < QTY
  {
    (start + k * step) % QTY
  }

  lemma Prime(d: nat)
    requires 2 <= d < QTY
    ensures QTY % d != 0
  {
    var e := QTY / d;
    assert QTY == d * e + QTY % d;
    if d <= 16 {
      SmallFactor(d, e);
    } else if e <= 15 {
      SmallFactor(e, d);
    } else {
      Monotone(d, 17, e, 16);
    }
  }

  lemma SmallFactor(a: nat, b: nat)
    requires 1 <= a <= 16 && b < QTY
    ensures a * b != QTY
  {
    assert a == 1 || a == 2 || a == 3 || a == 4 || a == 5 || a == 6 || a == 7 || a == 8
        || a == 9 || a == 10 || a == 11 || a == 12 || a == 13 || a == 14 || a == 15 || a == 16;
  }

  lemma Monotone(a: nat, b: nat, c: nat, d: nat)
    requires a >= b && c >= d
    ensures a * c >= b * d
  {
    assert a * c == b * c + (a - b) * c;
    assert b * c == b * d + b * (c - d);
  }

  /** No step returns to its start in fewer than QTY attempts: here primality is used. */
  lemma {:induction false} NoShortCycle(step: nat, d: nat)
    requires 1 <= step < QTY && 1 <= d < QTY
    ensures (d * step) % QTY != 0
    decreases d
  {
    if d >= 2 && (d * step) % QTY == 0 {
      var q, r := QTY / d, QTY % d;
      Prime(d);
      assert r * step == QTY * step - q * (d * step) by {
        assert r == QTY - q * d;
        assert (QTY - q * d) * step == QTY * step - (q * d) * step;
        assert (q * d) * step == q * (d * step);
      }
      var m := d * step / QTY;
      assert d * step == QTY * m;
      assert r * step == QTY * (step - q * m) by {
        assert q * (QTY * m) == QTY * (q * m);
      }
      NoShortCycle(step, r);
    }
  }

  lemma SameRemainder(x: nat, y: nat)
    requires x <= y && x % QTY == y % QTY
    ensures (y - x) % QTY == 0
  {
    assert y - x == QTY * (y / QTY - x / QTY);
  }

  lemma ProbesDiffer(start: nat, step: nat, i: nat, j: nat)
    requires 1 <= step < QTY && i < j < i + QTY
    ensures Probe(start, step, i) != Probe(start, step, j)
  {
    NoShortCycle(step, j - i);
    var x, y := start + i * step, start + j * step;
    assert y - x == (j - i) * step;
    if x % QTY == y % QTY {
      SameRemainder(x, y);
    }
  }

  lemma ProbesRepeat(start: nat, step: nat, k: nat)
    ensures Probe(start, step, QTY + k) == Probe(start, step, k)
  {
    assert (QTY + k) * step == QTY * step + k * step;
  }

  function Servers(n: nat): set<nat> {
    set s: nat | s < n && IsServer(s)
  }

  predicate IsServer(s: nat) {
    s < QTY
  }

  lemma {:induction false} ServerCount(n: nat)
    requires n <= QTY
    ensures |Servers(n)| == n
  {
    if n > 0 {
      ServerCount(n - 1);
      assert Servers(n) == Servers(n - 1) + {n - 1};
    }
  }

  function Visited(start: nat, step: nat, n: nat): set<nat> {
    if n == 0 then {} else Visited(start, step, n - 1) + {Probe(start, step, n)}
  }

  lemma {:induction false} VisitedIff(start: nat, step: nat, n: nat, s: nat)
    ensures s in Visited(start, step, n) <==> exists k :: 1 <= k <= n && Probe(start, step, k) == s
  {
    if n > 0 {
      VisitedIff(start, step, n - 1, s);
    }
  }

  lemma {:induction false} VisitedCount(start: nat, step: nat, n: nat)
    requires 1 <= step < QTY && n <= QTY
    ensures |Visited(start, step, n)| == n
    ensures Visited(start, step, n) <= Servers(QTY)
  {
    if n > 0 {
      VisitedCount(start, step, n - 1);
      VisitedIff(start, step, n - 1, Probe(start, step, n));
      forall k | 1 <= k <= n - 1 ensures Probe(start, step, k) != Probe(start, step, n) {
        ProbesDiffer(start, step, k, n);
      }
    }
  }

  lemma SubsetOfSameSize(a: set<nat>, b: set<nat>)
    requires a <= b && |a| == |b|
    ensures a == b
  {
    assert |b - a| == |b| - |a|;
  }

  /** Every server is among the first QTY attempts. */
  lemma EveryServerProbed(start: nat, step: nat, s: nat) returns (k: nat)
    requires 1 <= step < QTY && s < QTY
    ensures 1 <= k <= QTY && Probe(start, step, k) == s
    ensures forall j | 1 <= j <= QTY && Probe(start, step, j) == s :: j == k
  {
    VisitedCount(start, step, QTY);
    ServerCount(QTY);
    SubsetOfSameSize(Visited(start, step, QTY), Servers(QTY));
    assert s in Servers(QTY);
    VisitedIff(start, step, QTY, s);
    k :| 1 <= k <= QTY && Probe(start, step, k) == s;
    forall j | 1 <= j <= QTY && Probe(start, step, j) == s ensures j == k {
      if j < k { ProbesDiffer(start, step, j, k); }
      if k < j { ProbesDiffer(start, step, k, j); }
    }
  }

  // ----- how often each server is asked

  /** The number of attempts among the first n that ask server s. */
  function Visits(start: nat, step: nat, n: nat, s: nat): nat {
    if n == 0 then 0
    else Visits(start, step, n - 1, s) + (if Probe(start, step, n) == s then 1 else 0)
  }

  lemma {:induction false} VisitsOnce(start: nat, step: nat, n: nat, s: nat, k: nat)
    requires n <= QTY && 1 <= k <= QTY && Probe(start, step, k) == s
    requires forall j | 1 <= j <= QTY && Probe(start, step, j) == s :: j == k
    ensures Visits(start, step, n, s) == if k <= n then 1 else 0
  {
    if n > 0 {
      VisitsOnce(start, step, n - 1, s, k);
    }
  }

  lemma {:induction false} VisitsAdd(start: nat, step: nat, n: nat, s: nat)
    ensures Visits(start, step, QTY + n, s) == Visits(start, step, QTY, s) + Visits(start, step, n, s)
  {
    if n > 0 {
      VisitsAdd(start, step, n - 1, s);
      ProbesRepeat(start, step, n);
    }
  }

  /** The first QTY attempts ask every server exactly once; a full run of ATTEMPTS asks
      every server twice, except the one at start % QTY, which is asked once. */
  lemma ProbeOrder(start: nat, step: nat, s: nat)
    requires 1 <= step < QTY && s < QTY
    ensures Visits(start, step, QTY, s) == 1
    ensures Visits(start, step, ATTEMPTS, s) == if s == start % QTY then 1 else 2
  {
    var k := EveryServerProbed(start, step, s);
    VisitsOnce(start, step, QTY, s, k);
    var last := QTY - 1;
    VisitsAdd(start, step, last, s);
    VisitsOnce(start, step, last, s, k);
    ProbesRepeat(start, step, 0);
    assert Probe(start, step, QTY) == start % QTY;
    assert k == QTY <==> s == start % QTY;
  }

  lemma NextProbe(start: nat, step: nat, pos: nat, k: nat)
    requires k >= 1 && pos % QTY == Probe(start, step, k - 1)
    ensures (pos + step) % QTY == Probe(start, step, k)
  {
    assert k * step == (k - 1) * step + step;
  }
}
