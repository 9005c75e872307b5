/**
 Sequence numbers of the authentication centre: the not time-based profile of 3GPP TS 33.102, annex
 C.3.2. A 48-bit SQN is SEQ followed by IND, and IND has a configured number of bits.
 */
module Sqn {

  import opened Bytes

  const LIMIT := 0x1_0000_0000_0000

  function Pow2(n: nat): (p: nat)
    ensures p > 0
  {
    if n == 0 then 1 else 2 * Pow2(n - 1)
  }

  lemma {:induction false} Pow2Sum(a: nat, b: nat)
    ensures Pow2(a + b) == Pow2(a) * Pow2(b)
    decreases b
  {
    if b > 0 {
      Pow2Sum(a, b - 1);
      assert Pow2(a + b) == 2 * Pow2(a + b - 1);
    }
  }

  function Quotient(v: nat, p: nat): (q: nat)
    requires p > 0
    ensures v == q * p + v % p
  {
    NotNegative(v, p);
    v / p
  }

  lemma NotNegative(v: nat, p: nat)
    requires p > 0
    ensures v / p >= 0 && v == (v / p) * p + v % p
  {
    MulGap(v / p, p);
  }

  /** SEQ has the bits that IND leaves of the 48. */
  function SeqLimit(indLen: nat): nat
    requires indLen <= 30
  {
    Pow2(48 - indLen)
  }

  lemma Split48(indLen: nat)
    requires indLen <= 30
    ensures SeqLimit(indLen) * Pow2(indLen) == LIMIT
  {
    Pow2Sum(48 - indLen, indLen);
    AllBits();
  }

  lemma AllBits()
    ensures Pow2(48) == LIMIT
  {
    Pow2Sum(24, 24);
    Pow2Sum(12, 12);
    Pow2Sum(6, 6);
    assert Pow2(6) == 64;
  }

  function Seq(val: nat, indLen: nat): nat
  {
    Quotient(val, Pow2(indLen))
  }

  function Ind(val: nat, indLen: nat): (i: nat)
    ensures i < Pow2(indLen)
  {
    val % Pow2(indLen)
  }

  function Join(s: nat, i: nat, indLen: nat): nat
  {
    s * Pow2(indLen) + i
  }

  /** A multiple of p that is not zero is at least p away from it. */
  lemma {:induction false} MulGap(d: int, p: int)
    requires p >= 0
    ensures d >= 1 ==> d * p >= p
    ensures d <= -1 ==> d * p <= -p
    decreases if d < 0 then -d else d
  {
    if d > 1 {
      MulGap(d - 1, p);
      assert d * p == (d - 1) * p + p;
    } else if d < -1 {
      MulGap(d + 1, p);
      assert d * p == (d + 1) * p - p;
    }
  }

  lemma Unique(q1: int, r1: int, q2: int, r2: int, p: int)
    requires 0 <= r1 < p && 0 <= r2 < p && q1 * p + r1 == q2 * p + r2
    ensures q1 == q2 && r1 == r2
  {
    assert (q1 - q2) * p == r2 - r1;
    MulGap(q1 - q2, p);
  }

  /** Row x of length p ends before row m begins. */
  lemma RowsBelow(x: int, m: int, p: int, i: int)
    requires x < m && 0 <= i < p
    ensures x * p + i < m * p
  {
    MulGap(m - x, p);
    assert (m - x) * p == m * p - x * p;
  }

  lemma DivMod(s: nat, i: nat, p: nat)
    requires i < p
    ensures s * p + i >= 0 && Quotient(s * p + i, p) == s && (s * p + i) % p == i
  {
    var v := s * p + i;
    Unique(Quotient(v, p), v % p, s, i, p);
  }

  lemma JoinSplit(s: nat, i: nat, indLen: nat)
    requires i < Pow2(indLen)
    ensures Seq(Join(s, i, indLen), indLen) == s && Ind(Join(s, i, indLen), indLen) == i
  {
    DivMod(s, i, Pow2(indLen));
  }

  lemma SplitJoin(val: nat, indLen: nat)
    ensures val == Join(Seq(val, indLen), Ind(val, indLen), indLen)
  {
  }

  /** What is stored after a step: both parts go up by one, and 48 bits are kept. */
  function Next(val: nat, indLen: nat): (r: nat)
    requires indLen <= 30
    ensures r < LIMIT
  {
    Join(Seq(val, indLen) + 1, (val + 1) % Pow2(indLen), indLen) % LIMIT
  }

  lemma SeqInRange(val: nat, indLen: nat)
    requires indLen <= 30 && val < LIMIT
    ensures Seq(val, indLen) < SeqLimit(indLen)
  {
    Split48(indLen);
    SplitJoin(val, indLen);
    RowBelow(Seq(val, indLen), SeqLimit(indLen), Pow2(indLen), val);
  }

  /** A number before row m is in an earlier row. */
  lemma RowBelow(s: int, m: int, p: int, val: int)
    requires p > 0 && s * p <= val < m * p
    ensures s < m
  {
    MulGap(s - m, p);
    assert (s - m) * p == s * p - m * p;
  }

  /** The remainder of the next number, from the remainder of this one. */
  lemma NextRemainder(val: nat, s: nat, i: nat, p: nat)
    requires i < p && val == s * p + i
    ensures (val + 1) % p == if i + 1 < p then i + 1 else 0
  {
    if i + 1 < p {
      DivMod(s, i + 1, p);
    } else {
      assert val + 1 == (s + 1) * p;
      DivMod(s + 1, 0, p);
    }
  }

  lemma IndNext(val: nat, indLen: nat)
    ensures (val + 1) % Pow2(indLen) == (Ind(val, indLen) + 1) % Pow2(indLen)
  {
    SplitJoin(val, indLen);
    NextRemainder(val, Seq(val, indLen), Ind(val, indLen), Pow2(indLen));
    NextRemainder(Ind(val, indLen), 0, Ind(val, indLen), Pow2(indLen));
  }

  /** One step takes SEQ and IND up by one, each within its own bits. */
  lemma NextSplit(val: nat, indLen: nat)
    requires indLen <= 30 && val < LIMIT
    ensures Seq(Next(val, indLen), indLen) == (Seq(val, indLen) + 1) % SeqLimit(indLen)
    ensures Ind(Next(val, indLen), indLen) == (Ind(val, indLen) + 1) % Pow2(indLen)
  {
    var p: int, m: int, s: int := Pow2(indLen), SeqLimit(indLen), Seq(val, indLen);
    var i := (val + 1) % p;
    Split48(indLen);
    SeqInRange(val, indLen);
    IndNext(val, indLen);
    if s + 1 < m {
      RowsBelow(s + 1, m, p, i);
      DivMod(0, Join(s + 1, i, indLen), LIMIT);
      JoinSplit(s + 1, i, indLen);
      DivMod(0, s + 1, m);
    } else {
      assert Join(s + 1, i, indLen) == LIMIT + i;
      RowsBelow(0, m, p, i);
      DivMod(1, i, LIMIT);
      JoinSplit(0, i, indLen);
      DivMod(1, 0, m);
    }
  }

  /** The largest number is followed by zero. */
  lemma LastStartsOver(indLen: nat)
    requires indLen <= 30
    ensures Next(LIMIT - 1, indLen) == 0
  {
    var m: int, p: int := SeqLimit(indLen), Pow2(indLen);
    Split48(indLen);
    assert (m - 1) * p + (p - 1) == LIMIT - 1;
    DivMod(m - 1, p - 1, p);
    DivMod(m, 0, p);
  }

  // ---- runs ----

  /** The value after so many steps. */
  function Steps(val: nat, indLen: nat, n: nat): (r: nat)
    requires indLen <= 30 && val < LIMIT
    ensures r < LIMIT
  {
    if n == 0 then val else Next(Steps(val, indLen, n - 1), indLen)
  }

  lemma ModStep(a: nat, n: nat, m: nat)
    requires m > 0
    ensures ((a + n) % m + 1) % m == (a + n + 1) % m
  {
    var q, r := (a + n) / m, (a + n) % m;
    assert a + n == q * m + r;
    if r + 1 < m {
      DivMod(q, r + 1, m);
      DivMod(0, r + 1, m);
    } else {
      assert a + n + 1 == (q + 1) * m + 0;
      DivMod(q + 1, 0, m);
      DivMod(1, 0, m);
    }
  }

  /** After n steps SEQ and IND have each gone up by n within their own bits. */
  lemma {:induction false} StepsSplit(val: nat, indLen: nat, n: nat)
    requires indLen <= 30 && val < LIMIT
    ensures Seq(Steps(val, indLen, n), indLen) == (Seq(val, indLen) + n) % SeqLimit(indLen)
    ensures Ind(Steps(val, indLen, n), indLen) == (Ind(val, indLen) + n) % Pow2(indLen)
  {
    if n == 0 {
      SeqInRange(val, indLen);
      DivMod(0, Seq(val, indLen), SeqLimit(indLen));
      DivMod(0, Ind(val, indLen), Pow2(indLen));
    } else {
      StepsSplit(val, indLen, n - 1);
      NextSplit(Steps(val, indLen, n - 1), indLen);
      ModStep(Seq(val, indLen), n - 1, SeqLimit(indLen));
      ModStep(Ind(val, indLen), n - 1, Pow2(indLen));
    }
  }

  /** A larger SEQ makes a larger SQN, whatever the IND. */
  lemma SeqOrders(a: nat, b: nat, indLen: nat)
    requires Seq(a, indLen) < Seq(b, indLen)
    ensures a < b
  {
    SplitJoin(a, indLen);
    SplitJoin(b, indLen);
    var p: int, x: int, y: int := Pow2(indLen), Seq(a, indLen), Seq(b, indLen);
    RowsBelow(x, y, p, Ind(a, indLen));
  }

  /** A step makes the SQN larger if and only if SEQ has not reached its last value. */
  lemma NextIncreases(val: nat, indLen: nat)
    requires indLen <= 30 && val < LIMIT
    ensures Next(val, indLen) > val <==> Seq(val, indLen) + 1 < SeqLimit(indLen)
  {
    NextSplit(val, indLen);
    SeqInRange(val, indLen);
    var s, m := Seq(val, indLen), SeqLimit(indLen);
    if s + 1 < m {
      DivMod(0, s + 1, m);
      SeqOrders(val, Next(val, indLen), indLen);
    } else {
      DivMod(1, 0, m);
      assert m > 1 by { Pow2Sum(48 - indLen - 1, 1); }
      SeqOrders(Next(val, indLen), val, indLen);
    }
  }

  /** Until SEQ runs out, the vectors of a run have strictly increasing SQNs. */
  lemma RunIncreases(val: nat, indLen: nat, i: nat, j: nat)
    requires indLen <= 30 && val < LIMIT && i < j && Seq(val, indLen) + j < SeqLimit(indLen)
    ensures Steps(val, indLen, i) < Steps(val, indLen, j)
  {
    var s, m := Seq(val, indLen), SeqLimit(indLen);
    StepsSplit(val, indLen, i);
    StepsSplit(val, indLen, j);
    DivMod(0, s + i, m);
    DivMod(0, s + j, m);
    SeqOrders(Steps(val, indLen, i), Steps(val, indLen, j), indLen);
  }

  /** Two vectors of a run share an IND if and only if a multiple of the number of INDs lies between them. */
  lemma RunInds(val: nat, indLen: nat, i: nat, j: nat)
    requires indLen <= 30 && val < LIMIT && i <= j
    ensures Ind(Steps(val, indLen, i), indLen) == Ind(Steps(val, indLen, j), indLen) <==> (j - i) % Pow2(indLen) == 0
  {
    var a, p := Ind(val, indLen), Pow2(indLen);
    StepsSplit(val, indLen, i);
    StepsSplit(val, indLen, j);
    SameRemainder(a + i, a + j, p);
  }

  lemma SameRemainder(x: int, y: int, p: int)
    requires p > 0 && 0 <= x <= y
    ensures x % p == y % p <==> (y - x) % p == 0
  {
    var qx, rx, qy, ry, q, r := x / p, x % p, y / p, y % p, (y - x) / p, (y - x) % p;
    assert x == qx * p + rx && y == qy * p + ry && y - x == q * p + r;
    assert (qx + q) * p == qx * p + q * p;
    if rx + r < p {
      Unique(qy, ry, qx + q, rx + r, p);
    } else {
      assert (qx + q + 1) * p == (qx + q) * p + p;
      Unique(qy, ry, qx + q + 1, rx + r - p, p);
    }
  }

  /** Any run of as many vectors as there are INDs uses them all different. */
  lemma ConsecutiveInds(val: nat, indLen: nat, i: nat, j: nat)
    requires indLen <= 30 && val < LIMIT && i < j < i + Pow2(indLen)
    ensures Ind(Steps(val, indLen, i), indLen) != Ind(Steps(val, indLen, j), indLen)
  {
    RunInds(val, indLen, i, j);
    DivMod(0, j - i, Pow2(indLen));
  }

  // ---- the stored octets ----

  function Be32(b: seq<byte>): nat
    requires |b| == 4
  {
    (b[0] as int) * 0x100_0000 + (b[1] as int) * 0x1_0000 + (b[2] as int) * 0x100 + b[3] as int
  }

  function Be16(b: seq<byte>): nat
    requires |b| == 2
  {
    (b[0] as int) * 0x100 + b[1] as int
  }

  /** The number in six octets, the highest first. */
  function Value(b: seq<byte>): (v: nat)
    requires |b| == 6
    ensures v == ((((b[0] * 256 + b[1]) * 256 + b[2]) * 256 + b[3]) * 256 + b[4]) * 256 + b[5] < LIMIT
  {
    Be32(b[..4]) * 0x1_0000 + Be16(b[4..])
  }

  lemma Octets(w: nat)
    requires w < 0x1_0000_0000
    ensures w == w / 0x100_0000 * 0x100_0000 + w / 0x1_0000 % 0x100 * 0x1_0000 + w / 0x100 % 0x100 * 0x100 + w % 0x100
    ensures w / 0x100_0000 < 256
  {
    assert w / 0x1_0000 == w / 0x100 / 0x100;
    assert w / 0x100_0000 == w / 0x1_0000 / 0x100;
  }

  lemma Low48(val: nat)
    ensures val / 0x1_0000 % 0x1_0000_0000 * 0x1_0000 + val % 0x1_0000 == val % LIMIT
  {
  }

  /** Storing a 32-bit and a 16-bit word keeps the low 48 bits of a number. */
  method Put48(b: array<byte>, val: nat)
    requires b.Length == 6
    modifies b
    ensures Value(b[..]) == val % LIMIT
  {
    var hi, lo := val / 0x1_0000 % 0x1_0000_0000, val % 0x1_0000;
    Low48(val);
    Octets(hi);
    b[0], b[1], b[2], b[3] := hi / 0x100_0000, hi / 0x1_0000 % 0x100, hi / 0x100 % 0x100, hi % 0x100;
    b[4], b[5] := lo / 0x100, lo % 0x100;
    assert b[..][..4] == [b[0], b[1], b[2], b[3]] && b[..][4..] == [b[4], b[5]];
  }

  // ---- the bits ----

  function BitAnd(a: nat, b: nat): nat
    decreases a
  {
    if a == 0 then 0 else 2 * BitAnd(a / 2, b / 2) + if a % 2 == 1 && b % 2 == 1 then 1 else 0
  }

  function BitOr(a: nat, b: nat): nat
    decreases a + b
  {
    if a == 0 && b == 0 then 0 else 2 * BitOr(a / 2, b / 2) + if a % 2 == 1 || b % 2 == 1 then 1 else 0
  }

  lemma MaskStep(v: nat, q: nat)
    requires q > 0
    ensures BitAnd(v, 2 * q - 1) == 2 * BitAnd(v / 2, q - 1) + v % 2
  {
    assert (2 * q - 1) / 2 == q - 1 && (2 * q - 1) % 2 == 1;
  }

  /** A mask of the low bits takes the remainder. */
  lemma {:induction false} MaskIsRemainder(v: nat, n: nat)
    ensures BitAnd(v, Pow2(n) - 1) == v % Pow2(n)
    decreases n
  {
    if n == 0 {
      AndZero(v);
      assert v % 1 == 0;
    } else {
      MaskIsRemainder(v / 2, n - 1);
      MaskStep(v, Pow2(n - 1));
      HalfRemainder(v, Pow2(n - 1));
    }
  }

  lemma {:induction false} AndZero(v: nat)
    ensures BitAnd(v, 0) == 0
  {
    if v > 0 {
      AndZero(v / 2);
    }
  }

  lemma HalfRemainder(v: nat, q: nat)
    requires q > 0
    ensures v % (2 * q) == 2 * (v / 2 % q) + v % 2
  {
    var h := v / 2;
    var s, i := Quotient(h, q), h % q;
    assert v == s * (2 * q) + (2 * i + v % 2) by {
      assert s * (2 * q) == 2 * (s * q);
    }
    DivMod(s, 2 * i + v % 2, 2 * q);
  }

  lemma {:induction false} OrZero(v: nat)
    ensures BitOr(v, 0) == v
  {
    if v > 0 {
      OrZero(v / 2);
    }
  }

  /** Bits that do not overlap are joined by an or. */
  lemma {:induction false} OrJoins(s: nat, i: nat, n: nat)
    requires i < Pow2(n)
    ensures BitOr(s * Pow2(n), i) == s * Pow2(n) + i
    decreases n
  {
    var a := s * Pow2(n);
    if n == 0 {
      OrZero(a);
    } else {
      var q := Pow2(n - 1);
      assert a == 2 * (s * q);
      OrJoins(s, i / 2, n - 1);
      assert a / 2 == s * q && a % 2 == 0;
    }
  }

  function ShiftRight(v: nat, n: nat): nat
  {
    if n == 0 then v else ShiftRight(v / 2, n - 1)
  }

  function ShiftLeft(v: nat, n: nat): (r: nat)
    ensures v > 0 ==> r > 0
    decreases n
  {
    if n == 0 then v else ShiftLeft(2 * v, n - 1)
  }

  lemma {:induction false} ShiftLeftIs(v: nat, n: nat)
    ensures ShiftLeft(v, n) == v * Pow2(n)
    decreases n
  {
    if n > 0 {
      ShiftLeftIs(2 * v, n - 1);
      assert 2 * v * Pow2(n - 1) == v * (2 * Pow2(n - 1));
    }
  }

  lemma {:induction false} ShiftRightIs(v: nat, n: nat)
    ensures ShiftRight(v, n) == Seq(v, n)
    decreases n
  {
    if n == 0 {
      assert v == v * 1 + 0;
      DivMod(v, 0, 1);
    } else {
      var q := Pow2(n - 1);
      ShiftRightIs(v / 2, n - 1);
      var s, i := Quotient(v / 2, q), v / 2 % q;
      assert v == s * (2 * q) + (2 * i + v % 2) by {
        assert s * (2 * q) == 2 * (s * q);
      }
      DivMod(s, 2 * i + v % 2, 2 * q);
    }
  }

  /** The source's shifts, mask and or compute the next number before it is cut to 48 bits. */
  lemma NextByBits(val: nat, indLen: nat)
    requires indLen <= 30
    ensures var s := ShiftRight(val, indLen) + 1;
            var i := BitAnd(val + 1, ShiftLeft(1, indLen) - 1);
            BitOr(ShiftLeft(s, indLen), i) % LIMIT == Next(val, indLen)
  {
    var s, i := Seq(val, indLen) + 1, (val + 1) % Pow2(indLen);
    assert ShiftRight(val, indLen) + 1 == s by {
      ShiftRightIs(val, indLen);
    }
    assert BitAnd(val + 1, ShiftLeft(1, indLen) - 1) == i by {
      ShiftLeftIs(1, indLen);
      MaskIsRemainder(val + 1, indLen);
    }
    assert BitOr(ShiftLeft(s, indLen), i) == Join(s, i, indLen) by {
      ShiftLeftIs(s, indLen);
      OrJoins(s, i, indLen);
    }
  }

  method IncSqn(sqn: array<byte>, indLen: nat)
    requires sqn.Length == 6 && indLen <= 30
    modifies sqn
    ensures Value(sqn[..]) == Next(old(Value(sqn[..])), indLen)
  {
    var val := Value(sqn[..]);
    var s := ShiftRight(val, indLen) + 1;
    var i := BitAnd(val + 1, ShiftLeft(1, indLen) - 1);
    NextByBits(val, indLen);
    Put48(sqn, BitOr(ShiftLeft(s, indLen), i));
  }
}
