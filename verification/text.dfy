/**
 Numbers and MAC addresses as text, with the C library's ways of printing and reading them.
 */
module Text {

  import opened Wrappers
  import opened Bytes

  type Mac = m: seq<byte> | |m| == 6 witness [0, 0, 0, 0, 0, 0]

  // ---- decimal numbers ----

  predicate IsDigit(c: char)
  {
    '0' <= c <= '9'
  }

  function DigitChar(d: nat): (c: char)
    requires d < 10
    ensures IsDigit(c) && DigitValue(c) == d
  {
    '0' + d as char
  }

  function DigitValue(c: char): (d: nat)
    requires IsDigit(c)
    ensures d < 10
  {
    (c - '0') as int
  }

  /** Decimal digits without leading zeros. */
  function Digits(n: nat): (s: string)
    ensures |s| >= 1 && forall i :: 0 <= i < |s| ==> IsDigit(s[i])
  {
    if n < 10 then [DigitChar(n)] else Digits(n / 10) + [DigitChar(n % 10)]
  }

  function Decimal(i: int): (s: string)
    ensures |s| >= 1
  {
    if i < 0 then "-" + Digits(-i) else Digits(i)
  }

  predicate IsSpace(c: char)
  {
    c == ' ' || '\t' <= c <= '\r'
  }

  function SkipSpace(s: string): (r: string)
    ensures |r| <= |s|
  {
    if s != [] && IsSpace(s[0]) then SkipSpace(s[1..]) else s
  }

  /** The number that the leading digits continue. */
  function TakeNumber(s: string, acc: nat): nat
  {
    if s == [] || !IsDigit(s[0]) then acc else TakeNumber(s[1..], 10 * acc + DigitValue(s[0]))
  }

  /** The integer at the start of a text: blanks, a sign, digits; zero if there are no digits. */
  function Atoi(s: string): int
  {
    var t := SkipSpace(s);
    if t == [] then 0
    else if t[0] == '-' then 0 - TakeNumber(t[1..], 0) as int
    else if t[0] == '+' then TakeNumber(t[1..], 0)
    else TakeNumber(t, 0)
  }

  predicate Ends(rest: string)
  {
    rest == [] || !IsDigit(rest[0])
  }

  lemma {:induction false} TakeDigits(n: nat, rest: string)
    ensures TakeNumber(Digits(n) + rest, 0) == TakeNumber(rest, n)
    decreases n
  {
    if n < 10 {
      assert (Digits(n) + rest)[1..] == rest;
    } else {
      var d := DigitChar(n % 10);
      TakeDigits(n / 10, [d] + rest);
      assert Digits(n) + rest == Digits(n / 10) + ([d] + rest);
      assert ([d] + rest)[1..] == rest;
    }
  }

  /** Reading a printed number gives the number, whatever other text follows. */
  lemma AtoiDecimal(i: int, rest: string)
    requires Ends(rest)
    ensures Atoi(Decimal(i) + rest) == i
  {
    if i < 0 {
      assert Decimal(i) + rest == "-" + (Digits(-i) + rest);
      SignedReads(Digits(-i) + rest);
      TakeDigits(-i, rest);
    } else {
      UnsignedReads(Digits(i) + rest);
      TakeDigits(i, rest);
    }
  }

  lemma UnsignedReads(s: string)
    requires s != [] && IsDigit(s[0])
    ensures Atoi(s) == TakeNumber(s, 0)
  {
  }

  lemma SignedReads(s: string)
    ensures Atoi("-" + s) == 0 - TakeNumber(s, 0) as int
  {
    var t := "-" + s;
    assert t[0] == '-' && t[1..] == s;
  }

  /** Reading the first digits only gives a smaller number. */
  lemma {:induction false} FewerDigits(n: nat, k: nat)
    requires k < |Digits(n)|
    ensures n > 0 ==> TakeNumber(Digits(n)[..k], 0) < n
    decreases n
  {
    if n >= 10 {
      var d := Digits(n / 10);
      if k < |d| {
        FewerDigits(n / 10, k);
        assert Digits(n)[..k] == d[..k];
      } else {
        assert Digits(n)[..k] == d;
        TakeDigits(n / 10, []);
        assert d + [] == d;
      }
    }
  }

  /** Numbers below a thousand million have at most nine digits. */
  lemma NineDigits(n: nat)
    requires n < 1_000_000_000
    ensures |Digits(n)| <= 9
  {
    DigitsBound(n, 9, 1_000_000_000);
  }

  lemma {:induction false} DigitsBound(n: nat, k: nat, limit: nat)
    requires k >= 1 && limit == Pow10(k) && n < limit
    ensures |Digits(n)| <= k
    decreases k
  {
    if k > 1 && n >= 10 {
      DigitsBound(n / 10, k - 1, Pow10(k - 1));
    }
  }

  lemma {:induction false} ManyDigits(n: nat, k: nat)
    requires n >= Pow10(k)
    ensures |Digits(n)| > k
    decreases k
  {
    if k > 0 {
      ManyDigits(n / 10, k - 1);
    }
  }

  function Pow10(k: nat): (p: nat)
    ensures p > 0
  {
    if k == 0 then 1 else 10 * Pow10(k - 1)
  }

  // ---- MAC addresses ----

  function HexChar(d: nat): (c: char)
    requires d < 16
    ensures HexValue(c) == Some(d)
  {
    if d < 10 then '0' + d as char else 'a' + (d - 10) as char
  }

  function HexValue(c: char): (r: Option<nat>)
    ensures r.Some? ==> r.value < 16
  {
    if '0' <= c <= '9' then Some((c - '0') as int)
    else if 'a' <= c <= 'f' then Some((c - 'a') as int + 10)
    else if 'A' <= c <= 'F' then Some((c - 'A') as int + 10)
    else None
  }

  function HexByte(b: byte): (s: string)
    ensures |s| == 2
  {
    [HexChar(b / 16), HexChar(b % 16)]
  }

  /** The octet that two hexadecimal digits at the start of a text make. */
  function ReadByte(s: string): Option<byte>
  {
    if |s| < 2 then None
    else
      var hi, lo := HexValue(s[0]), HexValue(s[1]);
      if hi.None? || lo.None? then None else Some(hi.value * 16 + lo.value)
  }

  /** Octets separated by colons. */
  function ColonText(m: seq<byte>): (s: string)
    ensures m != [] ==> |s| == 3 * |m| - 1
  {
    if m == [] then [] else if |m| == 1 then HexByte(m[0]) else HexByte(m[0]) + ":" + ColonText(m[1..])
  }

  function MacText(m: Mac): (s: string)
    ensures |s| == 17
  {
    ColonText(m)
  }

  /** So many octets, separated by colons, at the start of a text. */
  function ReadColons(s: string, n: nat): (r: Option<seq<byte>>)
    ensures r.Some? ==> |r.value| == n
    decreases n
  {
    if n == 0 then Some([])
    else
      var b := ReadByte(s);
      if b.None? then None
      else if n == 1 then Some([b.value])
      else if |s| < 3 || s[2] != ':' then None
      else
        var rest := ReadColons(s[3..], n - 1);
        if rest.None? then None else Some([b.value] + rest.value)
  }

  function ReadMac(s: string): Option<Mac>
  {
    ReadColons(s, 6)
  }

  /** Hexadecimal digits are those of both cases, and no other characters. */
  lemma HexValueIs(c: char, d: nat)
    requires d < 16
    ensures HexValue(c) == Some(d) <==> c == "0123456789abcdef"[d] || c == "0123456789ABCDEF"[d]
  {
  }

  /** The i-th of n pairs of hexadecimal digits in a text, with a colon behind it unless it is the last. */
  predicate Pair(s: string, i: nat, n: nat)
  {
    && 3 * i + 1 < |s| && HexValue(s[3 * i]).Some? && HexValue(s[3 * i + 1]).Some?
    && (i + 1 == n || (3 * i + 2 < |s| && s[3 * i + 2] == ':'))
  }

  /** So many pairs at the start of a text. */
  ghost predicate PairsAt(s: string, n: nat)
  {
    forall i :: 0 <= i < n ==> Pair(s, i, n)
  }

  lemma PairsCons(s: string, n: nat)
    requires n >= 2 && |s| >= 3
    ensures PairsAt(s, n) <==> Pair(s, 0, n) && PairsAt(s[3..], n - 1)
  {
    var t, m := s[3..], n - 1;
    if Pair(s, 0, n) && PairsAt(t, m) {
      forall i | 0 <= i < n
        ensures Pair(s, i, n)
      {
        if i > 0 {
          PairShift(s, i - 1, n);
        }
      }
    }
    if PairsAt(s, n) {
      forall i | 0 <= i < m
        ensures Pair(t, i, m)
      {
        PairShift(s, i, n);
      }
    }
  }

  lemma PairShift(s: string, i: nat, n: nat)
    requires n >= 1 && |s| >= 3
    ensures Pair(s[3..], i, n - 1) <==> Pair(s, i + 1, n)
  {
    var t := s[3..];
    assert forall j :: 0 <= j < |t| ==> t[j] == s[j + 3];
    assert 3 * (i + 1) == 3 * i + 3;
  }

  /** A text is read as octets exactly if it starts with them. */
  lemma {:induction false} ReadColonsIs(s: string, n: nat)
    ensures ReadColons(s, n).Some? <==> PairsAt(s, n)
    decreases n
  {
    if n > 0 {
      assert PairsAt(s, n) ==> Pair(s, 0, n);
    }
    if n >= 2 && |s| >= 3 {
      ReadColonsIs(s[3..], n - 1);
      PairsCons(s, n);
    }
  }

  lemma ReadHexByte(b: byte, rest: string)
    ensures ReadByte(HexByte(b) + rest) == Some(b)
  {
    var s := HexByte(b) + rest;
    assert s[0] == HexChar(b / 16) && s[1] == HexChar(b % 16);
  }

  lemma ReadColon(b: byte, tail: string, n: nat)
    requires n >= 2 && ReadColons(tail, n - 1).Some?
    ensures ReadColons(HexByte(b) + ":" + tail, n) == Some([b] + ReadColons(tail, n - 1).value)
  {
    var s := HexByte(b) + ":" + tail;
    assert s == HexByte(b) + (":" + tail);
    ReadHexByte(b, ":" + tail);
    assert s[2] == ':' && s[3..] == tail;
  }

  lemma {:induction false} ReadColonText(m: seq<byte>, rest: string)
    ensures ReadColons(ColonText(m) + rest, |m|) == Some(m)
  {
    if |m| == 1 {
      ReadHexByte(m[0], rest);
      assert m == [m[0]];
    } else if m != [] {
      var head, tail := HexByte(m[0]) + ":", ColonText(m[1..]);
      assert head + tail + rest == head + (tail + rest);
      ReadColonText(m[1..], rest);
      ReadColon(m[0], tail + rest, |m|);
      assert [m[0]] + m[1..] == m;
    }
  }

  /** Reading a printed address gives the address, whatever follows it. */
  lemma ReadMacText(m: Mac, rest: string)
    ensures ReadMac(MacText(m) + rest) == Some(m)
  {
    ReadColonText(m, rest);
  }
}
