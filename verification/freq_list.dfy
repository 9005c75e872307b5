/**
 Frequency lists in the configuration: the text written for a list, and the list read from a text.
 */
module FreqList {

  import opened Text

  // ---- reading ----

  function SkipBlanks(s: string): (r: string)
    ensures |r| <= |s| && (r != [] ==> r[0] != ' ')
    ensures s != [] && s[0] != ' ' ==> r == s
  {
    if s != [] && s[0] == ' ' then SkipBlanks(s[1..]) else s
  }

  /** Index of the first blank; the length if there is none. */
  function Blank(s: string): (k: nat)
    ensures k <= |s| && (k < |s| ==> s[k] == ' ')
    ensures forall i :: 0 <= i < k ==> s[i] != ' '
  {
    if s == [] then 0 else if s[0] == ' ' then 0 else 1 + Blank(s[1..])
  }

  /** The places where an integer is looked for: the start of the text and after every further blank. */
  function Starts(s: string): (r: seq<string>)
    ensures |r| >= 1
    decreases |s|
  {
    var t := SkipBlanks(s);
    if t == [] || Blank(t[1..]) == |t[1..]| then [t] else [t] + Starts(t[1..][Blank(t[1..])..])
  }

  function Values(starts: seq<string>): (r: seq<int>)
    ensures |r| == |starts| && forall i :: 0 <= i < |r| ==> r[i] == Atoi(starts[i])
  {
    seq(|starts|, i requires 0 <= i < |starts| => Atoi(starts[i]))
  }

  /** The longest prefix without zeros. */
  function UpToZero(v: seq<int>): (r: seq<int>)
    ensures r <= v && (forall i :: 0 <= i < |r| ==> r[i] != 0)
    ensures |r| < |v| ==> v[|r|] == 0
  {
    if v == [] || v[0] == 0 then [] else [v[0]] + UpToZero(v[1..])
  }

  function Integers(s: string): seq<int>
  {
    UpToZero(Values(Starts(s)))
  }

  lemma ValuesCons(t: string, rest: seq<string>)
    ensures Values([t] + rest) == [Atoi(t)] + Values(rest) && UpToZero([Atoi(t)] + Values(rest)) ==
            if Atoi(t) == 0 then [] else [Atoi(t)] + UpToZero(Values(rest))
  {
    assert ([Atoi(t)] + Values(rest))[1..] == Values(rest);
  }

  lemma IntegersUnfold(s: string)
    ensures var t := SkipBlanks(s);
            Integers(s) == if Atoi(t) == 0 then []
                           else if t == [] || Blank(t[1..]) == |t[1..]| then [Atoi(t)]
                           else [Atoi(t)] + Integers(t[1..][Blank(t[1..])..])
  {
    var t := SkipBlanks(s);
    if t == [] || Blank(t[1..]) == |t[1..]| {
      ValuesCons(t, []);
      assert [t] + [] == [t];
    } else {
      ValuesCons(t, Starts(t[1..][Blank(t[1..])..]));
    }
  }

  /** A larger array with the used part copied and zeros behind it. */
  method Grow(a: array<int>, len: nat) returns (n: array<int>)
    requires a.Length == len + 1
    ensures fresh(n) && n.Length == 2 * len + 1
    ensures n[..len] == a[..len] && forall i :: len <= i < n.Length ==> n[i] == 0
  {
    n := new int[2 * len + 1](_ => 0);
    forall i | 0 <= i < len {
      n[i] := a[i];
    }
  }

  /** Store a value behind the used part of a zero-filled array, which first doubles if it is full. */
  method Store(a: array<int>, len: nat, used: nat, v: int) returns (n: array<int>, newLen: nat)
    requires a.Length == len + 1 && 0 < len && used <= len && forall i :: used <= i <= len ==> a[i] == 0
    modifies a
    ensures (n == a || fresh(n)) && n.Length == newLen + 1 && used < newLen
    ensures n[..used + 1] == old(a[..used]) + [v] && forall i :: used < i <= newLen ==> n[i] == 0
  {
    n, newLen := a, len;
    if used == len {
      n := Grow(a, len);
      newLen := 2 * len;
    }
    n[used] := v;
  }

  /** The integer at the start of a text, and the text behind it if there is more. */
  method ReadOne(text: string) returns (v: int, more: bool, rest: string)
    ensures more ==> v != 0 && |rest| < |text|
    ensures Integers(text) == if v == 0 then [] else if more then [v] + Integers(rest) else [v]
  {
    IntegersUnfold(text);
    var pos := SkipBlanks(text);
    v, more, rest := Atoi(pos), false, [];
    if v != 0 {
      var next := Blank(pos[1..]);
      if next < |pos[1..]| {
        more, rest := true, pos[1..][next..];
      }
    }
  }

  lemma Regroup(done: seq<int>, v: int, rest: seq<int>)
    ensures done + [] == done && done + ([v] + rest) == done + [v] + rest
  {
  }

  /** Zeros from the used part to the end, and at least one of them. */
  ghost predicate Terminated(a: array<int>, len: nat, used: nat)
    reads a
  {
    a.Length == len + 1 && 0 < len && used <= len && forall i :: used <= i <= len ==> a[i] == 0
  }

  /** Store an integer that was read; a zero does not count as used. */
  method Keep(a: array<int>, len: nat, used: nat, v: int) returns (n: array<int>, newLen: nat, newUsed: nat)
    requires Terminated(a, len, used)
    modifies a
    ensures (n == a || fresh(n)) && Terminated(n, newLen, newUsed)
    ensures n[..newUsed] == if v == 0 then old(a[..used]) else old(a[..used]) + [v]
  {
    ghost var done := a[..used];
    n, newLen := Store(a, len, used, v);
    newUsed := if v == 0 then used else used + 1;
    assert n[..used] == n[..used + 1][..used] == done;
  }

  /**
   The reading loop. Every text is accepted; the integers read are followed by a zero that is inside the array.
   */
  method ParseIntArray(value: string) returns (freqs: array<int>, used: nat)
    ensures fresh(freqs) && used < freqs.Length && freqs[used] == 0
    ensures freqs[..used] == Integers(value)
  {
    var len := 10;
    used := 0;
    freqs := new int[len + 1](_ => 0);
    var pos, more := value, true;
    ghost var done: seq<int> := [];
    while more
      invariant fresh(freqs) && Terminated(freqs, len, used) && done == freqs[..used]
      invariant Integers(value) == if more then done + Integers(pos) else done
      decreases more, |pos|
    {
      var v;
      v, more, pos := ReadOne(pos);
      Regroup(done, v, Integers(pos));
      freqs, len, used := Keep(freqs, len, used, v);
      done := if v == 0 then done else done + [v];
    }
  }

  // ---- writing ----

  /** An int printed as an unsigned number. */
  function Number(f: int): string
  {
    Digits(f % 0x1_0000_0000)
  }

  /** So a number below zero is read back 2^32 higher. */
  lemma SignedNumberReads(f: int)
    requires -0x8000_0000 <= f < 0x8000_0000
    ensures Atoi(Number(f)) == if f < 0 then f + 0x1_0000_0000 else f
  {
    var n := f % 0x1_0000_0000;
    AtoiDecimal(n, []);
    assert Decimal(n) + [] == Number(f);
  }

  function Printed(fs: seq<int>): string
  {
    if fs == [] then [] else if |fs| == 1 then Number(fs[0]) else Number(fs[0]) + " " + Printed(fs[1..])
  }

  lemma {:induction false} PrintedSnoc(fs: seq<int>, f: int)
    ensures Printed(fs + [f]) == Printed(fs) + (if fs == [] then "" else " ") + Number(f)
  {
    if |fs| == 0 {
      assert fs + [f] == [f];
    } else {
      PrintedSnoc(fs[1..], f);
      assert (fs + [f])[1..] == fs[1..] + [f];
      if |fs| == 1 {
        assert Printed(fs[1..] + [f]) == Number(f);
      }
    }
  }

  lemma {:induction false} PrintedPrefix(fs: seq<int>, i: nat)
    requires i <= |fs|
    ensures Printed(fs[..i]) <= Printed(fs)
    decreases |fs| - i
  {
    if i == |fs| {
      assert fs[..i] == fs;
    } else {
      PrintedSnoc(fs[..i], fs[i]);
      assert fs[..i] + [fs[i]] == fs[..i + 1];
      PrintedPrefix(fs, i + 1);
    }
  }

  function Cut(s: string, n: nat): string
  {
    if |s| <= n then s else s[..n]
  }

  /** The printing loop: ten characters per frequency are all the room there is. */
  method WriteFreqs(fs: seq<int>) returns (buf: string)
    ensures buf == Cut(Printed(fs), 10 * |fs|)
  {
    var room := 10 * |fs|;
    buf := "";
    for i := 0 to |fs|
      invariant buf == Printed(fs[..i]) && |buf| <= room
    {
      var piece := (if i == 0 then "" else " ") + Number(fs[i]);
      PrintedSnoc(fs[..i], fs[i]);
      assert fs[..i] + [fs[i]] == fs[..i + 1];
      assert Printed(fs[..i]) + ((if i == 0 then "" else " ") + Number(fs[i])) == Printed(fs[..i + 1]);
      if |buf| + |piece| > room {
        PrintedPrefix(fs, i + 1);
        return (buf + piece)[..room];
      }
      buf := buf + piece;
    }
    assert fs[..|fs|] == fs;
  }

  // ---- writing, then reading ----

  predicate Positive(fs: seq<int>)
  {
    forall i :: 0 <= i < |fs| ==> 0 < fs[i] < 0x8000_0000
  }

  lemma NumberReads(f: int, rest: string)
    requires 0 < f < 0x8000_0000 && (rest == [] || rest[0] == ' ')
    ensures var t := Number(f) + rest;
            SkipBlanks(t) == t && Atoi(t) == f && Blank(t[1..]) == |Number(f)| - 1
            && t[1..][Blank(t[1..])..] == rest
  {
    assert Decimal(f) == Digits(f) == Number(f);
    AtoiDecimal(f, rest);
    DigitsEnd(Digits(f), rest);
  }

  /** The first blank behind a word of digits. */
  lemma DigitsEnd(d: string, rest: string)
    requires d != [] && (forall i :: 0 <= i < |d| ==> IsDigit(d[i])) && (rest == [] || rest[0] == ' ')
    ensures var t := d + rest;
            SkipBlanks(t) == t && Blank(t[1..]) == |d| - 1 && t[1..][|d| - 1..] == rest
  {
    var t, k := d + rest, |d| - 1;
    assert t[0] == d[0] && d[0] != ' ';
    assert forall i :: 0 <= i < k ==> t[1..][i] == d[i + 1];
    assert t[1..][k..] == rest;
    assert rest != [] ==> t[1..][k] == ' ';
  }

  lemma IntegersHead(f: int, rest: string)
    requires 0 < f < 0x8000_0000 && (rest == [] || rest[0] == ' ')
    ensures Integers(Number(f) + rest) == if rest == [] then [f] else [f] + Integers(rest)
  {
    NumberReads(f, rest);
    IntegersUnfold(Number(f) + rest);
  }

  lemma IntegersBlank(s: string)
    ensures Integers(" " + s) == Integers(s)
  {
    assert (" " + s)[1..] == s;
    assert SkipBlanks(" " + s) == SkipBlanks(s);
    IntegersUnfold(" " + s);
    IntegersUnfold(s);
  }

  /** Reading the whole text of a list gives the list. */
  lemma {:induction false} ReadsBack(fs: seq<int>)
    requires Positive(fs)
    ensures Integers(Printed(fs)) == fs
  {
    if fs == [] {
      IntegersUnfold("");
    } else {
      if |fs| == 1 {
        assert Number(fs[0]) + [] == Number(fs[0]);
        IntegersHead(fs[0], "");
        assert [fs[0]] == fs;
      } else {
        var rest := Printed(fs[1..]);
        assert Printed(fs) == Number(fs[0]) + (" " + rest);
        IntegersHead(fs[0], " " + rest);
        IntegersBlank(rest);
        ReadsBack(fs[1..]);
      }
    }
  }

  lemma DigitsCut(f: int, k: nat)
    requires 0 < f < 0x8000_0000 && k < |Number(f)|
    ensures Integers(Number(f)[..k]) == [] || (|Integers(Number(f)[..k])| >= 1 && Integers(Number(f)[..k])[0] < f)
  {
    var t := Digits(f)[..k];
    IntegersUnfold(t);
    FewerDigits(f, k);
    if t != [] {
      assert t[0] == Digits(f)[0] && IsDigit(t[0]);
      assert Atoi(t) == TakeNumber(t, 0);
    }
  }

  /** Reading a text that has been cut short never gives the list. */
  lemma {:induction false} CutLoses(fs: seq<int>, k: nat)
    requires Positive(fs) && k < |Printed(fs)|
    ensures Integers(Printed(fs)[..k]) != fs
  {
    var d := |Number(fs[0])|;
    if k < d {
      assert Printed(fs)[..k] == Number(fs[0])[..k];
      DigitsCut(fs[0], k);
    } else if k == d {
      CutAtNumber(fs);
    } else {
      var cut := Printed(fs[1..])[..k - d - 1];
      CutBehind(fs, k - d - 1);
      CutLoses(fs[1..], k - d - 1);
      CutStep(Printed(fs)[..k], fs, cut);
    }
  }

  lemma CutStep(text: string, fs: seq<int>, cut: string)
    requires Positive(fs) && fs != [] && text == Number(fs[0]) + (" " + cut) && Integers(cut) != fs[1..]
    ensures Integers(text) != fs
  {
    CutReads(fs[0], cut);
    assert ([fs[0]] + Integers(cut))[1..] == Integers(cut);
  }

  lemma PrintedTwo(fs: seq<int>)
    requires |fs| > 1
    ensures Printed(fs) == Number(fs[0]) + (" " + Printed(fs[1..]))
  {
  }

  /** A text cut right behind its first number is read as that number alone. */
  lemma CutAtNumber(fs: seq<int>)
    requires Positive(fs) && |fs| > 1
    ensures |Number(fs[0])| <= |Printed(fs)| && Integers(Printed(fs)[..|Number(fs[0])|]) == [fs[0]]
  {
    var d := Number(fs[0]);
    PrintedTwo(fs);
    assert Printed(fs)[..|d|] == d + [];
    IntegersHead(fs[0], []);
  }

  /** A text cut further on is its first number and what is left of the others. */
  lemma CutBehind(fs: seq<int>, n: nat)
    requires |fs| > 1 && n <= |Printed(fs[1..])|
    ensures |Number(fs[0])| + 1 + n <= |Printed(fs)|
    ensures Printed(fs)[..|Number(fs[0])| + 1 + n] == Number(fs[0]) + (" " + Printed(fs[1..])[..n])
  {
    PrintedTwo(fs);
    CutText(Number(fs[0]), Printed(fs[1..]), n);
  }

  lemma CutText(d: string, rest: string, n: nat)
    requires n <= |rest|
    ensures (d + (" " + rest))[..|d| + 1 + n] == d + (" " + rest[..n])
  {
  }

  lemma CutReads(f: int, cut: string)
    requires 0 < f < 0x8000_0000
    ensures Integers(Number(f) + (" " + cut)) == [f] + Integers(cut)
  {
    IntegersHead(f, " " + cut);
    IntegersBlank(cut);
  }

  /** What is written for a list of positive frequencies reads back as the list if and only if it fits. */
  lemma RoundTrip(fs: seq<int>)
    requires Positive(fs)
    ensures Integers(Cut(Printed(fs), 10 * |fs|)) == fs <==> |Printed(fs)| <= 10 * |fs|
  {
    if |Printed(fs)| <= 10 * |fs| {
      ReadsBack(fs);
    } else {
      CutLoses(fs, 10 * |fs|);
    }
  }

  /** Frequencies of up to nine digits always fit. */
  lemma {:induction false} NineDigitsFit(fs: seq<int>)
    requires forall i :: 0 <= i < |fs| ==> 1 <= fs[i] <= 999_999_999
    ensures |Printed(fs)| <= 10 * |fs| && (fs != [] ==> |Printed(fs)| < 10 * |fs|)
  {
    if fs != [] {
      NineDigits(fs[0]);
      NineDigitsFit(fs[1..]);
    }
  }

  lemma NineDigitsRoundTrip(fs: seq<int>)
    requires forall i :: 0 <= i < |fs| ==> 1 <= fs[i] <= 999_999_999
    ensures Integers(Cut(Printed(fs), 10 * |fs|)) == fs
  {
    NineDigitsFit(fs);
    RoundTrip(fs);
  }

  lemma PairLength(f: int)
    ensures |Printed([f, f])| == 2 * |Number(f)| + 1
  {
    assert [f, f][1..] == [f];
    assert Printed([f]) == Number(f);
  }

  lemma TenDigits(f: int)
    requires 1_000_000_000 <= f < 0x8000_0000
    ensures |Number(f)| >= 10
  {
    assert Pow10(4) == 10_000;
    assert Pow10(9) == 1_000_000_000;
    ManyDigits(f, 9);
  }

  /** Two numbers of ten digits and the blank between them do not fit. */
  lemma TenDigitsLost(f: int)
    requires 1_000_000_000 <= f < 0x8000_0000
    ensures var fs := [f, f]; Integers(Cut(Printed(fs), 10 * |fs|)) != fs
  {
    TenDigits(f);
    PairLength(f);
    RoundTrip([f, f]);
  }
}
