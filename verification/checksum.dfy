/**
 The Internet checksum of a buffer (section 3.1 of RFC 791, RFC 1071): 16-bit words summed in a
 32-bit accumulator, the carries folded in at the end, and the complement returned.
 */
module Checksum {
  import opened Bytes

  const WORD: int := 0x1_0000
  const WIDE: int := 0x1_0000_0000

  /** The word at an index, in the byte order of a little-endian host. */
  function WordAt(buf: seq<byte>, i: nat): (w: nat)
    requires 2 * i + 1 < |buf|
    ensures w < WORD
  {
    buf[2 * i] as int + 256 * buf[2 * i + 1] as int
  }

  /** The words of a buffer; an odd last byte is in none. */
  function Words(buf: seq<byte>): seq<nat>
  {
    seq(|buf| / 2, i requires 0 <= i < |buf| / 2 => WordAt(buf, i))
  }

  ghost function Sum(ws: seq<nat>): nat
  {
    if ws == [] then 0 else Sum(ws[..|ws| - 1]) + ws[|ws| - 1]
  }

  /** Carries added back in until none is left. */
  ghost function Fold(s: nat): (r: nat)
    ensures r < WORD
  {
    if s < WORD then s else Fold(s % WORD + s / WORD)
  }

  // ---- folding ----

  /** `r` stands for `s`: the same residue, in 0..65535, and zero only for zero. */
  ghost predicate Stands(s: nat, r: nat, q: int)
  {
    s == 65535 * q + r && r <= 65535 && (r == 0 <==> s == 0)
  }

  /** What a fold is, without the loop: the one number that stands for the sum. */
  lemma {:induction false} FoldStands(s: nat) returns (q: int)
    ensures Stands(s, Fold(s), q)
  {
    if s < WORD {
      q := 0;
    } else {
      q := FoldStands(s % WORD + s / WORD);
      q := q + s / WORD;
    }
  }

  lemma StandsOnce(s: nat, r: nat, q: int)
    requires Stands(s, r, q)
    ensures Fold(s) == r
  {
    var f := FoldStands(s);
    assert q == f || q == f + 1 || q == f - 1;
  }

  /** Addition with an end-around carry. */
  ghost function OnesAdd(a: nat, b: nat): nat
  {
    if a + b < WORD then a + b else a + b - 65535
  }

  ghost function OnesSum(ws: seq<nat>): nat
  {
    if ws == [] then 0 else OnesAdd(OnesSum(ws[..|ws| - 1]), ws[|ws| - 1])
  }

  /** Folding the carries at the end is adding with an end-around carry at every step. */
  lemma {:induction false} DeferredCarries(ws: seq<nat>)
    requires forall i :: 0 <= i < |ws| ==> ws[i] < WORD
    ensures Fold(Sum(ws)) == OnesSum(ws)
  {
    if ws != [] {
      var before, w := ws[..|ws| - 1], ws[|ws| - 1];
      DeferredCarries(before);
      var q := FoldStands(Sum(before));
      StandsOnce(Sum(ws), OnesSum(ws), if OnesSum(before) + w < WORD then q else q + 1);
    }
  }

  // ---- the computation ----

  lemma AddWrapped(s: nat, w: nat)
    ensures (s % WIDE + w) % WIDE == (s + w) % WIDE
  {
  }

  method SumWords(buf: seq<byte>) returns (sum: nat)
    ensures sum == Sum(Words(buf)) % WIDE
  {
    ghost var ws := Words(buf);
    sum := 0;
    var i := 0;
    while i < |buf| / 2
      invariant i <= |buf| / 2 && sum == Sum(ws[..i]) % WIDE
    {
      assert ws[..i + 1][..i] == ws[..i];
      AddWrapped(Sum(ws[..i]), ws[i]);
      sum := (sum + WordAt(buf, i)) % WIDE;
      i := i + 1;
    }
    assert ws[..i] == ws;
  }

  method FoldCarries(s: nat) returns (sum: nat)
    ensures sum == Fold(s)
  {
    sum := s;
    while sum / WORD != 0
      invariant Fold(sum) == Fold(s)
      decreases sum
    {
      sum := sum % WORD + sum / WORD;
    }
  }

  method HeaderChecksum(buf: seq<byte>) returns (c: nat)
    ensures c == 65535 - Fold(Sum(Words(buf)) % WIDE)
  {
    var sum := SumWords(buf);
    sum := FoldCarries(sum);
    c := 65535 - sum;
  }

  /** The checksum as it is computed. */
  ghost function Computed(ws: seq<nat>): nat
  {
    65535 - Fold(Sum(ws) % WIDE)
  }

  lemma Multiple(d: nat, m: int)
    requires d == 65535 * m
    ensures d % 65535 == 0
  {
  }

  /** The checksum is the complement of the one's complement sum exactly when the accumulator did
      not lose a sum that matters. */
  lemma ComputedIsInternetChecksum(ws: seq<nat>)
    requires forall i :: 0 <= i < |ws| ==> ws[i] < WORD
    ensures Computed(ws) == 65535 - OnesSum(ws) <==>
            Sum(ws) / WIDE % 65535 == 0 && (Sum(ws) % WIDE == 0 ==> Sum(ws) == 0)
  {
    var s := Sum(ws);
    var w, d := s % WIDE, s / WIDE;
    DeferredCarries(ws);
    var q := FoldStands(s);
    var h := FoldStands(w);
    assert s == w + 65535 * (65537 * d) + d;
    if Fold(s) == Fold(w) {
      Multiple(d, q - h - 65537 * d);
    } else if d % 65535 == 0 && (w == 0 ==> s == 0) {
      StandsOnce(s, Fold(w), h + 65537 * d + d / 65535);
    }
  }

  lemma {:induction false} SumBound(ws: seq<nat>)
    requires forall i :: 0 <= i < |ws| ==> ws[i] < WORD
    ensures Sum(ws) <= 65535 * |ws|
  {
    if ws != [] {
      SumBound(ws[..|ws| - 1]);
    }
  }

  /** Up to 65537 words the accumulator cannot overflow. */
  lemma ShortBuffers(ws: seq<nat>)
    requires |ws| <= 65537 && forall i :: 0 <= i < |ws| ==> ws[i] < WORD
    ensures Computed(ws) == 65535 - OnesSum(ws)
  {
    SumBound(ws);
    ComputedIsInternetChecksum(ws);
  }

  lemma {:induction false} SumOfOnes(ws: seq<nat>)
    requires forall i :: 0 <= i < |ws| ==> ws[i] == 65535
    ensures Sum(ws) == 65535 * |ws|
  {
    if ws != [] {
      SumOfOnes(ws[..|ws| - 1]);
    }
  }

  /** One word of all ones more, and a sum is lost. */
  lemma OverflowLoses(ws: seq<nat>)
    requires |ws| == 65538 && forall i :: 0 <= i < |ws| ==> ws[i] == 65535
    ensures Computed(ws) != 65535 - OnesSum(ws)
  {
    SumOfOnes(ws);
    ComputedIsInternetChecksum(ws);
  }

  // ---- a stored checksum ----

  lemma {:induction false} SumUpdate(ws: seq<nat>, k: nat, c: nat)
    requires k < |ws|
    ensures Sum(ws[k := c]) == Sum(ws) - ws[k] + c
  {
    var n := |ws| - 1;
    if k == n {
      assert ws[k := c][..n] == ws[..n];
    } else {
      SumUpdate(ws[..n], k, c);
      assert ws[k := c][..n] == ws[..n][k := c];
    }
  }

  /** A checksum never carries the accumulator past its end. */
  lemma NoLateCarry(w: nat)
    requires w < WIDE
    ensures w + 65535 - Fold(w) < WIDE && w + 65535 - Fold(w) != 0 && (w + 65535 - Fold(w)) % 65535 == 0
  {
    var q := FoldStands(w);
    assert w + 65535 - Fold(w) == 65535 * (q + 1);
  }

  /** Storing the checksum in a zeroed word makes the checksum of the whole buffer zero, for
      buffers of any length. */
  lemma StoredChecksumVerifies(ws: seq<nat>, k: nat)
    requires k < |ws| && ws[k] == 0
    ensures Computed(ws[k := Computed(ws)]) == 0
  {
    SumUpdate(ws, k, Computed(ws));
    NoLateCarry(Sum(ws) % WIDE);
    var t := Sum(ws) % WIDE + Computed(ws);
    AddWrapped(Sum(ws), Computed(ws));
    StandsOnce(t, 65535, t / 65535 - 1);
  }

  /** The buffer with a word stored at an index. */
  function Stored(buf: seq<byte>, k: nat, c: nat): (r: seq<byte>)
    requires 2 * k + 1 < |buf| && c < WORD
    ensures |r| == |buf| && Words(r) == Words(buf)[k := c]
  {
    var r := buf[2 * k := c % 256][2 * k + 1 := c / 256];
    assert forall i :: 0 <= i < |buf| / 2 ==> WordAt(r, i) == if i == k then c else WordAt(buf, i);
    r
  }

  /** A header with its checksum filled in has the checksum zero. */
  method FillIn(buf: seq<byte>, k: nat) returns (r: seq<byte>)
    requires 2 * k + 1 < |buf| && WordAt(buf, k) == 0
    ensures |r| == |buf| && (forall i :: 0 <= i < |buf| && i / 2 != k ==> r[i] == buf[i])
    ensures Computed(Words(r)) == 0
  {
    var c := HeaderChecksum(buf);
    r := Stored(buf, k, c);
    StoredChecksumVerifies(Words(buf), k);
  }
}
