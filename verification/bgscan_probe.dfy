/**
 The frequencies a learning background scan asks for: the ones learned, and one more that the
 probe cursor picks from the supported ones.
 */
module BgscanProbe {
  import opened FreqList
  import Rotation

  /** Membership in a zero-terminated array: nothing behind the first zero is seen. */
  predicate InArray(freqs: seq<int>, v: int)
  {
    v in UpToZero(freqs)
  }

  method Contains(freqs: seq<int>, v: int) returns (found: bool)
    ensures found == InArray(freqs, v)
  {
    var i := 0;
    while i < |freqs| && freqs[i] != 0
      invariant i <= |UpToZero(freqs)| && forall j :: 0 <= j < i ==> freqs[j] != v
    {
      if freqs[i] == v {
        assert UpToZero(freqs)[i] == v;
        return true;
      }
      i := i + 1;
    }
    return false;
  }

  // ---- collecting frequencies ----

  /** A list without the values already seen. */
  ghost function Collect(fs: seq<int>): seq<int>
  {
    if fs == [] then []
    else
      var before := Collect(fs[..|fs| - 1]);
      if InArray(before, fs[|fs| - 1]) then before else before + [fs[|fs| - 1]]
  }

  ghost predicate NoRepeats(v: seq<int>)
  {
    forall i, j :: 0 <= i < j < |v| ==> v[i] != v[j]
  }

  lemma {:induction false} UpToZeroAll(v: seq<int>)
    requires 0 !in v
    ensures UpToZero(v) == v
  {
    if v != [] {
      UpToZeroAll(v[1..]);
    }
  }

  /** Without a zero among them, each value is collected exactly once. */
  lemma {:induction false} CollectsOnce(fs: seq<int>)
    requires 0 !in fs
    ensures NoRepeats(Collect(fs)) && forall v :: v in Collect(fs) <==> v in fs
  {
    if fs != [] {
      var init, x := fs[..|fs| - 1], fs[|fs| - 1];
      CollectsOnce(init);
      UpToZeroAll(Collect(init));
      assert fs == init + [x];
    }
  }

  /** The values that are not in a list, repeats included. */
  ghost function NotIn(fs: seq<int>, seen: seq<int>): seq<int>
  {
    if fs == [] then []
    else NotIn(fs[..|fs| - 1], seen) + if fs[|fs| - 1] in seen then [] else [fs[|fs| - 1]]
  }

  lemma {:induction false} UpToZeroStops(v: seq<int>, w: seq<int>)
    requires 0 !in v && w != [] && w[0] == 0
    ensures UpToZero(v + w) == v
  {
    if v == [] {
      assert v + w == w;
    } else {
      UpToZeroStops(v[1..], w);
      assert (v + w)[0] == v[0] && (v + w)[1..] == v[1..] + w;
    }
  }

  lemma {:induction false} NotInStarts(fs: seq<int>, seen: seq<int>)
    requires fs != [] && fs[0] !in seen
    ensures NotIn(fs, seen) != [] && NotIn(fs, seen)[0] == fs[0]
  {
    if |fs| > 1 {
      NotInStarts(fs[..|fs| - 1], seen);
    }
  }

  /** From a zero on, only the values in front of the zero are recognised. */
  lemma {:induction false} CollectPastZero(pre: seq<int>, rest: seq<int>)
    requires 0 !in pre && (rest != [] ==> rest[0] == 0)
    ensures Collect(pre + rest) == Collect(pre) + NotIn(rest, Collect(pre))
  {
    if rest == [] {
      assert pre + rest == pre;
    } else {
      var init, c := rest[..|rest| - 1], Collect(pre);
      CollectPastZero(pre, init);
      assert (pre + rest)[..|pre + rest| - 1] == pre + init;
      CollectsOnce(pre);
      if init == [] {
        UpToZeroAll(c);
      } else {
        NotInStarts(init, c);
        UpToZeroStops(c, NotIn(init, c));
      }
    }
  }

  /** The frequencies of the learned BSSs. */
  method GetFreqs(fs: seq<int>) returns (freqs: seq<int>)
    ensures freqs == Collect(fs)
  {
    freqs := [];
    var i := 0;
    while i < |fs|
      invariant i <= |fs| && freqs == Collect(fs[..i])
    {
      assert fs[..i + 1][..i] == fs[..i];
      var found := Contains(freqs, fs[i]);
      if !found {
        freqs := freqs + [fs[i]];
      }
      i := i + 1;
    }
    assert fs[..i] == fs;
  }

  datatype Channel = Channel(freq: int, disabled: bool)

  /** The frequencies of the channels that are not disabled. */
  ghost function Enabled(channels: seq<Channel>): seq<int>
  {
    if channels == [] then []
    else
      var last := channels[|channels| - 1];
      Enabled(channels[..|channels| - 1]) + if last.disabled then [] else [last.freq]
  }

  ghost function EnabledIn(modes: seq<seq<Channel>>): seq<int>
  {
    if modes == [] then [] else EnabledIn(modes[..|modes| - 1]) + Enabled(modes[|modes| - 1])
  }

  /** Exactly the frequencies of channels that are not disabled, in any mode. */
  lemma {:induction false} EnabledAre(channels: seq<Channel>, f: int)
    ensures f in Enabled(channels) <==> exists j :: 0 <= j < |channels| && channels[j] == Channel(f, false)
  {
    if channels != [] {
      EnabledAre(channels[..|channels| - 1], f);
      assert channels == channels[..|channels| - 1] + [channels[|channels| - 1]];
    }
  }

  lemma {:induction false} EnabledInAre(modes: seq<seq<Channel>>, f: int)
    ensures f in EnabledIn(modes) <==> exists i :: 0 <= i < |modes| && Channel(f, false) in modes[i]
  {
    if modes != [] {
      EnabledInAre(modes[..|modes| - 1], f);
      EnabledAre(modes[|modes| - 1], f);
      assert modes == modes[..|modes| - 1] + [modes[|modes| - 1]];
    }
  }

  /** The supported frequencies: each channel that some mode has and has not disabled, once. */
  lemma SupportedAre(modes: seq<seq<Channel>>)
    requires forall i :: 0 <= i < |modes| ==> forall c :: c in modes[i] ==> c.freq != 0
    ensures var supp := Collect(EnabledIn(modes));
            NoRepeats(supp) && forall f :: f in supp <==> exists i :: 0 <= i < |modes| && Channel(f, false) in modes[i]
  {
    forall f
      ensures f in EnabledIn(modes) <==> exists i :: 0 <= i < |modes| && Channel(f, false) in modes[i]
    {
      EnabledInAre(modes, f);
    }
    CollectsOnce(EnabledIn(modes));
  }

  method AddChannels(freqs: seq<int>, channels: seq<Channel>, ghost done: seq<int>) returns (r: seq<int>)
    requires freqs == Collect(done)
    ensures r == Collect(done + Enabled(channels))
  {
    r := freqs;
    var j := 0;
    assert done + Enabled(channels[..0]) == done;
    while j < |channels|
      invariant j <= |channels| && r == Collect(done + Enabled(channels[..j]))
    {
      assert channels[..j + 1][..j] == channels[..j];
      ghost var before := done + Enabled(channels[..j]);
      if channels[j].disabled {
        assert done + Enabled(channels[..j + 1]) == before;
      } else {
        ghost var after := before + [channels[j].freq];
        assert done + Enabled(channels[..j + 1]) == after && after[..|before|] == before;
        var found := Contains(r, channels[j].freq);
        if !found {
          r := r + [channels[j].freq];
        }
      }
      j := j + 1;
    }
    assert channels[..j] == channels;
  }

  /** The supported frequencies: of every mode, the channels that are not disabled. */
  method GetSuppFreqs(modes: seq<seq<Channel>>) returns (freqs: seq<int>)
    ensures freqs == Collect(EnabledIn(modes))
  {
    freqs := [];
    var i := 0;
    while i < |modes|
      invariant i <= |modes| && freqs == Collect(EnabledIn(modes[..i]))
    {
      assert modes[..i + 1][..i] == modes[..i];
      freqs := AddChannels(freqs, modes[i], EnabledIn(modes[..i]));
      i := i + 1;
    }
    assert modes[..i] == modes;
  }

  // ---- the probe cursor ----

  /** Which supported frequencies are missing from a list. */
  function Missing(supp: seq<int>, freqs: seq<int>): (m: seq<bool>)
    ensures |m| == |supp| && forall i :: 0 <= i < |m| ==> m[i] == !InArray(freqs, supp[i])
  {
    seq(|supp|, i requires 0 <= i < |supp| => !InArray(freqs, supp[i]))
  }

  /** Past a position, back to the start at the end. */
  function Wrap(k: nat, n: nat): (r: nat)
    requires k < n
    ensures r < n
  {
    if k + 1 == n then 0 else k + 1
  }

  class Probe {
    var supp: seq<int>
    var idx: nat

    /** The cursor stands at a supported frequency; none of them is zero. */
    ghost predicate Valid()
      reads this
    {
      0 !in supp && (supp != [] ==> idx < |supp|)
    }

    constructor (supp: seq<int>)
      requires 0 !in supp
      ensures Valid() && this.supp == supp && idx == 0
    {
      this.supp, idx := supp, 0;
    }

    /** One more frequency, exactly when a supported one is missing: the first from the cursor on. */
    method GetProbeFreq(freqs: seq<int>) returns (r: seq<int>)
      requires Valid()
      modifies `idx
      ensures Valid()
      ensures r == freqs && idx == old(idx) <== forall i :: 0 <= i < |supp| ==> InArray(freqs, supp[i])
      ensures (exists i :: 0 <= i < |supp| && !InArray(freqs, supp[i])) ==>
                var k := Rotation.Next(Missing(supp, freqs), old(idx));
                k < |supp| && r == freqs + [supp[k]] && idx == Wrap(k, |supp|)
    {
      if supp == [] {
        return freqs;
      }
      ghost var m := Missing(supp, freqs);
      var start, i := idx, idx;
      ghost var wrapped := false;
      while true
        invariant idx == start == old(idx) < |supp| && 0 <= i < |supp|
        invariant if wrapped then i < start else start <= i
        invariant forall j :: 0 <= j < |supp| && (if wrapped then j < i || j >= start else start <= j < i) ==> !m[j]
        decreases !wrapped, |supp| - i
      {
        var found := Contains(freqs, supp[i]);
        if !found {
          assert i == Rotation.Next(m, start) by {
            assert m[i];
          }
          idx := if i + 1 == |supp| then 0 else i + 1;
          return freqs + [supp[i]];
        }
        i := i + 1;
        if i == |supp| {
          i, wrapped := 0, true;
        }
        if i == start {
          break;
        }
      }
      r := freqs;
    }
  }

  // ---- calls one after the other ----

  /** The frequencies that so many calls add, the list of learned ones being the same. */
  ghost function Probes(supp: seq<int>, freqs: seq<int>, idx: nat, n: nat): seq<int>
    requires (supp != [] ==> idx < |supp|) && (n > 0 ==> Rotation.Count(Missing(supp, freqs)) > 0)
    decreases n
  {
    if n == 0 then []
    else
      Rotation.NextFinds(Missing(supp, freqs), idx);
      var k := Rotation.Next(Missing(supp, freqs), idx);
      [supp[k]] + Probes(supp, freqs, Wrap(k, |supp|), n - 1)
  }

  /** The values at some places. */
  ghost predicate TakenAt(supp: seq<int>, s: seq<nat>, p: seq<int>)
  {
    |p| == |s| && forall i :: 0 <= i < |s| ==> s[i] < |supp| && p[i] == supp[s[i]]
  }

  lemma TakenFirst(supp: seq<int>, s: seq<nat>, p: seq<int>, k: nat)
    requires TakenAt(supp, s, p) && k < |supp|
    ensures TakenAt(supp, [k] + s, [supp[k]] + p)
  {
  }

  lemma {:induction false} ProbesFollowStops(supp: seq<int>, freqs: seq<int>, pos: nat, n: nat)
    requires pos <= |supp| && (n > 0 ==> Rotation.Count(Missing(supp, freqs)) > 0)
    ensures TakenAt(supp, Rotation.Stops(Missing(supp, freqs), pos, n),
              Probes(supp, freqs, if pos == |supp| then 0 else pos, n))
    decreases n
  {
    if n > 0 {
      var m := Missing(supp, freqs);
      var k := Rotation.Next(m, pos);
      Rotation.NextFinds(m, pos);
      ProbesFollowStops(supp, freqs, k + 1, n - 1);
      TakenFirst(supp, Rotation.Stops(m, k + 1, n - 1), Probes(supp, freqs, Wrap(k, |supp|), n - 1), k);
    }
  }

  /** As many calls as frequencies are missing probe each missing one exactly once, wherever the
      cursor stands. */
  lemma EachMissingOnce(supp: seq<int>, freqs: seq<int>, idx: nat)
    requires NoRepeats(supp) && (supp != [] ==> idx < |supp|)
    ensures var p := Probes(supp, freqs, idx, Rotation.Count(Missing(supp, freqs)));
            NoRepeats(p) && forall v :: v in p <==> v in supp && !InArray(freqs, v)
  {
    var m := Missing(supp, freqs);
    var n := Rotation.Count(m);
    if supp != [] {
      var p, s := Probes(supp, freqs, idx, n), Rotation.Stops(m, idx, n);
      ProbesFollowStops(supp, freqs, idx, n);
      Rotation.FullTurn(m, idx);
      Picked(supp, s, p, m);
      forall v
        ensures v in p <==> v in supp && !InArray(freqs, v)
      {
        assert v in p <==> exists k :: 0 <= k < |supp| && m[k] && supp[k] == v;
      }
    }
  }

  /** Values picked at different places, which are all the marked ones. */
  lemma Picked(supp: seq<int>, s: seq<nat>, p: seq<int>, m: seq<bool>)
    requires NoRepeats(supp) && |m| == |supp| && TakenAt(supp, s, p)
    requires forall i, j :: 0 <= i < j < |s| ==> s[i] != s[j]
    requires forall k :: 0 <= k < |m| ==> (m[k] <==> k in s)
    ensures NoRepeats(p) && forall v :: v in p <==> exists k :: 0 <= k < |supp| && m[k] && supp[k] == v
  {
    forall i, j | 0 <= i < j < |p|
      ensures p[i] != p[j]
    {
      assert s[i] < s[j] || s[j] < s[i];
    }
    forall v | exists k :: 0 <= k < |supp| && m[k] && supp[k] == v
      ensures v in p
    {
      var k :| 0 <= k < |supp| && m[k] && supp[k] == v;
      var i :| 0 <= i < |s| && s[i] == k;
      assert p[i] == v;
    }
    forall v | v in p
      ensures exists k :: 0 <= k < |supp| && m[k] && supp[k] == v
    {
      var i :| 0 <= i < |p| && p[i] == v;
      assert s[i] in s && m[s[i]];
    }
  }
}
