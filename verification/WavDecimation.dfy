/** Bringing recorded sound down to 16 kHz by averaging. */
module WavDecimation {
  import opened Numbers

  const WAV_RATE: nat := 16000

  function Total(chunks: seq<seq<real>>): nat {
    if chunks == [] then 0 else |chunks[0]| + Total(chunks[1..])
  }

  function Flat(chunks: seq<seq<real>>): (s: seq<real>)
    ensures |s| == Total(chunks)
  {
    if chunks == [] then [] else chunks[0] + Flat(chunks[1..])
  }

  function Sum(s: seq<real>): real {
    if s == [] then 0.0 else Sum(s[..|s| - 1]) + s[|s| - 1]
  }

  function Clamp(x: real): real { if x > 1.0 then 1.0 else if x < -1.0 then -1.0 else x }

  /** The stored sample for a window of sound: its mean, clipped, at full scale. */
  function SampleOf(window: seq<real>): int
    requires window != []
  {
    Truncate(Clamp(Sum(window) / |window| as real) * 32767.0)
  }

  /** How many samples there are room for. */
  function Room(total: nat, rate: nat): nat
    requires rate > 0
  {
    WAV_RATE * total / rate
  }

  function CeilDiv(a: nat, b: nat): nat
    requires b > 0
  {
    (a + b - 1) / b
  }

  /** How much sound is used up by the first `j` samples: what lasts as long, and at least one each. */
  function Used(j: nat, rate: nat): nat {
    var lasting := CeilDiv(j * rate, WAV_RATE);
    if lasting > j then lasting else j
  }

  lemma UsedGrows(j: nat, rate: nat)
    ensures j <= Used(j, rate) < Used(j + 1, rate)
  {
    assert (j + 1) * rate == j * rate + rate;
    if rate <= WAV_RATE {
      assert j * rate <= j * WAV_RATE;
      assert (j + 1) * rate <= (j + 1) * WAV_RATE;
    }
  }

  lemma RoomFits(total: nat, rate: nat)
    requires rate > 0
    ensures Room(total, rate) * rate <= WAV_RATE * total < (Room(total, rate) + 1) * rate
  {}

  /** The sample being gathered when `pos` of the sound has been read. */
  ghost predicate Gathering(all: seq<real>, rate: nat, n: nat, pos: nat, k: nat, acc: real, cnt: nat)
    requires pos <= |all|
  {
    && k <= n && Used(k, rate) <= pos
    && (k < n ==> pos < Used(k + 1, rate) && acc == Sum(all[Used(k, rate)..pos]) && cnt == pos - Used(k, rate))
  }

  /** The first `k` samples are written, the others still zero. */
  ghost predicate Written(out: seq<int>, all: seq<real>, rate: nat, k: nat) {
    && k <= |out| && Used(k, rate) <= |all|
    && (forall j :: 0 <= j < k ==> Fits(all, rate, j) && out[j] == SampleOf(all[Used(j, rate)..Used(j + 1, rate)]))
    && (forall j :: k <= j < |out| ==> out[j] == 0)
  }

  ghost predicate Fits(all: seq<real>, rate: nat, j: nat) { Used(j, rate) < Used(j + 1, rate) <= |all| }

  /** When the sound a sample lasts for has been read, the sample is the mean of that sound. */
  lemma SampleIsDue(all: seq<real>, rate: nat, n: nat, pos: nat, k: nat, acc: real, cnt: nat)
    requires pos < |all| && Gathering(all, rate, n, pos, k, acc, cnt)
    requires k < n && WAV_RATE * (pos + 1) >= (k + 1) * rate
    ensures Fits(all, rate, k)
    ensures Used(k, rate) < Used(k + 1, rate) <= |all| && SampleOf(all[Used(k, rate)..Used(k + 1, rate)])
         == Truncate(Clamp((acc + all[pos]) / (cnt + 1) as real) * 32767.0)
    ensures Gathering(all, rate, n, pos + 1, k + 1, 0.0, 0)
  {
    UsedGrows(k, rate);
    UsedGrows(k + 1, rate);
    assert pos + 1 == Used(k + 1, rate);
    SumMore(all, Used(k, rate), pos);
    assert all[pos + 1..pos + 1] == [];
  }

  lemma SampleIsNotDue(all: seq<real>, rate: nat, n: nat, pos: nat, k: nat, acc: real, cnt: nat)
    requires pos < |all| && Gathering(all, rate, n, pos, k, acc, cnt)
    requires k == n || WAV_RATE * (pos + 1) < (k + 1) * rate
    ensures Gathering(all, rate, n, pos + 1, k, acc + all[pos], cnt + 1)
  {
    UsedGrows(k, rate);
    SumMore(all, Used(k, rate), pos);
  }

  lemma SumMore(all: seq<real>, from: nat, pos: nat)
    requires from <= pos < |all|
    ensures Sum(all[from..pos + 1]) == Sum(all[from..pos]) + all[pos]
  {
    var window := all[from..pos + 1];
    assert window[..|window| - 1] == all[from..pos];
  }

  lemma DueInTime(x: nat, total: nat)
    requires x <= WAV_RATE * total
    ensures CeilDiv(x, WAV_RATE) <= total
  {}

  lemma AllRead(all: seq<real>, rate: nat, n: nat, k: nat, acc: real, cnt: nat)
    requires rate > 0 && n == Room(|all|, rate) && Gathering(all, rate, n, |all|, k, acc, cnt)
    ensures k == if n < |all| then n else |all|
  {
    hide Room, CeilDiv, Sum;
    UsedGrows(k, rate);
    RoomFits(|all|, rate);
    if k < n {
      Times(k + 1, n, rate);
      DueInTime((k + 1) * rate, |all|);
    }
  }

  lemma Times(a: nat, b: nat, c: nat)
    requires a <= b
    ensures a * c <= b * c
  {}

  lemma {:induction false} FlatSplit(chunks: seq<seq<real>>, c: nat)
    requires c <= |chunks|
    ensures Flat(chunks) == Flat(chunks[..c]) + Flat(chunks[c..])
  {
    if c == 0 {
      assert chunks[0..] == chunks;
    } else {
      FlatSplit(chunks[1..], c - 1);
      assert chunks[..c][1..] == chunks[1..][..c - 1];
      assert chunks[1..][c - 1..] == chunks[c..];
    }
  }

  lemma FlatAt(chunks: seq<seq<real>>, c: nat)
    requires c < |chunks|
    ensures Flat(chunks[..c + 1]) == Flat(chunks[..c]) + chunks[c]
    ensures Flat(chunks) == Flat(chunks[..c]) + chunks[c] + Flat(chunks[c + 1..])
  {
    hide Flat, Total;
    FlatSplit(chunks, c + 1);
    FlatSplit(chunks[..c + 1], c);
    CutTwice(chunks, c);
    FlatOne(chunks[c]);
  }

  lemma CutTwice<T>(s: seq<T>, c: nat)
    requires c < |s|
    ensures s[..c + 1][..c] == s[..c] && s[..c + 1][c..] == [s[c]]
  {}

  lemma FlatOne(chunk: seq<real>)
    ensures Flat([chunk]) == chunk
  {
    assert [chunk][1..] == [];
  }

  lemma NothingRead(all: seq<real>, out: seq<int>, rate: nat, n: nat)
    requires |out| == n && forall j :: 0 <= j < n ==> out[j] == 0
    ensures Gathering(all, rate, n, 0, 0, 0.0, 0) && Written(out, all, rate, 0)
  {
    UsedGrows(0, rate);
  }

  lemma WriteOne(out: seq<int>, all: seq<real>, rate: nat, k: nat)
    requires Written(out, all, rate, k) && k < |out| && Fits(all, rate, k)
    ensures Used(k, rate) < Used(k + 1, rate) <= |all|
    ensures Written(out[k := SampleOf(all[Used(k, rate)..Used(k + 1, rate)])], all, rate, k + 1)
  {
    hide Used, SampleOf;
  }

  lemma GatheringFits(all: seq<real>, rate: nat, n: nat, pos: nat, k: nat, acc: real, cnt: nat)
    requires pos <= |all| && Gathering(all, rate, n, pos, k, acc, cnt)
    ensures k <= n
  {}

  lemma FlatNone(chunks: seq<seq<real>>)
    ensures Flat(chunks[..0]) == []
  {}

  lemma Times1(k: nat, rate: nat)
    ensures (k + 1) * rate == k * rate + rate
  {}

  /** The decimation loop: every sample is the mean of its own stretch of the sound, in order; past the
      end of the sound samples stay zero. */
  method Decimate(chunks: seq<seq<real>>, rate: nat) returns (out: array<int>)
    requires rate > 0
    ensures fresh(out) && out.Length == Room(Total(chunks), rate)
    ensures Written(out[..], Flat(chunks), rate, if out.Length < Total(chunks) then out.Length else Total(chunks))
  {
    hide *;
    ghost var all := Flat(chunks);
    var n := Room(Total(chunks), rate);
    out := new int[n](_ => 0);
    var k: nat, acc, cnt: nat, pos: nat, next := 0, 0.0, 0, 0, rate;
    NothingRead(all, out[..], rate, n);
    FlatNone(chunks);
    for c := 0 to |chunks|
      invariant pos == |Flat(chunks[..c])| <= |all|
      invariant next == (k + 1) * rate
      invariant Gathering(all, rate, n, pos, k, acc, cnt) && Written(out[..], all, rate, k)
    {
      FlatAt(chunks, c);
      ghost var start := pos;
      for i := 0 to |chunks[c]|
        invariant pos == start + i
        invariant next == (k + 1) * rate
        invariant Gathering(all, rate, n, pos, k, acc, cnt) && Written(out[..], all, rate, k)
      {
        assert all[pos] == chunks[c][i];
        if WAV_RATE * (pos + 1) >= next && k < n {
          SampleIsDue(all, rate, n, pos, k, acc, cnt);
          WriteOne(out[..], all, rate, k);
        } else {
          GatheringFits(all, rate, n, pos, k, acc, cnt);
          SampleIsNotDue(all, rate, n, pos, k, acc, cnt);
        }
        acc, cnt := acc + chunks[c][i], cnt + 1;
        if WAV_RATE * (pos + 1) >= next && k < n {
          out[k] := Truncate(Clamp(acc / cnt as real) * 32767.0);
          k, acc, cnt, next := k + 1, 0.0, 0, next + rate;
          Times1(k, rate);
        }
        pos := pos + 1;
      }
    }
    assert chunks[..|chunks|] == chunks;
    AllRead(all, rate, n, k, acc, cnt);
  }

  /** Every sample of the result comes from the sound exactly when there are no more of them than values
      read; so it does from 16 kHz up, and below only for a sound too short to leave a rest. */
  lemma FilledIff(total: nat, rate: nat)
    requires rate > 0
    ensures Room(total, rate) <= total <==> rate >= WAV_RATE || (WAV_RATE - rate) * total < rate
  {
    hide Room;
    RoomFits(total, rate);
    Spread(rate, total);
    var n := Room(total, rate);
    if rate >= WAV_RATE {
      Times(WAV_RATE, rate, total);
    }
    if n > total {
      Times(total + 1, n, rate);
    } else {
      Times(n + 1, total + 1, rate);
    }
  }

  lemma Spread(rate: nat, total: nat)
    ensures (total + 1) * rate == rate * total + rate
    ensures (WAV_RATE - rate) * total == WAV_RATE * total - rate * total
  {}

  /** From 16 kHz up, sample `j` covers exactly the values from the time `j / 16000` to the time
      `(j + 1) / 16000`, and what remains unread lasts less than one sample. */
  lemma WindowsAreTimes(total: nat, rate: nat, j: nat, i: nat)
    requires rate >= WAV_RATE
    ensures Used(j, rate) <= i < Used(j + 1, rate) <==> j * rate <= i * WAV_RATE < (j + 1) * rate
    ensures WAV_RATE * total - Room(total, rate) * rate < rate
  {
    assert (j + 1) * rate == j * rate + rate;
    assert j * rate >= j * WAV_RATE;
    RoomFits(total, rate);
  }

  // ---------------------------------------------------------------- what a sample says

  ghost predicate Between(s: seq<real>, lo: real, hi: real) { forall i :: 0 <= i < |s| ==> lo <= s[i] <= hi }

  lemma {:induction false} SumBetween(s: seq<real>, lo: real, hi: real)
    requires Between(s, lo, hi)
    ensures lo * |s| as real <= Sum(s) <= hi * |s| as real
  {
    if s != [] {
      SumBetween(s[..|s| - 1], lo, hi);
      OneMore(lo, |s|);
      OneMore(hi, |s|);
    }
  }

  lemma OneMore(x: real, n: nat)
    requires n > 0
    ensures x * n as real == x * (n - 1) as real + x
  {
    var m := (n - 1) as real;
    assert n as real == m + 1.0;
  }

  lemma MeanBetween(sum: real, n: nat, lo: real, hi: real)
    requires n > 0 && lo * n as real <= sum <= hi * n as real
    ensures lo <= sum / n as real <= hi
  {}

  /** A sample is the mean of its window at full scale, to less than one step and never beyond it, as long as the
      mean is in range; a louder window is cut off there. The mean lies between the quietest and the loudest
      value. */
  lemma SampleMeans(window: seq<real>, lo: real, hi: real)
    requires window != [] && Between(window, lo, hi)
    ensures var mean, sample := Sum(window) / |window| as real, SampleOf(window);
      && lo <= mean <= hi
      && (mean >= 1.0 ==> sample == 32767) && (mean <= -1.0 ==> sample == -32767)
      && (0.0 <= mean <= 1.0 ==> sample as real <= mean * 32767.0 < sample as real + 1.0)
      && (-1.0 <= mean <= 0.0 ==> sample as real - 1.0 < mean * 32767.0 <= sample as real)
  {
    hide Sum;
    SumBetween(window, lo, hi);
    MeanBetween(Sum(window), |window|, lo, hi);
  }
}
