/** The per-account request rate: one counter row per bucket, counted and reopened by one conditional
    upsert. Times are seconds, as reals; each call is one step. */
module RateLimit {
  import opened Wrappers
  import opened Numbers

  datatype Counter = Counter(fails: int, firstAt: real)

  /** The row after a call at `now`, and the seconds to wait: zero when the call is counted. */
  function Call(row: Option<Counter>, now: real, max: int, window: real): (Option<Counter>, nat) {
    match row
    case None => (Some(Counter(1, now)), 0)
    case Some(r) =>
      if r.firstAt > now - window && r.fails < max then (Some(Counter(r.fails + 1, r.firstAt)), 0)
      else if now - r.firstAt <= window then
        var left := Truncate(window - (now - r.firstAt));
        (row, if left > 1 then left else 1)
      else (Some(Counter(1, now)), 0)
  }

  /** The stored rows, by bucket and account. */
  class Buckets {
    var rows: map<string, Counter>

    method RateLimited(username: string, bucket: string, now: real, max: int, window: real) returns (wait: nat)
      modifies this
      ensures var key := bucket + "|" + username;
        var (row, answer) := Call(if key in old(rows) then Some(old(rows)[key]) else None, now, max, window);
        wait == answer && row.Some? && rows == old(rows)[key := row.value]
    {
      var key := bucket + "|" + username;
      var counted := true;
      if key !in rows {
        rows := rows[key := Counter(1, now)];
      } else if rows[key].firstAt > now - window && rows[key].fails < max {
        rows := rows[key := Counter(rows[key].fails + 1, rows[key].firstAt)];
      } else {
        counted := false;
      }
      if counted {
        return 0;
      }
      var first := rows[key].firstAt;
      if now - first <= window {
        var left := Truncate(window - (now - first));
        assert rows == rows[key := rows[key]];
        return if left > 1 then left else 1;
      }
      rows := rows[key := Counter(1, now)];
      wait := 0;
    }
  }

  // ---------------------------------------------------------------- runs on one row

  ghost function RowAfterCalls(calls: seq<real>, max: int, window: real): Option<Counter> {
    if calls == [] then None
    else Call(RowAfterCalls(calls[..|calls| - 1], max, window), calls[|calls| - 1], max, window).0
  }

  /** The times of the calls that were counted. */
  ghost function Counted(calls: seq<real>, max: int, window: real): seq<real> {
    if calls == [] then []
    else
      var init, now := calls[..|calls| - 1], calls[|calls| - 1];
      var before := Counted(init, max, window);
      if Call(RowAfterCalls(init, max, window), now, max, window).1 == 0 then before + [now] else before
  }

  ghost predicate Clocked(calls: seq<real>) { forall i, j :: 0 <= i <= j < |calls| ==> calls[i] <= calls[j] }

  /** The most one window counts: a window is opened by a call whatever the limit is. */
  ghost function PerWindow(max: int): nat { if max > 1 then max else 1 }

  /** The counted calls split into windows of at most `PerWindow(max)`, whose openers are more than
      a window length apart. */
  ghost predicate Windows(c: seq<real>, max: int, window: real, sizes: seq<nat>)
    decreases |sizes|
  {
    if sizes == [] then c == []
    else
      var k := sizes[|sizes| - 1];
      && 1 <= k <= |c| && k <= PerWindow(max)
      && Windows(c[..|c| - k], max, window, sizes[..|sizes| - 1])
      && (|sizes| > 1 ==>
            var g := sizes[|sizes| - 2];
            g <= |c| - k && c[|c| - k] - c[|c| - k - g] > window)
  }

  /** The last window, and what comes before it. */
  lemma LastOfWindows(c: seq<real>, max: int, window: real, init: seq<nat>, k: nat)
    requires 1 <= k <= |c| && k <= PerWindow(max) && Windows(c[..|c| - k], max, window, init)
    requires init != [] ==> init[|init| - 1] <= |c| - k && c[|c| - k] - c[|c| - k - init[|init| - 1]] > window
    ensures Windows(c, max, window, init + [k])
  {
    hide PerWindow;
    assert (init + [k])[..|init|] == init;
    assert init != [] ==> (init + [k])[|init| - 1] == init[|init| - 1];
  }

  lemma LastFits(c: seq<real>, max: int, window: real, sizes: seq<nat>)
    requires Windows(c, max, window, sizes) && sizes != []
    ensures 1 <= sizes[|sizes| - 1] <= |c| && sizes[|sizes| - 1] <= PerWindow(max)
    ensures var init, k := sizes[..|sizes| - 1], sizes[|sizes| - 1];
      && Windows(c[..|c| - k], max, window, init)
      && (init != [] ==> init[|init| - 1] <= |c| - k && c[|c| - k] - c[|c| - k - init[|init| - 1]] > window)
  {}

  lemma OpenWindow(c: seq<real>, now: real, max: int, window: real, sizes: seq<nat>)
    requires Windows(c, max, window, sizes)
    requires sizes != [] ==> 1 <= sizes[|sizes| - 1] <= |c| && now - c[|c| - sizes[|sizes| - 1]] > window
    ensures Windows(c + [now], max, window, sizes + [1])
  {
    hide Windows;
    assert (c + [now])[..|c|] == c;
    LastOfWindows(c + [now], max, window, sizes, 1);
  }

  lemma GrowWindow(c: seq<real>, now: real, max: int, window: real, sizes: seq<nat>)
    requires Windows(c, max, window, sizes) && sizes != []
    requires sizes[|sizes| - 1] < PerWindow(max)
    ensures Windows(c + [now], max, window, sizes[..|sizes| - 1] + [sizes[|sizes| - 1] + 1])
  {
    hide Windows, PerWindow;
    LastFits(c, max, window, sizes);
    var init, k := sizes[..|sizes| - 1], sizes[|sizes| - 1];
    assert (c + [now])[..|c| - k] == c[..|c| - k];
    LastOfWindows(c + [now], max, window, init, k + 1);
  }

  /** The row holds the last window. */
  ghost predicate LastWindow(row: Option<Counter>, c: seq<real>, sizes: seq<nat>) {
    if c == [] then row.None? && sizes == []
    else
      && row.Some? && sizes != [] && 1 <= sizes[|sizes| - 1] <= |c|
      && row.value.fails == sizes[|sizes| - 1] && row.value.firstAt == c[|c| - sizes[|sizes| - 1]]
  }

  lemma {:induction false} CountedWindows(calls: seq<real>, max: int, window: real) returns (sizes: seq<nat>)
    requires window >= 0.0
    ensures Windows(Counted(calls, max, window), max, window, sizes)
    ensures LastWindow(RowAfterCalls(calls, max, window), Counted(calls, max, window), sizes)
  {
    hide Windows, Counted, RowAfterCalls;
    sizes := [];
    if calls == [] {
      NoWindows(max, window);
      NoCalls(max, window);
    } else {
      var init, now := calls[..|calls| - 1], calls[|calls| - 1];
      sizes := CountedWindows(init, max, window);
      var before, row := Counted(init, max, window), RowAfterCalls(init, max, window);
      LastCall(calls, max, window);
      if Call(row, now, max, window).1 == 0 {
        if row.None? || now - row.value.firstAt > window {
          OpenWindow(before, now, max, window, sizes);
          sizes := sizes + [1];
        } else {
          GrowWindow(before, now, max, window, sizes);
          sizes := sizes[..|sizes| - 1] + [sizes[|sizes| - 1] + 1];
        }
      }
    }
  }

  lemma LastCall(calls: seq<real>, max: int, window: real)
    requires calls != []
    ensures var init, now := calls[..|calls| - 1], calls[|calls| - 1];
      var (row, wait) := Call(RowAfterCalls(init, max, window), now, max, window);
      && RowAfterCalls(calls, max, window) == row
      && Counted(calls, max, window)
         == if wait == 0 then Counted(init, max, window) + [now] else Counted(init, max, window)
  {
    hide Call;
  }

  lemma NoWindows(max: int, window: real)
    ensures Windows([], max, window, [])
  {}

  lemma {:induction false} CountedInOrder(calls: seq<real>, max: int, window: real)
    requires Clocked(calls)
    ensures var c := Counted(calls, max, window);
      && (forall i, j :: 0 <= i <= j < |c| ==> c[i] <= c[j])
      && (c != [] ==> calls != [] && c[|c| - 1] <= calls[|calls| - 1])
  {
    hide Call, RowAfterCalls;
    if calls != [] {
      var init := calls[..|calls| - 1];
      CountedInOrder(init, max, window);
      assert |calls| > 1 ==> calls[|calls| - 2] <= calls[|calls| - 1];
    }
  }

  /** Any span of one window length holds fewer than two full windows of counted calls. */
  lemma CountedInSpan(calls: seq<real>, max: int, window: real, i: nat)
    requires Clocked(calls) && window >= 0.0
    requires var c := Counted(calls, max, window); i < |c| && c[|c| - 1] - c[i] <= window
    ensures |Counted(calls, max, window)| - i <= 2 * PerWindow(max) - 1
  {
    var c := Counted(calls, max, window);
    var sizes := CountedWindows(calls, max, window);
    CountedInOrder(calls, max, window);
    assert Windows(c[..|c| - sizes[|sizes| - 1]], max, window, sizes[..|sizes| - 1]);
    var k := sizes[|sizes| - 1];
    if i < |c| - k {
      var g := sizes[|sizes| - 2];
      assert c[|c| - k - g] < c[i];
    }
  }

  ghost function Times(t: real, n: nat): seq<real> { seq(n, _ => t) }

  lemma CountsOne(calls: seq<real>, t: real, max: int, window: real, row: Counter)
    requires RowAfterCalls(calls, max, window) == Some(row) && Counted(calls, max, window) == calls
    requires row.firstAt > t - window && row.fails < max
    ensures RowAfterCalls(calls + [t], max, window) == Some(Counter(row.fails + 1, row.firstAt))
    ensures Counted(calls + [t], max, window) == calls + [t]
  {
    assert (calls + [t])[..|calls|] == calls;
  }

  /** Calls that all fit the open window are all counted. */
  lemma {:induction false} CountsMore(calls: seq<real>, t: real, n: nat, max: int, window: real, row: Counter)
    requires RowAfterCalls(calls, max, window) == Some(row) && Counted(calls, max, window) == calls
    requires row.firstAt > t - window && row.fails + n <= max
    ensures RowAfterCalls(calls + Times(t, n), max, window) == Some(Counter(row.fails + n, row.firstAt))
    ensures Counted(calls + Times(t, n), max, window) == calls + Times(t, n)
  {
    hide RowAfterCalls, Counted;
    if n == 0 {
      assert calls + Times(t, 0) == calls;
    } else {
      CountsMore(calls, t, n - 1, max, window, row);
      CountsOne(calls + Times(t, n - 1), t, max, window, Counter(row.fails + n - 1, row.firstAt));
      assert calls + Times(t, n) == calls + Times(t, n - 1) + [t];
    }
  }

  /** A call that opens a window is counted. */
  lemma CountsFirst(calls: seq<real>, t: real, max: int, window: real)
    requires Counted(calls, max, window) == calls
    requires var row := RowAfterCalls(calls, max, window); row.None? || t - row.value.firstAt > window
    ensures RowAfterCalls(calls + [t], max, window) == Some(Counter(1, t))
    ensures Counted(calls + [t], max, window) == calls + [t]
  {
    assert (calls + [t])[..|calls|] == calls;
  }

  /** The bound is reached for every limit and every window length. */
  lemma CountedInSpanIsReached(max: int, window: real) returns (calls: seq<real>)
    requires max >= 1 && window > 0.0
    ensures Clocked(calls) && Counted(calls, max, window) == calls && |calls| == 2 * max
    ensures calls[|calls| - 1] - calls[1] <= window && |calls| - 1 == 2 * PerWindow(max) - 1
  {
    hide RowAfterCalls, Counted;
    var early, late := 0.75 * window, 1.25 * window;
    NoCalls(max, window);
    CountsFirst([], 0.0, max, window);
    CountsMore([] + [0.0], early, max - 1, max, window, Counter(1, 0.0));
    var first := [] + [0.0] + Times(early, max - 1);
    CountsFirst(first, late, max, window);
    CountsMore(first + [late], late, max - 1, max, window, Counter(1, late));
    calls := first + [late] + Times(late, max - 1);
    assert calls[1] >= early && calls[|calls| - 1] == late;
  }

  lemma NoCalls(max: int, window: real)
    ensures RowAfterCalls([], max, window) == None && Counted([], max, window) == []
  {}

  // ---------------------------------------------------------------- the wait that is announced

  /** Where the last window of these calls opens: each opens with the first call that comes more than a window
      length after the opening of the one before. */
  ghost function WindowOpens(c: seq<real>, window: real): (w: nat)
    requires c != []
    ensures w < |c|
  {
    var n := |c| - 1;
    if n == 0 then 0
    else
      var w := WindowOpens(c[..n], window);
      if c[n] - c[w] > window then n else w
  }

  lemma {:induction false} RowIs(calls: seq<real>, max: int, window: real)
    requires window >= 0.0
    ensures var c, row := Counted(calls, max, window), RowAfterCalls(calls, max, window);
      if c == [] then row.None?
      else var w := WindowOpens(c, window); row == Some(Counter(|c| - w, c[w]))
  {
    hide Counted, RowAfterCalls;
    if calls == [] {
      NoCalls(max, window);
    } else {
      var init, now := calls[..|calls| - 1], calls[|calls| - 1];
      RowIs(init, max, window);
      LastCall(calls, max, window);
      var before := Counted(init, max, window);
      assert (before + [now])[..|before|] == before;
    }
  }

  /** Over every run, a call is counted exactly when no window is open, or when one has been for less than its
      length and still has room. A refused one is told the whole seconds left, or one. */
  lemma AnswerIs(calls: seq<real>, now: real, max: int, window: real)
    requires window >= 0.0
    ensures var c, wait := Counted(calls, max, window), Call(RowAfterCalls(calls, max, window), now, max, window).1;
      if c == [] then wait == 0
      else
        var w := WindowOpens(c, window);
        var elapsed := now - c[w];
        && (wait == 0 <==> elapsed > window || (elapsed < window && |c| - w < max))
        && (wait > 0 ==> wait as real > window - elapsed - 1.0 && (wait == 1 || wait as real <= window - elapsed))
  {
    hide Counted, RowAfterCalls, WindowOpens;
    RowIs(calls, max, window);
  }

  /** A caller refused at `now` who comes back after exactly the announced seconds is counted if and
      only if less than a second of the window was left; one second more is always enough. */
  lemma AnnouncedWait(row: Counter, now: real, max: int, window: real)
    requires window >= 0.0 && Call(Some(row), now, max, window).1 > 0
    ensures var wait := Call(Some(row), now, max, window).1;
      && (Call(Some(row), now + wait as real, max, window).1 == 0 <==> window - (now - row.firstAt) < 1.0)
      && Call(Some(row), now + wait as real + 1.0, max, window).1 == 0
  {}
}
