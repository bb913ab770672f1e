/** The sign-in lockout: one stored row of failures per key, a fixed counting window, and a lock that
    starts with the sixth failure of a window. Times are seconds, as reals; each attempt is one step. */
module Lockout {
  import opened Numbers
  import opened Wrappers

  const LOGIN_MAX_FAILS := 6
  const LOGIN_WINDOW := 900.0
  const LOGIN_LOCK := 900.0

  datatype Row = Row(fails: nat, firstAt: real, lockedUntil: real)

  /** Whole seconds of lock left on a key. */
  function Locked(row: Option<Row>, t: real): (seconds: nat)
    ensures seconds > 0 <==> row.Some? && row.value.lockedUntil != 0.0 && row.value.lockedUntil - t >= 1.0
  {
    match row
    case Some(r) =>
      if r.lockedUntil != 0.0 then
        var s := Truncate(r.lockedUntil - t);
        if s > 0 then s else 0
      else 0
    case None => 0
  }

  /** The row after one more failure. */
  function Fail(row: Option<Row>, t: real): Row {
    var (fails, firstAt) :=
      if row.Some? && t - row.value.firstAt <= LOGIN_WINDOW then (row.value.fails + 1, row.value.firstAt) else (1, t);
    Row(fails, firstAt, if fails >= LOGIN_MAX_FAILS then t + LOGIN_LOCK else 0.0)
  }

  // ---------------------------------------------------------------- runs on one key

  /** The row after failures at these times, from nothing. */
  ghost function RowAfter(times: seq<real>): Option<Row> {
    if times == [] then None else Some(Fail(RowAfter(times[..|times| - 1]), times[|times| - 1]))
  }

  /** Failures on a non-decreasing clock, each let through by the lock. */
  ghost predicate Legal(times: seq<real>) {
    times == [] ||
    var init, t := times[..|times| - 1], times[|times| - 1];
    Legal(init) && t >= 0.0 && (init != [] ==> init[|init| - 1] <= t) && Locked(RowAfter(init), t) == 0
  }

  lemma {:induction false} LegalPrefix(times: seq<real>, n: nat)
    requires Legal(times) && n <= |times|
    ensures Legal(times[..n])
    ensures forall i, j :: 0 <= i <= j < |times| ==> 0.0 <= times[i] <= times[j]
  {
    if times != [] {
      var init := times[..|times| - 1];
      if n < |times| {
        LegalPrefix(init, n);
        assert init[..n] == times[..n];
      } else {
        LegalPrefix(init, 0);
        assert times[..n] == times;
      }
    }
  }

  lemma RowAfterStep(times: seq<real>)
    requires times != []
    ensures RowAfter(times) == Some(Fail(RowAfter(times[..|times| - 1]), times[|times| - 1]))
  {
    hide Fail;
  }

  /** The row describes the current window: its size, its opening time, its lock. */
  lemma {:induction false} RowMeans(times: seq<real>)
    requires Legal(times) && times != []
    ensures RowAfter(times).Some?
    ensures var r, n := RowAfter(times).value, |times|;
      && 1 <= r.fails <= n && r.firstAt == times[n - r.fails]
      && times[n - 1] - r.firstAt <= LOGIN_WINDOW
      && (n > r.fails ==> times[n - r.fails] - RowAfter(times[..n - r.fails]).value.firstAt > LOGIN_WINDOW)
      && r.lockedUntil == if r.fails >= LOGIN_MAX_FAILS then times[n - 1] + LOGIN_LOCK else 0.0
  {
    hide Locked, Legal, RowAfter;
    var n := |times|;
    var init, t := times[..n - 1], times[n - 1];
    NoFailures();
    RowAfterStep(times);
    if n > 1 {
      LegalPrefix(times, n - 1);
      RowMeans(init);
      var r := RowAfter(times).value;
      if r.fails > 1 {
        assert init[..n - 1 - (r.fails - 1)] == times[..n - r.fails];
      } else {
        assert times[..n - 1] == init;
      }
    }
  }

  /** After the sixth failure of a window, the next one comes more than 899 seconds later. */
  lemma LockHolds(times: seq<real>, i: nat)
    requires Legal(times) && i + 1 < |times|
    requires RowAfter(times[..i + 1]).value.fails >= LOGIN_MAX_FAILS
    ensures times[i + 1] - times[i] > 899.0
  {
    hide Legal, RowAfter, Fail;
    var done, next := times[..i + 1], times[..i + 2];
    LegalPrefix(times, i + 1);
    LegalPrefix(times, i + 2);
    RowMeans(done);
    LastUnlocked(next);
    assert next[..i + 1] == done;
  }

  lemma LastUnlocked(times: seq<real>)
    requires Legal(times) && times != []
    ensures Locked(RowAfter(times[..|times| - 1]), times[|times| - 1]) == 0
    ensures |times| > 1 ==> RowAfter(times[..|times| - 1]).Some?
  {
    hide Locked, Fail;
  }

  /** A window's seventh failure comes more than 899 seconds after its sixth. */
  lemma SixthLocks(times: seq<real>)
    requires Legal(times) && times != [] && RowAfter(times).value.fails == LOGIN_MAX_FAILS + 1
    ensures |times| >= 2 && times[|times| - 1] - times[|times| - 2] > 899.0
  {
    RowMeans(times);
    LockHolds(times, |times| - 2);
  }

  /** No window counts more than seven failures: the lock's last fraction of a second lets one
      more through. */
  lemma {:induction false} WindowBound(times: seq<real>)
    requires Legal(times) && times != []
    ensures RowAfter(times).value.fails <= LOGIN_MAX_FAILS + 1
  {
    var n := |times|;
    if n > 1 {
      var init := times[..n - 1];
      WindowBound(init);
      RowMeans(times);
      if RowAfter(init).value.fails == LOGIN_MAX_FAILS + 1 {
        RowMeans(init);
        SixthLocks(init);
        LockHolds(times, n - 2);
        LegalPrefix(times, n);
      }
    }
  }

  /** Any span of one window length holds at most eleven failures: at most seven of the last window,
      and of the one before it at most five, or more of one and fewer of the other. */
  lemma SpanBound(times: seq<real>, i: nat)
    requires Legal(times) && i < |times|
    requires times[|times| - 1] - times[i] <= LOGIN_WINDOW
    ensures |times| - i <= 2 * LOGIN_MAX_FAILS - 1
  {
    hide Legal, Fail, Locked, RowAfter;
    var n := |times|;
    LegalPrefix(times, n);
    RowMeans(times);
    WindowBound(times);
    var f := RowAfter(times).value.fails;
    var w := n - f;
    if i < w {
      var before := times[..w];
      LegalPrefix(times, w);
      RowMeans(before);
      WindowBound(before);
      var g := RowAfter(before).value.fails;
      assert before[w - g] == times[w - g];
      assert times[w - g] < times[i];
      assert w - g < i;
      if g >= LOGIN_MAX_FAILS {
        assert times[..w - 1 + 1] == before;
        LockHolds(times, w - 1);
        if f == LOGIN_MAX_FAILS + 1 {
          SixthLocks(times);
        }
        if g == LOGIN_MAX_FAILS + 1 && i < w - 1 {
          SixthLocks(before);
        }
      }
    }
  }

  /** One more failure at the end of a run, spelled out. */
  lemma Step(times: seq<real>, t: real, row: Row)
    requires Legal(times) && t >= 0.0 && (times != [] ==> times[|times| - 1] <= t)
    requires Locked(RowAfter(times), t) == 0 && Fail(RowAfter(times), t) == row
    ensures Legal(times + [t]) && RowAfter(times + [t]) == Some(row)
  {
    assert (times + [t])[..|times|] == times;
  }

  /** Both bounds are reached: seven failures in one window, eleven within 900 seconds. */
  lemma BoundsAreReached() returns (times: seq<real>)
    ensures Legal(times) && |times| == 12 && times[11] - times[1] <= LOGIN_WINDOW
    ensures RowAfter(times).value.fails == LOGIN_MAX_FAILS + 1
  {
    hide RowAfter, Legal;
    NoFailures();
    times := [];
    Step(times, 0.0, Row(1, 0.0, 0.0));
    times := times + [0.0];
    Step(times, 900.0, Row(2, 0.0, 0.0));
    times := times + [900.0];
    Step(times, 900.0, Row(3, 0.0, 0.0));
    times := times + [900.0];
    Step(times, 900.0, Row(4, 0.0, 0.0));
    times := times + [900.0];
    Step(times, 900.0, Row(5, 0.0, 0.0));
    times := times + [900.0];
    Step(times, 900.5, Row(1, 900.5, 0.0));
    times := times + [900.5];
    Step(times, 900.5, Row(2, 900.5, 0.0));
    times := times + [900.5];
    Step(times, 900.5, Row(3, 900.5, 0.0));
    times := times + [900.5];
    Step(times, 900.5, Row(4, 900.5, 0.0));
    times := times + [900.5];
    Step(times, 900.5, Row(5, 900.5, 0.0));
    times := times + [900.5];
    Step(times, 900.5, Row(6, 900.5, 1800.5));
    times := times + [900.5];
    Step(times, 1799.75, Row(7, 900.5, 2699.75));
    times := times + [1799.75];
  }

  lemma NoFailures()
    ensures Legal([]) && RowAfter([]) == None
  {}

  // ---------------------------------------------------------------- the sign-in

  /** What an attempt brings: the account's valid name and the caller's address, the instant, whether
      the password is right (local or directory), and whether the account is blocked. */
  datatype Attempt = Attempt(ip: string, user: string, t: real, passwordOk: bool, blocked: bool)

  datatype Outcome = Refused | Failed | Blocked | SignedIn

  predicate ValidName(user: string) {
    user != "" && forall c :: c in user ==> 'a' <= c <= 'z' || '0' <= c <= '9' || c == '.' || c == '_' || c == '-'
  }

  function AddressKey(a: Attempt): string { a.ip + "|" + a.user }

  function UserKey(user: string): string { "user:" + user }

  type Rows = map<string, Row>

  function RowOf(rows: Rows, key: string): Option<Row> { if key in rows then Some(rows[key]) else None }

  /** The table and the answer after one attempt. */
  ghost function LoginStep(rows: Rows, a: Attempt): (Rows, Outcome) {
    var key, ukey := AddressKey(a), UserKey(a.user);
    if Locked(RowOf(rows, key), a.t) > 0 || Locked(RowOf(rows, ukey), a.t) > 0 then (rows, Refused)
    else if !a.passwordOk then
      var once := rows[key := Fail(RowOf(rows, key), a.t)];
      (once[ukey := Fail(RowOf(once, ukey), a.t)], Failed)
    else if a.blocked then (rows, Blocked)
    else (rows - {key} - {ukey}, SignedIn)
  }

  /** The stored rows and the operations on them. */
  class Attempts {
    var rows: Rows

    constructor ()
      ensures rows == map[]
    {
      rows := map[];
    }

    method RecordFailure(key: string, t: real)
      modifies this
      ensures rows == old(rows)[key := Fail(RowOf(old(rows), key), t)]
    {
      var row := RowOf(rows, key);
      var fails, firstAt := 1, t;
      if row.Some? && t - row.value.firstAt <= LOGIN_WINDOW {
        fails, firstAt := row.value.fails + 1, row.value.firstAt;
      }
      var lockedUntil := if fails >= LOGIN_MAX_FAILS then t + LOGIN_LOCK else 0.0;
      rows := rows[key := Row(fails, firstAt, lockedUntil)];
    }

    method Reset(key: string)
      modifies this
      ensures rows == old(rows) - {key}
    {
      rows := rows - {key};
    }

    method Login(a: Attempt) returns (outcome: Outcome)
      modifies this
      ensures (rows, outcome) == LoginStep(old(rows), a)
    {
      var key, ukey := AddressKey(a), UserKey(a.user);
      if Locked(RowOf(rows, key), a.t) > 0 || Locked(RowOf(rows, ukey), a.t) > 0 {
        return Refused;
      }
      if !a.passwordOk {
        RecordFailure(key, a.t);
        RecordFailure(ukey, a.t);
        return Failed;
      }
      if a.blocked {
        return Blocked;
      }
      Reset(key);
      Reset(ukey);
      outcome := SignedIn;
    }
  }

  // ---------------------------------------------------------------- every run of sign-ins

  ghost function TableAfter(run: seq<Attempt>): Rows {
    if run == [] then map[] else LoginStep(TableAfter(run[..|run| - 1]), run[|run| - 1]).0
  }

  ghost function OutcomeOf(run: seq<Attempt>, k: nat): Outcome
    requires k < |run|
  {
    LoginStep(TableAfter(run[..k]), run[k]).1
  }

  /** A run on a non-decreasing clock, from an empty table. */
  ghost predicate Clocked(run: seq<Attempt>) {
    && (forall a :: a in run ==> a.t >= 0.0 && ValidName(a.user))
    && forall i, j :: 0 <= i <= j < |run| ==> run[i].t <= run[j].t
  }

  /** The account's attempts, from any address or from one. */
  ghost predicate Concerns(a: Attempt, user: string, from: Option<string>) {
    a.user == user && (from.Some? ==> a.ip == from.value)
  }

  ghost function KeyFor(user: string, from: Option<string>): string {
    if from.Some? then from.value + "|" + user else UserKey(user)
  }

  /** The times of those of its wrong passwords that were looked at since the last sign-in among them. */
  ghost function Since(run: seq<Attempt>, user: string, from: Option<string>): seq<real> {
    if run == [] then []
    else
      var before, a := Since(run[..|run| - 1], user, from), run[|run| - 1];
      if !Concerns(a, user, from) then before
      else
        match OutcomeOf(run, |run| - 1)
        case Failed => before + [a.t]
        case SignedIn => []
        case _ => before
  }

  lemma BarIs(a: string, u: string)
    requires '|' !in u
    ensures var s := a + "|" + u;
      && s[|a|] == '|' && (forall k :: |a| < k < |s| ==> s[k] != '|')
      && a == s[..|a|] && u == s[|a| + 1..]
  {
    var s := a + "|" + u;
    forall k | |a| < k < |s| ensures s[k] != '|' {
      assert s[k] == u[k - |a| - 1] && s[k] in u;
    }
  }

  lemma LastBar(s: string, a: string, b: string, u: string, v: string)
    requires '|' !in u && '|' !in v && a + "|" + u == s && b + "|" + v == s
    ensures a == b && u == v
  {
    BarIs(a, u);
    BarIs(b, v);
  }

  lemma NoBar(user: string)
    requires ValidName(user)
    ensures '|' !in user && '|' !in UserKey(user)
  {}

  /** No two accounts or pairs share a row, and an attempt touches exactly the two rows it concerns. */
  lemma KeysApart(a: Attempt, user: string, from: Option<string>)
    requires ValidName(a.user) && ValidName(user)
    ensures AddressKey(a) != UserKey(a.user)
    ensures Concerns(a, user, from) <==> KeyFor(user, from) == if from.Some? then AddressKey(a) else UserKey(a.user)
    ensures KeyFor(user, from) != if from.Some? then UserKey(a.user) else AddressKey(a)
  {
    NoBar(a.user);
    NoBar(user);
    assert '|' in AddressKey(a) && AddressKey(a)[|a.ip|] == '|';
    if from.Some? {
      assert KeyFor(user, from)[|from.value|] == '|';
      if AddressKey(a) == KeyFor(user, from) {
        LastBar(AddressKey(a), a.ip, from.value, a.user, user);
      }
    } else {
      assert UserKey(a.user)[5..] == a.user && UserKey(user)[5..] == user;
    }
  }

  /** What one attempt does to the row of an account or of a pair. */
  lemma StepRow(rows: Rows, a: Attempt, user: string, from: Option<string>)
    requires ValidName(user) && ValidName(a.user)
    ensures var (rows', outcome) := LoginStep(rows, a);
      var row, row' := RowOf(rows, KeyFor(user, from)), RowOf(rows', KeyFor(user, from));
      if !Concerns(a, user, from) then row' == row
      else match outcome
        case Failed => Locked(row, a.t) == 0 && row' == Some(Fail(row, a.t))
        case SignedIn => row' == None
        case _ => row' == row
  {
    hide Fail, Locked, AddressKey, UserKey, ValidName, KeyFor, Concerns;
    KeysApart(a, user, from);
  }

  /** The row of an account, or of an account and an address, is the one its own wrong passwords make, and
      they form a legal run: no other attempt touches it. */
  lemma {:induction false} RowFollowsFailures(run: seq<Attempt>, user: string, from: Option<string>)
    requires Clocked(run) && ValidName(user)
    ensures Legal(Since(run, user, from)) && RowOf(TableAfter(run), KeyFor(user, from)) == RowAfter(Since(run, user, from))
    ensures var s := Since(run, user, from); s != [] ==> run != [] && s[|s| - 1] <= run[|run| - 1].t
  {
    hide Legal, RowAfter, Fail, Locked, KeyFor, Concerns, ValidName, LoginStep, RowOf, Clocked, TableAfter;
    NoFailures();
    NoRows(KeyFor(user, from));
    if run != [] {
      var n := |run| - 1;
      var init, a := run[..n], run[n];
      ClockedPrefix(run, n);
      TableStep(run);
      RowFollowsFailures(init, user, from);
      StepRow(TableAfter(init), a, user, from);
      var before := Since(init, user, from);
      if Concerns(a, user, from) && OutcomeOf(run, n) == Failed {
        Step(before, a.t, Fail(RowAfter(before), a.t));
      }
    }
  }

  lemma NoRows(key: string)
    ensures RowOf(TableAfter([]), key) == None
  {}

  lemma ClockedPrefix(run: seq<Attempt>, n: nat)
    requires Clocked(run) && n <= |run|
    ensures Clocked(run[..n])
    ensures n > 0 ==> run[n - 1].t >= 0.0
    ensures n < |run| ==> ValidName(run[n].user)
    ensures n < |run| ==> run[n].t >= 0.0 && (n > 0 ==> run[n - 1].t <= run[n].t)
  {
    assert n < |run| ==> run[n] in run;
    assert n > 0 ==> run[n - 1] in run;
  }

  lemma TableStep(run: seq<Attempt>)
    requires run != []
    ensures TableAfter(run) == LoginStep(TableAfter(run[..|run| - 1]), run[|run| - 1]).0
  {
    hide LoginStep;
  }

  // ---------------------------------------------------------------- what an attempt is answered

  /** Where the last window of these failures opens: each window opens with the first failure that comes more
      than LOGIN_WINDOW after the opening of the one before. */
  ghost function WindowOpens(times: seq<real>): (w: nat)
    requires times != []
    ensures w < |times|
  {
    var n := |times| - 1;
    if n == 0 then 0
    else
      var w := WindowOpens(times[..n]);
      if times[n] - times[w] > LOGIN_WINDOW then n else w
  }

  /** The last of these failures was at least the sixth of its window, and a whole second or more of its lock
      is left. */
  ghost predicate LockedAt(times: seq<real>, t: real) {
    && times != []
    && |times| - WindowOpens(times) >= LOGIN_MAX_FAILS
    && t - times[|times| - 1] <= LOGIN_LOCK - 1.0
  }

  lemma {:induction false} RowCounts(times: seq<real>)
    requires times != []
    ensures RowAfter(times).Some?
    ensures var r, w := RowAfter(times).value, WindowOpens(times);
      && r.fails == |times| - w && r.firstAt == times[w]
      && r.lockedUntil == if |times| - w >= LOGIN_MAX_FAILS then times[|times| - 1] + LOGIN_LOCK else 0.0
  {
    var n := |times| - 1;
    if n > 0 {
      RowCounts(times[..n]);
    }
  }

  lemma LockedIs(times: seq<real>, t: real)
    requires Legal(times)
    ensures Locked(RowAfter(times), t) > 0 <==> LockedAt(times, t)
  {
    hide Legal, RowAfter, WindowOpens;
    NoFailures();
    if times != [] {
      LegalPrefix(times, |times|);
      RowCounts(times);
    }
  }

  /** Over every run, each attempt's answer: refused exactly while the account, or the account from this
      address, is locked, whatever the password; failed on a wrong password; and signed in exactly on a right
      one of an account that is not blocked. */
  lemma AnswerIs(run: seq<Attempt>, k: nat)
    requires Clocked(run) && k < |run|
    ensures var a, before := run[k], run[..k];
      OutcomeOf(run, k) ==
        if LockedAt(Since(before, a.user, None), a.t) || LockedAt(Since(before, a.user, Some(a.ip)), a.t) then Refused
        else if !a.passwordOk then Failed
        else if a.blocked then Blocked
        else SignedIn
  {
    hide LockedAt, Since, Legal, RowAfter, Locked, TableAfter, Clocked, ValidName;
    var a, before := run[k], run[..k];
    ClockedPrefix(run, k);
    RowFollowsFailures(before, a.user, None);
    RowFollowsFailures(before, a.user, Some(a.ip));
    LockedIs(Since(before, a.user, None), a.t);
    LockedIs(Since(before, a.user, Some(a.ip)), a.t);
  }

  /** While it is refused, an attempt tells nothing about the password and leaves every row as it was. */
  lemma RefusedTellsNothing(run: seq<Attempt>, k: nat, passwordOk: bool, blocked: bool)
    requires Clocked(run) && k < |run| && OutcomeOf(run, k) == Refused
    ensures var other := run[..k] + [run[k].(passwordOk := passwordOk, blocked := blocked)];
      OutcomeOf(other, k) == Refused && TableAfter(other) == TableAfter(run[..k]) == TableAfter(run[..k + 1])
  {
    hide Clocked;
    var other := run[..k] + [run[k].(passwordOk := passwordOk, blocked := blocked)];
    assert other[..k] == run[..k];
    TableStep(other);
    TableStep(run[..k + 1]);
    assert run[..k + 1][..k] == run[..k];
  }

  /** The account's wrong passwords among the attempts from `i` on. */
  ghost function FailuresFrom(run: seq<Attempt>, user: string, i: nat): nat {
    if |run| <= i then 0
    else
      FailuresFrom(run[..|run| - 1], user, i)
      + if run[|run| - 1].user == user && OutcomeOf(run, |run| - 1) == Failed then 1 else 0
  }

  ghost predicate NoSignInFrom(run: seq<Attempt>, user: string, i: nat) {
    forall k :: i <= k < |run| && run[k].user == user ==> OutcomeOf(run, k) != SignedIn
  }

  lemma NoSignInPrefix(run: seq<Attempt>, user: string, i: nat, m: nat)
    requires NoSignInFrom(run, user, i) && m <= |run|
    ensures NoSignInFrom(run[..m], user, i)
  {
    hide LoginStep;
    forall k | i <= k < m && run[..m][k].user == user ensures OutcomeOf(run[..m], k) != SignedIn {
      assert run[..m][..k] == run[..k] && run[..m][k] == run[k];
    }
  }

  /** The failures from `i` on are the last ones since the last sign-in, all at or after its time. */
  lemma {:induction false} FailuresAreLast(run: seq<Attempt>, user: string, i: nat)
    requires Clocked(run) && NoSignInFrom(run, user, i)
    ensures var s, n := Since(run, user, None), FailuresFrom(run, user, i);
      n <= |s| && forall k :: |s| - n <= k < |s| ==> i < |run| && s[k] >= run[i].t
  {
    hide OutcomeOf, ValidName;
    if |run| > i {
      var m := |run| - 1;
      ClockedPrefix(run, m);
      NoSignInPrefix(run, user, i, m);
      FailuresAreLast(run[..m], user, i);
      assert run[i].t <= run[m].t;
    }
  }

  /** However many addresses try, an account sees at most eleven wrong passwords checked within any
      900 seconds without a sign-in. */
  lemma GuessesBounded(run: seq<Attempt>, user: string, i: nat)
    requires Clocked(run) && ValidName(user) && i < |run| && NoSignInFrom(run, user, i)
    requires run[|run| - 1].t - run[i].t <= LOGIN_WINDOW
    ensures FailuresFrom(run, user, i) <= 2 * LOGIN_MAX_FAILS - 1
  {
    var s, n := Since(run, user, None), FailuresFrom(run, user, i);
    RowFollowsFailures(run, user, None);
    FailuresAreLast(run, user, i);
    if n > 0 {
      hide Since, FailuresFrom, Legal, NoSignInFrom;
      SpanBound(s, |s| - n);
    }
  }

  /** A wrong password at each of these times, from one address. */
  ghost function Wrong(times: seq<real>, ip: string, user: string): (run: seq<Attempt>)
    ensures |run| == |times|
    ensures forall k :: 0 <= k < |run| ==> run[k] == Attempt(ip, user, times[k], false, false)
  {
    seq(|times|, k requires 0 <= k < |times| => Attempt(ip, user, times[k], false, false))
  }

  lemma WrongPrefix(times: seq<real>, ip: string, user: string, n: nat)
    requires n <= |times|
    ensures Wrong(times, ip, user)[..n] == Wrong(times[..n], ip, user)
  {}

  /** An attempt on a pair of rows that are the same and not locked. */
  lemma WrongStep(rows: Rows, a: Attempt, row: Option<Row>)
    requires ValidName(a.user) && !a.passwordOk && Locked(row, a.t) == 0
    requires RowOf(rows, AddressKey(a)) == row && RowOf(rows, UserKey(a.user)) == row
    ensures var (rows', outcome) := LoginStep(rows, a);
      && outcome == Failed
      && RowOf(rows', AddressKey(a)) == Some(Fail(row, a.t)) && RowOf(rows', UserKey(a.user)) == Some(Fail(row, a.t))
  {
    hide Locked, Fail, AddressKey, UserKey, ValidName;
    KeysApart(a, a.user, None);
  }

  /** Both rows of the pair are those of the times. */
  lemma {:induction false} WrongRows(times: seq<real>, ip: string, user: string)
    requires Legal(times) && ValidName(user)
    ensures var rows := TableAfter(Wrong(times, ip, user));
      && RowOf(rows, ip + "|" + user) == RowAfter(times)
      && RowOf(rows, UserKey(user)) == RowAfter(times)
    ensures times != [] ==> OutcomeOf(Wrong(times, ip, user), |times| - 1) == Failed
  {
    if times != [] {
      hide Legal, RowAfter, Locked, Fail, LoginStep, TableAfter, UserKey, ValidName, RowOf;
      var n := |times| - 1;
      var run := Wrong(times, ip, user);
      LegalPrefix(times, n);
      LastUnlocked(times);
      WrongPrefix(times, ip, user, n);
      WrongRows(times[..n], ip, user);
      WrongStep(TableAfter(run[..n]), run[n], RowAfter(times[..n]));
      RowAfterStep(times);
      TableStep(run);
    }
  }

  lemma WrongFails(times: seq<real>, ip: string, user: string, k: nat)
    requires Legal(times) && ValidName(user) && k < |times|
    ensures OutcomeOf(Wrong(times, ip, user), k) == Failed
  {
    hide Legal, LoginStep, ValidName;
    LegalPrefix(times, k + 1);
    WrongPrefix(times, ip, user, k + 1);
    WrongRows(times[..k + 1], ip, user);
    assert Wrong(times, ip, user)[..k + 1][..k] == Wrong(times, ip, user)[..k];
  }

  /** Each of them counts. */
  lemma {:induction false} WrongCounts(times: seq<real>, ip: string, user: string, i: nat)
    requires Legal(times) && ValidName(user) && i <= |times|
    ensures FailuresFrom(Wrong(times, ip, user), user, i) == |times| - i
    decreases |times|
  {
    hide Legal, OutcomeOf, ValidName;
    if i < |times| {
      var n := |times| - 1;
      LegalPrefix(times, n);
      WrongPrefix(times, ip, user, n);
      WrongCounts(times[..n], ip, user, i);
      WrongFails(times, ip, user, n);
    }
  }

  lemma WrongClocked(times: seq<real>, ip: string, user: string)
    requires Legal(times) && ValidName(user)
    ensures Clocked(Wrong(times, ip, user))
  {
    hide Legal, ValidName;
    LegalPrefix(times, |times|);
  }

  /** The bound is reached on any account, from a single address. */
  lemma GuessesReachBound(ip: string, user: string) returns (run: seq<Attempt>)
    requires ValidName(user)
    ensures Clocked(run) && |run| == 12 && NoSignInFrom(run, user, 1)
    ensures forall a :: a in run ==> a.ip == ip && a.user == user
    ensures run[11].t - run[1].t <= LOGIN_WINDOW && FailuresFrom(run, user, 1) == 2 * LOGIN_MAX_FAILS - 1
  {
    hide Legal, ValidName, Clocked, OutcomeOf, FailuresFrom;
    var times := BoundsAreReached();
    run := Wrong(times, ip, user);
    WrongClocked(times, ip, user);
    WrongCounts(times, ip, user, 1);
    forall k | 0 <= k < |run| ensures OutcomeOf(run, k) == Failed {
      WrongFails(times, ip, user, k);
    }
  }
}
