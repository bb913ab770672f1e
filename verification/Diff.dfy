/** The line diff of the playground's file edits: prefix and suffix trimming, a longest-common-
    subsequence table filled backwards, a greedy walk over it, and a fallback past a size bound. */
module Diff {
  import opened Wrappers
  import opened JsStrings

  datatype Kind = Same | Add | Del

  datatype DiffLine<T> = DiffLine(kind: Kind, text: T, oldNo: Option<nat>, newNo: Option<nat>)

  const MAX_CELLS := 4_000_000

  /** An entry of the source's `Uint32Array` rows. */
  type Uint32 = x: int | 0 <= x < 0x1_0000_0000

  // ---------------------------------------------------------------- what an edit script means

  /** The lines a script takes from the old file. */
  ghost function OldText<T>(script: seq<DiffLine<T>>): seq<T> {
    if script == [] then []
    else
      var last := script[|script| - 1];
      var init := OldText(script[..|script| - 1]);
      if last.kind.Add? then init else init + [last.text]
  }

  /** The lines a script puts into the new file. */
  ghost function NewText<T>(script: seq<DiffLine<T>>): seq<T> {
    if script == [] then []
    else
      var last := script[|script| - 1];
      var init := NewText(script[..|script| - 1]);
      if last.kind.Del? then init else init + [last.text]
  }

  /** Every line carries its 1-based position in the file(s) it belongs to, and no other number. */
  ghost predicate Numbered<T>(script: seq<DiffLine<T>>) {
    script == [] ||
    var last := script[|script| - 1];
    && Numbered(script[..|script| - 1])
    && last.oldNo == (if last.kind.Add? then None else Some(|OldText(script)|))
    && last.newNo == (if last.kind.Del? then None else Some(|NewText(script)|))
  }

  ghost function Count<T>(script: seq<DiffLine<T>>, kind: Kind): nat {
    if script == [] then 0
    else
      Count(script[..|script| - 1], kind) + if script[|script| - 1].kind == kind then 1 else 0
  }

  /** A script from `a` to `b`. */
  ghost predicate EditScript<T>(script: seq<DiffLine<T>>, a: seq<T>, b: seq<T>) {
    OldText(script) == a && NewText(script) == b
  }

  /** No other script from `a` to `b` removes and adds fewer lines. */
  ghost predicate Minimal<T(!new)>(script: seq<DiffLine<T>>, a: seq<T>, b: seq<T>) {
    forall other :: EditScript(other, a, b) ==>
      Count(script, Add) + Count(script, Del) <= Count(other, Add) + Count(other, Del)
  }

  // ---------------------------------------------------------------- longest common subsequence

  ghost function Max(x: int, y: int): int { if x >= y then x else y }

  ghost function Lcs<T>(x: seq<T>, y: seq<T>): nat
    decreases |x| + |y|
  {
    if x == [] || y == [] then 0
    else if x[0] == y[0] then Lcs(x[1..], y[1..]) + 1
    else Max(Lcs(x[1..], y), Lcs(x, y[1..]))
  }

  lemma {:induction false} LcsBounded<T>(x: seq<T>, y: seq<T>)
    ensures Lcs(x, y) <= |x| && Lcs(x, y) <= |y|
    decreases |x| + |y|
  {
    if x != [] && y != [] {
      LcsBounded(x[1..], y[1..]);
      LcsBounded(x[1..], y);
      LcsBounded(x, y[1..]);
    }
  }

  /** A line added at the end of either side never shortens the common subsequence. */
  lemma {:induction false} LcsAppend<T>(x: seq<T>, y: seq<T>, t: T)
    ensures Lcs(x, y) <= Lcs(x + [t], y)
    ensures Lcs(x, y) <= Lcs(x, y + [t])
    decreases |x| + |y|
  {
    if x != [] && y != [] {
      assert (x + [t])[1..] == x[1..] + [t];
      assert (y + [t])[1..] == y[1..] + [t];
      LcsAppend(x[1..], y[1..], t);
      LcsAppend(x[1..], y, t);
      LcsAppend(x, y[1..], t);
    }
  }

  lemma {:induction false} LcsSingle<T>(y: seq<T>, t: T)
    ensures Lcs([t], y + [t]) == 1 && Lcs(y + [t], [t]) == 1
  {
    if y != [] {
      assert (y + [t])[1..] == y[1..] + [t];
      assert [t][1..] == [];
      LcsSingle(y[1..], t);
    } else {
      assert y + [t] == [t];
    }
  }

  /** A common last line always belongs to a longest common subsequence. */
  lemma {:induction false} LcsSnoc<T>(x: seq<T>, y: seq<T>, t: T)
    ensures Lcs(x + [t], y + [t]) == Lcs(x, y) + 1
    decreases |x| + |y|
  {
    if x == [] {
      assert x + [t] == [t];
      LcsSingle(y, t);
    } else if y == [] {
      assert y + [t] == [t];
      LcsSingle(x, t);
    } else {
      assert (x + [t])[1..] == x[1..] + [t];
      assert (y + [t])[1..] == y[1..] + [t];
      if x[0] == y[0] {
        LcsSnoc(x[1..], y[1..], t);
      } else {
        LcsSnoc(x[1..], y, t);
        LcsSnoc(x, y[1..], t);
      }
    }
  }

  /** Trimming a common prefix and a common suffix loses nothing but their own lines. */
  lemma {:induction false} LcsTrim<T>(p: seq<T>, x: seq<T>, y: seq<T>, s: seq<T>)
    ensures Lcs(p + x + s, p + y + s) == |p| + Lcs(x, y) + |s|
    decreases |p| + |s|
  {
    if p != [] {
      assert (p + x + s)[1..] == p[1..] + x + s;
      assert (p + y + s)[1..] == p[1..] + y + s;
      LcsTrim(p[1..], x, y, s);
    } else if s != [] {
      var s', t := s[..|s| - 1], s[|s| - 1];
      assert p + x + s == (p + x + s') + [t];
      assert p + y + s == (p + y + s') + [t];
      LcsSnoc(p + x + s', p + y + s', t);
      LcsTrim(p, x, y, s');
    } else {
      assert p + x + s == x && p + y + s == y;
    }
  }

  lemma {:induction false} LcsZero<T>(x: seq<T>, y: seq<T>)
    ensures Lcs(x, y) == 0 <==> forall i, j :: 0 <= i < |x| && 0 <= j < |y| ==> x[i] != y[j]
    decreases |x| + |y|
  {
    if x != [] && y != [] {
      LcsZero(x[1..], y);
      LcsZero(x, y[1..]);
      if x[0] != y[0] && Lcs(x[1..], y) == 0 && Lcs(x, y[1..]) == 0 {
        forall i, j | 0 <= i < |x| && 0 <= j < |y| ensures x[i] != y[j] {
          if i > 0 {
            assert x[i] == x[1..][i - 1];
          } else if j > 0 {
            assert y[j] == y[1..][j - 1];
          }
        }
      }
      if forall i, j :: 0 <= i < |x| && 0 <= j < |y| ==> x[i] != y[j] {
        assert x[0] != y[0];
        assert forall i :: 0 <= i < |x[1..]| ==> x[1..][i] == x[i + 1];
        assert forall j :: 0 <= j < |y[1..]| ==> y[1..][j] == y[j + 1];
      }
    }
  }

  // ---------------------------------------------------------------- scripts against the LCS

  /** Every script keeps at most a longest common subsequence of the two files. */
  lemma {:induction false} ScriptBound<T>(script: seq<DiffLine<T>>)
    ensures Count(script, Same) <= Lcs(OldText(script), NewText(script))
    ensures |OldText(script)| == Count(script, Same) + Count(script, Del)
    ensures |NewText(script)| == Count(script, Same) + Count(script, Add)
  {
    if script != [] {
      var init, last := script[..|script| - 1], script[|script| - 1];
      ScriptBound(init);
      match last.kind {
        case Same => LcsSnoc(OldText(init), NewText(init), last.text);
        case Add => LcsAppend(OldText(init), NewText(init), last.text);
        case Del => LcsAppend(OldText(init), NewText(init), last.text);
      }
    }
  }

  /** The script reaching the bound exists: one may always be built that keeps `Lcs` lines. */
  lemma {:induction false} ScriptExists<T>(x: seq<T>, y: seq<T>) returns (script: seq<DiffLine<T>>)
    ensures EditScript(script, x, y) && Count(script, Same) == Lcs(x, y)
    decreases |x| + |y|
  {
    if x == [] && y == [] {
      script := [];
    } else if x == [] || (y != [] && x[0] != y[0] && Lcs(x, y[1..]) >= Lcs(x[1..], y)) {
      var rest := ScriptExists(x, y[1..]);
      script := [DiffLine(Add, y[0], None, None)] + rest;
      PrependLine(script[0], rest);
      assert y == [y[0]] + y[1..];
    } else if y == [] || x[0] != y[0] {
      var rest := ScriptExists(x[1..], y);
      script := [DiffLine(Del, x[0], None, None)] + rest;
      PrependLine(script[0], rest);
      assert x == [x[0]] + x[1..];
    } else {
      var rest := ScriptExists(x[1..], y[1..]);
      script := [DiffLine(Same, x[0], None, None)] + rest;
      PrependLine(script[0], rest);
      assert x == [x[0]] + x[1..] && y == [y[0]] + y[1..];
    }
  }

  lemma PrependLine<T>(l: DiffLine<T>, rest: seq<DiffLine<T>>)
    ensures OldText([l] + rest) == (if l.kind.Add? then [] else [l.text]) + OldText(rest)
    ensures NewText([l] + rest) == (if l.kind.Del? then [] else [l.text]) + NewText(rest)
    ensures forall k :: Count([l] + rest, k) == (if l.kind == k then 1 else 0) + Count(rest, k)
  {
    PrependOld(l, rest);
    PrependNew(l, rest);
    forall k ensures Count([l] + rest, k) == (if l.kind == k then 1 else 0) + Count(rest, k) {
      PrependCount(l, rest, k);
    }
  }

  lemma {:induction false} PrependOld<T>(l: DiffLine<T>, rest: seq<DiffLine<T>>)
    ensures OldText([l] + rest) == (if l.kind.Add? then [] else [l.text]) + OldText(rest)
  {
    if rest == [] {
      assert [l] + rest == [l];
      assert [l][..0] == [];
    } else {
      PrependOld(l, rest[..|rest| - 1]);
      assert ([l] + rest)[..|rest|] == [l] + rest[..|rest| - 1];
    }
  }

  lemma {:induction false} PrependNew<T>(l: DiffLine<T>, rest: seq<DiffLine<T>>)
    ensures NewText([l] + rest) == (if l.kind.Del? then [] else [l.text]) + NewText(rest)
  {
    if rest == [] {
      assert [l] + rest == [l];
      assert [l][..0] == [];
    } else {
      PrependNew(l, rest[..|rest| - 1]);
      assert ([l] + rest)[..|rest|] == [l] + rest[..|rest| - 1];
    }
  }

  lemma {:induction false} PrependCount<T>(l: DiffLine<T>, rest: seq<DiffLine<T>>, k: Kind)
    ensures Count([l] + rest, k) == (if l.kind == k then 1 else 0) + Count(rest, k)
  {
    if rest == [] {
      assert [l] + rest == [l];
      assert [l][..0] == [];
    } else {
      PrependCount(l, rest[..|rest| - 1], k);
      assert ([l] + rest)[..|rest|] == [l] + rest[..|rest| - 1];
    }
  }

  /** A script is minimal exactly when it keeps a longest common subsequence. */
  lemma MinimalIffLcs<T(!new)>(script: seq<DiffLine<T>>, a: seq<T>, b: seq<T>)
    requires EditScript(script, a, b)
    ensures Minimal(script, a, b) <==> Count(script, Same) == Lcs(a, b)
  {
    ScriptBound(script);
    var best := ScriptExists(a, b);
    ScriptBound(best);
    forall other | EditScript(other, a, b) && Count(script, Same) == Lcs(a, b)
      ensures Count(script, Add) + Count(script, Del) <= Count(other, Add) + Count(other, Del)
    {
      ScriptBound(other);
    }
  }

  // ---------------------------------------------------------------- the diff itself

  /** Length of the longest common prefix. */
  function CommonPrefix<T(==)>(a: seq<T>, b: seq<T>): (n: nat)
    ensures n <= |a| && n <= |b| && forall k :: 0 <= k < n ==> a[k] == b[k]
    ensures n < |a| && n < |b| ==> a[n] != b[n]
  {
    if a != [] && b != [] && a[0] == b[0] then CommonPrefix(a[1..], b[1..]) + 1 else 0
  }

  /** The last `n` lines of the two sides are the same. */
  ghost predicate SameTail<T>(a: seq<T>, b: seq<T>, n: nat) {
    n <= |a| && n <= |b| && forall k :: |a| - n <= k < |a| ==> a[k] == b[k - |a| + |b|]
  }

  /** Length of the longest common suffix. */
  function CommonSuffix<T(==)>(a: seq<T>, b: seq<T>): (n: nat)
    ensures SameTail(a, b, n)
    ensures n < |a| && n < |b| ==> a[|a| - n - 1] != b[|b| - n - 1]
  {
    if a != [] && b != [] && a[|a| - 1] == b[|b| - 1] then
      CommonSuffix(a[..|a| - 1], b[..|b| - 1]) + 1
    else 0
  }

  /** What is left of the two files once the common prefix, then the common suffix, are trimmed. */
  ghost function Middles<T>(a: seq<T>, b: seq<T>): (m: (seq<T>, seq<T>)) {
    var n := CommonPrefix(a, b);
    var s := CommonSuffix(a[n..], b[n..]);
    (a[n..|a| - s], b[n..|b| - s])
  }

  ghost predicate Disjoint<T>(m: (seq<T>, seq<T>)) {
    forall i, j :: 0 <= i < |m.0| && 0 <= j < |m.1| ==> m.0[i] != m.1[j]
  }

  ghost predicate FitsTable<T>(a: seq<T>, b: seq<T>) {
    |Middles(a, b).0| * |Middles(a, b).1| <= MAX_CELLS
  }

  lemma Glue<T>(a: seq<T>, n: nat, m: nat)
    requires n + m <= |a|
    ensures a == a[..n] + a[n..|a| - m] + a[|a| - m..]
  {}

  lemma SameEnds<T>(a: seq<T>, b: seq<T>, n: nat, m: nat)
    requires n + m <= |a| && n + m <= |b|
    requires forall k :: 0 <= k < n ==> a[k] == b[k]
    requires SameTail(a[n..], b[n..], m)
    ensures a[..n] == b[..n] && a[|a| - m..] == b[|b| - m..]
  {
    var s, t := a[|a| - m..], b[|b| - m..];
    forall k | 0 <= k < m ensures s[k] == t[k] {
      assert s[k] == a[n..][|a| - n - m + k] == b[n..][|b| - n - m + k] == t[k];
    }
  }

  /** Trimming does not lose optimality: the middles carry the rest of the common subsequence. */
  lemma MiddlesLcs<T>(a: seq<T>, b: seq<T>)
    ensures Lcs(a, b) == |a| - |Middles(a, b).0| + Lcs(Middles(a, b).0, Middles(a, b).1)
  {
    var n := CommonPrefix(a, b);
    var m := CommonSuffix(a[n..], b[n..]);
    SameEnds(a, b, n, m);
    Glue(a, n, m);
    Glue(b, n, m);
    LcsTrim(a[..n], a[n..|a| - m], b[n..|b| - m], a[|a| - m..]);
  }

  /** Common ends are trimmed, up to a difference or to the end of a side. */
  ghost predicate Trimmed<T>(a: seq<T>, b: seq<T>, start: nat, endA: nat, endB: nat) {
    && start <= endA <= |a| && start <= endB <= |b| && |a| - endA == |b| - endB
    && (forall k :: 0 <= k < start ==> a[k] == b[k])
    && (start < |a| && start < |b| ==> a[start] != b[start])
    && (forall k :: endA <= k < |a| ==> a[k] == b[k - endA + endB])
    && (endA > start && endB > start ==> a[endA - 1] != b[endB - 1])
  }

  lemma MiddlesAre<T>(a: seq<T>, b: seq<T>, start: nat, endA: nat, endB: nat)
    requires Trimmed(a, b, start, endA, endB)
    ensures Middles(a, b) == (a[start..endA], b[start..endB])
  {
    hide CommonPrefix, CommonSuffix, SameTail;
    PrefixIs(a, b, start);
    TailIs(a, b, start, endA, endB);
    SuffixIs(a[start..], b[start..], |a| - endA);
  }

  lemma TailIs<T>(a: seq<T>, b: seq<T>, start: nat, endA: nat, endB: nat)
    requires Trimmed(a, b, start, endA, endB)
    ensures var x, y, n := a[start..], b[start..], |a| - endA;
      SameTail(x, y, n) && (n < |x| && n < |y| ==> x[|x| - n - 1] != y[|y| - n - 1])
  {
    var x, y, n := a[start..], b[start..], |a| - endA;
    forall k | |x| - n <= k < |x| ensures x[k] == y[k - |x| + |y|] {
      assert a[start + k] == b[start + k - endA + endB];
    }
  }

  lemma PrefixIs<T>(a: seq<T>, b: seq<T>, n: nat)
    requires n <= |a| && n <= |b| && forall k :: 0 <= k < n ==> a[k] == b[k]
    requires n < |a| && n < |b| ==> a[n] != b[n]
    ensures CommonPrefix(a, b) == n
  {}

  lemma SuffixIs<T>(a: seq<T>, b: seq<T>, n: nat)
    requires SameTail(a, b, n)
    requires n < |a| && n < |b| ==> a[|a| - n - 1] != b[|b| - n - 1]
    ensures CommonSuffix(a, b) == n
  {}

  /** A script under construction: it describes `a[..i]` and `b[..j]` and keeps `same` lines. */
  ghost predicate Built<T>(out: seq<DiffLine<T>>, a: seq<T>, b: seq<T>, i: int, j: int, same: int) {
    if out == [] then i == j == same == 0
    else
      var init, last := out[..|out| - 1], out[|out| - 1];
      match last
      case DiffLine(Same, text, oldNo, newNo) =>
        && 0 < i <= |a| && 0 < j <= |b| && text == a[i - 1] == b[j - 1]
        && oldNo == Some(i) && newNo == Some(j)
        && Built(init, a, b, i - 1, j - 1, same - 1)
      case DiffLine(Add, text, oldNo, newNo) =>
        && 0 < j <= |b| && text == b[j - 1] && oldNo == None && newNo == Some(j)
        && Built(init, a, b, i, j - 1, same)
      case DiffLine(Del, text, oldNo, newNo) =>
        && 0 < i <= |a| && text == a[i - 1] && oldNo == Some(i) && newNo == None
        && Built(init, a, b, i - 1, j, same)
  }

  lemma {:induction false} BuiltMeans<T>(out: seq<DiffLine<T>>, a: seq<T>, b: seq<T>, i: int, j: int, same: int)
    requires Built(out, a, b, i, j, same)
    ensures 0 <= i <= |a| && 0 <= j <= |b|
    ensures EditScript(out, a[..i], b[..j]) && Numbered(out) && Count(out, Same) == same
  {
    if out != [] {
      var init, last := out[..|out| - 1], out[|out| - 1];
      match last.kind {
        case Same =>
          BuiltMeans(init, a, b, i - 1, j - 1, same - 1);
          assert a[..i] == a[..i - 1] + [a[i - 1]] && b[..j] == b[..j - 1] + [b[j - 1]];
        case Add =>
          BuiltMeans(init, a, b, i, j - 1, same);
          assert b[..j] == b[..j - 1] + [b[j - 1]];
        case Del =>
          BuiltMeans(init, a, b, i - 1, j, same);
          assert a[..i] == a[..i - 1] + [a[i - 1]];
      }
    }
  }

  // ---------------------------------------------------------------- which script of the minimal ones

  /** What comes next between the common ends, given what is left of both sides: a line both show next is kept;
      else a line is added if that leaves as much in common as removing one would, and removed otherwise. */
  ghost function NextKind<T>(x: seq<T>, y: seq<T>): Kind {
    if x != [] && y != [] && x[0] == y[0] then Same
    else if y != [] && (x == [] || Lcs(x, y[1..]) >= Lcs(x[1..], y)) then Add
    else Del
  }

  /** The line after `i` lines of the old file and `j` of the new; past the size bound, all of the middle is
      removed and then all added. */
  ghost function KindAt<T>(a: seq<T>, b: seq<T>, start: nat, endA: nat, endB: nat, i: nat, j: nat): Kind
    requires start <= endA <= |a| && start <= endB <= |b|
  {
    if i < start || (i >= endA && j >= endB) then Same
    else if PastBound(endA - start, endB - start) then if i < endA then Del else Add
    else NextKind(if i < endA then a[i..endA] else [], if j < endB then b[j..endB] else [])
  }

  ghost predicate PastBound(x: nat, y: nat) { x * y > MAX_CELLS }

  ghost predicate Kinds<T>(out: seq<DiffLine<T>>, a: seq<T>, b: seq<T>, start: nat, endA: nat, endB: nat) {
    && start <= endA <= |a| && start <= endB <= |b|
    && forall k :: 0 <= k < |out| ==> out[k].kind == KindAt(a, b, start, endA, endB, |OldText(out[..k])|, |NewText(out[..k])|)
  }

  /** The kind of every line, from the two files alone. */
  ghost predicate KindsChosen<T>(out: seq<DiffLine<T>>, a: seq<T>, b: seq<T>) {
    exists start, endA, endB :: Trimmed(a, b, start, endA, endB) && Kinds(out, a, b, start, endA, endB)
  }

  lemma KindsFit<T>(out: seq<DiffLine<T>>, a: seq<T>, b: seq<T>, start: nat, endA: nat, endB: nat)
    requires Kinds(out, a, b, start, endA, endB)
    ensures start <= endA <= |a| && start <= endB <= |b|
  {}

  lemma NoKinds<T>(a: seq<T>, b: seq<T>, start: nat, endA: nat, endB: nat)
    requires start <= endA <= |a| && start <= endB <= |b|
    ensures Kinds<T>([], a, b, start, endA, endB)
  {}

  lemma KindsSnoc<T>(out: seq<DiffLine<T>>, a: seq<T>, b: seq<T>, start: nat, endA: nat, endB: nat,
                     i: nat, j: nat, same: int, line: DiffLine<T>)
    requires Kinds(out, a, b, start, endA, endB) && Built(out, a, b, i, j, same)
    requires line.kind == KindAt(a, b, start, endA, endB, i, j)
    ensures Kinds(out + [line], a, b, start, endA, endB)
  {
    hide KindAt, Built, EditScript, OldText, NewText;
    BuiltCounts(out, a, b, i, j, same);
    var more := out + [line];
    forall k | 0 <= k < |more|
      ensures more[k].kind == KindAt(a, b, start, endA, endB, |OldText(more[..k])|, |NewText(more[..k])|)
    {
      assert more[..k] == out[..k];
      if k == |out| {
        assert out[..k] == out;
      }
    }
  }

  lemma BuiltCounts<T>(out: seq<DiffLine<T>>, a: seq<T>, b: seq<T>, i: nat, j: nat, same: int)
    requires Built(out, a, b, i, j, same)
    ensures |OldText(out)| == i && |NewText(out)| == j
  {
    hide Built;
    BuiltMeans(out, a, b, i, j, same);
  }

  /** What the table says between the two middles. */
  lemma KindOfCell<T>(a: seq<T>, b: seq<T>, start: nat, ma: seq<T>, mb: seq<T>, i: nat, j: nat)
    requires start + |ma| <= |a| && start + |mb| <= |b| && !PastBound(|ma|, |mb|)
    requires ma == a[start..start + |ma|] && mb == b[start..start + |mb|]
    requires i <= |ma| && j <= |mb| && (i < |ma| || j < |mb|)
    ensures KindAt(a, b, start, start + |ma|, start + |mb|, start + i, start + j)
      == if i < |ma| && j < |mb| && ma[i] == mb[j] then Same
         else if j < |mb| && (i >= |ma| || Cell(ma, mb, i, j + 1) >= Cell(ma, mb, i + 1, j)) then Add
         else Del
  {
    hide NextKind, Cell, PastBound;
    SliceOfSlice(a, start, start + |ma|, i);
    SliceOfSlice(b, start, start + |mb|, j);
    assert ma[|ma|..] == [] && mb[|mb|..] == [];
    NextOfCell(ma, mb, i, j);
  }

  lemma NextOfCell<T>(ma: seq<T>, mb: seq<T>, i: nat, j: nat)
    requires i <= |ma| && j <= |mb| && (i < |ma| || j < |mb|)
    ensures NextKind(ma[i..], mb[j..])
      == if i < |ma| && j < |mb| && ma[i] == mb[j] then Same
         else if j < |mb| && (i >= |ma| || Cell(ma, mb, i, j + 1) >= Cell(ma, mb, i + 1, j)) then Add
         else Del
  {
    hide Lcs, Cell;
    if i < |ma| && j < |mb| {
      CellIsLcs(ma, mb, i, j + 1);
      CellIsLcs(ma, mb, i + 1, j);
      assert ma[i..][1..] == ma[i + 1..] && mb[j..][1..] == mb[j + 1..];
    }
  }

  lemma NotPast(x: nat, y: nat)
    ensures PastBound(x, y) <==> x * y > MAX_CELLS
  {}

  lemma SliceOfSlice<T>(s: seq<T>, from: nat, to: nat, i: nat)
    requires from <= to <= |s| && i <= to - from
    ensures s[from..to][i..] == s[from + i..to]
  {}

  /** A cell of the table, by the recurrence the source fills it with. */
  ghost function Cell<T>(ma: seq<T>, mb: seq<T>, i: nat, j: nat): nat
    requires i <= |ma| && j <= |mb|
    decreases |ma| - i + |mb| - j
  {
    if i == |ma| || j == |mb| then 0
    else if ma[i] == mb[j] then Cell(ma, mb, i + 1, j + 1) + 1
    else Max(Cell(ma, mb, i + 1, j), Cell(ma, mb, i, j + 1))
  }

  lemma {:induction false} CellIsLcs<T>(ma: seq<T>, mb: seq<T>, i: nat, j: nat)
    requires i <= |ma| && j <= |mb|
    ensures Cell(ma, mb, i, j) == Lcs(ma[i..], mb[j..])
    decreases |ma| - i + |mb| - j
  {
    if i < |ma| && j < |mb| {
      assert ma[i..][1..] == ma[i + 1..] && mb[j..][1..] == mb[j + 1..];
      CellIsLcs(ma, mb, i + 1, j + 1);
      CellIsLcs(ma, mb, i + 1, j);
      CellIsLcs(ma, mb, i, j + 1);
    }
  }

  /** Every entry of a table that fits the bound fits 32 bits. */
  lemma CellFits<T>(ma: seq<T>, mb: seq<T>, i: nat, j: nat)
    requires i <= |ma| && j <= |mb|
    requires |ma| <= MAX_CELLS || |mb| <= MAX_CELLS
    ensures Cell(ma, mb, i, j) < 0x1_0000_0000
  {
    CellIsLcs(ma, mb, i, j);
    LcsBounded(ma[i..], mb[j..]);
  }

  lemma BoundedSide(x: nat, y: nat)
    requires x * y <= MAX_CELLS
    ensures x <= MAX_CELLS || y <= MAX_CELLS
  {
    if y > 0 {
      assert x * y == x + x * (y - 1);
    }
  }

  /** `lcs[i][j]` = length of the longest common subsequence of `ma[i..]` and `mb[j..]`. */
  method FillTable<T(==)>(ma: seq<T>, mb: seq<T>) returns (lcs: array2<Uint32>)
    requires |ma| <= MAX_CELLS || |mb| <= MAX_CELLS
    ensures fresh(lcs) && lcs.Length0 == |ma| + 1 && lcs.Length1 == |mb| + 1
    ensures forall p, q {:trigger lcs[p, q]} :: 0 <= p <= |ma| && 0 <= q <= |mb| ==> lcs[p, q] == Cell(ma, mb, p, q)
  {
    lcs := new Uint32[|ma| + 1, |mb| + 1]((_, _) => 0);
    var i := |ma|;
    while i > 0
      invariant 0 <= i <= |ma|
      invariant forall p, q {:trigger lcs[p, q]} :: i <= p <= |ma| && 0 <= q <= |mb| ==> lcs[p, q] == Cell(ma, mb, p, q)
      invariant forall p :: 0 <= p < i ==> lcs[p, |mb|] == 0
    {
      i := i - 1;
      var j := |mb|;
      while j > 0
        invariant 0 <= j <= |mb|
        invariant forall q {:trigger lcs[i, q]} :: j <= q <= |mb| ==> lcs[i, q] == Cell(ma, mb, i, q)
        invariant forall p, q {:trigger lcs[p, q]} :: i < p <= |ma| && 0 <= q <= |mb| ==> lcs[p, q] == Cell(ma, mb, p, q)
        invariant forall p :: 0 <= p < i ==> lcs[p, |mb|] == 0
      {
        j := j - 1;
        CellFits(ma, mb, i, j);
        lcs[i, j] :=
          if ma[i] == mb[j] then lcs[i + 1, j + 1] + 1
          else if lcs[i + 1, j] >= lcs[i, j + 1] then lcs[i + 1, j] else lcs[i, j + 1];
      }
    }
  }

  /** The bounds of the two middles. */
  method TrimCommon<T(==)>(a: seq<T>, b: seq<T>) returns (start: nat, endA: nat, endB: nat)
    ensures Trimmed(a, b, start, endA, endB)
  {
    start := 0;
    while start < |a| && start < |b| && a[start] == b[start]
      invariant 0 <= start <= |a| && start <= |b|
      invariant forall k :: 0 <= k < start ==> a[k] == b[k]
    {
      start := start + 1;
    }
    endA, endB := |a|, |b|;
    while endA > start && endB > start && a[endA - 1] == b[endB - 1]
      invariant start <= endA <= |a| && start <= endB <= |b|
      invariant |a| - endA == |b| - endB
      invariant forall k :: endA <= k < |a| ==> a[k] == b[k - endA + endB]
    {
      endA, endB := endA - 1, endB - 1;
      assert a[endA] == b[endB];
    }
  }

  /** The unchanged lines `a[i..end]`, which are also those of `b` from `j` on. */
  method KeepLines<T(==)>(out0: seq<DiffLine<T>>, a: seq<T>, b: seq<T>, i: nat, end: nat, j: nat, ghost same: nat,
                          ghost start: nat, ghost endA: nat, ghost endB: nat)
    returns (out: seq<DiffLine<T>>)
    requires i <= end <= |a| && j + end - i <= |b|
    requires forall k :: i <= k < end ==> a[k] == b[k - i + j]
    requires Built(out0, a, b, i, j, same)
    requires Kinds(out0, a, b, start, endA, endB) && (end <= start || (i >= endA && j >= endB))
    ensures Built(out, a, b, end, j + end - i, same + end - i)
    ensures Kinds(out, a, b, start, endA, endB)
  {
    hide Kinds, Lcs;
    out := out0;
    for k := i to end
      invariant Built(out, a, b, k, k - i + j, same + k - i)
      invariant Kinds(out, a, b, start, endA, endB)
    {
      ghost var was := out;
      KindsFit(out, a, b, start, endA, endB);
      KindsSnoc(out, a, b, start, endA, endB, k, k - i + j, same + k - i, DiffLine(Same, a[k], Some(k + 1), Some(k - i + j + 1)));
      out := out + [DiffLine(Same, a[k], Some(k + 1), Some(k - i + j + 1))];
      assert out[..|out| - 1] == was;
    }
  }

  /** Past the size bound: everything removed, everything added. */
  method ReplaceAll<T>(out0: seq<DiffLine<T>>, a: seq<T>, b: seq<T>, start: nat, endA: nat, endB: nat, ghost same: nat)
    returns (out: seq<DiffLine<T>>)
    requires start <= endA <= |a| && start <= endB <= |b| && Built(out0, a, b, start, start, same)
    requires Kinds(out0, a, b, start, endA, endB) && PastBound(endA - start, endB - start)
    ensures Built(out, a, b, endA, endB, same)
    ensures Kinds(out, a, b, start, endA, endB)
  {
    hide Kinds, Lcs, PastBound;
    out := out0;
    for i := start to endA
      invariant Built(out, a, b, i, start, same)
      invariant Kinds(out, a, b, start, endA, endB)
    {
      ghost var was := out;
      KindsSnoc(out, a, b, start, endA, endB, i, start, same, DiffLine(Del, a[i], Some(i + 1), None));
      out := out + [DiffLine(Del, a[i], Some(i + 1), None)];
      assert out[..|out| - 1] == was;
    }
    for j := start to endB
      invariant Built(out, a, b, endA, j, same)
      invariant Kinds(out, a, b, start, endA, endB)
    {
      ghost var was := out;
      KindsSnoc(out, a, b, start, endA, endB, endA, j, same, DiffLine(Add, b[j], None, Some(j + 1)));
      out := out + [DiffLine(Add, b[j], None, Some(j + 1))];
      assert out[..|out| - 1] == was;
    }
  }

  /** The greedy walk over the table, from its first cell to its last. */
  method WalkTable<T(==)>(out0: seq<DiffLine<T>>, a: seq<T>, b: seq<T>, start: nat, ma: seq<T>, mb: seq<T>,
                          lcs: array2<Uint32>, ghost same: nat)
    returns (out: seq<DiffLine<T>>)
    requires start + |ma| <= |a| && start + |mb| <= |b|
    requires ma == a[start..start + |ma|] && mb == b[start..start + |mb|] && !PastBound(|ma|, |mb|)
    requires Kinds(out0, a, b, start, start + |ma|, start + |mb|)
    requires Built(out0, a, b, start, start, same)
    requires lcs.Length0 == |ma| + 1 && lcs.Length1 == |mb| + 1
    requires forall p, q {:trigger lcs[p, q]} :: 0 <= p <= |ma| && 0 <= q <= |mb| ==> lcs[p, q] == Cell(ma, mb, p, q)
    ensures Built(out, a, b, start + |ma|, start + |mb|, same + Cell(ma, mb, 0, 0))
    ensures Kinds(out, a, b, start, start + |ma|, start + |mb|)
  {
    hide Kinds, KindAt, PastBound, Built, Cell;
    CellStep(ma, mb, |ma|, |mb|);
    var i, j := 0, 0;
    out := out0;
    while i < |ma| || j < |mb|
      invariant 0 <= i <= |ma| && 0 <= j <= |mb|
      invariant Built(out, a, b, start + i, start + j, same + Cell(ma, mb, 0, 0) - Cell(ma, mb, i, j))
      invariant Kinds(out, a, b, start, start + |ma|, start + |mb|)
      decreases |ma| - i + |mb| - j
    {
      ghost var was, i0, j0 := out, i, j;
      ghost var kept := same + Cell(ma, mb, 0, 0) - Cell(ma, mb, i, j);
      KindOfCell(a, b, start, ma, mb, i, j);
      CellStep(ma, mb, i, j);
      BuiltSnoc(out, a, b, start + i, start + j, kept);
      if i < |ma| && j < |mb| && ma[i] == mb[j] {
        out := out + [DiffLine(Same, ma[i], Some(start + i + 1), Some(start + j + 1))];
        i, j := i + 1, j + 1;
      } else if j < |mb| && (i >= |ma| || lcs[i, j + 1] >= lcs[i + 1, j]) {
        out := out + [DiffLine(Add, mb[j], None, Some(start + j + 1))];
        j := j + 1;
      } else {
        out := out + [DiffLine(Del, ma[i], Some(start + i + 1), None)];
        i := i + 1;
      }
      KindsSnoc(was, a, b, start, start + |ma|, start + |mb|, start + i0, start + j0, kept, out[|out| - 1]);
    }
  }

  /** The lines kept between the common ends: none past the size bound. */
  ghost function KeptBetween<T>(ma: seq<T>, mb: seq<T>): nat {
    if |ma| * |mb| > MAX_CELLS then 0 else Cell(ma, mb, 0, 0)
  }

  method AlignMiddles<T(==)>(out0: seq<DiffLine<T>>, a: seq<T>, b: seq<T>, start: nat, endA: nat, endB: nat, ghost same: nat)
    returns (out: seq<DiffLine<T>>)
    requires start <= endA <= |a| && start <= endB <= |b| && Built(out0, a, b, start, start, same)
    requires Kinds(out0, a, b, start, endA, endB)
    ensures Built(out, a, b, endA, endB, same + KeptBetween(a[start..endA], b[start..endB]))
    ensures Kinds(out, a, b, start, endA, endB)
  {
    hide Kinds, Built, Cell, PastBound;
    var ma, mb := a[start..endA], b[start..endB];
    NotPast(|ma|, |mb|);
    if |ma| * |mb| > MAX_CELLS {
      out := ReplaceAll(out0, a, b, start, endA, endB, same);
    } else {
      BoundedSide(|ma|, |mb|);
      var lcs := FillTable(ma, mb);
      out := WalkTable(out0, a, b, start, ma, mb, lcs, same);
    }
  }

  lemma CellStep<T>(ma: seq<T>, mb: seq<T>, i: nat, j: nat)
    requires i <= |ma| && j <= |mb|
    ensures Cell(ma, mb, i, j)
      == if i == |ma| || j == |mb| then 0
         else if ma[i] == mb[j] then Cell(ma, mb, i + 1, j + 1) + 1
         else Max(Cell(ma, mb, i + 1, j), Cell(ma, mb, i, j + 1))
    ensures i == |ma| && j < |mb| ==> Cell(ma, mb, i, j + 1) == 0
    ensures j == |mb| && i < |ma| ==> Cell(ma, mb, i + 1, j) == 0
  {}

  /** The next line, of each kind. */
  lemma BuiltSnoc<T>(out: seq<DiffLine<T>>, a: seq<T>, b: seq<T>, i: nat, j: nat, same: int)
    requires Built(out, a, b, i, j, same) && i <= |a| && j <= |b|
    ensures i < |a| && j < |b| && a[i] == b[j] ==>
      Built(out + [DiffLine(Same, a[i], Some(i + 1), Some(j + 1))], a, b, i + 1, j + 1, same + 1)
    ensures j < |b| ==> Built(out + [DiffLine(Add, b[j], None, Some(j + 1))], a, b, i, j + 1, same)
    ensures i < |a| ==> Built(out + [DiffLine(Del, a[i], Some(i + 1), None)], a, b, i + 1, j, same)
  {
    forall line ensures (out + [line])[..|out|] == out {}
  }

  lemma NothingBuilt<T>(a: seq<T>, b: seq<T>)
    ensures Built<T>([], a, b, 0, 0, 0)
  {}

  method Align<T(==)>(a: seq<T>, b: seq<T>) returns (out: seq<DiffLine<T>>, ghost start: nat, ghost endA: nat, ghost endB: nat)
    ensures Trimmed(a, b, start, endA, endB)
    ensures Built(out, a, b, |a|, |b|, start + KeptBetween(a[start..endA], b[start..endB]) + |a| - endA)
    ensures Kinds(out, a, b, start, endA, endB)
  {
    hide Kinds, Built, KeptBetween;
    var s, eA, eB := TrimCommon(a, b);
    start, endA, endB := s, eA, eB;
    NoKinds(a, b, s, eA, eB);
    NothingBuilt(a, b);
    out := KeepLines([], a, b, 0, s, 0, 0, s, eA, eB);
    out := AlignMiddles(out, a, b, s, eA, eB, s);
    out := KeepLines(out, a, b, eA, |a|, eB, s + KeptBetween(a[s..eA], b[s..eB]), s, eA, eB);
  }

  /** What a finished alignment is worth. */
  lemma AlignMeans<T(!new)>(out: seq<DiffLine<T>>, a: seq<T>, b: seq<T>, start: nat, endA: nat, endB: nat)
    requires Trimmed(a, b, start, endA, endB)
    requires Built(out, a, b, |a|, |b|, start + KeptBetween(a[start..endA], b[start..endB]) + |a| - endA)
    ensures EditScript(out, a, b) && Numbered(out)
    ensures Minimal(out, a, b) <==> FitsTable(a, b) || Disjoint(Middles(a, b))
  {
    hide Built, EditScript, Numbered, Minimal, Lcs, Cell, Middles, Count;
    var ma, mb := a[start..endA], b[start..endB];
    BuiltMeans(out, a, b, |a|, |b|, start + KeptBetween(ma, mb) + |a| - endA);
    assert a[..|a|] == a && b[..|b|] == b && ma[0..] == ma && mb[0..] == mb;
    MiddlesAre(a, b, start, endA, endB);
    CellIsLcs(ma, mb, 0, 0);
    MinimalIffLcs(out, a, b);
    MiddlesLcs(a, b);
    LcsZero(ma, mb);
  }

  /** The whole diff: always a numbered edit script, and a minimal one exactly when the trimmed
      middles fit the table or share no line at all. */
  method DiffLines(before: string, after: string) returns (out: seq<DiffLine<string>>)
    ensures EditScript(out, Split(before, '\n'), Split(after, '\n')) && Numbered(out)
    ensures KindsChosen(out, Split(before, '\n'), Split(after, '\n'))
    ensures Minimal(out, Split(before, '\n'), Split(after, '\n')) <==>
              || FitsTable(Split(before, '\n'), Split(after, '\n'))
              || Disjoint(Middles(Split(before, '\n'), Split(after, '\n')))
  {
    hide Split, Kinds, KindsChosen, EditScript, Numbered, Minimal, Built, Trimmed, FitsTable, Disjoint, Middles;
    var a, b := Split(before, '\n'), Split(after, '\n');
    ghost var start, endA, endB;
    out, start, endA, endB := Align(a, b);
    AlignMeans(out, a, b, start, endA, endB);
    KindsAreChosen(out, a, b, start, endA, endB);
  }

  lemma KindsAreChosen<T>(out: seq<DiffLine<T>>, a: seq<T>, b: seq<T>, start: nat, endA: nat, endB: nat)
    requires Trimmed(a, b, start, endA, endB) && Kinds(out, a, b, start, endA, endB)
    ensures KindsChosen(out, a, b)
  {
    hide Trimmed, Kinds;
  }

  /** Two texts past the size bound whose middles share lines: nothing the diff answers is minimal. */
  lemma TooLongToAlign() returns (before: string, after: string)
    ensures var a, b := Split(before, '\n'), Split(after, '\n');
      !FitsTable(a, b) && !Disjoint(Middles(a, b))
  {
    hide Split, Join;
    var blank := seq(2000, _ => "");
    var a, b := ["x"] + blank + ["x"], ["y"] + blank + ["y"];
    before, after := Join(a, '\n'), Join(b, '\n');
    SplitJoin(a, '\n');
    SplitJoin(b, '\n');
    WholeMiddles(a, b);
    assert a[1] == b[1];
  }

  lemma WholeMiddles<T>(a: seq<T>, b: seq<T>)
    requires a != [] && |a| == |b| && a[0] != b[0] && a[|a| - 1] != b[|b| - 1]
    ensures Middles(a, b) == (a, b)
  {
    hide Middles;
    MiddlesAre(a, b, 0, |a|, |b|);
    assert a[0..|a|] == a && b[0..|b|] == b;
  }

  // ---------------------------------------------------------------- the folded view

  /** Line `i` is within `context` lines of a change. */
  ghost predicate Shown<T>(lines: seq<DiffLine<T>>, context: int, i: int) {
    exists c :: 0 <= c < |lines| && !lines[c].kind.Same? && c - context <= i <= c + context
  }

  /** The view of the first `n` lines: the shown ones, and one mark for each elided stretch. */
  ghost function Folded<T>(lines: seq<DiffLine<T>>, context: int, n: nat): seq<Option<DiffLine<T>>>
    requires n <= |lines|
  {
    if n == 0 then []
    else
      var before := Folded(lines, context, n - 1);
      if Shown(lines, context, n - 1) then before + [Some(lines[n - 1])]
      else if before != [] && before[|before| - 1].None? then before
      else before + [None]
  }

  ghost function Visible<T>(view: seq<Option<DiffLine<T>>>): seq<DiffLine<T>> {
    if view == [] then []
    else
      var init := Visible(view[..|view| - 1]);
      match view[|view| - 1] case Some(l) => init + [l] case None => init
  }

  ghost function Changes<T>(lines: seq<DiffLine<T>>): seq<DiffLine<T>> {
    if lines == [] then []
    else
      var init := Changes(lines[..|lines| - 1]);
      if lines[|lines| - 1].kind.Same? then init else init + [lines[|lines| - 1]]
  }

  /** Folding hides unchanged lines only: every change stays, in order, and two marks never touch. */
  lemma {:induction false} FoldKeepsChanges<T>(lines: seq<DiffLine<T>>, context: int, n: nat)
    requires n <= |lines| && context >= 0
    ensures Changes(Visible(Folded(lines, context, n))) == Changes(lines[..n])
    ensures var v := Folded(lines, context, n); forall k :: 0 < k < |v| ==> v[k].Some? || v[k - 1].Some?
  {
    hide Shown, Visible, Changes, Folded;
    NothingFolded(lines, context);
    if n == 0 {
      assert lines[..0] == [];
    } else {
      FoldKeepsChanges(lines, context, n - 1);
      FoldStep(lines, context, n);
      var before, l := Folded(lines, context, n - 1), lines[n - 1];
      assert lines[..n] == lines[..n - 1] + [l];
      ChangesSnoc(lines[..n - 1], l);
      ChangesSnoc(Visible(before), l);
      VisibleSnoc(before, Some(l));
      VisibleSnoc(before, None);
      HiddenIsSame(lines, context, n - 1);
    }
  }

  lemma NothingFolded<T>(lines: seq<DiffLine<T>>, context: int)
    ensures Visible<T>([]) == [] && Changes<T>([]) == [] && Folded(lines, context, 0) == []
  {}

  lemma FoldStep<T>(lines: seq<DiffLine<T>>, context: int, n: nat)
    requires 0 < n <= |lines|
    ensures var before := Folded(lines, context, n - 1);
      Folded(lines, context, n) ==
        if Shown(lines, context, n - 1) then before + [Some(lines[n - 1])]
        else if before != [] && before[|before| - 1].None? then before
        else before + [None]
  {}

  ghost function Concat<T>(parts: seq<seq<T>>): seq<T> {
    if parts == [] then [] else Concat(parts[..|parts| - 1]) + parts[|parts| - 1]
  }

  /** At most `context` lines lie between this line and a changed one, that one included. */
  ghost predicate Near<T>(lines: seq<DiffLine<T>>, context: int, i: int) {
    exists c :: 0 <= c < |lines| && lines[c].kind != Same && (if c < i then i - c else c - i) <= context
  }

  lemma ShownIsNear<T>(lines: seq<DiffLine<T>>, context: int, i: int)
    ensures Shown(lines, context, i) <==> Near(lines, context, i)
  {}

  /** What one entry of the view stands for: a line within reach of a change, or a stretch of lines that are
      not. */
  ghost predicate StandsFor<T>(lines: seq<DiffLine<T>>, context: int, entry: Option<DiffLine<T>>, at: nat, part: seq<DiffLine<T>>) {
    && part != [] && at + |part| <= |lines| && part == lines[at..at + |part|]
    && (entry.Some? ==> part == [entry.value] && Near(lines, context, at))
    && (entry.None? ==> forall i :: at <= i < at + |part| ==> !Near(lines, context, i))
  }

  /** The view stands for all lines, in order. */
  ghost predicate Unfolds<T>(lines: seq<DiffLine<T>>, context: int, n: nat, view: seq<Option<DiffLine<T>>>, parts: seq<seq<DiffLine<T>>>)
    requires n <= |lines|
  {
    && |parts| == |view| && Concat(parts) == lines[..n]
    && forall k :: 0 <= k < |view| ==> StandsFor(lines, context, view[k], |Concat(parts[..k])|, parts[k])
  }

  lemma ConcatSnoc<T>(parts: seq<seq<T>>, part: seq<T>)
    ensures Concat(parts + [part]) == Concat(parts) + part
  {
    assert (parts + [part])[..|parts|] == parts;
  }

  lemma UnfoldsMore<T>(lines: seq<DiffLine<T>>, context: int, n: nat, view: seq<Option<DiffLine<T>>>, parts: seq<seq<DiffLine<T>>>,
                       entry: Option<DiffLine<T>>)
    requires n < |lines| && Unfolds(lines, context, n, view, parts)
    requires if entry.Some? then entry.value == lines[n] && Near(lines, context, n) else !Near(lines, context, n)
    ensures Unfolds(lines, context, n + 1, view + [entry], parts + [[lines[n]]])
  {
    hide Near;
    var more := parts + [[lines[n]]];
    ConcatSnoc(parts, [lines[n]]);
    forall k | 0 <= k < |view| + 1
      ensures StandsFor(lines, context, (view + [entry])[k], |Concat(more[..k])|, more[k])
    {
      assert more[..k] == parts[..k];
      if k == |view| {
        assert parts[..k] == parts;
      }
    }
  }

  lemma LongerGap<T>(lines: seq<DiffLine<T>>, context: int, n: nat, view: seq<Option<DiffLine<T>>>, parts: seq<seq<DiffLine<T>>>)
    requires n < |lines| && Unfolds(lines, context, n, view, parts) && !Near(lines, context, n)
    requires view != [] && view[|view| - 1].None?
    ensures var k := |view| - 1; Unfolds(lines, context, n + 1, view, parts[..k] + [parts[k] + [lines[n]]])
  {
    hide StandsFor, Near, Concat;
    var last, line := |view| - 1, lines[n];
    var init, gap := parts[..last], parts[last];
    assert StandsFor(lines, context, view[last], |Concat(parts[..last])|, gap);
    ConcatLonger(parts, line);
    GapGrows(lines, context, |Concat(init)|, gap, n);
    var more := init + [gap + [line]];
    forall k | 0 <= k < |view| ensures StandsFor(lines, context, view[k], |Concat(more[..k])|, more[k]) {
      assert more[..k] == parts[..k];
      assert k < last ==> more[k] == parts[k];
    }
    assert lines[..n + 1] == lines[..n] + [line];
  }

  lemma ConcatLonger<T>(parts: seq<seq<T>>, t: T)
    requires parts != []
    ensures var init, gap := parts[..|parts| - 1], parts[|parts| - 1];
      && Concat(parts) == Concat(init) + gap
      && Concat(init + [gap + [t]]) == Concat(parts) + [t]
  {
    var init, gap := parts[..|parts| - 1], parts[|parts| - 1];
    ConcatSnoc(init, gap + [t]);
    assert Concat(init) + (gap + [t]) == Concat(init) + gap + [t];
  }

  lemma GapGrows<T>(lines: seq<DiffLine<T>>, context: int, at: nat, gap: seq<DiffLine<T>>, n: nat)
    requires StandsFor(lines, context, None, at, gap) && at + |gap| == n < |lines| && !Near(lines, context, n)
    ensures StandsFor(lines, context, None, at, gap + [lines[n]])
  {
    hide Near;
    assert lines[at..n + 1] == lines[at..n] + [lines[n]];
  }

  /** Every line within reach of a change is shown, and every mark stands for a stretch of those that are not. */
  lemma {:induction false} FoldMeans<T>(lines: seq<DiffLine<T>>, context: int, n: nat) returns (parts: seq<seq<DiffLine<T>>>)
    requires n <= |lines|
    ensures Unfolds(lines, context, n, Folded(lines, context, n), parts)
  {
    hide Shown, Near, Folded, Unfolds;
    if n == 0 {
      parts := [];
      NothingFolded(lines, context);
      NothingUnfolds(lines, context);
    } else {
      parts := FoldMeans(lines, context, n - 1);
      FoldStep(lines, context, n);
      ShownIsNear(lines, context, n - 1);
      var before := Folded(lines, context, n - 1);
      if Shown(lines, context, n - 1) {
        UnfoldsMore(lines, context, n - 1, before, parts, Some(lines[n - 1]));
        parts := parts + [[lines[n - 1]]];
      } else if before != [] && before[|before| - 1].None? {
        LongerGap(lines, context, n - 1, before, parts);
        UnfoldsFits(lines, context, n - 1, before, parts);
        parts := parts[..|before| - 1] + [parts[|before| - 1] + [lines[n - 1]]];
      } else {
        UnfoldsMore(lines, context, n - 1, before, parts, None);
        parts := parts + [[lines[n - 1]]];
      }
    }
  }

  lemma UnfoldsFits<T>(lines: seq<DiffLine<T>>, context: int, n: nat, view: seq<Option<DiffLine<T>>>, parts: seq<seq<DiffLine<T>>>)
    requires n <= |lines| && Unfolds(lines, context, n, view, parts)
    ensures |parts| == |view|
  {}

  lemma NothingUnfolds<T>(lines: seq<DiffLine<T>>, context: int)
    ensures Unfolds(lines, context, 0, [], [])
  {
    assert lines[..0] == [];
  }

  lemma VisibleSnoc<T>(view: seq<Option<DiffLine<T>>>, l: Option<DiffLine<T>>)
    ensures Visible(view + [l]) == if l.Some? then Visible(view) + [l.value] else Visible(view)
  {
    assert (view + [l])[..|view|] == view;
  }

  lemma ChangesSnoc<T>(lines: seq<DiffLine<T>>, l: DiffLine<T>)
    ensures Changes(lines + [l]) == if l.kind.Same? then Changes(lines) else Changes(lines) + [l]
  {
    assert (lines + [l])[..|lines|] == lines;
  }

  lemma HiddenIsSame<T>(lines: seq<DiffLine<T>>, context: int, i: nat)
    requires i < |lines| && context >= 0
    ensures Shown(lines, context, i) || lines[i].kind.Same?
  {}

  method Hunks<T>(lines: seq<DiffLine<T>>, context: int) returns (out: seq<Option<DiffLine<T>>>)
    ensures out == Folded(lines, context, |lines|)
  {
    var keep := new bool[|lines|](_ => false);
    for i := 0 to |lines|
      invariant forall k :: 0 <= k < |lines| ==>
        (keep[k] <==> exists c :: 0 <= c < i && !lines[c].kind.Same? && c - context <= k <= c + context)
    {
      if !lines[i].kind.Same? {
        var lo := if i - context > 0 then i - context else 0;
        var hi := if i + context < |lines| - 1 then i + context else |lines| - 1;
        var k := lo;
        ghost var was := keep[..];
        while k <= hi
          invariant lo <= k && (k <= hi + 1 || k == lo)
          invariant forall m :: 0 <= m < |lines| ==> (keep[m] <==> was[m] || lo <= m < k)
        {
          keep[k] := true;
          k := k + 1;
        }
      }
    }
    out := [];
    var skipped := false;
    for i := 0 to |lines|
      invariant forall k :: 0 <= k < |lines| ==> (keep[k] <==> Shown(lines, context, k))
      invariant out == Folded(lines, context, i)
      invariant skipped <==> out != [] && out[|out| - 1].None?
    {
      if keep[i] {
        out := out + [Some(lines[i])];
        skipped := false;
      } else if !skipped {
        out := out + [None];
        skipped := true;
      }
    }
  }

  /** The counters account for the whole difference in length between the two files. */
  method DiffStats<T>(lines: seq<DiffLine<T>>) returns (added: nat, removed: nat)
    ensures added == Count(lines, Add) && removed == Count(lines, Del)
    ensures |NewText(lines)| - |OldText(lines)| == added - removed
  {
    added, removed := 0, 0;
    for i := 0 to |lines|
      invariant added == Count(lines[..i], Add) && removed == Count(lines[..i], Del)
    {
      assert lines[..i + 1][..i] == lines[..i];
      if lines[i].kind.Add? {
        added := added + 1;
      } else if lines[i].kind.Del? {
        removed := removed + 1;
      }
    }
    assert lines[..|lines|] == lines;
    ScriptBound(lines);
  }
}
