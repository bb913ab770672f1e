/** Keeping images on the most recent messages only, within a count and a character budget. */
module RecentImages {
  import opened Wrappers

  /** A message: its images, if any, and everything else. */
  datatype Message<R> = Message(images: Option<seq<string>>, rest: R)

  /** A bound that may be infinite. */
  datatype Bound = Finite(n: int) | Infinite

  predicate Within(n: int, b: Bound) { b.Infinite? || n <= b.n }

  function Images<R>(m: Message<R>): seq<string> { if m.images.Some? then m.images.value else [] }

  /** All images, in thread order. */
  ghost function Flatten<R>(msgs: seq<Message<R>>): seq<string> {
    if msgs == [] then [] else Images(msgs[0]) + Flatten(msgs[1..])
  }

  ghost function Weight(images: seq<string>): nat {
    if images == [] then 0 else |images[0]| + Weight(images[1..])
  }

  ghost predicate Fits(images: seq<string>, max: Bound, budget: Bound) {
    Within(|images|, max) && Within(Weight(images), budget)
  }

  ghost function Last(images: seq<string>, k: nat): seq<string>
    requires k <= |images|
  {
    images[|images| - k..]
  }

  /** `k` is the length of the longest suffix within both bounds (none at all when nothing fits). */
  ghost predicate LongestSuffix(images: seq<string>, k: nat, max: Bound, budget: Bound) {
    && k <= |images|
    && (k > 0 ==> Fits(Last(images, k), max, budget))
    && (k < |images| ==> !Fits(Last(images, k + 1), max, budget))
  }

  lemma {:induction false} WeightDrop(images: seq<string>, n: nat)
    requires n <= |images|
    ensures Weight(images[n..]) <= Weight(images)
  {
    if n > 0 {
      WeightDrop(images[1..], n - 1);
      assert images[1..][n - 1..] == images[n..];
    } else {
      assert images[0..] == images;
    }
  }

  lemma FitsShorter(images: seq<string>, longer: nat, k: nat, max: Bound, budget: Bound)
    requires k <= longer <= |images| && Fits(Last(images, longer), max, budget)
    ensures Fits(Last(images, k), max, budget)
  {
    WeightDrop(Last(images, longer), longer - k);
    assert Last(images, longer)[longer - k..] == Last(images, k);
  }

  /** No suffix that fits is longer. */
  lemma LongestIsLongest(images: seq<string>, k: nat, max: Bound, budget: Bound, other: nat)
    requires LongestSuffix(images, k, max, budget)
    requires other <= |images| && Fits(Last(images, other), max, budget)
    ensures other <= k
  {
    if k < other {
      FitsShorter(images, other, k + 1, max, budget);
    }
  }

  /** A message whose last `keep` images are kept; without images it is left as it is. */
  ghost function Trimmed<R>(m: Message<R>, keep: nat): Message<R>
    requires keep <= |Images(m)|
  {
    if Images(m) == [] then m
    else m.(images := if keep == 0 then None else Some(Last(Images(m), keep)))
  }

  /** Each message keeps its share of the last `k` images of the thread. */
  ghost function TrimmedAll<R>(msgs: seq<Message<R>>, k: nat): seq<Message<R>>
    requires k <= |Flatten(msgs)|
  {
    if msgs == [] then []
    else
      var later := |Flatten(msgs[1..])|;
      if k >= later then [Trimmed(msgs[0], k - later)] + msgs[1..]
      else [Trimmed(msgs[0], 0)] + TrimmedAll(msgs[1..], k)
  }

  predicate Positive(b: Bound) { b.Infinite? || b.n > 0 }

  function Minus(b: Bound, k: nat): Bound { if b.Infinite? then b else Finite(b.n - k) }

  /** The loop has kept the last `k` of the images seen so far: all of them, with the rest of the
      count still to spend, or as many as fit, with nothing left to spend. */
  ghost predicate Kept(images: seq<string>, k: nat, remaining: Bound, weight: nat, max: Bound, budget: Bound) {
    && k <= |images|
    && (k > 0 ==> Fits(Last(images, k), max, budget))
    && (if k == |images| then remaining == Minus(max, k) && weight == Weight(images)
        else !Positive(remaining) && !Fits(Last(images, k + 1), max, budget))
  }

  lemma KeepOne(image: string, images: seq<string>, remaining: Bound, weight: nat, max: Bound, budget: Bound)
    requires Kept(images, |images|, remaining, weight, max, budget) && Positive(remaining)
    ensures if Within(weight + |image|, budget)
      then Kept([image] + images, |images| + 1, Minus(remaining, 1), weight + |image|, max, budget)
      else Kept([image] + images, |images|, Finite(0), weight, max, budget)
  {
    var more := [image] + images;
    assert more[1..] == images && Last(more, |more|) == more && Last(more, |images|) == images;
    assert Last(images, |images|) == images;
  }

  /** With nothing left to spend, earlier images change nothing. */
  lemma KeepNone(earlier: seq<string>, images: seq<string>, k: nat, remaining: Bound, weight: nat, max: Bound, budget: Bound)
    requires Kept(images, k, remaining, weight, max, budget) && !Positive(remaining)
    ensures Kept(earlier + images, k, remaining, weight, max, budget)
  {
    var more := earlier + images;
    assert earlier == [] ==> more == images;
    assert Last(more, k) == Last(images, k);
    if k < |images| {
      assert Last(more, k + 1) == Last(images, k + 1);
    }
  }

  lemma StillSpending(images: seq<string>, k: nat, remaining: Bound, weight: nat, max: Bound, budget: Bound)
    requires Kept(images, k, remaining, weight, max, budget)
    ensures k <= |images| && (Positive(remaining) ==> k == |images|)
  {}

  lemma NoneKept(images: seq<string>)
    ensures Last(images, 0) == []
  {}

  /** The inner loop: the images of one message, from its last one back. */
  method KeepFrom(imgs: seq<string>, remaining0: Bound, weight0: nat, max: Bound, budget: Bound, ghost later: seq<string>, ghost k: nat)
    returns (guard: seq<string>, remaining: Bound, weight: nat)
    requires Kept(later, k, remaining0, weight0, max, budget)
    ensures |guard| <= |imgs| && guard == Last(imgs, |guard|) && (k < |later| ==> guard == [])
    ensures Kept(imgs + later, k + |guard|, remaining, weight, max, budget)
  {
    hide Kept, Last;
    NoneKept(imgs);
    guard, remaining, weight := [], remaining0, weight0;
    var j := |imgs|;
    assert imgs[j..] + later == later;
    StillSpending(later, k, remaining, weight, max, budget);
    while j > 0 && Positive(remaining)
      invariant 0 <= j <= |imgs| && |guard| <= |imgs| - j && guard == Last(imgs, |guard|)
      invariant Positive(remaining) ==> |guard| == |imgs| - j && k == |later|
      invariant k < |later| ==> guard == []
      invariant Kept(imgs[j..] + later, k + |guard|, remaining, weight, max, budget)
      decreases j
    {
      j := j - 1;
      KeepOne(imgs[j], imgs[j + 1..] + later, remaining, weight, max, budget);
      OneBack(imgs, j, later);
      LastGrows(imgs, |guard|);
      if !Within(weight + |imgs[j]|, budget) {
        remaining := Finite(0);
        break;
      }
      guard := [imgs[j]] + guard;
      weight := weight + |imgs[j]|;
      remaining := Minus(remaining, 1);
    }
    if !Positive(remaining) {
      KeepNone(imgs[..j], imgs[j..] + later, k + |guard|, remaining, weight, max, budget);
    }
    CutJoin(imgs, j, later);
    CutJoin(imgs, 0, later);
  }

  lemma OneBack<T>(s: seq<T>, j: nat, later: seq<T>)
    requires j < |s|
    ensures s[j..] + later == [s[j]] + (s[j + 1..] + later)
  {}

  lemma CutJoin<T>(s: seq<T>, j: nat, later: seq<T>)
    requires j <= |s|
    ensures s + later == s[..j] + (s[j..] + later)
    ensures j == 0 ==> s + later == s[j..] + later
  {}

  lemma LastGrows(images: seq<string>, k: nat)
    requires k < |images|
    ensures Last(images, k + 1) == [images[|images| - k - 1]] + Last(images, k)
  {
    OneBack(images, |images| - k - 1, []);
  }

  lemma FlattenStep<R>(msgs: seq<Message<R>>, i: nat)
    requires i < |msgs|
    ensures Flatten(msgs[i..]) == Images(msgs[i]) + Flatten(msgs[i + 1..])
    ensures Flatten(msgs[|msgs|..]) == []
  {
    assert msgs[i..][1..] == msgs[i + 1..];
  }

  /** One message in front of the trimmed ones. */
  lemma TrimStep<R>(msgs: seq<Message<R>>, i: nat, k: nat, keep: nat)
    requires i < |msgs| && k <= |Flatten(msgs[i + 1..])| && keep <= |Images(msgs[i])|
    requires k < |Flatten(msgs[i + 1..])| ==> keep == 0
    ensures k + keep <= |Flatten(msgs[i..])|
    ensures TrimmedAll(msgs[i..], k + keep) == [Trimmed(msgs[i], keep)] + TrimmedAll(msgs[i + 1..], k)
  {
    hide Trimmed, Images;
    FlattenStep(msgs, i);
    assert msgs[i..][1..] == msgs[i + 1..];
    if k == |Flatten(msgs[i + 1..])| {
      TrimNothing(msgs[i + 1..]);
    }
  }

  /** Keeping every image changes nothing. */
  lemma {:induction false} TrimNothing<R>(msgs: seq<Message<R>>)
    ensures TrimmedAll(msgs, |Flatten(msgs)|) == msgs
  {
    if msgs != [] {
      assert Last(Images(msgs[0]), |Images(msgs[0])|) == Images(msgs[0]);
      assert [msgs[0]] + msgs[1..] == msgs;
    }
  }

  /** The last images of the thread, as many as both bounds allow, stay where they were; every other
      image goes, and nothing else changes. */
  method RecentImagesOf<R>(msgs: seq<Message<R>>, max: Bound, budget: Bound) returns (out: seq<Message<R>>)
    ensures exists k: nat :: k <= |Flatten(msgs)| && LongestSuffix(Flatten(msgs), k, max, budget) && out == TrimmedAll(msgs, k)
  {
    hide Kept, Flatten, TrimmedAll, Images;
    out := msgs;
    ghost var k: nat := 0;
    var remaining, weight := max, 0;
    var i := |msgs|;
    NothingYet<R>(max, budget);
    assert msgs[|msgs|..] == [];
    assert msgs[..i] + [] == msgs;
    while i > 0
      invariant 0 <= i <= |msgs| && k <= |Flatten(msgs[i..])|
      invariant Kept(Flatten(msgs[i..]), k, remaining, weight, max, budget)
      invariant out == msgs[..i] + TrimmedAll(msgs[i..], k)
    {
      i := i - 1;
      FlattenStep(msgs, i);
      var imgs := Images(msgs[i]);
      ghost var rest := TrimmedAll(msgs[i + 1..], k);
      var guard;
      guard, remaining, weight := KeepFrom(imgs, remaining, weight, max, budget, Flatten(msgs[i + 1..]), k);
      TrimStep(msgs, i, k, |guard|);
      k := k + |guard|;
      if imgs != [] {
        out := out[i := out[i].(images := if guard == [] then None else Some(guard))];
      }
      assert out == msgs[..i] + ([Trimmed(msgs[i], |guard|)] + rest);
    }
    assert msgs[0..] == msgs && msgs[..0] + TrimmedAll(msgs, k) == TrimmedAll(msgs, k);
    KeptIsLongest(Flatten(msgs), k, remaining, weight, max, budget);
  }

  lemma NothingYet<R>(max: Bound, budget: Bound)
    ensures Flatten<R>([]) == [] && TrimmedAll<R>([], 0) == [] && Kept([], 0, max, 0, max, budget)
  {}

  lemma KeptIsLongest(images: seq<string>, k: nat, remaining: Bound, weight: nat, max: Bound, budget: Bound)
    requires Kept(images, k, remaining, weight, max, budget)
    ensures LongestSuffix(images, k, max, budget)
  {}

  lemma LastOfJoin(a: seq<string>, b: seq<string>, k: nat)
    requires k <= |a + b|
    ensures Last(a + b, k) == if k >= |b| then Last(a, k - |b|) + b else Last(b, k)
  {}

  lemma TrimmedImages<R>(m: Message<R>, keep: nat)
    requires keep <= |Images(m)|
    ensures Images(Trimmed(m, keep)) == Last(Images(m), keep) && Trimmed(m, keep).rest == m.rest
    ensures Images(m) == [] ==> Trimmed(m, keep) == m
  {}

  lemma FlattenCons<R>(m: Message<R>, msgs: seq<Message<R>>)
    ensures Flatten([m] + msgs) == Images(m) + Flatten(msgs)
  {
    assert ([m] + msgs)[1..] == msgs;
  }

  /** What the trimmed thread shows: exactly the last `k` images, in order, and the same texts. */
  lemma {:induction false} TrimmedShowsLast<R>(msgs: seq<Message<R>>, k: nat)
    requires k <= |Flatten(msgs)|
    ensures var out := TrimmedAll(msgs, k);
      && Flatten(out) == Last(Flatten(msgs), k)
      && |out| == |msgs|
      && forall i :: 0 <= i < |msgs| ==> out[i].rest == msgs[i].rest && (Images(msgs[i]) == [] ==> out[i] == msgs[i])
  {
    hide Images, Trimmed;
    if msgs == [] {
      assert Last(Flatten(msgs), k) == [];
    } else {
      var later := |Flatten(msgs[1..])|;
      var keep := if k >= later then k - later else 0;
      var tail := if k >= later then msgs[1..] else TrimmedAll(msgs[1..], k);
      LastOfJoin(Images(msgs[0]), Flatten(msgs[1..]), k);
      TrimmedImages(msgs[0], keep);
      FlattenCons(Trimmed(msgs[0], keep), tail);
      if k < later {
        TrimmedShowsLast(msgs[1..], k);
        assert Last(Images(msgs[0]), 0) == [];
      }
    }
  }
}
