/** When the microphone listener reports something, said of what was heard. */
module VoiceTimes {
  import opened Wrappers
  import opened VoiceActivity

  // ---------------------------------------------------------------- the room, and what is loud in it

  /** The floor that follows these quiet frames: each counts for three hundredths. */
  ghost function Floor(quiet: seq<Frame>): real {
    if quiet == [] then 0.004 else Floor(quiet[..|quiet| - 1]) * 0.97 + quiet[|quiet| - 1].rms * 0.03
  }

  /** The quiet frames heard while nobody was speaking. */
  ghost function Room(inputs: seq<Input>): seq<Frame>
    decreases |inputs|, 0
  {
    if inputs == [] then []
    else
      var init, i := inputs[..|inputs| - 1], inputs[|inputs| - 1];
      if i.muted || After(init).utt.Some? || IsLoud(init, i) then Room(init) else Room(init) + [i.frame]
  }

  /** Louder than three times the floor of the room and than 0.012, and more than twice that under guard. */
  ghost predicate IsLoud(inputs: seq<Input>, i: Input)
    decreases |inputs|, 1
  {
    var floor := Floor(Room(inputs));
    i.frame.rms > (if 3.0 * floor > 0.012 then 3.0 * floor else 0.012) * (if i.guard then 2.2 else 1.0)
  }

  // ---------------------------------------------------------------- three durations

  /** How long it has been loud without a break, with nobody speaking yet. */
  ghost function LoudFor(inputs: seq<Input>): real {
    if inputs == [] then 0.0
    else
      var init, i := inputs[..|inputs| - 1], inputs[|inputs| - 1];
      if i.muted || After(init).utt.Some? || !IsLoud(init, i) then 0.0 else LoudFor(init) + i.frame.ms
  }

  /** How long it has been quiet without a break since the speaker began. */
  ghost function QuietFor(inputs: seq<Input>): real {
    if inputs == [] then 0.0
    else
      var init, i := inputs[..|inputs| - 1], inputs[|inputs| - 1];
      if After(init).utt.None? || IsLoud(init, i) then 0.0 else QuietFor(init) + i.frame.ms
  }

  /** How long the speaker has been heard, the loudness that opened and the pre-roll included. */
  ghost function HeardFor(inputs: seq<Input>): real {
    if inputs == [] then 0.0
    else
      var init, i := inputs[..|inputs| - 1], inputs[|inputs| - 1];
      if After(init).utt.None? then LoudFor(inputs) + PREROLL_MS else HeardFor(init) + i.frame.ms
  }

  /** The speaker was heard, and not just at the opening, for long enough: the quiet at the end not counted. */
  ghost predicate LongHeard(inputs: seq<Input>) {
    inputs != [] &&
    var init := inputs[..|inputs| - 1];
    After(init).utt.Some? && (LongHeard(init) || HeardFor(inputs) - QuietFor(inputs) >= 700.0)
  }

  /** The fields hold these durations. */
  ghost predicate Counted(inputs: seq<Input>) {
    var s := After(inputs);
    && s.noise == Floor(Room(inputs))
    && (s.utt.None? ==> s.loudMs == LoudFor(inputs))
    && (s.utt.Some? ==>
          s.quietMs == QuietFor(inputs) && s.uttMs == HeardFor(inputs) && s.confirmed == LongHeard(inputs))
  }

  lemma NothingCounted()
    ensures Counted([])
  {}

  /** What one more input adds. */
  lemma CountsGrow(inputs: seq<Input>, i: Input)
    ensures var next, idle := inputs + [i], After(inputs).utt.None?;
      && After(next) == Step(After(inputs), i).0
      && Room(next) == (if i.muted || !idle || IsLoud(inputs, i) then Room(inputs) else Room(inputs) + [i.frame])
      && LoudFor(next) == (if i.muted || !idle || !IsLoud(inputs, i) then 0.0 else LoudFor(inputs) + i.frame.ms)
      && QuietFor(next) == (if idle || IsLoud(inputs, i) then 0.0 else QuietFor(inputs) + i.frame.ms)
      && HeardFor(next) == (if idle then LoudFor(next) + PREROLL_MS else HeardFor(inputs) + i.frame.ms)
      && (LongHeard(next) <==> !idle && (LongHeard(inputs) || HeardFor(next) - QuietFor(next) >= 700.0))
  {
    hide Step, IsLoud;
    assert (inputs + [i])[..|inputs|] == inputs;
  }

  lemma FloorSnoc(quiet: seq<Frame>, f: Frame)
    ensures Floor(quiet + [f]) == Floor(quiet) * 0.97 + f.rms * 0.03
  {
    assert (quiet + [f])[..|quiet|] == quiet;
  }

  lemma LoudIs(inputs: seq<Input>, i: Input)
    requires Counted(inputs)
    ensures i.frame.rms > Threshold(After(inputs).noise, i.guard) <==> IsLoud(inputs, i)
  {
    hide After, LoudFor, QuietFor, HeardFor, LongHeard, Floor, Room;
  }

  /** What each input is answered with. */
  ghost predicate Reports(inputs: seq<Input>, i: Input) {
    var told, next, idle := Step(After(inputs), i).1, inputs + [i], After(inputs).utt.None?;
    && (Muted in told <==> i.muted)
    && (Start in told <==> !i.muted && idle && LoudFor(next) >= if i.guard then 300.0 else 120.0)
    && (Confirm in told <==> !i.muted && !idle && !LongHeard(inputs) && HeardFor(next) - QuietFor(next) >= 700.0)
    && ((exists e :: e in told && e.End?) <==> !i.muted && !idle && (QuietFor(next) >= 800.0 || HeardFor(next) >= 30_000.0))
  }

  lemma OneStep(inputs: seq<Input>, i: Input)
    requires Counted(inputs)
    ensures Counted(inputs + [i])
    ensures Reports(inputs, i)
  {
    hide After, LoudFor, QuietFor, HeardFor, LongHeard, Floor, Room, IsLoud, Threshold, Preroll;
    CountsGrow(inputs, i);
    LoudIs(inputs, i);
    FloorSnoc(Room(inputs), i.frame);
    var s := After(inputs);
    if !i.muted && s.utt.Some? {
      var told := Step(s, i).1;
      var n := |told|;
      assert n > 0 ==> told[n - 1] in told;
    }
  }

  /** Over every run: a start exactly when it has been loud for 120 ms, 300 under guard; a confirmation once the
      speaker was heard for 700 ms; an end exactly after 800 ms of unbroken quiet, or at 30 seconds. */
  lemma {:induction false} ReportsInTime(inputs: seq<Input>, i: Input)
    ensures Counted(inputs) && Reports(inputs, i)
  {
    hide Counted, Reports;
    NothingCounted();
    if inputs != [] {
      var init, last := inputs[..|inputs| - 1], inputs[|inputs| - 1];
      ReportsInTime(init, last);
      OneStep(init, last);
      assert init + [last] == inputs;
    }
    OneStep(inputs, i);
  }
}
