/** The microphone listener of the voice mode: energy against an adaptive noise floor decides where
    the user's sentences start and end. Durations and levels are reals. */
module VoiceActivity {
  import opened Wrappers

  const PREROLL_MS := 350.0
  const START_MS := 120.0
  const START_MS_GUARDED := 300.0
  const END_SILENCE_MS := 800.0
  const CONFIRM_MS := 700.0
  const MIN_UTTERANCE_MS := 350.0
  const MAX_UTTERANCE_MS := 30_000.0

  /** One audio frame: its number in the stream, its loudness and its duration. */
  datatype Frame = Frame(no: nat, rms: real, ms: real)

  /** A frame, and the switches as they are when it arrives. */
  datatype Input = Input(frame: Frame, muted: bool, guard: bool)

  /** What the listener tells, and the frames dropped because the microphone is muted. */
  datatype Event = Start | Confirm | End(audio: Option<seq<Frame>>, confirmed: bool) | Muted

  datatype State = State(pre: seq<Frame>, utt: Option<seq<Frame>>, noise: real, loudMs: real, quietMs: real,
                         uttMs: real, confirmed: bool)

  const INITIAL := State([], None, 0.004, 0.0, 0.0, 0.0, false)

  function Threshold(noise: real, guard: bool): real {
    var plain := if noise * 3.0 > 0.012 then noise * 3.0 else 0.012;
    if guard then plain * 2.2 else plain
  }

  function Duration(frames: seq<Frame>): real {
    if frames == [] then 0.0 else frames[0].ms + Duration(frames[1..])
  }

  /** Drops the oldest frames until the pre-roll is short enough; one frame always stays. */
  function Preroll(frames: seq<Frame>): seq<Frame> {
    if |frames| > 1 && Duration(frames) > PREROLL_MS then Preroll(frames[1..]) else frames
  }

  /** The state after a frame, and what is told. */
  ghost function Step(s: State, i: Input): (State, seq<Event>) {
    if i.muted then (s.(utt := None, loudMs := 0.0), [Muted])
    else
      var loud := i.frame.rms > Threshold(s.noise, i.guard);
      match s.utt
      case None => StepQuiet(s, i, loud)
      case Some(frames) => StepSpeaking(s, i, loud, frames)
  }

  ghost function StepQuiet(s: State, i: Input, loud: bool): (State, seq<Event>) {
    var noise := if loud then s.noise else s.noise * 0.97 + i.frame.rms * 0.03;
    var pre := Preroll(s.pre + [i.frame]);
    var loudMs := if loud then s.loudMs + i.frame.ms else 0.0;
    if loudMs >= (if i.guard then START_MS_GUARDED else START_MS)
    then (State([], Some(pre), noise, loudMs, 0.0, loudMs + PREROLL_MS, false), [Start])
    else (s.(pre := pre, noise := noise, loudMs := loudMs), [])
  }

  ghost function StepSpeaking(s: State, i: Input, loud: bool, frames: seq<Frame>): (State, seq<Event>) {
    var utt := frames + [i.frame];
    var uttMs := s.uttMs + i.frame.ms;
    var quietMs := if loud then 0.0 else s.quietMs + i.frame.ms;
    var spoken := uttMs - quietMs;
    var now := !s.confirmed && spoken >= CONFIRM_MS;
    var confirmed := s.confirmed || now;
    var told := if now then [Confirm] else [];
    if quietMs >= END_SILENCE_MS || uttMs >= MAX_UTTERANCE_MS
    then (s.(utt := None, loudMs := 0.0, quietMs := quietMs, uttMs := uttMs, confirmed := confirmed),
          told + [End(if spoken >= MIN_UTTERANCE_MS then Some(utt) else None, confirmed)])
    else (s.(utt := Some(utt), quietMs := quietMs, uttMs := uttMs, confirmed := confirmed), told)
  }

  /** The listener's own fields. Each frame returns the callbacks it made, in order. */
  class MicListener {
    var muted: bool
    var guard: bool
    var pre: seq<Frame>
    var utt: Option<seq<Frame>>
    var noise: real
    var loudMs: real
    var quietMs: real
    var uttMs: real
    var confirmed: bool

    ghost function Current(): State
      reads this
    {
      State(pre, utt, noise, loudMs, quietMs, uttMs, confirmed)
    }

    constructor ()
      ensures Current() == INITIAL && !muted && !guard
    {
      muted, guard := false, false;
      pre, utt, noise := [], None, 0.004;
      loudMs, quietMs, uttMs, confirmed := 0.0, 0.0, 0.0, false;
    }

    method Process(frame: Frame) returns (told: seq<Event>)
      modifies this
      ensures (Current(), told) == Step(old(Current()), Input(frame, muted, guard))
      ensures muted == old(muted) && guard == old(guard)
    {
      hide StepQuiet, StepSpeaking;
      if muted {
        utt := None;
        loudMs := 0.0;
        return [Muted];
      }
      var loud := frame.rms > Threshold(noise, guard);
      if utt.None? {
        told := WaitForSpeech(frame, loud);
      } else {
        told := FollowSpeech(frame, loud);
      }
    }

    /** No utterance is open: follow the room, keep the pre-roll, and start after enough loudness. */
    method WaitForSpeech(frame: Frame, loud: bool) returns (told: seq<Event>)
      requires utt.None?
      modifies this
      ensures (Current(), told) == StepQuiet(old(Current()), Input(frame, muted, guard), loud)
      ensures muted == old(muted) && guard == old(guard)
    {
      hide Preroll, Duration;
      told := [];
      if !loud {
        noise := noise * 0.97 + frame.rms * 0.03;
      }
      pre := CutPreroll(pre + [frame]);
      loudMs := if loud then loudMs + frame.ms else 0.0;
      if loudMs >= (if guard then START_MS_GUARDED else START_MS) {
        utt := Some(pre);
        pre := [];
        quietMs := 0.0;
        uttMs := loudMs + PREROLL_MS;
        confirmed := false;
        told := [Start];
      }
    }

    /** An utterance is open: grow it, confirm it once, and end it on silence or at full length. */
    method FollowSpeech(frame: Frame, loud: bool) returns (told: seq<Event>)
      requires utt.Some?
      modifies this
      ensures (Current(), told) == StepSpeaking(old(Current()), Input(frame, muted, guard), loud, old(utt.value))
      ensures muted == old(muted) && guard == old(guard)
    {
      told := [];
      utt := Some(utt.value + [frame]);
      uttMs := uttMs + frame.ms;
      quietMs := if loud then 0.0 else quietMs + frame.ms;
      if !confirmed && uttMs - quietMs >= CONFIRM_MS {
        confirmed := true;
        told := [Confirm];
      }
      if quietMs >= END_SILENCE_MS || uttMs >= MAX_UTTERANCE_MS {
        var chunks := utt.value;
        var spoken := uttMs - quietMs;
        utt := None;
        loudMs := 0.0;
        told := told + [End(if spoken >= MIN_UTTERANCE_MS then Some(chunks) else None, confirmed)];
      }
    }
  }

  method CutPreroll(frames: seq<Frame>) returns (pre: seq<Frame>)
    ensures pre == Preroll(frames)
  {
    pre := frames;
    while |pre| > 1 && Duration(pre) > PREROLL_MS
      invariant Preroll(pre) == Preroll(frames)
      decreases |pre|
    {
      pre := pre[1..];
    }
  }

  // ---------------------------------------------------------------- every run

  ghost function After(inputs: seq<Input>): State {
    if inputs == [] then INITIAL else Step(After(inputs[..|inputs| - 1]), inputs[|inputs| - 1]).0
  }

  /** Everything told along a run. */
  ghost function Told(inputs: seq<Input>): seq<Event> {
    if inputs == [] then []
    else Told(inputs[..|inputs| - 1]) + Step(After(inputs[..|inputs| - 1]), inputs[|inputs| - 1]).1
  }

  ghost predicate Timed(inputs: seq<Input>) { forall i :: i in inputs ==> i.frame.ms > 0.0 }

  /** Where a listener of the events stands: nothing heard, a start, a confirmed start. */
  datatype Phase = Idle | Heard | Sure

  /** The order of the callbacks: a start; then at most one confirmation; then an end that carries
      audio and says whether there was one; muting ends anything without a word. */
  ghost function Expect(p: Phase, e: Event): Option<Phase> {
    match e
    case Muted => Some(Idle)
    case Start => if p.Idle? then Some(Heard) else None
    case Confirm => if p.Heard? then Some(Sure) else None
    case End(audio, confirmed) => if p.Idle? || confirmed != p.Sure? || audio.None? then None else Some(Idle)
  }

  ghost function Follow(p: Option<Phase>, events: seq<Event>): Option<Phase> {
    if events == [] then p
    else
      match Follow(p, events[..|events| - 1])
      case None => None
      case Some(q) => Expect(q, events[|events| - 1])
  }

  lemma {:induction false} FollowAppend(p: Option<Phase>, a: seq<Event>, b: seq<Event>)
    ensures Follow(p, a + b) == Follow(Follow(p, a), b)
  {
    if b == [] {
      assert a + b == a;
    } else {
      FollowAppend(p, a, b[..|b| - 1]);
      assert (a + b)[..|a + b| - 1] == a + b[..|b| - 1];
    }
  }

  /** The frames heard while not muted. */
  ghost function Unmuted(inputs: seq<Input>): seq<Frame> {
    if inputs == [] then []
    else
      var before, i := Unmuted(inputs[..|inputs| - 1]), inputs[|inputs| - 1];
      if i.muted then before else before + [i.frame]
  }

  ghost predicate Suffix(part: seq<Frame>, whole: seq<Frame>) {
    |part| <= |whole| && part == whole[|whole| - |part|..]
  }

  ghost function PhaseOf(s: State): Phase {
    if s.utt.None? then Idle else if s.confirmed then Sure else Heard
  }

  /** What the fields keep between frames. */
  ghost predicate Consistent(s: State, heard: seq<Frame>) {
    && s.loudMs >= 0.0
    && Suffix(s.pre, heard)
    && match s.utt
       case None => true
       case Some(frames) =>
         && frames != [] && Suffix(frames, heard)
         && 0.0 <= s.quietMs < END_SILENCE_MS
         && s.uttMs - s.quietMs >= START_MS + PREROLL_MS
         && (s.confirmed ==> s.uttMs - s.quietMs >= CONFIRM_MS)
  }

  lemma SuffixSnoc(part: seq<Frame>, whole: seq<Frame>, f: Frame)
    requires Suffix(part, whole)
    ensures Suffix(part + [f], whole + [f])
  {}

  lemma SuffixOfSuffix(a: seq<Frame>, b: seq<Frame>, whole: seq<Frame>)
    requires Suffix(a, b) && Suffix(b, whole)
    ensures Suffix(a, whole)
  {}

  lemma NoSuffix(whole: seq<Frame>)
    ensures Suffix([], whole)
  {}

  /** The pre-roll is the end of what was heard, and never empty. */
  lemma {:induction false} PrerollIsSuffix(frames: seq<Frame>)
    ensures Suffix(Preroll(frames), frames) && (frames != [] ==> Preroll(frames) != [])
  {
    hide Duration;
    if |frames| > 1 && Preroll(frames) != frames {
      PrerollIsSuffix(frames[1..]);
    }
  }

  lemma FollowFew(p: Phase, e: Event, f: Event)
    ensures Follow(Some(p), []) == Some(p) && Follow(Some(p), [e]) == Expect(p, e)
    ensures Follow(Some(p), [e, f]) == match Expect(p, e) case None => None case Some(q) => Expect(q, f)
  {
    assert [e][..0] == [];
    assert [e, f][..1] == [e];
  }

  lemma StepQuietKeeps(s: State, i: Input, loud: bool, heard: seq<Frame>)
    requires Consistent(s, heard) && s.utt.None? && i.frame.ms > 0.0
    ensures var (s', told) := StepQuiet(s, i, loud);
      Consistent(s', heard + [i.frame]) && Follow(Some(PhaseOf(s)), told) == Some(PhaseOf(s'))
  {
    hide Preroll, Follow, Suffix;
    SuffixSnoc(s.pre, heard, i.frame);
    PrerollIsSuffix(s.pre + [i.frame]);
    SuffixOfSuffix(Preroll(s.pre + [i.frame]), s.pre + [i.frame], heard + [i.frame]);
    NoSuffix(heard + [i.frame]);
    FollowFew(PhaseOf(s), Start, Start);
  }

  lemma StepSpeakingKeeps(s: State, i: Input, loud: bool, frames: seq<Frame>, heard: seq<Frame>)
    requires Consistent(s, heard) && s.utt == Some(frames) && s.pre == [] && i.frame.ms > 0.0
    ensures var (s', told) := StepSpeaking(s, i, loud, frames);
      && Consistent(s', heard + [i.frame]) && s'.pre == []
      && Follow(Some(PhaseOf(s)), told) == Some(PhaseOf(s'))
      && forall e :: e in told && e.End? ==> e.audio == Some(frames + [i.frame])
  {
    hide Follow, Suffix;
    SuffixSnoc(frames, heard, i.frame);
    NoSuffix(heard + [i.frame]);
    var told := StepSpeaking(s, i, loud, frames).1;
    FollowFew(PhaseOf(s), Confirm, Confirm);
    if told != [] {
      FollowFew(PhaseOf(s), told[0], told[|told| - 1]);
      FollowFew(PhaseOf(s), Confirm, told[|told| - 1]);
      assert |told| == 1 ==> told == [told[0]];
      assert |told| == 2 ==> told == [Confirm, told[1]];
    }
  }

  /** One step keeps the fields consistent and the callbacks in order. */
  lemma StepKeeps(s: State, i: Input, heard: seq<Frame>)
    requires Consistent(s, heard) && (s.utt.Some? ==> s.pre == []) && i.frame.ms > 0.0
    ensures var (s', told) := Step(s, i);
      && Consistent(s', if i.muted then heard else heard + [i.frame]) && (s'.utt.Some? ==> s'.pre == [])
      && Follow(Some(PhaseOf(s)), told) == Some(PhaseOf(s'))
  {
    hide StepQuiet, StepSpeaking;
    if i.muted {
      assert [Muted][..0] == [];
    } else {
      var loud := i.frame.rms > Threshold(s.noise, i.guard);
      match s.utt
      case None =>
        StepQuietKeeps(s, i, loud, heard);
        StartTakesPreroll(s, i, loud);
      case Some(frames) => StepSpeakingKeeps(s, i, loud, frames, heard);
    }
  }

  lemma StartTakesPreroll(s: State, i: Input, loud: bool)
    requires s.utt.None?
    ensures var s' := StepQuiet(s, i, loud).0; s'.utt.Some? ==> s'.pre == []
  {}

  lemma NothingHeard()
    ensures Follow(Some(Idle), []) == Some(PhaseOf(INITIAL)) && Consistent(INITIAL, [])
  {}

  /** Over every frame sequence the callbacks keep their order, and the fields say where they are. */
  lemma {:induction false} CallbacksInOrder(inputs: seq<Input>)
    requires Timed(inputs)
    ensures Follow(Some(Idle), Told(inputs)) == Some(PhaseOf(After(inputs)))
    ensures Consistent(After(inputs), Unmuted(inputs))
    ensures After(inputs).utt.Some? ==> After(inputs).pre == []
  {
    hide Step, Follow, Consistent;
    NothingHeard();
    if inputs != [] {
      var init, i := inputs[..|inputs| - 1], inputs[|inputs| - 1];
      CallbacksInOrder(init);
      StepKeeps(After(init), i, Unmuted(init));
      FollowAppend(Some(Idle), Told(init), Step(After(init), i).1);
    }
  }

  /** The audio of an end is an unbroken block of the frames heard unmuted, up to the last one. */
  lemma AudioIsRecent(inputs: seq<Input>, i: Input)
    requires Timed(inputs) && i.frame.ms > 0.0
    ensures forall e :: e in Step(After(inputs), i).1 && e.End? ==>
      e.audio.Some? && Suffix(e.audio.value, Unmuted(inputs) + [i.frame])
  {
    hide StepQuiet, StepSpeaking, After, Unmuted;
    CallbacksInOrder(inputs);
    var s := After(inputs);
    if !i.muted {
      var loud := i.frame.rms > Threshold(s.noise, i.guard);
      match s.utt
      case None => NoEndWithoutStart(s, i, loud);
      case Some(frames) =>
        StepSpeakingKeeps(s, i, loud, frames, Unmuted(inputs));
        SuffixSnoc(frames, Unmuted(inputs), i.frame);
    }
  }

  lemma NoEndWithoutStart(s: State, i: Input, loud: bool)
    ensures forall e :: e in StepQuiet(s, i, loud).1 ==> !e.End?
  {}

  // ---------------------------------------------------------------- frames from before a mute

  ghost function Last(frames: seq<Frame>, n: nat): seq<Frame>
    requires n <= |frames|
  {
    frames[|frames| - n..]
  }

  ghost predicate Positive(frames: seq<Frame>) { forall f :: f in frames ==> f.ms > 0.0 }

  lemma {:induction false} LastIsShorter(frames: seq<Frame>, n: nat)
    requires Positive(frames) && n < |frames|
    ensures Duration(Last(frames, n)) < Duration(frames)
    decreases |frames|
  {
    assert frames[0] in frames;
    if n < |frames| - 1 {
      LastIsShorter(frames[1..], n);
      assert Last(frames[1..], n) == Last(frames, n);
    }
  }

  /** The pre-roll reaches back exactly as long as its duration allows; one frame always stays. */
  lemma {:induction false} PrerollReaches(frames: seq<Frame>, n: nat)
    requires Positive(frames) && n > 0
    ensures |Preroll(frames)| > n <==> n < |frames| && Duration(Last(frames, n + 1)) <= PREROLL_MS
  {
    hide Duration;
    if |frames| > 1 {
      if Duration(frames) > PREROLL_MS {
        PrerollReaches(frames[1..], n);
        if n + 1 < |frames| {
          assert Last(frames[1..], n + 1) == Last(frames, n + 1);
        } else if n + 1 == |frames| {
          assert Last(frames, n + 1) == frames;
        }
      } else if n + 1 < |frames| {
        LastIsShorter(frames, n + 1);
      } else if n + 1 == |frames| {
        assert Last(frames, n + 1) == frames;
      }
    }
  }

  /** It lasts no longer than its bound, unless a single frame does. */
  lemma PrerollIsShort(frames: seq<Frame>)
    requires Positive(frames)
    ensures |Preroll(frames)| <= 1 || Duration(Preroll(frames)) <= PREROLL_MS
  {
    hide Duration, Preroll;
    PrerollIsSuffix(frames);
    if |Preroll(frames)| > 1 {
      PrerollReaches(frames, |Preroll(frames)| - 1);
    }
  }

  /** Cutting as frames arrive is cutting once. */
  lemma {:induction false} PrerollOnce(frames: seq<Frame>, f: Frame)
    requires Positive(frames + [f])
    ensures Preroll(Preroll(frames) + [f]) == Preroll(frames + [f])
  {
    hide Duration;
    if |frames| > 1 && Duration(frames) > PREROLL_MS {
      assert frames[1..] + [f] == (frames + [f])[1..];
      PrerollOnce(frames[1..], f);
      DurationSnoc(frames, f);
      assert f in frames + [f];
    }
  }

  lemma {:induction false} DurationSnoc(frames: seq<Frame>, f: Frame)
    ensures Duration(frames + [f]) == Duration(frames) + f.ms
  {
    if frames == [] {
      assert [] + [f] == [f] && [f][1..] == [];
    } else {
      DurationSnoc(frames[1..], f);
      assert (frames + [f])[1..] == frames[1..] + [f];
    }
  }

  /** The frames heard unmuted since the last utterance was over, up to the one that opens the next. */
  ghost function Waited(inputs: seq<Input>): seq<Frame> {
    if inputs == [] then []
    else
      var init, i := inputs[..|inputs| - 1], inputs[|inputs| - 1];
      if After(init).utt.Some? then [] else if i.muted then Waited(init) else Waited(init) + [i.frame]
  }

  /** The frames heard since the last mute. */
  ghost function SinceMute(inputs: seq<Input>): seq<Frame> {
    if inputs == [] || inputs[|inputs| - 1].muted then []
    else SinceMute(inputs[..|inputs| - 1]) + [inputs[|inputs| - 1].frame]
  }

  /** The length of the run when its last utterance opened. */
  ghost function Opened(inputs: seq<Input>): (n: nat)
    ensures n <= |inputs|
  {
    if inputs == [] || After(inputs[..|inputs| - 1]).utt.None? then |inputs| else Opened(inputs[..|inputs| - 1])
  }

  /** The frame heard last before the mute was heard after the last utterance, and it and what follows it up
      to the opening frame are short enough for the pre-roll. */
  ghost predicate ReachesBack(inputs: seq<Input>) {
    var waited, n := Waited(inputs), |SinceMute(inputs)|;
    n < |waited| && Duration(Last(waited, n + 1)) <= PREROLL_MS
  }

  /** The fields in terms of what was waited through and when the utterance opened. */
  ghost predicate Opens(inputs: seq<Input>) {
    var s := After(inputs);
    && Positive(Waited(inputs))
    && Suffix(SinceMute(inputs), Unmuted(inputs))
    && match s.utt
       case None => s.pre == Preroll(Waited(inputs))
       case Some(frames) =>
         var run := inputs[..Opened(inputs)];
         && SinceMute(run) != []
         && Positive(Waited(run))
         && |frames| - |SinceMute(inputs)| == |Preroll(Waited(run))| - |SinceMute(run)|
  }

  lemma PrerollNothing()
    ensures Preroll([]) == []
  {}

  lemma NothingWaited()
    ensures Opens([])
  {
    assert INITIAL.pre == [];
  }

  /** What the next input adds to the three sequences of frames. */
  lemma FramesGrow(inputs: seq<Input>, i: Input)
    ensures Unmuted(inputs + [i]) == if i.muted then Unmuted(inputs) else Unmuted(inputs) + [i.frame]
    ensures SinceMute(inputs + [i]) == if i.muted then [] else SinceMute(inputs) + [i.frame]
    ensures Waited(inputs + [i]) ==
      if After(inputs).utt.Some? then [] else if i.muted then Waited(inputs) else Waited(inputs) + [i.frame]
  {
    hide After;
    assert (inputs + [i])[..|inputs|] == inputs;
  }

  lemma OpenedGrows(inputs: seq<Input>, i: Input)
    ensures (inputs + [i])[..Opened(inputs + [i])] ==
      if After(inputs).utt.None? then inputs + [i] else inputs[..Opened(inputs)]
  {
    hide After;
    assert (inputs + [i])[..|inputs|] == inputs;
    assert (inputs + [i])[..|inputs + [i]|] == inputs + [i];
    assert (inputs + [i])[..Opened(inputs)] == inputs[..Opened(inputs)];
  }

  /** One more input keeps the fields described. */
  lemma OpensStep(inputs: seq<Input>, i: Input)
    requires Opens(inputs) && (After(inputs).utt.Some? ==> After(inputs).pre == []) && i.frame.ms > 0.0
    ensures Opens(inputs + [i])
  {
    hide Step, After, Waited, SinceMute, Opened, Unmuted, Suffix, Preroll;
    FramesGrow(inputs, i);
    OpenedGrows(inputs, i);
    OneMore(inputs, i);
    PrerollNothing();
    var s, s' := After(inputs), After(inputs + [i]);
    NoSuffix(Unmuted(inputs));
    SuffixSnoc(SinceMute(inputs), Unmuted(inputs), i.frame);
    FieldsStep(s, i);
    if !i.muted && s.utt.None? {
      PrerollOnce(Waited(inputs), i.frame);
    }
  }

  /** What a step does to the pre-roll and to the utterance. */
  lemma FieldsStep(s: State, i: Input)
    ensures var s' := Step(s, i).0;
      if i.muted then s'.utt == None && s'.pre == s.pre
      else match s.utt
        case None => s'.utt == Some(Preroll(s.pre + [i.frame])) || (s'.utt == None && s'.pre == Preroll(s.pre + [i.frame]))
        case Some(frames) => s'.pre == s.pre && (s'.utt == None || s'.utt == Some(frames + [i.frame]))
  {
    hide Preroll;
  }

  lemma TimedInit(inputs: seq<Input>)
    requires Timed(inputs) && inputs != []
    ensures Timed(inputs[..|inputs| - 1]) && inputs[|inputs| - 1].frame.ms > 0.0
  {
    assert inputs[|inputs| - 1] in inputs;
  }

  lemma {:induction false} OpensAlways(inputs: seq<Input>)
    requires Timed(inputs)
    ensures Opens(inputs)
  {
    hide Opens, Timed, After, Told, Unmuted, Follow, Consistent;
    NothingWaited();
    if inputs != [] {
      var init, i := inputs[..|inputs| - 1], inputs[|inputs| - 1];
      TimedInit(inputs);
      OpensAlways(init);
      CallbacksInOrder(init);
      OpensStep(init, i);
      assert init + [i] == inputs;
    }
  }

  lemma SuffixesNest(a: seq<Frame>, b: seq<Frame>, whole: seq<Frame>)
    requires Suffix(a, whole) && Suffix(b, whole) && |a| <= |b|
    ensures Suffix(a, b)
  {}

  lemma EndTakesUtterance(s: State, i: Input)
    ensures forall e :: e in Step(s, i).1 && e.End? ==>
      !i.muted && s.utt.Some? && (e.audio.Some? ==> e.audio == Some(s.utt.value + [i.frame]))
  {
    hide Threshold, Preroll;
  }

  lemma UtteranceReaches(inputs: seq<Input>)
    requires Opens(inputs) && After(inputs).utt.Some?
    ensures |After(inputs).utt.value| > |SinceMute(inputs)| <==> ReachesBack(inputs[..Opened(inputs)])
  {
    hide After, Waited, SinceMute, Opened, Unmuted, Preroll;
    var run := inputs[..Opened(inputs)];
    PrerollReaches(Waited(run), |SinceMute(run)|);
  }

  /** The audio of an end, over every run: it holds all that was heard since the last mute and frames from
      before it exactly when the opening reached back so far, and otherwise only frames heard since. */
  lemma OldAudio(inputs: seq<Input>, i: Input)
    requires Timed(inputs) && i.frame.ms > 0.0
    ensures forall e :: e in Step(After(inputs), i).1 && e.End? ==>
      && e.audio.Some?
      && var since := SinceMute(inputs + [i]);
      if ReachesBack(inputs[..Opened(inputs)])
      then |e.audio.value| > |since| && Suffix(since, e.audio.value)
      else Suffix(e.audio.value, since)
  {
    hide Step, After, Suffix, ReachesBack, Unmuted, SinceMute, Opened, Timed;
    OpensAlways(inputs);
    AudioIsRecent(inputs, i);
    EndTakesUtterance(After(inputs), i);
    FramesGrow(inputs, i);
    forall e | e in Step(After(inputs), i).1 && e.End?
      ensures var since := SinceMute(inputs + [i]);
        if ReachesBack(inputs[..Opened(inputs)])
        then |e.audio.value| > |since| && Suffix(since, e.audio.value)
        else Suffix(e.audio.value, since)
    {
      var since, heard := SinceMute(inputs + [i]), Unmuted(inputs) + [i.frame];
      UtteranceReaches(inputs);
      SuffixSnoc(SinceMute(inputs), Unmuted(inputs), i.frame);
      if |e.audio.value| > |since| {
        SuffixesNest(since, e.audio.value, heard);
      } else {
        SuffixesNest(e.audio.value, since, heard);
      }
    }
  }

  /** Unmuted is not contiguous: the pre-roll survives a mute, so a sentence may open with a frame
      from before it. */
  lemma StalePreroll() returns (inputs: seq<Input>)
    ensures Timed(inputs) && |inputs| == 3 && inputs[1].muted
    ensures After(inputs).utt == Some([inputs[0].frame, inputs[2].frame])
  {
    hide Step, After, Quiet;
    var first := Input(Frame(0, 0.0, 100.0), false, false);
    var mute := Input(Frame(1, 0.0, 100.0), true, false);
    var loud := Input(Frame(2, 1.0, 150.0), false, false);
    inputs := [first, mute, loud];
    NothingYet();
    OneMore([], first);
    OneMore([first], mute);
    OneMore([first, mute], loud);
    assert [] + [first] == [first] && [first] + [mute] == [first, mute] && [first, mute] + [loud] == inputs;
    QuietAtFirst();
    QuietStep(INITIAL, first.frame);
    MutedStep(After([first]), mute.frame);
    LoudStep(After([first, mute]), first.frame, loud.frame);
  }

  /** The room is quiet, and no louder than at first. */
  ghost predicate Quiet(s: State) { s.utt.None? && 0.0 <= s.noise <= 0.004 && s.loudMs == 0.0 }

  lemma QuietAtFirst()
    ensures Quiet(INITIAL)
  {}

  lemma QuietStep(s: State, f: Frame)
    requires Quiet(s) && s.pre == [] && f.rms == 0.0
    ensures Quiet(Step(s, Input(f, false, false)).0) && Step(s, Input(f, false, false)).0.pre == [f]
  {
    hide StepSpeaking, Duration;
    assert [] + [f] == [f];
  }

  lemma MutedStep(s: State, f: Frame)
    requires Quiet(s)
    ensures Quiet(Step(s, Input(f, true, false)).0) && Step(s, Input(f, true, false)).0.pre == s.pre
  {
    hide StepQuiet, StepSpeaking;
  }

  lemma LoudStep(s: State, f: Frame, g: Frame)
    requires Quiet(s) && s.pre == [f] && g.rms == 1.0 && g.ms >= START_MS && f.ms + g.ms <= PREROLL_MS
    ensures Step(s, Input(g, false, false)).0.utt == Some([f, g])
  {
    hide StepSpeaking;
    assert [f] + [g] == [f, g] && [f, g][1..] == [g] && [g][1..] == [];
    assert Duration([g]) == g.ms && Duration([f, g]) == f.ms + Duration([g]);
    assert Preroll([f, g]) == [f, g];
  }

  lemma NothingYet()
    ensures After([]) == INITIAL
  {}

  lemma OneMore(inputs: seq<Input>, i: Input)
    ensures After(inputs + [i]) == Step(After(inputs), i).0
  {
    hide Step;
    assert (inputs + [i])[..|inputs|] == inputs;
  }
}
