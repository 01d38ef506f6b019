/** The voice table of the software mixer in src/wpl/wplMixer.c, a reformatted copy of
    the voice functions of src/wpl/thirdparty/sts_mixer.h (lines 109-237): a fixed
    array of voices, each stopped, playing a sample or playing a stream, filled by the
    play calls and cleared by the stop calls. */
module Mixer {
  import opened Wrappers

  /** `mixer->frequency` after initialisation, in Hz. */
  const FREQUENCY: nat := 44100

  /** The clamp bounds of the play call: the pitch cannot reach 0, and the pan, which
      the caller gives in -1..1, is halved into -0.5..0.5. */
  const MIN_PITCH: real := 0.1
  const MAX_PITCH: real := 10.0
  const MIN_PAN: real := -0.5
  const MAX_PAN: real := 0.5

  /** `wMixer_VoiceStopped`, `wMixer_VoicePlaying`, `wMixer_VoiceStreaming`. */
  datatype VoiceState = Stopped | Playing | Streaming

  /** wMixerVoice (src/wpl/wpl.h:237-246). The sample and stream pointers are
      addresses, None being NULL; the mixer only stores and compares them. */
  datatype Voice = Voice(state: VoiceState, sample: Option<nat>, stream: Option<nat>,
                         position: real, gain: real, pitch: real, pan: real)

  /** A voice as `stmResetVoice` leaves it. */
  const SILENT: Voice := Voice(Stopped, None, None, 0.0, 0.0, 0.0, 0.0)

  /** stmClamp (src/wpl/wplMixer.c:22-28): the value, or the bound it lies beyond. */
  function Clamp(value: real, min: real, max: real): (r: real)
    ensures r == value || r == min || r == max
    ensures min <= value <= max ==> r == value
    ensures min <= max ==> min <= r <= max
  {
    if value < min then min else if value > max then max else value
  }

  /** The voice `wMixerPlaySample` writes (src/wpl/wplMixer.c:102-109). */
  function SampleVoice(sample: Option<nat>, gain: real, pitch: real, pan: real): (v: Voice)
    ensures v.state == Playing && v.sample == sample && v.stream == None
    ensures v.position == 0.0 && v.gain == gain
    ensures MIN_PITCH <= v.pitch <= MAX_PITCH && MIN_PAN <= v.pan <= MAX_PAN
    ensures MIN_PITCH <= pitch <= MAX_PITCH ==> v.pitch == pitch
    ensures MIN_PAN <= pan * 0.5 <= MAX_PAN ==> v.pan == pan * 0.5
  {
    Voice(Playing, sample, None, 0.0, gain, Clamp(pitch, MIN_PITCH, MAX_PITCH),
          Clamp(pan * 0.5, MIN_PAN, MAX_PAN))
  }

  /** The voice `wMixerPlayStream` makes of the free voice `v`
      (src/wpl/wplMixer.c:119-124): pitch and pan are not written. */
  function StreamVoice(v: Voice, stream: Option<nat>, gain: real): (w: Voice)
    ensures w.state == Streaming && w.sample == None && w.stream == stream
    ensures w.position == 0.0 && w.gain == gain
    ensures w.pitch == v.pitch && w.pan == v.pan
  {
    v.(state := Streaming, sample := None, stream := stream, position := 0.0, gain := gain)
  }

  // ------------------------------------------------------------------
  // The voice table as a sequence

  /** stmFindFreeVoice (src/wpl/wplMixer.c:57-66): the lowest stopped voice, or -1. */
  function FirstFree(vs: seq<Voice>): (i: int)
    ensures i == -1 <==> forall j :: 0 <= j < |vs| ==> vs[j].state != Stopped
    ensures i != -1 ==> 0 <= i < |vs| && vs[i].state == Stopped
                        && forall j :: 0 <= j < i ==> vs[j].state != Stopped
  {
    if |vs| == 0 then -1
    else if vs[0].state == Stopped then 0
    else
      var i := FirstFree(vs[1..]);
      assert forall j :: 1 <= j < |vs| ==> vs[j] == vs[1..][j - 1];
      if i == -1 then -1 else i + 1
  }

  function Active(v: Voice): nat {
    if v.state != Stopped then 1 else 0
  }

  /** The number of voices that play a sample or a stream, counted as the loop of
      `wMixerGetActiveVoices` counts them. */
  function ActiveCount(vs: seq<Voice>): (n: nat)
    ensures n <= |vs|
  {
    if |vs| == 0 then 0 else ActiveCount(vs[..|vs| - 1]) + Active(vs[|vs| - 1])
  }

  /** The positions of the voices that are not stopped. */
  function ActiveSet(vs: seq<Voice>): set<int> {
    set i | 0 <= i < |vs| && vs[i].state != Stopped
  }

  /** The count is the number of voices that are not stopped. */
  lemma {:induction false} ActiveCountIsSize(vs: seq<Voice>)
    ensures ActiveCount(vs) == |ActiveSet(vs)|
  {
    if |vs| > 0 {
      var init := vs[..|vs| - 1];
      var last := |vs| - 1;
      ActiveCountIsSize(init);
      ActiveSetSnoc(vs);
      assert last !in ActiveSet(init);
    }
  }

  /** Appending a voice adds its position to the set exactly when it is not stopped. */
  lemma ActiveSetSnoc(vs: seq<Voice>)
    requires |vs| > 0
    ensures ActiveSet(vs) == ActiveSet(vs[..|vs| - 1])
      + (if vs[|vs| - 1].state != Stopped then {|vs| - 1} else {})
  {
    var init := vs[..|vs| - 1];
    forall i | 0 <= i < |init|
      ensures init[i] == vs[i]
    {
    }
  }

  /** Replacing one voice changes the count by what that voice contributes. */
  lemma {:induction false} ActiveCountUpdate(vs: seq<Voice>, i: int, v: Voice)
    requires 0 <= i < |vs|
    ensures ActiveCount(vs[i := v]) + Active(vs[i]) == ActiveCount(vs) + Active(v)
  {
    var last := |vs| - 1;
    var init := vs[..last];
    assert vs[i := v][..last] == if i == last then init else init[i := v];
    if i < last {
      ActiveCountUpdate(init, i, v);
    }
  }

  /** A play fills a stopped voice, so the count rises by exactly one. */
  lemma PlayRaisesActive(vs: seq<Voice>, i: int, v: Voice)
    requires 0 <= i < |vs| && vs[i].state == Stopped && v.state != Stopped
    ensures ActiveCount(vs[i := v]) == ActiveCount(vs) + 1
  {
    ActiveCountUpdate(vs, i, v);
  }

  /** Stopping a playing voice lowers the count by exactly one; stopping a stopped
      voice leaves it. */
  lemma StopLowersActive(vs: seq<Voice>, i: int)
    requires 0 <= i < |vs|
    ensures ActiveCount(vs[i := SILENT]) == ActiveCount(vs) - Active(vs[i])
  {
    ActiveCountUpdate(vs, i, SILENT);
  }

  /** Which pointer a stop call compares: `wMixerStopSample` the sample pointer,
      `wMixerStopStream` the stream pointer. */
  datatype Kind = SampleKind | StreamKind

  function Field(v: Voice, key: Kind): Option<nat> {
    if key == StreamKind then v.stream else v.sample
  }

  /** Every voice whose pointer of the given kind equals `p` reset, as the loops of
      `wMixerStopSample` and `wMixerStopStream` do. */
  function StopMatching(vs: seq<Voice>, key: Kind, p: Option<nat>): (r: seq<Voice>)
    ensures |r| == |vs|
  {
    seq(|vs|, i requires 0 <= i < |vs| => if Field(vs[i], key) == p then SILENT else vs[i])
  }

  /** After a stop, every voice that still holds the pointer is stopped, and every
      voice that did not hold it is as it was. */
  lemma StopMatchingEffect(vs: seq<Voice>, key: Kind, p: Option<nat>)
    ensures forall i :: 0 <= i < |vs| && Field(StopMatching(vs, key, p)[i], key) == p ==>
              StopMatching(vs, key, p)[i] == SILENT
    ensures forall i :: 0 <= i < |vs| && Field(vs[i], key) != p ==> StopMatching(vs, key, p)[i] == vs[i]
    ensures forall i :: 0 <= i < |vs| && Field(vs[i], key) == p ==> StopMatching(vs, key, p)[i] == SILENT
  {
  }

  /** Stopping by the same pointer a second time changes nothing. */
  lemma StopMatchingIdempotent(vs: seq<Voice>, key: Kind, p: Option<nat>)
    ensures StopMatching(StopMatching(vs, key, p), key, p) == StopMatching(vs, key, p)
  {
    var once := StopMatching(vs, key, p);
    var twice := StopMatching(once, key, p);
    forall i | 0 <= i < |vs| ensures twice[i] == once[i] {
      if Field(once[i], key) == p {
        assert once[i] == SILENT;
      }
    }
  }

  /** A voice in a state the modelled operations can produce: a stopped voice is
      fully reset, a playing voice has no stream and its pitch and pan within the
      clamp bounds, a streaming voice has no sample. */
  predicate Coherent(v: Voice) {
    match v.state
    case Stopped => v == SILENT
    case Playing => v.stream == None && MIN_PITCH <= v.pitch <= MAX_PITCH && MIN_PAN <= v.pan <= MAX_PAN
    case Streaming => v.sample == None && v.pitch == 0.0 && v.pan == 0.0
  }

  predicate AllCoherent(vs: seq<Voice>) {
    forall i :: 0 <= i < |vs| ==> Coherent(vs[i])
  }

  /** Each operation writes a coherent voice: the reset voice, a played sample, or a
      stream started on a free (hence reset) voice. */
  lemma WrittenVoicesCoherent(sample: Option<nat>, stream: Option<nat>, gain: real, pitch: real, pan: real, v: Voice)
    requires Coherent(v) && v.state == Stopped
    ensures Coherent(SILENT)
    ensures Coherent(SampleVoice(sample, gain, pitch, pan))
    ensures Coherent(StreamVoice(v, stream, gain))
  {
  }

  /** The stop loops keep a coherent table coherent. */
  lemma StopMatchingCoherent(vs: seq<Voice>, key: Kind, p: Option<nat>)
    requires AllCoherent(vs)
    ensures AllCoherent(StopMatching(vs, key, p))
  {
  }

  /** `wMixerStopSample(mixer, NULL)` also stops every stream, since a streaming voice
      has a null sample pointer; likewise `wMixerStopStream(mixer, NULL)` stops every
      sample. On a coherent table only the voices that hold a non-null pointer of the
      given kind keep playing. */
  lemma StopNullStopsOtherKind(vs: seq<Voice>, key: Kind)
    requires AllCoherent(vs)
    ensures forall i :: 0 <= i < |vs| ==>
      var v := StopMatching(vs, key, None)[i];
      v.state != Stopped ==> Field(v, key).Some? && v.state == (if key == StreamKind then Streaming else Playing)
  {
  }

  // ------------------------------------------------------------------
  // The mixer state

  /** wMixer (src/wpl/wpl.h:248-255): the master gain, the output frequency and the
      caller's array of `voiceCount` voices. */
  class Mixer {
    var gain: real
    var frequency: nat
    var voiceCount: int
    var voices: array<Voice>

    /** The caller supplies at least `voiceCount` voices. */
    ghost predicate Valid()
      reads this
    {
      voiceCount <= voices.Length
    }

    /** The number of voices the loops visit (none for a negative count). */
    function Live(): nat
      reads this
    {
      if voiceCount < 0 then 0 else voiceCount
    }

    ghost function Voices(): seq<Voice>
      reads this, voices
      requires Valid()
    {
      voices[..Live()]
    }

    /** wMixerInit (src/wpl/wplMixer.c:69-79): 44100 Hz, unit gain, the caller's
        array, and every one of its first `voiceCount` voices reset. */
    constructor Init(voiceCount: int, voices: array<Voice>)
      requires voiceCount <= voices.Length
      modifies voices
      ensures Valid() && this.voiceCount == voiceCount && this.voices == voices
      ensures frequency == FREQUENCY && gain == 1.0
      ensures forall i :: 0 <= i < Live() ==> voices[i] == SILENT
      ensures forall i :: Live() <= i < voices.Length ==> voices[i] == old(voices[i])
      ensures ActiveCount(Voices()) == 0 && AllCoherent(Voices())
    {
      frequency := FREQUENCY;
      gain := 1.0;
      this.voiceCount := voiceCount;
      this.voices := voices;
      new;
      var i := 0;
      while i < voiceCount
        invariant 0 <= i <= Live()
        invariant this.voices == voices && this.voiceCount == voiceCount
        invariant frequency == FREQUENCY && gain == 1.0
        invariant forall j :: 0 <= j < i ==> voices[j] == SILENT
        invariant forall j :: i <= j < voices.Length ==> voices[j] == old(voices[j])
      {
        ResetVoice(i);
        i := i + 1;
      }
      NoneActive(voices[..Live()]);
    }

    /** stmResetVoice (src/wpl/wplMixer.c:46-54): voice `i` stopped and cleared. */
    method ResetVoice(i: int)
      requires Valid() && 0 <= i < Live()
      modifies voices
      ensures voices[..] == old(voices[..])[i := SILENT]
    {
      voices[i] := SILENT;
    }

    /** stmFindFreeVoice (src/wpl/wplMixer.c:57-66): the first voice in the scan that
        is stopped. */
    method FindFreeVoice() returns (i: int)
      requires Valid()
      ensures i == FirstFree(Voices())
      ensures i == -1 <==> forall j :: 0 <= j < Live() ==> voices[j].state != Stopped
      ensures i != -1 ==> 0 <= i < Live() && voices[i].state == Stopped
                          && forall j :: 0 <= j < i ==> voices[j].state != Stopped
    {
      i := 0;
      while i < voiceCount
        invariant 0 <= i <= Live()
        invariant forall j :: 0 <= j < i ==> voices[j].state != Stopped
      {
        if voices[i].state == Stopped {
          return i;
        }
        i := i + 1;
      }
      return -1;
    }

    /** wMixerGetActiveVoices (src/wpl/wplMixer.c:81-90): the number of voices that are
        not stopped. */
    method GetActiveVoices() returns (active: int)
      requires Valid()
      ensures active == ActiveCount(Voices()) == |ActiveSet(Voices())|
    {
      var i := 0;
      active := 0;
      while i < voiceCount
        invariant 0 <= i <= Live()
        invariant active == ActiveCount(voices[..i])
      {
        assert voices[..i + 1][..i] == voices[..i];
        if voices[i].state != Stopped {
          active := active + 1;
        }
        i := i + 1;
      }
      assert voices[..i] == Voices();
      ActiveCountIsSize(Voices());
    }

    /** wMixerPlaySample (src/wpl/wplMixer.c:93-112): the first free voice plays
        `sample` from the start with the clamped pitch and halved, clamped pan; the
        result is that voice, or -1 with nothing changed when every voice is busy. */
    method PlaySample(sample: Option<nat>, gain: real, pitch: real, pan: real) returns (i: int)
      requires Valid()
      modifies voices
      ensures i == FirstFree(old(Voices()))
      ensures i == -1 ==> voices[..] == old(voices[..])
      ensures i != -1 ==> voices[..] == old(voices[..])[i := SampleVoice(sample, gain, pitch, pan)]
      ensures i != -1 ==> ActiveCount(Voices()) == ActiveCount(old(Voices())) + 1
      ensures AllCoherent(old(Voices())) ==> AllCoherent(Voices())
    {
      ghost var before := Voices();
      i := FindFreeVoice();
      if i >= 0 {
        voices[i] := SampleVoice(sample, gain, pitch, pan);
        assert Voices() == before[i := SampleVoice(sample, gain, pitch, pan)];
        PlayRaisesActive(before, i, SampleVoice(sample, gain, pitch, pan));
      }
    }

    /** wMixerPlayStream (src/wpl/wplMixer.c:115-127): the first free voice plays
        `stream` from the start, with no sample; the result is that voice, or -1 with
        nothing changed. */
    method PlayStream(stream: Option<nat>, gain: real) returns (i: int)
      requires Valid()
      modifies voices
      ensures i == FirstFree(old(Voices()))
      ensures i == -1 ==> voices[..] == old(voices[..])
      ensures i != -1 ==> voices[..] == old(voices[..])[i := StreamVoice(old(voices[i]), stream, gain)]
      ensures i != -1 ==> ActiveCount(Voices()) == ActiveCount(old(Voices())) + 1
      ensures AllCoherent(old(Voices())) ==> AllCoherent(Voices())
    {
      ghost var before := Voices();
      i := FindFreeVoice();
      if i >= 0 {
        var w := StreamVoice(voices[i], stream, gain);
        voices[i] := w;
        assert Voices() == before[i := w];
        PlayRaisesActive(before, i, w);
      }
    }

    /** wMixerStopVoice (src/wpl/wplMixer.c:130-135): resets voice `voice` when it is
        one of the mixer's voices and ignores any other number. */
    method StopVoice(voice: int)
      requires Valid()
      modifies voices
      ensures 0 <= voice < voiceCount ==> voices[..] == old(voices[..])[voice := SILENT]
      ensures !(0 <= voice < voiceCount) ==> voices[..] == old(voices[..])
      ensures 0 <= voice < voiceCount ==>
        ActiveCount(Voices()) == ActiveCount(old(Voices())) - Active(old(voices[voice]))
      ensures AllCoherent(old(Voices())) ==> AllCoherent(Voices())
    {
      ghost var before := Voices();
      if voice >= 0 && voice < voiceCount {
        ResetVoice(voice);
        assert Voices() == before[voice := SILENT];
        StopLowersActive(before, voice);
      }
    }

    /** wMixerStopSample (src/wpl/wplMixer.c:138-145): resets every voice whose sample
        pointer is `sample`. */
    method StopSample(sample: Option<nat>)
      requires Valid()
      modifies voices
      ensures Voices() == StopMatching(old(Voices()), SampleKind, sample)
      ensures voices[Live()..] == old(voices[Live()..])
    {
      StopWhere(SampleKind, sample);
    }

    /** wMixerStopStream (src/wpl/wplMixer.c:148-155): resets every voice whose stream
        pointer is `stream`. */
    method StopStream(stream: Option<nat>)
      requires Valid()
      modifies voices
      ensures Voices() == StopMatching(old(Voices()), StreamKind, stream)
      ensures voices[Live()..] == old(voices[Live()..])
    {
      StopWhere(StreamKind, stream);
    }

    /** The loop shared by the two stop calls. */
    method StopWhere(key: Kind, p: Option<nat>)
      requires Valid()
      modifies voices
      ensures Voices() == StopMatching(old(Voices()), key, p)
      ensures voices[Live()..] == old(voices[Live()..])
    {
      ghost var orig := voices[..];
      var i := 0;
      while i < voiceCount
        invariant 0 <= i <= Live()
        invariant forall j :: 0 <= j < i ==> voices[j] == if Field(orig[j], key) == p then SILENT else orig[j]
        invariant forall j :: i <= j < voices.Length ==> voices[j] == orig[j]
      {
        if Field(voices[i], key) == p {
          ResetVoice(i);
        }
        i := i + 1;
      }
      ghost var stopped := StopMatching(orig[..Live()], key, p);
      forall j | 0 <= j < Live()
        ensures voices[j] == stopped[j]
      {
      }
      assert Voices() == stopped;
    }
  }

  /** A table of reset voices is coherent and has no active voice. */
  lemma {:induction false} NoneActive(vs: seq<Voice>)
    requires forall i :: 0 <= i < |vs| ==> vs[i] == SILENT
    ensures ActiveCount(vs) == 0 && AllCoherent(vs)
  {
    if |vs| > 0 {
      NoneActive(vs[..|vs| - 1]);
    }
  }
}
