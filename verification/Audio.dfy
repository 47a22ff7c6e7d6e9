/** The tone synthesiser: what a sound is, sample by sample, and how it is streamed. */
module Audio {
  import opened Bytes
  import opened Veils

  const SAMPLE_RATE := 24_000
  const CHUNK := 256
  const ATTACK := SAMPLE_RATE / 250
  const FULL_LEVEL := 30_000
  const TEST_LEVEL := 28_000

  /** Frequency in Hz, 0 for a rest, and length in ms. */
  datatype Note = Note(hz: u16, ms: u16)

  datatype Sound = Tick | Done | Rest | Test | Coin | Laser | Bell | Siren | Alarm | Hoot

  function Notes(sound: Sound): seq<Note> {
    match sound
    case Tick => [Note(2000, 40)]
    case Done => [Note(1047, 120), Note(1319, 120), Note(1568, 120), Note(2093, 300)]
    case Rest => [Note(1568, 150), Note(1319, 150), Note(1047, 320)]
    case Test => [Note(440, 500), Note(1000, 500), Note(2000, 500)]
    case Coin => [Note(988, 60), Note(1319, 350)]
    case Laser =>
      [Note(3000, 25), Note(2500, 25), Note(2100, 25), Note(1750, 25), Note(1450, 25), Note(1200, 25), Note(950, 25), Note(700, 60)]
    case Bell =>
      [Note(1319, 250), Note(1047, 250), Note(1175, 250), Note(784, 500), Note(0, 150), Note(784, 250), Note(1175, 250),
       Note(1319, 250), Note(1047, 500)]
    case Siren => [Note(800, 180), Note(1100, 180), Note(800, 180), Note(1100, 180), Note(800, 180), Note(1100, 180)]
    case Alarm =>
      [Note(2000, 80), Note(0, 60), Note(2000, 80), Note(0, 60), Note(2000, 80), Note(0, 300), Note(2000, 80), Note(0, 60),
       Note(2000, 80), Note(0, 60), Note(2000, 80)]
    case Hoot => [Note(520, 170), Note(0, 90), Note(460, 280)]
  }

  const LEVELS: seq<int> := [0, 1_500, 2_200, 3_200, 4_600, 6_500, 9_000, 12_500, 17_000, 23_000, FULL_LEVEL]

  /** Eleven levels from silence to the full 30000, each from 30 to 47 per cent above the one before. */
  lemma LevelsRise()
    ensures |LEVELS| == 11 && LEVELS[0] == 0 && LEVELS[10] == 30_000
    ensures LEVELS[1] > 0 && forall i :: 1 <= i < 10 ==> 130 * LEVELS[i] <= 100 * LEVELS[i + 1] <= 147 * LEVELS[i]
  {}

  function LenMs(notes: seq<Note>): nat {
    if notes == [] then 0 else LenMs(notes[..|notes| - 1]) + notes[|notes| - 1].ms
  }

  /** There is a note, and every note lasts. */
  predicate Playable(notes: seq<Note>) {
    notes != [] && forall i :: 0 <= i < |notes| ==> notes[i].ms > 0
  }

  lemma SoundsArePlayable(sound: Sound)
    ensures Playable(Notes(sound))
  {}

  // --- one sample ----------------------------------------------------------

  function Clipped(product: int): int {
    if product / 0x2000 > 16_384 then 16_384 else product / 0x2000
  }

  /** A parabola doubled and clipped; the upper half of the phase is its mirror. */
  function Wave(phase: u16): int {
    var half := phase % 0x8000;
    var y := Clipped(half * (0x8000 - half));
    if phase >= 0x8000 then -y else y
  }

  /** Shifts right are floors, also of negative numbers. */
  function Sample(phase: u16, amp: int, env: int): int {
    Wave(phase) * amp / 0x4000 * env / 0x100
  }

  /** How long a note fades: the last quarter of it, at most 60 ms. */
  function Release(total: nat): (r: nat)
    ensures 1 <= r <= 1440
  {
    if total / 4 < 1 then 1 else if total / 4 > 1440 then 1440 else total / 4
  }

  /** Attack, hold, and release. */
  function Envelope(total: nat, played: nat): int
    requires played <= total
  {
    if played < ATTACK then played * 256 / ATTACK
    else if total - played < Release(total) then (total - played) * 256 / Release(total)
    else 256
  }

  predicate Fits32(x: int) {
    -0x8000_0000 <= x < 0x8000_0000
  }

  lemma ProductBound(a: int, b: int, m: int, n: int)
    requires -m <= a <= m && 0 <= b <= n
    ensures -(m * n) <= a * b <= m * n
    ensures -(m * b) <= a * b <= m * b
  {
    assert a * b <= m * b && -(m * b) <= a * b;
    assert m * b <= m * n;
  }

  lemma Square(d: int)
    ensures d * d >= 0
  {}

  lemma NonNegative(a: nat, b: nat)
    ensures a * b >= 0
  {}

  lemma HalfProduct(half: nat)
    requires half < 0x8000
    ensures 0 <= half * (0x8000 - half) <= 0x1000_0000
  {
    var d := half - 0x4000;
    assert half * (0x8000 - half) == 0x1000_0000 - d * d;
    Square(d);
    NonNegative(half, 0x8000 - half);
  }

  lemma WaveBound(phase: u16)
    ensures -16_384 <= Wave(phase) <= 16_384
    ensures Fits32(phase % 0x8000 * (0x8000 - phase % 0x8000))
  {
    HalfProduct(phase % 0x8000);
  }

  /** The upper half of the phase mirrors the lower one. */
  lemma WaveMirrors(phase: u16)
    requires phase < 0x8000
    ensures Wave(phase) >= 0 && Wave(phase + 0x8000) == -Wave(phase)
  {
    HalfProduct(phase);
    assert (phase + 0x8000) % 0x8000 == phase;
  }

  lemma SameProduct(half: int)
    ensures half * (0x8000 - half) == (0x8000 - half) * (0x8000 - (0x8000 - half))
  {}

  function Product(half: int): int {
    half * (0x8000 - half)
  }

  lemma WaveOf(half: nat)
    requires half < 0x8000
    ensures Wave(half) == Clipped(Product(half))
  {
    assert half % 0x8000 == half;
  }

  lemma ProductMirrors(half: int)
    ensures Product(0x8000 - half) == Product(half)
  {
    SameProduct(half);
  }

  /** A rounded square: up to the full level, flat between two places, and back the same way. */
  lemma WaveShape(phase: u16)
    requires 0 < phase < 0x8000
    ensures Wave(0x8000 - phase) == Wave(phase)
    ensures Wave(phase) == 16_384 <==> 4_799 <= phase <= 27_969
  {
    WaveOf(phase);
    WaveOf(0x8000 - phase);
    ProductMirrors(phase);
    HalfProduct(phase);
    Plateau(phase);
  }

  lemma Plateau(half: int)
    ensures Product(half) >= 0x800_0000 <==> 4_799 <= half <= 27_969
  {
    assert Product(half) == (half - 4_799) * (27_969 - half) + 134_223_231;
    assert Product(half) == (half - 4_798) * (27_970 - half) + 134_200_060;
    if 4_799 <= half <= 27_969 {
      NotNegative(half - 4_799, 27_969 - half);
    } else if half < 4_799 {
      NotNegative(4_798 - half, 27_970 - half);
    } else {
      NotNegative(half - 4_798, half - 27_970);
    }
  }

  lemma NotNegative(x: int, y: int)
    requires x >= 0 && y >= 0
    ensures x * y >= 0 && -x * y <= 0 && x * -y <= 0
  {}

  lemma ScaledWave(w: int, amp: int)
    requires -16_384 <= w <= 16_384 && 0 <= amp <= FULL_LEVEL
    ensures Fits32(w * amp) && -amp <= w * amp / 0x4000 <= amp
  {
    ProductBound(w, amp, 16_384, FULL_LEVEL);
  }

  lemma EnvelopedWave(v: int, amp: int, env: int)
    requires -amp <= v <= amp && 0 <= amp <= FULL_LEVEL && 0 <= env <= 256
    ensures Fits32(v * env) && -amp <= v * env / 0x100 <= amp
  {
    ProductBound(env, amp, 256, FULL_LEVEL);
    ProductBound(v, env, amp, 256);
    assert amp * env <= amp * 256;
  }

  /** No intermediate leaves 32 bits, and the sample stays within the level, so its 16 bits are all of it. */
  lemma SampleBound(phase: u16, amp: int, env: int)
    requires 0 <= amp <= FULL_LEVEL && 0 <= env <= 256
    ensures -amp <= Sample(phase, amp, env) <= amp
    ensures Fits32(Wave(phase) * amp) && Fits32(Wave(phase) * amp / 0x4000 * env)
  {
    WaveBound(phase);
    ScaledWave(Wave(phase), amp);
    EnvelopedWave(Wave(phase) * amp / 0x4000, amp, env);
  }

  /** And the level is reached, both ways, in the middle of each half of the wave. */
  lemma LevelReached(amp: int)
    requires 0 <= amp <= FULL_LEVEL
    ensures Sample(0x4000, amp, 256) == amp && Sample(0xC000, amp, 256) == -amp
  {
    Peaks();
    Rescaled(amp);
    Rescaled(-amp);
  }

  lemma Peaks()
    ensures Wave(0x4000) == 16_384 && Wave(0xC000) == -16_384
  {
    assert 0x4000 % 0x8000 == 0x4000 && 0xC000 % 0x8000 == 0x4000;
    assert Clipped(0x1000_0000) == 16_384;
    assert 0x4000 * (0x8000 - 0x4000) == 0x1000_0000;
  }

  lemma Rescaled(amp: int)
    ensures 16_384 * amp / 0x4000 == amp && amp * 256 / 0x100 == amp
  {}

  /** A note takes 4 ms to rise, and fades over its last quarter, but no longer than 60 ms; in between it is as loud as can be. */
  lemma EnvelopeShape(total: nat, played: nat)
    requires played < total
    ensures var fade := total - played;
            && (played == 0 ==> Envelope(total, played) == 0)
            && (played + 1 < 96 ==> Envelope(total, played) <= Envelope(total, played + 1))
            && (played >= 96 && (4 * fade >= total + 4 || fade >= 1440) ==> Envelope(total, played) == 256)
            && (played >= 96 && 4 * fade + 4 <= total && fade < 1440 ==> Envelope(total, played + 1) <= Envelope(total, played) < 256)
  {
    if played + 1 < 96 {
      QuotientsAscend(played * 256, (played + 1) * 256, 96);
    }
    var r := Release(total);
    if played >= 96 && total - played < r {
      QuotientsAscend((total - played - 1) * 256, (total - played) * 256, r);
      QuotientBelow((total - played) * 256, r);
    }
  }

  lemma QuotientsAscend(a: nat, b: nat, r: nat)
    requires a <= b && r > 0
    ensures a / r <= b / r
  {
    var p, q := a / r, b / r;
    assert a == r * p + a % r && b == r * q + b % r;
    if q < p {
      TimesAscend(q + 1, p, r);
    }
  }

  lemma TimesAscend(a: nat, b: nat, r: nat)
    requires a <= b
    ensures r * a <= r * b
  {
    NonNegative(b - a, r);
    assert r * b == r * a + (b - a) * r;
  }

  lemma QuotientBelow(a: nat, r: nat)
    requires r > 0 && a < 256 * r
    ensures a / r < 256
  {
    var q := a / r;
    assert a == q * r + a % r;
    if q >= 256 {
      MoreTimes(q, 256, r);
    }
  }

  lemma MoreTimes(q: nat, p: nat, r: nat)
    requires q >= p
    ensures q * r >= p * r
  {}

  lemma ShareBound(x: nat, r: nat)
    requires x < r
    ensures 0 <= x * 256 / r <= 256
  {
    QuotientBelow(x * 256, r);
  }

  lemma EnvelopeBound(total: nat, played: nat)
    requires played <= total
    ensures 0 <= Envelope(total, played) <= 256
    ensures played == 0 ==> Envelope(total, played) == 0
  {
    if played < ATTACK {
    } else if total - played < Release(total) {
      ShareBound(total - played, Release(total));
    }
  }

  // --- a whole sound -------------------------------------------------------

  /** 24 frames a millisecond; the code divides, without a remainder. */
  function Total(note: Note): nat {
    24 * note.ms
  }

  function StepFormula(note: Note): u16 {
    note.hz * 65_536 / SAMPLE_RATE % 0x1_0000
  }

  /** What the phase advances by in one frame. */
  function PhaseStep(note: Note): u16 {
    Veil(StepFormula, note, note.hz + 3)
  }

  function PhaseFormula(x: (Note, nat)): u16 {
    Wrap(x.1 * PhaseStep(x.0));
    x.1 * PhaseStep(x.0) % 0x1_0000
  }

  /** The phase at frame `k` of a note: see `PhaseAtIs`. */
  function PhaseAt(note: Note, k: nat): u16 {
    Veil(PhaseFormula, (note, k), k + 3)
  }

  lemma PhaseAtIs(note: Note, k: nat)
    ensures PhaseAt(note, k) == k * PhaseStep(note) % 0x1_0000
    ensures k == 0 ==> PhaseAt(note, k) == 0
  {
    Lift(PhaseFormula, (note, k), k + 3);
  }

  lemma Wrap(x: int)
    ensures 0 <= x % 0x1_0000 < 0x1_0000
  {}

  /** Both halves of a stereo frame hold the same 16-bit sample. */
  function Stereo(sample: int): u32 {
    sample % 0x1_0000 * 0x1_0000 + sample % 0x1_0000
  }

  function FrameFormula(x: (Note, int, nat)): u32 {
    var (note, amp, k) := x;
    if k < Total(note) then Stereo(Sample(PhaseAt(note, k), amp, Envelope(Total(note), k))) else 0
  }

  /** Frame `k` of a note: see `NoteFrameIs`. */
  function NoteFrame(note: Note, amp: int, k: nat): u32
    requires k < Total(note)
  {
    Veil(FrameFormula, (note, amp, k), k + 3)
  }

  lemma NoteFrameIs(note: Note, amp: int, k: nat)
    requires k < Total(note)
    ensures NoteFrame(note, amp, k) == Stereo(Sample(PhaseAt(note, k), amp, Envelope(Total(note), k)))
  {
    Lift(FrameFormula, (note, amp, k), k + 3);
  }

  /** A note from frame `from` on. */
  function NoteFrom(note: Note, amp: int, from: nat): seq<u32>
    requires from <= Total(note)
  {
    seq<u32>(Total(note) - from, i requires 0 <= i < Total(note) - from => NoteFrame(note, amp, from + i))
  }

  function Frames(notes: seq<Note>, amp: int): seq<u32> {
    if notes == [] then [] else NoteFrom(notes[0], amp, 0) + Frames(notes[1..], amp)
  }

  /** A sound lasts 24 frames a millisecond. */
  lemma {:induction false} FramesCount(notes: seq<Note>, amp: int)
    ensures |Frames(notes, amp)| == 24 * LenMs(notes)
  {
    if notes != [] {
      FramesCount(notes[1..], amp);
      LenSplit(notes);
    } else {
      assert LenMs(notes) == 0;
    }
  }

  lemma {:induction false} LenSplit(notes: seq<Note>)
    requires notes != []
    ensures LenMs(notes) == notes[0].ms + LenMs(notes[1..])
  {
    if |notes| > 1 {
      LenSplit(notes[..|notes| - 1]);
      assert notes[..|notes| - 1][1..] == notes[1..][..|notes| - 2];
    } else {
      assert notes[..0] == [] && notes[1..] == [];
    }
  }

  /** The pitch: in a second the phase goes round as often as the frequency says, but for rounding. */
  lemma PitchIs(note: Note)
    requires note.hz < 24_000
    ensures PhaseStep(note) * 24_000 <= note.hz * 0x1_0000 < (PhaseStep(note) + 1) * 24_000
  {
    Lift(StepFormula, note, note.hz + 3);
  }

  /** Every note starts at silence. */
  lemma NoteStartsSilent(note: Note, amp: int)
    requires note.ms > 0
    ensures NoteFrame(note, amp, 0) == 0
  {
    NoteFrameIs(note, amp, 0);
    PhaseAtIs(note, 0);
    assert Wave(0) == 0;
  }

  /** Both halves of the frame are the sample, in two's complement. */
  predicate IsFrame(frame: u32, s: int) {
    frame / 0x1_0000 == frame % 0x1_0000 == if s >= 0 then s else s + 0x1_0000
  }

  lemma Halves(s: int)
    requires -0x8000 <= s < 0x8000
    ensures IsFrame(Stereo(s), s)
  {}

  /** Every frame is one sample within the level, twice. */
  lemma FrameWithinLevel(note: Note, amp: int, k: nat)
    requires k < Total(note) && 0 <= amp <= FULL_LEVEL
    ensures exists s: int :: -amp <= s <= amp && IsFrame(NoteFrame(note, amp, k), s)
  {
    NoteFrameIs(note, amp, k);
    EnvelopeBound(Total(note), k);
    SampleBound(PhaseAt(note, k), amp, Envelope(Total(note), k));
    var s := Sample(PhaseAt(note, k), amp, Envelope(Total(note), k));
    Halves(s);
    assert -amp <= s <= amp && IsFrame(NoteFrame(note, amp, k), s);
  }

  /** The phase is kept modulo its width as it grows. */
  lemma PhaseAdvances(note: Note, k: nat)
    ensures PhaseAt(note, k + 1) == (PhaseAt(note, k) + PhaseStep(note)) % 0x1_0000
  {
    PhaseAtIs(note, k);
    PhaseAtIs(note, k + 1);
    var p: int := PhaseStep(note);
    assert (k + 1) * p == k * p + p;
    AddWraps(k * p, p);
  }

  lemma AddWraps(x: int, y: int)
    ensures (x + y) % 0x1_0000 == (x % 0x1_0000 + y) % 0x1_0000
  {}

  // --- the player ----------------------------------------------------------

  class Synth {
    const notes: seq<Note>
    var index: nat
    /** Samples left in the current note, and in all of it. */
    var left: nat
    var total: nat
    var phase: u16
    var step: u16
    const amp: int
    var done: bool

    /** What is still to be played. */
    ghost function ToPlay(): seq<u32>
      requires Valid()
      reads this
    {
      if done then [] else NoteFrom(notes[index], amp, total - left) + Frames(notes[index + 1..], amp)
    }

    ghost predicate Valid()
      reads this
    {
      && Playable(notes)
      && (!done ==>
        && index < |notes| && left <= total == Total(notes[index])
        && step == PhaseStep(notes[index]) && phase == PhaseAt(notes[index], total - left))
    }

    constructor (sound: Sound, level: nat)
      requires level < |LEVELS|
      ensures Valid() && !done
      ensures amp == (if sound == Test then 28_000 else LEVELS[level])
      ensures ToPlay() == Frames(Notes(sound), amp)
    {
      SoundsArePlayable(sound);
      notes := Notes(sound);
      amp := if sound == Test then TEST_LEVEL else LEVELS[level];
      index, left, total, phase, step := 0, 0, 0, 0, 0;
      done := false;
      new;
      Load(0);
    }

    /** Starts note `i`, or ends the sound. */
    method Load(i: nat)
      requires Playable(notes) && i <= |notes| && !done
      modifies this
      ensures Valid() && (done <==> i == |notes|) && (!done ==> left > 0 && ToPlay() != [])
      ensures ToPlay() == Frames(notes[i..], amp)
    {
      if i < |notes| {
        index := i;
        total := SAMPLE_RATE * notes[i].ms / 1000;
        left := total;
        Lift(StepFormula, notes[i], notes[i].hz + 3);
        step := notes[i].hz * 65_536 / SAMPLE_RATE % 0x1_0000;
        phase := 0;
        PhaseAtIs(notes[i], 0);
        assert notes[i..][0] == notes[i] && notes[i..][1..] == notes[i + 1..];
      } else {
        done := true;
      }
    }

    /** Past the end of a note, the next one is loaded; nothing of the sound is skipped. */
    method Ready()
      requires Valid()
      modifies this
      ensures Valid() && ToPlay() == old(ToPlay()) && (done || left > 0) && (done <==> ToPlay() == [])
    {
      if left == 0 && !done {
        assert NoteFrom(notes[index], amp, total) == [];
        assert ToPlay() == Frames(notes[index + 1..], amp);
        Load(index + 1);
      } else if !done {
        assert |NoteFrom(notes[index], amp, total - left)| == left;
      }
    }

    /** Plays one frame of the current note. */
    method Emit() returns (frame: u32)
      requires Valid() && !done && left > 0
      modifies this`phase, this`left
      ensures Valid() && old(ToPlay()) == [frame] + ToPlay()
    {
      ghost var note, k, rest := notes[index], total - left, Frames(notes[index + 1..], amp);
      assert ToPlay() == NoteFrom(note, amp, k) + rest;
      TailOfNote(note, amp, k, rest);
      frame := CurrentFrame();
      Step();
      assert ToPlay() == NoteFrom(note, amp, k + 1) + rest;
    }

    /** One frame: the next of the sound, and zeros once it is over. */
    method Next() returns (frame: u32)
      requires Valid()
      modifies this
      ensures Valid()
      ensures if old(ToPlay()) == [] then frame == 0 && done
              else !done && frame == old(ToPlay())[0]
      ensures ToPlay() == if old(ToPlay()) == [] then [] else old(ToPlay())[1..]
    {
      Ready();
      if done {
        return 0;
      }
      frame := Emit();
    }

    /** The frame at the current place in the note. */
    method CurrentFrame() returns (frame: u32)
      requires Valid() && !done && left > 0
      ensures frame == NoteFrame(notes[index], amp, total - left)
    {
      var release := Release(total);
      var played := total - left;
      var env := if played < ATTACK then played * 256 / ATTACK
                 else if left < release then left * 256 / release
                 else 256;
      NoteFrameIs(notes[index], amp, played);
      frame := Stereo(Wave(phase) * amp / 0x4000 * env / 0x100);
    }

    /** On to the next place. */
    method Step()
      requires Valid() && !done && left > 0
      modifies this`phase, this`left
      ensures Valid() && left == old(left) - 1
    {
      PhaseAdvances(notes[index], total - left);
      phase := (phase + step) % 0x1_0000;
      left := left - 1;
    }

    /** `k` frames of the sound `all` have been played. */
    ghost predicate After(all: seq<u32>, k: nat)
      reads this
    {
      Valid() && ToPlay() == all[Shorter(k, |all|)..]
    }

    /** Frame `k` of the sound `all`, of which the frames before have been played. */
    method FillAt(buf: array<u32>, k: nat, ghost all: seq<u32>)
      requires k < buf.Length && After(all, k)
      modifies this, buf
      ensures After(all, k + 1)
      ensures buf[..k + 1] == old(buf[..k]) + [SoundAt(all, k)] && (done <==> k >= |all|)
    {
      DropOne(all, k);
      var frame := Next();
      buf[k] := frame;
    }

    /** A buffer of frames; what is beyond the end of the sound is zero. */
    method Fill(buf: array<u32>)
      requires Valid()
      modifies this, buf
      ensures Valid()
      ensures buf[..] == Heard(old(ToPlay()), buf.Length)
      ensures ToPlay() == old(ToPlay())[Shorter(buf.Length, |old(ToPlay())|)..]
      ensures buf.Length > 0 ==> (done <==> buf.Length > |old(ToPlay())|)
    {
      ghost var all := ToPlay();
      assert all[0..] == all;
      for k := 0 to buf.Length
        invariant After(all, k)
        invariant buf[..k] == Heard(all, k)
        invariant k > 0 ==> (done <==> k > |all|)
      {
        HeardGrows(all, k);
        FillAt(buf, k, all);
      }
    }
  }

  /** A sound is followed by silence. */
  function SoundAt(frames: seq<u32>, i: nat): u32 {
    if i < |frames| then frames[i] else 0
  }

  lemma DropOne(all: seq<u32>, k: nat)
    ensures all[Shorter(k, |all|)..] == [] <==> k >= |all|
    ensures k < |all| ==> all[k..][0] == all[k] && all[k..][1..] == all[k + 1..]
  {}

  function HeardFormula(x: (seq<u32>, nat)): seq<u32> {
    seq<u32>(x.1, i requires 0 <= i < x.1 => SoundAt(x.0, i))
  }

  /** The first `n` frames of a sound followed by silence. */
  function Heard(frames: seq<u32>, n: nat): (h: seq<u32>)
    ensures |h| == n
  {
    Lift(HeardFormula, (frames, n), n + 3);
    Veil(HeardFormula, (frames, n), n + 3)
  }

  lemma HeardIs(frames: seq<u32>, n: nat)
    ensures forall i :: 0 <= i < n ==> Heard(frames, n)[i] == SoundAt(frames, i)
  {
    Lift(HeardFormula, (frames, n), n + 3);
  }

  lemma HeardGrows(frames: seq<u32>, n: nat)
    ensures Heard(frames, n + 1) == Heard(frames, n) + [SoundAt(frames, n)]
  {
    HeardIs(frames, n);
    HeardIs(frames, n + 1);
  }

  /** What is heard after the first `at` frames is what is left of the sound, and silence. */
  lemma HeardSplit(frames: seq<u32>, at: nat, n: nat)
    ensures Heard(frames, at) + Heard(frames[Shorter(at, |frames|)..], n) == Heard(frames, at + n)
  {
    var rest := frames[Shorter(at, |frames|)..];
    HeardIs(frames, at);
    HeardIs(rest, n);
    HeardIs(frames, at + n);
    assert forall i :: 0 <= i < n ==> SoundAt(rest, i) == SoundAt(frames, at + i);
  }

  /** One more buffer of a sound of which `at` frames have been made. */
  method FillNext(synth: Synth, buf: array<u32>, ghost frames: seq<u32>, ghost at: nat)
    requires synth.Valid() && synth.ToPlay() == frames[Shorter(at, |frames|)..]
    modifies synth, buf
    ensures synth.Valid() && synth.ToPlay() == frames[Shorter(at + buf.Length, |frames|)..]
    ensures Heard(frames, at) + buf[..] == Heard(frames, at + buf.Length)
    ensures buf.Length > 0 ==> (synth.done <==> at + buf.Length > |frames|)
  {
    synth.Fill(buf);
    HeardSplit(frames, at, buf.Length);
  }

  /** The frames up to `n` have been sent, the next chunk is in `buf`, and the synthesiser is past that. */
  ghost predicate Ahead(synth: Synth, buf: array<u32>, frames: seq<u32>, sent: seq<u32>)
    reads synth, buf
  {
    && synth.Valid() && buf.Length == CHUNK
    && sent == Heard(frames, |sent|) && sent + buf[..] == Heard(frames, |sent| + CHUNK)
    && synth.ToPlay() == frames[Shorter(|sent| + CHUNK, |frames|)..]
    && (synth.done <==> |sent| + CHUNK > |frames|)
  }

  method FirstChunk(synth: Synth, front: array<u32>)
    requires synth.Valid() && front.Length == CHUNK
    modifies synth, front
    ensures Ahead(synth, front, old(synth.ToPlay()), [])
  {
    ghost var frames := synth.ToPlay();
    FillNext(synth, front, frames, 0);
    assert Heard(frames, 0) == [];
  }

  /** While one chunk is sent, the next one is made. */
  method NextChunk(synth: Synth, front: array<u32>, back: array<u32>, ghost frames: seq<u32>, ghost sent: seq<u32>)
    requires Ahead(synth, front, frames, sent) && front != back && back.Length == CHUNK
    modifies synth, back
    ensures front[..] == old(front[..]) && Ahead(synth, back, frames, sent + front[..])
  {
    FillNext(synth, back, frames, |sent| + CHUNK);
    assert |sent + front[..]| == |sent| + CHUNK;
  }

  /** A sound in chunks, until it is over or `patience` chunks have been sent and one more is ready. */
  method Stream(synth: Synth, patience: nat) returns (sent: seq<u32>, chunks: nat)
    requires synth.Valid() && patience > 0
    modifies synth
    ensures |sent| == CHUNK * chunks && 1 <= chunks <= patience + 1
    ensures sent == Heard(old(synth.ToPlay()), |sent|)
    ensures chunks <= patience ==> |sent| > |old(synth.ToPlay())|
  {
    ghost var frames := synth.ToPlay();
    sent, chunks := [], 0;
    var front, back := new u32[CHUNK], new u32[CHUNK];
    FirstChunk(synth, front);
    while !synth.done && chunks < patience
      invariant fresh(front) && fresh(back) && front != back && back.Length == CHUNK
      invariant |sent| == CHUNK * chunks && chunks <= patience && Ahead(synth, front, frames, sent)
    {
      NextChunk(synth, front, back, frames, sent);
      sent := sent + front[..];
      chunks := chunks + 1;
      front, back := back, front;
    }
    sent := sent + front[..];
    chunks := chunks + 1;
  }

  /**
   What the audio task sends for one sound: the sound in chunks, then a chunk of
   silence. A new request after `patience` chunks cuts the sound short.
   */
  method Play(sound: Sound, level: nat, patience: nat) returns (sent: seq<u32>, chunks: nat)
    requires level < |LEVELS| && patience > 0
    ensures 1 <= chunks <= patience + 1
    ensures var frames := Frames(Notes(sound), if sound == Test then 28_000 else LEVELS[level]);
            && sent == Heard(frames, 256 * chunks) + Heard([], 256)
            && (chunks <= patience ==> 256 * chunks > |frames|)
  {
    var synth := new Synth(sound, level);
    sent, chunks := Stream(synth, patience);
    sent := sent + Heard([], CHUNK);
  }

  function Shorter(a: nat, b: nat): nat {
    if a < b then a else b
  }

  lemma TailOfNote(note: Note, amp: int, k: nat, rest: seq<u32>)
    requires k < Total(note)
    ensures NoteFrom(note, amp, k) + rest == [NoteFrame(note, amp, k)] + (NoteFrom(note, amp, k + 1) + rest)
  {}
}
