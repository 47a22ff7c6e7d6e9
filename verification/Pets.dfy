/** Hoot: the pet's record, and what every life of it keeps. */
module Pets {
  import opened Bytes

  const GOAL_NAME_MAX := 17
  const GOALS := 7
  const GOAL_CHECKIN := 0
  const ENERGY_PER_GOAL := 20
  const ENERGY_PER_HUG := 10
  const ENERGY_FULL := 100
  const HISTORY := 7
  const OUTFITS := 6

  datatype Pet = Pet(
    energy: byte,
    adventures: u16,
    goalsTotal: u16,
    day: u16,
    doneToday: byte,
    checkin: byte,
    history: seq<byte>,
    goalHist: seq<byte>,
    flags: byte,
    outfit: byte,
    born: u32,
    seen: u32)
  {
    predicate Wf() {
      |history| == HISTORY && |goalHist| == HISTORY
    }
  }

  const NEW_PET := Pet(0, 0, 0, 0, 0, 0, Repeat(0, HISTORY), Repeat(0, HISTORY), 0, 0, 0, 0)

  // --- bits ----------------------------------------------------------------

  function Pow2(k: nat): nat {
    if k == 0 then 1 else 2 * Pow2(k - 1)
  }

  predicate Bit(b: nat, k: nat) {
    if k == 0 then b % 2 == 1 else Bit(b / 2, k - 1)
  }

  function CountOnes(b: nat): nat {
    if b == 0 then 0 else b % 2 + CountOnes(b / 2)
  }

  /** Adding or taking away an even number leaves the lowest bit. */
  lemma Halves(b: nat, p: nat)
    ensures (b + 2 * p) / 2 == b / 2 + p && (b + 2 * p) % 2 == b % 2
  {}

  lemma HalfBelow(b: nat, w: nat)
    requires b < 2 * w
    ensures b / 2 < w
  {}

  lemma OnesOf(b: nat)
    ensures CountOnes(b) == b % 2 + CountOnes(b / 2)
  {}

  /** Setting a clear bit. */
  lemma {:induction false} SetBit(b: nat, k: nat)
    requires !Bit(b, k)
    ensures Bit(b + Pow2(k), k) && CountOnes(b + Pow2(k)) == CountOnes(b) + 1
    ensures forall j :: 0 <= j != k ==> Bit(b + Pow2(k), j) == Bit(b, j)
  {
    OnesOf(b);
    OnesOf(b + Pow2(k));
    if k > 0 {
      SetBit(b / 2, k - 1);
      Halves(b, Pow2(k - 1));
      forall j | 0 <= j != k
        ensures Bit(b + Pow2(k), j) == Bit(b, j)
      {
        if j > 0 {
          assert Bit(b / 2 + Pow2(k - 1), j - 1) == Bit(b / 2, j - 1);
        }
      }
    }
  }

  /** Clearing a set bit: the byte is a smaller one with that bit set. */
  lemma {:induction false} ClearBit(b: nat, k: nat)
    requires Bit(b, k)
    ensures b >= Pow2(k) && !Bit(b - Pow2(k), k)
    decreases k
  {
    if k > 0 {
      ClearBit(b / 2, k - 1);
      var rest := b - 2 * Pow2(k - 1);
      Halves(rest, Pow2(k - 1));
    }
  }

  lemma {:induction false} BitFits(b: nat, k: nat, width: nat)
    requires b < Pow2(width) && k < width && !Bit(b, k)
    ensures b + Pow2(k) < Pow2(width)
  {
    if k > 0 {
      HalfBelow(b, Pow2(width - 1));
      BitFits(b / 2, k - 1, width - 1);
      Doubled(b, Pow2(k - 1), Pow2(width - 1));
    }
  }

  lemma Doubled(b: nat, p: nat, w: nat)
    requires b / 2 + p < w
    ensures b + 2 * p < 2 * w
  {}

  lemma {:induction false} OnesBelow(b: nat, width: nat)
    requires b < Pow2(width)
    ensures CountOnes(b) <= width
  {
    if b > 0 {
      OnesBelow(b / 2, width - 1);
    }
  }

  lemma Byte()
    ensures Pow2(8) == 0x100
  {
    assert Pow2(4) == 16;
  }

  /** A byte with one more bit set. */
  function WithBit(b: byte, k: nat): (r: byte)
    requires k < 8 && !Bit(b, k)
    ensures Bit(r, k) && CountOnes(r) == CountOnes(b) + 1 <= 8
    ensures forall j :: 0 <= j != k ==> Bit(r, j) == Bit(b, j)
  {
    SetBit(b, k);
    Byte();
    BitFits(b, k, 8);
    OnesBelow(b + Pow2(k), 8);
    b + Pow2(k)
  }

  function WithoutBit(b: byte, k: nat): (r: byte)
    requires k < 8 && Bit(b, k)
    ensures !Bit(r, k) && CountOnes(r) == CountOnes(b) - 1
    ensures forall j :: 0 <= j != k ==> Bit(r, j) == Bit(b, j)
  {
    ClearBit(b, k);
    SetBit(b - Pow2(k), k);
    b - Pow2(k)
  }

  // --- the window ----------------------------------------------------------

  /** The last seven entries of a log, filled up with zeros in front. */
  function LastSeven(log: seq<byte>): (w: seq<byte>)
    ensures |w| == HISTORY
  {
    (Repeat(0, HISTORY) + log)[|log|..]
  }

  lemma LastSevenShifts(log: seq<byte>, x: byte)
    ensures LastSeven(log + [x]) == LastSeven(log)[1..] + [x]
  {
    var all := Repeat(0, HISTORY) + log;
    assert Repeat(0, HISTORY) + (log + [x]) == all + [x];
  }

  // --- outfits -------------------------------------------------------------

  /** Adventures an outfit takes. */
  function UnlockAt(outfit: nat): nat
    requires outfit < OUTFITS
  {
    [0, 1, 3, 5, 10, 15][outfit]
  }

  predicate Unlocked(adventures: u16, outfit: nat)
    requires outfit < OUTFITS
  {
    adventures >= UnlockAt(outfit)
  }

  /** The outfit `step` places on, round and round. */
  function Onward(outfit: nat, step: nat): (o: nat)
    ensures o < OUTFITS
  {
    (outfit + step) % OUTFITS
  }

  lemma FullCircle(outfit: nat)
    requires outfit < OUTFITS
    ensures Onward(outfit, OUTFITS) == outfit
  {}

  /** The first outfit on the way that has been earned. */
  ghost predicate IsNext(adventures: u16, outfit: nat, step: nat) {
    && 1 <= step <= OUTFITS && Unlocked(adventures, Onward(outfit, step))
    && forall s :: 1 <= s < step ==> !Unlocked(adventures, Onward(outfit, s))
  }

  /** One day that is over. */
  datatype Closed = Closed(day: u16, checkin: byte, goals: byte)

  function Checkins(log: seq<Closed>): seq<byte> {
    seq<byte>(|log|, i requires 0 <= i < |log| => log[i].checkin)
  }

  function GoalCounts(log: seq<Closed>): seq<byte> {
    seq<byte>(|log|, i requires 0 <= i < |log| => log[i].goals)
  }

  lemma LogGrows(log: seq<Closed>, d: Closed)
    ensures Checkins(log + [d]) == Checkins(log) + [d.checkin]
    ensures GoalCounts(log + [d]) == GoalCounts(log) + [d.goals]
  {}

  // --- a life --------------------------------------------------------------

  class Hoot {
    var pet: Pet
    /** Goals ever ticked and hugs ever received, and every day that is over. */
    ghost var completions: nat
    ghost var hugs: nat
    ghost var log: seq<Closed>

    /** What was spent on adventures and is still there was earned: nothing comes from nowhere. */
    ghost predicate Ledger()
      reads this
    {
      && pet.energy <= 100 && pet.energy % 10 == 0
      && 100 * pet.adventures + pet.energy <= 20 * completions + 10 * hugs
    }

    ghost predicate Window()
      reads this
    {
      && pet.history == LastSeven(Checkins(log)) && pet.goalHist == LastSeven(GoalCounts(log))
      && forall i :: 0 <= i < |log| ==> log[i].day != 0
    }

    ghost predicate Today()
      reads this
    {
      && CountOnes(pet.doneToday) <= 8
      && CountOnes(pet.doneToday) <= pet.goalsTotal
      && pet.checkin <= 5
    }

    ghost predicate Dressed()
      reads this
    {
      pet.outfit < OUTFITS && Unlocked(pet.adventures, pet.outfit)
    }

    ghost predicate Valid()
      reads this
    {
      pet.Wf() && Ledger() && Window() && Today() && Dressed()
    }

    constructor ()
      ensures Valid() && pet == NEW_PET && log == []
    {
      pet := NEW_PET;
      completions, hugs, log := 0, 0, [];
    }

    /** Ticks a goal. It counts once. */
    method Complete(goal: nat) returns (first: bool)
      requires Valid() && goal < GOALS
      modifies this`pet, this`completions
      ensures Valid() && first == !old(Bit(pet.doneToday, goal))
      ensures Bit(pet.doneToday, goal) && forall j :: 0 <= j != goal ==> Bit(pet.doneToday, j) == old(Bit(pet.doneToday, j))
      ensures completions == old(completions) + (if first then 1 else 0)
      ensures !first ==> pet == old(pet)
      ensures first ==> pet == old(pet).(
        doneToday := pet.doneToday,
        goalsTotal := if old(pet.goalsTotal) < 0xFFFF then old(pet.goalsTotal) + 1 else 0xFFFF,
        energy := if old(pet.energy) <= 80 then old(pet.energy) + 20 else 100)
    {
      first := !Bit(pet.doneToday, goal);
      if first {
        TensStay(pet.energy);
        pet := pet.(
          doneToday := WithBit(pet.doneToday, goal),
          goalsTotal := if pet.goalsTotal < 0xFFFF then pet.goalsTotal + 1 else 0xFFFF,
          energy := Capped(pet.energy + ENERGY_PER_GOAL));
        completions := completions + 1;
      }
    }

    /** Takes a goal back. */
    method Uncomplete(goal: nat) returns (was: bool)
      requires Valid() && goal < GOALS
      modifies this`pet
      ensures Valid() && was == old(Bit(pet.doneToday, goal))
      ensures !Bit(pet.doneToday, goal) && forall j :: 0 <= j != goal ==> Bit(pet.doneToday, j) == old(Bit(pet.doneToday, j))
      ensures !was ==> pet == old(pet)
      ensures was ==> old(pet.goalsTotal) > 0 && pet == old(pet).(
        doneToday := pet.doneToday,
        goalsTotal := old(pet.goalsTotal) - 1,
        energy := if old(pet.energy) >= 20 then old(pet.energy) - 20 else 0)
    {
      was := Bit(pet.doneToday, goal);
      if was {
        TensStay(pet.energy);
        pet := pet.(
          doneToday := WithoutBit(pet.doneToday, goal),
          goalsTotal := SatSub(pet.goalsTotal, 1),
          energy := SatSub(pet.energy, ENERGY_PER_GOAL));
      }
    }

    /** A new day closes the one before it, unless there was no clock yet. */
    method NewDay(day: u16) returns (changed: bool)
      requires Valid()
      modifies this`pet, this`log
      ensures Valid() && changed == (day != old(pet.day)) && pet.day == day
      ensures !changed ==> pet == old(pet) && log == old(log)
      ensures changed ==> pet == old(pet).(day := day, doneToday := 0, checkin := 0, history := pet.history, goalHist := pet.goalHist)
      ensures log == if changed && old(pet.day) != 0
                     then old(log) + [Closed(old(pet.day), old(pet.checkin), old(CountOnes(pet.doneToday)))]
                     else old(log)
    {
      if pet.day == day {
        return false;
      }
      if pet.day != 0 {
        var goals := CountOnes(pet.doneToday);
        LogGrows(log, Closed(pet.day, pet.checkin, goals));
        LastSevenShifts(Checkins(log), pet.checkin);
        LastSevenShifts(GoalCounts(log), goals);
        log := log + [Closed(pet.day, pet.checkin, goals)];
        pet := pet.(history := pet.history[1..] + [pet.checkin], goalHist := pet.goalHist[1..] + [goals]);
      }
      pet := pet.(day := day, doneToday := 0, checkin := 0);
      return true;
    }

    /** Once a day; the check-in is also the first goal. */
    method CheckIn(value: byte) returns (ok: bool)
      requires Valid()
      modifies this`pet, this`completions
      ensures Valid() && ok == (old(pet.checkin) == 0 && 1 <= value <= 5)
      ensures ok && old(Bit(pet.doneToday, 0)) ==> pet == old(pet).(checkin := value) && completions == old(completions)
      ensures ok && !old(Bit(pet.doneToday, 0)) ==>
        && Bit(pet.doneToday, 0) && (forall j :: 0 <= j != 0 ==> Bit(pet.doneToday, j) == old(Bit(pet.doneToday, j)))
        && completions == old(completions) + 1
        && pet == old(pet).(
             checkin := value,
             doneToday := pet.doneToday,
             goalsTotal := if old(pet.goalsTotal) < 0xFFFF then old(pet.goalsTotal) + 1 else 0xFFFF,
             energy := if old(pet.energy) <= 80 then old(pet.energy) + 20 else 100)
      ensures !ok ==> pet == old(pet) && completions == old(completions)
    {
      if pet.checkin != 0 || !(1 <= value <= 5) {
        return false;
      }
      var first := Complete(GOAL_CHECKIN);
      pet := pet.(checkin := value);
      return true;
    }

    /** A full bar is spent on an adventure. */
    method Adventure() returns (off: bool)
      requires Valid()
      modifies this`pet
      ensures Valid() && off == (old(pet.energy) == 100)
      ensures pet.adventures == if off && old(pet.adventures) < 0xFFFF then old(pet.adventures) + 1 else old(pet.adventures)
      ensures pet == if off then old(pet).(energy := 0, adventures := pet.adventures) else old(pet)
    {
      if pet.energy < ENERGY_FULL {
        return false;
      }
      pet := pet.(energy := 0, adventures := if pet.adventures < 0xFFFF then pet.adventures + 1 else 0xFFFF);
      return true;
    }

    method Hug()
      requires Valid()
      modifies this`pet, this`hugs
      ensures Valid() && hugs == old(hugs) + 1
      ensures pet == old(pet).(energy := if old(pet.energy) <= 90 then old(pet.energy) + 10 else 100)
    {
      TensStay(pet.energy);
      pet := pet.(energy := Capped(pet.energy + ENERGY_PER_HUG));
      hugs := hugs + 1;
    }

    /** The next outfit that has been earned, round and round. */
    method NextOutfit() returns (outfit: nat)
      requires Valid()
      modifies this`pet
      ensures Valid() && outfit == pet.outfit && pet == old(pet).(outfit := outfit)
      ensures outfit < 6 && pet.adventures >= [0, 1, 3, 5, 10, 15][outfit]
      ensures exists step :: IsNext(pet.adventures, old(pet.outfit), step) && outfit == Onward(old(pet.outfit), step) == (old(pet.outfit) + step) % 6
    {
      var start := pet.outfit;
      outfit := 0;
      for step := 1 to OUTFITS + 1
        invariant pet == old(pet)
        invariant forall s :: 1 <= s < step ==> !Unlocked(pet.adventures, Onward(start, s))
      {
        var candidate := Onward(start, step);
        if Unlocked(pet.adventures, candidate) {
          pet := pet.(outfit := candidate);
          assert IsNext(pet.adventures, start, step);
          return candidate;
        }
      }
      FullCircle(start);
      assert false;
    }
  }

  lemma {:induction false} BitsDetermine(a: nat, b: nat)
    requires forall j :: 0 <= j ==> Bit(a, j) == Bit(b, j)
    ensures a == b
  {
    if a > 0 || b > 0 {
      assert Bit(a, 0) == Bit(b, 0);
      forall j | 0 <= j
        ensures Bit(a / 2, j) == Bit(b / 2, j)
      {
        assert Bit(a, j + 1) == Bit(b, j + 1);
      }
      BitsDetermine(a / 2, b / 2);
    }
  }

  /**
   Ticking a goal by mistake: taking it back undoes it exactly if it was not ticked
   before and neither the bar nor the count was at its end.
   */
  method TickedByMistake(hoot: Hoot, goal: nat)
    requires hoot.Valid() && goal < GOALS
    modifies hoot`pet, hoot`completions
    ensures hoot.Valid()
    ensures hoot.pet == old(hoot.pet) <==>
      && !old(Bit(hoot.pet.doneToday, goal))
      && old(hoot.pet.energy) <= 80 && old(hoot.pet.goalsTotal) < 0xFFFF
  {
    ghost var before := hoot.pet;
    var first := hoot.Complete(goal);
    var was := hoot.Uncomplete(goal);
    if first {
      assert forall j :: 0 <= j ==> Bit(hoot.pet.doneToday, j) == Bit(before.doneToday, j);
      BitsDetermine(hoot.pet.doneToday, before.doneToday);
    }
  }

  function SatSub(a: nat, b: nat): (d: nat)
    ensures d <= a
  {
    if a > b then a - b else 0
  }

  lemma TensStay(energy: nat)
    requires energy % 10 == 0
    ensures SatSub(energy, ENERGY_PER_GOAL) % 10 == 0
    ensures Capped(energy + ENERGY_PER_GOAL) % 10 == 0 && Capped(energy + ENERGY_PER_HUG) % 10 == 0
  {}

  function Capped(energy: nat): byte {
    if energy > ENERGY_FULL then ENERGY_FULL else energy
  }
}
