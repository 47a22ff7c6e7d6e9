/**
 The two-sector protocol on its own: two cells written alternately, with a
 sequence number that wraps. `C` is whatever a record holds.
 */
module Cells {
  import opened Bytes
  import opened Wrappers

  const CONFIG_SECTORS := 2

  /** The sector that record number `sequence` lives in. */
  function Home(sequence: u32): nat {
    sequence % CONFIG_SECTORS
  }

  function Next(sequence: u32): u32 {
    WrappingAdd(sequence, 1)
  }

  /** Numbers compare modulo 2^32, so the counter may wrap. */
  predicate Newer(sequence: u32, best: u32) {
    WrappingSub(sequence, best) < U32_MAX / 2
  }

  /** A record is newer as long as its number is less than half the way round ahead, and across zero too. */
  lemma NewerIff(best: u32, ahead: u32)
    ensures Newer((best + ahead) % 0x1_0000_0000, best) <==> ahead < 0x7FFF_FFFF
  {}

  function NewestOf<C>(zero: Option<(C, u32)>, one: Option<(C, u32)>): Option<(C, u32)> {
    if one.Some? && (zero.None? || Newer(one.value.1, zero.value.1)) then one else zero
  }

  /**
   Two cells, and what the device remembers of them: the value and number it
   works with, whether they were stored, and the values whose storing was begun
   since without being reported complete.
   */
  datatype Store<C> = Store(cells: seq<Option<(C, u32)>>, value: C, sequence: u32, defaults: C, stored: bool, attempts: set<C>)

  /** What the next boot will start from. */
  function Loaded<C>(cells: seq<Option<(C, u32)>>): Option<(C, u32)>
    requires |cells| == 2
  {
    NewestOf(cells[0], cells[1])
  }

  function Booted<C>(cells: seq<Option<(C, u32)>>, defaults: C): Store<C>
    requires |cells| == 2
  {
    match Loaded(cells)
    case Some((value, sequence)) => Store(cells, value, sequence, defaults, true, {})
    case None => Store(cells, defaults, 0, defaults, false, {})
  }

  /** The cell the next record goes to. */
  function Spare(sequence: u32): nat {
    Home(Next(sequence))
  }

  /** What the spare cell may read as once writing `next` was interrupted. */
  predicate Possible<C(==)>(s: Store<C>, next: C, seen: Option<(C, u32)>)
    requires |s.cells| == 2
  {
    seen == None || seen == s.cells[Spare(s.sequence)] || seen == Some((next, Next(s.sequence)))
  }

  ghost predicate Completes<C>(s: Store<C>, next: C, t: Store<C>)
    requires |s.cells| == 2
  {
    t == Store(s.cells[Spare(s.sequence) := Some((next, Next(s.sequence)))], next, Next(s.sequence), s.defaults, true, {})
  }

  ghost predicate Fails<C>(s: Store<C>, next: C, seen: Option<(C, u32)>, t: Store<C>)
    requires |s.cells| == 2
  {
    Possible(s, next, seen) && t == s.(cells := s.cells[Spare(s.sequence) := seen], attempts := s.attempts + {next})
  }

  ghost predicate IsCut<C>(s: Store<C>, next: C, seen: Option<(C, u32)>, t: Store<C>)
    requires |s.cells| == 2
  {
    Possible(s, next, seen) && t == Booted(s.cells[Spare(s.sequence) := seen], s.defaults)
  }

  /**
   The current record sits in its home cell. The other cell is empty, or holds
   the record before it, or one whose storing was never reported done.
   */
  ghost predicate Inv<C(!new)>(s: Store<C>) {
    && |s.cells| == 2
    && s.cells[Home(s.sequence)] == (if s.stored then Some((s.value, s.sequence)) else None)
    && (!s.stored ==> s.value == s.defaults && s.sequence == 0)
    && match s.cells[Spare(s.sequence)]
       case None => true
       case Some((c, q)) => (s.stored && Next(q) == s.sequence) || (q == Next(s.sequence) && c in s.attempts)
  }

  /** The record about to be overwritten is never the current one, at any sequence number. */
  lemma SpareIsNotHome(sequence: u32)
    ensures Spare(sequence) == 1 - Home(sequence)
  {}

  /**
   Which record the next boot finds: the current one, or an attempt that was
   written in full; none only if nothing was ever stored. Never an older one.
   */
  lemma LoadsCurrentOrAttempt<C(!new)>(s: Store<C>)
    requires Inv(s)
    ensures match Loaded(s.cells)
            case None => !s.stored
            case Some((c, q)) =>
              (s.stored && c == s.value && q == s.sequence) || (c in s.attempts && q == Next(s.sequence))
  {}

  lemma CompletesKeeps<C(!new)>(s: Store<C>, next: C, t: Store<C>)
    requires Inv(s) && Completes(s, next, t)
    ensures Inv(t) && Loaded(t.cells) == Some((t.value, t.sequence))
  {}

  lemma FailsKeeps<C(!new)>(s: Store<C>, next: C, seen: Option<(C, u32)>, t: Store<C>)
    requires Inv(s) && Fails(s, next, seen, t)
    ensures Inv(t)
  {}

  lemma BootKeeps<C(!new)>(s: Store<C>)
    requires Inv(s)
    ensures Inv(Booted(s.cells, s.defaults))
    ensures s.stored ==> Booted(s.cells, s.defaults).stored
  {
    LoadsCurrentOrAttempt(s);
    SpareIsNotHome(s.sequence);
    var loaded := Loaded(s.cells);
    if loaded.Some? {
      var (c, q) := loaded.value;
      SpareIsNotHome(q);
      if q == Next(s.sequence) && !(s.stored && q == s.sequence) {
        BootsAttempt(s, c);
      } else {
        BootsCurrent(s);
      }
    }
  }

  lemma BootsCurrent<C(!new)>(s: Store<C>)
    requires Inv(s) && Loaded(s.cells) == Some((s.value, s.sequence)) && s.stored
    ensures Inv(Booted(s.cells, s.defaults))
  {
    SpareIsNotHome(s.sequence);
  }

  lemma BootsAttempt<C(!new)>(s: Store<C>, c: C)
    requires Inv(s) && Loaded(s.cells) == Some((c, Next(s.sequence)))
    ensures Inv(Booted(s.cells, s.defaults))
  {
    SpareIsNotHome(s.sequence);
    SpareIsNotHome(Next(s.sequence));
  }

  /** After a cut the device works with the last completed value, an earlier attempt, or the one being written. */
  lemma CutKeeps<C(!new)>(s: Store<C>, next: C, seen: Option<(C, u32)>, t: Store<C>)
    requires Inv(s) && IsCut(s, next, seen, t)
    ensures Inv(t)
    ensures s.stored ==> t.stored
    ensures t.stored ==> t.value in s.attempts + {next} || (s.stored && t.value == s.value)
  {
    var u := s.(cells := s.cells[Spare(s.sequence) := seen], attempts := s.attempts + {next});
    FailsKeeps(s, next, seen, u);
    BootKeeps(u);
    LoadsCurrentOrAttempt(u);
  }

  /** The value a boot would start from. */
  ghost function BootValue<C>(cells: seq<Option<(C, u32)>>, defaults: C): C
    requires |cells| == 2
  {
    Booted(cells, defaults).value
  }

  /**
   What a boot finds once writing `next` was interrupted: the current value, what
   it would have found before, or `next`; and `next` exactly if it reads back.
   */
  lemma BootsOneOf<C(!new)>(s: Store<C>, next: C, seen: Option<(C, u32)>)
    requires Inv(s) && Possible(s, next, seen)
    ensures var after := BootValue(s.cells[Spare(s.sequence) := seen], s.defaults);
            if seen == Some((next, Next(s.sequence))) then after == next
            else after == s.value || after == BootValue(s.cells, s.defaults)
  {
    SpareIsNotHome(s.sequence);
    if seen == s.cells[Spare(s.sequence)] {
      assert s.cells[Spare(s.sequence) := seen] == s.cells;
    }
  }
}
