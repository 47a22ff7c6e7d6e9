/**
 The value in RAM against the records in flash, over every run of updates,
 driver errors, power cuts, reboots and other flash traffic. Nothing here
 depends on the record format: it is a codec with three laws.
 */
module StorageRuns {
  import opened Bytes
  import opened Wrappers
  import opened Flash
  import opened Cells
  import opened ConfigStore
  import opened Record
  import opened Veils

  datatype Codec<!C(!new)> = Codec(
    read: seq<byte> -> Option<(C, u32)>,
    page: (C, u32) -> seq<byte>,
    good: C -> bool)

  /** Pages of good values read back; an erased sector reads as nothing; what reads is good. */
  ghost predicate Lawful<C(!new)>(codec: Codec<C>) {
    && (forall c, q: u32 :: codec.good(c) ==>
      |codec.page(c, q)| == PADDED_LEN && codec.read(codec.page(c, q)[..RECORD_LEN]) == Some((c, q)))
    && (forall b :: |b| == RECORD_LEN && b[0] == 0xFF ==> codec.read(b) == None)
    && (forall b :: codec.read(b).Some? ==> codec.good(codec.read(b).value.0))
  }

  /**
   A device: its flash, the value and number in RAM, the value to start from,
   whether the value in RAM has been stored, and the values whose storing was
   begun since without being reported complete.
   */
  datatype Device<C(!new)> = Device(mem: Mem, value: C, sequence: u32, defaults: C, stored: bool, attempts: set<C>)

  datatype Event<C> =
    /** `update_config` ran to its end. */
    | Completed(next: C)
    /** The flash driver reported an error and left `left`. */
    | Failed(next: C, left: Mem)
    /** Power was cut during `update_config`, leaving `left`; the device booted again. */
    | Cut(next: C, left: Mem)
    /** Power was cut at rest. */
    | Reboot
    /** Something outside the config sectors changed. */
    | Elsewhere(left: Mem)

  function Reads<C(!new)>(codec: Codec<C>, m: Mem): (cells: seq<Option<(C, u32)>>)
    ensures |cells| == 2
  {
    [codec.read(SectorBytes(m, 0)), codec.read(SectorBytes(m, 1))]
  }

  /** The two sectors read as cells. */
  function View<C(!new)>(codec: Codec<C>, d: Device<C>): Store<C> {
    Store(Reads(codec, d.mem), d.value, d.sequence, d.defaults, d.stored, d.attempts)
  }

  /** `Storage::new` on a given flash. */
  function Boot<C(!new)>(codec: Codec<C>, mem: Mem, defaults: C): Device<C> {
    match Loaded(Reads(codec, mem))
    case Some((value, sequence)) => Device(mem, value, sequence, defaults, true, {})
    case None => Device(mem, defaults, 0, defaults, false, {})
  }

  /** Writing a page stopped after `k` operations, or inside the next one. */
  ghost predicate StoppedAt(m: Mem, page: seq<byte>, sequence: u32, k: nat, left: Mem)
    requires |page| == PADDED_LEN && k <= 2
  {
    CleanlyStoppedAt(m, page, sequence, k, left)
    || (k < 2 && PageOps(page, sequence)[k].Torn(Replay(m, PageOps(page, sequence)[..k]), left))
  }

  ghost predicate CleanlyStoppedAt(m: Mem, page: seq<byte>, sequence: u32, k: nat, left: Mem)
    requires |page| == PADDED_LEN && k <= 2
  {
    left == Replay(m, PageOps(page, sequence)[..k])
  }

  /**
   The one assumption about a torn sector: if its bytes still check out as a
   record, it is the record that was there or the one being written.
   */
  ghost predicate TornDetected<C(!new)>(codec: Codec<C>, m: Mem, left: Mem, next: C, sequence: u32) {
    var seen := codec.read(SectorBytes(left, Home(sequence)));
    seen == None || seen == codec.read(SectorBytes(m, Home(sequence))) || seen == Some((next, sequence))
  }

  /** Storing `next` was broken off; only a cut inside an operation needs the assumption. */
  ghost predicate BrokenOff<C(!new)>(codec: Codec<C>, d: Device<C>, next: C, left: Mem)
    requires Lawful(codec) && codec.good(next)
  {
    var sequence := Cells.Next(d.sequence);
    var page := codec.page(next, sequence);
    exists k: nat :: k <= 2 && StoppedAt(d.mem, page, sequence, k, left)
      && (CleanlyStoppedAt(d.mem, page, sequence, k, left) || TornDetected(codec, d.mem, left, next, sequence))
  }

  ghost predicate Step<C(!new)>(codec: Codec<C>, d: Device<C>, e: Event<C>, d': Device<C>)
    requires Lawful(codec)
  {
    match e
    case Completed(next) =>
      && codec.good(next)
      && d' == if next == d.value then d
               else Device(Replay(d.mem, PageOps(codec.page(next, Next(d.sequence)), Next(d.sequence))),
                           next, Next(d.sequence), d.defaults, true, {})
    case Failed(next, left) =>
      && codec.good(next)
      && BrokenOff(codec, d, next, left)
      && d' == d.(mem := left, attempts := d.attempts + {next})
    case Cut(next, left) =>
      && codec.good(next)
      && BrokenOff(codec, d, next, left)
      && d' == Boot(codec, left, d.defaults)
    case Reboot => d' == Boot(codec, d.mem, d.defaults)
    case Elsewhere(left) =>
      && (forall i :: CONFIG_START <= i < CONFIG_START + CONFIG_SECTORS * SECTOR ==> left[i] == d.mem[i])
      && d' == d.(mem := left)
  }

  ghost predicate Moved<C(!new)>(x: (Codec<C>, Device<C>, Event<C>, Device<C>)) {
    Lawful(x.0) && Step(x.0, x.1, x.2, x.3)
  }

  /** A step, at arm's length: see `MovesIs`. */
  ghost predicate Moves<C(!new)>(codec: Codec<C>, d: Device<C>, e: Event<C>, d': Device<C>) {
    Veil(Moved, (codec, d, e, d'), d.sequence + 3)
  }

  lemma MovesIs<C(!new)>(codec: Codec<C>, d: Device<C>, e: Event<C>, d': Device<C>)
    ensures Moves(codec, d, e, d') <==> Lawful(codec) && Step(codec, d, e, d')
  {
    Lift(Moved, (codec, d, e, d'), d.sequence + 3);
  }

  /**
   The driver refused to store `next`. If the flash it left is as assumed of torn
   sectors, that is a `Failed` step.
   */
  ghost predicate Refuses<C(!new)>(codec: Codec<C>, d: Device<C>, next: C, d': Device<C>) {
    && d' == d.(mem := d'.mem, attempts := d.attempts + {next})
    && (TornDetected(codec, d.mem, d'.mem, next, Cells.Next(d.sequence)) ==> Moves(codec, d, Failed(next, d'.mem), d'))
  }

  // --- bytes to cells ------------------------------------------------------

  /** Between operations nothing needs to be assumed about the written sector. */
  lemma CleanSector<C(!new)>(codec: Codec<C>, m: Mem, next: C, sequence: u32, k: nat, left: Mem)
    requires Lawful(codec) && codec.good(next) && k <= 2
    requires CleanlyStoppedAt(m, codec.page(next, sequence), sequence, k, left)
    ensures TornDetected(codec, m, left, next, sequence)
  {
    OwnSectorBetween(m, codec.page(next, sequence), sequence);
  }

  lemma StoppedKeepsOther(m: Mem, page: seq<byte>, sequence: u32, k: nat, left: Mem)
    requires |page| == PADDED_LEN && k <= 2
    requires StoppedAt(m, page, sequence, k, left)
    ensures SectorBytes(left, 1 - Home(sequence)) == SectorBytes(m, 1 - Home(sequence))
  {
    assert CutAt(m, PageOps(page, sequence), k, left);
    OtherSectorKept(m, page, sequence, k, left);
  }

  /** Rewriting one of two cells. */
  lemma CellsAfter<C(!new)>(codec: Codec<C>, d: Device<C>, left: Mem)
    requires SectorBytes(left, Home(d.sequence)) == SectorBytes(d.mem, Home(d.sequence))
    ensures Reads(codec, left)
         == Reads(codec, d.mem)[Spare(d.sequence) := codec.read(SectorBytes(left, Spare(d.sequence)))]
  {
    SpareIsNotHome(d.sequence);
  }

  lemma StoppedCells<C(!new)>(codec: Codec<C>, d: Device<C>, page: seq<byte>, k: nat, left: Mem)
    requires |page| == PADDED_LEN && k <= 2 && StoppedAt(d.mem, page, Next(d.sequence), k, left)
    ensures Reads(codec, left)
         == Reads(codec, d.mem)[Spare(d.sequence) := codec.read(SectorBytes(left, Spare(d.sequence)))]
  {
    SpareIsNotHome(d.sequence);
    StoppedKeepsOther(d.mem, page, Next(d.sequence), k, left);
    CellsAfter(codec, d, left);
  }

  /** Every cut of a store leaves the home cell, and the spare one as `Possible` allows. */
  lemma BrokenOffCells<C(!new)>(codec: Codec<C>, d: Device<C>, next: C, left: Mem)
    requires Lawful(codec) && codec.good(next) && BrokenOff(codec, d, next, left)
    ensures Possible(View(codec, d), next, codec.read(SectorBytes(left, Spare(d.sequence))))
    ensures Reads(codec, left)
         == Reads(codec, d.mem)[Spare(d.sequence) := codec.read(SectorBytes(left, Spare(d.sequence)))]
  {
    var sequence := Next(d.sequence);
    var page := codec.page(next, sequence);
    var k: nat :| k <= 2 && StoppedAt(d.mem, page, sequence, k, left)
      && (CleanlyStoppedAt(d.mem, page, sequence, k, left) || TornDetected(codec, d.mem, left, next, sequence));
    StoppedCells(codec, d, page, k, left);
    if CleanlyStoppedAt(d.mem, page, sequence, k, left) {
      CleanSector(codec, d.mem, next, sequence, k, left);
    }
    SpareHolds(codec, d);
  }

  lemma SpareHolds<C(!new)>(codec: Codec<C>, d: Device<C>)
    ensures Reads(codec, d.mem)[Spare(d.sequence)] == codec.read(SectorBytes(d.mem, Spare(d.sequence)))
  {}

  lemma CompletedCells<C(!new)>(codec: Codec<C>, d: Device<C>, next: C)
    requires Lawful(codec) && codec.good(next)
    ensures Reads(codec, Replay(d.mem, PageOps(codec.page(next, Next(d.sequence)), Next(d.sequence))))
         == Reads(codec, d.mem)[Spare(d.sequence) := Some((next, Next(d.sequence)))]
  {
    var sequence := Next(d.sequence);
    PageStored(d.mem, codec.page(next, sequence), sequence);
    SpareIsNotHome(d.sequence);
    CellsAfter(codec, d, Replay(d.mem, PageOps(codec.page(next, sequence), sequence)));
  }

  lemma ElsewhereCells<C(!new)>(codec: Codec<C>, m: Mem, left: Mem)
    requires forall i :: CONFIG_START <= i < CONFIG_START + CONFIG_SECTORS * SECTOR ==> left[i] == m[i]
    ensures Reads(codec, left) == Reads(codec, m)
  {
    SameBytes(m, left, 0);
    SameBytes(m, left, 1);
  }

  // --- steps and runs ------------------------------------------------------

  ghost predicate Sound<C(!new)>(codec: Codec<C>, d: Device<C>) {
    Inv(View(codec, d)) && codec.good(d.value) && codec.good(d.defaults)
  }

  /** Every step keeps the invariant, and what was stored once stays stored. */
  lemma StepKeeps<C(!new)>(codec: Codec<C>, d: Device<C>, e: Event<C>, d': Device<C>)
    requires Lawful(codec) && Sound(codec, d) && Step(codec, d, e, d')
    ensures Sound(codec, d') && (d.stored ==> d'.stored)
    ensures d'.stored ==> Explained(d, e, d')
  {
    match e
    case Completed(next) =>
      if next != d.value {
        CompletedCells(codec, d, next);
        CompletesKeeps(View(codec, d), next, View(codec, d'));
      }
    case Failed(next, left) =>
      BrokenOffCells(codec, d, next, left);
      FailsKeeps(View(codec, d), next, codec.read(SectorBytes(left, Spare(d.sequence))), View(codec, d'));
    case Cut(next, left) =>
      BrokenOffCells(codec, d, next, left);
      CutKeeps(View(codec, d), next, codec.read(SectorBytes(left, Spare(d.sequence))), View(codec, d'));
    case Reboot =>
      BootKeeps(View(codec, d));
      LoadsCurrentOrAttempt(View(codec, d));
    case Elsewhere(left) =>
      ElsewhereCells(codec, d.mem, left);
  }

  /** Where the value in RAM after a step comes from: never from an older record. */
  ghost predicate Explained<C(!new)>(d: Device<C>, e: Event<C>, d': Device<C>) {
    || (d.stored && d'.value == d.value)
    || (e.Completed? && d'.value == e.next)
    || (e.Cut? && d'.value == e.next)
    || ((e.Cut? || e.Reboot?) && d'.value in d.attempts)
  }

  ghost predicate Run<C(!new)>(codec: Codec<C>, ds: seq<Device<C>>, es: seq<Event<C>>)
    requires Lawful(codec)
  {
    && |ds| == |es| + 1
    && forall i :: 0 <= i < |es| ==> Moves(codec, ds[i], es[i], ds[i + 1])
  }

  lemma {:induction false} RunKeeps<C(!new)>(codec: Codec<C>, ds: seq<Device<C>>, es: seq<Event<C>>, n: nat)
    requires Lawful(codec) && Run(codec, ds, es) && Sound(codec, ds[0])
    requires n < |ds|
    ensures Sound(codec, ds[n])
    ensures ds[0].stored ==> ds[n].stored
  {
    if n > 0 {
      RunKeeps(codec, ds, es, n - 1);
      MovesIs(codec, ds[n - 1], es[n - 1], ds[n]);
      StepKeeps(codec, ds[n - 1], es[n - 1], ds[n]);
    }
  }

  /**
   Atomicity. In every run, at every moment: once a value was stored, a boot
   from the flash as it is finds a record; it is the value in RAM or one whose
   storing was begun since, never an older one.
   */
  lemma Atomicity<C(!new)>(codec: Codec<C>, ds: seq<Device<C>>, es: seq<Event<C>>, n: nat)
    requires Lawful(codec) && Run(codec, ds, es) && Sound(codec, ds[0])
    requires n < |ds|
    ensures var loaded := Loaded(Reads(codec, ds[n].mem));
            match loaded
            case None => !ds[n].stored
            case Some((c, q)) => (ds[n].stored && c == ds[n].value && q == ds[n].sequence) || c in ds[n].attempts
    ensures n > 0 && ds[n].stored ==> Explained(ds[n - 1], es[n - 1], ds[n])
    ensures forall m :: n <= m < |ds| && ds[n].stored ==> ds[m].stored
  {
    RunKeeps(codec, ds, es, n);
    LoadsCurrentOrAttempt(View(codec, ds[n]));
    StepExplained(codec, ds, es, n);
    forall m | n <= m < |ds| && ds[n].stored
      ensures ds[m].stored
    {
      StoredStays(codec, ds, es, n, m);
    }
  }

  lemma StepExplained<C(!new)>(codec: Codec<C>, ds: seq<Device<C>>, es: seq<Event<C>>, n: nat)
    requires Lawful(codec) && Run(codec, ds, es) && Sound(codec, ds[0])
    requires n < |ds|
    ensures n > 0 && ds[n].stored ==> Explained(ds[n - 1], es[n - 1], ds[n])
  {
    if n > 0 {
      RunKeeps(codec, ds, es, n - 1);
      MovesIs(codec, ds[n - 1], es[n - 1], ds[n]);
      StepKeeps(codec, ds[n - 1], es[n - 1], ds[n]);
    }
  }

  lemma {:induction false} StoredStays<C(!new)>(codec: Codec<C>, ds: seq<Device<C>>, es: seq<Event<C>>, n: nat, m: nat)
    requires Lawful(codec) && Run(codec, ds, es) && Sound(codec, ds[0])
    requires n <= m < |ds| && ds[n].stored
    ensures ds[m].stored
  {
    if n < m {
      StoredStays(codec, ds, es, n, m - 1);
      RunKeeps(codec, ds, es, m - 1);
      MovesIs(codec, ds[m - 1], es[m - 1], ds[m]);
      StepKeeps(codec, ds[m - 1], es[m - 1], ds[m]);
    }
  }

  /** Without driver errors, a boot at rest finds exactly the value in RAM. */
  lemma {:induction false} ErrorFreeRunsLoadExactly<C(!new)>(codec: Codec<C>, ds: seq<Device<C>>, es: seq<Event<C>>, n: nat)
    requires Lawful(codec) && Run(codec, ds, es) && Sound(codec, ds[0])
    requires ds[0].attempts == {} && forall i :: 0 <= i < |es| ==> !es[i].Failed?
    requires n < |ds|
    ensures ds[n].attempts == {}
    ensures Loaded(Reads(codec, ds[n].mem)) == (if ds[n].stored then Some((ds[n].value, ds[n].sequence)) else None)
    ensures n > 0 && es[n - 1].Cut? && ds[n].stored ==>
      ds[n].value == es[n - 1].next || (ds[n - 1].stored && ds[n].value == ds[n - 1].value)
  {
    if n > 0 {
      ErrorFreeRunsLoadExactly(codec, ds, es, n - 1);
      MovesIs(codec, ds[n - 1], es[n - 1], ds[n]);
    }
    Atomicity(codec, ds, es, n);
  }

  // --- what the flash would boot to ----------------------------------------

  /** The value the next boot would start from if power went now. */
  ghost function Flashed<C(!new)>(codec: Codec<C>, d: Device<C>): C {
    Boot(codec, d.mem, d.defaults).value
  }

  /** The spare sector, as `left` has it, reads as the record that was being written. */
  ghost predicate ReadsBack<C(!new)>(codec: Codec<C>, d: Device<C>, next: C, left: Mem) {
    codec.read(SectorBytes(left, Spare(d.sequence))) == Some((next, Next(d.sequence)))
  }

  lemma FlashedIsBooted<C(!new)>(codec: Codec<C>, d: Device<C>)
    ensures Flashed(codec, d) == BootValue(Reads(codec, d.mem), d.defaults)
  {}

  /** An interrupted store leaves the flash with the old value, what it had before, or the new value: the latter exactly if it reads back. */
  lemma FlashedAfterBreak<C(!new)>(codec: Codec<C>, d: Device<C>, next: C, left: Mem)
    requires Lawful(codec) && Sound(codec, d) && codec.good(next) && BrokenOff(codec, d, next, left)
    ensures var after := Flashed(codec, d.(mem := left));
            if ReadsBack(codec, d, next, left) then after == next
            else after == d.value || after == Flashed(codec, d)
  {
    BrokenOffCells(codec, d, next, left);
    BootsOneOf(View(codec, d), next, codec.read(SectorBytes(left, Spare(d.sequence))));
    FlashedIsBooted(codec, d);
    FlashedIsBooted(codec, d.(mem := left));
  }

  /** Where RAM and flash stand after a step. */
  lemma FlashedAfter<C(!new)>(codec: Codec<C>, d: Device<C>, e: Event<C>, d': Device<C>)
    requires Lawful(codec) && Sound(codec, d) && Step(codec, d, e, d')
    ensures d'.defaults == d.defaults
    ensures match e
            case Completed(next) => d'.value == next && Flashed(codec, d') == (if next == d.value then Flashed(codec, d) else next)
            case Failed(next, left) =>
              && d'.value == d.value
              && if ReadsBack(codec, d, next, left) then Flashed(codec, d') == next
                 else Flashed(codec, d') == d.value || Flashed(codec, d') == Flashed(codec, d)
            case Cut(next, left) =>
              && d'.value == Flashed(codec, d')
              && (d'.value == d.value || d'.value == next || d'.value == Flashed(codec, d))
            case Reboot => d'.value == Flashed(codec, d') == Flashed(codec, d)
            case Elsewhere(_) => d'.value == d.value && Flashed(codec, d') == Flashed(codec, d)
  {
    FlashedIsBooted(codec, d);
    FlashedIsBooted(codec, d');
    match e
    case Completed(next) =>
      if next != d.value {
        CompletedCells(codec, d, next);
        CompletesKeeps(View(codec, d), next, View(codec, d'));
      }
    case Failed(next, left) => FlashedAfterBreak(codec, d, next, left);
    case Cut(next, left) =>
      FlashedAfterBreak(codec, d, next, left);
      FlashedIsBooted(codec, d.(mem := left));
    case Reboot =>
    case Elsewhere(left) => ElsewhereCells(codec, d.mem, left);
  }

  /** A refusal may come although the record was written in full; the next boot then adopts it. */
  lemma WrittenButRefused<C(!new)>(codec: Codec<C>, d: Device<C>, next: C) returns (d': Device<C>)
    requires Lawful(codec) && Sound(codec, d) && codec.good(next)
    ensures d' == d.(mem := d'.mem, attempts := d.attempts + {next})
    ensures d'.mem == Replay(d.mem, PageOps(codec.page(next, Next(d.sequence)), Next(d.sequence)))
    ensures Step(codec, d, Failed(next, d'.mem), d') && ReadsBack(codec, d, next, d'.mem) && Flashed(codec, d') == next
  {
    var number := Next(d.sequence);
    var page := codec.page(next, number);
    var left := Replay(d.mem, PageOps(page, number));
    d' := d.(mem := left, attempts := d.attempts + {next});
    OwnSectorBetween(d.mem, page, number);
    PageStored(d.mem, page, number);
    var k: nat := 2;
    assert CleanlyStoppedAt(d.mem, page, number, k, left);
    assert k <= 2 && StoppedAt(d.mem, page, number, k, left);
    FlashedAfter(codec, d, Failed(next, left), d');
  }
}
