/**
 The two-slot photo protocol over every run: fetches, streamed pieces, app
 switches, settings changes, cache clearing, config writes that the driver
 reports as failed, and power cuts anywhere.
 */
module PhotoRuns {
  import opened Bytes
  import opened Wrappers
  import opened FixedStrs
  import opened Flash
  import opened Blob
  import opened ConfigStore
  import opened Record
  import opened StorageRuns
  import Cells
  import opened Veils
  import Photo

  datatype Answer = Reply(status: u16, len: nat, stamp: FixedStr) | Trouble

  /** The app lane, seen from the photo frame. */
  datatype Phase =
    | Quiet
    | Queued(slot: nat)
    /** The slot's header is erased and its data is on the way. */
    | Writing(slot: nat)
    | Answered(slot: nat, answer: Answer)
    /** The lane carries something else: another app's request, or a motion frame. */
    | Foreign(pending: bool)
  {
    predicate Busy() {
      Queued? || Writing? || (Foreign? && pending)
    }
  }

  /**
   `received` and `spoiled` are bookkeeping: every complete photo with its stamp; and
   whether, since the app was entered, a cache clearing that failed took the named slot
   its photo, or a photo could not be recorded while the named slot held none.
   */
  datatype World = World(
    dev: Device<Config>,
    lane: Phase,
    running: bool,
    fetching: bool,
    pendingSlot: nat,
    force: bool,
    spoiled: bool,
    received: set<(FixedStr, seq<byte>)>)
  {
    function Named(): nat {
      dev.value.frameSlot
    }

    function Stamp(): FixedStr {
      dev.value.frameLastModified
    }
  }

  datatype Event =
    | Enter
    | Leave
    /** L held: fetch again even if nothing is new. */
    | Hold
    | Fetch
    | Begin(left: Mem)
    | Piece(left: Mem)
    | Complete(body: seq<byte>, stamp: FixedStr, left: Mem)
    /** An answer without a body, or a failure that may leave the slot in any state. */
    | Ended(answer: Answer, left: Mem)
    | Poll
    /** The answer was a photo, but the driver reported its config write as failed and left `left`; the app goes on. */
    | PollFails(left: Mem)
    /** Any other settings change; all of them keep the stamp or clear it. */
    | Settings(next: Config)
    | SettingsFail(next: Config, left: Mem)
    | ForeignFetch
    | ForeignDone
    | ForeignTake
    | Elsewhere(left: Mem)
    /** The cache is cleared, or everything reset; `next` is the config without a photo. */
    | Clear(left: Mem, next: Config)
    /** The flash driver refused one of the erases. */
    | ClearFails(left: Mem)
    /** Both headers are erased, but the config write is reported as failed. */
    | ClearStoreFails(erased: Mem, next: Config, left: Mem)
    /** Power is cut at rest or in the middle of writing a slot. */
    | CutInSlot(left: Mem)
    /** Power is cut while the config is being stored. */
    | CutInPoll(left: Mem)
    | CutInSettings(next: Config, left: Mem)
    /** Power is cut while headers are erased, or after that while the config is stored. */
    | CutInErase(left: Mem)
    | CutInClear(erased: Mem, next: Config, left: Mem)

  predicate IsClear(e: Event) {
    e.Clear? || e.ClearFails? || e.ClearStoreFails? || e.CutInErase? || e.CutInClear?
  }

  // --- flash ---------------------------------------------------------------

  ghost predicate SameSlot(m: Mem, left: Mem, slot: nat)
    requires slot < BLOB_SLOTS
  {
    forall i :: 0 <= i < FLASH_SIZE && InSlot(slot, i) ==> left[i] == m[i]
  }

  ghost predicate SameData(m: Mem, left: Mem, slot: nat)
    requires slot < BLOB_SLOTS
  {
    forall i :: DataStart(slot) <= i < SlotBase(slot) + BLOB_SLOT_SIZE ==> left[i] == m[i]
  }

  ghost predicate OnlySlot(m: Mem, left: Mem, slot: nat)
    requires slot < BLOB_SLOTS
  {
    forall i :: 0 <= i < FLASH_SIZE && !InSlot(slot, i) ==> left[i] == m[i]
  }

  /** Neither photo slot nor the config changes. */
  ghost predicate OnlyElsewhere(m: Mem, left: Mem) {
    && SameSlot(m, left, Photo.SLOT_A) && SameSlot(m, left, Photo.SLOT_B)
    && forall i :: CONFIG_START <= i < FLASH_SIZE ==> left[i] == m[i]
  }

  /** Only headers of photo slots change: erased, or caught while being erased. */
  ghost predicate OnlyHeaders(m: Mem, left: Mem) {
    && SameData(m, left, Photo.SLOT_A) && SameData(m, left, Photo.SLOT_B)
    && forall i :: CONFIG_START <= i < FLASH_SIZE ==> left[i] == m[i]
  }

  ghost predicate BothErased(m: Mem, left: Mem) {
    OnlyHeaders(m, left) && Blob.Empty(left, Photo.SLOT_A) && Blob.Empty(left, Photo.SLOT_B)
  }

  // --- steps ---------------------------------------------------------------

  function Adopts(w: World): Option<Config> {
    if w.running && w.fetching && w.lane.Answered? && w.lane.answer.Reply? && w.pendingSlot < BLOB_SLOTS
       && Photo.Adoptable(w.dev.mem, w.pendingSlot, w.lane.answer.status, w.lane.answer.len)
    then Some(Photo.Adopted(w.dev.value, w.pendingSlot, w.lane.answer.stamp))
    else None
  }

  function Rebooted(w: World, d: Device<Config>): World {
    World(d, Quiet, false, false, 0, false, false, w.received)
  }

  function AfterBoot(codec: Codec<Config>, w: World, left: Mem): World {
    Rebooted(w, Boot(codec, left, w.dev.defaults))
  }

  predicate InLane(w: World) {
    w.lane.Queued? || w.lane.Writing? || w.lane.Answered? ==> w.lane.slot < 2
  }

  ghost predicate BeginStep(w: World, left: Mem, w': World)
    requires InLane(w)
  {
    && w.lane.Queued? && OnlySlot(w.dev.mem, left, w.lane.slot) && Blob.Empty(left, w.lane.slot)
    && w' == w.(lane := Writing(w.lane.slot), dev := w.dev.(mem := left))
  }

  ghost predicate PieceStep(w: World, left: Mem, w': World)
    requires InLane(w)
  {
    && w.lane.Writing? && OnlySlot(w.dev.mem, left, w.lane.slot) && Blob.Empty(left, w.lane.slot)
    && w' == w.(dev := w.dev.(mem := left))
  }

  ghost predicate CompleteStep(w: World, body: seq<byte>, stamp: FixedStr, left: Mem, w': World)
    requires InLane(w)
  {
    && w.lane.Writing? && OnlySlot(w.dev.mem, left, w.lane.slot)
    && Photo.Holds(left, w.lane.slot, body)
    && w' == w.(lane := Answered(w.lane.slot, Reply(200, |body|, stamp)), dev := w.dev.(mem := left),
                received := w.received + {(stamp, body)})
  }

  ghost predicate EndedStep(w: World, answer: Answer, left: Mem, w': World)
    requires InLane(w)
  {
    && (w.lane.Queued? || w.lane.Writing?) && OnlySlot(w.dev.mem, left, w.lane.slot)
    && (answer.Reply? ==> answer.status != 200)
    && w' == w.(lane := Answered(w.lane.slot, answer), dev := w.dev.(mem := left))
  }

  ghost predicate PollStep(codec: Codec<Config>, w: World, w': World)
  {
    && w.running && w.fetching && w.lane.Answered?
    && match Adopts(w)
       case Some(next) =>
         && Moves(codec, w.dev, Completed(next), w'.dev)
         && w' == w.(lane := Quiet, fetching := false, force := false, spoiled := false, dev := w'.dev)
       case None => w' == w.(lane := Quiet, fetching := false)
  }

  ghost predicate PollFailsStep(codec: Codec<Config>, w: World, left: Mem, w': World)
    requires w.Named() < 2
  {
    && w.running && w.fetching && w.lane.Answered? && Adopts(w).Some?
    && Moves(codec, w.dev, Failed(Adopts(w).value, left), w'.dev)
    && w' == w.(lane := Quiet, fetching := false, force := false, dev := w'.dev,
                spoiled := !Photo.Shows(w.dev.mem, w.Named()))
  }

  ghost predicate SettingsFailStep(codec: Codec<Config>, w: World, next: Config, left: Mem, w': World)
  {
    && Photo.KeepsPhoto(w.dev.value, next)
    && Moves(codec, w.dev, Failed(next, left), w'.dev)
    && w' == w.(dev := w'.dev)
  }

  ghost predicate ClearFailsStep(w: World, left: Mem, w': World)
    requires w.Named() < 2
  {
    OnlyHeaders(w.dev.mem, left) && w' == w.(dev := w.dev.(mem := left), spoiled := !Photo.Shows(left, w.Named()))
  }

  /** What clearing the cache makes of the config, or a reset. */
  predicate Forgets(d: Device<Config>, next: Config) {
    next == Photo.Forgotten(d.value) || next == d.defaults
  }

  ghost predicate ClearStoreFailsStep(codec: Codec<Config>, w: World, erased: Mem, next: Config, left: Mem, w': World)
  {
    && BothErased(w.dev.mem, erased) && Forgets(w.dev, next)
    && Moves(codec, w.dev.(mem := erased), Failed(next, left), w'.dev)
    && w' == w.(dev := w'.dev, spoiled := true)
  }

  ghost predicate SettingsStep(codec: Codec<Config>, w: World, next: Config, w': World)
  {
    && Photo.KeepsPhoto(w.dev.value, next)
    && Moves(codec, w.dev, Completed(next), w'.dev)
    && w' == w.(dev := w'.dev)
  }

  ghost predicate ClearStep(codec: Codec<Config>, w: World, left: Mem, next: Config, w': World)
  {
    && BothErased(w.dev.mem, left) && Forgets(w.dev, next)
    && Moves(codec, w.dev.(mem := left), Completed(next), w'.dev)
    && w' == w.(dev := w'.dev)
  }

  /** Storing `next` on a flash otherwise like `before` is cut, leaving `left`. */
  ghost predicate CutStep(codec: Codec<Config>, w: World, before: Mem, next: Config, left: Mem, w': World)
  {
    && w' == AfterBoot(codec, w, left)
    && Moves(codec, w.dev.(mem := before), Cut(next, left), w'.dev)
  }

  /** Power is cut with `left` in flash, which holds the config as before. */
  ghost predicate OffStep(codec: Codec<Config>, w: World, left: Mem, w': World) {
    w' == AfterBoot(codec, w, left)
  }

  /** Steps that leave the flash and the config alone. */
  ghost predicate LaneStep(w: World, e: Event, w': World)
    requires w.Named() < 2
  {
    match e
    case Enter =>
      w' == w.(running := true, fetching := false, force := !Photo.Shows(w.dev.mem, w.Named()), spoiled := false)
    case Leave => w' == w.(running := false)
    case Hold => w.running && w' == w.(force := true)
    case Fetch =>
      && w.running && !w.fetching
      && w' == if w.lane.Busy() then w
               else w.(lane := Queued(Photo.Target(w.Named())), fetching := true, pendingSlot := Photo.Target(w.Named()))
    case ForeignFetch =>
      !(w.running && w.fetching) && w' == if w.lane.Busy() then w else w.(lane := Foreign(true))
    case ForeignDone => w.lane == Foreign(true) && w' == w.(lane := Foreign(false))
    case ForeignTake => !(w.running && w.fetching) && !w.lane.Busy() && w' == w.(lane := Quiet)
    case _ => false
  }

  ghost predicate Step(codec: Codec<Config>, w: World, e: Event, w': World)
    requires w.Named() < 2 && InLane(w)
  {
    match e
    case Begin(left) => BeginStep(w, left, w')
    case Piece(left) => PieceStep(w, left, w')
    case Complete(body, stamp, left) => CompleteStep(w, body, stamp, left, w')
    case Ended(answer, left) => EndedStep(w, answer, left, w')
    case Poll => PollStep(codec, w, w')
    case PollFails(left) => PollFailsStep(codec, w, left, w')
    case Settings(next) => SettingsStep(codec, w, next, w')
    case SettingsFail(next, left) => SettingsFailStep(codec, w, next, left, w')
    case Elsewhere(left) => OnlyElsewhere(w.dev.mem, left) && w' == w.(dev := w.dev.(mem := left))
    case Clear(left, next) => ClearStep(codec, w, left, next, w')
    case ClearFails(left) => ClearFailsStep(w, left, w')
    case ClearStoreFails(erased, next, left) => ClearStoreFailsStep(codec, w, erased, next, left, w')
    case CutInSlot(left) =>
      && (left == w.dev.mem || ((w.lane.Queued? || w.lane.Writing?) && OnlySlot(w.dev.mem, left, w.lane.slot)))
      && OffStep(codec, w, left, w')
    case CutInPoll(left) => Adopts(w).Some? && CutStep(codec, w, w.dev.mem, Adopts(w).value, left, w')
    case CutInSettings(next, left) => Photo.KeepsPhoto(w.dev.value, next) && CutStep(codec, w, w.dev.mem, next, left, w')
    case CutInErase(left) => OnlyHeaders(w.dev.mem, left) && OffStep(codec, w, left, w')
    case CutInClear(erased, next, left) =>
      BothErased(w.dev.mem, erased) && Forgets(w.dev, next) && CutStep(codec, w, erased, next, left, w')
    case _ => LaneStep(w, e, w')
  }

  // --- the invariant -------------------------------------------------------

  ghost predicate Steady(x: (Codec<Config>, Device<Config>)) {
    Lawful(x.0) && Sound(x.0, x.1)
  }

  ghost predicate DeviceOk(codec: Codec<Config>, d: Device<Config>) {
    && Veil(Steady, (codec, d), d.sequence + 3)
    && d.value.frameSlot < 2 && FlashedPhoto(codec, d).0 < 2
    && d.defaults.frameSlot < 2 && d.defaults.frameLastModified.IsEmpty()
  }

  lemma DeviceOkIs(codec: Codec<Config>, d: Device<Config>)
    ensures DeviceOk(codec, d) <==>
      && Steady((codec, d)) && d.value.frameSlot < 2 && Flashed(codec, d).frameSlot < 2
      && d.defaults.frameSlot < 2 && d.defaults.frameLastModified.IsEmpty()
  {
    Lift(Steady, (codec, d), d.sequence + 3);
    FlashedPhotoIs(codec, d);
  }

  ghost function PhotoBooted(x: (Codec<Config>, Device<Config>)): (nat, FixedStr) {
    (Flashed(x.0, x.1).frameSlot, Flashed(x.0, x.1).frameLastModified)
  }

  /** Slot and stamp as the next boot would find them. */
  ghost function FlashedPhoto(codec: Codec<Config>, d: Device<Config>): (nat, FixedStr) {
    Veil(PhotoBooted, (codec, d), d.sequence + 3)
  }

  lemma FlashedPhotoIs(codec: Codec<Config>, d: Device<Config>)
    ensures FlashedPhoto(codec, d) == (Flashed(codec, d).frameSlot, Flashed(codec, d).frameLastModified)
  {
    Lift(PhotoBooted, (codec, d), d.sequence + 3);
  }

  /** The flash would boot to the slot and stamp in RAM, or to no stamp. */
  ghost predicate FlashAgrees(codec: Codec<Config>, d: Device<Config>) {
    FlashedPhoto(codec, d).1.IsEmpty() || FlashedPhoto(codec, d) == (d.value.frameSlot as nat, d.value.frameLastModified)
  }

  ghost predicate Inv(codec: Codec<Config>, w: World)
  {
    && DeviceOk(codec, w.dev) && FlashAgrees(codec, w.dev)
    && InLane(w)
    && (w.running && w.fetching ==> (w.lane.Queued? || w.lane.Writing? || w.lane.Answered?) && w.lane.slot == w.pendingSlot)
    // What came with the stamp is what the named slot holds.
    && (!w.Stamp().IsEmpty() ==> (w.Stamp(), Photo.At(w.dev.mem, w.Named())) in w.received)
    // A slot being written is only ever named while there is no stamp.
    && ((w.lane.Queued? || w.lane.Writing?) && w.lane.slot == w.Named() ==> w.Stamp().IsEmpty())
    && (w.lane.Answered? && w.lane.answer.Reply? && w.lane.answer.status == 200 && w.lane.answer.len == Photo.BYTES ==>
          (w.lane.answer.stamp, Photo.At(w.dev.mem, w.lane.slot)) in w.received)
    && (w.running && !w.force && !w.Stamp().IsEmpty() ==> (Photo.Shows(w.dev.mem, w.Named()) <==> !w.spoiled))
  }

  /** No cache clearing: the slot being written, or about to be adopted, is not the named one, which a boot would name too. */
  ghost predicate Apart(codec: Codec<Config>, w: World) {
    && (w.lane.Queued? || w.lane.Writing? || w.lane.Answered? ==> w.lane.slot != w.Named())
    && FlashedPhoto(codec, w.dev).0 == w.Named()
  }

  lemma SlotKept(m: Mem, left: Mem, slot: nat)
    requires slot < 2 && SameSlot(m, left, slot)
    ensures Photo.Shows(left, slot) == Photo.Shows(m, slot) && Photo.At(left, slot) == Photo.At(m, slot)
  {
    assert Photo.HeaderAt(left, slot) == Photo.HeaderAt(m, slot);
  }

  lemma DataKept(m: Mem, left: Mem, slot: nat)
    requires slot < 2 && SameData(m, left, slot)
    ensures Photo.At(left, slot) == Photo.At(m, slot)
  {}

  /** Storing the config, in full or not, leaves the slots alone. */
  lemma ConfigOpsKeepSlots(codec: Codec<Config>, d: Device<Config>, next: Config, k: nat, left: Mem, slot: nat)
    requires slot < 2 && k <= 2
    requires |codec.page(next, Cells.Next(d.sequence))| == PADDED_LEN
    requires StoppedAt(d.mem, codec.page(next, Cells.Next(d.sequence)), Cells.Next(d.sequence), k, left)
    ensures SameSlot(d.mem, left, slot)
  {
    var ops := PageOps(codec.page(next, Cells.Next(d.sequence)), Cells.Next(d.sequence));
    assert CutAt(d.mem, ops, k, left);
    forall i | 0 <= i < FLASH_SIZE && InSlot(slot, i)
      ensures left[i] == d.mem[i]
    {
      UntouchedCut(d.mem, ops, left, i);
    }
  }

  function PhotoOf(c: Config): (nat, FixedStr) {
    (c.frameSlot as nat, c.frameLastModified)
  }

  lemma CompletedKeepsSlots(codec: Codec<Config>, d: Device<Config>, next: Config, d': Device<Config>, slot: nat)
    requires slot < 2 && Lawful(codec) && StorageRuns.Step(codec, d, Completed(next), d')
    ensures SameSlot(d.mem, d'.mem, slot)
  {
    if next != d.value {
      var number := Cells.Next(d.sequence);
      var page := codec.page(next, number);
      OwnSectorBetween(d.mem, page, number);
      assert CleanlyStoppedAt(d.mem, page, number, 2, d'.mem);
      ConfigOpsKeepSlots(codec, d, next, 2, d'.mem, slot);
    }
  }

  lemma BrokenOffKeepsSlots(codec: Codec<Config>, d: Device<Config>, next: Config, left: Mem, slot: nat)
    requires slot < 2 && Lawful(codec) && codec.good(next) && BrokenOff(codec, d, next, left)
    ensures SameSlot(d.mem, left, slot)
  {
    var number := Cells.Next(d.sequence);
    var page := codec.page(next, number);
    var k: nat :| k <= 2 && StoppedAt(d.mem, page, number, k, left);
    ConfigOpsKeepSlots(codec, d, next, k, left, slot);
  }

  /** A completed update. */
  lemma Stored(codec: Codec<Config>, d: Device<Config>, next: Config, d': Device<Config>)
    requires DeviceOk(codec, d) && next.frameSlot < 2
    requires Moves(codec, d, Completed(next), d')
    ensures DeviceOk(codec, d') && d'.value == next
    ensures FlashedPhoto(codec, d') == if next == d.value then FlashedPhoto(codec, d) else PhotoOf(next)
    ensures SameSlot(d.mem, d'.mem, 0) && SameSlot(d.mem, d'.mem, 1)
  {
    DeviceOkIs(codec, d);
    DeviceOkIs(codec, d');
    FlashedPhotoIs(codec, d);
    FlashedPhotoIs(codec, d');
    MovesIs(codec, d, Completed(next), d');
    StorageRuns.StepKeeps(codec, d, Completed(next), d');
    FlashedAfter(codec, d, Completed(next), d');
    CompletedKeepsSlots(codec, d, next, d', 0);
    CompletedKeepsSlots(codec, d, next, d', 1);
  }

  /** An update reported as failed: RAM stays, and the flash has the new record exactly if it reads back. */
  lemma NotStored(codec: Codec<Config>, d: Device<Config>, next: Config, left: Mem, d': Device<Config>)
    requires DeviceOk(codec, d) && next.frameSlot < 2
    requires Moves(codec, d, Failed(next, left), d')
    ensures DeviceOk(codec, d') && d'.value == d.value && d'.mem == left
    ensures if ReadsBack(codec, d, next, left) then FlashedPhoto(codec, d') == PhotoOf(next)
            else FlashedPhoto(codec, d') == PhotoOf(d.value) || FlashedPhoto(codec, d') == FlashedPhoto(codec, d)
    ensures SameSlot(d.mem, left, 0) && SameSlot(d.mem, left, 1)
  {
    DeviceOkIs(codec, d);
    DeviceOkIs(codec, d');
    FlashedPhotoIs(codec, d);
    FlashedPhotoIs(codec, d');
    MovesIs(codec, d, Failed(next, left), d');
    StorageRuns.StepKeeps(codec, d, Failed(next, left), d');
    FlashedAfter(codec, d, Failed(next, left), d');
    BrokenOffKeepsSlots(codec, d, next, left, 0);
    BrokenOffKeepsSlots(codec, d, next, left, 1);
  }

  /** A cut update: the old config, the one flash had, or the new one. */
  lemma StoredOrNot(codec: Codec<Config>, d: Device<Config>, next: Config, left: Mem)
    requires DeviceOk(codec, d) && next.frameSlot < 2
    requires Moves(codec, d, Cut(next, left), Boot(codec, left, d.defaults))
    ensures var d' := Boot(codec, left, d.defaults);
            && DeviceOk(codec, d') && FlashedPhoto(codec, d') == PhotoOf(d'.value)
            && (d'.value == d.value || d'.value == next || FlashedPhoto(codec, d') == FlashedPhoto(codec, d))
    ensures SameSlot(d.mem, left, 0) && SameSlot(d.mem, left, 1)
  {
    var d' := Boot(codec, left, d.defaults);
    DeviceOkIs(codec, d);
    DeviceOkIs(codec, d');
    FlashedPhotoIs(codec, d);
    FlashedPhotoIs(codec, d');
    MovesIs(codec, d, Cut(next, left), d');
    StorageRuns.StepKeeps(codec, d, Cut(next, left), d');
    FlashedAfter(codec, d, Cut(next, left), d');
    BrokenOffKeepsSlots(codec, d, next, left, 0);
    BrokenOffKeepsSlots(codec, d, next, left, 1);
  }

  /** Flash traffic outside the config, at rest and across a reboot. */
  lemma ConfigUntouched(codec: Codec<Config>, d: Device<Config>, left: Mem)
    requires DeviceOk(codec, d)
    requires forall i :: CONFIG_START <= i < FLASH_SIZE ==> left[i] == d.mem[i]
    ensures DeviceOk(codec, d.(mem := left)) && FlashedPhoto(codec, d.(mem := left)) == FlashedPhoto(codec, d)
    ensures var d' := Boot(codec, left, d.defaults);
            DeviceOk(codec, d') && FlashedPhoto(codec, d') == PhotoOf(d'.value) == FlashedPhoto(codec, d)
  {
    var d1 := d.(mem := left);
    DeviceOkIs(codec, d);
    DeviceOkIs(codec, d1);
    FlashedPhotoIs(codec, d);
    FlashedPhotoIs(codec, d1);
    StorageRuns.StepKeeps(codec, d, StorageRuns.Elsewhere(left), d1);
    FlashedAfter(codec, d, StorageRuns.Elsewhere(left), d1);
    RebootOk(codec, d1);
  }

  lemma RebootOk(codec: Codec<Config>, d: Device<Config>)
    requires DeviceOk(codec, d)
    ensures var d' := Boot(codec, d.mem, d.defaults);
            DeviceOk(codec, d') && FlashedPhoto(codec, d') == PhotoOf(d'.value) == FlashedPhoto(codec, d)
  {
    var d' := Boot(codec, d.mem, d.defaults);
    DeviceOkIs(codec, d);
    DeviceOkIs(codec, d');
    FlashedPhotoIs(codec, d);
    FlashedPhotoIs(codec, d');
    StorageRuns.StepKeeps(codec, d, StorageRuns.Reboot, d');
    FlashedAfter(codec, d, StorageRuns.Reboot, d');
  }

  // --- every step keeps it -------------------------------------------------

  lemma LaneStepKeeps(codec: Codec<Config>, w: World, e: Event, w': World)
    requires Inv(codec, w) && LaneStep(w, e, w')
    ensures Inv(codec, w')
    ensures w'.dev == w.dev && (Apart(codec, w) ==> Apart(codec, w'))
  {
    match e
    case Enter =>
    case Leave =>
    case Hold =>
    case Fetch =>
      if !w.lane.Busy() {
        assert w'.lane.slot == Photo.Target(w.Named()) != w.Named();
      }
    case ForeignFetch =>
    case ForeignDone =>
    case ForeignTake =>
    case _ =>
  }

  predicate IsSlotStep(e: Event) {
    e.Begin? || e.Piece? || e.Complete? || e.Ended?
  }

  /** A step that only rewrites the slot on its way. */
  lemma SlotStepKeeps(codec: Codec<Config>, w: World, e: Event, w': World)
    requires Inv(codec, w) && IsSlotStep(e) && Step(codec, w, e, w')
    ensures Inv(codec, w')
    ensures w'.dev.value == w.dev.value
    ensures Apart(codec, w) ==> Apart(codec, w') && SameSlot(w.dev.mem, w'.dev.mem, w.Named())
  {
    OnItsWay(codec, w, e.left, w');
    if e.Complete? {
      Photo.HoldsIs(e.left, w.lane.slot, e.body);
    }
  }

  /** What such a step leaves alone: the config, what a boot would find, and the named slot if it is another one. */
  lemma OnItsWay(codec: Codec<Config>, w: World, left: Mem, w': World)
    requires Inv(codec, w) && (w.lane.Queued? || w.lane.Writing?) && OnlySlot(w.dev.mem, left, w.lane.slot)
    requires w'.dev == w.dev.(mem := left)
    ensures DeviceOk(codec, w'.dev) && FlashAgrees(codec, w'.dev) && FlashedPhoto(codec, w'.dev) == FlashedPhoto(codec, w.dev)
    ensures w.lane.slot != w.Named() ==>
      && SameSlot(w.dev.mem, left, w.Named())
      && Photo.Shows(left, w.Named()) == Photo.Shows(w.dev.mem, w.Named())
      && Photo.At(left, w.Named()) == Photo.At(w.dev.mem, w.Named())
  {
    ConfigUntouched(codec, w.dev, left);
    if w.lane.slot != w.Named() {
      SlotKept(w.dev.mem, left, w.Named());
    }
  }

  lemma PollKeeps(codec: Codec<Config>, w: World, w': World)
    requires Inv(codec, w) && Step(codec, w, Poll, w')
    ensures Inv(codec, w') && (Apart(codec, w) ==> Apart(codec, w'))
    ensures Adopts(w).None? ==> w'.dev == w.dev
    ensures Adopts(w).Some? ==> w'.dev.value == Adopts(w).value
    ensures SameSlot(w.dev.mem, w'.dev.mem, 0) && SameSlot(w.dev.mem, w'.dev.mem, 1)
  {
    if Adopts(w).Some? {
      Stored(codec, w.dev, Adopts(w).value, w'.dev);
      SlotKept(w.dev.mem, w'.dev.mem, w.pendingSlot);
    }
  }

  /** The config write of a photo was reported as failed, and yet the spare sector holds it. */
  ghost predicate WrittenAnyway(codec: Codec<Config>, w: World, left: Mem) {
    Adopts(w).Some? && ReadsBack(codec, w.dev, Adopts(w).value, left)
  }

  /** A reported failure is harmless if the spare sector does not read as the record that was being written. */
  ghost predicate Harmless(codec: Codec<Config>, w: World, e: Event) {
    e.PollFails? ==> !WrittenAnyway(codec, w, e.left)
  }

  /** Stamps can trust it also if that record has no stamp. */
  ghost predicate StampSafe(codec: Codec<Config>, w: World, e: Event) {
    e.PollFails? && WrittenAnyway(codec, w, e.left) ==> Adopts(w).value.frameLastModified.IsEmpty()
  }

  lemma PollFailsKeeps(codec: Codec<Config>, w: World, left: Mem, w': World)
    requires Inv(codec, w) && Step(codec, w, PollFails(left), w') && StampSafe(codec, w, PollFails(left))
    ensures Inv(codec, w') && (Apart(codec, w) && !WrittenAnyway(codec, w, left) ==> Apart(codec, w'))
    ensures SameSlot(w.dev.mem, left, 0) && SameSlot(w.dev.mem, left, 1)
  {
    NotStored(codec, w.dev, Adopts(w).value, left, w'.dev);
    SlotKept(w.dev.mem, left, w.Named());
  }

  lemma SettingsKeep(codec: Codec<Config>, w: World, next: Config, w': World)
    requires Inv(codec, w) && Step(codec, w, Settings(next), w')
    ensures Inv(codec, w') && (Apart(codec, w) ==> Apart(codec, w'))
    ensures SameSlot(w.dev.mem, w'.dev.mem, w.Named()) && w'.Named() == w.Named()
  {
    Stored(codec, w.dev, next, w'.dev);
    SlotKept(w.dev.mem, w'.dev.mem, 0);
    SlotKept(w.dev.mem, w'.dev.mem, 1);
  }

  lemma SettingsFailKeeps(codec: Codec<Config>, w: World, next: Config, left: Mem, w': World)
    requires Inv(codec, w) && Step(codec, w, SettingsFail(next, left), w')
    ensures Inv(codec, w') && (Apart(codec, w) ==> Apart(codec, w'))
    ensures SameSlot(w.dev.mem, w'.dev.mem, w.Named()) && w'.Named() == w.Named()
  {
    NotStored(codec, w.dev, next, left, w'.dev);
    SlotKept(w.dev.mem, w'.dev.mem, 0);
    SlotKept(w.dev.mem, w'.dev.mem, 1);
  }

  lemma ElsewhereKeeps(codec: Codec<Config>, w: World, left: Mem, w': World)
    requires Inv(codec, w) && Step(codec, w, Event.Elsewhere(left), w')
    ensures Inv(codec, w') && (Apart(codec, w) ==> Apart(codec, w'))
  {
    ConfigUntouched(codec, w.dev, left);
    SlotKept(w.dev.mem, left, 0);
    SlotKept(w.dev.mem, left, 1);
  }

  /** Clearing the cache leaves the pixels of both slots. */
  lemma ClearedData(m: Mem, erased: Mem, left: Mem)
    requires OnlyHeaders(m, erased) && SameSlot(erased, left, 0) && SameSlot(erased, left, 1)
    ensures forall slot: nat :: slot < 2 ==> Photo.At(left, slot) == Photo.At(m, slot)
  {
    forall slot: nat | slot < 2
      ensures Photo.At(left, slot) == Photo.At(m, slot)
    {
      DataKept(m, erased, slot);
      SlotKept(erased, left, slot);
    }
  }

  lemma StillEmpty(m: Mem, erased: Mem, left: Mem, slot: nat)
    requires slot < 2 && BothErased(m, erased) && SameSlot(erased, left, 0) && SameSlot(erased, left, 1)
    ensures !Photo.Shows(left, slot)
  {
    SlotKept(erased, left, slot);
    Photo.EmptyShowsNothing(erased, slot);
  }

  lemma ClearKeeps(codec: Codec<Config>, w: World, erased: Mem, next: Config, w': World)
    requires Inv(codec, w) && Step(codec, w, Clear(erased, next), w')
    ensures Inv(codec, w')
  {
    ConfigUntouched(codec, w.dev, erased);
    Stored(codec, w.dev.(mem := erased), next, w'.dev);
    ClearedData(w.dev.mem, erased, w'.dev.mem);
  }

  lemma ClearFailsKeeps(codec: Codec<Config>, w: World, left: Mem, w': World)
    requires Inv(codec, w) && Step(codec, w, ClearFails(left), w')
    ensures Inv(codec, w')
  {
    ConfigUntouched(codec, w.dev, left);
    DataKept(w.dev.mem, left, 0);
    DataKept(w.dev.mem, left, 1);
  }

  lemma ClearStoreFailsKeeps(codec: Codec<Config>, w: World, erased: Mem, next: Config, left: Mem, w': World)
    requires Inv(codec, w) && Step(codec, w, ClearStoreFails(erased, next, left), w')
    ensures Inv(codec, w')
  {
    ConfigUntouched(codec, w.dev, erased);
    NotStored(codec, w.dev.(mem := erased), next, left, w'.dev);
    ClearedData(w.dev.mem, erased, left);
    StillEmpty(w.dev.mem, erased, left, w.Named());
  }

  /** After a boot from flash whose named slot holds what its stamp says. */
  lemma BootKeeps(codec: Codec<Config>, w: World, left: Mem)
    requires var d := Boot(codec, left, w.dev.defaults);
             && DeviceOk(codec, d) && FlashedPhoto(codec, d) == PhotoOf(d.value)
             && (d.value.frameLastModified.IsEmpty() || (d.value.frameLastModified, Photo.At(left, d.value.frameSlot)) in w.received)
    ensures Inv(codec, AfterBoot(codec, w, left)) && Apart(codec, AfterBoot(codec, w, left))
  {}

  lemma CutInSlotKeeps(codec: Codec<Config>, w: World, left: Mem, w': World)
    requires Inv(codec, w) && Step(codec, w, CutInSlot(left), w')
    ensures Inv(codec, w') && Apart(codec, w')
    ensures Apart(codec, w) ==> w'.Named() == w.Named() && SameSlot(w.dev.mem, left, w.Named())
  {
    ConfigUntouched(codec, w.dev, left);
    if left == w.dev.mem || w.lane.slot != w.Named() {
      SlotKept(w.dev.mem, left, w.Named());
    }
    BootKeeps(codec, w, left);
  }

  lemma CutInPollKeeps(codec: Codec<Config>, w: World, left: Mem, w': World)
    requires Inv(codec, w) && Step(codec, w, CutInPoll(left), w')
    ensures Inv(codec, w') && Apart(codec, w')
    ensures Apart(codec, w) ==> w'.Named() == w.Named() || w'.dev.value == Adopts(w).value
    ensures SameSlot(w.dev.mem, left, 0) && SameSlot(w.dev.mem, left, 1)
  {
    var next := Adopts(w).value;
    StoredOrNot(codec, w.dev, next, left);
    SlotKept(w.dev.mem, left, w.Named());
    SlotKept(w.dev.mem, left, w.pendingSlot);
    AdoptedIsPaired(codec, w);
    BootKeeps(codec, w, left);
  }

  /** What a poll is about to adopt arrived in full, with its stamp. */
  lemma AdoptedIsPaired(codec: Codec<Config>, w: World)
    requires Inv(codec, w) && Adopts(w).Some?
    ensures Adopts(w).value.frameSlot == w.pendingSlot == w.lane.slot < 2
    ensures (Adopts(w).value.frameLastModified, Photo.At(w.dev.mem, w.pendingSlot)) in w.received
    ensures Photo.Shows(w.dev.mem, w.pendingSlot)
  {}

  lemma CutInSettingsKeeps(codec: Codec<Config>, w: World, next: Config, left: Mem, w': World)
    requires Inv(codec, w) && Step(codec, w, CutInSettings(next, left), w')
    ensures Inv(codec, w') && Apart(codec, w')
    ensures SameSlot(w.dev.mem, left, w.Named()) && (Apart(codec, w) ==> w'.Named() == w.Named())
  {
    StoredOrNot(codec, w.dev, next, left);
    SlotKept(w.dev.mem, left, w.Named());
    BootKeeps(codec, w, left);
  }

  lemma CutInEraseKeeps(codec: Codec<Config>, w: World, left: Mem, w': World)
    requires Inv(codec, w) && Step(codec, w, CutInErase(left), w')
    ensures Inv(codec, w') && Apart(codec, w')
  {
    ConfigUntouched(codec, w.dev, left);
    DataKept(w.dev.mem, left, w.Named());
    BootKeeps(codec, w, left);
  }

  lemma CutInClearKeeps(codec: Codec<Config>, w: World, erased: Mem, next: Config, left: Mem, w': World)
    requires Inv(codec, w) && Step(codec, w, CutInClear(erased, next, left), w')
    ensures Inv(codec, w') && Apart(codec, w')
  {
    ConfigUntouched(codec, w.dev, erased);
    StoredOrNot(codec, w.dev.(mem := erased), next, left);
    ClearedData(w.dev.mem, erased, left);
    BootKeeps(codec, w, left);
  }

  predicate IsCut(e: Event) {
    e.CutInSlot? || e.CutInPoll? || e.CutInSettings? || e.CutInErase? || e.CutInClear?
  }

  lemma CutKeeps(codec: Codec<Config>, w: World, e: Event, w': World)
    requires Inv(codec, w) && IsCut(e) && Step(codec, w, e, w')
    ensures Inv(codec, w') && Apart(codec, w')
  {
    if e.CutInSlot? {
      CutInSlotKeeps(codec, w, e.left, w');
    } else if e.CutInPoll? {
      CutInPollKeeps(codec, w, e.left, w');
    } else if e.CutInSettings? {
      CutInSettingsKeeps(codec, w, e.next, e.left, w');
    } else if e.CutInErase? {
      CutInEraseKeeps(codec, w, e.left, w');
    } else {
      CutInClearKeeps(codec, w, e.erased, e.next, e.left, w');
    }
  }

  predicate IsConfigStep(e: Event) {
    e.Poll? || e.PollFails? || e.Settings? || e.SettingsFail? || e.Elsewhere?
  }

  lemma ConfigStepKeeps(codec: Codec<Config>, w: World, e: Event, w': World)
    requires Inv(codec, w) && IsConfigStep(e) && Step(codec, w, e, w') && StampSafe(codec, w, e)
    ensures Inv(codec, w')
    ensures Apart(codec, w) && Harmless(codec, w, e) ==> Apart(codec, w')
  {
    if e.Poll? {
      PollKeeps(codec, w, w');
    } else if e.PollFails? {
      PollFailsKeeps(codec, w, e.left, w');
    } else if e.Settings? {
      SettingsKeep(codec, w, e.next, w');
    } else if e.SettingsFail? {
      SettingsFailKeeps(codec, w, e.next, e.left, w');
    } else {
      ElsewhereKeeps(codec, w, e.left, w');
    }
  }

  lemma ClearStepKeeps(codec: Codec<Config>, w: World, e: Event, w': World)
    requires Inv(codec, w) && IsClear(e) && !IsCut(e) && Step(codec, w, e, w')
    ensures Inv(codec, w')
  {
    if e.Clear? {
      ClearKeeps(codec, w, e.left, e.next, w');
    } else if e.ClearFails? {
      ClearFailsKeeps(codec, w, e.left, w');
    } else {
      ClearStoreFailsKeeps(codec, w, e.erased, e.next, e.left, w');
    }
  }

  lemma StepKeeps(codec: Codec<Config>, w: World, e: Event, w': World)
    requires Inv(codec, w) && Step(codec, w, e, w') && StampSafe(codec, w, e)
    ensures Inv(codec, w')
    ensures Apart(codec, w) && !IsClear(e) && Harmless(codec, w, e) ==> Apart(codec, w')
  {
    if IsCut(e) {
      CutKeeps(codec, w, e, w');
    } else if IsClear(e) {
      ClearStepKeeps(codec, w, e, w');
    } else if IsConfigStep(e) {
      ConfigStepKeeps(codec, w, e, w');
    } else if IsSlotStep(e) {
      SlotStepKeeps(codec, w, e, w');
    } else {
      LaneStepKeeps(codec, w, e, w');
    }
  }

  // --- runs ----------------------------------------------------------------

  /** A device just booted that has no photo yet, or forgot where it came from. */
  ghost predicate Start(codec: Codec<Config>, w: World)
  {
    && DeviceOk(codec, w.dev) && w.dev == Boot(codec, w.dev.mem, w.dev.defaults)
    && w == Rebooted(w, w.dev) && w.Stamp().IsEmpty()
  }

  /** Runs begin: a device with an empty config area starts one, whatever its slots hold. */
  lemma FirstBootStarts(codec: Codec<Config>, mem: Mem, defaults: Config)
    requires Lawful(codec) && codec.good(defaults)
    requires defaults.frameSlot < 2 && defaults.frameLastModified.IsEmpty()
    requires Cells.Loaded(Reads(codec, mem)) == None
    ensures Start(codec, World(Boot(codec, mem, defaults), Quiet, false, false, 0, false, false, {}))
  {
    DeviceOkIs(codec, Boot(codec, mem, defaults));
  }

  lemma StartKeeps(codec: Codec<Config>, w: World)
    requires Start(codec, w)
    ensures Inv(codec, w) && Apart(codec, w)
  {
    RebootOk(codec, w.dev);
  }

  /** One world after another, each made from the one before by the event between them. */
  ghost predicate Steps(codec: Codec<Config>, ws: seq<World>, es: seq<Event>)
  {
    && |ws| == |es| + 1
    && forall i :: 0 <= i < |es| ==> StepAt(codec, ws, es, i)
  }

  ghost predicate StepAt(codec: Codec<Config>, ws: seq<World>, es: seq<Event>, i: nat)
    requires i < |es| && |ws| == |es| + 1
  {
    ws[i].Named() < 2 && InLane(ws[i]) && Step(codec, ws[i], es[i], ws[i + 1])
  }

  ghost predicate HarmlessUpTo(codec: Codec<Config>, ws: seq<World>, es: seq<Event>, n: nat)
    requires n <= |es| <= |ws|
  {
    forall i :: 0 <= i < n ==> Harmless(codec, ws[i], es[i])
  }

  ghost predicate StampSafeUpTo(codec: Codec<Config>, ws: seq<World>, es: seq<Event>, n: nat)
    requires n <= |es| <= |ws|
  {
    forall i :: 0 <= i < n ==> StampSafe(codec, ws[i], es[i])
  }

  ghost predicate Run(codec: Codec<Config>, ws: seq<World>, es: seq<Event>)
  {
    Steps(codec, ws, es) && Start(codec, ws[0])
  }

  lemma {:induction false} StepsKeep(codec: Codec<Config>, ws: seq<World>, es: seq<Event>, n: nat)
    requires Steps(codec, ws, es) && n < |ws| && StampSafeUpTo(codec, ws, es, n)
    requires Inv(codec, ws[0])
    ensures Inv(codec, ws[n])
    ensures Apart(codec, ws[0]) && HarmlessUpTo(codec, ws, es, n) && (forall i :: 0 <= i < n ==> !IsClear(es[i])) ==> Apart(codec, ws[n])
  {
    if n > 0 {
      StepsKeep(codec, ws, es, n - 1);
      assert StepAt(codec, ws, es, n - 1);
      StepKeeps(codec, ws[n - 1], es[n - 1], ws[n]);
    }
  }

  lemma RunKeeps(codec: Codec<Config>, ws: seq<World>, es: seq<Event>, n: nat)
    requires Run(codec, ws, es) && n < |ws| && StampSafeUpTo(codec, ws, es, n)
    ensures Inv(codec, ws[n])
  {
    StartKeeps(codec, ws[0]);
    StepsKeep(codec, ws, es, n);
  }

  /** The stamp in RAM, if there is one, came with the bytes that the named slot holds. */
  ghost predicate StampTrue(w: World) {
    w.Named() < 2 && (w.Stamp().IsEmpty() || (w.Stamp(), Photo.At(w.dev.mem, w.Named())) in w.received)
  }

  /**
   In every run, clearing cut anywhere included, a stamp is only ever kept with the bytes
   it came with, as long as no photo with a stamp was recorded in a write that was then
   reported as failed. (`StampFailureIff` says that this is the one exception.)
   */
  lemma StampNamesItsBytes(codec: Codec<Config>, ws: seq<World>, es: seq<Event>, n: nat)
    requires Run(codec, ws, es) && n < |ws| && StampSafeUpTo(codec, ws, es, n)
    ensures StampTrue(ws[n])
  {
    RunKeeps(codec, ws, es, n);
  }

  /**
   In the same runs: a fetch that asks only for news sends the stamp of the very bytes in
   the named slot, and the slot is a complete photo exactly if `spoiled` does not say
   otherwise. (`FailedClearingSpoils` says that this happens.)
   */
  lemma ConditionalFetchHasItsPhoto(codec: Codec<Config>, ws: seq<World>, es: seq<Event>, n: nat)
    requires Run(codec, ws, es) && n < |ws| && StampSafeUpTo(codec, ws, es, n)
    requires ws[n].running && !ws[n].force && !ws[n].Stamp().IsEmpty()
    ensures StampTrue(ws[n])
    ensures Photo.Shows(ws[n].dev.mem, ws[n].Named()) <==> !ws[n].spoiled
  {
    RunKeeps(codec, ws, es, n);
  }

  /** A clearing that the driver refuses half-way leaves the app asking for news of a photo it no longer has. */
  lemma FailedClearingSpoils(codec: Codec<Config>, w: World) returns (left: Mem, w': World)
    requires Inv(codec, w) && Shown(w) && w.running && !w.force && !w.Stamp().IsEmpty()
    ensures Step(codec, w, ClearFails(left), w') && left == Erase(SlotBase(w.Named()), DataStart(w.Named())).Applied(w.dev.mem)
    ensures w'.running && !w'.force && !w'.Stamp().IsEmpty() && !Shown(w')
  {
    left := Erase(SlotBase(w.Named()), DataStart(w.Named())).Applied(w.dev.mem);
    w' := w.(dev := w.dev.(mem := left), spoiled := !Photo.Shows(left, w.Named()));
    Photo.EmptyShowsNothing(left, w.Named());
  }

  ghost predicate Shown(w: World) {
    w.Named() < 2 && Photo.Shows(w.dev.mem, w.Named())
  }

  /** What one step does to a photo that is there: nothing, or a complete newer one takes its place. */
  ghost predicate PhotoStays(w: World, w': World) {
    && w.Named() < 2 && w'.Named() < 2
    && Photo.Shows(w'.dev.mem, w'.Named())
    && (|| (w'.Named() == w.Named() && Photo.At(w'.dev.mem, w'.Named()) == Photo.At(w.dev.mem, w.Named()))
        || (Adopts(w).Some? && w'.dev.value == Adopts(w).value
            && (w'.Stamp(), Photo.At(w'.dev.mem, w'.Named())) in w.received))
  }

  lemma CutInPollStays(codec: Codec<Config>, w: World, left: Mem, w': World)
    requires Inv(codec, w) && Apart(codec, w) && Step(codec, w, CutInPoll(left), w') && Photo.Shows(w.dev.mem, w.Named())
    ensures PhotoStays(w, w')
  {
    CutInPollKeeps(codec, w, left, w');
    AdoptedIsPaired(codec, w);
    SlotKept(w.dev.mem, left, w'.Named());
  }

  lemma CutStays(codec: Codec<Config>, w: World, e: Event, w': World)
    requires Inv(codec, w) && Apart(codec, w) && Step(codec, w, e, w') && IsCut(e) && !IsClear(e)
    requires Photo.Shows(w.dev.mem, w.Named())
    ensures PhotoStays(w, w')
  {
    if e.CutInPoll? {
      CutInPollStays(codec, w, e.left, w');
    } else {
      if e.CutInSettings? {
        CutInSettingsKeeps(codec, w, e.next, e.left, w');
      } else {
        CutInSlotKeeps(codec, w, e.left, w');
      }
      SlotKept(w.dev.mem, e.left, w.Named());
    }
  }

  lemma PollStays(codec: Codec<Config>, w: World, w': World)
    requires Inv(codec, w) && Apart(codec, w) && Step(codec, w, Poll, w') && Photo.Shows(w.dev.mem, w.Named())
    ensures PhotoStays(w, w')
  {
    PollKeeps(codec, w, w');
    if Adopts(w).Some? {
      AdoptedIsPaired(codec, w);
    }
    SlotKept(w.dev.mem, w'.dev.mem, w'.Named());
  }

  lemma PollFailsStays(codec: Codec<Config>, w: World, left: Mem, w': World)
    requires Inv(codec, w) && Step(codec, w, PollFails(left), w') && Photo.Shows(w.dev.mem, w.Named())
    ensures PhotoStays(w, w')
  {
    NotStored(codec, w.dev, Adopts(w).value, left, w'.dev);
    SlotKept(w.dev.mem, left, w.Named());
  }

  lemma ConfigStepStays(codec: Codec<Config>, w: World, e: Event, w': World)
    requires Inv(codec, w) && Apart(codec, w) && Step(codec, w, e, w') && Harmless(codec, w, e)
    requires IsConfigStep(e) && Photo.Shows(w.dev.mem, w.Named())
    ensures PhotoStays(w, w')
  {
    if e.Poll? {
      PollStays(codec, w, w');
    } else if e.PollFails? {
      PollFailsStays(codec, w, e.left, w');
    } else {
      if e.Settings? {
        SettingsKeep(codec, w, e.next, w');
      } else if e.SettingsFail? {
        SettingsFailKeeps(codec, w, e.next, e.left, w');
      }
      SlotKept(w.dev.mem, w'.dev.mem, w.Named());
    }
  }

  lemma PhotoStepStays(codec: Codec<Config>, w: World, e: Event, w': World)
    requires Inv(codec, w) && Apart(codec, w) && Step(codec, w, e, w') && Harmless(codec, w, e) && !IsClear(e)
    requires Photo.Shows(w.dev.mem, w.Named())
    ensures PhotoStays(w, w')
  {
    if IsCut(e) {
      CutStays(codec, w, e, w');
    } else if IsConfigStep(e) {
      ConfigStepStays(codec, w, e, w');
    } else if IsSlotStep(e) {
      SlotStepKeeps(codec, w, e, w');
      SlotKept(w.dev.mem, w'.dev.mem, w.Named());
    } else {
      LaneStepKeeps(codec, w, e, w');
    }
  }

  /** Once there, the photo stays through any harmless steps that do not clear the cache. */
  lemma {:induction false} StaysFrom(codec: Codec<Config>, ws: seq<World>, es: seq<Event>, n: nat, m: nat)
    requires Steps(codec, ws, es) && n <= m < |ws| && HarmlessUpTo(codec, ws, es, m)
    requires Inv(codec, ws[0]) && Apart(codec, ws[0]) && forall i :: 0 <= i < m ==> !IsClear(es[i])
    requires Shown(ws[n])
    ensures Shown(ws[m])
    ensures n < m ==> PhotoStays(ws[m - 1], ws[m])
  {
    if n < m {
      StaysFrom(codec, ws, es, n, m - 1);
      StepsKeep(codec, ws, es, m - 1);
      assert StepAt(codec, ws, es, m - 1);
      PhotoStepStays(codec, ws[m - 1], es[m - 1], ws[m]);
    }
  }

  /**
   Without cache clearing or a reset, and while reported failures are harmless: once the named
   slot holds a complete photo it always does. Its bytes change only when a newer
   photo that arrived in full is adopted together with its stamp.
   */
  lemma PhotoSurvives(codec: Codec<Config>, ws: seq<World>, es: seq<Event>, n: nat, m: nat)
    requires Run(codec, ws, es) && n <= m < |ws| && HarmlessUpTo(codec, ws, es, m)
    requires forall i :: 0 <= i < m ==> !IsClear(es[i])
    requires Shown(ws[n])
    ensures Shown(ws[m])
    ensures n < m ==> PhotoStays(ws[m - 1], ws[m])
  {
    StartKeeps(codec, ws[0]);
    StaysFrom(codec, ws, es, n, m);
  }

  // --- a photo that arrives is adopted -------------------------------------

  /** The app waits, and a complete photo with its stamp is there to be taken. */
  ghost predicate AtHand(w: World, slot: nat, stamp: FixedStr, body: seq<byte>) {
    && slot < 2 && w.running && w.fetching && w.pendingSlot == slot
    && w.lane == Answered(slot, Reply(200, 40960, stamp))
    && Photo.Shows(w.dev.mem, slot) && Photo.At(w.dev.mem, slot) == body
  }

  /** Nothing that has the app, the photo or the power go. */
  predicate IsQuiet(e: Event) {
    !e.Poll? && !e.PollFails? && !e.Enter? && !e.Leave? && !IsClear(e) && !IsCut(e)
  }

  lemma CompletedArrives(codec: Codec<Config>, w: World, body: seq<byte>, stamp: FixedStr, left: Mem, w': World)
    requires Inv(codec, w) && Step(codec, w, Complete(body, stamp, left), w') && |body| == 40960
    requires w.running && w.fetching
    ensures AtHand(w', w.pendingSlot, stamp, body)
  {
    Photo.HoldsIs(left, w.lane.slot, body);
  }

  lemma StillThere(codec: Codec<Config>, w: World, e: Event, w': World, slot: nat, stamp: FixedStr, body: seq<byte>)
    requires Inv(codec, w) && AtHand(w, slot, stamp, body) && IsQuiet(e) && Step(codec, w, e, w')
    ensures AtHand(w', slot, stamp, body)
  {
    if e.Settings? {
      Stored(codec, w.dev, e.next, w'.dev);
    } else if e.SettingsFail? {
      NotStored(codec, w.dev, e.next, e.left, w'.dev);
    }
    if e.Settings? || e.SettingsFail? || e.Elsewhere? {
      SlotKept(w.dev.mem, w'.dev.mem, slot);
    }
  }

  lemma PollTakesIt(codec: Codec<Config>, w: World, w': World, slot: nat, stamp: FixedStr, body: seq<byte>)
    requires Inv(codec, w) && AtHand(w, slot, stamp, body) && Step(codec, w, Poll, w')
    ensures w'.dev.value == w.dev.value.(frameSlot := slot, frameLastModified := stamp)
    ensures Photo.Shows(w'.dev.mem, slot) && Photo.At(w'.dev.mem, slot) == body
  {
    PollKeeps(codec, w, w');
    SlotKept(w.dev.mem, w'.dev.mem, slot);
  }

  lemma {:induction false} StaysThere(codec: Codec<Config>, ws: seq<World>, es: seq<Event>, i: nat, j: nat, stamp: FixedStr, body: seq<byte>)
    requires Run(codec, ws, es) && i <= j < |ws| && StampSafeUpTo(codec, ws, es, j)
    requires AtHand(ws[i], ws[i].pendingSlot, stamp, body) && forall k :: i <= k < j ==> IsQuiet(es[k])
    ensures AtHand(ws[j], ws[i].pendingSlot, stamp, body)
  {
    if i < j {
      StaysThere(codec, ws, es, i, j - 1, stamp, body);
      RunKeeps(codec, ws, es, j - 1);
      assert StepAt(codec, ws, es, j - 1);
      StillThere(codec, ws[j - 1], es[j - 1], ws[j], ws[i].pendingSlot, stamp, body);
    }
  }

  /**
   In every run: a complete photo that arrives for the app that waits for it is adopted
   by the next poll. Whichever slot it is in, that slot and the photo's stamp are then
   what the config names, and the slot shows the photo.
   */
  lemma PhotoIsAdopted(codec: Codec<Config>, ws: seq<World>, es: seq<Event>, i: nat, j: nat)
    requires Run(codec, ws, es) && i < j < |es| && StampSafeUpTo(codec, ws, es, j)
    requires es[i].Complete? && |es[i].body| == 40960 && ws[i].running && ws[i].fetching
    requires es[j] == Poll && forall k :: i < k < j ==> IsQuiet(es[k])
    ensures ws[j + 1].Named() == ws[i].pendingSlot && ws[j + 1].Stamp() == es[i].stamp
    ensures Shown(ws[j + 1]) && Photo.At(ws[j + 1].dev.mem, ws[j + 1].Named()) == es[i].body
  {
    RunKeeps(codec, ws, es, i);
    assert StepAt(codec, ws, es, i) && StepAt(codec, ws, es, j);
    CompletedArrives(codec, ws[i], es[i].body, es[i].stamp, es[i].left, ws[i + 1]);
    StaysThere(codec, ws, es, i + 1, j, es[i].stamp, es[i].body);
    RunKeeps(codec, ws, es, j);
    PollTakesIt(codec, ws[j], ws[j + 1], ws[i].pendingSlot, es[i].stamp, es[i].body);
  }

  // --- reported failures ---------------------------------------------------

  /** Worlds that may follow `w`, without cache clearing and with later failures harmless. */
  ghost predicate Continues(codec: Codec<Config>, w: World, ws: seq<World>, es: seq<Event>)
  {
    && Steps(codec, ws, es) && ws[0] == w && HarmlessUpTo(codec, ws, es, |es|)
    && forall i :: 0 <= i < |es| ==> !IsClear(es[i])
  }

  /** Whatever happens from `w` on, the named slot holds a complete photo. */
  ghost predicate Survives(codec: Codec<Config>, w: World)
  {
    forall ws, es :: Continues(codec, w, ws, es) ==> Shown(ws[|es|])
  }

  /**
   When the driver reports the config write of a new photo as failed, the photo
   survives everything that may follow if and only if the spare sector does not
   read as the record that was being written.
   */
  lemma ReportedFailureIff(codec: Codec<Config>, w: World, left: Mem, w1: World)
    requires Inv(codec, w) && Apart(codec, w) && Shown(w)
    requires Step(codec, w, PollFails(left), w1)
    ensures Survives(codec, w1) <==> !WrittenAnyway(codec, w, left)
  {
    if WrittenAnyway(codec, w, left) {
      var ws, es := LosingContinuation(codec, w, left, w1);
      assert Continues(codec, w1, ws, es);
    } else {
      PollFailsKeeps(codec, w, left, w1);
      PhotoStepStays(codec, w, PollFails(left), w1);
      forall ws, es | Continues(codec, w1, ws, es)
        ensures Shown(ws[|es|])
      {
        StaysFrom(codec, ws, es, 0, |es|);
      }
    }
  }

  /** The next photo is asked for, its slot is emptied, and power goes. */
  lemma LosingContinuation(codec: Codec<Config>, w: World, left: Mem, w1: World) returns (ws: seq<World>, es: seq<Event>)
    requires Inv(codec, w) && Apart(codec, w)
    requires Step(codec, w, PollFails(left), w1) && WrittenAnyway(codec, w, left)
    ensures Continues(codec, w1, ws, es) && !Shown(ws[|es|])
  {
    var w2 := FetchesIntoTheFlashedSlot(codec, w, left, w1);
    ws, es := [w1], [];
    ws, es := ContinuesMore(codec, w1, ws, es, Fetch, w2);
    ws, es := EmptiedAndLost(codec, w1, ws, es, w2);
  }

  lemma EmptiedAndLost(codec: Codec<Config>, w1: World, ws: seq<World>, es: seq<Event>, w2: World)
      returns (ws': seq<World>, es': seq<Event>)
    requires Continues(codec, w1, ws, es) && ws[|es|] == w2 && w2.Named() < 2
    requires DeviceOk(codec, w2.dev) && InLane(w2) && w2.lane.Queued? && FlashedPhoto(codec, w2.dev).0 == w2.lane.slot
    ensures Continues(codec, w1, ws', es') && !Shown(ws'[|es'|])
  {
    var emptied, w3, w4 := EmptiedAndCut(codec, w2);
    ws', es' := ContinuesMore(codec, w1, ws, es, Begin(emptied), w3);
    ws', es' := ContinuesMore(codec, w1, ws', es', CutInSlot(emptied), w4);
  }

  lemma ContinuesMore(codec: Codec<Config>, w: World, ws: seq<World>, es: seq<Event>, e: Event, w': World)
      returns (ws': seq<World>, es': seq<Event>)
    requires Continues(codec, w, ws, es) && ws[|es|].Named() < 2 && InLane(ws[|es|])
    requires Step(codec, ws[|es|], e, w') && Harmless(codec, ws[|es|], e) && !IsClear(e)
    ensures Continues(codec, w, ws', es') && ws'[|es'|] == w'
  {
    ws', es' := ws + [w'], es + [e];
    forall i | 0 <= i < |es'|
      ensures StepAt(codec, ws', es', i) && Harmless(codec, ws'[i], es'[i]) && !IsClear(es'[i])
    {
      if i < |es| {
        assert StepAt(codec, ws, es, i);
      }
    }
  }

  /** RAM still names the old slot, so the next photo goes where the flash would boot to. */
  lemma FetchesIntoTheFlashedSlot(codec: Codec<Config>, w: World, left: Mem, w1: World) returns (w2: World)
    requires Inv(codec, w) && Apart(codec, w)
    requires Step(codec, w, PollFails(left), w1) && WrittenAnyway(codec, w, left)
    ensures w1.Named() < 2 && InLane(w1) && Step(codec, w1, Fetch, w2)
    ensures DeviceOk(codec, w2.dev) && InLane(w2) && w2.lane.Queued? && w2.Named() < 2
    ensures FlashedPhoto(codec, w2.dev) == (w2.lane.slot, Adopts(w).value.frameLastModified) && w2.received == w.received
  {
    var slot := w.pendingSlot;
    NotStored(codec, w.dev, Adopts(w).value, left, w1.dev);
    AdoptedIsPaired(codec, w);
    assert Photo.Target(w1.Named()) == slot;
    w2 := w1.(lane := Queued(slot), fetching := true, pendingSlot := slot);
  }

  /** A slot that the flash would boot to is emptied for the next photo, and power goes. */
  lemma EmptiedAndCut(codec: Codec<Config>, w: World) returns (emptied: Mem, w1: World, w2: World)
    requires DeviceOk(codec, w.dev) && InLane(w) && w.lane.Queued? && FlashedPhoto(codec, w.dev).0 == w.lane.slot
    ensures w1.Named() < 2 && InLane(w1) && !Shown(w2)
    ensures Step(codec, w, Begin(emptied), w1) && Step(codec, w1, CutInSlot(emptied), w2)
  {
    var slot := w.lane.slot;
    emptied := Erase(SlotBase(slot), DataStart(slot)).Applied(w.dev.mem);
    w1 := w.(lane := Writing(slot), dev := w.dev.(mem := emptied));
    ConfigUntouched(codec, w.dev, emptied);
    w2 := AfterBoot(codec, w1, emptied);
    Photo.EmptyShowsNothing(emptied, slot);
  }

  /** It does happen: in every world about to adopt a photo, the driver may report a failure after writing the record in full. */
  lemma ReportedFailureLosesThePhoto(codec: Codec<Config>, w: World) returns (w1: World, ws: seq<World>, es: seq<Event>)
    requires Inv(codec, w) && Apart(codec, w) && Shown(w) && w.running && w.fetching
    requires Adopts(w).Some? && codec.good(Adopts(w).value)
    ensures Step(codec, w, PollFails(w1.dev.mem), w1) && Shown(w1)
    ensures Continues(codec, w1, ws, es) && !Shown(ws[|es|])
  {
    DeviceOkIs(codec, w.dev);
    var d1 := WrittenButRefused(codec, w.dev, Adopts(w).value);
    MovesIs(codec, w.dev, Failed(Adopts(w).value, d1.mem), d1);
    w1 := w.(lane := Quiet, fetching := false, force := false, dev := d1, spoiled := !Photo.Shows(w.dev.mem, w.Named()));
    NotStored(codec, w.dev, Adopts(w).value, d1.mem, d1);
    SlotKept(w.dev.mem, d1.mem, w.Named());
    ws, es := LosingContinuation(codec, w, d1.mem, w1);
  }

  // --- the same for stamps -------------------------------------------------

  /** Worlds that may follow `w`, cache clearing included, with later failures safe for stamps. */
  ghost predicate ContinuesSafely(codec: Codec<Config>, w: World, ws: seq<World>, es: seq<Event>)
  {
    Steps(codec, ws, es) && ws[0] == w && StampSafeUpTo(codec, ws, es, |es|)
  }

  /** Whatever happens from `w` on, a stamp is only kept with its bytes. */
  ghost predicate StampsStayTrue(codec: Codec<Config>, w: World)
  {
    forall ws, es :: ContinuesSafely(codec, w, ws, es) ==> StampTrue(ws[|es|])
  }

  /**
   When the driver reports the config write of a new photo as failed, stamps can be
   trusted whatever may follow if and only if the record does not read back or has no
   stamp. (Some picture has not come with this stamp yet: `body`.)
   */
  lemma StampFailureIff(codec: Codec<Config>, w: World, left: Mem, w1: World, body: seq<byte>)
    requires Inv(codec, w) && Apart(codec, w)
    requires Step(codec, w, PollFails(left), w1)
    requires |body| == Photo.BYTES && (Adopts(w).value.frameLastModified, body) !in w.received
    ensures StampsStayTrue(codec, w1) <==> !WrittenAnyway(codec, w, left) || Adopts(w).value.frameLastModified.IsEmpty()
  {
    if WrittenAnyway(codec, w, left) && !Adopts(w).value.frameLastModified.IsEmpty() {
      var ws, es := FalseStamp(codec, w, left, w1, body);
      assert Continues(codec, w1, ws, es);
      assert ContinuesSafely(codec, w1, ws, es);
    } else {
      PollFailsKeeps(codec, w, left, w1);
      forall ws, es | ContinuesSafely(codec, w1, ws, es)
        ensures StampTrue(ws[|es|])
      {
        StepsKeep(codec, ws, es, |es|);
      }
    }
  }

  /** The next photo is asked for, another picture is on its way into the slot, and power goes. */
  lemma FalseStamp(codec: Codec<Config>, w: World, left: Mem, w1: World, body: seq<byte>) returns (ws: seq<World>, es: seq<Event>)
    requires Inv(codec, w) && Apart(codec, w)
    requires Step(codec, w, PollFails(left), w1) && WrittenAnyway(codec, w, left)
    requires |body| == Photo.BYTES && (Adopts(w).value.frameLastModified, body) !in w.received
    requires !Adopts(w).value.frameLastModified.IsEmpty()
    ensures Continues(codec, w1, ws, es) && !StampTrue(ws[|es|])
  {
    var w2 := FetchesIntoTheFlashedSlot(codec, w, left, w1);
    ws, es := [w1], [];
    ws, es := ContinuesMore(codec, w1, ws, es, Fetch, w2);
    ws, es := OverwrittenAndLost(codec, w1, ws, es, w2, body);
  }

  lemma OverwrittenAndLost(codec: Codec<Config>, w1: World, ws: seq<World>, es: seq<Event>, w2: World, body: seq<byte>)
      returns (ws': seq<World>, es': seq<Event>)
    requires Continues(codec, w1, ws, es) && ws[|es|] == w2 && w2.Named() < 2
    requires DeviceOk(codec, w2.dev) && InLane(w2) && w2.lane.Queued? && FlashedPhoto(codec, w2.dev).0 == w2.lane.slot
    requires |body| == Photo.BYTES && !FlashedPhoto(codec, w2.dev).1.IsEmpty() && (FlashedPhoto(codec, w2.dev).1, body) !in w2.received
    ensures Continues(codec, w1, ws', es') && !StampTrue(ws'[|es'|])
  {
    var slot := w2.lane.slot;
    var emptied, filled := Overwritten(w2.dev.mem, slot, body);
    var w3 := w2.(lane := Writing(slot), dev := w2.dev.(mem := emptied));
    ws', es' := ContinuesMore(codec, w1, ws, es, Begin(emptied), w3);
    var w4 := w3.(dev := w3.dev.(mem := filled));
    ws', es' := ContinuesMore(codec, w1, ws', es', Piece(filled), w4);
    var w5 := AfterBoot(codec, w4, filled);
    BootsToOther(codec, w2, emptied, filled, slot, w5);
    ws', es' := ContinuesMore(codec, w1, ws', es', CutInSlot(filled), w5);
  }

  /** A boot finds the stamp that was recorded, and in its slot the other picture. */
  lemma BootsToOther(codec: Codec<Config>, w: World, emptied: Mem, filled: Mem, slot: nat, w': World)
    requires DeviceOk(codec, w.dev) && slot < 2 && FlashedPhoto(codec, w.dev).0 == slot
    requires forall i :: CONFIG_START <= i < FLASH_SIZE ==> emptied[i] == w.dev.mem[i] && filled[i] == emptied[i]
    requires !FlashedPhoto(codec, w.dev).1.IsEmpty() && (FlashedPhoto(codec, w.dev).1, Photo.At(filled, slot)) !in w.received
    requires w' == AfterBoot(codec, w.(dev := w.dev.(mem := filled)), filled)
    ensures !StampTrue(w')
  {
    ConfigUntouched(codec, w.dev, filled);
  }

  /** A slot is emptied, and then filled with `body`. */
  lemma Overwritten(m: Mem, slot: nat, body: seq<byte>) returns (emptied: Mem, filled: Mem)
    requires slot < 2 && |body| == Photo.BYTES
    ensures OnlySlot(m, emptied, slot) && Blob.Empty(emptied, slot)
    ensures OnlySlot(emptied, filled, slot) && Blob.Empty(filled, slot) && Photo.At(filled, slot) == body
    ensures forall i :: CONFIG_START <= i < FLASH_SIZE ==> emptied[i] == m[i] && filled[i] == emptied[i]
  {
    var at := DataStart(slot);
    emptied := Erase(SlotBase(slot), at).Applied(m);
    filled := emptied[..at] + body + emptied[at + Photo.BYTES..];
    assert Photo.HeaderAt(filled, slot) == Photo.HeaderAt(emptied, slot);
    assert Photo.At(filled, slot) == body;
  }
}
