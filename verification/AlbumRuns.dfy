/**
 The slideshow's cache over every run of the device: lists, fetches, streamed
 pieces, refusals, resets, driver errors and power cuts anywhere. The cache is
 what the headers in flash read as.
 */
module AlbumRuns {
  import opened Album
  import opened AlbumFlash
  import opened Bytes
  import opened Flash
  import opened Wrappers
  import Blob

  /** A request on its way into entry `entry` of the cache; the slot is empty once it has begun. */
  datatype Flight = Flight(id: u32, entry: nat, begun: bool)

  datatype World = World(ids: seq<u32>, mem: Mem, flight: Option<Flight>)

  datatype Event =
    | List(ids: seq<u32>)
    | Start
    | Begin(left: Mem)
    | Piece(left: Mem)
    /** The body is in its slot, whether it is a photo or not. */
    | Complete(left: Mem)
    /** The fetch ended in any other way; a driver error may leave its slot in any state. */
    | Ended(left: Mem)
    | Reject(id: u32)
    /** The app is opened, with a request of its own perhaps still under way. */
    | Enter
    | Elsewhere(left: Mem)
    | Reset(left: Mem)
    /** A reset that the driver gave up on, or that power cut short, while it was at `entry`. */
    | ResetBroken(entry: nat, left: Mem)
    /** Power is cut, at rest or anywhere in a fetch. */
    | PowerCut(left: Mem)

  function SlotOf(entry: nat): nat {
    FIRST_SLOT + entry
  }

  /** Every album slot but `entry` reads as before, or is empty. */
  ghost predicate OthersKeptOrEmpty(m: Mem, left: Mem, entry: nat) {
    forall j :: 0 <= j < SLOTS && j != entry ==> CacheOf(left)[j] == CacheOf(m)[j] || CacheOf(left)[j] == None
  }

  ghost predicate InFlight(w: World) {
    w.flight.Some? && w.flight.value.entry < SLOTS
  }

  ghost predicate FlightOnly(w: World, left: Mem)
    requires InFlight(w)
  {
    OnlySlot(w.mem, left, SlotOf(w.flight.value.entry))
  }

  ghost predicate Step(w: World, e: Event, w': World) {
    match e
    case List(ids) => |ids| <= LIST_MAX && w' == w.(ids := ids)
    case Start =>
      && w.flight.None? && NextMissing(w.ids, CacheOf(w.mem)).Some?
      && var (id, entry) := NextMissing(w.ids, CacheOf(w.mem)).value;
        w' == w.(flight := Some(Flight(id, entry, false)))
    case Begin(left) =>
      && InFlight(w) && !w.flight.value.begun
      && FlightOnly(w, left) && Blob.Empty(left, SlotOf(w.flight.value.entry))
      && w' == w.(mem := left, flight := Some(w.flight.value.(begun := true)))
    case Piece(left) =>
      && InFlight(w) && w.flight.value.begun
      && FlightOnly(w, left) && Blob.Empty(left, SlotOf(w.flight.value.entry))
      && w' == w.(mem := left)
    case Complete(left) =>
      && InFlight(w) && w.flight.value.begun && FlightOnly(w, left)
      && SlotId(left, SlotOf(w.flight.value.entry)) in {None, Some(w.flight.value.id)}
      && w' == w.(mem := left, flight := None)
    case Ended(left) => InFlight(w) && FlightOnly(w, left) && w' == w.(mem := left, flight := None)
    case Reject(id) => w' == w.(ids := Without(w.ids, id))
    case Enter => w' == w.(ids := Seeded(CacheOf(w.mem), SLOTS))
    case Elsewhere(left) => CacheOf(left) == CacheOf(w.mem) && w' == w.(mem := left)
    case Reset(left) => (forall j :: 0 <= j < SLOTS ==> CacheOf(left)[j] == None) && w' == w.(mem := left)
    case ResetBroken(entry, left) => entry < SLOTS && OthersKeptOrEmpty(w.mem, left, entry) && w' == w.(mem := left)
    case PowerCut(left) =>
      && (left == w.mem || (InFlight(w) && FlightOnly(w, left)))
      && w' == World([], left, None)
  }

  ghost predicate Inv(w: World) {
    && Unique(CacheOf(w.mem)) && |w.ids| <= LIST_MAX
    && (w.flight.Some? ==>
      && w.flight.value.entry < SLOTS && !Held(CacheOf(w.mem), w.flight.value.id)
      && (w.flight.value.begun ==> CacheOf(w.mem)[w.flight.value.entry].None?))
  }

  /**
   A header that was broken off reads as nothing that another slot holds, nor as what
   a fetch still under way will store. Reading the headers tells.
   */
  ghost predicate Harmless(w: World, e: Event) {
    match e
    case Ended(left) => InFlight(w) ==> !Clashes(CacheOf(left), w.flight.value.entry)
    case PowerCut(left) => InFlight(w) ==> !Clashes(CacheOf(left), w.flight.value.entry)
    case ResetBroken(entry, left) =>
      && entry < SLOTS && !Clashes(CacheOf(left), entry)
      && (InFlight(w) ==>
        && CacheOf(left)[entry] != Some(w.flight.value.id)
        && (w.flight.value.begun ==> CacheOf(left)[w.flight.value.entry].None?))
    case _ => true
  }

  /** Storing into an entry, or losing it, from the point of view of the cache alone. */
  lemma StoredUnique(c: Cache, k: nat, id: u32)
    requires k < SLOTS && Unique(c) && !Held(c, id)
    ensures Unique(c[k := Some(id)]) && Unique(c[k := None])
  {}

  lemma NoClashIffUnique(c: Cache, c': Cache, k: nat)
    requires k < SLOTS && Unique(c) && forall j :: 0 <= j < SLOTS && j != k ==> c'[j] == c[j] || c'[j] == None
    ensures Unique(c') <==> !Clashes(c', k)
  {
    if !Clashes(c', k) {
      forall i, j | 0 <= i < j < SLOTS && c'[i].Some?
        ensures c'[i] != c'[j]
      {
        if i != k && j != k && c'[j].Some? {
          assert c[i] == c'[i] && c[j] == c'[j];
        }
      }
    } else {
      var j :| 0 <= j < SLOTS && j != k && c'[j] == c'[k];
      SharedIsNotUnique(c', j, k);
    }
  }

  lemma StillNotHeld(c: Cache, c': Cache, k: nat, id: u32)
    requires k < SLOTS && !Held(c, id) && forall j :: 0 <= j < SLOTS && j != k ==> c'[j] == c[j] || c'[j] == None
    ensures Held(c', id) <==> c'[k] == Some(id)
  {}

  predicate OnlyList(e: Event) {
    e.List? || e.Start? || e.Reject? || e.Enter? || e.Elsewhere? || e.Reset?
  }

  lemma ListStepKeeps(w: World, e: Event, w': World)
    requires Inv(w) && OnlyList(e) && Step(w, e, w')
    ensures Inv(w')
    ensures e.Start? ==> Spare(CacheOf(w.mem)[w'.flight.value.entry], Wanted(w.ids))
  {
    match e
    case Start => NextMissingIff(w.ids, CacheOf(w.mem));
    case Enter => SeededIs(CacheOf(w.mem), SLOTS);
    case _ =>
  }

  /** A fetch that runs its course keeps all photos apart. */
  lemma FetchStepKeeps(w: World, e: Event, w': World)
    requires Inv(w) && (e.Begin? || e.Piece? || e.Complete?) && Step(w, e, w')
    ensures Inv(w')
    ensures !e.Complete? ==> CacheOf(w'.mem) == CacheOf(w.mem)[w.flight.value.entry := None]
  {
    var k, id := w.flight.value.entry, w.flight.value.id;
    OneEntry(w.mem, e.left, k);
    StoredUnique(CacheOf(w.mem), k, id);
    if !e.Complete? {
      EmptyHoldsNothing(e.left, SlotOf(k));
      StillNotHeld(CacheOf(w.mem), CacheOf(e.left), k, id);
    }
  }

  lemma BrokenStepIff(w: World, e: Event, w': World)
    requires Inv(w) && (e.Ended? || e.PowerCut?) && Step(w, e, w')
    ensures Inv(w') <==> Harmless(w, e)
  {
    if InFlight(w) && FlightOnly(w, e.left) {
      UniqueIff(w.mem, e.left, w.flight.value.entry);
    } else {
      assert e.left == w.mem;
      AtRestNoClash(w);
    }
  }

  lemma AtRestNoClash(w: World)
    requires Inv(w)
    ensures InFlight(w) ==> !Clashes(CacheOf(w.mem), w.flight.value.entry)
  {
    if InFlight(w) {
      NoClashIffUnique(CacheOf(w.mem), CacheOf(w.mem), w.flight.value.entry);
    }
  }

  lemma ResetBrokenIff(w: World, entry: nat, left: Mem, w': World)
    requires Inv(w) && Step(w, ResetBroken(entry, left), w')
    ensures Inv(w') <==> Harmless(w, ResetBroken(entry, left))
  {
    NoClashIffUnique(CacheOf(w.mem), CacheOf(left), entry);
    if w.flight.Some? {
      StillNotHeld(CacheOf(w.mem), CacheOf(left), entry, w.flight.value.id);
    }
  }

  /**
   No step makes two slots hold the same photo, except one that breaks a header off:
   that one exactly if the header then reads as what another slot holds, or will.
   */
  lemma StepKeepsIff(w: World, e: Event, w': World)
    requires Inv(w) && Step(w, e, w')
    ensures Inv(w') <==> Harmless(w, e)
  {
    if OnlyList(e) {
      ListStepKeeps(w, e, w');
    } else if e.Begin? || e.Piece? || e.Complete? {
      FetchStepKeeps(w, e, w');
    } else if e.ResetBroken? {
      ResetBrokenIff(w, e.entry, e.left, w');
    } else {
      BrokenStepIff(w, e, w');
    }
  }

  ghost predicate Run(ws: seq<World>, es: seq<Event>) {
    && |ws| == |es| + 1 && ws[0] == World([], ws[0].mem, None) && Unique(CacheOf(ws[0].mem))
    && forall i :: 0 <= i < |es| ==> Step(ws[i], es[i], ws[i + 1])
  }

  /** In every run in which no broken header read as a held photo, no two slots ever hold the same one. */
  lemma {:induction false} NoPhotoTwice(ws: seq<World>, es: seq<Event>, n: nat)
    requires Run(ws, es) && n < |ws|
    requires forall i :: 0 <= i < n ==> Harmless(ws[i], es[i])
    ensures Unique(CacheOf(ws[n].mem)) && Inv(ws[n])
  {
    if n > 0 {
      NoPhotoTwice(ws, es, n - 1);
      StepKeepsIff(ws[n - 1], es[n - 1], ws[n]);
    }
  }

  /** The first step of a run after which photos clash, or may come to, is one whose broken header says so. */
  lemma FirstClashIsABrokenHeader(ws: seq<World>, es: seq<Event>, n: nat) returns (i: nat)
    requires Run(ws, es) && n < |ws| && !Unique(CacheOf(ws[n].mem))
    ensures i < n && !Harmless(ws[i], es[i]) && Inv(ws[i]) && !Inv(ws[i + 1])
  {
    if forall j :: 0 <= j < n ==> Harmless(ws[j], es[j]) {
      NoPhotoTwice(ws, es, n);
    }
    i := FirstHarm(ws, es, n);
    StepKeepsIff(ws[i], es[i], ws[i + 1]);
  }

  lemma {:induction false} FirstHarm(ws: seq<World>, es: seq<Event>, n: nat) returns (i: nat)
    requires Run(ws, es) && n < |ws| && exists j :: 0 <= j < n && !Harmless(ws[j], es[j])
    ensures i < n && !Harmless(ws[i], es[i]) && Inv(ws[i])
  {
    if forall j :: 0 <= j < n - 1 ==> Harmless(ws[j], es[j]) {
      i := n - 1;
      NoPhotoTwice(ws, es, i);
    } else {
      i := FirstHarm(ws, es, n - 1);
    }
  }

  /** It does happen: from a flash with two photos, a fetch is begun and power goes. */
  lemma TwoSlotsOnePhoto() returns (ws: seq<World>, es: seq<Event>)
    ensures Run(ws, es) && !Unique(CacheOf(ws[|es|].mem))
  {
    var m, left := PhotoOneReadsAsThree();
    ws := [World([], m, None), World([3, 2], m, None), World([3, 2], m, Some(Flight(2, 0, false))), World([], left, None)];
    es := [List([3, 2]), Start, PowerCut(left)];
    EmptyingIsOnHeader(FIRST_SLOT);
    TornOnlySlot(m, Emptying(FIRST_SLOT), FIRST_SLOT, left);
    PhotoTwoGoesFirst(CacheOf(m));
    SharedIsNotUnique(CacheOf(left), 0, 1);
  }

  lemma PhotoTwoGoesFirst(c: Cache)
    requires c == [Some(1), Some(3), None, None, None, None]
    ensures NextMissing([3, 2], c) == Some((2, 0))
  {
    assert Wanted([3, 2]) == [3, 2];
    assert FindSlot(c, 3).Some? by {
      assert c[1] == Some(3);
    }
    assert [3, 2][1..] == [2];
    assert FindSlot(c, 2).None?;
    assert FirstMissing([2], c) == Some(2);
    assert FirstMissing([3, 2], c) == Some(2);
    assert c[0] == Some(1) && Spare(c[0], [3, 2]);
    assert FreeSlot([3, 2], c) == Some(0);
  }
}
