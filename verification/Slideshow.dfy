/** The slideshow app. */
module Slideshow {
  import opened Bytes
  import opened Wrappers
  import opened Flash
  import opened Album
  import opened AlbumFlash
  import opened Net
  import Photo

  /** What the app waits for. */
  datatype Job = Nothing | List | Photo(entry: nat, id: u32)

  class Slideshow {
    /** The first `count` entries are the list in use. */
    const ids: array<u32>
    var count: nat
    /** Which photo is shown, and where in the list it stands. */
    var showing: Option<(u32, nat)>
    var job: Job

    ghost predicate Valid()
      reads this
    {
      ids.Length == LIST_MAX && count <= LIST_MAX
    }

    ghost function Listed(): seq<u32>
      requires Valid()
      reads this, ids
    {
      ids[..count]
    }

    constructor ()
      ensures Valid() && ids.Length == 8 && count == 0 && showing == None && job == Nothing && fresh(ids)
    {
      ids := new u32[LIST_MAX](_ => 0);
      count := 0;
      showing := None;
      job := Nothing;
    }

    /** The list before any server was asked: the cached photos, sorted by insertion. */
    method SeedFromCache(cache: Cache)
      requires Valid()
      modifies this`count, ids
      ensures Valid() && Listed() == Seeded(cache, SLOTS)
    {
      count := 0;
      for n := 0 to SLOTS
        invariant Valid() && count <= n && Listed() == Seeded(cache, n)
      {
        if cache[n].Some? {
          InsertId(cache[n].value);
        }
      }
    }

    /** Makes room from the end, as far as the ids there are older. */
    method InsertId(id: u32)
      requires Valid() && count < LIST_MAX
      modifies this`count, ids
      ensures Valid() && count == old(count) + 1 && Listed() == Insert(old(Listed()), id)
    {
      ghost var before := Listed();
      var i := MakeRoom(id);
      InsertAt(before, i, id);
      ids[i] := id;
      count := count + 1;
      assert forall k :: 0 <= k < count ==> ids[k] == if k < i then before[k] else if k == i then id else before[k - 1];
      assert ids[..count] == before[..i] + [id] + before[i..];
    }

    /** Shifts the older ids by one; `i` is the place that becomes free. */
    method MakeRoom(id: u32) returns (i: nat)
      requires Valid() && count < LIST_MAX
      modifies ids
      ensures i <= count
      ensures forall k :: 0 <= k < i ==> ids[k] == old(ids[k])
      ensures forall k :: i < k <= count ==> ids[k] == old(ids[k - 1])
      ensures (i == 0 || old(ids[..])[i - 1] >= id) && forall k :: i <= k < count ==> old(ids[k]) < id
    {
      i := count;
      while i > 0 && ids[i - 1] < id
        invariant i <= count
        invariant forall k :: 0 <= k < i ==> ids[k] == old(ids[k])
        invariant forall k :: i < k <= count ==> ids[k] == old(ids[k - 1])
        invariant forall k :: i <= k < count ==> old(ids[k]) < id
      {
        ids[i] := ids[i - 1];
        i := i - 1;
      }
    }

    /** A wanted photo that is not in flash, and the entry to put it in. */
    method Pick(cache: Cache) returns (r: Option<(u32, nat)>)
      requires Valid()
      ensures r == NextMissing(Listed(), cache)
    {
      r := NextMissing(ids[..count], cache);
    }

    /** Asks for a photo; it is waited for only if the request was accepted. */
    method StartPhoto(net: Shared, photo: u32, entry: nat, id: nat)
      requires Valid() && net.Valid()
      modifies this`job, net
      ensures net.Valid()
      ensures var (lanes, r) := Fetch(old(net.Snapshot()), true, App, PhotoRequest(photo, entry, id));
              net.Snapshot() == lanes && job == if r.Ok? then Job.Photo(entry, photo) else old(job)
    {
      var r := net.FetchOn(true, App, PhotoRequest(photo, entry, id));
      if r.Ok? {
        job := Job.Photo(entry, photo);
      }
    }

    /** When the app is free and the list is not due: fetches what is missing, if anything is. */
    method FetchMissing(net: Shared, flash: Nor, id: nat)
      requires Valid() && net.Valid() && flash.Valid() && job == Nothing
      modifies this`job, net
      ensures net.Valid()
      ensures var missing := NextMissing(Listed(), CacheOf(flash.Image()));
              if missing.None? then job == Nothing && net.Snapshot() == old(net.Snapshot())
              else
                var (lanes, r) := Fetch(old(net.Snapshot()), true, App, PhotoRequest(missing.value.0, missing.value.1, id));
                net.Snapshot() == lanes && job == if r.Ok? then Job.Photo(missing.value.1, missing.value.0) else Nothing
      ensures job == Nothing || job.Photo?
      ensures job.Photo? ==>
        && (exists k: nat :: k < 6 && FirstAt(Listed(), CacheOf(flash.Image()), k, job.id))
        && job.entry < 6 && (forall j :: 0 <= j < 6 && j < count ==> CacheOf(flash.Image())[job.entry] != Some(Listed()[j]))
        && net.requests[0] == Some(Request(id, Sink.Blob(2 + job.entry, 0x414C_424D, job.id), []))
      ensures job == Nothing && old(net.up && net.jobs[0] != Pending) && Unique(CacheOf(flash.Image())) ==>
        forall j :: 0 <= j < 6 && j < count ==> Some(Listed()[j]) in CacheOf(flash.Image())
    {
      var missing := Pick(CacheOf(flash.Image()));
      if missing.None? {
        if Unique(CacheOf(flash.Image())) {
          NothingMissing(Listed(), CacheOf(flash.Image()));
        }
      } else {
        ghost var k := NewestMissing(Listed(), CacheOf(flash.Image()));
        StartPhoto(net, missing.value.0, missing.value.1, id);
      }
    }

    /** Takes in what came back for a photo: shown if nothing is, or dropped from the list if it is none. */
    method FinishPhoto(flash: Nor, r: FetchResult, photo: u32)
      requires Valid() && flash.Valid()
      modifies this`count, this`showing, ids
      ensures Valid()
      ensures Listed() == if r.status == 200 && r.len == Photo.BYTES then old(Listed()) else Without(old(Listed()), photo)
      ensures var good := r.status == 200 && r.len == 40960 && count > 0 && Some(Listed()[0]) in CacheOf(flash.Image());
              showing == if good && old(showing).None? then Some((Listed()[0], 0)) else old(showing)
    {
      if r.status == 200 && r.len == Photo.BYTES {
        if showing.None? {
          NewestOnly(CacheOf(flash.Image()), Listed());
          ghost var steps := Step(CacheOf(flash.Image()), 0);
        }
      } else {
        DropPhoto(photo);
      }
    }

    /** The next cached photo in a direction: -1, 0 or 1. */
    method Step(cache: Cache, direction: int) returns (ghost steps: nat)
      requires Valid() && -1 <= direction <= 1
      modifies this`showing
      ensures steps == FirstCached(cache, Listed(), old(showing), direction, 1)
      ensures showing == if steps == 0 then old(showing)
                         else Some(At(Listed(), Place(old(showing), direction, steps, |Wanted(Listed())|)))
    {
      var n := |Wanted(ids[..count])|;
      for k := 1 to n + 1
        invariant showing == old(showing)
        invariant FirstCached(cache, Listed(), showing, direction, k) == FirstCached(cache, Listed(), showing, direction, 1)
      {
        var pos := Place(showing, direction, k, n);
        assert Listed()[pos] == ids[pos];
        if FindSlot(cache, ids[pos]).Some? {
          steps := k;
          showing := Some((ids[pos], pos));
          return;
        }
      }
      steps := 0;
    }

    /** Opening the app shows the newest photo that flash holds, if it holds any. */
    method OnEnter(flash: Nor)
      requires Valid() && flash.Valid()
      modifies this, ids
      ensures Valid() && Listed() == Seeded(CacheOf(flash.Image()), SLOTS)
      ensures showing == if count == 0 then None else Some((Listed()[0], 0))
      ensures job == Nothing
    {
      job := Nothing;
      ShowNewest(CacheOf(flash.Image()));
    }

    method ShowNewest(cache: Cache)
      requires Valid()
      modifies this`count, this`showing, ids
      ensures Valid() && Listed() == Seeded(cache, SLOTS)
      ensures showing == if count == 0 then None else Some((Listed()[0], 0))
    {
      SeedFromCache(cache);
      showing := None;
      ghost var listed := Listed();
      if count > 0 {
        FirstIsCached(cache, listed);
      }
      ghost var steps := Step(cache, 0);
    }

    /** A list from the server replaces the old one; the photo on screen keeps its place in the new order. */
    method FinishList(listed: seq<u32>)
      requires Valid() && |listed| <= LIST_MAX
      modifies this`count, this`showing, ids
      ensures Valid() && Listed() == listed
      ensures showing.Some? ==>
        && old(showing).Some? && showing.value.0 == old(showing).value.0
        && showing.value.1 < |Wanted(listed)| && Wanted(listed)[showing.value.1] == showing.value.0
      ensures old(showing).Some? && old(showing).value.0 in Wanted(listed) ==> showing.Some?
    {
      forall i | 0 <= i < LIST_MAX {
        ids[i] := if i < |listed| then listed[i] else 0;
      }
      count := |listed|;
      assert ids[..count] == listed;
      if showing.Some? {
        var at := Position(Wanted(ids[..count]), showing.value.0);
        showing := if at.Some? then Some((showing.value.0, at.value)) else None;
      }
    }

    /** A photo that was refused, or is no photo, is dropped from the list. */
    method DropPhoto(id: u32)
      requires Valid()
      modifies this`count, ids
      ensures Valid() && Listed() == Without(old(Listed()), id)
    {
      ghost var before := ids[..count];
      var at := Position(ids[..count], id);
      if at.Some? {
        var pos := at.value;
        forall i | pos <= i < count - 1 {
          ids[i] := ids[i + 1];
        }
        count := count - 1;
        ClosedUp(before, ids[..count], pos);
      }
    }
  }

  lemma ClosedUp(before: seq<u32>, after: seq<u32>, pos: nat)
    requires pos < |before| == |after| + 1
    requires forall i :: 0 <= i < pos ==> after[i] == before[i]
    requires forall i :: pos <= i < |after| ==> after[i] == before[i + 1]
    ensures after == before[..pos] + before[pos + 1..]
  {}

  function PhotoRequest(photo: u32, entry: nat, id: nat): Request {
    Request(id, Sink.Blob(FIRST_SLOT + entry, KIND_ALBUM, photo), [])
  }

  /** The place `k` steps on, going round the wanted photos. */
  function Place(showing: Option<(u32, nat)>, direction: int, k: nat, n: nat): (p: nat)
    requires 1 <= k <= n
    ensures p < n
  {
    ((if showing.Some? then showing.value.1 else 0) + direction * k) % n
  }

  predicate Cached(cache: Cache, ids: seq<u32>, pos: nat) {
    pos < |ids| && FindSlot(cache, ids[pos]).Some?
  }

  function At(ids: seq<u32>, pos: nat): (u32, nat)
    requires pos < |ids|
  {
    (ids[pos], pos)
  }

  /** How many steps on the first cached photo is, from step `k`; 0 if none of the wanted ones is cached. */
  function FirstCached(cache: Cache, ids: seq<u32>, showing: Option<(u32, nat)>, direction: int, k: nat): (r: nat)
    requires 1 <= k
    ensures r > 0 ==> k <= r <= |Wanted(ids)| && Cached(cache, ids, Place(showing, direction, r, |Wanted(ids)|))
    ensures forall j :: k <= j <= |Wanted(ids)| && (r == 0 || j < r) ==> !Cached(cache, ids, Place(showing, direction, j, |Wanted(ids)|))
    decreases |Wanted(ids)| - k
  {
    if k > |Wanted(ids)| then 0
    else if Cached(cache, ids, Place(showing, direction, k, |Wanted(ids)|)) then k
    else FirstCached(cache, ids, showing, direction, k + 1)
  }

  lemma CachedIs(cache: Cache, ids: seq<u32>, pos: nat)
    ensures Cached(cache, ids, pos) <==> pos < |ids| && Some(ids[pos]) in cache
  {
    if Cached(cache, ids, pos) {
      assert cache[FindSlot(cache, ids[pos]).value] == Some(ids[pos]);
    }
  }

  /** Onwards is to the next older photo, back to the next newer one, and both go round. */
  lemma PlaceIs(showing: Option<(u32, nat)>, k: nat, n: nat)
    requires 1 <= k <= n
    ensures var start := if showing.Some? then showing.value.1 else 0;
            Place(showing, 1, k, n) == (start + k) % n && Place(showing, -1, k, n) == (start - k) % n && Place(showing, 0, k, n) == start % n
  {}

  /** From the list alone: how far on in that direction the first of its six newest photos is that a slot holds. */
  lemma FirstCachedIs(cache: Cache, ids: seq<u32>, showing: Option<(u32, nat)>, direction: int)
    ensures var r, n := FirstCached(cache, ids, showing, direction, 1), if |ids| < 6 then |ids| else 6;
            && r <= n
            && (r > 0 ==> Some(ids[Place(showing, direction, r, n)]) in cache)
            && forall k :: 1 <= k <= n && (r == 0 || k < r) ==> Some(ids[Place(showing, direction, k, n)]) !in cache
  {
    var r, n := FirstCached(cache, ids, showing, direction, 1), |Wanted(ids)|;
    forall k | 1 <= k <= n && (r == 0 || k < r)
      ensures Some(ids[Place(showing, direction, k, n)]) !in cache
    {
      CachedIs(cache, ids, Place(showing, direction, k, n));
    }
    if r > 0 {
      CachedIs(cache, ids, Place(showing, direction, r, n));
    }
  }

  /** Without a photo on screen the only one to show is the newest. */
  lemma NewestOnly(cache: Cache, ids: seq<u32>)
    ensures var r := FirstCached(cache, ids, None, 0, 1);
            && (r > 0 <==> ids != [] && Some(ids[0]) in cache)
            && (r > 0 ==> Place(None, 0, r, |Wanted(ids)|) == 0)
  {
    var r, n := FirstCached(cache, ids, None, 0, 1), |Wanted(ids)|;
    FirstCachedIs(cache, ids, None, 0);
    if r > 0 {
      PlaceIs(None, r, n);
    } else if ids != [] {
      PlaceIs(None, 1, n);
      assert Some(ids[Place(None, 0, 1, n)]) !in cache;
    }
  }

  lemma FirstIsCached(cache: Cache, listed: seq<u32>)
    requires listed == Seeded(cache, SLOTS) && listed != []
    ensures FirstCached(cache, listed, None, 0, 1) == 1 && Place(None, 0, 1, |Wanted(listed)|) == 0
  {
    SeededHeld(cache, SLOTS, listed[0]);
    assert Cached(cache, listed, 0);
  }
}
