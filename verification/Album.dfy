/** The slideshow's six-slot photo cache: which photo is fetched next, and into which slot. */
module Album {
  import opened Bytes
  import opened Wrappers

  const SLOTS := 6
  const LIST_MAX := 8

  /** What each slot holds, if it is a complete album photo. */
  type Cache = c: seq<Option<u32>> | |c| == SLOTS witness [None, None, None, None, None, None]

  ghost predicate Unique(c: Cache) {
    forall i, j :: 0 <= i < j < SLOTS && c[i].Some? ==> c[i] != c[j]
  }

  predicate Held(c: Cache, id: u32) {
    Some(id) in c
  }

  /** The first slot that holds `id`. */
  function FindSlot(c: Cache, id: u32, from: nat := 0): (r: Option<nat>)
    requires from <= SLOTS
    ensures r.Some? ==> from <= r.value < SLOTS && c[r.value] == Some(id)
    ensures forall i :: from <= i < (if r.Some? then r.value else SLOTS) ==> c[i] != Some(id)
    decreases SLOTS - from
  {
    if from == SLOTS then None
    else if c[from] == Some(id) then Some(from)
    else FindSlot(c, id, from + 1)
  }

  /** The newest photos that fit in the slots: the list has the newest first. */
  function Wanted(ids: seq<u32>): (w: seq<u32>)
    ensures |w| <= SLOTS
  {
    if |ids| < SLOTS then ids else ids[..SLOTS]
  }

  /** The first wanted photo that no slot holds. */
  function FirstMissing(wanted: seq<u32>, c: Cache): (r: Option<u32>)
    ensures r.Some? ==> r.value in wanted && !Held(c, r.value)
    ensures r.None? ==> forall id :: id in wanted ==> Held(c, id)
  {
    if wanted == [] then None
    else if FindSlot(c, wanted[0]).None? then Some(wanted[0])
    else
      assert c[FindSlot(c, wanted[0]).value] == Some(wanted[0]);
      FirstMissing(wanted[1..], c)
  }

  predicate Spare(held: Option<u32>, wanted: seq<u32>) {
    held.None? || held.value !in wanted
  }

  /** The first slot that holds no wanted photo. */
  function FreeSlot(wanted: seq<u32>, c: Cache, from: nat := 0): (r: Option<nat>)
    requires from <= SLOTS
    ensures r.Some? ==> r.value < SLOTS && Spare(c[r.value], wanted)
    ensures r.None? ==> forall i :: from <= i < SLOTS ==> !Spare(c[i], wanted)
    decreases SLOTS - from
  {
    if from == SLOTS then None
    else if Spare(c[from], wanted) then Some(from)
    else FreeSlot(wanted, c, from + 1)
  }

  /** What to fetch next and where to: the first missing photo, over the first slot that can be spared. */
  function NextMissing(ids: seq<u32>, c: Cache): Option<(u32, nat)> {
    var id := FirstMissing(Wanted(ids), c);
    var slot := FreeSlot(Wanted(ids), c);
    if id.Some? && slot.Some? then Some((id.value, slot.value)) else None
  }

  // --- the pigeonhole ------------------------------------------------------

  function Elements(s: seq<u32>): (e: set<u32>)
    ensures forall x :: x in e <==> x in s
  {
    if s == [] then {} else Elements(s[1..]) + {s[0]}
  }

  lemma {:induction false} AtMost(s: seq<u32>)
    ensures |Elements(s)| <= |s|
  {
    if s != [] {
      AtMost(s[1..]);
    }
  }

  function HeldIn(c: Cache, n: nat): set<u32>
    requires n <= SLOTS
  {
    set i | 0 <= i < n && c[i].Some? :: c[i].value
  }

  lemma {:induction false} CountHeld(c: Cache, n: nat)
    requires n <= SLOTS && Unique(c) && forall i :: 0 <= i < n ==> c[i].Some?
    ensures |HeldIn(c, n)| == n
  {
    if n > 0 {
      CountHeld(c, n - 1);
      assert HeldIn(c, n) == HeldIn(c, n - 1) + {c[n - 1].value};
    } else {
      assert HeldIn(c, 0) == {};
    }
  }

  lemma Subset(a: set<u32>, b: set<u32>)
    requires a <= b
    ensures |a| <= |b|
  {
    if a != {} {
      var x :| x in a;
      Subset(a - {x}, b - {x});
    }
  }

  /** Six different wanted photos leave none of the six wanted missing. */
  lemma AllHeldIfFull(wanted: seq<u32>, c: Cache, id: u32)
    requires Unique(c) && |wanted| <= SLOTS && id in wanted
    requires forall i :: 0 <= i < SLOTS ==> c[i].Some? && c[i].value in wanted
    ensures Held(c, id)
  {
    if !Held(c, id) {
      CountHeld(c, SLOTS);
      AtMost(wanted);
      assert id !in HeldIn(c, SLOTS);
      Subset(HeldIn(c, SLOTS) + {id}, Elements(wanted));
      assert false;
    }
  }

  /** While a wanted photo is missing, some slot holds none of the wanted ones. */
  lemma MissingLeavesRoom(wanted: seq<u32>, c: Cache)
    requires Unique(c) && |wanted| <= SLOTS && FirstMissing(wanted, c).Some?
    ensures FreeSlot(wanted, c).Some?
  {
    if FreeSlot(wanted, c).None? {
      forall i | 0 <= i < SLOTS
        ensures c[i].Some? && c[i].value in wanted
      {
        assert !Spare(c[i], wanted);
      }
      AllHeldIfFull(wanted, c, FirstMissing(wanted, c).value);
    }
  }

  /**
   A photo to fetch is found exactly while a wanted one is missing; it is a
   wanted one, and its slot holds no wanted photo.
   */
  lemma NextMissingIff(ids: seq<u32>, c: Cache)
    requires Unique(c)
    ensures NextMissing(ids, c).Some? <==> exists id :: id in Wanted(ids) && !Held(c, id)
    ensures NextMissing(ids, c).Some? ==>
      var (id, slot) := NextMissing(ids, c).value;
      id in Wanted(ids) && !Held(c, id) && slot < SLOTS && Spare(c[slot], Wanted(ids))
  {
    if FirstMissing(Wanted(ids), c).Some? {
      MissingLeavesRoom(Wanted(ids), c);
    }
  }

  /** Entry `k` of the list is `id`, which no slot holds, and every earlier one is held. */
  predicate FirstAt(list: seq<u32>, c: Cache, k: nat, id: u32) {
    k < |list| && list[k] == id && Some(id) !in c && forall j :: 0 <= j < k ==> Some(list[j]) in c
  }

  lemma {:induction false} FirstMissingAt(wanted: seq<u32>, c: Cache) returns (k: nat)
    requires FirstMissing(wanted, c).Some?
    ensures FirstAt(wanted, c, k, FirstMissing(wanted, c).value)
  {
    if FindSlot(c, wanted[0]).None? {
      k := 0;
    } else {
      k := FirstMissingAt(wanted[1..], c);
      assert c[FindSlot(c, wanted[0]).value] == Some(wanted[0]);
      forall j | 0 <= j < k + 1
        ensures Some(wanted[j]) in c
      {
        assert j == 0 || wanted[j] == wanted[1..][j - 1];
      }
      k := k + 1;
    }
  }

  /**
   From the list alone: what is fetched next is the newest of its first six photos that
   no slot holds, and the slot it goes to holds none of the six.
   */
  lemma NewestMissing(ids: seq<u32>, c: Cache) returns (k: nat)
    requires NextMissing(ids, c).Some?
    ensures k < 6 && FirstAt(ids, c, k, NextMissing(ids, c).value.0)
    ensures NextMissing(ids, c).value.1 < 6
    ensures forall j :: 0 <= j < 6 && j < |ids| ==> c[NextMissing(ids, c).value.1] != Some(ids[j])
  {
    var wanted := Wanted(ids);
    k := FirstMissingAt(wanted, c);
    forall j | 0 <= j < 6 && j < |ids|
      ensures c[NextMissing(ids, c).value.1] != Some(ids[j])
    {
      assert wanted[j] == ids[j];
    }
  }

  /** Nothing is fetched exactly while the first six are all held. */
  lemma NothingMissing(ids: seq<u32>, c: Cache)
    requires Unique(c)
    ensures NextMissing(ids, c).None? <==> forall j :: 0 <= j < 6 && j < |ids| ==> Some(ids[j]) in c
  {
    NextMissingIff(ids, c);
    var wanted := Wanted(ids);
    if NextMissing(ids, c).None? {
      forall j | 0 <= j < 6 && j < |ids|
        ensures Some(ids[j]) in c
      {
        assert wanted[j] == ids[j] && Held(c, wanted[j]);
      }
    } else {
      var k := NewestMissing(ids, c);
    }
  }

  // --- progress ------------------------------------------------------------

  function CountMissing(wanted: seq<u32>, c: Cache): nat {
    if wanted == [] then 0
    else CountMissing(wanted[..|wanted| - 1], c) + if Held(c, wanted[|wanted| - 1]) then 0 else 1
  }

  lemma StoredElsewhereStays(c: Cache, slot: nat, id: u32, x: u32)
    requires slot < SLOTS && Held(c, x) && c[slot] != Some(x)
    ensures Held(c[slot := Some(id)], x)
  {
    var i :| 0 <= i < SLOTS && c[i] == Some(x);
    assert c[slot := Some(id)][i] == Some(x);
  }

  /** Storing a photo over none of the wanted ones loses none of them. */
  lemma {:induction false} StoringKeeps(wanted: seq<u32>, c: Cache, id: u32, slot: nat)
    requires slot < SLOTS && !Held(c, id)
    requires c[slot].Some? ==> c[slot].value !in wanted
    ensures CountMissing(wanted, c[slot := Some(id)]) <= CountMissing(wanted, c)
    ensures id in wanted ==> CountMissing(wanted, c[slot := Some(id)]) < CountMissing(wanted, c)
  {
    if wanted != [] {
      var n := |wanted| - 1;
      StoringKeeps(wanted[..n], c, id, slot);
      assert c[slot := Some(id)][slot] == Some(id);
      if wanted[n] != id && Held(c, wanted[n]) {
        StoredElsewhereStays(c, slot, id, wanted[n]);
      }
    }
  }

  /** Every photo fetched brings the cache closer to holding all that is wanted. */
  lemma FetchMakesProgress(ids: seq<u32>, c: Cache)
    requires Unique(c) && NextMissing(ids, c).Some?
    ensures var (id, slot) := NextMissing(ids, c).value;
            && CountMissing(Wanted(ids), c[slot := Some(id)]) < CountMissing(Wanted(ids), c)
            && Unique(c[slot := Some(id)])
  {
    NextMissingIff(ids, c);
    var (id, slot) := NextMissing(ids, c).value;
    StoringKeeps(Wanted(ids), c, id, slot);
  }

  /** What the server answers: photos it sends, and photos it refuses. */
  function Settle(ids: seq<u32>, c: Cache, refused: set<u32>): (seq<u32>, Cache)
    requires Unique(c)
    decreases |ids|, CountMissing(Wanted(ids), c)
  {
    if NextMissing(ids, c).None? then (ids, c)
    else
      NextMissingIff(ids, c);
      var (id, slot) := NextMissing(ids, c).value;
      if id in refused then Settle(Without(ids, id), c, refused)
      else
        FetchMakesProgress(ids, c);
        Settle(ids, c[slot := Some(id)], refused)
  }

  function Position(s: seq<u32>, id: u32): (r: Option<nat>)
    ensures r.Some? ==> r.value < |s| && s[r.value] == id && id !in s[..r.value]
    ensures r.None? ==> id !in s
  {
    if s == [] then None
    else if s[0] == id then Some(0)
    else
      var r := Position(s[1..], id);
      if r.None? then None else
        assert s[..r.value + 1] == [s[0]] + s[1..][..r.value];
        Some(r.value + 1)
  }

  /** The list without the first `id`. */
  function Without(ids: seq<u32>, id: u32): (r: seq<u32>)
    ensures if id in ids then |r| == |ids| - 1 else r == ids
    ensures id in ids ==> exists pos :: 0 <= pos < |ids| && ids[pos] == id && id !in ids[..pos] && r == ids[..pos] + ids[pos + 1..]
    ensures forall x :: x in r ==> x in ids
  {
    match Position(ids, id)
    case Some(pos) => ids[..pos] + ids[pos + 1..]
    case None => ids
  }

  /** With a server that answers, fetching ends, and then every photo still wanted is in flash. */
  lemma {:induction false} FetchingSettles(ids: seq<u32>, c: Cache, refused: set<u32>)
    requires Unique(c)
    ensures var (left, cache) := Settle(ids, c, refused);
            && (forall id :: id in Wanted(left) ==> Held(cache, id))
            && (forall id :: id in left ==> id in ids)
            && Unique(cache)
    decreases |ids|, CountMissing(Wanted(ids), c)
  {
    NextMissingIff(ids, c);
    if NextMissing(ids, c).Some? {
      var (id, slot) := NextMissing(ids, c).value;
      if id in refused {
        FetchingSettles(Without(ids, id), c, refused);
      } else {
        FetchMakesProgress(ids, c);
        FetchingSettles(ids, c[slot := Some(id)], refused);
      }
    }
  }

  // --- seeding the list ---------------------------------------------------

  function Insert(sorted: seq<u32>, id: u32): (r: seq<u32>)
    ensures |r| == |sorted| + 1
  {
    if sorted == [] || sorted[|sorted| - 1] >= id then sorted + [id]
    else Insert(sorted[..|sorted| - 1], id) + [sorted[|sorted| - 1]]
  }

  /** The ids in the first `n` slots, newest first. */
  function Seeded(c: Cache, n: nat): seq<u32>
    requires n <= SLOTS
  {
    if n == 0 then []
    else if c[n - 1].Some? then Insert(Seeded(c, n - 1), c[n - 1].value)
    else Seeded(c, n - 1)
  }

  function HeldList(c: Cache, n: nat): seq<u32>
    requires n <= SLOTS
  {
    if n == 0 then [] else HeldList(c, n - 1) + if c[n - 1].Some? then [c[n - 1].value] else []
  }

  /** Insertion finds the place behind the last id that is not older. */
  lemma {:induction false} InsertAt(s: seq<u32>, i: nat, id: u32)
    requires i <= |s| && (i == 0 || s[i - 1] >= id) && forall k :: i <= k < |s| ==> s[k] < id
    ensures Insert(s, id) == s[..i] + [id] + s[i..]
  {
    if i < |s| {
      var n := |s| - 1;
      InsertAt(s[..n], i, id);
      assert s[..n][..i] == s[..i] && s[i..] == s[..n][i..] + [s[n]];
    } else {
      assert s[..i] == s && s[i..] == [];
    }
  }

  predicate Descending(s: seq<u32>) {
    forall i, j :: 0 <= i < j < |s| ==> s[i] >= s[j]
  }

  lemma {:induction false} InsertAdds(sorted: seq<u32>, id: u32)
    ensures multiset(Insert(sorted, id)) == multiset(sorted) + multiset{id}
  {
    if sorted != [] && sorted[|sorted| - 1] < id {
      var n := |sorted| - 1;
      InsertAdds(sorted[..n], id);
      assert sorted == sorted[..n] + [sorted[n]];
      assert Insert(sorted, id) == Insert(sorted[..n], id) + [sorted[n]];
    }
  }

  predicate AllAtLeast(s: seq<u32>, x: u32) {
    forall i :: 0 <= i < |s| ==> s[i] >= x
  }

  lemma {:induction false} InsertKeepsAbove(sorted: seq<u32>, id: u32, x: u32)
    requires AllAtLeast(sorted, x) && id >= x
    ensures AllAtLeast(Insert(sorted, id), x)
  {
    if sorted != [] && sorted[|sorted| - 1] < id {
      InsertKeepsAbove(sorted[..|sorted| - 1], id, x);
    }
  }

  lemma {:induction false} InsertSorts(sorted: seq<u32>, id: u32)
    requires Descending(sorted)
    ensures Descending(Insert(sorted, id))
  {
    if sorted != [] && sorted[|sorted| - 1] < id {
      var n := |sorted| - 1;
      InsertSorts(sorted[..n], id);
      InsertKeepsAbove(sorted[..n], id, sorted[n]);
    }
  }

  lemma {:induction false} InsertHas(sorted: seq<u32>, id: u32, x: u32)
    requires x in Insert(sorted, id)
    ensures x == id || x in sorted
  {
    if sorted != [] && sorted[|sorted| - 1] < id && x in Insert(sorted[..|sorted| - 1], id) {
      InsertHas(sorted[..|sorted| - 1], id, x);
    }
  }

  lemma {:induction false} SeededHeld(c: Cache, n: nat, id: u32)
    requires n <= SLOTS && id in Seeded(c, n)
    ensures Held(c, id) && FindSlot(c, id).Some?
  {
    if c[n - 1].Some? && id == c[n - 1].value {
      assert c[n - 1] == Some(id);
    } else {
      if c[n - 1].Some? {
        InsertHas(Seeded(c, n - 1), c[n - 1].value, id);
      }
      SeededHeld(c, n - 1, id);
    }
  }

  /** The seeded list is a permutation of the ids held, newest first. */
  lemma {:induction false} SeededIs(c: Cache, n: nat)
    requires n <= SLOTS
    ensures |Seeded(c, n)| <= n && Descending(Seeded(c, n))
    ensures multiset(Seeded(c, n)) == multiset(HeldList(c, n))
  {
    if n > 0 {
      SeededIs(c, n - 1);
      if c[n - 1].Some? {
        InsertSorts(Seeded(c, n - 1), c[n - 1].value);
        InsertAdds(Seeded(c, n - 1), c[n - 1].value);
      }
    }
  }
}
