/** The age enrichment behind the people sort by age: the age arithmetic, the per-session cache
    of ages, the batched loop that fills it from a person lookup, and the age map it publishes. */
module AgeLoading {
  import opened Wrappers
  import opened Sequences
  import opened SearchResults

  /** A calendar date as the year, month and day fields of a `Date`. */
  datatype Date = Date(year: int, month: int, day: int)

  /** `a` is not later than `b`. */
  predicate DateLe(a: Date, b: Date) {
    a.year < b.year || (a.year == b.year && (a.month < b.month || (a.month == b.month && a.day <= b.day)))
  }

  /** The `years`-th anniversary of `birth`. */
  function Anniversary(birth: Date, years: int): Date {
    Date(birth.year + years, birth.month, birth.day)
  }

  /** The year difference, less one when this year's birthday is still to come: the number of
      anniversaries reached by `now`, never negative when `birth` is not after `now`. */
  function Age(birth: Date, now: Date): (age: int)
    ensures forall k :: DateLe(Anniversary(birth, k), now) <==> k <= age
    ensures DateLe(birth, now) ==> age >= 0
  {
    var age := now.year - birth.year;
    var m := now.month - birth.month;
    if m < 0 || (m == 0 && now.day < birth.day) then age - 1 else age
  }

  /** What the loop stores for one looked-up person: the age, or null without a birthday. */
  function AgeEntry(birthday: Option<Date>, now: Date): Option<int> {
    match birthday
    case Some(b) => Some(Age(b, now))
    case None => None
  }

  function NonZero(id: int): bool {
    id != 0
  }

  /** The ids of the listed people, in order, without the falsy id 0. */
  function AllIds(people: seq<Person>): (all: seq<int>)
    ensures |all| == |people| && forall i :: 0 <= i < |people| ==> all[i] == people[i].id
  {
    seq(|people|, i requires 0 <= i < |people| => people[i].id)
  }

  /** The ids of the listed people, in order, without the falsy id 0: a subsequence of the ids
      that keeps every occurrence of a non-zero id and none of 0. */
  function PersonIds(people: seq<Person>): (r: seq<int>)
    ensures forall i :: 0 <= i < |r| ==> r[i] != 0
    ensures forall i :: 0 <= i < |people| && people[i].id != 0 ==> people[i].id in r
    ensures IsSubsequence(r, AllIds(people))
    ensures forall x :: multiset(r)[x] == if x == 0 then 0 else multiset(AllIds(people))[x]
  {
    var all := AllIds(people);
    FilterMembers(all, NonZero);
    FilterIsSubsequence(all, NonZero);
    FilterCounts(all, NonZero);
    Filter(all, NonZero)
  }

  function Uncached(cache: map<int, Option<int>>): int -> bool {
    id => id !in cache
  }

  /** The listed ids that have no cache entry yet: a subsequence of `ids` (same order) that keeps
      every occurrence of an uncached id and drops every cached one. */
  function MissingIds(ids: seq<int>, cache: map<int, Option<int>>): (r: seq<int>)
    ensures forall i :: 0 <= i < |r| ==> r[i] in ids && r[i] !in cache
    ensures forall i :: 0 <= i < |ids| && ids[i] !in cache ==> ids[i] in r
    ensures IsSubsequence(r, ids)
    ensures forall x :: multiset(r)[x] == if x in cache then 0 else multiset(ids)[x]
  {
    FilterMembers(ids, Uncached(cache));
    FilterIsSubsequence(ids, Uncached(cache));
    FilterCounts(ids, Uncached(cache));
    Filter(ids, Uncached(cache))
  }

  const BatchSize: nat := 4

  function Min(a: int, b: int): int {
    if a < b then a else b
  }

  /** The loop stops before batch `cancelAt` (0-based) when that batch exists. */
  predicate Cancelled(missing: nat, cancelAt: Option<nat>) {
    cancelAt.Some? && BatchSize * cancelAt.value < missing
  }

  /** How many of the missing ids get an entry. */
  function Filled(missing: nat, cancelAt: Option<nat>): (n: nat)
    ensures n <= missing
  {
    if Cancelled(missing, cancelAt) then BatchSize * cancelAt.value else missing
  }

  /** The map handed to `setPeopleAges`: one key per id, the cached value or null. */
  method PublishedAges(ids: seq<int>, cache: map<int, Option<int>>) returns (m: map<int, Option<int>>)
    ensures m.Keys == set id | id in ids
    ensures forall id :: id in m ==> m[id] == if id in cache then cache[id] else None
  {
    m := map[];
    var k := 0;
    while k < |ids|
      invariant 0 <= k <= |ids|
      invariant m.Keys == set id | id in ids[..k]
      invariant forall id :: id in m ==> m[id] == if id in cache then cache[id] else None
    {
      var id := ids[k];
      m := m[id := if id in cache then cache[id] else None];
      assert ids[..k + 1] == ids[..k] + [id];
      k := k + 1;
    }
    assert ids[..k] == ids;
  }

  /** The cache after the lookups of `ids`, in order, were written into `cache`. */
  function Fill(cache: map<int, Option<int>>, ids: seq<int>, getPerson: int -> Option<Date>, now: Date): map<int, Option<int>> {
    if ids == [] then cache
    else Fill(cache, ids[..|ids| - 1], getPerson, now)[ids[|ids| - 1] := AgeEntry(getPerson(ids[|ids| - 1]), now)]
  }

  lemma FillStep(cache: map<int, Option<int>>, ids: seq<int>, j: nat, getPerson: int -> Option<Date>, now: Date)
    requires j < |ids|
    ensures Fill(cache, ids[..j + 1], getPerson, now) == Fill(cache, ids[..j], getPerson, now)[ids[j] := AgeEntry(getPerson(ids[j]), now)]
  {
    assert ids[..j + 1][..j] == ids[..j];
  }

  /** Filling adds exactly the looked-up ids, gives each its lookup's entry and keeps every other
      entry. */
  lemma {:induction false} FillContents(cache: map<int, Option<int>>, ids: seq<int>, getPerson: int -> Option<Date>, now: Date)
    ensures Fill(cache, ids, getPerson, now).Keys == cache.Keys + (set id | id in ids)
    ensures forall id :: id in ids ==> Fill(cache, ids, getPerson, now)[id] == AgeEntry(getPerson(id), now)
    ensures forall id :: id in cache && id !in ids ==> Fill(cache, ids, getPerson, now)[id] == cache[id]
  {
    if ids != [] {
      var init, x := ids[..|ids| - 1], ids[|ids| - 1];
      FillContents(cache, init, getPerson, now);
      var before := Fill(cache, init, getPerson, now);
      var after := Fill(cache, ids, getPerson, now);
      assert after == before[x := AgeEntry(getPerson(x), now)];
      SplitLast(ids);
      assert (set id | id in ids) == (set id | id in init) + {x};
      forall id | id in ids
        ensures after[id] == AgeEntry(getPerson(id), now)
      {
        if id != x {
          assert id in init;
        }
      }
      forall id | id in cache && id !in ids
        ensures after[id] == cache[id]
      {
        assert id !in init;
      }
    }
  }

  /** Writes the entries of `missing[i..end]`, in order, into a cache that already holds the
      entries of the ids before them. */
  method WriteBatch(cache0: map<int, Option<int>>, cache: map<int, Option<int>>, missing: seq<int>, i: nat, end: nat,
                    getPerson: int -> Option<Date>, now: Date)
    returns (c: map<int, Option<int>>)
    requires i <= end <= |missing|
    requires cache == Fill(cache0, missing[..i], getPerson, now)
    ensures c == Fill(cache0, missing[..end], getPerson, now)
  {
    c := cache;
    var k := i;
    while k < end
      invariant i <= k <= end
      invariant c == Fill(cache0, missing[..k], getPerson, now)
    {
      var id := missing[k];
      FillStep(cache0, missing, k, getPerson, now);
      c := c[id := AgeEntry(getPerson(id), now)];
      k := k + 1;
    }
  }

  /** Batch `k` is the slice of `missing` from `4 * k`, four ids long or up to the end. */
  ghost predicate InBatches(batches: seq<seq<int>>, missing: seq<int>) {
    forall k :: 0 <= k < |batches| ==>
      BatchSize * k < |missing| && batches[k] == missing[BatchSize * k..Min(BatchSize * k + BatchSize, |missing|)]
  }

  /** Appending the batch that starts where the covered prefix ends keeps the batch shape. */
  lemma InBatchesAppend(batches: seq<seq<int>>, missing: seq<int>, i: nat, end: nat)
    requires InBatches(batches, missing)
    requires i == BatchSize * |batches| && i < |missing| && end == Min(i + BatchSize, |missing|)
    ensures InBatches(batches + [missing[i..end]], missing)
  {
    var next := batches + [missing[i..end]];
    forall k | 0 <= k < |next|
      ensures BatchSize * k < |missing| && next[k] == missing[BatchSize * k..Min(BatchSize * k + BatchSize, |missing|)]
    {
      if k < |batches| {
        assert next[k] == batches[k];
      } else {
        assert BatchSize * k == i && next[k] == missing[i..end];
      }
    }
  }

  /** Appending that batch extends the covered prefix by it. */
  lemma ConcatBatch(batches: seq<seq<int>>, missing: seq<int>, i: nat, end: nat)
    requires i <= end <= |missing|
    requires Concat(batches) == missing[..i]
    ensures Concat(batches + [missing[i..end]]) == missing[..end]
  {
    ConcatAppend(batches, missing[i..end]);
    assert missing[..end] == missing[..i] + missing[i..end];
  }

  /** The batch loop of `loadAges` on the cache `cache0`: the missing ids are looked up four at
      a time, in order, and each batch's entries are written once its lookups are back, unless
      the `cancelled` flag is seen first. Returns the new cache and whether the loop was stopped.
      The ghost results record the batches whose results were written and, on a stopped run,
      the batch whose lookups were awaited but whose results were dropped when the flag was
      seen. */
  method LookUpBatches(cache0: map<int, Option<int>>, missing: seq<int>,
                       getPerson: int -> Option<Date>, now: Date, cancelAt: Option<nat>)
    returns (cache: map<int, Option<int>>, cancelled: bool, ghost batches: seq<seq<int>>, ghost dropped: seq<int>)
    ensures cancelled == Cancelled(|missing|, cancelAt)
    ensures Concat(batches) == missing[..Filled(|missing|, cancelAt)]
    ensures InBatches(batches, missing)
    ensures cancelled ==> InBatches(batches + [dropped], missing) && dropped != []
    ensures !cancelled ==> dropped == []
    ensures cache == Fill(cache0, missing[..Filled(|missing|, cancelAt)], getPerson, now)
  {
    cache := cache0;
    batches := [];
    dropped := [];
    var i := 0;
    var batchNo: nat := 0;
    ghost var filled := 0;
    while i < |missing|
      invariant i == BatchSize * batchNo && |batches| == batchNo
      invariant cancelAt.Some? ==> batchNo <= cancelAt.value
      invariant filled == Min(i, |missing|)
      invariant Concat(batches) == missing[..filled]
      invariant InBatches(batches, missing)
      invariant cache == Fill(cache0, missing[..filled], getPerson, now)
    {
      var end := Min(i + BatchSize, |missing|);
      var batch := missing[i..end];
      // the batch's lookups (Promise.all) are the pure getPerson, so only the writes below are
      // ordered with respect to the cancellation check
      if cancelAt == Some(batchNo) {
        InBatchesAppend(batches, missing, i, end);
        dropped := batch;
        cancelled := true;
        return;
      }
      cache := WriteBatch(cache0, cache, missing, i, end, getPerson, now);
      InBatchesAppend(batches, missing, i, end);
      ConcatBatch(batches, missing, i, end);
      batches := batches + [batch];
      filled := end;
      i := i + BatchSize;
      batchNo := batchNo + 1;
    }
    assert missing[..filled] == missing;
    cancelled := false;
  }

  /** The page's age state: the session cache (`peopleAgesCache.current`) and the published
      `peopleAges`. */
  class AgeLoader {
    var cache: map<int, Option<int>>
    var peopleAges: map<int, Option<int>>

    constructor ()
      ensures cache == map[] && peopleAges == map[]
    {
      cache := map[];
      peopleAges := map[];
    }

    /** `loadAges` for one run of the effect. `getPerson` is the lookup (`None` for a failed
        request or a person without a birthday), `now` the clock, and `cancelAt` the batch before
        whose results the `cancelled` flag is first seen set. The ghost results record the
        batches whose results were written and, on a cancelled run, the batch that was looked
        up but not written. */
    method LoadAges(entityType: string, sortBy: string, people: seq<Person>,
                    getPerson: int -> Option<Date>, now: Date, cancelAt: Option<nat>)
      returns (ghost batches: seq<seq<int>>, ghost dropped: seq<int>)
      modifies this
      ensures !(entityType == "people" && sortBy == "age" && |people| > 0) ==>
        cache == old(cache) && peopleAges == old(peopleAges) && batches == [] && dropped == []
      ensures entityType == "people" && sortBy == "age" && |people| > 0 ==>
        var ids := PersonIds(people);
        var missing := MissingIds(ids, old(cache));
        var done := Filled(|missing|, cancelAt);
        && (|missing| == 0 ==> batches == [])
        && Concat(batches) == missing[..done]
        && InBatches(batches, missing)
        && (Cancelled(|missing|, cancelAt) ==> InBatches(batches + [dropped], missing) && dropped != [])
        && (!Cancelled(|missing|, cancelAt) ==> dropped == [])
        && cache == Fill(old(cache), missing[..done], getPerson, now)
        && (Cancelled(|missing|, cancelAt) ==> peopleAges == old(peopleAges))
        && (!Cancelled(|missing|, cancelAt) ==>
              peopleAges.Keys == (set id | id in ids)
              && forall id :: id in peopleAges ==> peopleAges[id] == if id in cache then cache[id] else None)
    {
      batches := [];
      dropped := [];
      if entityType != "people" || sortBy != "age" || |people| == 0 {
        return;
      }
      var ids := PersonIds(people);
      var missing := MissingIds(ids, cache);
      if |missing| == 0 {
        assert missing[..0] == [];
        peopleAges := PublishedAges(ids, cache);
        return;
      }
      var filled, cancelled;
      filled, cancelled, batches, dropped := LookUpBatches(cache, missing, getPerson, now, cancelAt);
      cache := filled;
      if cancelled {
        return;
      }
      peopleAges := PublishedAges(ids, cache);
    }
  }

  /** After a run that was not cancelled, every listed id has a cached value, and the value of an
      id that was missing is its lookup's entry. */
  lemma LoadedAgesComplete(cache: map<int, Option<int>>, ids: seq<int>, getPerson: int -> Option<Date>, now: Date)
    ensures var filled := Fill(cache, MissingIds(ids, cache), getPerson, now);
      && (forall i :: 0 <= i < |ids| ==> ids[i] in filled)
      && (forall i :: 0 <= i < |ids| && ids[i] in cache ==> filled[ids[i]] == cache[ids[i]])
      && (forall i :: 0 <= i < |ids| && ids[i] !in cache ==> filled[ids[i]] == AgeEntry(getPerson(ids[i]), now))
  {
    var missing := MissingIds(ids, cache);
    FillContents(cache, missing, getPerson, now);
    var filled := Fill(cache, missing, getPerson, now);
    forall i | 0 <= i < |ids| && ids[i] in cache
      ensures filled[ids[i]] == cache[ids[i]]
    {
      var id := ids[i];
      assert id !in missing;
    }
    forall i | 0 <= i < |ids| && ids[i] !in cache
      ensures filled[ids[i]] == AgeEntry(getPerson(ids[i]), now)
    {
      var id := ids[i];
      assert id in missing;
    }
  }
}
