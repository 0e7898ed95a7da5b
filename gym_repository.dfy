/** The gym table's queries and writes: the listing of gyms with room, ranked by free places, the
    owner lookup, and the rows that `save` stores. The table maps each gym's id to its row. */
module GymRepository {
  import opened Wrappers
  import opened Sequences
  import opened GymEntity
  import opened MembershipEntity
  import opened MembershipRepository

  /** Every row is stored under its own id. */
  predicate KeyedById(gyms: map<string, GymData>) {
    forall id :: id in gyms ==> gyms[id].id == id
  }

  /** `order` enumerates the keys of `gyms`, each exactly once: the (unspecified) order in which the
      database hands out all gyms. */
  predicate Lists(order: seq<string>, gyms: map<string, GymData>) {
    (forall id :: id in order ==> id in gyms) && (forall id :: id in gyms ==> id in order) && Distinct(order)
  }

  /** `findByUserId`: the gyms owned by `userId`. The database promises no order, so the result is a set. */
  function FindByUserId(gyms: map<string, GymData>, userId: string): (r: set<GymData>)
    ensures forall g :: g in r <==> g in gyms.Values && g.userId == userId
  {
    set id | id in gyms && gyms[id].userId == userId :: gyms[id]
  }

  /** One line of the availability listing. */
  datatype AvailabilityEntry = AvailabilityEntry(gym: GymData, availableSpots: Option<nat>, currentCount: nat)

  /** What the listing computes for `gym` from the membership table: the gym, its member count,
      and its free places, which leave it room exactly when the gym admits one more member. */
  function EntryFor(gym: GymData, memberships: seq<Membership>): (r: AvailabilityEntry)
    ensures r.gym == gym && r.currentCount == CountByGymId(memberships, gym.id)
    ensures r.availableSpots.None? <==> gym.capacity.None?
    ensures HasRoom(r) <==> gym.HasCapacity(r.currentCount)
  {
    var count := CountByGymId(memberships, gym.id);
    AvailabilityEntry(gym, gym.GetAvailableSpots(count), count)
  }

  /** The listing keeps a gym that is unlimited or has at least one free place: every entry but
      one with no free place left, which is also the one whose sort key is zero. */
  predicate HasRoom(e: AvailabilityEntry)
    ensures HasRoom(e) <==> e.availableSpots != Some(0)
    ensures HasRoom(e) <==> RankKey(e) != 0
  {
    e.availableSpots.None? || e.availableSpots.value > 0
  }

  /** The sort key: free places, with unlimited gyms below every finite one. */
  function RankKey(e: AvailabilityEntry): (r: int)
    ensures r < 0 <==> e.availableSpots.None?
    ensures e.availableSpots.Some? ==> r == e.availableSpots.value
    ensures r >= -1
  {
    if e.availableSpots.None? then -1 else e.availableSpots.value
  }

  /** A ranked sequence of entries with room puts finite entries first, by non-increasing free places. */
  lemma RankedOrder(s: seq<AvailabilityEntry>)
    requires SortedDesc(s, RankKey)
    requires forall i :: 0 <= i < |s| ==> HasRoom(s[i])
    ensures forall i, j :: 0 <= i < j < |s| && s[j].availableSpots.Some? ==>
              s[i].availableSpots.Some? && s[i].availableSpots.value >= s[j].availableSpots.value
  {
    forall i, j | 0 <= i < j < |s| && s[j].availableSpots.Some?
      ensures s[i].availableSpots.Some? && s[i].availableSpots.value >= s[j].availableSpots.value
    {
      assert RankKey(s[i]) >= RankKey(s[j]) > 0;
    }
  }

  /** The filter and sort of `findWithAvailableSpots`: the entries with room, most free places first,
      unlimited gyms last. */
  function Rank(entries: seq<AvailabilityEntry>): (r: seq<AvailabilityEntry>)
    ensures forall e :: e in r ==> HasRoom(e)
    ensures forall e :: multiset(r)[e] == if HasRoom(e) then multiset(entries)[e] else 0
    ensures forall i, j :: 0 <= i < j < |r| && r[j].availableSpots.Some? ==>
              r[i].availableSpots.Some? && r[i].availableSpots.value >= r[j].availableSpots.value
  {
    FilterMultiset(entries, HasRoom);
    var kept := Filter(entries, HasRoom);
    var sorted := SortDesc(kept, RankKey);
    assert forall e :: e in sorted ==> HasRoom(e) by {
      forall e | e in sorted ensures HasRoom(e) {
        assert e in multiset(sorted);
        assert e in kept;
      }
    }
    RankedOrder(sorted);
    sorted
  }

  /** The entries computed for the gyms in the order they are enumerated. */
  function Entries(order: seq<string>, gyms: map<string, GymData>, memberships: seq<Membership>): (r: seq<AvailabilityEntry>)
    requires forall id :: id in order ==> id in gyms
    ensures |r| == |order|
    ensures forall i :: 0 <= i < |order| ==> r[i] == EntryFor(gyms[order[i]], memberships)
  {
    seq(|order|, i requires 0 <= i < |order| => EntryFor(gyms[order[i]], memberships))
  }

  /** `findWithAvailableSpots`: every gym with room appears exactly once, with its true member count
      and free places, no full gym appears, and the listing is ranked. */
  function FindWithAvailableSpots(gyms: map<string, GymData>, memberships: seq<Membership>, order: seq<string>)
    : (r: seq<AvailabilityEntry>)
    requires KeyedById(gyms)
    requires Lists(order, gyms)
    ensures forall e :: e in r ==>
              && e.gym.id in gyms && gyms[e.gym.id] == e.gym
              && e.currentCount == CountByGymId(memberships, e.gym.id)
              && e.availableSpots == e.gym.GetAvailableSpots(e.currentCount)
              && e.gym.HasCapacity(e.currentCount)
    ensures forall id :: id in gyms ==>
              (EntryFor(gyms[id], memberships) in r <==> gyms[id].HasCapacity(CountByGymId(memberships, id)))
    ensures forall e :: multiset(r)[e] <= 1
    ensures forall i, j :: 0 <= i < j < |r| && r[j].availableSpots.Some? ==>
              r[i].availableSpots.Some? && r[i].availableSpots.value >= r[j].availableSpots.value
  {
    var entries := Entries(order, gyms, memberships);
    EntriesFacts(order, gyms, memberships);
    RankedEntriesHonest(order, gyms, memberships);
    RankedEntriesComplete(order, gyms, memberships);
    Rank(entries)
  }

  /** Every ranked entry is the true entry of a stored gym with room. */
  lemma RankedEntriesHonest(order: seq<string>, gyms: map<string, GymData>, memberships: seq<Membership>)
    requires KeyedById(gyms)
    requires Lists(order, gyms)
    ensures forall e :: e in Rank(Entries(order, gyms, memberships)) ==>
              && e.gym.id in gyms && e == EntryFor(gyms[e.gym.id], memberships)
              && e.gym.HasCapacity(e.currentCount)
  {
    var entries := Entries(order, gyms, memberships);
    EntriesFacts(order, gyms, memberships);
    var r := Rank(entries);
    forall e | e in r
      ensures e.gym.id in gyms && e == EntryFor(gyms[e.gym.id], memberships)
      ensures e.gym.HasCapacity(e.currentCount)
    {
      assert multiset(r)[e] > 0;
      assert e in entries;
      assert HasRoom(e);
    }
  }

  /** A stored gym's entry is ranked exactly when the gym has room. */
  lemma RankedEntriesComplete(order: seq<string>, gyms: map<string, GymData>, memberships: seq<Membership>)
    requires KeyedById(gyms)
    requires Lists(order, gyms)
    ensures forall id :: id in gyms ==>
              (EntryFor(gyms[id], memberships) in Rank(Entries(order, gyms, memberships))
               <==> gyms[id].HasCapacity(CountByGymId(memberships, id)))
  {
    var entries := Entries(order, gyms, memberships);
    EntriesFacts(order, gyms, memberships);
    var r := Rank(entries);
    forall id | id in gyms
      ensures EntryFor(gyms[id], memberships) in r <==> gyms[id].HasCapacity(CountByGymId(memberships, id))
    {
      var e := EntryFor(gyms[id], memberships);
      assert HasRoom(e) <==> gyms[id].HasCapacity(CountByGymId(memberships, id));
      assert multiset(entries)[e] > 0;
      assert e in r <==> multiset(r)[e] > 0;
    }
  }

  /** What holds of the unranked entries: each is the true entry of its gym, every gym has one,
      and none occurs twice. */
  lemma EntriesFacts(order: seq<string>, gyms: map<string, GymData>, memberships: seq<Membership>)
    requires KeyedById(gyms)
    requires Lists(order, gyms)
    ensures forall e :: e in Entries(order, gyms, memberships) ==>
              && e.gym.id in gyms && e == EntryFor(gyms[e.gym.id], memberships)
    ensures forall id :: id in gyms ==> EntryFor(gyms[id], memberships) in Entries(order, gyms, memberships)
    ensures forall e :: multiset(Entries(order, gyms, memberships))[e] <= 1
  {
    var entries := Entries(order, gyms, memberships);
    forall i, j | 0 <= i < j < |entries| ensures entries[i] != entries[j] {
      assert entries[i].gym.id == order[i] && entries[j].gym.id == order[j];
    }
    DistinctMultiset(entries);
    forall id | id in gyms ensures EntryFor(gyms[id], memberships) in entries {
      var i :| 0 <= i < |order| && order[i] == id;
      assert entries[i] == EntryFor(gyms[id], memberships);
    }
  }

  /** The row `save` creates for an unsaved gym: the id the database assigns, the gym's fields and
      owner, and the database's creation instant. */
  function InsertedRow(gym: GymData, newId: string, now: nat): (r: GymData)
    ensures r.id == newId && r.userId == gym.userId
    ensures r.name == gym.name && r.gymType == gym.gymType
    ensures r.location == gym.location && r.capacity == gym.capacity
    ensures r.createdAt == now && r.updatedAt == now
  {
    gym.(id := newId, createdAt := now, updatedAt := now)
  }

  /** The row `save` writes over `stored` for a saved gym, as the repository is written: the owner
      is taken out of the written data, so the stored owner stays. */
  function UpdatedRowAsWritten(stored: GymData, gym: GymData, now: nat): (r: GymData)
    ensures r.id == stored.id && r.userId == stored.userId && r.createdAt == stored.createdAt
    ensures r.name == gym.name && r.gymType == gym.gymType
    ensures r.location == gym.location && r.capacity == gym.capacity
    ensures r.updatedAt == now
  {
    stored.(name := gym.name, gymType := gym.gymType, location := gym.location,
            capacity := gym.capacity, updatedAt := now)
  }

  /** The row `save` writes over `stored` for a saved gym, the owner included. */
  function UpdatedRow(stored: GymData, gym: GymData, now: nat): (r: GymData)
    ensures r.id == stored.id && r.createdAt == stored.createdAt
    ensures r.userId == gym.userId
    ensures r.name == gym.name && r.gymType == gym.gymType
    ensures r.location == gym.location && r.capacity == gym.capacity
    ensures r.updatedAt == now
  {
    UpdatedRowAsWritten(stored, gym, now).(userId := gym.userId)
  }

  /** Saving a loaded gym stores exactly the object's fields, apart from the instant the database
      stamps. */
  lemma UpdatedRowStoresObject(stored: GymData, gym: GymData, now: nat)
    requires gym.id == stored.id && gym.createdAt == stored.createdAt
    ensures UpdatedRow(stored, gym, now) == gym.(updatedAt := now)
  {
  }

  /** As written, an object whose owner was changed is not stored: the row keeps the old owner. */
  lemma OwnerChangeDiscardedAsWritten()
    ensures var stored := GymData("g1", "Iron Temple", Commercial, None, Some(10), "u1", 0, 0);
            var gym := stored.(userId := "u2");
            UpdatedRowAsWritten(stored, gym, 1) != gym.(updatedAt := 1)
            && UpdatedRowAsWritten(stored, gym, 1).userId == "u1"
  {
  }
}
