/** The gym entity: its stored form, its capacity arithmetic, creation and the in-place partial update. */
module GymEntity {
  import opened Wrappers

  datatype GymType = Commercial | Home | Apartment

  /** `count` members fit within `capacity`; an absent capacity admits any number. */
  predicate WithinCapacity(capacity: Option<nat>, count: nat) {
    capacity.None? || count <= capacity.value
  }

  /** A gym as one row of the gym table, which is also what every query hands out. Instants are
      abstract clock readings. */
  datatype GymData = GymData(
    id: string,
    name: string,
    gymType: GymType,
    location: Option<string>,
    capacity: Option<nat>,
    userId: string,
    createdAt: nat,
    updatedAt: nat)
  {
    /** Whether one more member may join while the gym has `currentMemberCount` members. */
    function HasCapacity(currentMemberCount: nat): (r: bool)
      ensures r <==> WithinCapacity(capacity, currentMemberCount + 1)
      ensures capacity.None? ==> r
    {
      if capacity.None? then true else currentMemberCount < capacity.value
    }

    /** The free places left, `None` standing for unlimited. */
    function GetAvailableSpots(currentMemberCount: nat): (r: Option<nat>)
      ensures r.None? <==> capacity.None?
      ensures r.Some? ==> r.value <= capacity.value
      ensures r.Some? ==> (r.value == 0 <==> currentMemberCount >= capacity.value)
      ensures r.Some? && r.value > 0 ==> r.value + currentMemberCount == capacity.value
      ensures HasCapacity(currentMemberCount) <==> r.None? || r.value > 0
    {
      if capacity.None? then None
      else
        var spots := capacity.value - currentMemberCount;
        Some(if spots > 0 then spots else 0)
    }
  }

  /** `location || null`: an absent or empty location is stored as null. */
  function NormalizedLocation(location: Option<string>): (r: Option<string>)
    ensures r.None? <==> location.None? || location.value == ""
    ensures r.Some? ==> r == location
  {
    if location.Some? && location.value != "" then location else None
  }

  /** `capacity || null`: an absent or zero capacity is stored as null, that is, unlimited, so a
      created gym's capacity is never zero. */
  function NormalizedCapacity(capacity: Option<nat>): (r: Option<nat>)
    ensures r.None? <==> capacity.None? || capacity.value == 0
    ensures r.Some? ==> r == capacity && r.value > 0
  {
    if capacity.Some? && capacity.value != 0 then capacity else None
  }

  /** A nullable field of `update`: keep it, clear it, or set it. */
  function Nullable<T>(arg: Patch<T>, current: Option<T>): Option<T> {
    match arg
    case Keep => current
    case Clear => None
    case Set(v) => Some(v)
  }

  /** The gym after `update(name, type, location, capacity)` at instant `now`. */
  function Updated(g: GymData, name: Option<string>, gymType: Option<GymType>,
                   location: Patch<string>, capacity: Patch<nat>, now: nat): (r: GymData)
    ensures r.id == g.id && r.userId == g.userId && r.createdAt == g.createdAt
    ensures r.updatedAt == now
    ensures name.None? ==> r.name == g.name
    ensures name.Some? ==> r.name == name.value
    ensures gymType.None? ==> r.gymType == g.gymType
    ensures gymType.Some? ==> r.gymType == gymType.value
    ensures location.Keep? ==> r.location == g.location
    ensures location.Clear? ==> r.location.None?
    ensures location.Set? ==> r.location == Some(location.value)
    ensures capacity.Keep? ==> r.capacity == g.capacity
    ensures capacity.Clear? ==> r.capacity.None?
    ensures capacity.Set? ==> r.capacity == Some(capacity.value)
  {
    g.(name := name.GetOr(g.name), gymType := gymType.GetOr(g.gymType),
       location := Nullable(location, g.location), capacity := Nullable(capacity, g.capacity),
       updatedAt := now)
  }

  /** Applying the same update twice is applying it once (at the later instant). */
  lemma UpdateIdempotent(g: GymData, name: Option<string>, gymType: Option<GymType>,
                         location: Patch<string>, capacity: Patch<nat>, t1: nat, t2: nat)
    ensures Updated(Updated(g, name, gymType, location, capacity, t1), name, gymType, location, capacity, t2)
         == Updated(g, name, gymType, location, capacity, t2)
  {
  }

  /** An update that provides nothing only refreshes the update instant. */
  lemma EmptyUpdateKeepsGym(g: GymData, now: nat)
    ensures Updated(g, None, None, Keep, Keep, now) == g.(updatedAt := now)
  {
  }

  /** Clearing the capacity makes the gym unlimited: it then admits at any member count. */
  lemma ClearedCapacityAdmitsAll(g: GymData, name: Option<string>, gymType: Option<GymType>,
                                 location: Patch<string>, now: nat, count: nat)
    ensures Updated(g, name, gymType, location, Clear, now).HasCapacity(count)
    ensures Updated(g, name, gymType, location, Clear, now).GetAvailableSpots(count).None?
  {
  }

  /** The domain object: a gym whose fields `update` changes in place. */
  class Gym {
    var id: string
    var name: string
    var gymType: GymType
    var location: Option<string>
    var capacity: Option<nat>
    var userId: string
    var createdAt: nat
    var updatedAt: nat

    /** The object's current field values. */
    function Data(): GymData
      reads this
    {
      GymData(id, name, gymType, location, capacity, userId, createdAt, updatedAt)
    }

    /** `Gym.create`: an unsaved gym (empty id) owned by `userId`, its location and capacity
        normalised, created and updated at `now`. */
    constructor Create(name: string, gymType: GymType, userId: string,
                       location: Option<string>, capacity: Option<nat>, now: nat)
      ensures Data() == GymData("", name, gymType, NormalizedLocation(location),
                                NormalizedCapacity(capacity), userId, now, now)
    {
      this.id := "";
      this.name := name;
      this.gymType := gymType;
      this.location := NormalizedLocation(location);
      this.capacity := NormalizedCapacity(capacity);
      this.userId := userId;
      this.createdAt := now;
      this.updatedAt := now;
    }

    /** The repository's conversion of a stored row into a domain object. */
    constructor FromData(d: GymData)
      ensures Data() == d
    {
      id, name, gymType, location := d.id, d.name, d.gymType, d.location;
      capacity, userId, createdAt, updatedAt := d.capacity, d.userId, d.createdAt, d.updatedAt;
    }

    /** `update`: every provided field is assigned, the other fields are left alone, and the
        update instant is refreshed. */
    method Update(name: Option<string>, gymType: Option<GymType>,
                  location: Patch<string>, capacity: Patch<nat>, now: nat)
      modifies this
      ensures Data() == Updated(old(Data()), name, gymType, location, capacity, now)
    {
      if name.Some? {
        this.name := name.value;
      }
      if gymType.Some? {
        this.gymType := gymType.value;
      }
      if !location.Keep? {
        this.location := if location.Set? then Some(location.value) else None;
      }
      if !capacity.Keep? {
        this.capacity := if capacity.Set? then Some(capacity.value) else None;
      }
      this.updatedAt := now;
    }
  }
}
