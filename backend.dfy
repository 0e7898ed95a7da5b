/** The application's use cases over the three tables of the database. Each state-changing use
    case is a method of `Backend` that either fails with a domain error and changes nothing, or
    performs its write; each query is a function of the tables. */
module UseCases {
  import opened Wrappers
  import opened Sequences
  import opened DomainErrors
  import opened MembershipEntity
  import GymEntity
  import UserEntity
  import MR = MembershipRepository
  import GR = GymRepository

  /** Every user is stored under its own non-empty id. */
  predicate UsersKeyed(users: map<string, UserEntity.UserData>) {
    forall id :: id in users ==> id != "" && users[id].id == id
  }

  /** No two users share an email. */
  predicate EmailsUnique(users: map<string, UserEntity.UserData>) {
    forall a, b :: a in users && b in users && users[a].email == users[b].email ==> a == b
  }

  /** Every gym is stored under its own non-empty id. */
  predicate GymsKeyed(gyms: map<string, GymEntity.GymData>) {
    GR.KeyedById(gyms) && forall id :: id in gyms ==> id != ""
  }

  /** Every gym is owned by a stored user (the gym's required `user` relation). */
  predicate OwnersExist(users: map<string, UserEntity.UserData>, gyms: map<string, GymEntity.GymData>) {
    forall id :: id in gyms ==> gyms[id].userId in users
  }

  /** The ids of the gyms `userId` owns. */
  function OwnedBy(gyms: map<string, GymEntity.GymData>, userId: string): (r: set<string>)
    ensures forall id :: id in r <==> id in gyms && gyms[id].userId == userId
  {
    set id | id in gyms && gyms[id].userId == userId
  }

  /** Every membership refers to a stored user and a stored gym. */
  predicate RefsExist(memberships: seq<Membership>, users: map<string, UserEntity.UserData>,
                      gyms: map<string, GymEntity.GymData>) {
    forall m :: m in memberships ==> m.userId in users && m.gymId in gyms
  }

  ghost predicate Consistent(users: map<string, UserEntity.UserData>, gyms: map<string, GymEntity.GymData>,
                             memberships: seq<Membership>) {
    && UsersKeyed(users)
    && EmailsUnique(users)
    && GymsKeyed(gyms)
    && OwnersExist(users, gyms)
    && MR.WellFormed(memberships)
    && RefsExist(memberships, users, gyms)
  }

  predicate WithinCapacities(gyms: map<string, GymEntity.GymData>, memberships: seq<Membership>) {
    forall id :: id in gyms ==> GymEntity.WithinCapacity(gyms[id].capacity, MR.CountByGymId(memberships, id))
  }

  /** Admitting a member keeps the database consistent. */
  lemma AdmitKeepsConsistent(users: map<string, UserEntity.UserData>, gyms: map<string, GymEntity.GymData>,
                             memberships: seq<Membership>, row: Membership)
    requires Consistent(users, gyms, memberships)
    requires row.id != "" && MR.IdFree(memberships, row.id)
    requires MR.FindByUserAndGym(memberships, row.userId, row.gymId).None?
    requires row.userId in users && row.gymId in gyms
    ensures Consistent(users, gyms, memberships + [row])
  {
    MR.InsertKeepsWellFormed(memberships, row);
  }

  /** Admitting a member to a gym with a free place keeps every gym within its capacity. */
  lemma AdmitKeepsWithinCapacities(gyms: map<string, GymEntity.GymData>, memberships: seq<Membership>, row: Membership)
    requires WithinCapacities(gyms, memberships)
    requires row.gymId in gyms && gyms[row.gymId].HasCapacity(MR.CountByGymId(memberships, row.gymId))
    ensures WithinCapacities(gyms, memberships + [row])
  {
    forall id | id in gyms
      ensures GymEntity.WithinCapacity(gyms[id].capacity, MR.CountByGymId(memberships + [row], id))
    {
      MR.CountAppend(memberships, row, id);
    }
  }

  /** Dropping memberships keeps the database consistent, also without the users and gyms that no
      remaining membership refers to. */
  lemma DropKeepsConsistent(users: map<string, UserEntity.UserData>, gyms: map<string, GymEntity.GymData>,
                            memberships: seq<Membership>, users': map<string, UserEntity.UserData>,
                            gyms': map<string, GymEntity.GymData>, rest: seq<Membership>)
    requires Consistent(users, gyms, memberships)
    requires users'.Keys <= users.Keys && forall id :: id in users' ==> users'[id] == users[id]
    requires gyms'.Keys <= gyms.Keys && forall id :: id in gyms' ==> gyms'[id] == gyms[id]
    requires forall m :: multiset(rest)[m] <= multiset(memberships)[m]
    requires RefsExist(rest, users', gyms') && OwnersExist(users', gyms')
    ensures Consistent(users', gyms', rest)
  {
    MR.SubTableWellFormed(memberships, rest);
  }

  /** Filtering memberships away keeps every gym within its capacity, also without some gyms. */
  lemma FilterKeepsWithinCapacities(gyms: map<string, GymEntity.GymData>, memberships: seq<Membership>,
                                    gyms': map<string, GymEntity.GymData>, p: Membership -> bool)
    requires WithinCapacities(gyms, memberships)
    requires gyms'.Keys <= gyms.Keys && forall id :: id in gyms' ==> gyms'[id] == gyms[id]
    ensures WithinCapacities(gyms', Filter(memberships, p))
  {
    forall id | id in gyms'
      ensures GymEntity.WithinCapacity(gyms'[id].capacity, MR.CountByGymId(Filter(memberships, p), id))
    {
      MR.CountFilterLe(memberships, p, id);
    }
  }

  /** Deleting the row of a (user, gym) pair by its id removes exactly that pair's row, and keeps the
      database consistent and every gym within its capacity. */
  lemma RemoveKeepsConsistent(users: map<string, UserEntity.UserData>, gyms: map<string, GymEntity.GymData>,
                              memberships: seq<Membership>, userId: string, gymId: string)
    requires Consistent(users, gyms, memberships)
    requires MR.FindByUserAndGym(memberships, userId, gymId).Some?
    ensures var rest := MR.Delete(memberships, MR.FindByUserAndGym(memberships, userId, gymId).value.id);
            && Consistent(users, gyms, rest)
            && MR.FindByUserAndGym(rest, userId, gymId).None?
            && (forall m :: m in rest <==> m in memberships && !(m.userId == userId && m.gymId == gymId))
            && (WithinCapacities(gyms, memberships) ==> WithinCapacities(gyms, rest))
  {
    var found := MR.FindByUserAndGym(memberships, userId, gymId).value;
    var rest := MR.Delete(memberships, found.id);
    MR.FoundIsOnlyRowOfPair(memberships, userId, gymId);
    DropKeepsConsistent(users, gyms, memberships, users, gyms, rest);
    if WithinCapacities(gyms, memberships) {
      FilterKeepsWithinCapacities(gyms, memberships, gyms, MR.NotId(found.id));
    }
  }

  /** Deleting a gym together with its memberships keeps the database consistent. */
  lemma DeleteGymKeepsConsistent(users: map<string, UserEntity.UserData>, gyms: map<string, GymEntity.GymData>,
                                 memberships: seq<Membership>, id: string)
    requires Consistent(users, gyms, memberships)
    ensures Consistent(users, gyms - {id}, MR.DeleteByGymId(memberships, id))
  {
    var rest, gyms' := MR.DeleteByGymId(memberships, id), gyms - {id};
    assert RefsExist(rest, users, gyms') by {
      forall m | m in rest ensures m.userId in users && m.gymId in gyms' {
        assert m in memberships;
      }
    }
    assert OwnersExist(users, gyms');
    DropKeepsConsistent(users, gyms, memberships, users, gyms', rest);
  }

  /** Deleting a gym together with its memberships keeps every remaining gym within its capacity. */
  lemma DeleteGymKeepsWithinCapacities(gyms: map<string, GymEntity.GymData>, memberships: seq<Membership>, id: string)
    requires WithinCapacities(gyms, memberships)
    ensures WithinCapacities(gyms - {id}, MR.DeleteByGymId(memberships, id))
  {
    FilterKeepsWithinCapacities(gyms, memberships, gyms - {id}, MR.NotOfGym(id));
  }

  /** The memberships left after deleting a user and the gyms they own are rows of the old table,
      and each refers to a remaining user and a remaining gym. */
  lemma DeleteUserRowsRemain(users: map<string, UserEntity.UserData>, gyms: map<string, GymEntity.GymData>,
                             memberships: seq<Membership>, id: string)
    requires RefsExist(memberships, users, gyms)
    ensures var owned := OwnedBy(gyms, id);
            var rest := MR.DeleteByGymIds(MR.DeleteByUserId(memberships, id), owned);
            && (forall m :: multiset(rest)[m] <= multiset(memberships)[m])
            && RefsExist(rest, users - {id}, gyms - owned)
  {
    var owned := OwnedBy(gyms, id);
    var mid := MR.DeleteByUserId(memberships, id);
    var rest := MR.DeleteByGymIds(mid, owned);
    forall m | m in rest ensures m.userId in users - {id} && m.gymId in gyms - owned {
      assert m in mid && m in memberships;
    }
  }

  /** The gyms left after deleting a user and the gyms they own are owned by remaining users. */
  lemma DeleteUserOwnersRemain(users: map<string, UserEntity.UserData>, gyms: map<string, GymEntity.GymData>, id: string)
    requires OwnersExist(users, gyms)
    ensures OwnersExist(users - {id}, gyms - OwnedBy(gyms, id))
  {
  }

  /** Deleting a user together with the gyms they own and the memberships of both keeps the
      database consistent. */
  lemma DeleteUserKeepsConsistent(users: map<string, UserEntity.UserData>, gyms: map<string, GymEntity.GymData>,
                                  memberships: seq<Membership>, id: string)
    requires Consistent(users, gyms, memberships)
    ensures var owned := OwnedBy(gyms, id);
            Consistent(users - {id}, gyms - owned, MR.DeleteByGymIds(MR.DeleteByUserId(memberships, id), owned))
  {
    var owned := OwnedBy(gyms, id);
    DeleteUserRowsRemain(users, gyms, memberships, id);
    DeleteUserOwnersRemain(users, gyms, id);
    DropKeepsConsistent(users, gyms, memberships, users - {id}, gyms - owned,
                        MR.DeleteByGymIds(MR.DeleteByUserId(memberships, id), owned));
  }

  /** Deleting a user together with the gyms they own and the memberships of both keeps every
      remaining gym within its capacity. */
  lemma DeleteUserKeepsWithinCapacities(gyms: map<string, GymEntity.GymData>, memberships: seq<Membership>, id: string)
    requires WithinCapacities(gyms, memberships)
    ensures var owned := OwnedBy(gyms, id);
            WithinCapacities(gyms - owned, MR.DeleteByGymIds(MR.DeleteByUserId(memberships, id), owned))
  {
    var owned := OwnedBy(gyms, id);
    FilterKeepsWithinCapacities(gyms, memberships, gyms, MR.NotOfUser(id));
    FilterKeepsWithinCapacities(gyms, MR.DeleteByUserId(memberships, id), gyms - owned, MR.NotOfGyms(owned));
  }

  /** Replacing a gym's row by one with the same id keeps the database consistent. */
  lemma ReplaceGymKeepsConsistent(users: map<string, UserEntity.UserData>, gyms: map<string, GymEntity.GymData>,
                                  memberships: seq<Membership>, id: string, row: GymEntity.GymData)
    requires Consistent(users, gyms, memberships)
    requires id in gyms && row.id == id && row.userId in users
    ensures Consistent(users, gyms[id := row], memberships)
  {
  }

  /** Replacing a gym's row by one with the same capacity keeps every gym within its capacity. */
  lemma ReplaceGymKeepsWithinCapacities(gyms: map<string, GymEntity.GymData>, memberships: seq<Membership>,
                                        id: string, row: GymEntity.GymData)
    requires WithinCapacities(gyms, memberships)
    requires id in gyms && row.capacity == gyms[id].capacity
    ensures WithinCapacities(gyms[id := row], memberships)
  {
  }

  class Backend {
    var users: map<string, UserEntity.UserData>
    var gyms: map<string, GymEntity.GymData>
    var memberships: seq<Membership>

    /** The database's integrity: rows are keyed by their non-empty ids, emails are unique, every
        gym's owner exists, the membership table's keys hold, and every membership refers to an
        existing user and gym. */
    ghost predicate Valid()
      reads this
    {
      Consistent(users, gyms, memberships)
    }

    /** No gym has more members than its capacity. */
    predicate AllWithinCapacity()
      reads this
    {
      WithinCapacities(gyms, memberships)
    }

    /** Some user has this email (`findByEmail` finds a row); under the unique email key that
        user is the only one. */
    predicate EmailTaken(email: string)
      reads this
      ensures EmailTaken(email) <==> exists u :: u in users.Values && u.email == email
      ensures EmailTaken(email) && EmailsUnique(users) ==>
                exists id :: id in users && users[id].email == email &&
                  forall other :: other in users && users[other].email == email ==> other == id
    {
      exists id :: id in users && users[id].email == email
    }

    /** Every check of `AddUserToGym` passes: both ends exist, the pair is unused and the gym has
        a free place. */
    predicate Admits(userId: string, gymId: string)
      reads this
    {
      && userId in users && gymId in gyms
      && MR.FindByUserAndGym(memberships, userId, gymId).None?
      && gyms[gymId].HasCapacity(MR.CountByGymId(memberships, gymId))
    }

    /** An empty database. */
    constructor ()
      ensures Valid() && AllWithinCapacity()
      ensures users == map[] && gyms == map[] && memberships == []
    {
      users, gyms, memberships := map[], map[], [];
    }

    /** `GetGymUseCase`: the gym stored under `id`, or an error naming the missing gym. */
    function GetGym(id: string): (r: Result<GymEntity.GymData, DomainError>)
      reads this
      ensures r.Success? <==> id in gyms
      ensures r.Success? ==> r.value == gyms[id]
      ensures r.Failure? ==> r.error == EntityNotFound("Gym", id)
    {
      if id in gyms then Success(gyms[id]) else Failure(EntityNotFound("Gym", id))
    }

    /** `GetUserUseCase`: the user stored under `id`, or an error naming the missing user. */
    function GetUser(id: string): (r: Result<UserEntity.UserData, DomainError>)
      reads this
      ensures r.Success? <==> id in users
      ensures r.Success? ==> r.value == users[id]
      ensures r.Failure? ==> r.error == EntityNotFound("User", id)
    {
      if id in users then Success(users[id]) else Failure(EntityNotFound("User", id))
    }

    /** `GetGymsByUserIdUseCase`: an empty user id is refused; otherwise the gyms owned by that user. */
    function GetGymsByUserId(userId: string): (r: Result<set<GymEntity.GymData>, DomainError>)
      reads this
      ensures r.Failure? <==> userId == ""
      ensures r.Failure? ==> r.error == RequiredField("User ID", "get gyms by user")
      ensures r.Success? ==> forall g :: g in r.value <==> g in gyms.Values && g.userId == userId
    {
      if userId == "" then Failure(RequiredField("User ID", "get gyms by user"))
      else Success(GR.FindByUserId(gyms, userId))
    }

    /** `ListGymUsersUseCase`: the members of an existing gym, latest joiner first. */
    function ListGymUsers(gymId: string): (r: Result<seq<UserEntity.UserData>, DomainError>)
      reads this
      requires Valid()
      ensures r.Failure? <==> gymId !in gyms
      ensures r.Failure? ==> r.error == EntityNotFound("Gym", gymId)
      ensures r.Success? ==> |r.value| == MR.CountByGymId(memberships, gymId)
      ensures r.Success? ==> Distinct(r.value)
      ensures r.Success? ==> forall u :: u in r.value <==>
                u in users.Values && MR.FindByUserAndGym(memberships, u.id, gymId).Some?
      ensures r.Success? ==> forall i, j :: 0 <= i < j < |r.value| ==>
                && MR.FindByUserAndGym(memberships, r.value[i].id, gymId).Some?
                && MR.FindByUserAndGym(memberships, r.value[j].id, gymId).Some?
                && MR.FindByUserAndGym(memberships, r.value[i].id, gymId).value.joinDate
                   >= MR.FindByUserAndGym(memberships, r.value[j].id, gymId).value.joinDate
    {
      if gymId !in gyms then Failure(EntityNotFound("Gym", gymId))
      else
        var rows := MR.FindByGymId(memberships, gymId);
        assert UsersKeyed(users) && MR.WellFormed(memberships) && RefsExist(memberships, users, gyms);
        assert forall m :: m in rows ==> m.userId in users;
        var members := UsersOf(users, rows);
        MR.FindByGymIdLength(memberships, gymId);
        GymMembersFacts(users, memberships, gymId, rows, members);
        Success(members)
    }

    /** `ListUserGymsUseCase`: the gyms an existing user belongs to, latest joined first. */
    function ListUserGyms(userId: string): (r: Result<seq<GymEntity.GymData>, DomainError>)
      reads this
      requires Valid()
      ensures r.Failure? <==> userId !in users
      ensures r.Failure? ==> r.error == EntityNotFound("User", userId)
      ensures r.Success? ==> |r.value| == |MR.FindByUserId(memberships, userId)|
      ensures r.Success? ==> Distinct(r.value)
      ensures r.Success? ==> forall g :: g in r.value <==>
                g in gyms.Values && MR.FindByUserAndGym(memberships, userId, g.id).Some?
      ensures r.Success? ==> forall i, j :: 0 <= i < j < |r.value| ==>
                && MR.FindByUserAndGym(memberships, userId, r.value[i].id).Some?
                && MR.FindByUserAndGym(memberships, userId, r.value[j].id).Some?
                && MR.FindByUserAndGym(memberships, userId, r.value[i].id).value.joinDate
                   >= MR.FindByUserAndGym(memberships, userId, r.value[j].id).value.joinDate
    {
      if userId !in users then Failure(EntityNotFound("User", userId))
      else
        var rows := MR.FindByUserId(memberships, userId);
        assert GR.KeyedById(gyms) && MR.WellFormed(memberships) && RefsExist(memberships, users, gyms);
        assert forall m :: m in rows ==> m.gymId in gyms;
        var joined := GymsOf(gyms, rows);
        UserGymsFacts(gyms, memberships, userId, rows, joined);
        Success(joined)
    }


    /** `AddUserToGymUseCase`: checks, in this order and stopping at the first that fails, that the
        user exists, that the gym exists, that the user is not already a member and that the gym
        has a free place; only then stores a new membership joined at `now`. `newId` is the id the
        database assigns to the new row. */
    method AddUserToGym(userId: string, gymId: string, newId: string, now: nat)
      returns (r: Result<Membership, DomainError>)
      requires Valid()
      requires newId != "" && MR.IdFree(memberships, newId)
      modifies this
      ensures Valid()
      ensures users == old(users) && gyms == old(gyms)
      ensures userId !in users ==> r == Failure(EntityNotFound("User", userId))
      ensures userId in users && gymId !in gyms ==> r == Failure(EntityNotFound("Gym", gymId))
      ensures userId in users && gymId in gyms && MR.FindByUserAndGym(old(memberships), userId, gymId).Some? ==>
                r == Failure(MembershipAlreadyExists(userId, gymId))
      ensures userId in users && gymId in gyms && MR.FindByUserAndGym(old(memberships), userId, gymId).None?
              && !gyms[gymId].HasCapacity(MR.CountByGymId(old(memberships), gymId)) ==>
                gyms[gymId].capacity.Some?
                && r == Failure(GymCapacityExceeded(gyms[gymId].name, gyms[gymId].capacity.value))
      ensures r.Failure? ==> memberships == old(memberships)
      ensures r.Success? <==> old(Admits(userId, gymId))
      ensures r.Success? ==> r.value == Membership(newId, userId, gymId, now, now, now)
      ensures r.Success? ==> memberships == old(memberships) + [r.value]
      ensures r.Success? ==> MR.FindByUserAndGym(memberships, userId, gymId) == Some(r.value)
      ensures r.Success? ==>
                && MR.CountByGymId(memberships, gymId) == MR.CountByGymId(old(memberships), gymId) + 1
                && GymEntity.WithinCapacity(gyms[gymId].capacity, MR.CountByGymId(memberships, gymId))
      ensures old(AllWithinCapacity()) ==> AllWithinCapacity()
    {
      if userId !in users {
        return Failure(EntityNotFound("User", userId));
      }
      if gymId !in gyms {
        return Failure(EntityNotFound("Gym", gymId));
      }
      var existing := MR.FindByUserAndGym(memberships, userId, gymId);
      if existing.Some? {
        return Failure(MembershipAlreadyExists(userId, gymId));
      }
      var currentMemberCount := MR.CountByGymId(memberships, gymId);
      var gym := gyms[gymId];
      if !gym.HasCapacity(currentMemberCount) {
        return Failure(GymCapacityExceeded(gym.name, gym.capacity.value));
      }
      var membership := MembershipEntity.Create(userId, gymId, now);
      var saved := InsertMembership(membership, newId, now);
      return Success(saved);
    }

    /** The membership repository's `save` of an unsaved membership: appends the row under the id
        the database assigns. The pair must be unused and both ends must exist, as the table's
        unique key and references demand. */
    method InsertMembership(m: Membership, newId: string, now: nat) returns (saved: Membership)
      requires Valid()
      requires m.id == "" && newId != "" && MR.IdFree(memberships, newId)
      requires m.userId in users && m.gymId in gyms
      requires MR.FindByUserAndGym(memberships, m.userId, m.gymId).None?
      modifies this
      ensures Valid()
      ensures users == old(users) && gyms == old(gyms)
      ensures saved == m.(id := newId, createdAt := now, updatedAt := now)
      ensures memberships == old(memberships) + [saved]
      ensures MR.FindByUserAndGym(memberships, m.userId, m.gymId) == Some(saved)
      ensures forall id :: MR.CountByGymId(memberships, id) ==
                MR.CountByGymId(old(memberships), id) + (if id == m.gymId then 1 else 0)
    {
      var (table, row) := MR.Save(memberships, m, newId, now);
      AdmitKeepsConsistent(users, gyms, memberships, row);
      MR.FindAfterInsert(memberships, row);
      forall id ensures MR.CountByGymId(table, id) == MR.CountByGymId(memberships, id) + (if id == m.gymId then 1 else 0) {
        MR.CountAppend(memberships, row, id);
      }
      memberships := table;
      saved := row;
    }

    /** `RemoveUserFromGymUseCase`: deletes the membership of `userId` in `gymId`, or fails naming
        the pair when there is none. */
    method RemoveUserFromGym(userId: string, gymId: string) returns (r: Result<(), DomainError>)
      requires Valid()
      modifies this
      ensures Valid()
      ensures users == old(users) && gyms == old(gyms)
      ensures r.Failure? <==> MR.FindByUserAndGym(old(memberships), userId, gymId).None?
      ensures r.Failure? ==> r.error == EntityNotFound("Membership", userId + "-" + gymId)
                             && memberships == old(memberships)
      ensures r.Success? ==>
                memberships == MR.Delete(old(memberships), MR.FindByUserAndGym(old(memberships), userId, gymId).value.id)
      ensures old(AllWithinCapacity()) ==> AllWithinCapacity()
    {
      var membership := MR.FindByUserAndGym(memberships, userId, gymId);
      if membership.None? {
        r := Failure(EntityNotFound("Membership", userId + "-" + gymId));
      } else {
        RemoveKeepsConsistent(users, gyms, memberships, userId, gymId);
        memberships := MR.Delete(memberships, membership.value.id);
        r := Success(());
      }
    }

    /** `CreateUserUseCase`: refuses an email that is already registered; otherwise stores a new
        user. The date of birth arrives as text and `toInstant` is its conversion to an instant. */
    method CreateUser(name: string, email: string, dateOfBirth: string, toInstant: string -> nat,
                      fitnessGoal: UserEntity.FitnessGoal, newId: string, now: nat)
      returns (r: Result<UserEntity.UserData, DomainError>)
      requires Valid()
      requires newId != "" && newId !in users
      modifies this
      ensures Valid()
      ensures gyms == old(gyms) && memberships == old(memberships)
      ensures r.Failure? <==> old(EmailTaken(email))
      ensures r.Failure? ==> r.error == DuplicateEntity("User", "email", email) && users == old(users)
      ensures r.Success? ==>
                && r.value == UserEntity.UserData(newId, name, email, toInstant(dateOfBirth), fitnessGoal, now, now)
                && users == old(users)[newId := r.value]
      ensures r.Success? ==> EmailTaken(email)
      ensures old(AllWithinCapacity()) ==> AllWithinCapacity()
    {
      if EmailTaken(email) {
        return Failure(DuplicateEntity("User", "email", email));
      }
      var user := new UserEntity.User.Create(name, email, toInstant(dateOfBirth), fitnessGoal, now);
      var saved := user.Data().(id := newId, createdAt := now, updatedAt := now);
      users := users[newId := saved];
      assert users[newId].email == email;
      return Success(saved);
    }

    /** `CreateGymUseCase`: refuses an owner that does not exist; otherwise stores a new gym, its
        empty location and zero capacity stored as absent. */
    method CreateGym(name: string, gymType: GymEntity.GymType, userId: string,
                     location: Option<string>, capacity: Option<nat>, newId: string, now: nat)
      returns (r: Result<GymEntity.GymData, DomainError>)
      requires Valid()
      requires newId != "" && newId !in gyms
      modifies this
      ensures Valid()
      ensures users == old(users) && memberships == old(memberships)
      ensures r.Failure? <==> userId !in users
      ensures r.Failure? ==> r.error == EntityNotFound("User", userId) && gyms == old(gyms)
      ensures r.Success? ==>
                && r.value == GymEntity.GymData(newId, name, gymType, GymEntity.NormalizedLocation(location),
                                                GymEntity.NormalizedCapacity(capacity), userId, now, now)
                && gyms == old(gyms)[newId := r.value]
      ensures r.Success? ==> MR.CountByGymId(memberships, newId) == 0
      ensures old(AllWithinCapacity()) ==> AllWithinCapacity()
    {
      if userId !in users {
        return Failure(EntityNotFound("User", userId));
      }
      var gym := new GymEntity.Gym.Create(name, gymType, userId, location, capacity, now);
      var saved := GR.InsertedRow(gym.Data(), newId, now);
      assert MR.CountByGymId(memberships, newId) == 0;
      gyms := gyms[newId := saved];
      return Success(saved);
    }

    /** `UpdateGymUseCase`: refuses a missing gym, then a new owner that does not exist; otherwise
        applies the partial update, hands the gym to the new owner when one is named, and stores the
        result. An absent or empty `userId` names no new owner. */
    method UpdateGym(id: string, name: Option<string>, gymType: Option<GymEntity.GymType>,
                     location: Patch<string>, capacity: Patch<nat>, userId: Option<string>, now: nat)
      returns (r: Result<GymEntity.GymData, DomainError>)
      requires Valid()
      modifies this
      ensures Valid()
      ensures users == old(users) && memberships == old(memberships)
      ensures id !in gyms ==> r == Failure(EntityNotFound("Gym", id))
      ensures id in gyms && userId.Some? && userId.value != "" && userId.value !in users ==>
                r == Failure(EntityNotFound("User", userId.value))
      ensures r.Failure? ==> gyms == old(gyms)
      ensures r.Success? <==> id in old(gyms) && (userId.Some? && userId.value != "" ==> userId.value in users)
      ensures r.Success? ==>
                var updated := GymEntity.Updated(old(gyms)[id], name, gymType, location, capacity, now);
                r.value == (if userId.Some? && userId.value != "" then updated.(userId := userId.value) else updated)
      ensures r.Success? ==> gyms == old(gyms)[id := r.value]
      ensures capacity.Keep? && old(AllWithinCapacity()) ==> AllWithinCapacity()
    {
      if id !in gyms {
        return Failure(EntityNotFound("Gym", id));
      }
      if userId.Some? && userId.value != "" && userId.value !in users {
        return Failure(EntityNotFound("User", userId.value));
      }
      var owner := if userId.Some? && userId.value != "" then userId else None;
      var patched := PatchGym(gyms[id], name, gymType, location, capacity, owner, now);
      GR.UpdatedRowStoresObject(gyms[id], patched, now);
      var saved := UpdateGymRow(id, patched, now);
      return Success(saved);
    }

    /** The corrected update branch of the gym repository's `save` (`GR.UpdatedRow`): overwrites
        the row stored under the gym's id with the gym's fields, owner included, stamped with the
        database's instant `now`. The branch as written drops the owner (`GR.UpdatedRowAsWritten`).
        The owner must be a stored user, as the gym's `user` relation demands. */
    method UpdateGymRow(id: string, gym: GymEntity.GymData, now: nat) returns (saved: GymEntity.GymData)
      requires Valid()
      requires id in gyms && gym.id == id && gym.userId in users
      modifies this
      ensures Valid()
      ensures users == old(users) && memberships == old(memberships)
      ensures saved == GR.UpdatedRow(old(gyms)[id], gym, now)
      ensures gyms == old(gyms)[id := saved]
      ensures saved.capacity == old(gyms)[id].capacity && old(AllWithinCapacity()) ==> AllWithinCapacity()
    {
      saved := GR.UpdatedRow(gyms[id], gym, now);
      ReplaceGymKeepsConsistent(users, gyms, memberships, id, saved);
      if saved.capacity == gyms[id].capacity && AllWithinCapacity() {
        ReplaceGymKeepsWithinCapacities(gyms, memberships, id, saved);
      }
      gyms := gyms[id := saved];
    }

    /** `UpdateUserUseCase`: refuses a missing user; otherwise applies the partial update and stores
        it. An absent or empty date of birth keeps the stored one. */
    method UpdateUser(id: string, name: Option<string>, dateOfBirth: Option<string>, toInstant: string -> nat,
                      fitnessGoal: Option<UserEntity.FitnessGoal>, now: nat)
      returns (r: Result<UserEntity.UserData, DomainError>)
      requires Valid()
      modifies this
      ensures Valid()
      ensures gyms == old(gyms) && memberships == old(memberships)
      ensures r.Failure? <==> id !in old(users)
      ensures r.Failure? ==> r.error == EntityNotFound("User", id) && users == old(users)
      ensures r.Success? ==>
                var date := if dateOfBirth.Some? && dateOfBirth.value != "" then Some(toInstant(dateOfBirth.value)) else None;
                r.value == UserEntity.Updated(old(users)[id], name, date, fitnessGoal, now)
      ensures r.Success? ==> users == old(users)[id := r.value]
      ensures old(AllWithinCapacity()) ==> AllWithinCapacity()
    {
      if id !in users {
        return Failure(EntityNotFound("User", id));
      }
      var user := new UserEntity.User.FromData(users[id]);
      var date := if dateOfBirth.Some? && dateOfBirth.value != "" then Some(toInstant(dateOfBirth.value)) else None;
      user.Update(name, date, fitnessGoal, now);
      var saved := user.Data();
      users := users[id := saved];
      return Success(saved);
    }

    /** `DeleteGymUseCase`: refuses a missing gym; otherwise deletes it together with its memberships. */
    method DeleteGym(id: string) returns (r: Result<(), DomainError>)
      requires Valid()
      modifies this
      ensures Valid()
      ensures users == old(users)
      ensures r.Failure? <==> id !in old(gyms)
      ensures r.Failure? ==> r.error == EntityNotFound("Gym", id) && unchanged(this)
      ensures r.Success? ==> gyms == old(gyms) - {id} && memberships == MR.DeleteByGymId(old(memberships), id)
      ensures old(AllWithinCapacity()) ==> AllWithinCapacity()
    {
      if id !in gyms {
        return Failure(EntityNotFound("Gym", id));
      }
      DeleteGymKeepsConsistent(users, gyms, memberships, id);
      if AllWithinCapacity() {
        DeleteGymKeepsWithinCapacities(gyms, memberships, id);
      }
      gyms, memberships := gyms - {id}, MR.DeleteByGymId(memberships, id);
      return Success(());
    }

    /** `DeleteUserUseCase`: refuses a missing user; otherwise deletes them together with the gyms
        they own and the memberships of the user and of those gyms. */
    method DeleteUser(id: string) returns (r: Result<(), DomainError>)
      requires Valid()
      modifies this
      ensures Valid()
      ensures r.Failure? <==> id !in old(users)
      ensures r.Failure? ==> r.error == EntityNotFound("User", id) && unchanged(this)
      ensures r.Success? ==>
                var owned := OwnedBy(old(gyms), id);
                && users == old(users) - {id}
                && gyms == old(gyms) - owned
                && memberships == MR.DeleteByGymIds(MR.DeleteByUserId(old(memberships), id), owned)
      ensures old(AllWithinCapacity()) ==> AllWithinCapacity()
    {
      if id !in users {
        return Failure(EntityNotFound("User", id));
      }
      var owned := OwnedBy(gyms, id);
      DeleteUserKeepsConsistent(users, gyms, memberships, id);
      if AllWithinCapacity() {
        DeleteUserKeepsWithinCapacities(gyms, memberships, id);
      }
      users, gyms, memberships := users - {id}, gyms - owned, MR.DeleteByGymIds(MR.DeleteByUserId(memberships, id), owned);
      return Success(());
    }
  }

  /** The loaded-and-updated gym of `UpdateGymUseCase`: the stored row becomes a domain object,
      receives the partial update and, when a new owner is named, that owner. */
  method PatchGym(stored: GymEntity.GymData, name: Option<string>, gymType: Option<GymEntity.GymType>,
                  location: Patch<string>, capacity: Patch<nat>, owner: Option<string>, now: nat)
    returns (patched: GymEntity.GymData)
    ensures var updated := GymEntity.Updated(stored, name, gymType, location, capacity, now);
            patched == if owner.Some? then updated.(userId := owner.value) else updated
  {
    var gym := new GymEntity.Gym.FromData(stored);
    gym.Update(name, gymType, location, capacity, now);
    if owner.Some? {
      gym.userId := owner.value;
    }
    patched := gym.Data();
  }

  /** The user of each row. */
  function UsersOf(users: map<string, UserEntity.UserData>, rows: seq<Membership>): (r: seq<UserEntity.UserData>)
    requires forall m :: m in rows ==> m.userId in users
    ensures |r| == |rows| && forall i :: 0 <= i < |rows| ==> r[i] == users[rows[i].userId]
  {
    seq(|rows|, i requires 0 <= i < |rows| => users[rows[i].userId])
  }

  /** The gym of each row. */
  function GymsOf(gyms: map<string, GymEntity.GymData>, rows: seq<Membership>): (r: seq<GymEntity.GymData>)
    requires forall m :: m in rows ==> m.gymId in gyms
    ensures |r| == |rows| && forall i :: 0 <= i < |rows| ==> r[i] == gyms[rows[i].gymId]
  {
    seq(|rows|, i requires 0 <= i < |rows| => gyms[rows[i].gymId])
  }

  /** Each projected member is found, as a member of the gym, by the very row it was projected from. */
  lemma MembersFoundByOwnRow(users: map<string, UserEntity.UserData>, memberships: seq<Membership>, gymId: string, rows: seq<Membership>, members: seq<UserEntity.UserData>)
    requires UsersKeyed(users) && MR.PairKeyed(memberships)
    requires forall m :: m in memberships ==> m.userId in users
    requires forall m :: m in rows ==> m in memberships && m.gymId == gymId
    requires |members| == |rows| && forall i :: 0 <= i < |rows| ==> members[i] == users[rows[i].userId]
    ensures forall i :: 0 <= i < |members| ==> MR.FindByUserAndGym(memberships, members[i].id, gymId) == Some(rows[i])
  {
    forall i | 0 <= i < |members|
      ensures MR.FindByUserAndGym(memberships, members[i].id, gymId) == Some(rows[i])
    {
      assert rows[i] in rows;
      MR.FoundIsOnlyRowOfPair(memberships, members[i].id, gymId);
    }
  }

  /** Every user with a membership in the gym is among the projected members. */
  lemma MembersComplete(users: map<string, UserEntity.UserData>, memberships: seq<Membership>, gymId: string, rows: seq<Membership>, members: seq<UserEntity.UserData>)
    requires UsersKeyed(users)
    requires forall m :: m in rows <==> m in memberships && m.gymId == gymId
    requires forall m :: m in rows ==> m.userId in users
    requires |members| == |rows| && forall i :: 0 <= i < |rows| ==> members[i] == users[rows[i].userId]
    ensures forall u :: u in users.Values && MR.FindByUserAndGym(memberships, u.id, gymId).Some? ==> u in members
  {
    forall u | u in users.Values && MR.FindByUserAndGym(memberships, u.id, gymId).Some?
      ensures u in members
    {
      var m := MR.FindByUserAndGym(memberships, u.id, gymId).value;
      var i :| 0 <= i < |rows| && rows[i] == m;
      var k :| k in users && users[k] == u;
      assert members[i] == u;
    }
  }

  /** No member is projected twice: two equal members would be found by the same row, and the
      gym's rows hold no row twice. */
  lemma MembersDistinct(users: map<string, UserEntity.UserData>, memberships: seq<Membership>, gymId: string, rows: seq<Membership>, members: seq<UserEntity.UserData>)
    requires MR.WellFormed(memberships)
    requires rows == MR.FindByGymId(memberships, gymId)
    requires |members| == |rows|
    requires forall i :: 0 <= i < |members| ==> MR.FindByUserAndGym(memberships, members[i].id, gymId) == Some(rows[i])
    ensures Distinct(members)
  {
    MultisetDistinct(rows);
    forall i, j | 0 <= i < j < |members| ensures members[i] != members[j] {
      assert rows[i] != rows[j];
    }
  }

  /** The projection of a gym's membership rows onto their users is the gym's member list. */
  lemma GymMembersFacts(users: map<string, UserEntity.UserData>, memberships: seq<Membership>, gymId: string, rows: seq<Membership>, members: seq<UserEntity.UserData>)
    requires UsersKeyed(users) && MR.WellFormed(memberships)
    requires forall m :: m in memberships ==> m.userId in users
    requires rows == MR.FindByGymId(memberships, gymId)
    requires |members| == |rows| && forall i :: 0 <= i < |rows| ==> members[i] == users[rows[i].userId]
    ensures Distinct(members)
    ensures forall u :: u in members <==> u in users.Values && MR.FindByUserAndGym(memberships, u.id, gymId).Some?
    ensures forall i :: 0 <= i < |members| ==> MR.FindByUserAndGym(memberships, members[i].id, gymId) == Some(rows[i])
    ensures forall i, j :: 0 <= i < j < |members| ==> rows[i].joinDate >= rows[j].joinDate
  {
    MembersFoundByOwnRow(users, memberships, gymId, rows, members);
    MembersComplete(users, memberships, gymId, rows, members);
    MembersDistinct(users, memberships, gymId, rows, members);
    forall i, j | 0 <= i < j < |members| ensures rows[i].joinDate >= rows[j].joinDate {
      assert MR.JoinDate(rows[i]) >= MR.JoinDate(rows[j]);
    }
  }

  /** Each projected gym is found, as one of the user's, by the very row it was projected from. */
  lemma GymsFoundByOwnRow(gyms: map<string, GymEntity.GymData>, memberships: seq<Membership>, userId: string, rows: seq<Membership>, joined: seq<GymEntity.GymData>)
    requires GR.KeyedById(gyms) && MR.PairKeyed(memberships)
    requires forall m :: m in memberships ==> m.gymId in gyms
    requires forall m :: m in rows ==> m in memberships && m.userId == userId
    requires |joined| == |rows| && forall i :: 0 <= i < |rows| ==> joined[i] == gyms[rows[i].gymId]
    ensures forall i :: 0 <= i < |joined| ==> MR.FindByUserAndGym(memberships, userId, joined[i].id) == Some(rows[i])
  {
    forall i | 0 <= i < |joined|
      ensures MR.FindByUserAndGym(memberships, userId, joined[i].id) == Some(rows[i])
    {
      assert rows[i] in rows;
      MR.FoundIsOnlyRowOfPair(memberships, userId, joined[i].id);
    }
  }

  /** Every gym the user has a membership in is among the projected gyms. */
  lemma GymsComplete(gyms: map<string, GymEntity.GymData>, memberships: seq<Membership>, userId: string, rows: seq<Membership>, joined: seq<GymEntity.GymData>)
    requires GR.KeyedById(gyms)
    requires forall m :: m in rows <==> m in memberships && m.userId == userId
    requires forall m :: m in rows ==> m.gymId in gyms
    requires |joined| == |rows| && forall i :: 0 <= i < |rows| ==> joined[i] == gyms[rows[i].gymId]
    ensures forall g :: g in gyms.Values && MR.FindByUserAndGym(memberships, userId, g.id).Some? ==> g in joined
  {
    forall g | g in gyms.Values && MR.FindByUserAndGym(memberships, userId, g.id).Some?
      ensures g in joined
    {
      var m := MR.FindByUserAndGym(memberships, userId, g.id).value;
      var i :| 0 <= i < |rows| && rows[i] == m;
      var k :| k in gyms && gyms[k] == g;
      assert joined[i] == g;
    }
  }

  /** No gym is projected twice: two equal gyms would be found by the same row, and the user's
      rows hold no row twice. */
  lemma GymsDistinct(gyms: map<string, GymEntity.GymData>, memberships: seq<Membership>, userId: string, rows: seq<Membership>, joined: seq<GymEntity.GymData>)
    requires MR.WellFormed(memberships)
    requires rows == MR.FindByUserId(memberships, userId)
    requires |joined| == |rows|
    requires forall i :: 0 <= i < |joined| ==> MR.FindByUserAndGym(memberships, userId, joined[i].id) == Some(rows[i])
    ensures Distinct(joined)
  {
    MultisetDistinct(rows);
    forall i, j | 0 <= i < j < |joined| ensures joined[i] != joined[j] {
      assert rows[i] != rows[j];
    }
  }

  /** The projection of a user's membership rows onto their gyms is the user's gym list. */
  lemma UserGymsFacts(gyms: map<string, GymEntity.GymData>, memberships: seq<Membership>, userId: string, rows: seq<Membership>, joined: seq<GymEntity.GymData>)
    requires GR.KeyedById(gyms) && MR.WellFormed(memberships)
    requires forall m :: m in memberships ==> m.gymId in gyms
    requires rows == MR.FindByUserId(memberships, userId)
    requires |joined| == |rows| && forall i :: 0 <= i < |rows| ==> joined[i] == gyms[rows[i].gymId]
    ensures Distinct(joined)
    ensures forall g :: g in joined <==> g in gyms.Values && MR.FindByUserAndGym(memberships, userId, g.id).Some?
    ensures forall i :: 0 <= i < |joined| ==> MR.FindByUserAndGym(memberships, userId, joined[i].id) == Some(rows[i])
    ensures forall i, j :: 0 <= i < j < |joined| ==> rows[i].joinDate >= rows[j].joinDate
  {
    GymsFoundByOwnRow(gyms, memberships, userId, rows, joined);
    GymsComplete(gyms, memberships, userId, rows, joined);
    GymsDistinct(gyms, memberships, userId, rows, joined);
    forall i, j | 0 <= i < j < |joined| ensures rows[i].joinDate >= rows[j].joinDate {
      assert MR.JoinDate(rows[i]) >= MR.JoinDate(rows[j]);
    }
  }
}
