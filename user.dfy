/** The user entity: its stored form, creation and the in-place profile update. */
module UserEntity {
  import opened Wrappers

  datatype FitnessGoal = Strength | Hypertrophy | Endurance

  /** A user as one row of the user table. The date of birth and the timestamps are abstract
      clock readings. */
  datatype UserData = UserData(
    id: string,
    name: string,
    email: string,
    dateOfBirth: nat,
    fitnessGoal: FitnessGoal,
    createdAt: nat,
    updatedAt: nat)

  /** The user after `update(name, dateOfBirth, fitnessGoal)` at instant `now`. */
  function Updated(u: UserData, name: Option<string>, dateOfBirth: Option<nat>,
                   fitnessGoal: Option<FitnessGoal>, now: nat): (r: UserData)
    ensures r.id == u.id && r.email == u.email && r.createdAt == u.createdAt
    ensures r.updatedAt == now
    ensures r.name == (if name.Some? then name.value else u.name)
    ensures r.dateOfBirth == (if dateOfBirth.Some? then dateOfBirth.value else u.dateOfBirth)
    ensures r.fitnessGoal == (if fitnessGoal.Some? then fitnessGoal.value else u.fitnessGoal)
  {
    u.(name := name.GetOr(u.name), dateOfBirth := dateOfBirth.GetOr(u.dateOfBirth),
       fitnessGoal := fitnessGoal.GetOr(u.fitnessGoal), updatedAt := now)
  }

  /** Applying the same update twice leaves the profile as applying it once. */
  lemma UpdateIdempotent(u: UserData, name: Option<string>, dateOfBirth: Option<nat>,
                         fitnessGoal: Option<FitnessGoal>, t1: nat, t2: nat)
    ensures Updated(Updated(u, name, dateOfBirth, fitnessGoal, t1), name, dateOfBirth, fitnessGoal, t2)
         == Updated(u, name, dateOfBirth, fitnessGoal, t2)
  {
  }

  /** The domain object: a user whose profile fields `update` changes in place. */
  class User {
    var id: string
    var name: string
    var email: string
    var dateOfBirth: nat
    var fitnessGoal: FitnessGoal
    var createdAt: nat
    var updatedAt: nat

    function Data(): UserData
      reads this
    {
      UserData(id, name, email, dateOfBirth, fitnessGoal, createdAt, updatedAt)
    }

    /** `User.create`: an unsaved user (empty id), created and updated at `now`. */
    constructor Create(name: string, email: string, dateOfBirth: nat, fitnessGoal: FitnessGoal, now: nat)
      ensures Data() == UserData("", name, email, dateOfBirth, fitnessGoal, now, now)
    {
      this.id := "";
      this.name := name;
      this.email := email;
      this.dateOfBirth := dateOfBirth;
      this.fitnessGoal := fitnessGoal;
      this.createdAt := now;
      this.updatedAt := now;
    }

    /** The repository's conversion of a stored row into a domain object. */
    constructor FromData(d: UserData)
      ensures Data() == d
    {
      id, name, email, dateOfBirth := d.id, d.name, d.email, d.dateOfBirth;
      fitnessGoal, createdAt, updatedAt := d.fitnessGoal, d.createdAt, d.updatedAt;
    }

    /** `update`: assigns each provided field, keeps the others, refreshes the update instant. */
    method Update(name: Option<string>, dateOfBirth: Option<nat>, fitnessGoal: Option<FitnessGoal>, now: nat)
      modifies this
      ensures Data() == Updated(old(Data()), name, dateOfBirth, fitnessGoal, now)
    {
      if name.Some? {
        this.name := name.value;
      }
      if dateOfBirth.Some? {
        this.dateOfBirth := dateOfBirth.value;
      }
      if fitnessGoal.Some? {
        this.fitnessGoal := fitnessGoal.value;
      }
      this.updatedAt := now;
    }
  }
}
