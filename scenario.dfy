/** The end-to-end admission story on a fresh database: a gym with a single place admits its
    first member, refuses the same member twice and a second user while full, and admits the
    second user once the first has left. */
module Scenario {
  import opened Wrappers
  import opened DomainErrors
  import opened ErrorHandler
  import GymEntity
  import UserEntity
  import MembershipEntity
  import UseCases

  /** A fresh database with user `u1` and the single-place gym `g1` it owns. */
  method OpenGym() returns (db: UseCases.Backend)
    ensures fresh(db) && db.Valid() && db.AllWithinCapacity()
    ensures db.users.Keys == {"u1"} && db.users["u1"].email == "ann@example.com"
    ensures db.gyms.Keys == {"g1"} && db.gyms["g1"].capacity == Some(1) && db.gyms["g1"].name == "Iron Temple"
    ensures db.memberships == []
  {
    db := new UseCases.Backend();
    var ann := db.CreateUser("Ann", "ann@example.com", "1990-01-01", _ => 0, UserEntity.Strength, "u1", 1);
    assert ann.Success?;
    var gym := db.CreateGym("Iron Temple", GymEntity.Commercial, "u1", None, Some(1), "g1", 2);
    assert gym.Success?;
  }

  /** `u1` joins `g1`, and joining a second time is refused with a 409. */
  method JoinTwice(db: UseCases.Backend) returns (duplicate: ErrorResponse)
    requires db.Valid() && db.users.Keys == {"u1"} && db.memberships == []
    requires db.gyms.Keys == {"g1"} && db.gyms["g1"].capacity == Some(1)
    modifies db
    ensures db.Valid() && db.users == old(db.users) && db.gyms == old(db.gyms)
    ensures db.memberships == [MembershipEntity.Membership("m1", "u1", "g1", 3, 3, 3)]
    ensures duplicate == ErrorResponse(409, "MembershipAlreadyExistsError", Message(MembershipAlreadyExists("u1", "g1")))
  {
    var first := db.AddUserToGym("u1", "g1", "m1", 3);
    assert first.Success?;
    var again := db.AddUserToGym("u1", "g1", "m2", 4);
    assert again == Failure(MembershipAlreadyExists("u1", "g1"));
    duplicate := HandleError(Domain(again.error), false);
  }

  /** A second user registers, and joining the full gym is refused with a 400. */
  method CrowdOut(db: UseCases.Backend) returns (full: ErrorResponse)
    requires db.Valid() && db.users.Keys == {"u1"} && db.users["u1"].email == "ann@example.com"
    requires db.gyms.Keys == {"g1"} && db.gyms["g1"].capacity == Some(1) && db.gyms["g1"].name == "Iron Temple"
    requires db.memberships == [MembershipEntity.Membership("m1", "u1", "g1", 3, 3, 3)]
    modifies db
    ensures db.Valid() && "u2" in db.users && db.gyms == old(db.gyms) && db.memberships == old(db.memberships)
    ensures full == ErrorResponse(400, "GymCapacityExceededError", Message(GymCapacityExceeded("Iron Temple", 1)))
  {
    var bob := db.CreateUser("Bob", "bob@example.com", "1992-02-02", _ => 0, UserEntity.Endurance, "u2", 5);
    assert bob.Success?;
    var crowded := db.AddUserToGym("u2", "g1", "m3", 6);
    assert crowded == Failure(GymCapacityExceeded("Iron Temple", 1));
    full := HandleError(Domain(crowded.error), false);
  }

  /** The whole story: the two refusals answer 409 and 400, and once `u1` leaves, `u2` is admitted. */
  method SingleSpotGym() returns (duplicate: ErrorResponse, full: ErrorResponse, readmitted: bool)
    ensures duplicate == ErrorResponse(409, "MembershipAlreadyExistsError", Message(MembershipAlreadyExists("u1", "g1")))
    ensures full == ErrorResponse(400, "GymCapacityExceededError", Message(GymCapacityExceeded("Iron Temple", 1)))
    ensures readmitted
  {
    var db := OpenGym();
    duplicate := JoinTwice(db);
    full := CrowdOut(db);
    var left := db.RemoveUserFromGym("u1", "g1");
    assert left.Success?;
    assert db.memberships == [];
    var second := db.AddUserToGym("u2", "g1", "m4", 7);
    readmitted := second.Success?;
  }
}
