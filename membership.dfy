/** The membership entity: a plain record relating one user to one gym. It has no behaviour
    besides creation, and being a value nothing can change it in place. */
module MembershipEntity {

  datatype Membership = Membership(
    id: string,
    userId: string,
    gymId: string,
    joinDate: nat,
    createdAt: nat,
    updatedAt: nat)

  /** `Membership.create`: an unsaved membership (empty id) of `userId` in `gymId`, joined,
      created and updated at the same instant. */
  function Create(userId: string, gymId: string, now: nat): (m: Membership)
    ensures m.id == ""
    ensures m.userId == userId && m.gymId == gymId
    ensures m.joinDate == now && m.createdAt == now && m.updatedAt == now
  {
    Membership("", userId, gymId, now, now, now)
  }
}
