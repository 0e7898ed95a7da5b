/** The membership table and its queries. The table is the sequence of stored rows in insertion
    order; the queries are functions of it and the writes compute the table that follows. */
module MembershipRepository {
  import opened Wrappers
  import opened Sequences
  import opened MembershipEntity

  /** What the table's keys guarantee: every row has a non-empty id, the id is a primary key, the
      pair (userId, gymId) is a unique compound key, and no row is stored twice. */
  ghost predicate WellFormed(table: seq<Membership>) {
    && (forall m :: m in table ==> m.id != "")
    && (forall a, b :: a in table && b in table && a.id == b.id ==> a == b)
    && PairKeyed(table)
    && (forall m :: multiset(table)[m] <= 1)
  }

  /** The pair (userId, gymId) identifies a row. */
  ghost predicate PairKeyed(table: seq<Membership>) {
    forall a, b :: a in table && b in table && a.userId == b.userId && a.gymId == b.gymId ==> a == b
  }

  /** No row has id `id`. */
  predicate IdFree(table: seq<Membership>, id: string) {
    forall m :: m in table ==> m.id != id
  }

  function OfGym(gymId: string): Membership -> bool {
    (m: Membership) => m.gymId == gymId
  }

  function OfUser(userId: string): Membership -> bool {
    (m: Membership) => m.userId == userId
  }

  function JoinDate(m: Membership): int {
    m.joinDate
  }

  /** `findByUserAndGym`: the row stored under the compound key, if any. */
  function FindByUserAndGym(table: seq<Membership>, userId: string, gymId: string): (r: Option<Membership>)
    ensures r.Some? ==> r.value in table && r.value.userId == userId && r.value.gymId == gymId
    ensures r.None? <==> forall m :: m in table ==> !(m.userId == userId && m.gymId == gymId)
  {
    if table == [] then None
    else if table[0].userId == userId && table[0].gymId == gymId then Some(table[0])
    else FindByUserAndGym(table[1..], userId, gymId)
  }

  /** Under the unique key, a found row is the only row of its pair. */
  lemma FoundIsOnlyRowOfPair(table: seq<Membership>, userId: string, gymId: string)
    requires PairKeyed(table)
    requires FindByUserAndGym(table, userId, gymId).Some?
    ensures forall m :: m in table && m.userId == userId && m.gymId == gymId ==>
              m == FindByUserAndGym(table, userId, gymId).value
  {
  }

  /** `countByGymId`: how many rows belong to `gymId`. */
  function CountByGymId(table: seq<Membership>, gymId: string): (n: nat)
    ensures n <= |table|
    ensures n == 0 <==> forall m :: m in table ==> m.gymId != gymId
  {
    if table == [] then 0
    else (if table[0].gymId == gymId then 1 else 0) + CountByGymId(table[1..], gymId)
  }

  /** A new row raises its own gym's count by one and leaves every other count alone. */
  lemma {:induction false} CountAppend(table: seq<Membership>, m: Membership, gymId: string)
    ensures CountByGymId(table + [m], gymId) == CountByGymId(table, gymId) + (if m.gymId == gymId then 1 else 0)
  {
    if table == [] {
      assert table + [m] == [m];
    } else {
      assert (table + [m])[1..] == table[1..] + [m];
      CountAppend(table[1..], m, gymId);
    }
  }

  /** `findByGymId`: the rows of `gymId`, latest join date first. */
  function FindByGymId(table: seq<Membership>, gymId: string): (r: seq<Membership>)
    ensures SortedDesc(r, JoinDate)
    ensures forall m :: multiset(r)[m] == if m.gymId == gymId then multiset(table)[m] else 0
    ensures forall m :: m in r <==> m in table && m.gymId == gymId
  {
    FilterMultiset(table, OfGym(gymId));
    SortDesc(Filter(table, OfGym(gymId)), JoinDate)
  }

  /** `findByUserId`: the rows of `userId`, latest join date first. */
  function FindByUserId(table: seq<Membership>, userId: string): (r: seq<Membership>)
    ensures SortedDesc(r, JoinDate)
    ensures forall m :: multiset(r)[m] == if m.userId == userId then multiset(table)[m] else 0
    ensures forall m :: m in r <==> m in table && m.userId == userId
  {
    FilterMultiset(table, OfUser(userId));
    SortDesc(Filter(table, OfUser(userId)), JoinDate)
  }

  /** The listing of a gym's rows has as many entries as the count says. */
  lemma {:induction false} FindByGymIdLength(table: seq<Membership>, gymId: string)
    ensures |FindByGymId(table, gymId)| == CountByGymId(table, gymId)
  {
    if table != [] {
      FindByGymIdLength(table[1..], gymId);
      assert Filter(table, OfGym(gymId)) ==
        (if table[0].gymId == gymId then [table[0]] else []) + Filter(table[1..], OfGym(gymId));
    }
  }

  /** The position of the first row whose id is `id`. */
  function IndexOfId(table: seq<Membership>, id: string): (i: nat)
    requires !IdFree(table, id)
    ensures i < |table| && table[i].id == id
    ensures forall j :: 0 <= j < i ==> table[j].id != id
  {
    if table[0].id == id then 0 else 1 + IndexOfId(table[1..], id)
  }

  /** `save`. A membership with an empty id is inserted as a new last row under the id the
      database assigns, stamped with the database's creation instant; one with an id overwrites
      the user, gym and join date of the row with that id. The result is the new table and the
      saved row. */
  function Save(table: seq<Membership>, m: Membership, newId: string, now: nat): (r: (seq<Membership>, Membership))
    requires m.id == "" ==> newId != "" && IdFree(table, newId)
    requires m.id != "" ==> !IdFree(table, m.id)
    ensures m.id == "" ==> r.0 == table + [r.1] && r.1 == m.(id := newId, createdAt := now, updatedAt := now)
    ensures m.id != "" ==> |r.0| == |table| && r.1.id == m.id && r.1 in r.0
    ensures m.id != "" ==> forall i :: 0 <= i < |table| && table[i].id != m.id ==> r.0[i] == table[i]
    ensures m.id != "" ==> forall i :: 0 <= i < |table| && table[i].id == m.id ==>
              r.0[i] == table[i].(userId := m.userId, gymId := m.gymId, joinDate := m.joinDate, updatedAt := now)
  {
    if m.id == "" then
      var row := m.(id := newId, createdAt := now, updatedAt := now);
      (table + [row], row)
    else
      var updated := seq(|table|, i requires 0 <= i < |table| =>
        if table[i].id == m.id
        then table[i].(userId := m.userId, gymId := m.gymId, joinDate := m.joinDate, updatedAt := now)
        else table[i]);
      (updated, updated[IndexOfId(table, m.id)])
  }

  /** Inserting a row with a fresh id and an unused pair keeps the keys unique. */
  lemma InsertKeepsWellFormed(table: seq<Membership>, row: Membership)
    requires WellFormed(table)
    requires row.id != "" && IdFree(table, row.id)
    requires FindByUserAndGym(table, row.userId, row.gymId).None?
    ensures WellFormed(table + [row])
  {
    assert row !in table;
    forall m ensures multiset(table + [row])[m] <= 1 {
      assert multiset(table + [row])[m] == multiset(table)[m] + multiset([row])[m];
    }
  }

  function NotId(id: string): Membership -> bool {
    (m: Membership) => m.id != id
  }

  /** `delete`: the table without the row whose id is `id`. The database refuses an id no row
      has, so the id must be stored. */
  function Delete(table: seq<Membership>, id: string): (r: seq<Membership>)
    requires !IdFree(table, id)
    ensures forall m :: m in r <==> m in table && m.id != id
    ensures forall m :: multiset(r)[m] == if m.id != id then multiset(table)[m] else 0
  {
    FilterMultiset(table, NotId(id));
    Filter(table, NotId(id))
  }

  /** Removing rows keeps the keys unique. */
  lemma SubTableWellFormed(table: seq<Membership>, sub: seq<Membership>)
    requires WellFormed(table)
    requires forall m :: multiset(sub)[m] <= multiset(table)[m]
    ensures WellFormed(sub)
  {
    forall m | m in sub ensures m in table {
      assert multiset(sub)[m] > 0;
    }
  }

  /** After inserting a row for a pair that had none, the pair's lookup finds that row. */
  lemma {:induction false} FindAfterInsert(table: seq<Membership>, m: Membership)
    requires FindByUserAndGym(table, m.userId, m.gymId).None?
    ensures FindByUserAndGym(table + [m], m.userId, m.gymId) == Some(m)
  {
    if table == [] {
      assert table + [m] == [m];
    } else {
      assert (table + [m])[0] == table[0];
      assert (table + [m])[1..] == table[1..] + [m];
      FindAfterInsert(table[1..], m);
    }
  }

  /** Dropping rows never raises a gym's count. */
  lemma {:induction false} CountFilterLe(table: seq<Membership>, p: Membership -> bool, gymId: string)
    ensures CountByGymId(Filter(table, p), gymId) <= CountByGymId(table, gymId)
  {
    if table != [] {
      CountFilterLe(table[1..], p, gymId);
      var head := if p(table[0]) then [table[0]] else [];
      assert Filter(table, p) == head + Filter(table[1..], p);
      CountConcat(head, Filter(table[1..], p), gymId);
    }
  }

  /** Counting distributes over concatenation. */
  lemma {:induction false} CountConcat(a: seq<Membership>, b: seq<Membership>, gymId: string)
    ensures CountByGymId(a + b, gymId) == CountByGymId(a, gymId) + CountByGymId(b, gymId)
  {
    if a == [] {
      assert a + b == b;
    } else {
      assert (a + b)[1..] == a[1..] + b;
      CountConcat(a[1..], b, gymId);
    }
  }

  function NotOfGym(gymId: string): Membership -> bool {
    (m: Membership) => m.gymId != gymId
  }

  function NotOfUser(userId: string): Membership -> bool {
    (m: Membership) => m.userId != userId
  }

  /** The table once the gym `gymId` is deleted: its memberships go with it. */
  function DeleteByGymId(table: seq<Membership>, gymId: string): (r: seq<Membership>)
    ensures forall m :: m in r <==> m in table && m.gymId != gymId
    ensures forall m :: multiset(r)[m] == if m.gymId != gymId then multiset(table)[m] else 0
  {
    FilterMultiset(table, NotOfGym(gymId));
    Filter(table, NotOfGym(gymId))
  }

  function NotOfGyms(gymIds: set<string>): Membership -> bool {
    (m: Membership) => m.gymId !in gymIds
  }

  /** The table once the gyms `gymIds` are deleted: their memberships go with them. */
  function DeleteByGymIds(table: seq<Membership>, gymIds: set<string>): (r: seq<Membership>)
    ensures forall m :: m in r <==> m in table && m.gymId !in gymIds
    ensures forall m :: multiset(r)[m] == if m.gymId !in gymIds then multiset(table)[m] else 0
  {
    FilterMultiset(table, NotOfGyms(gymIds));
    Filter(table, NotOfGyms(gymIds))
  }

  /** The table once the user `userId` is deleted: their memberships go with them. */
  function DeleteByUserId(table: seq<Membership>, userId: string): (r: seq<Membership>)
    ensures forall m :: m in r <==> m in table && m.userId != userId
    ensures forall m :: multiset(r)[m] == if m.userId != userId then multiset(table)[m] else 0
  {
    FilterMultiset(table, NotOfUser(userId));
    Filter(table, NotOfUser(userId))
  }
}
