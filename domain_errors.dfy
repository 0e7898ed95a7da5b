/** The domain error hierarchy, as one variant per concrete error class. */
module DomainErrors {

  /** Every concrete error the use cases throw. `RequiredField` is thrown by the owner listing but
      has no class of its own in the error file; it is the fifth variant here. */
  datatype DomainError =
    | EntityNotFound(entityName: string, id: string)
    | DuplicateEntity(entityName: string, field: string, value: string)
    | GymCapacityExceeded(gymName: string, capacity: nat)
    | MembershipAlreadyExists(userId: string, gymId: string)
    | RequiredField(field: string, operation: string)

  predicate IsDigits(s: string) {
    forall i :: 0 <= i < |s| ==> '0' <= s[i] <= '9'
  }

  /** The number a string of decimal digits denotes. */
  function DigitsValue(s: string): nat
    requires IsDigits(s)
  {
    if s == [] then 0 else DigitsValue(s[..|s| - 1]) * 10 + (s[|s| - 1] as int - '0' as int)
  }

  function DigitChar(d: nat): char
    requires d < 10
  {
    ('0' as int + d) as char
  }

  /** The decimal rendering of a whole number, as a template literal prints it. */
  function NatToString(n: nat): (r: string)
    ensures |r| > 0 && IsDigits(r)
    ensures |r| > 1 ==> r[0] != '0'
  {
    if n < 10 then [DigitChar(n)] else NatToString(n / 10) + [DigitChar(n % 10)]
  }

  /** Reading the digits back gives the number: the rendering loses nothing. */
  lemma {:induction false} NatToStringRoundTrip(n: nat)
    ensures DigitsValue(NatToString(n)) == n
  {
    if n >= 10 {
      var s := NatToString(n);
      assert s[..|s| - 1] == NatToString(n / 10);
      NatToStringRoundTrip(n / 10);
    }
  }

  /** The `name` of an error: the name of its concrete class. */
  function Name(e: DomainError): (r: string)
    ensures |r| > 5 && r[|r| - 5..] == "Error"
  {
    match e
    case EntityNotFound(_, _) => "EntityNotFoundError"
    case DuplicateEntity(_, _, _) => "DuplicateEntityError"
    case GymCapacityExceeded(_, _) => "GymCapacityExceededError"
    case MembershipAlreadyExists(_, _) => "MembershipAlreadyExistsError"
    case RequiredField(_, _) => "RequiredFieldError"
  }

  predicate SameKind(a: DomainError, b: DomainError) {
    match (a, b)
    case (EntityNotFound(_, _), EntityNotFound(_, _)) => true
    case (DuplicateEntity(_, _, _), DuplicateEntity(_, _, _)) => true
    case (GymCapacityExceeded(_, _), GymCapacityExceeded(_, _)) => true
    case (MembershipAlreadyExists(_, _), MembershipAlreadyExists(_, _)) => true
    case (RequiredField(_, _), RequiredField(_, _)) => true
    case _ => false
  }

  /** Two errors have the same name exactly when they are of the same kind, so a caller can tell the
      kind from the name alone. */
  lemma NameIdentifiesKind(a: DomainError, b: DomainError)
    ensures Name(a) == Name(b) <==> SameKind(a, b)
  {
  }

  const WithId := " with id "
  const NotFound := " not found"
  const With := " with "
  const AlreadyExists := "' already exists"
  const GymPrefix := "Gym '"
  const ReachedCapacity := "' has reached its maximum capacity of "
  const Members := " members"
  const UserPrefix := "User "
  const AlreadyMember := " is already a member of gym "
  const IsRequired := " is required to "

  /** The `message` of an error, built from its arguments. The source defines no message for
      `RequiredField`; the one here names the field and the operation. Every message opens with
      the entity or field it is about, or with the fixed words naming the gym or the user. */
  function Message(e: DomainError): (r: string)
    ensures e.EntityNotFound? ==> |r| > |e.entityName| && r[..|e.entityName|] == e.entityName
    ensures e.DuplicateEntity? ==> |r| > |e.entityName| && r[..|e.entityName|] == e.entityName
    ensures e.GymCapacityExceeded? ==> |r| > |GymPrefix| && r[..|GymPrefix|] == GymPrefix
    ensures e.MembershipAlreadyExists? ==> |r| > |UserPrefix| && r[..|UserPrefix|] == UserPrefix
    ensures e.RequiredField? ==> |r| > |e.field| && r[..|e.field|] == e.field
  {
    match e
    case EntityNotFound(entityName, id) => entityName + WithId + id + NotFound
    case DuplicateEntity(entityName, field, value) => entityName + With + field + " '" + value + AlreadyExists
    case GymCapacityExceeded(gymName, capacity) => GymPrefix + gymName + ReachedCapacity + NatToString(capacity) + Members
    case MembershipAlreadyExists(userId, gymId) => UserPrefix + userId + AlreadyMember + gymId
    case RequiredField(field, operation) => field + IsRequired + operation
  }

  /** The two halves of a concatenation can be cut back out of it. */
  lemma SplitConcat(a: string, b: string)
    ensures |a + b| == |a| + |b|
    ensures (a + b)[..|a|] == a && (a + b)[|a|..] == b
  {
  }

  /** A missing entity's message starts with the entity's name, ends with " not found", and holds
      the id in between. */
  lemma NotFoundMessageEmbedsPayload(entityName: string, id: string)
    ensures var m, n := Message(EntityNotFound(entityName, id)), |entityName|;
            m[..n] == entityName && m[n + |WithId|..|m| - |NotFound|] == id && m[|m| - |NotFound|..] == NotFound
  {
    var a := entityName + WithId;
    var b := a + id;
    var m := b + NotFound;
    SplitConcat(entityName, WithId);
    SplitConcat(a, id);
    SplitConcat(b, NotFound);
    assert m[..|entityName|] == b[..|entityName|] == a[..|entityName|];
    assert m[|a|..|b|] == b[|a|..];
  }

  /** A duplicate's message starts with the entity's name and holds the offending value before
      "' already exists". */
  lemma DuplicateMessageEmbedsPayload(entityName: string, field: string, value: string)
    ensures var m, k := Message(DuplicateEntity(entityName, field, value)), |entityName + With + field + " '"|;
            m[..|entityName|] == entityName && m[k..|m| - |AlreadyExists|] == value
  {
    var a := entityName + With + field + " '";
    var b := a + value;
    var m := b + AlreadyExists;
    assert a == entityName + (With + field + " '");
    SplitConcat(entityName, With + field + " '");
    SplitConcat(a, value);
    SplitConcat(b, AlreadyExists);
    assert m[..|entityName|] == b[..|entityName|] == a[..|entityName|];
    assert m[|a|..|b|] == b[|a|..];
  }

  /** A full gym's message holds the gym's name after "Gym '" and the capacity's digits before
      " members", and the digits read back as the capacity. */
  lemma CapacityMessageEmbedsPayload(gymName: string, capacity: nat)
    ensures var m, k := Message(GymCapacityExceeded(gymName, capacity)), |GymPrefix + gymName + ReachedCapacity|;
            var digits := m[k..|m| - |Members|];
            m[|GymPrefix|..|GymPrefix| + |gymName|] == gymName && IsDigits(digits) && DigitsValue(digits) == capacity
  {
    var p := GymPrefix + gymName;
    var a := p + ReachedCapacity;
    var b := a + NatToString(capacity);
    var m := b + Members;
    SplitConcat(GymPrefix, gymName);
    SplitConcat(p, ReachedCapacity);
    SplitConcat(a, NatToString(capacity));
    SplitConcat(b, Members);
    assert m[|GymPrefix|..|p|] == b[|GymPrefix|..|p|] == a[|GymPrefix|..|p|] == p[|GymPrefix|..];
    assert m[|a|..|b|] == b[|a|..];
    NatToStringRoundTrip(capacity);
  }

  /** A repeated membership's message holds the user after "User " and ends with the gym. */
  lemma MembershipMessageEmbedsPayload(userId: string, gymId: string)
    ensures var m, k := Message(MembershipAlreadyExists(userId, gymId)), |UserPrefix + userId + AlreadyMember|;
            m[|UserPrefix|..|UserPrefix| + |userId|] == userId && m[k..] == gymId
  {
    var p := UserPrefix + userId;
    var a := p + AlreadyMember;
    SplitConcat(UserPrefix, userId);
    SplitConcat(p, AlreadyMember);
    SplitConcat(a, gymId);
    assert (a + gymId)[|UserPrefix|..|p|] == a[|UserPrefix|..|p|] == p[|UserPrefix|..];
  }
}
