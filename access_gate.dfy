/**
 * The rule the content server applies before it reads any byte of a
 * course asset: an unlocked asset is public, a locked one is served only
 * to the course's staff and to users enrolled in the course.
 */
module AccessGate {

  /**
   * Who asks. Whether a logged-in user is enrolled in the asset's course
   * and whether they are staff come from the identity and enrollment
   * services, outside this model.
   */
  datatype Requester = Anonymous | User(enrolled: bool, staff: bool)

  datatype Decision = Allow | Deny

  /** The HTTP status a refusal is mapped to. */
  const Forbidden: nat := 403

  /**
   * Whether `requester` may read an asset with the given lock flag: an
   * unlocked asset is always allowed, and a locked one only ever to a
   * logged-in user.
   */
  function Decide(requester: Requester, locked: bool): (d: Decision)
    ensures !locked ==> d == Allow
    ensures d == Allow && locked ==> requester.User?
  {
    if !locked then Allow
    else
      match requester
      case Anonymous => Deny
      case User(enrolled, staff) => if staff || enrolled then Allow else Deny
  }

  /** An unlocked asset is served to everyone, anonymous clients included. */
  lemma {:induction false} UnlockedIsPublic(requester: Requester)
    ensures Decide(requester, false) == Allow
  {
  }

  /**
   * A locked asset is served exactly to a logged-in user who is staff or
   * enrolled; an anonymous client and a user who is neither are refused.
   */
  lemma {:induction false} LockedAllowIff(requester: Requester)
    ensures Decide(requester, true) == Allow <==>
              requester.User? && (requester.enrolled || requester.staff)
  {
  }

  /** Whom a requester's rights include: anyone, or a user with at least those flags. */
  predicate AtLeastAsPrivileged(stronger: Requester, weaker: Requester) {
    match weaker
    case Anonymous => true
    case User(enrolled, staff) =>
      stronger.User? && (enrolled ==> stronger.enrolled) && (staff ==> stronger.staff)
  }

  /** Logging in, enrolling or becoming staff never takes access away. */
  lemma {:induction false} MorePrivilegeNeverDenied(stronger: Requester, weaker: Requester, locked: bool)
    requires AtLeastAsPrivileged(stronger, weaker)
    requires Decide(weaker, locked) == Allow
    ensures Decide(stronger, locked) == Allow
  {
  }

  /** Locking an asset only ever takes access away, never grants it. */
  lemma {:induction false} LockingOnlyRestricts(requester: Requester)
    ensures Decide(requester, true) == Allow ==> Decide(requester, false) == Allow
  {
  }
}
