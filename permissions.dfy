/** The owner-or-staff permission on seller-scoped endpoints, as two pure
    decisions over ids and the staff flag. */
module Permissions {
  import opened Models

  datatype HttpMethod = GET | HEAD | OPTIONS | POST | PUT | PATCH | DELETE

  /** The read-only methods. */
  predicate IsSafe(m: HttpMethod)
  {
    m == GET || m == HEAD || m == OPTIONS
  }

  /** `Raises` is the exception the check throws instead of answering: the
      path has no integer seller id, or the caller has no seller. */
  datatype Decision = Allow | Deny | Raises

  /** Request-level check. `pathSeller` is the seller id parsed from the
      URL (None when absent or not an integer); `caller` is the caller's
      seller (None when the user has none). The path is parsed first, then
      the caller's seller is read, so both faults win over the staff flag. */
  function HasPermission(m: HttpMethod, caller: Option<SellerId>, isStaff: bool, pathSeller: Option<int>): (d: Decision)
    ensures d == Raises <==> pathSeller.None? || caller.None?
  {
    if pathSeller.None? || caller.None? then Raises
    else if IsSafe(m) then (if caller.value == pathSeller.value || isStaff then Allow else Deny)
    else if caller.value == pathSeller.value then Allow else Deny
  }

  /** Object-level check: the object's seller against the caller's seller,
      whatever the method. */
  function HasObjectPermission(objSeller: SellerId, caller: Option<SellerId>, isStaff: bool): (d: Decision)
    ensures d == Raises <==> caller.None?
  {
    if caller.None? then Raises
    else if objSeller == caller.value || isStaff then Allow else Deny
  }

  /** For a read, access is granted iff the caller owns the path or is staff. */
  lemma SafeAllowsOwnerOrStaff(m: HttpMethod, caller: SellerId, isStaff: bool, pathSeller: int)
    requires IsSafe(m)
    ensures HasPermission(m, Some(caller), isStaff, Some(pathSeller)) == Allow <==> caller == pathSeller || isStaff
  {
  }

  /** For a write, access is granted iff the caller owns the path; the staff
      flag makes no difference. */
  lemma UnsafeAllowsOwnerOnly(m: HttpMethod, caller: SellerId, isStaff: bool, pathSeller: int)
    requires !IsSafe(m)
    ensures HasPermission(m, Some(caller), isStaff, Some(pathSeller)) == Allow <==> caller == pathSeller
    ensures HasPermission(m, Some(caller), isStaff, Some(pathSeller)) ==
            HasPermission(m, Some(caller), false, Some(pathSeller))
  {
  }

  /** Whoever may write to a path may also read it. */
  lemma WriteImpliesRead(w: HttpMethod, r: HttpMethod, caller: Option<SellerId>, isStaff: bool, pathSeller: Option<int>)
    requires !IsSafe(w) && IsSafe(r)
    requires HasPermission(w, caller, isStaff, pathSeller) == Allow
    ensures HasPermission(r, caller, isStaff, pathSeller) == Allow
  {
  }

  /** The owner passes the request-level check for every method and the
      object-level check for its own objects. */
  lemma OwnerAlwaysAllowed(m: HttpMethod, owner: SellerId, isStaff: bool)
    ensures HasPermission(m, Some(owner), isStaff, Some(owner)) == Allow
    ensures HasObjectPermission(owner, Some(owner), isStaff) == Allow
  {
  }

  /** Object-level access does not depend on the method, and on a read of
      an object under its own seller's path the two checks agree. */
  lemma ObjectCheckAgreesWithSafeRequestCheck(m: HttpMethod, objSeller: SellerId, caller: Option<SellerId>, isStaff: bool)
    requires IsSafe(m)
    ensures HasPermission(m, caller, isStaff, Some(objSeller)) == HasObjectPermission(objSeller, caller, isStaff)
  {
  }
}
