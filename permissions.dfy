/** The permission classes: `IsReadOnly`, `IsStaff`, and the combinators `Or` and `And`
    over a list of permissions (which may themselves be combinations). `Other` stands for
    any permission defined elsewhere, such as DRF's `IsAuthenticated`. */
module Permissions {
  import opened Models

  /** The parts of a request a permission looks at. */
  datatype PermRequest = PermRequest(httpMethod: string, user: Principal)

  /** DRF's `SAFE_METHODS`. */
  const SafeMethods: seq<string> := ["GET", "HEAD", "OPTIONS"]

  datatype Permission =
    | IsReadOnly
    | IsStaff
    | Or(perms: seq<Permission>)
    | And(perms: seq<Permission>)
    | Other(check: PermRequest -> bool)

  /** `has_permission(request, view)`. `Or` and `And` are their loops: members are asked
      in order, and the answer is the first `True` (for `Or`) or `False` (for `And`). */
  predicate HasPermission(p: Permission, req: PermRequest)
    decreases p, 1
  {
    match p
    case IsReadOnly => req.httpMethod in SafeMethods
    case IsStaff => req.user.IsAuthenticated() && req.user.user.isStaff
    case Or(perms) => FirstGranting(p, perms, req) < |perms|
    case And(perms) => FirstRefusing(p, perms, req) == |perms|
    case Other(check) => check(req)
  }

  /** The number of members an `Or` asks before one grants: the index of the first that
      grants, or all of them. */
  function FirstGranting(owner: Permission, perms: seq<Permission>, req: PermRequest): (n: nat)
    requires forall j :: 0 <= j < |perms| ==> perms[j] < owner
    ensures n <= |perms|
    ensures forall j :: 0 <= j < n ==> !HasPermission(perms[j], req)
    ensures n < |perms| ==> HasPermission(perms[n], req)
    decreases owner, 0, |perms|
  {
    if perms == [] then 0
    else if HasPermission(perms[0], req) then 0
    else 1 + FirstGranting(owner, perms[1..], req)
  }

  /** The number of members an `And` asks before one refuses: the index of the first that
      refuses, or all of them. */
  function FirstRefusing(owner: Permission, perms: seq<Permission>, req: PermRequest): (n: nat)
    requires forall j :: 0 <= j < |perms| ==> perms[j] < owner
    ensures n <= |perms|
    ensures forall j :: 0 <= j < n ==> HasPermission(perms[j], req)
    ensures n < |perms| ==> !HasPermission(perms[n], req)
    decreases owner, 0, |perms|
  {
    if perms == [] then 0
    else if !HasPermission(perms[0], req) then 0
    else 1 + FirstRefusing(owner, perms[1..], req)
  }

  /** `IsReadOnly` grants exactly GET, HEAD and OPTIONS. */
  lemma ReadOnlyMethods(req: PermRequest)
    ensures HasPermission(IsReadOnly, req) <==> req.httpMethod == "GET" || req.httpMethod == "HEAD" || req.httpMethod == "OPTIONS"
  {
  }

  /** `IsStaff` grants exactly a signed-in staff user. */
  lemma StaffOnly(req: PermRequest)
    ensures HasPermission(IsStaff, req) <==> req.user.SignedIn? && req.user.user.isStaff
  {
  }

  /** `Or` grants iff some member grants; an empty `Or` refuses. */
  lemma OrIsAny(perms: seq<Permission>, req: PermRequest)
    ensures HasPermission(Or(perms), req) <==> exists j :: 0 <= j < |perms| && HasPermission(perms[j], req)
    ensures perms == [] ==> !HasPermission(Or(perms), req)
  {
    var n := FirstGranting(Or(perms), perms, req);
    if exists j :: 0 <= j < |perms| && HasPermission(perms[j], req) {
      var j :| 0 <= j < |perms| && HasPermission(perms[j], req);
      assert n <= j;
    }
  }

  /** `And` grants iff every member grants; an empty `And` grants. */
  lemma AndIsAll(perms: seq<Permission>, req: PermRequest)
    ensures HasPermission(And(perms), req) <==> forall j :: 0 <= j < |perms| ==> HasPermission(perms[j], req)
    ensures perms == [] ==> HasPermission(And(perms), req)
  {
    var n := FirstRefusing(And(perms), perms, req);
    if n < |perms| {
      assert !HasPermission(perms[n], req);
    }
  }

  /** The members after the first that grants are never asked: replacing them does not
      change the answer of an `Or`. */
  lemma {:induction false} OrStopsAtFirstGrant(perms: seq<Permission>, rest: seq<Permission>, req: PermRequest)
    requires FirstGranting(Or(perms), perms, req) < |perms|
    ensures var n := FirstGranting(Or(perms), perms, req);
            FirstGranting(Or(perms[..n + 1] + rest), perms[..n + 1] + rest, req) == n
  {
    var n := FirstGranting(Or(perms), perms, req);
    var ps := perms[..n + 1] + rest;
    FirstGrantingAt(Or(ps), ps, req, n);
  }

  /** An `Or` answers at index `n` when the members before it refuse and it grants. */
  lemma {:induction false} FirstGrantingAt(owner: Permission, perms: seq<Permission>, req: PermRequest, n: nat)
    requires forall j :: 0 <= j < |perms| ==> perms[j] < owner
    requires n < |perms| && HasPermission(perms[n], req)
    requires forall j :: 0 <= j < n ==> !HasPermission(perms[j], req)
    ensures FirstGranting(owner, perms, req) == n
  {
    if n > 0 {
      FirstGrantingAt(owner, perms[1..], req, n - 1);
    }
  }

  /** The members after the first that refuses are never asked: replacing them does not
      change the answer of an `And`. */
  lemma {:induction false} AndStopsAtFirstRefusal(perms: seq<Permission>, rest: seq<Permission>, req: PermRequest)
    requires FirstRefusing(And(perms), perms, req) < |perms|
    ensures var n := FirstRefusing(And(perms), perms, req);
            FirstRefusing(And(perms[..n + 1] + rest), perms[..n + 1] + rest, req) == n
  {
    var n := FirstRefusing(And(perms), perms, req);
    var ps := perms[..n + 1] + rest;
    FirstRefusingAt(And(ps), ps, req, n);
  }

  lemma {:induction false} FirstRefusingAt(owner: Permission, perms: seq<Permission>, req: PermRequest, n: nat)
    requires forall j :: 0 <= j < |perms| ==> perms[j] < owner
    requires n < |perms| && !HasPermission(perms[n], req)
    requires forall j :: 0 <= j < n ==> HasPermission(perms[j], req)
    ensures FirstRefusing(owner, perms, req) == n
  {
    if n > 0 {
      FirstRefusingAt(owner, perms[1..], req, n - 1);
    }
  }
}
