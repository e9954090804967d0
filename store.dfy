/** The database as the core sees it: three tables and Django's query primitives over
    them. Rows are kept in primary-key order, so `.first()` is the earliest match. */
module Store {
  import opened Base
  import opened Models

  /** What a Django `.get(...)` ends in. */
  datatype Lookup = Found(index: nat) | DoesNotExist | MultipleObjectsReturned

  /** `.filter(p).exists()`. */
  predicate Exists<T>(rows: seq<T>, p: T -> bool) {
    exists j :: 0 <= j < |rows| && p(rows[j])
  }

  /** `.filter(p).first()`: the index of the earliest row satisfying `p`. */
  function First<T>(rows: seq<T>, p: T -> bool): (r: Option<nat>)
    ensures r.Some? ==> r.value < |rows| && p(rows[r.value])
    ensures r.Some? ==> forall j :: 0 <= j < r.value ==> !p(rows[j])
    ensures r.None? <==> !Exists(rows, p)
  {
    if rows == [] then None
    else if p(rows[0]) then Some(0)
    else
      match First(rows[1..], p)
      case None => (assert forall j :: 1 <= j < |rows| ==> rows[j] == rows[1..][j - 1]; None)
      case Some(i) => Some(i + 1)
  }

  /** `.get(p)`: the one row satisfying `p`, or which of the two exceptions it raises. */
  function Get<T>(rows: seq<T>, p: T -> bool): (r: Lookup)
    ensures r.Found? ==> r.index < |rows| && p(rows[r.index])
    ensures r.Found? ==> forall j :: 0 <= j < |rows| && j != r.index ==> !p(rows[j])
    ensures r.DoesNotExist? <==> !Exists(rows, p)
    ensures r.MultipleObjectsReturned? <==> exists i, j :: 0 <= i < j < |rows| && p(rows[i]) && p(rows[j])
  {
    match First(rows, p)
    case None => DoesNotExist
    case Some(i) =>
      var later := First(rows[i + 1..], p);
      if later.Some? then
        assert rows[i + 1..][later.value] == rows[i + 1 + later.value];
        MultipleObjectsReturned
      else
        assert forall j :: i < j < |rows| ==> rows[j] == rows[i + 1..][j - i - 1];
        Found(i)
  }

  /** The first match is at `i` exactly when `i` matches and nothing before it does. */
  lemma FirstAt<T>(rows: seq<T>, p: T -> bool, i: nat)
    requires i < |rows| && p(rows[i])
    requires forall j :: 0 <= j < i ==> !p(rows[j])
    ensures First(rows, p) == Some(i)
  {
    assert p(rows[i]);
  }

  /** Appending a row keeps an earlier first match, and makes the new row the first
      match when there was none. */
  lemma FirstOfAppend<T>(rows: seq<T>, row: T, p: T -> bool)
    ensures First(rows, p).Some? ==> First(rows + [row], p) == First(rows, p)
    ensures First(rows, p).None? && p(row) ==> First(rows + [row], p) == Some(|rows|)
  {
    var all := rows + [row];
    assert forall j :: 0 <= j < |rows| ==> all[j] == rows[j];
    if First(rows, p).Some? {
      FirstAt(all, p, First(rows, p).value);
    } else if p(row) {
      FirstAt(all, p, |rows|);
    }
  }

  /** A `.first()` lookup depends only on which rows the filter admits. */
  lemma {:induction false} FirstCongruent<T>(rows: seq<T>, p: T -> bool, q: T -> bool)
    requires forall x :: p(x) == q(x)
    ensures First(rows, p) == First(rows, q)
  {
    if rows != [] && !p(rows[0]) {
      FirstCongruent(rows[1..], p, q);
    }
  }

  /** So does a `.get()` lookup. */
  lemma GetCongruent<T>(rows: seq<T>, p: T -> bool, q: T -> bool)
    requires forall x :: p(x) == q(x)
    ensures Get(rows, p) == Get(rows, q)
  {
    FirstCongruent(rows, p, q);
    match First(rows, p)
    case None =>
    case Some(i) => FirstCongruent(rows[i + 1..], p, q);
  }

  /** A row admitted by a narrower filter is admitted by a wider one. */
  lemma ExistsWiden<T>(rows: seq<T>, p: T -> bool, q: T -> bool)
    requires Exists(rows, p)
    requires forall x :: p(x) ==> q(x)
    ensures Exists(rows, q)
  {
    var j :| 0 <= j < |rows| && p(rows[j]);
    assert q(rows[j]);
  }

  /** The primary key of `MultiToken` is its key. */
  predicate TokensKeyed(tokens: map<string, MultiToken>) {
    forall k :: k in tokens ==> tokens[k].key == k
  }

  /** Verification rows in primary-key order, all below the next key to hand out. */
  predicate VerificationsOrdered(vs: seq<Verification>, nextId: nat) {
    && (forall i :: 0 <= i < |vs| ==> vs[i].id < nextId)
    && (forall i, j :: 0 <= i < j < |vs| ==> vs[i].id < vs[j].id)
  }

  /** The unique constraint on `Verification.otp`. */
  predicate OtpsUnique(vs: seq<Verification>) {
    forall i, j :: 0 <= i < j < |vs| ==> vs[i].otp != vs[j].otp
  }

  /** At most one open reset request per email and per phone: no two open records share
      an email, or a phone, that is set. */
  predicate OneOpenPerIdentifier(vs: seq<Verification>) {
    forall i, j :: 0 <= i < j < |vs| && !vs[i].expired && !vs[j].expired ==>
      && (vs[i].email.Some? ==> vs[i].email != vs[j].email)
      && (vs[i].phone.Some? ==> vs[i].phone != vs[j].phone)
  }

  /** The user row with primary key `id`, as `select_related('user')` joins it. */
  function UserById(users: seq<User>, id: nat): (r: Option<User>)
    ensures r.Some? ==> r.value in users && r.value.id == id
    ensures r.None? ==> forall u :: u in users ==> u.id != id
  {
    match First(users, (u: User) => u.id == id)
    case None => None
    case Some(i) => Some(users[i])
  }

  /** `instance.save()` for a verification read from the table: an UPDATE of the row with
      the instance's key, which takes its values. */
  function SaveVerification(vs: seq<Verification>, v: Verification): (r: seq<Verification>)
    ensures |r| == |vs|
    ensures forall i :: 0 <= i < |vs| ==> r[i].id == vs[i].id
    ensures forall i :: 0 <= i < |vs| ==> r[i] == if vs[i].id == v.id then v else vs[i]
    ensures (exists i :: 0 <= i < |vs| && vs[i].id == v.id) <==> v in r || v in vs
    ensures forall w :: w in r && w.id != v.id ==> w in vs
  {
    seq(|vs|, i requires 0 <= i < |vs| => if vs[i].id == v.id then v else vs[i])
  }

  /** The tables, with the constraints the database enforces. */
  class Database {
    var users: seq<User>
    var tokens: map<string, MultiToken>
    var verifications: seq<Verification>
    var nextVerificationId: nat

    ghost predicate Valid()
      reads this
    {
      && TokensKeyed(tokens) && VerificationsOrdered(verifications, nextVerificationId)
      && OtpsUnique(verifications) && OneOpenPerIdentifier(verifications)
    }

    constructor (users: seq<User>)
      ensures Valid()
      ensures this.users == users && tokens == map[] && verifications == []
    {
      this.users := users;
      tokens := map[];
      verifications := [];
      nextVerificationId := 1;
    }
  }
}
