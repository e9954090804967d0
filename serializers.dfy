/** The serializers behind login and password reset.

    - `AdvancedAuthTokenSerializer.validate`: an access code logs in on its own; without
      one, the parent class's user name and password check decides.
    - `RequestPasswordResetSerializer`: exactly one of email or phone; reuse an open
      reset request for that identifier, or create one.
    - `PasswordResetSerializer`: the two passwords must agree and the OTP must name an
      open request; consuming it sets the password and closes the request together.

    The specification functions (`RequestReset`, `ResetPassword`) take the tables as
    values. The methods (`CreateResetRequest`, `PasswordResetCreate`) run the same steps
    on a `Database`, and their contracts tie the two together. */
module Serializers {
  import opened Base
  import opened Models
  import opened Store

  const UnableToLogIn := "Unable to log in with provided credentials."
  const NeitherIdentifier := "You should provide either email or phone"
  const BothIdentifiers := "You should provide either email or phone, not both."
  const NoSuchUser := "User doesn't exist."
  const PasswordsDontMatch := "passwords don't match"
  const ResetExpired := "Password reset expired"
  const ResetNotFound := "Password Reset Request not found"

  // ---------------------------------------------------------------- login

  /** The fields of the login form; each may be missing. */
  datatype LoginAttrs = LoginAttrs(username: Option<string>, password: Option<string>, accessCode: Option<string>)

  function AccessCodeMatcher(code: Option<string>): User -> bool {
    (u: User) => u.accessCode == code
  }

  /** `AdvancedAuthTokenSerializer.validate`. `resolve` is the parent class's `validate`
      (user name and password), which is not part of this model. */
  function ValidateLogin(attrs: LoginAttrs, users: seq<User>, resolve: LoginAttrs -> Result<User, Failure>): (r: Result<User, Failure>)
    ensures !Truthy(attrs.accessCode) ==> r == resolve(attrs)
    ensures Truthy(attrs.accessCode) && r.Ok? ==>
              && r.value in users && r.value.accessCode == attrs.accessCode
              && forall j :: 0 <= j < |users| && users[j].accessCode == attrs.accessCode ==> users[j] == r.value
    ensures Truthy(attrs.accessCode) ==>
              (r == Err(ValidationError(UnableToLogIn)) <==> forall u :: u in users ==> u.accessCode != attrs.accessCode)
    ensures Truthy(attrs.accessCode) ==>
              (r == Err(Unhandled("MultipleObjectsReturned")) <==>
                 exists i, j :: 0 <= i < j < |users| && users[i].accessCode == attrs.accessCode && users[j].accessCode == attrs.accessCode)
  {
    if Truthy(attrs.accessCode) then
      match Get(users, AccessCodeMatcher(attrs.accessCode))
      case Found(i) => Ok(users[i])
      case DoesNotExist =>
        assert forall u :: u in users ==> u.accessCode != attrs.accessCode by {
          forall u | u in users ensures u.accessCode != attrs.accessCode {
            var j :| 0 <= j < |users| && users[j] == u;
            assert !AccessCodeMatcher(attrs.accessCode)(users[j]);
          }
        }
        Err(ValidationError(UnableToLogIn))
      case MultipleObjectsReturned => Err(Unhandled("MultipleObjectsReturned"))
    else resolve(attrs)
  }

  /** With an access code, the password plays no part and the parent check is never
      consulted: the user holding that code is logged in, whatever password was sent. */
  lemma AccessCodeSkipsPassword(attrs: LoginAttrs, password: Option<string>, users: seq<User>,
                                resolve: LoginAttrs -> Result<User, Failure>, resolve': LoginAttrs -> Result<User, Failure>)
    requires Truthy(attrs.accessCode)
    ensures ValidateLogin(attrs.(password := password), users, resolve') == ValidateLogin(attrs, users, resolve)
  {
  }

  /** The access-code path does not look at `is_active`: the only holder of a code logs in
      even when the account is inactive. */
  lemma AccessCodeAdmitsInactive(attrs: LoginAttrs, u: User, resolve: LoginAttrs -> Result<User, Failure>)
    requires Truthy(attrs.accessCode) && u.accessCode == attrs.accessCode && !u.isActive
    ensures ValidateLogin(attrs, [u], resolve) == Ok(u)
  {
    assert AccessCodeMatcher(attrs.accessCode)([u][0]);
  }

  // ---------------------------------------------------------------- reset request

  /** The fields of the reset-request form. */
  datatype ResetRequestAttrs = ResetRequestAttrs(email: Option<string>, phone: Option<string>)

  /** `RequestPasswordResetSerializer.validate`. */
  function ValidateResetRequest(attrs: ResetRequestAttrs): (r: Result<ResetRequestAttrs, Failure>)
    ensures r.Ok? <==> Truthy(attrs.email) != Truthy(attrs.phone)
    ensures r.Ok? ==> r.value == attrs
    ensures !Truthy(attrs.email) && !Truthy(attrs.phone) ==> r == Err(ValidationError(NeitherIdentifier))
    ensures Truthy(attrs.email) && Truthy(attrs.phone) ==> r == Err(ValidationError(BothIdentifiers))
  {
    if !Truthy(attrs.email) && !Truthy(attrs.phone) then Err(ValidationError(NeitherIdentifier))
    else if Truthy(attrs.email) && Truthy(attrs.phone) then Err(ValidationError(BothIdentifiers))
    else Ok(attrs)
  }

  /** What a reset request is for: the email when one is given, otherwise the phone. */
  datatype Identifier = ByEmail(email: string) | ByPhone(phone: string)

  function IdentifierOf(attrs: ResetRequestAttrs): (ident: Identifier)
    requires Truthy(attrs.email) || Truthy(attrs.phone)
    ensures Truthy(attrs.email) ==> ident == ByEmail(attrs.email.value)
    ensures !Truthy(attrs.email) ==> ident == ByPhone(attrs.phone.value)
  {
    if Truthy(attrs.email) then ByEmail(attrs.email.value) else ByPhone(attrs.phone.value)
  }

  predicate UserHas(u: User, ident: Identifier) {
    match ident
    case ByEmail(e) => u.email == Some(e)
    case ByPhone(p) => u.phone == Some(p)
  }

  predicate RecordFor(v: Verification, ident: Identifier) {
    match ident
    case ByEmail(e) => v.email == Some(e)
    case ByPhone(p) => v.phone == Some(p)
  }

  function UserMatcher(ident: Identifier): User -> bool {
    (u: User) => UserHas(u, ident)
  }

  /** `filter(Q(<identifier>))`: every record for the identifier, expired or not. */
  function RecordMatcher(ident: Identifier): Verification -> bool {
    (v: Verification) => RecordFor(v, ident)
  }

  /** `filter(Q(<identifier>), expired=False)`. */
  function OpenRecordMatcher(ident: Identifier): Verification -> bool {
    (v: Verification) => RecordFor(v, ident) && !v.expired
  }

  function OtpMatcher(otp: string): Verification -> bool {
    (v: Verification) => v.otp == otp
  }

  /** `Verification.objects.create(email=...)` or `create(phone=...)`: the other identifier
      is empty, the record is open, and the OTP is the generated one. */
  function NewRecord(id: nat, ident: Identifier, otp: string): (v: Verification)
    ensures RecordFor(v, ident) && !v.expired && v.id == id && v.otp == otp
  {
    match ident
    case ByEmail(e) => Verification(id, Some(e), None, otp, false)
    case ByPhone(p) => Verification(id, None, Some(p), otp, false)
  }

  /** The outcome of a reset request and the verification table after it. */
  datatype RequestStep = RequestStep(result: Result<Verification, Failure>, verifications: seq<Verification>, nextId: nat)

  /** `RequestPasswordResetSerializer.create`, on validated data, with `otp` the value
      `generate_otp` gives the new record. A generated OTP that another record already has
      breaks the unique constraint, and the `IntegrityError` escapes. */
  function RequestReset(users: seq<User>, vs: seq<Verification>, nextId: nat, attrs: ResetRequestAttrs, otp: string): (s: RequestStep)
    requires Truthy(attrs.email) || Truthy(attrs.phone)
    ensures s.verifications == vs || (s.result.Ok? && s.verifications == vs + [s.result.value])
    ensures s.verifications == vs <==> s.nextId == nextId
    ensures s.verifications != vs ==> s.result.value == NewRecord(nextId, IdentifierOf(attrs), otp) && s.nextId == nextId + 1
    ensures s.result.Ok? ==> RecordFor(s.result.value, IdentifierOf(attrs)) && s.result.value in s.verifications
  {
    var ident := IdentifierOf(attrs);
    if !Exists(users, UserMatcher(ident)) then
      RequestStep(Err(ValidationError(NoSuchUser)), vs, nextId)
    else if Exists(vs, OpenRecordMatcher(ident)) then
      ExistsWiden(vs, OpenRecordMatcher(ident), RecordMatcher(ident));
      var i := First(vs, RecordMatcher(ident)).value;
      RequestStep(Ok(vs[i]), vs, nextId)
    else if Exists(vs, OtpMatcher(otp)) then
      RequestStep(Err(Unhandled("IntegrityError")), vs, nextId)
    else
      var v := NewRecord(nextId, ident, otp);
      RequestStep(Ok(v), vs + [v], nextId + 1)
  }

  /** A request keeps the table in key order, below the next key, with unique OTPs and at
      most one open record per email and per phone. */
  lemma RequestResetKeepsTableValid(users: seq<User>, vs: seq<Verification>, nextId: nat, attrs: ResetRequestAttrs, otp: string)
    requires Truthy(attrs.email) || Truthy(attrs.phone)
    requires VerificationsOrdered(vs, nextId) && OtpsUnique(vs) && OneOpenPerIdentifier(vs)
    ensures var s := RequestReset(users, vs, nextId, attrs, otp);
            VerificationsOrdered(s.verifications, s.nextId) && OtpsUnique(s.verifications)
            && OneOpenPerIdentifier(s.verifications)
  {
    var s := RequestReset(users, vs, nextId, attrs, otp);
    if s.verifications != vs {
      var all := s.verifications;
      var ident := IdentifierOf(attrs);
      assert forall i :: 0 <= i < |vs| ==> all[i] == vs[i];
      forall i | 0 <= i < |vs| && !vs[i].expired ensures !RecordFor(vs[i], ident) {
        assert !OpenRecordMatcher(ident)(vs[i]);
      }
      assert forall i :: 0 <= i < |vs| ==> vs[i].otp != otp by {
        assert !Exists(vs, OtpMatcher(otp));
        forall i | 0 <= i < |vs| ensures vs[i].otp != otp {
          assert !OtpMatcher(otp)(vs[i]);
        }
      }
    }
  }

  /** Under the invariant, an identifier has at most one open record. */
  lemma AtMostOneOpenRecord(vs: seq<Verification>, ident: Identifier, i: nat, j: nat)
    requires OneOpenPerIdentifier(vs)
    requires i < |vs| && RecordFor(vs[i], ident) && !vs[i].expired
    requires j < |vs| && RecordFor(vs[j], ident) && !vs[j].expired
    ensures i == j
  {
  }

  /** The identifier must belong to a user; otherwise nothing is stored. */
  lemma UnknownIdentifierChangesNothing(users: seq<User>, vs: seq<Verification>, nextId: nat, attrs: ResetRequestAttrs, otp: string)
    requires Truthy(attrs.email) || Truthy(attrs.phone)
    requires forall u :: u in users ==> !UserHas(u, IdentifierOf(attrs))
    ensures RequestReset(users, vs, nextId, attrs, otp) == RequestStep(Err(ValidationError(NoSuchUser)), vs, nextId)
  {
    var ident := IdentifierOf(attrs);
    forall j | 0 <= j < |users| ensures !UserMatcher(ident)(users[j]) {
      assert users[j] in users;
    }
  }

  /** A new record is added exactly when the identifier belongs to a user, it has no open
      record, and the generated OTP is fresh. */
  lemma RecordAddedExactlyWhen(users: seq<User>, vs: seq<Verification>, nextId: nat, attrs: ResetRequestAttrs, otp: string)
    requires Truthy(attrs.email) || Truthy(attrs.phone)
    ensures var ident := IdentifierOf(attrs);
            RequestReset(users, vs, nextId, attrs, otp).verifications != vs
            <==> && (exists j :: 0 <= j < |users| && UserHas(users[j], ident))
                 && (forall j :: 0 <= j < |vs| ==> !(RecordFor(vs[j], ident) && !vs[j].expired))
                 && (forall j :: 0 <= j < |vs| ==> vs[j].otp != otp)
  {
    var ident := IdentifierOf(attrs);
    assert Exists(users, UserMatcher(ident)) <==> exists j :: 0 <= j < |users| && UserHas(users[j], ident) by {
      if exists j :: 0 <= j < |users| && UserHas(users[j], ident) {
        var j :| 0 <= j < |users| && UserHas(users[j], ident);
        assert UserMatcher(ident)(users[j]);
      }
    }
    assert Exists(vs, OpenRecordMatcher(ident)) <==> exists j :: 0 <= j < |vs| && RecordFor(vs[j], ident) && !vs[j].expired by {
      if exists j :: 0 <= j < |vs| && RecordFor(vs[j], ident) && !vs[j].expired {
        var j :| 0 <= j < |vs| && RecordFor(vs[j], ident) && !vs[j].expired;
        assert OpenRecordMatcher(ident)(vs[j]);
      }
    }
    assert Exists(vs, OtpMatcher(otp)) <==> exists j :: 0 <= j < |vs| && vs[j].otp == otp by {
      if exists j :: 0 <= j < |vs| && vs[j].otp == otp {
        var j :| 0 <= j < |vs| && vs[j].otp == otp;
        assert OtpMatcher(otp)(vs[j]);
      }
    }
  }

  /** When an open record exists, the request returns the identifier's FIRST record, open
      or not: the re-query drops the `expired=False` filter. */
  lemma ReuseReturnsFirstRecord(users: seq<User>, vs: seq<Verification>, nextId: nat, attrs: ResetRequestAttrs, otp: string)
    requires Truthy(attrs.email) || Truthy(attrs.phone)
    requires Exists(users, UserMatcher(IdentifierOf(attrs)))
    requires Exists(vs, OpenRecordMatcher(IdentifierOf(attrs)))
    ensures var s := RequestReset(users, vs, nextId, attrs, otp);
            var i := First(vs, RecordMatcher(IdentifierOf(attrs)));
            && s.verifications == vs && i.Some? && s.result == Ok(vs[i.value])
            && forall j :: 0 <= j < i.value ==> !RecordFor(vs[j], IdentifierOf(attrs))
  {
    ExistsWiden(vs, OpenRecordMatcher(IdentifierOf(attrs)), RecordMatcher(IdentifierOf(attrs)));
  }

  /** Asking twice in a row. The second request stores nothing. It returns what the first
      returned exactly when the first reused an open record or the identifier had no
      record before; otherwise (the first created a record, but an older, expired one
      exists) it returns that expired record, whose `send` delivers nothing. */
  lemma {:induction false} RepeatedRequest(users: seq<User>, vs: seq<Verification>, nextId: nat, attrs: ResetRequestAttrs, otp: string, otp': string)
    requires Truthy(attrs.email) || Truthy(attrs.phone)
    requires RequestReset(users, vs, nextId, attrs, otp).result.Ok?
    ensures var s := RequestReset(users, vs, nextId, attrs, otp);
            var s' := RequestReset(users, s.verifications, s.nextId, attrs, otp');
            && s'.verifications == s.verifications
            && (s'.result == s.result <==> Exists(vs, OpenRecordMatcher(IdentifierOf(attrs))) || !Exists(vs, RecordMatcher(IdentifierOf(attrs))))
            && (s'.result != s.result ==> s'.result.Ok? && s'.result.value.expired && SendBranches(s'.result.value) == [])
  {
    var ident := IdentifierOf(attrs);
    var s := RequestReset(users, vs, nextId, attrs, otp);
    if !Exists(vs, OpenRecordMatcher(ident)) {
      var n := s.result.value;
      assert s.verifications == vs + [n];
      assert OpenRecordMatcher(ident)(s.verifications[|vs|]);
      ExistsWiden(s.verifications, OpenRecordMatcher(ident), RecordMatcher(ident));
      FirstOfAppend(vs, n, RecordMatcher(ident));
      match First(vs, RecordMatcher(ident))
      case Some(i) =>
        assert !OpenRecordMatcher(ident)(vs[i]);
        assert vs[i].expired && !n.expired;
      case None =>
    }
  }

  // ---------------------------------------------------------------- reset consume

  /** The fields of the reset form, all required. */
  datatype PasswordResetAttrs = PasswordResetAttrs(otp: string, password: string, confirmPassword: string)

  /** `PasswordResetSerializer.validate`: the record the OTP names, which becomes
      `self.verification`. */
  function ValidatePasswordReset(attrs: PasswordResetAttrs, vs: seq<Verification>): (r: Result<Verification, Failure>)
    ensures attrs.password != attrs.confirmPassword ==> r == Err(ValidationError(PasswordsDontMatch))
    ensures r.Ok? ==> attrs.password == attrs.confirmPassword && r.value in vs && r.value.otp == attrs.otp && !r.value.expired
    ensures attrs.password == attrs.confirmPassword ==>
              (r == Err(ValidationError(ResetNotFound)) <==> forall v :: v in vs ==> v.otp != attrs.otp)
    ensures r == Err(ValidationError(ResetExpired)) ==> exists j :: 0 <= j < |vs| && vs[j].otp == attrs.otp && vs[j].expired
    ensures OtpsUnique(vs) && attrs.password == attrs.confirmPassword ==>
              && (r.Ok? <==> exists j :: 0 <= j < |vs| && vs[j].otp == attrs.otp && !vs[j].expired)
              && (r == Err(ValidationError(ResetExpired)) <==> exists j :: 0 <= j < |vs| && vs[j].otp == attrs.otp && vs[j].expired)
  {
    if attrs.password != attrs.confirmPassword then Err(ValidationError(PasswordsDontMatch))
    else
      match Get(vs, OtpMatcher(attrs.otp))
      case Found(i) =>
        assert forall j :: 0 <= j < |vs| && vs[j].otp == attrs.otp ==> j == i by {
          forall j | 0 <= j < |vs| && vs[j].otp == attrs.otp ensures j == i {
            assert OtpMatcher(attrs.otp)(vs[j]);
          }
        }
        if vs[i].expired then Err(ValidationError(ResetExpired)) else Ok(vs[i])
      case DoesNotExist =>
        assert forall v :: v in vs ==> v.otp != attrs.otp by {
          forall v | v in vs ensures v.otp != attrs.otp {
            var j :| 0 <= j < |vs| && vs[j] == v;
            assert !OtpMatcher(attrs.otp)(vs[j]);
          }
        }
        Err(ValidationError(ResetNotFound))
      case MultipleObjectsReturned =>
        assert !OtpsUnique(vs);
        Err(Unhandled("MultipleObjectsReturned"))
  }

  /** Different passwords are refused whatever the table holds: no lookup happens. */
  lemma MismatchFailsFirst(attrs: PasswordResetAttrs, vs: seq<Verification>, vs': seq<Verification>)
    requires attrs.password != attrs.confirmPassword
    ensures ValidatePasswordReset(attrs, vs) == ValidatePasswordReset(attrs, vs') == Err(ValidationError(PasswordsDontMatch))
  {
  }

  /** `User.objects.get(email=...)` when the record has an email, else
      `User.objects.get(phone=...)`; an empty phone matches the users without one, as
      `phone=None` does. */
  function OwnerMatcher(v: Verification): (m: User -> bool)
    ensures Truthy(v.email) ==> forall u :: m(u) <==> u.email == v.email
    ensures !Truthy(v.email) ==> forall u :: m(u) <==> u.phone == v.phone
  {
    if Truthy(v.email) then (u: User) => u.email == v.email else (u: User) => u.phone == v.phone
  }

  /** The consume looks for the users the request checked for: the owner of a record a
      request created is exactly a user with the request's identifier. */
  lemma OwnerOfNewRecord(id: nat, attrs: ResetRequestAttrs, otp: string, u: User)
    requires Truthy(attrs.email) || Truthy(attrs.phone)
    ensures OwnerMatcher(NewRecord(id, IdentifierOf(attrs), otp))(u) <==> UserHas(u, IdentifierOf(attrs))
  {
  }

  /** The tables after a consume, and the user it returns or the exception it raises. */
  datatype ResetOutcome = ResetOutcome(result: Result<User, Failure>, users: seq<User>, verifications: seq<Verification>)

  /** `PasswordResetSerializer.create` under `@atomic`: the owner gets the new password and
      the record is closed, or, when the owner lookup raises, nothing is written. */
  function ResetPassword(users: seq<User>, vs: seq<Verification>, v: Verification, password: string, hasher: Hasher): (o: ResetOutcome)
    ensures o.result.Err? ==> o.users == users && o.verifications == vs
    ensures o.result.Ok? ==>
              && |o.users| == |users|
              && (exists i :: 0 <= i < |users| && OwnerMatcher(v)(users[i])
                              && o.users[i] == o.result.value == users[i].(password := hasher.encode(password))
                              && forall j :: 0 <= j < |users| && j != i ==> o.users[j] == users[j] && !OwnerMatcher(v)(users[j]))
              && |o.verifications| == |vs|
              && forall j :: 0 <= j < |vs| ==> o.verifications[j] == if vs[j].id == v.id then v.(expired := true) else vs[j]
    ensures o.result.Ok? && Sound(hasher) ==> hasher.verify(password, o.result.value.password)
  {
    match Get(users, OwnerMatcher(v))
    case Found(i) =>
      var user := users[i].(password := hasher.encode(password));
      ResetOutcome(Ok(user), users[i := user], SaveVerification(vs, v.(expired := true)))
    case DoesNotExist => ResetOutcome(Err(Unhandled("DoesNotExist")), users, vs)
    case MultipleObjectsReturned => ResetOutcome(Err(Unhandled("MultipleObjectsReturned")), users, vs)
  }

  /** A consume keeps the table in key order with unique OTPs and at most one open record
      per email and per phone. */
  lemma ResetPasswordKeepsTableValid(users: seq<User>, vs: seq<Verification>, nextId: nat, v: Verification, password: string, hasher: Hasher)
    requires VerificationsOrdered(vs, nextId) && OtpsUnique(vs) && OneOpenPerIdentifier(vs) && v in vs
    ensures var o := ResetPassword(users, vs, v, password, hasher);
            VerificationsOrdered(o.verifications, nextId) && OtpsUnique(o.verifications)
            && OneOpenPerIdentifier(o.verifications)
  {
    var o := ResetPassword(users, vs, v, password, hasher);
    if o.result.Ok? {
      CloseKeepsTableValid(vs, nextId, v);
    }
  }

  /** Saving a record of the table as expired changes only that row's flag, so the
      table constraints carry over. */
  lemma CloseKeepsTableValid(vs: seq<Verification>, nextId: nat, v: Verification)
    requires VerificationsOrdered(vs, nextId) && OtpsUnique(vs) && OneOpenPerIdentifier(vs) && v in vs
    ensures var r := SaveVerification(vs, v.(expired := true));
            VerificationsOrdered(r, nextId) && OtpsUnique(r) && OneOpenPerIdentifier(r)
  {
    var r := SaveVerification(vs, v.(expired := true));
    var k :| 0 <= k < |vs| && vs[k] == v;
    forall j | 0 <= j < |vs| ensures r[j] == vs[j] || r[j] == vs[j].(expired := true) {
      if vs[j].id == v.id {
        assert j == k;
      }
    }
  }

  /** Once consumed, the same OTP is refused as expired, whatever passwords come with it. */
  lemma ConsumedOtpFailsAsExpired(users: seq<User>, vs: seq<Verification>, nextId: nat, attrs: PasswordResetAttrs, hasher: Hasher, password: string)
    requires VerificationsOrdered(vs, nextId) && OtpsUnique(vs) && OneOpenPerIdentifier(vs)
    requires ValidatePasswordReset(attrs, vs).Ok?
    requires ResetPassword(users, vs, ValidatePasswordReset(attrs, vs).value, attrs.password, hasher).result.Ok?
    ensures var o := ResetPassword(users, vs, ValidatePasswordReset(attrs, vs).value, attrs.password, hasher);
            ValidatePasswordReset(PasswordResetAttrs(attrs.otp, password, password), o.verifications)
            == Err(ValidationError(ResetExpired))
  {
    var v := ValidatePasswordReset(attrs, vs).value;
    var o := ResetPassword(users, vs, v, attrs.password, hasher);
    ResetPasswordKeepsTableValid(users, vs, nextId, v, attrs.password, hasher);
    var k :| 0 <= k < |vs| && vs[k] == v;
    assert o.verifications[k].otp == attrs.otp && o.verifications[k].expired;
  }

  // ---------------------------------------------------------------- on the database

  /** `RequestPasswordResetSerializer.create` on the database, then `instance.send()`,
      whose branches are returned as `delivered`. */
  method CreateResetRequest(db: Database, attrs: ResetRequestAttrs, otp: string)
    returns (r: Result<Verification, Failure>, delivered: seq<Channel>)
    requires db.Valid()
    requires Truthy(attrs.email) || Truthy(attrs.phone)
    modifies db
    ensures var s := RequestReset(old(db.users), old(db.verifications), old(db.nextVerificationId), attrs, otp);
            r == s.result && db.verifications == s.verifications && db.nextVerificationId == s.nextId
    ensures db.users == old(db.users) && db.tokens == old(db.tokens)
    ensures delivered == if r.Ok? then SendBranches(r.value) else []
    ensures db.Valid()
  {
    RequestResetKeepsTableValid(db.users, db.verifications, db.nextVerificationId, attrs, otp);
    var ident := IdentifierOf(attrs);
    if !Exists(db.users, UserMatcher(ident)) {
      r, delivered := Err(ValidationError(NoSuchUser)), [];
      return;
    }
    var instance: Verification;
    if Exists(db.verifications, OpenRecordMatcher(ident)) {
      ExistsWiden(db.verifications, OpenRecordMatcher(ident), RecordMatcher(ident));
      instance := db.verifications[First(db.verifications, RecordMatcher(ident)).value];
    } else {
      if Exists(db.verifications, OtpMatcher(otp)) {
        r, delivered := Err(Unhandled("IntegrityError")), [];
        return;
      }
      instance := NewRecord(db.nextVerificationId, ident, otp);
      db.verifications := db.verifications + [instance];
      db.nextVerificationId := db.nextVerificationId + 1;
    }
    delivered := SendBranches(instance);
    r := Ok(instance);
  }

  /** `PasswordResetSerializer.create` on the database, for the record `validate` found. */
  method PasswordResetCreate(db: Database, v: Verification, password: string, hasher: Hasher)
    returns (r: Result<User, Failure>)
    requires db.Valid() && v in db.verifications
    modifies db
    ensures var o := ResetPassword(old(db.users), old(db.verifications), v, password, hasher);
            r == o.result && db.users == o.users && db.verifications == o.verifications
    ensures db.tokens == old(db.tokens) && db.nextVerificationId == old(db.nextVerificationId)
    ensures db.Valid()
  {
    ResetPasswordKeepsTableValid(db.users, db.verifications, db.nextVerificationId, v, password, hasher);
    var lookup := Get(db.users, OwnerMatcher(v));
    match lookup {
      case DoesNotExist =>
        r := Err(Unhandled("DoesNotExist"));
      case MultipleObjectsReturned =>
        r := Err(Unhandled("MultipleObjectsReturned"));
      case Found(i) =>
        var user := db.users[i].(password := hasher.encode(password));
        db.users := db.users[i := user];
        db.verifications := SaveVerification(db.verifications, v.(expired := true));
        r := Ok(user);
    }
  }
}
