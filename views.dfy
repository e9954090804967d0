/** The API views that change the token and verification tables: login, logout, the OTP
    check, and the two password-reset endpoints. The views run on a `Database`. Random
    values (`Token.generate_key`, `generate_otp`) and the clock are parameters. */
module Views {
  import opened Base
  import opened Models
  import opened Store
  import opened Serializers
  import Validators

  // ---------------------------------------------------------------- login

  /** `s.rsplit('.', 1)` unpacked into two names: `None` when there is no dot, because the
      unpacking then raises. */
  function RSplitDot(s: string): (r: Option<(string, string)>)
    ensures r.None? <==> '.' !in s
    ensures r.Some? ==> r.value.0 + "." + r.value.1 == s && '.' !in r.value.1
  {
    if s == [] then None
    else if s[|s| - 1] == '.' then
      assert s == s[..|s| - 1] + ".";
      Some((s[..|s| - 1], ""))
    else
      match RSplitDot(s[..|s| - 1])
      case None =>
        assert s == s[..|s| - 1] + [s[|s| - 1]];
        None
      case Some((m, f)) =>
        assert s == s[..|s| - 1] + [s[|s| - 1]];
        Some((m, f + [s[|s| - 1]]))
  }

  const NoValidation := "NONE"

  /** `run_custom_validation`. The setting is `settings.MORE_USER_VALIDATION` (`None` when
      unset). `hook(module, func, user)` stands for importing `module` and calling its
      `func` on the user; it gives the exception raised on the way, if any. */
  function RunCustomValidation(setting: Option<string>, hook: (string, string, User) -> Option<Failure>, user: User): (r: Option<Failure>)
    ensures setting.None? || setting.value == NoValidation ==> r.None?
    ensures setting.Some? && setting.value != NoValidation && '.' !in setting.value ==> r == Some(Unhandled("ValueError"))
    ensures setting.Some? && setting.value != NoValidation && '.' in setting.value ==>
              exists m, f :: m + "." + f == setting.value && '.' !in f && r == hook(m, f, user)
  {
    if setting.None? || setting.value == NoValidation then None
    else
      match RSplitDot(setting.value)
      case None => Some(Unhandled("ValueError"))
      case Some((m, f)) => hook(m, f, user)
  }

  /** `update_last_login`: the row with the user's key gets the current time, and only
      `last_login` is written (`save(update_fields=['last_login'])`). */
  function WithLastLogin(users: seq<User>, id: nat, now: int): (r: seq<User>)
    ensures |r| == |users|
    ensures forall i :: 0 <= i < |users| ==> r[i].(lastLogin := users[i].lastLogin) == users[i]
    ensures forall i :: 0 <= i < |users| ==> r[i].lastLogin == if users[i].id == id then Some(now) else users[i].lastLogin
  {
    seq(|users|, i requires 0 <= i < |users| => if users[i].id == id then users[i].(lastLogin := Some(now)) else users[i])
  }

  /** `MultiToken.objects.create(user=user)` with the generated `key`: an insert, which the
      primary key refuses when `key` is taken. */
  function IssueToken(tokens: map<string, MultiToken>, key: string, user: User): (r: Result<map<string, MultiToken>, Failure>)
    ensures r.Err? <==> key in tokens
    ensures r.Err? ==> r.error == Unhandled("IntegrityError")
    ensures r.Ok? ==> r.value.Keys == tokens.Keys + {key} && |r.value| == |tokens| + 1
    ensures r.Ok? ==> forall k :: k in tokens ==> r.value[k] == tokens[k]
    ensures r.Ok? ==> r.value[key].user == user.id && r.value[key].key == key
    ensures r.Ok? && TokensKeyed(tokens) ==> TokensKeyed(r.value)
  {
    if key in tokens then Err(Unhandled("IntegrityError"))
    else Ok(tokens[key := MultiToken(key, user.id, "")])
  }

  /** The login response: the new key, four fields of the user, and its group names. */
  datatype LoginResponse = LoginResponse(token: string, email: Option<string>, phone: Option<string>, id: nat,
                                         selectedLanguage: string, groups: seq<string>)

  /** `LoginAPIView.post`. Validation and the hook run before anything is written. The
      last-login time is written before the token insert, outside any transaction, so it
      stays written when the insert fails. */
  method LoginPost(db: Database, attrs: LoginAttrs, resolve: LoginAttrs -> Result<User, Failure>,
                   setting: Option<string>, hook: (string, string, User) -> Option<Failure>, now: int, key: string)
    returns (r: Result<LoginResponse, Failure>)
    requires db.Valid()
    modifies db
    ensures db.Valid()
    ensures db.verifications == old(db.verifications) && db.nextVerificationId == old(db.nextVerificationId)
    ensures ValidateLogin(attrs, old(db.users), resolve).Err? ==>
              && r == Err(ValidateLogin(attrs, old(db.users), resolve).error)
              && db.users == old(db.users) && db.tokens == old(db.tokens)
    ensures ValidateLogin(attrs, old(db.users), resolve).Ok? ==>
              var user := ValidateLogin(attrs, old(db.users), resolve).value;
              var hookFailure := RunCustomValidation(setting, hook, user);
              && (hookFailure.Some? ==> r == Err(hookFailure.value) && db.users == old(db.users) && db.tokens == old(db.tokens))
              && (hookFailure.None? ==> db.users == WithLastLogin(old(db.users), user.id, now))
              && (hookFailure.None? && key in old(db.tokens) ==> r == Err(Unhandled("IntegrityError")) && db.tokens == old(db.tokens))
              && (hookFailure.None? && key !in old(db.tokens) ==>
                    && db.tokens == old(db.tokens)[key := MultiToken(key, user.id, "")]
                    && r == Ok(LoginResponse(key, user.email, user.phone, user.id, user.selectedLanguage, user.groups)))
  {
    var validated := ValidateLogin(attrs, db.users, resolve);
    if validated.Err? {
      return Err(validated.error);
    }
    var user := validated.value;
    var hookFailure := RunCustomValidation(setting, hook, user);
    if hookFailure.Some? {
      return Err(hookFailure.value);
    }
    db.users := WithLastLogin(db.users, user.id, now);
    var issued := IssueToken(db.tokens, key, user);
    if issued.Err? {
      return Err(issued.error);
    }
    db.tokens := issued.value;
    r := Ok(LoginResponse(key, user.email, user.phone, user.id, user.selectedLanguage, user.groups));
  }

  // ---------------------------------------------------------------- logout

  /** `LogoutAPIView.post`. `auth` is `request.auth`, the token the request authenticated
      with (`None` when it authenticated another way, and `None.delete()` raises). */
  method LogoutPost(db: Database, user: Principal, auth: Option<MultiToken>) returns (r: Result<nat, Failure>)
    requires db.Valid()
    modifies db
    ensures db.Valid()
    ensures db.users == old(db.users) && db.verifications == old(db.verifications)
    ensures db.nextVerificationId == old(db.nextVerificationId)
    ensures !user.IsAuthenticated() ==> r == Err(NotAuthenticated) && db.tokens == old(db.tokens)
    ensures user.IsAuthenticated() && auth.None? ==> r == Err(Unhandled("AttributeError")) && db.tokens == old(db.tokens)
    ensures user.IsAuthenticated() && auth.Some? ==>
              && r == Ok(204)
              && auth.value.key !in db.tokens
              && db.tokens == old(db.tokens) - {auth.value.key}
  {
    if !user.IsAuthenticated() {
      return Err(NotAuthenticated);
    }
    if auth.None? {
      return Err(Unhandled("AttributeError"));
    }
    db.tokens := db.tokens - {auth.value.key};
    r := Ok(204);
  }

  // ---------------------------------------------------------------- password reset

  function OpenOtpMatcher(otp: string): Verification -> bool {
    (v: Verification) => v.otp == otp && !v.expired
  }

  /** `ResetPasswordApiView.get` as written. The view reads `Verification.objects`, but the
      `Verification` it imports is the abstract model class, which has no manager: any
      non-empty `otp` raises `AttributeError` before the table is read. Only an absent or
      empty `otp` answers, with `{"valid": False}`. */
  function ResetPasswordGetAsWritten(vs: seq<Verification>, otp: Option<string>): (r: Result<bool, Failure>)
    ensures r.Err? <==> Truthy(otp)
    ensures r.Err? ==> r.error == Unhandled("AttributeError")
    ensures r.Ok? ==> !r.value
  {
    if Truthy(otp) then Err(Unhandled("AttributeError")) else Ok(false)
  }

  /** An open request the check page cannot confirm: as written it fails, while the
      intended check answers `valid`. */
  lemma AbstractManagerCounterexample()
    ensures var vs := [Verification(1, Some("user@example.com"), None, "123456", false)];
            && ResetPasswordGetAsWritten(vs, Some("123456")) == Err(Unhandled("AttributeError"))
            && ResetPasswordGet(vs, Some("123456"))
  {
    var vs := [Verification(1, Some("user@example.com"), None, "123456", false)];
    assert vs[0].otp == "123456" && !vs[0].expired;
  }

  /** `ResetPasswordApiView.get` as intended, reading the concrete verification model the
      serializers use: whether the `otp` query parameter names an open request. */
  function ResetPasswordGet(vs: seq<Verification>, otp: Option<string>): (valid: bool)
    ensures valid <==> Truthy(otp) && exists j :: 0 <= j < |vs| && vs[j].otp == otp.value && !vs[j].expired
  {
    if Truthy(otp) && Exists(vs, OpenOtpMatcher(otp.value)) then true
    else
      assert Truthy(otp) ==> forall j :: 0 <= j < |vs| ==> !(vs[j].otp == otp.value && !vs[j].expired) by {
        if Truthy(otp) {
          forall j | 0 <= j < |vs| ensures !(vs[j].otp == otp.value && !vs[j].expired) {
            assert !OpenOtpMatcher(otp.value)(vs[j]);
          }
        }
      }
      false
  }

  /** The check page agrees with the reset form: an OTP is shown as valid exactly when a
      reset with it and two equal passwords passes validation. */
  lemma OtpCheckAgreesWithValidation(vs: seq<Verification>, otp: string, password: string)
    requires OtpsUnique(vs) && otp != ""
    ensures ResetPasswordGet(vs, Some(otp)) <==> ValidatePasswordReset(PasswordResetAttrs(otp, password, password), vs).Ok?
  {
    var r := ValidatePasswordReset(PasswordResetAttrs(otp, password, password), vs);
    assert r.Ok? <==> exists j :: 0 <= j < |vs| && vs[j].otp == otp && !vs[j].expired;
  }

  const ResetDone := "Password reset successfully"
  const ResetRequested := "Password reset requested."

  /** `ResetPasswordApiView.post`: validate, then consume. Validation failures write
      nothing; the response text is fixed. */
  method ResetPasswordPost(db: Database, attrs: PasswordResetAttrs, hasher: Hasher) returns (r: Result<string, Failure>)
    requires db.Valid()
    modifies db
    ensures db.Valid()
    ensures db.tokens == old(db.tokens) && db.nextVerificationId == old(db.nextVerificationId)
    ensures ValidatePasswordReset(attrs, old(db.verifications)).Err? ==>
              && r == Err(ValidatePasswordReset(attrs, old(db.verifications)).error)
              && db.users == old(db.users) && db.verifications == old(db.verifications)
    ensures ValidatePasswordReset(attrs, old(db.verifications)).Ok? ==>
              var o := ResetPassword(old(db.users), old(db.verifications), ValidatePasswordReset(attrs, old(db.verifications)).value, attrs.password, hasher);
              && db.users == o.users && db.verifications == o.verifications
              && r == if o.result.Ok? then Ok(ResetDone) else Err(o.result.error)
  {
    var validated := ValidatePasswordReset(attrs, db.verifications);
    if validated.Err? {
      return Err(validated.error);
    }
    var user := PasswordResetCreate(db, validated.value, attrs.password, hasher);
    r := if user.Ok? then Ok(ResetDone) else Err(user.error);
  }

  /** DRF's field check on `phone`: a non-empty phone must pass `PhoneValidator()`. */
  function PhoneFieldCheck(phone: Option<string>): (r: Option<Failure>)
    ensures r.None? <==> !Truthy(phone) || Validators.Validate(Validators.NewPhoneValidator(None, None, None), phone.value).Ok?
    ensures r.Some? ==> r.value == ValidationError(Validators.DefaultMessage)
  {
    if Truthy(phone) then
      match Validators.Validate(Validators.NewPhoneValidator(None, None, None), phone.value)
      case Ok(_) => None
      case Err(rejection) => Some(ValidationError(rejection.message))
    else None
  }

  /** `RequestPasswordResetApiView.post`: field check, `validate`, `create`. The response
      text is fixed and never carries the OTP or the record. */
  method RequestPasswordResetPost(db: Database, attrs: ResetRequestAttrs, otp: string)
    returns (r: Result<string, Failure>, delivered: seq<Channel>)
    requires db.Valid()
    modifies db
    ensures db.Valid()
    ensures db.users == old(db.users) && db.tokens == old(db.tokens)
    ensures r.Ok? ==> r.value == ResetRequested
    ensures PhoneFieldCheck(attrs.phone).Some? || ValidateResetRequest(attrs).Err? ==>
              && r.Err? && delivered == []
              && db.verifications == old(db.verifications) && db.nextVerificationId == old(db.nextVerificationId)
    ensures PhoneFieldCheck(attrs.phone).None? && ValidateResetRequest(attrs).Ok? ==>
              var s := RequestReset(old(db.users), old(db.verifications), old(db.nextVerificationId), attrs, otp);
              && db.verifications == s.verifications && db.nextVerificationId == s.nextId
              && r == (if s.result.Ok? then Ok(ResetRequested) else Err(s.result.error))
              && delivered == (if s.result.Ok? then SendBranches(s.result.value) else [])
  {
    var fieldFailure := PhoneFieldCheck(attrs.phone);
    if fieldFailure.Some? {
      return Err(fieldFailure.value), [];
    }
    var validated := ValidateResetRequest(attrs);
    if validated.Err? {
      return Err(validated.error), [];
    }
    var instance;
    instance, delivered := CreateResetRequest(db, validated.value, otp);
    r := if instance.Ok? then Ok(ResetRequested) else Err(instance.error);
  }
}
