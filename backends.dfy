/** `PhoneBackend.authenticate`: Django's model backend, looking the user up by phone
    number (without regard to letter case) instead of by user name. The hasher is passed in,
    and every call made to it is recorded in the result. That record is how the model states
    that an unknown phone costs the same single hash as a known one.

    The copy of the websocket authenticator in backends.py is the Authentication module's. */
module Backends {
  import opened Base
  import opened Models
  import opened Store

  /** One use of the password hasher: hashing a raw password (`set_password` on a throwaway
      user), or checking a raw password against a stored encoding (`check_password`). */
  datatype HasherCall = Encoded(raw: string) | Verified(raw: string, encoded: string)

  /** What `authenticate` ends in (a user, `None`, or the exception it lets escape), and
      the hasher calls it made on the way. */
  datatype BackendOutcome = BackendOutcome(result: Result<Option<User>, Failure>, hasherCalls: seq<HasherCall>)

  /** `username`, or `kwargs.get(UserModel.USERNAME_FIELD)` when it is `None`. */
  function ResolvedUsername(username: Option<string>, kwargs: map<string, string>, usernameField: string): (r: Option<string>)
    ensures username.Some? ==> r == username
    ensures r.None? <==> username.None? && usernameField !in kwargs
    ensures username.None? && r.Some? ==> r.value == kwargs[usernameField]
  {
    if username.Some? then username
    else if usernameField in kwargs then Some(kwargs[usernameField])
    else None
  }

  /** `phone__iexact=name`: a stored phone equal to `name` up to ASCII letter case. A user
      without a phone never matches. */
  predicate PhoneMatches(u: User, name: string) {
    u.phone.Some? && LowerAscii(u.phone.value) == LowerAscii(name)
  }

  function PhoneMatcher(name: string): User -> bool {
    (u: User) => PhoneMatches(u, name)
  }

  /** Both a name and a password are there, so a lookup is made. */
  predicate Attempted(username: Option<string>, password: Option<string>, kwargs: map<string, string>, usernameField: string) {
    ResolvedUsername(username, kwargs, usernameField).Some? && password.Some?
  }

  /** `PhoneBackend.authenticate(request, username, password, **kwargs)`. */
  function Authenticate(users: seq<User>, hasher: Hasher, username: Option<string>, password: Option<string>,
                        kwargs: map<string, string>, usernameField: string): (r: BackendOutcome)
    ensures !Attempted(username, password, kwargs, usernameField) ==> r == BackendOutcome(Ok(None), [])
    ensures r.result.Ok? && r.result.value.Some? ==>
              var u := r.result.value.value;
              var name := ResolvedUsername(username, kwargs, usernameField).value;
              && u in users && PhoneMatches(u, name) && u.isActive
              && hasher.verify(password.value, u.password)
              && forall j :: 0 <= j < |users| && PhoneMatches(users[j], name) ==> users[j] == u
    ensures r.result.Err? <==>
              && Attempted(username, password, kwargs, usernameField)
              && exists i, j :: 0 <= i < j < |users|
                                && PhoneMatches(users[i], ResolvedUsername(username, kwargs, usernameField).value)
                                && PhoneMatches(users[j], ResolvedUsername(username, kwargs, usernameField).value)
    ensures r.result.Err? ==> r.result.error == Unhandled("MultipleObjectsReturned") && r.hasherCalls == []
    ensures Attempted(username, password, kwargs, usernameField) && r.result.Ok? ==>
              |r.hasherCalls| == 1 && r.hasherCalls[0].raw == password.value
  {
    var name := ResolvedUsername(username, kwargs, usernameField);
    if name.None? || password.None? then BackendOutcome(Ok(None), [])
    else
      match Get(users, PhoneMatcher(name.value))
      case DoesNotExist => BackendOutcome(Ok(None), [Encoded(password.value)])
      case MultipleObjectsReturned => BackendOutcome(Err(Unhandled("MultipleObjectsReturned")), [])
      case Found(i) =>
        var user := users[i];
        var accepted := hasher.verify(password.value, user.password) && user.isActive;
        BackendOutcome(Ok(if accepted then Some(user) else None), [Verified(password.value, user.password)])
  }

  /** An unknown phone is refused, after hashing the submitted password once. */
  lemma UnknownPhoneHashesOnce(users: seq<User>, hasher: Hasher, phone: string, password: string,
                               kwargs: map<string, string>, usernameField: string)
    requires forall u :: u in users ==> !PhoneMatches(u, phone)
    ensures Authenticate(users, hasher, Some(phone), Some(password), kwargs, usernameField)
            == BackendOutcome(Ok(None), [Encoded(password)])
  {
    assert !Exists(users, PhoneMatcher(phone)) by {
      forall j | 0 <= j < |users| ensures !PhoneMatcher(phone)(users[j]) {
        assert users[j] in users;
      }
    }
  }

  /** The one user with a matching phone is returned exactly when the password checks and
      the user is active; either way the password is checked once against that user's. */
  lemma KnownPhone(users: seq<User>, hasher: Hasher, phone: string, password: string,
                   kwargs: map<string, string>, usernameField: string, i: nat)
    requires i < |users| && PhoneMatches(users[i], phone)
    requires forall j :: 0 <= j < |users| && j != i ==> !PhoneMatches(users[j], phone)
    ensures var r := Authenticate(users, hasher, Some(phone), Some(password), kwargs, usernameField);
            && r.result == Ok(if hasher.verify(password, users[i].password) && users[i].isActive then Some(users[i]) else None)
            && r.hasherCalls == [Verified(password, users[i].password)]
  {
    var g := Get(users, PhoneMatcher(phone));
    assert PhoneMatcher(phone)(users[i]);
    if g.Found? {
      assert g.index == i;
    }
  }

  /** Letter case in the submitted phone number never changes the outcome. */
  lemma PhoneCaseInsensitive(users: seq<User>, hasher: Hasher, name: string, name': string, password: Option<string>,
                             kwargs: map<string, string>, usernameField: string)
    requires LowerAscii(name) == LowerAscii(name')
    ensures Authenticate(users, hasher, Some(name), password, kwargs, usernameField)
            == Authenticate(users, hasher, Some(name'), password, kwargs, usernameField)
  {
    assert forall u :: PhoneMatcher(name)(u) == PhoneMatcher(name')(u);
    GetCongruent(users, PhoneMatcher(name), PhoneMatcher(name'));
  }
}
