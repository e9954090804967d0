/** The records the core reads and writes, and the small helpers defined on them. */
module Models {
  import opened Base

  /** The password hasher behind `set_password` and `check_password`, left abstract:
      `encode` gives the stored form of a raw password, `verify` checks a raw password
      against a stored form. Salting and the algorithm are not modelled. */
  datatype Hasher = Hasher(encode: string -> string, verify: (string, string) -> bool)

  /** A hasher that accepts every password against its own encoding. */
  ghost predicate Sound(h: Hasher) {
    forall p :: h.verify(p, h.encode(p))
  }

  /** A row of the project's user model (the model class itself is not part of this
      model): the fields the core reads or writes. `password` holds the encoded form. */
  datatype User = User(
    id: nat,
    username: string,
    email: Option<string>,
    phone: Option<string>,
    accessCode: Option<string>,
    password: string,
    isActive: bool,
    isStaff: bool,
    lastLogin: Option<int>,
    selectedLanguage: string,
    groups: seq<string>)

  /** `request.user`: Django's `AnonymousUser` or a signed-in user. */
  datatype Principal = AnonymousUser | SignedIn(user: User) {
    predicate IsAuthenticated() {
      SignedIn?
    }
    predicate IsStaff() {
      SignedIn? && user.isStaff
    }
  }

  /** `MultiToken`: its primary key, the one user it belongs to (by id) and a device label. */
  datatype MultiToken = MultiToken(key: string, user: nat, deviceName: string)

  /** `Verification`: a password-reset request for an email or a phone, with its OTP. */
  datatype Verification = Verification(
    id: nat,
    email: Option<string>,
    phone: Option<string>,
    otp: string,
    expired: bool)

  /** The delivery branches of `Verification.send`. Both branches are empty in the source. */
  datatype Channel = EmailDelivery | SmsDelivery

  /** The branches `send` enters for `v`; neither does anything, so `send` changes nothing. */
  function SendBranches(v: Verification): (r: seq<Channel>)
    ensures v.expired ==> r == []
    ensures EmailDelivery in r <==> !v.expired && Truthy(v.email) && !HasSubstring(v.email.value, "dummy")
    ensures SmsDelivery in r <==> !v.expired && Truthy(v.phone)
  {
    if v.expired then []
    else
      (if Truthy(v.email) && !HasSubstring(v.email.value, "dummy") then [EmailDelivery] else [])
      + (if Truthy(v.phone) then [SmsDelivery] else [])
  }

  const ResetLinkPrefix := "https://app.theschool.pro/password/reset/?otp="

  /** `Verification.reset_link`. */
  function ResetLink(v: Verification): (link: string)
    ensures StartsWith(link, ResetLinkPrefix)
    ensures |link| == |ResetLinkPrefix| + |v.otp|
  {
    ResetLinkPrefix + v.otp
  }

  /** What the page behind the link reads back: the text after the fixed prefix. */
  function OtpOfResetLink(link: string): Option<string> {
    if StartsWith(link, ResetLinkPrefix) then Some(link[|ResetLinkPrefix|..]) else None
  }

  /** The reset link carries exactly the OTP. */
  lemma ResetLinkCarriesOtp(v: Verification)
    ensures OtpOfResetLink(ResetLink(v)) == Some(v.otp)
  {
    assert ResetLink(v)[|ResetLinkPrefix|..] == v.otp;
  }

  const SmsIntro := "Vous avez demander la reinitialisation de votre mot de passe, votre code est :\n"
  const SmsEnd := " \n"

  /** `Verification.build_sms`. */
  function BuildSms(v: Verification): (sms: string)
    ensures |sms| == |SmsIntro| + |v.otp| + |SmsEnd|
  {
    SmsIntro + v.otp + SmsEnd
  }

  /** What the reader of the message sees between the fixed parts. */
  function OtpOfSms(sms: string): Option<string> {
    if |SmsIntro| + |SmsEnd| <= |sms| && StartsWith(sms, SmsIntro) && sms[|sms| - |SmsEnd|..] == SmsEnd
    then Some(sms[|SmsIntro|..|sms| - |SmsEnd|])
    else None
  }

  /** The message carries exactly the OTP. */
  lemma SmsCarriesOtp(v: Verification)
    ensures OtpOfSms(BuildSms(v)) == Some(v.otp)
  {
    var sms := BuildSms(v);
    assert sms[..|SmsIntro|] == SmsIntro;
    assert sms[|sms| - |SmsEnd|..] == SmsEnd;
    assert sms[|SmsIntro|..|sms| - |SmsEnd|] == v.otp;
  }

  /** A row of a model that derives from `DeletableModel`. `visible` is the attribute,
      `savedVisible` the value last written to the database. */
  class DeletableRecord {
    const id: nat
    var visible: bool
    var savedVisible: bool

    constructor (id: nat)
      ensures this.id == id && visible && savedVisible
    {
      this.id := id;
      visible := true;
      savedVisible := true;
    }

    /** `DeletableModel.delete`: hides the row and saves; the row itself stays. The new
        state does not depend on the old one, so deleting twice is deleting once. */
    method Delete()
      modifies this
      ensures !visible && !savedVisible
    {
      visible := false;
      savedVisible := visible;
    }
  }
}
