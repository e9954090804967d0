/** `PhoneValidator`: an Algerian mobile number is a prefix (`+213`, `00213` or `0`),
    then 5, 6 or 7, then exactly eight ASCII digits. The pattern is applied with
    `re.match` and ends in `$`, which also matches before one final newline. */
module Validators {
  import opened Base

  const DefaultMessage := "Enter a valid phone number."
  const Code := "invalid"

  /** The three alternatives of the prefix group. */
  datatype Prefix = PlusCountryCode | ZeroZeroCountryCode | TrunkZero

  function PrefixText(p: Prefix): string {
    match p
    case PlusCountryCode => "+213"
    case ZeroZeroCountryCode => "00213"
    case TrunkZero => "0"
  }

  predicate IsDigit(c: char) {
    '0' <= c <= '9'
  }

  predicate IsMobileLead(c: char) {
    c == '5' || c == '6' || c == '7'
  }

  /** `s` is spelled as `prefix`, a lead digit and eight digits, and nothing else. */
  predicate SpelledWith(s: string, p: Prefix) {
    var pre := PrefixText(p);
    && |s| == |pre| + 9
    && s[..|pre|] == pre
    && IsMobileLead(s[|pre|])
    && forall i :: |pre| < i < |s| ==> IsDigit(s[i])
  }

  /** The regular language `((\+213)|(00213)|(0))(6|7|5)[0-9]{8}`. */
  predicate InPhoneLanguage(s: string) {
    exists p: Prefix :: SpelledWith(s, p)
  }

  /** `(6|7|5)[0-9]{8}$`: a lead digit, eight digits, then the end or a final newline. */
  predicate MatchesAfterPrefix(rest: string) {
    && (|rest| == 9 || (|rest| == 10 && rest[9] == '\n'))
    && IsMobileLead(rest[0])
    && forall i :: 1 <= i < 9 ==> IsDigit(rest[i])
  }

  /** `phone_regex.match(value)`, trying the alternatives of the prefix group in order. */
  predicate MatchesPhonePattern(value: string) {
    || (StartsWith(value, "+213") && MatchesAfterPrefix(value[4..]))
    || (StartsWith(value, "00213") && MatchesAfterPrefix(value[5..]))
    || (StartsWith(value, "0") && MatchesAfterPrefix(value[1..]))
  }

  lemma MatchesWithPrefix(value: string, p: Prefix)
    ensures StartsWith(value, PrefixText(p)) && MatchesAfterPrefix(value[|PrefixText(p)|..])
            <==> SpelledWith(value, p) || (value != [] && value[|value| - 1] == '\n' && SpelledWith(value[..|value| - 1], p))
  {
    var pre := PrefixText(p);
    if StartsWith(value, pre) && MatchesAfterPrefix(value[|pre|..]) {
      var rest := value[|pre|..];
      assert forall i :: |pre| < i < |pre| + 9 ==> value[i] == rest[i - |pre|];
      if |rest| == 10 {
        var body := value[..|value| - 1];
        assert body[..|pre|] == pre;
        assert forall i :: |pre| <= i < |body| ==> body[i] == rest[i - |pre|];
      }
    }
    if SpelledWith(value, p) {
      var rest := value[|pre|..];
      assert forall i :: 0 <= i < |rest| ==> rest[i] == value[i + |pre|];
    } else if value != [] && value[|value| - 1] == '\n' && SpelledWith(value[..|value| - 1], p) {
      var body := value[..|value| - 1];
      var rest := value[|pre|..];
      assert value[..|pre|] == body[..|pre|];
      assert forall i :: 0 <= i < 9 ==> rest[i] == body[i + |pre|];
    }
  }

  /** The matcher accepts exactly the phone language, optionally followed by one newline. */
  lemma MatchIffInLanguage(value: string)
    ensures MatchesPhonePattern(value)
            <==> InPhoneLanguage(value)
                 || (value != [] && value[|value| - 1] == '\n' && InPhoneLanguage(value[..|value| - 1]))
  {
    MatchesWithPrefix(value, PlusCountryCode);
    MatchesWithPrefix(value, ZeroZeroCountryCode);
    MatchesWithPrefix(value, TrunkZero);
    if InPhoneLanguage(value) {
      var p :| SpelledWith(value, p);
    }
    if value != [] && value[|value| - 1] == '\n' && InPhoneLanguage(value[..|value| - 1]) {
      var p :| SpelledWith(value[..|value| - 1], p);
    }
  }

  /** An accepted number has 10, 13 or 14 characters, one more with the final newline. */
  lemma AcceptedLengths(value: string)
    requires MatchesPhonePattern(value)
    ensures |value| in {10, 13, 14} || (value[|value| - 1] == '\n' && |value| in {11, 14, 15})
  {
  }

  /** Every number in the language is accepted, and so is it with one final newline. */
  lemma AcceptsSpelledNumbers(p: Prefix, lead: char, digits: string)
    requires IsMobileLead(lead) && |digits| == 8
    requires forall i :: 0 <= i < 8 ==> IsDigit(digits[i])
    ensures MatchesPhonePattern(PrefixText(p) + [lead] + digits)
    ensures MatchesPhonePattern(PrefixText(p) + [lead] + digits + "\n")
  {
    var s := PrefixText(p) + [lead] + digits;
    assert SpelledWith(s, p) by {
      assert s[..|PrefixText(p)|] == PrefixText(p);
      assert forall i :: |PrefixText(p)| < i < |s| ==> s[i] == digits[i - |PrefixText(p)| - 1];
    }
    MatchIffInLanguage(s);
    MatchIffInLanguage(s + "\n");
    assert (s + "\n")[..|s + "\n"| - 1] == s;
  }

  /** The prefix of a number is determined by its spelling. */
  lemma PrefixIsUnique(s: string, p: Prefix, q: Prefix)
    requires SpelledWith(s, p) && SpelledWith(s, q)
    ensures p == q
  {
  }

  /** The `django.core.exceptions.ValidationError(message, code=..., params={"value": ...})` raised. */
  datatype Rejection = Rejection(message: string, code: string, value: string)

  /** A `PhoneValidator` instance: only its message can differ from the class default. */
  datatype PhoneValidator = PhoneValidator(message: string)

  /** `PhoneValidator(message, code, allowlist)`: `code` and `allowlist` are accepted and ignored. */
  function NewPhoneValidator(message: Option<string>, code: Option<string>, allowlist: Option<seq<string>>): (v: PhoneValidator)
    ensures message.Some? ==> v.message == message.value
    ensures message.None? ==> v.message == DefaultMessage
  {
    if message.Some? then PhoneValidator(message.value) else PhoneValidator(DefaultMessage)
  }

  /** `validator(value)`: passes on exactly the accepted numbers, otherwise raises with the
      instance's message, the class code and the value. */
  function Validate(v: PhoneValidator, value: string): (r: Result<(), Rejection>)
    ensures r.Ok? <==> InPhoneLanguage(value) || (value != [] && value[|value| - 1] == '\n' && InPhoneLanguage(value[..|value| - 1]))
    ensures r.Err? ==> r.error == Rejection(v.message, Code, value)
  {
    MatchIffInLanguage(value);
    if MatchesPhonePattern(value) then Ok(()) else Err(Rejection(v.message, Code, value))
  }

  /** The code raised is always `invalid`, whatever code the constructor was given. */
  lemma CodeArgumentIgnored(message: Option<string>, code: Option<string>, allowlist: Option<seq<string>>, value: string)
    requires Validate(NewPhoneValidator(message, code, allowlist), value).Err?
    ensures Validate(NewPhoneValidator(message, code, allowlist), value).error.code == "invalid"
    ensures NewPhoneValidator(message, code, allowlist) == NewPhoneValidator(message, None, None)
  {
  }
}
