/** Shared vocabulary of the model: optional values, results, bytes, Python truthiness
    and the ways a request can fail (a validation error shown to the client, a refusal by
    the view's permission check, or an exception nothing catches, which the framework
    turns into a server error). */
module Base {

  datatype Option<+T> = None | Some(value: T)

  datatype Result<+T, +E> = Ok(value: T) | Err(error: E)

  /** One element of a Python `bytes` value. */
  newtype byte = x: int | 0 <= x < 256

  /** An error raised by the application code. */
  datatype Failure =
    | ValidationError(message: string)   // shown to the client as a 400 response
    | Unhandled(exception: string)       // escapes every handler: a 500 response
    | NotAuthenticated                   // refused by the view's `IsAuthenticated` permission

  /** Python truthiness of an optional string: present and not empty. */
  predicate Truthy(s: Option<string>) {
    s.Some? && s.value != ""
  }

  predicate OccursAt(s: string, part: string, i: int) {
    0 <= i <= |s| - |part| && s[i..i + |part|] == part
  }

  /** Python's `part in s` on strings. */
  predicate HasSubstring(s: string, part: string) {
    exists i | 0 <= i <= |s| - |part| :: OccursAt(s, part, i)
  }

  predicate StartsWith(s: string, prefix: string) {
    |prefix| <= |s| && s[..|prefix|] == prefix
  }

  function LowerAsciiChar(c: char): char {
    if 'A' <= c <= 'Z' then (c as int + 32) as char else c
  }

  /** Lower-casing that folds only the ASCII letters. */
  function LowerAscii(s: string): (r: string)
    ensures |r| == |s|
    ensures forall i :: 0 <= i < |s| ==> r[i] == LowerAsciiChar(s[i])
  {
    seq(|s|, i requires 0 <= i < |s| => LowerAsciiChar(s[i]))
  }
}
