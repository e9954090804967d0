/** The part of `urllib.parse.parse_qs` that the websocket authenticator relies on, for a
    `bytes` query string with the default arguments: fields are cut at `&`, each field at
    its first `=`, a field without `=` or with an empty value is dropped, and names and
    values are decoded by replacing `+` with a space and then `%XY` escapes with bytes.
    `PercentEncode` is how a client spells a value (urllib's `quote` with nothing safe).
    This is the `bytes` branch of `parse_qsl` as CPython 3.13 writes it, which works on
    the bytes throughout. */
module QueryString {
  import opened Base

  const Ampersand: byte := 38
  const EqualsSign: byte := 61
  const PlusSign: byte := 43
  const PercentSign: byte := 37
  const SpaceByte: byte := 32

  /** The index of the first `sep` in `s`. */
  function IndexOf(s: seq<byte>, sep: byte): (i: nat)
    requires sep in s
    ensures i < |s| && s[i] == sep
    ensures forall j :: 0 <= j < i ==> s[j] != sep
  {
    if s[0] == sep then 0 else 1 + IndexOf(s[1..], sep)
  }

  /** `bytes.split(sep)`: always at least one piece, pieces may be empty. */
  function Split(s: seq<byte>, sep: byte): (parts: seq<seq<byte>>)
    ensures |parts| >= 1
    ensures forall k :: 0 <= k < |parts| ==> sep !in parts[k]
    decreases |s|
  {
    if sep !in s then [s]
    else
      var i := IndexOf(s, sep);
      [s[..i]] + Split(s[i + 1..], sep)
  }

  function JoinOn(parts: seq<seq<byte>>, sep: byte): seq<byte>
    requires |parts| >= 1
  {
    if |parts| == 1 then parts[0] else parts[0] + [sep] + JoinOn(parts[1..], sep)
  }

  /** Splitting loses nothing: joining the pieces again gives back the input. */
  lemma {:induction false} JoinSplit(s: seq<byte>, sep: byte)
    ensures JoinOn(Split(s, sep), sep) == s
    decreases |s|
  {
    if sep in s {
      var i := IndexOf(s, sep);
      JoinSplit(s[i + 1..], sep);
      assert Split(s, sep)[1..] == Split(s[i + 1..], sep);
      assert s == s[..i] + [sep] + s[i + 1..];
    }
  }

  /** `bytes.partition(sep)`: the part before the first `sep`, whether there was one,
      and the part after it. */
  function Partition(s: seq<byte>, sep: byte): (r: (seq<byte>, bool, seq<byte>))
    ensures r.1 <==> sep in s
    ensures sep !in r.0
    ensures if r.1 then s == r.0 + [sep] + r.2 else s == r.0 && r.2 == []
  {
    if sep in s then
      var i := IndexOf(s, sep);
      assert s == s[..i] + [sep] + s[i + 1..];
      (s[..i], true, s[i + 1..])
    else (s, false, [])
  }

  function HexValue(b: byte): (r: Option<nat>)
    ensures r.Some? ==> r.value < 16
  {
    if 48 <= b <= 57 then Some(b as nat - 48)
    else if 65 <= b <= 70 then Some(b as nat - 55)
    else if 97 <= b <= 102 then Some(b as nat - 87)
    else None
  }

  /** The upper-case hexadecimal digit for `n`. */
  function HexDigit(n: nat): (b: byte)
    requires n < 16
    ensures HexValue(b) == Some(n)
  {
    if n < 10 then (48 + n) as byte else (55 + n) as byte
  }

  /** `replace(b'+', b' ')`. */
  function ReplacePlus(s: seq<byte>): (r: seq<byte>)
    ensures |r| == |s|
    ensures forall i :: 0 <= i < |s| ==> r[i] == if s[i] == PlusSign then SpaceByte else s[i]
  {
    seq(|s|, i requires 0 <= i < |s| => if s[i] == PlusSign then SpaceByte else s[i])
  }

  /** `unquote_to_bytes`: each `%` followed by two hexadecimal digits becomes that byte;
      every other byte, a lone `%` included, is kept. */
  function UnquoteToBytes(s: seq<byte>): (r: seq<byte>)
    ensures |r| <= |s|
    ensures r == [] <==> s == []
    decreases |s|
  {
    if s == [] then []
    else if s[0] == PercentSign && |s| >= 3 && HexValue(s[1]).Some? && HexValue(s[2]).Some? then
      [(HexValue(s[1]).value * 16 + HexValue(s[2]).value) as byte] + UnquoteToBytes(s[3..])
    else [s[0]] + UnquoteToBytes(s[1..])
  }

  /** How `parse_qs` decodes a name or a value of a `bytes` query string. */
  function Unquote(s: seq<byte>): (r: seq<byte>)
    ensures r == [] <==> s == []
  {
    UnquoteToBytes(ReplacePlus(s))
  }

  /** `parse_qsl(qs)`: the (name, value) pairs in order, blank values dropped. */
  function ParsePairs(qs: seq<byte>): (pairs: seq<(seq<byte>, seq<byte>)>)
    ensures forall k :: 0 <= k < |pairs| ==> pairs[k].1 != []
  {
    if qs == [] then [] else FieldPairs(Split(qs, Ampersand))
  }

  function FieldPairs(fields: seq<seq<byte>>): (pairs: seq<(seq<byte>, seq<byte>)>)
    ensures forall k :: 0 <= k < |pairs| ==> pairs[k].1 != []
  {
    if fields == [] then []
    else
      var rest := FieldPairs(fields[1..]);
      var (name, _, value) := Partition(fields[0], EqualsSign);
      if fields[0] != [] && value != [] then [(Unquote(name), Unquote(value))] + rest else rest
  }

  /** `parse_qs(qs).get(name, [b''])[0]`: the first value given for `name`, else `b''`. */
  function FirstValue(pairs: seq<(seq<byte>, seq<byte>)>, name: seq<byte>): (v: seq<byte>)
    ensures (forall i :: 0 <= i < |pairs| ==> pairs[i].0 != name) ==> v == []
    ensures (exists i :: 0 <= i < |pairs| && pairs[i].0 == name) ==>
              exists i :: 0 <= i < |pairs| && pairs[i] == (name, v) && forall j :: 0 <= j < i ==> pairs[j].0 != name
    ensures (forall k :: 0 <= k < |pairs| ==> pairs[k].1 != []) && (exists i :: 0 <= i < |pairs| && pairs[i].0 == name) ==> v != []
  {
    if pairs == [] then []
    else if pairs[0].0 == name then pairs[0].1
    else FirstValue(pairs[1..], name)
  }

  predicate Unreserved(b: byte) {
    (65 <= b <= 90) || (97 <= b <= 122) || (48 <= b <= 57) || b == 95 || b == 46 || b == 45 || b == 126
  }

  function PercentEncodeByte(b: byte): seq<byte> {
    if Unreserved(b) then [b] else [PercentSign, HexDigit(b as nat / 16), HexDigit(b as nat % 16)]
  }

  /** urllib's `quote(b, safe='')`: what a client sends for the value `b`. */
  function PercentEncode(bs: seq<byte>): seq<byte> {
    if bs == [] then [] else PercentEncodeByte(bs[0]) + PercentEncode(bs[1..])
  }

  /** A byte a percent-encoded value can contain. */
  predicate EncodedAlphabet(b: byte) {
    Unreserved(b) || b == PercentSign
  }

  lemma {:induction false} PercentEncodeAlphabet(bs: seq<byte>)
    ensures forall i :: 0 <= i < |PercentEncode(bs)| ==> EncodedAlphabet(PercentEncode(bs)[i])
    ensures bs != [] ==> PercentEncode(bs) != []
  {
    if bs != [] {
      PercentEncodeAlphabet(bs[1..]);
      var h := PercentEncodeByte(bs[0]);
      var t := PercentEncode(bs[1..]);
      assert forall i :: 0 <= i < |h| ==> EncodedAlphabet(h[i]);
      assert forall i :: |h| <= i < |h + t| ==> (h + t)[i] == t[i - |h|];
    }
  }

  lemma {:induction false} UnquoteToBytesPlain(s: seq<byte>)
    requires PercentSign !in s
    ensures UnquoteToBytes(s) == s
  {
    if s != [] {
      UnquoteToBytesPlain(s[1..]);
    }
  }

  /** A name or value without `%` and `+` decodes to itself. */
  lemma UnquotePlain(s: seq<byte>)
    requires PercentSign !in s && PlusSign !in s
    ensures Unquote(s) == s
  {
    assert ReplacePlus(s) == s;
    UnquoteToBytesPlain(s);
  }

  lemma {:induction false} UnquoteToBytesPercentEncode(bs: seq<byte>)
    ensures UnquoteToBytes(PercentEncode(bs)) == bs
  {
    if bs != [] {
      var b := bs[0];
      var h := PercentEncodeByte(b);
      var t := PercentEncode(bs[1..]);
      UnquoteToBytesPercentEncode(bs[1..]);
      if Unreserved(b) {
        assert (h + t)[1..] == t;
      } else {
        assert (h + t)[3..] == t;
        assert (b as nat / 16) * 16 + b as nat % 16 == b as nat;
      }
      assert [b] + bs[1..] == bs;
    }
  }

  /** Query-string decoding undoes the client's percent encoding. */
  lemma UnquotePercentEncode(bs: seq<byte>)
    ensures Unquote(PercentEncode(bs)) == bs
  {
    PercentEncodeAlphabet(bs);
    assert ReplacePlus(PercentEncode(bs)) == PercentEncode(bs);
    UnquoteToBytesPercentEncode(bs);
  }

  lemma PartitionAfterName(name: seq<byte>, rest: seq<byte>, sep: byte)
    requires sep !in name
    ensures Partition(name + [sep] + rest, sep) == (name, true, rest)
  {
    var s := name + [sep] + rest;
    var i := IndexOf(s, sep);
    assert s[|name|] == sep;
    assert forall j :: 0 <= j < |name| ==> s[j] == name[j];
    assert i == |name|;
    assert s[..i] == name && s[i + 1..] == rest;
  }

  lemma NoAmpersandInField(name: seq<byte>, encoded: seq<byte>)
    requires Ampersand !in name
    requires forall i :: 0 <= i < |encoded| ==> EncodedAlphabet(encoded[i])
    ensures Ampersand !in name + [EqualsSign] + encoded
  {
    var qs := name + [EqualsSign] + encoded;
    forall i | 0 <= i < |qs| ensures qs[i] != Ampersand {
      if i > |name| {
        assert qs[i] == encoded[i - |name| - 1];
      }
    }
  }

  /** A query string made of the single field `name=quote(value)` yields `value` as the
      first value of `name`, whatever bytes `value` holds. */
  lemma SingleFieldQuery(name: seq<byte>, value: seq<byte>)
    requires name != [] && value != []
    requires PercentSign !in name && PlusSign !in name && EqualsSign !in name && Ampersand !in name
    ensures FirstValue(ParsePairs(name + [EqualsSign] + PercentEncode(value)), name) == value
  {
    var encoded := PercentEncode(value);
    var qs := name + [EqualsSign] + encoded;
    PercentEncodeAlphabet(value);
    NoAmpersandInField(name, encoded);
    assert Split(qs, Ampersand) == [qs];
    PartitionAfterName(name, encoded, EqualsSign);
    UnquotePlain(name);
    UnquotePercentEncode(value);
    assert FieldPairs([qs]) == [(name, value)] by {
      assert [qs][1..] == [];
      assert [qs][0] == qs && qs != [] && encoded != [];
    }
  }
}
