/** The two operations of Python's `bytes` type that the authenticators use:
    `split()` with no argument (cut at runs of ASCII white space, drop empty pieces)
    and `lower()` (fold the ASCII capitals only). */
module ByteStrings {
  import opened Base

  const Space: byte := 32

  /** The ASCII white space of `bytes.isspace`: space, \t, \n, \v, \f, \r. */
  predicate IsSpace(b: byte) {
    b == 32 || 9 <= b <= 13
  }

  /** A piece of `bytes.split()`: not empty and free of white space. */
  predicate IsWord(w: seq<byte>) {
    w != [] && forall i :: 0 <= i < |w| ==> !IsSpace(w[i])
  }

  predicate AllSpace(s: seq<byte>) {
    forall i :: 0 <= i < |s| ==> IsSpace(s[i])
  }

  function LowerByte(b: byte): byte {
    if 65 <= b <= 90 then b + 32 else b
  }

  /** `bytes.lower()`. */
  function Lower(s: seq<byte>): (r: seq<byte>)
    ensures |r| == |s|
    ensures forall i :: 0 <= i < |s| ==> r[i] == LowerByte(s[i])
  {
    seq(|s|, i requires 0 <= i < |s| => LowerByte(s[i]))
  }

  /** Length of the word that starts the sequence. */
  function WordLength(s: seq<byte>): (n: nat)
    requires s != [] && !IsSpace(s[0])
    ensures 1 <= n <= |s|
    ensures IsWord(s[..n])
    ensures n < |s| ==> IsSpace(s[n])
  {
    if |s| == 1 || IsSpace(s[1]) then 1 else 1 + WordLength(s[1..])
  }

  /** `bytes.split()`: the maximal runs of non-white-space bytes, in order. */
  function Words(s: seq<byte>): (ws: seq<seq<byte>>)
    ensures forall i :: 0 <= i < |ws| ==> IsWord(ws[i])
    ensures ws == [] <==> AllSpace(s)
    decreases |s|
  {
    if s == [] then []
    else if IsSpace(s[0]) then
      assert AllSpace(s) <==> AllSpace(s[1..]) by {
        assert forall i :: 1 <= i < |s| ==> s[i] == s[1..][i - 1];
      }
      Words(s[1..])
    else
      var n := WordLength(s);
      [s[..n]] + Words(s[n..])
  }

  lemma {:induction false} WordLengthOfWord(w: seq<byte>, rest: seq<byte>)
    requires IsWord(w)
    requires rest == [] || IsSpace(rest[0])
    ensures WordLength(w + rest) == |w|
    decreases |w|
  {
    if |w| > 1 {
      assert (w + rest)[1..] == w[1..] + rest;
      WordLengthOfWord(w[1..], rest);
    }
  }

  /** A word followed by white space or nothing is split off whole. */
  lemma WordsOfWordThenRest(w: seq<byte>, rest: seq<byte>)
    requires IsWord(w)
    requires rest == [] || IsSpace(rest[0])
    ensures Words(w + rest) == [w] + Words(rest)
  {
    WordLengthOfWord(w, rest);
    assert (w + rest)[..|w|] == w;
    assert (w + rest)[|w|..] == rest;
  }

  /** The words with the white space around and between them: `gaps[0]` before the first
      word, `gaps[k]` between word `k - 1` and word `k`, and the last gap after the last word. */
  function JoinGaps(ws: seq<seq<byte>>, gaps: seq<seq<byte>>): seq<byte>
    requires |gaps| == |ws| + 1
    decreases |ws|
  {
    if ws == [] then gaps[0] else gaps[0] + ws[0] + JoinGaps(ws[1..], gaps[1..])
  }

  /** Words and the white space around them as a client may lay them out: every gap is white
      space, and the gaps between two words are not empty. */
  predicate Separated(ws: seq<seq<byte>>, gaps: seq<seq<byte>>) {
    && |gaps| == |ws| + 1
    && (forall k :: 0 <= k < |ws| ==> IsWord(ws[k]))
    && (forall k :: 0 <= k < |gaps| ==> AllSpace(gaps[k]))
    && (forall k :: 1 <= k < |ws| ==> gaps[k] != [])
  }

  /** Leading white space is skipped. */
  lemma {:induction false} WordsAfterSpaces(g: seq<byte>, t: seq<byte>)
    requires AllSpace(g)
    ensures Words(g + t) == Words(t)
    decreases |g|
  {
    if g != [] {
      assert (g + t)[1..] == g[1..] + t;
      WordsAfterSpaces(g[1..], t);
    } else {
      assert g + t == t;
    }
  }

  /** Splitting recovers the words, however much white space separates them. */
  lemma {:induction false} WordsOfJoinGaps(ws: seq<seq<byte>>, gaps: seq<seq<byte>>)
    requires Separated(ws, gaps)
    ensures Words(JoinGaps(ws, gaps)) == ws
    decreases |ws|
  {
    if ws == [] {
      assert Words(gaps[0]) == [];
    } else {
      var rest := JoinGaps(ws[1..], gaps[1..]);
      assert JoinGaps(ws, gaps) == gaps[0] + (ws[0] + rest);
      WordsAfterSpaces(gaps[0], ws[0] + rest);
      assert rest == [] || IsSpace(rest[0]) by {
        if |ws| > 1 {
          assert gaps[1] != [] && AllSpace(gaps[1]);
          assert rest[0] == gaps[1][0];
        } else {
          assert rest == gaps[1];
        }
      }
      WordsOfWordThenRest(ws[0], rest);
      WordsOfJoinGaps(ws[1..], gaps[1..]);
      assert ws == [ws[0]] + ws[1..];
    }
  }

  /** White space in front of the first gap joins that gap. */
  lemma JoinGapsPrepend(x: seq<byte>, ws: seq<seq<byte>>, gaps: seq<seq<byte>>)
    requires |gaps| == |ws| + 1
    ensures JoinGaps(ws, [x + gaps[0]] + gaps[1..]) == x + JoinGaps(ws, gaps)
  {
    var gs := [x + gaps[0]] + gaps[1..];
    assert gs[1..] == gaps[1..];
  }

  /** Every byte string is its words laid out with white space: together with
      `WordsOfJoinGaps`, `Words(s) == ws` exactly when `s` is `ws` separated by white space. */
  lemma {:induction false} WordsCover(s: seq<byte>) returns (gaps: seq<seq<byte>>)
    ensures Separated(Words(s), gaps) && JoinGaps(Words(s), gaps) == s
    ensures s != [] && IsSpace(s[0]) ==> gaps[0] != []
    decreases |s|
  {
    if s == [] {
      gaps := [[]];
    } else if IsSpace(s[0]) {
      assert [s[0]] + s[1..] == s;
      assert Words(s) == Words(s[1..]);
      var gs := WordsCover(s[1..]);
      gaps := [[s[0]] + gs[0]] + gs[1..];
      SeparatedPrependSpace(s[0], Words(s[1..]), gs);
    } else {
      var n := WordLength(s);
      assert s[..n] + s[n..] == s;
      assert Words(s) == [s[..n]] + Words(s[n..]);
      var gs := WordsCover(s[n..]);
      gaps := [[]] + gs;
      SeparatedCons(s[..n], s[n..], Words(s[n..]), gs);
    }
  }

  /** One more white-space byte in front of separated words joins the first gap. */
  lemma SeparatedPrependSpace(x: byte, ws: seq<seq<byte>>, gaps: seq<seq<byte>>)
    requires IsSpace(x) && Separated(ws, gaps)
    ensures Separated(ws, [[x] + gaps[0]] + gaps[1..])
    ensures JoinGaps(ws, [[x] + gaps[0]] + gaps[1..]) == [x] + JoinGaps(ws, gaps)
  {
    JoinGapsPrepend([x], ws, gaps);
    var gs := [[x] + gaps[0]] + gaps[1..];
    forall k | 0 <= k < |gs| ensures AllSpace(gs[k]) {
      if k > 0 {
        assert gs[k] == gaps[k];
      }
    }
  }

  /** A word in front of separated words that start with white space or are empty. */
  lemma SeparatedCons(w: seq<byte>, rest: seq<byte>, ws: seq<seq<byte>>, gaps: seq<seq<byte>>)
    requires IsWord(w) && Separated(ws, gaps) && JoinGaps(ws, gaps) == rest
    requires rest == [] || IsSpace(rest[0])
    requires rest != [] && IsSpace(rest[0]) ==> gaps[0] != []
    ensures Separated([w] + ws, [[]] + gaps)
    ensures JoinGaps([w] + ws, [[]] + gaps) == w + rest
  {
    assert ([w] + ws)[1..] == ws && ([[]] + gaps)[1..] == gaps;
  }

}
