/** Tracking sessions and the short codes that identify them
    (src/lib/tracking.ts). */
module Tracking {

  /** One entry of a session's location history. */
  datatype HistoryPoint = HistoryPoint(lat: real, lon: real, timestamp: int)

  /** A tracking session as it is stored. `id` is the tracking code, used as
      the document identifier. */
  datatype TrackingData = TrackingData(
    id: string,
    trackingCode: string,
    transmitterUserId: string,
    isActive: bool,
    createdAt: string,
    lastKnownLatitude: real,
    lastKnownLongitude: real,
    lastUpdated: string,
    history: seq<HistoryPoint>)

  /** The code alphabet: upper-case letters and digits without the
      look-alikes I, O, 0 and 1. */
  const Chars: string := "ABCDEFGHJKLMNPQRSTUVWXYZ23456789"

  /** How many characters a code has. */
  const CodeLength: nat := 6

  /** What `Math.random()` may return: a number in [0, 1). */
  predicate IsRandomDraw(r: real) {
    0.0 <= r < 1.0
  }

  /** `Math.floor(r * chars.length)`: the alphabet position one draw selects. */
  function DrawIndex(r: real): (k: int)
    requires IsRandomDraw(r)
    ensures 0 <= k < |Chars|
  {
    (r * (|Chars| as real)).Floor
  }

  /** A character the code may contain. */
  predicate IsCodeChar(c: char) {
    ('A' <= c <= 'Z' || '2' <= c <= '9') && c != 'I' && c != 'O'
  }

  /** A well-formed tracking code: six characters from the alphabet. */
  predicate IsTrackingCode(s: string) {
    |s| == CodeLength && forall k :: 0 <= k < |s| ==> s[k] in Chars
  }

  /** Builds the code one character per draw; `draws` stands for the six
      values `Math.random()` returns, in call order. */
  method GenerateTrackingCode(draws: seq<real>) returns (code: string)
    requires |draws| == CodeLength
    requires forall k :: 0 <= k < |draws| ==> IsRandomDraw(draws[k])
    ensures IsTrackingCode(code)
    ensures forall k :: 0 <= k < CodeLength ==> code[k] == Chars[DrawIndex(draws[k])]
  {
    var chars := Chars;
    code := "";
    for i := 0 to CodeLength
      invariant |code| == i
      invariant forall k :: 0 <= k < i ==> code[k] == Chars[DrawIndex(draws[k])]
    {
      code := code + [chars[DrawIndex(draws[i])]];
    }
  }

  /** The position of a code character in the alphabet: letters first,
      skipping I and O, then the digits from 2. */
  function AlphabetIndex(c: char): (k: nat)
    requires IsCodeChar(c)
    ensures k < |Chars| && Chars[k] == c
  {
    if 'A' <= c <= 'Z' then
      var n := (c as int) - ('A' as int);
      if n < 8 then n else if n < 14 then n - 1 else n - 2
    else 24 + ((c as int) - ('2' as int))
  }

  /** Every alphabet character is a code character at its own position. */
  lemma AlphabetIndexAt(i: nat)
    requires i < |Chars|
    ensures IsCodeChar(Chars[i]) && AlphabetIndex(Chars[i]) == i
  {
    assert Chars == "ABCDEFGHJKLMNPQRSTUVWXYZ23456789";
  }

  /** The alphabet has 32 characters, all different, and they are exactly
      the upper-case letters and digits other than I, O, 0 and 1. */
  lemma AlphabetShape()
    ensures |Chars| == 32
    ensures forall i, j :: 0 <= i < j < |Chars| ==> Chars[i] != Chars[j]
    ensures forall c :: c in Chars <==> IsCodeChar(c)
  {
    forall i, j | 0 <= i < j < |Chars|
      ensures Chars[i] != Chars[j]
    {
      AlphabetIndexAt(i);
      AlphabetIndexAt(j);
    }
    forall c | c in Chars
      ensures IsCodeChar(c)
    {
      var i :| 0 <= i < |Chars| && Chars[i] == c;
      AlphabetIndexAt(i);
    }
  }

  /** Every character of a code is an upper-case letter or a digit other
      than I, O, 0 and 1. */
  lemma CodeAvoidsLookAlikes(s: string)
    requires IsTrackingCode(s)
    ensures forall k :: 0 <= k < |s| ==> IsCodeChar(s[k])
  {
  }

  /** The draw at the left end of position `i`'s interval of [0, 1) selects `i`. */
  lemma DrawAtLeftEnd(i: nat)
    requires i < |Chars|
    ensures IsRandomDraw((i as real) / (|Chars| as real))
    ensures DrawIndex((i as real) / (|Chars| as real)) == i
  {
  }

  /** Draws that select a given code: the left end of each character's
      interval of [0, 1). */
  function DrawsFor(s: string): (draws: seq<real>)
    requires forall k :: 0 <= k < |s| ==> IsCodeChar(s[k])
    ensures |draws| == |s|
  {
    seq(|s|, k requires 0 <= k < |s| => (AlphabetIndex(s[k]) as real) / (|Chars| as real))
  }

  /** Every well-formed code is a possible output: `DrawsFor(s)` are draws
      `Math.random()` may return, and they select exactly the characters of `s`. */
  lemma EveryCodeIsReachable(s: string)
    requires IsTrackingCode(s)
    ensures forall k :: 0 <= k < |s| ==> IsCodeChar(s[k])
    ensures forall k :: 0 <= k < |s| ==>
              IsRandomDraw(DrawsFor(s)[k]) && Chars[DrawIndex(DrawsFor(s)[k])] == s[k]
  {
    CodeAvoidsLookAlikes(s);
    forall k | 0 <= k < |s|
      ensures IsRandomDraw(DrawsFor(s)[k]) && Chars[DrawIndex(DrawsFor(s)[k])] == s[k]
    {
      DrawAtLeftEnd(AlphabetIndex(s[k]));
    }
  }
}
