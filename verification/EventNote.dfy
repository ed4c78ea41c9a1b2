/** Cutting an event note to the length the Events API accepts, on a character boundary. Notes are
    the bytes of a UTF-8 string, well formed in the sense of section 4 of RFC 3629. */
module EventNote {

  newtype byte = b: int | 0 <= b < 256

  const MAX_EVENT_NOTE_BYTES := 1024

  // ---- UTF-8 ----

  predicate Continuation(b: byte) {
    0x80 <= b <= 0xBF
  }

  predicate Within(s: seq<byte>, i: nat, lo: byte, hi: byte) {
    i < |s| && lo <= s[i] <= hi
  }

  /** The length of the well-formed character `s` begins with, or 0 if it begins with none. */
  function CharLength(s: seq<byte>): nat {
    if s == [] then 0
    else if s[0] <= 0x7F then 1
    else if 0xC2 <= s[0] <= 0xDF && Within(s, 1, 0x80, 0xBF) then 2
    else if 0xE0 <= s[0] <= 0xEF && Within(s, 1, if s[0] == 0xE0 then 0xA0 else 0x80,
                                           if s[0] == 0xED then 0x9F else 0xBF)
            && Within(s, 2, 0x80, 0xBF) then 3
    else if 0xF0 <= s[0] <= 0xF4 && Within(s, 1, if s[0] == 0xF0 then 0x90 else 0x80,
                                           if s[0] == 0xF4 then 0x8F else 0xBF)
            && Within(s, 2, 0x80, 0xBF) && Within(s, 3, 0x80, 0xBF) then 4
    else 0
  }

  predicate ValidUtf8(s: seq<byte>) {
    s == [] || (CharLength(s) > 0 && ValidUtf8(s[CharLength(s)..]))
  }

  /** The test the code makes: the index is an end of the string or not at a continuation byte. */
  predicate IsCharBoundary(s: seq<byte>, i: nat) {
    i == 0 || i == |s| || (i < |s| && !Continuation(s[i]))
  }

  lemma CharLengthOfPrefix(s: seq<byte>, k: nat)
    requires k <= |s| && CharLength(s) > 0
    ensures CharLength(s) <= |s| && CharLength(s) <= 4
    ensures k >= CharLength(s) ==> CharLength(s[..k]) == CharLength(s)
    ensures k < CharLength(s) ==> CharLength(s[..k]) == 0
    ensures 0 < k < CharLength(s) ==> Continuation(s[k])
    ensures !Continuation(s[0])
  {
  }

  lemma CharLengthOfLonger(s: seq<byte>, t: seq<byte>)
    requires CharLength(s) > 0
    ensures CharLength(s + t) == CharLength(s)
  {
    CharLengthOfPrefix(s, |s|);
    assert forall i :: 0 <= i < |s| ==> (s + t)[i] == s[i];
  }

  /** In a valid string the boundary test finds exactly the lengths of its valid prefixes. */
  lemma {:induction false} BoundaryIffPrefixValid(s: seq<byte>, k: nat)
    requires ValidUtf8(s) && k <= |s|
    ensures IsCharBoundary(s, k) <==> ValidUtf8(s[..k])
    decreases |s|
  {
    if s == [] || k == 0 {
      assert s[..k] == [];
    } else {
      var n := CharLength(s);
      CharLengthOfPrefix(s, k);
      if k >= n {
        BoundaryIffPrefixValid(s[n..], k - n);
        assert s[..k][n..] == s[n..][..k - n];
        if k == n {
          if n < |s| { CharLengthOfPrefix(s[n..], 0); }
        }
      }
    }
  }

  /** No character is longer than four bytes, so a boundary lies at most three bytes back. */
  lemma {:induction false} BoundaryNearby(s: seq<byte>, k: nat)
    requires ValidUtf8(s) && k <= |s|
    ensures exists j :: k - 3 <= j <= k && 0 <= j && IsCharBoundary(s, j)
    decreases |s|
  {
    if s == [] || k == 0 {
      assert IsCharBoundary(s, k);
    } else {
      var n := CharLength(s);
      CharLengthOfPrefix(s, k);
      if k < n {
        assert IsCharBoundary(s, 0);
      } else {
        BoundaryNearby(s[n..], k - n);
        var j :| k - n - 3 <= j <= k - n && 0 <= j && IsCharBoundary(s[n..], j);
        if n < |s| { CharLengthOfPrefix(s[n..], 0); }
        assert IsCharBoundary(s, j + n);
      }
    }
  }

  lemma {:induction false} ConcatenationIsValid(s: seq<byte>, t: seq<byte>)
    requires ValidUtf8(s) && ValidUtf8(t)
    ensures ValidUtf8(s + t)
    decreases |s|
  {
    if s == [] {
      assert s + t == t;
    } else {
      var n := CharLength(s);
      CharLengthOfPrefix(s, |s|);
      CharLengthOfLonger(s, t);
      assert (s + t)[n..] == s[n..] + t;
      ConcatenationIsValid(s[n..], t);
    }
  }

  /** The bytes of a code point, by section 3 of RFC 3629. */
  function Encode(c: int): seq<byte>
    requires 0 <= c <= 0x10FFFF
  {
    if c <= 0x7F then [c as byte]
    else if c <= 0x7FF then [(0xC0 + c / 0x40) as byte, (0x80 + c % 0x40) as byte]
    else if c <= 0xFFFF then
      [(0xE0 + c / 0x1000) as byte, (0x80 + c / 0x40 % 0x40) as byte, (0x80 + c % 0x40) as byte]
    else
      [(0xF0 + c / 0x40000) as byte, (0x80 + c / 0x1000 % 0x40) as byte, (0x80 + c / 0x40 % 0x40) as byte,
       (0x80 + c % 0x40) as byte]
  }

  lemma TwoBytes(c: int)
    requires 0x7F < c <= 0x7FF
    ensures CharLength(Encode(c)) == 2
  {
    assert 2 <= c / 0x40 <= 0x1F;
  }

  lemma ThreeBytes(c: int)
    requires 0x7FF < c <= 0xFFFF && !(0xD800 <= c <= 0xDFFF)
    ensures CharLength(Encode(c)) == 3
  {
    var high, mid := c / 0x1000, c / 0x40 % 0x40;
    assert c / 0x40 == high * 0x40 + mid && 0 <= high <= 0xF;
    assert high == 0 ==> mid >= 0x20;
    assert high == 0xD ==> mid <= 0x1F;
  }

  lemma FourBytes(c: int)
    requires 0xFFFF < c <= 0x10FFFF
    ensures CharLength(Encode(c)) == 4
  {
    var high, mid := c / 0x40000, c / 0x1000 % 0x40;
    assert c / 0x1000 == high * 0x40 + mid && 0 <= high <= 4;
    assert high == 0 ==> mid >= 0x10;
    assert high == 4 ==> mid <= 0xF;
  }

  /** Every code point that is not a surrogate is encoded by one well-formed character. */
  lemma EncodedIsValid(c: int)
    requires 0 <= c <= 0x10FFFF && !(0xD800 <= c <= 0xDFFF)
    ensures CharLength(Encode(c)) == |Encode(c)| && ValidUtf8(Encode(c))
  {
    if 0x7F < c <= 0x7FF { TwoBytes(c); }
    if 0x7FF < c <= 0xFFFF { ThreeBytes(c); }
    if 0xFFFF < c { FourBytes(c); }
    assert Encode(c)[|Encode(c)|..] == [];
  }

  // ---- The clamp ----

  const ELLIPSIS: seq<byte> := [0x2E, 0x2E, 0x2E]

  lemma EllipsisIsValid()
    ensures ValidUtf8(ELLIPSIS) && |ELLIPSIS| == 3
  {
    assert ELLIPSIS[1..] == [0x2E, 0x2E] && ELLIPSIS[1..][1..] == [0x2E];
    assert ValidUtf8(ELLIPSIS[1..][1..]);
  }

  /** `r` is the clamped form of `note`: the note itself if it fits, otherwise its longest valid prefix
      that leaves room for the ellipsis, with the ellipsis. */
  ghost predicate IsClamped(note: seq<byte>, r: seq<byte>) {
    if |note| <= MAX_EVENT_NOTE_BYTES then r == note
    else exists end: nat :: LongestPrefix(note, end) && r == note[..end] + ELLIPSIS
  }

  ghost predicate LongestPrefix(note: seq<byte>, end: nat) {
    && end <= MAX_EVENT_NOTE_BYTES - 3 <= |note|
    && ValidUtf8(note[..end])
    && forall k: nat :: k <= MAX_EVENT_NOTE_BYTES - 3 && ValidUtf8(note[..k]) ==> k <= end
  }

  /** `steps` counts the bytes the loop backs off. */
  method ClampEventNote(note: seq<byte>) returns (r: seq<byte>, ghost steps: nat)
    requires ValidUtf8(note)
    ensures IsClamped(note, r)
    ensures ValidUtf8(r) && |r| <= MAX_EVENT_NOTE_BYTES
    ensures steps <= 3 && |r| == if |note| <= MAX_EVENT_NOTE_BYTES then |note| else MAX_EVENT_NOTE_BYTES - steps
  {
    steps := 0;
    if |note| <= MAX_EVENT_NOTE_BYTES {
      return note, 0;
    }
    var end: nat := MAX_EVENT_NOTE_BYTES - |ELLIPSIS|;
    BoundaryNearby(note, end);
    ghost var j: nat :| MAX_EVENT_NOTE_BYTES - 6 <= j <= MAX_EVENT_NOTE_BYTES - 3 && IsCharBoundary(note, j);
    while end > 0 && !IsCharBoundary(note, end)
      invariant j <= end <= MAX_EVENT_NOTE_BYTES - 3 && steps == MAX_EVENT_NOTE_BYTES - 3 - end
      invariant forall k: nat :: end < k <= MAX_EVENT_NOTE_BYTES - 3 ==> !IsCharBoundary(note, k)
    {
      end := end - 1;
      steps := steps + 1;
    }
    r := note[..end] + ELLIPSIS;
    BoundaryIffPrefixValid(note, end);
    forall k: nat | k <= MAX_EVENT_NOTE_BYTES - 3 && ValidUtf8(note[..k]) ensures k <= end {
      BoundaryIffPrefixValid(note, k);
    }
    assert LongestPrefix(note, end);
    EllipsisIsValid();
    ConcatenationIsValid(note[..end], ELLIPSIS);
  }

  lemma ClampedOnce(note: seq<byte>, r: seq<byte>, s: seq<byte>)
    requires IsClamped(note, r) && IsClamped(note, s)
    ensures r == s
  {
  }

  lemma CutForm(note: seq<byte>, end: nat)
    requires ValidUtf8(note) && LongestPrefix(note, end)
    ensures MAX_EVENT_NOTE_BYTES - 6 <= end && ValidUtf8(note[..end] + ELLIPSIS)
  {
    EllipsisIsValid();
    ConcatenationIsValid(note[..end], ELLIPSIS);
    BoundaryNearby(note, MAX_EVENT_NOTE_BYTES - 3);
    var j: nat :| MAX_EVENT_NOTE_BYTES - 6 <= j <= MAX_EVENT_NOTE_BYTES - 3 && IsCharBoundary(note, j);
    BoundaryIffPrefixValid(note, j);
  }

  /** The clamped form of a note is valid UTF-8 of at most 1024 bytes, and of at least 1021 when
      something was cut; it begins like the note; it is the only clamped form, and its own. */
  lemma ClampedForm(note: seq<byte>, r: seq<byte>, s: seq<byte>)
    requires ValidUtf8(note) && IsClamped(note, r)
    ensures ValidUtf8(r) && |r| <= 1024 && (|note| <= 1024 ==> r == note)
    ensures |note| > 1024 ==> 1021 <= |r| && r[..|r| - 3] <= note && r[|r| - 3..] == [0x2E, 0x2E, 0x2E]
    ensures IsClamped(note, s) ==> s == r
    ensures IsClamped(r, s) <==> s == r
  {
    if |note| > MAX_EVENT_NOTE_BYTES {
      var end: nat :| LongestPrefix(note, end) && r == note[..end] + ELLIPSIS;
      CutForm(note, end);
      assert r[..|r| - 3] == note[..end] && r[|r| - 3..] == ELLIPSIS;
    }
    if IsClamped(note, s) {
      ClampedOnce(note, r, s);
    }
  }
}
