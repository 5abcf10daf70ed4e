/** The three `java.lang.String` operations the linter relies on, over the
    ASCII range: `toLowerCase()`, `strip()` and `contains(..)`.  Characters
    outside ASCII are left unchanged by lower-casing and are never treated as
    whitespace. */
module JavaStrings {

  predicate IsUpper(c: char) {
    'A' <= c <= 'Z'
  }

  /** The characters below 128 for which `Character.isWhitespace` holds:
      space, tab, line feed, vertical tab, form feed, carriage return, and the
      four information separators U+001C..U+001F. */
  predicate IsWhitespace(c: char) {
    c == ' ' || 9 <= c as int <= 13 || 28 <= c as int <= 31
  }

  predicate AllWhitespace(s: string) {
    forall i :: 0 <= i < |s| ==> IsWhitespace(s[i])
  }

  predicate HasUpper(s: string) {
    exists i :: 0 <= i < |s| && IsUpper(s[i])
  }

  function LowerChar(c: char): (r: char)
    ensures !IsUpper(r)
    ensures !IsUpper(c) ==> r == c
    ensures IsUpper(c) ==> r as int == c as int + 32
  {
    if IsUpper(c) then (c as int + 32) as char else c
  }

  /** `toLowerCase()`: every character lower-cased in place. */
  function ToLower(s: string): (r: string)
    ensures |r| == |s|
    ensures forall i :: 0 <= i < |s| ==> r[i] == LowerChar(s[i])
    ensures !HasUpper(r)
  {
    seq(|s|, i requires 0 <= i < |s| => LowerChar(s[i]))
  }

  /** A string with no upper-case letter is its own lower-case form, so in
      particular lower-casing is idempotent. */
  lemma ToLowerFixpoint(s: string)
    requires !HasUpper(s)
    ensures ToLower(s) == s
  {
    assert forall i :: 0 <= i < |s| ==> !IsUpper(s[i]);
  }

  lemma ToLowerIdempotent(s: string)
    ensures ToLower(ToLower(s)) == ToLower(s)
  {
    ToLowerFixpoint(ToLower(s));
  }

  /** Neither whitespace nor the absence of whitespace is affected by
      lower-casing. */
  lemma LowerCharWhitespace(c: char)
    ensures IsWhitespace(LowerChar(c)) <==> IsWhitespace(c)
  {
  }

  // ---------------------------------------------------------------------
  // strip()

  /** No whitespace at either end. */
  predicate IsStripped(s: string) {
    |s| == 0 || (!IsWhitespace(s[0]) && !IsWhitespace(s[|s| - 1]))
  }

  /** Drops the leading whitespace: the result is the suffix that follows
      a run of whitespace, and it does not itself start with whitespace. */
  function StripLeading(s: string): (r: string)
    ensures |r| <= |s|
    ensures r == s[|s| - |r|..]
    ensures AllWhitespace(s[..|s| - |r|])
    ensures |r| > 0 ==> !IsWhitespace(r[0])
    decreases |s|
  {
    if |s| > 0 && IsWhitespace(s[0]) then StripLeading(s[1..]) else s
  }

  /** Drops the trailing whitespace: the result is the prefix that precedes
      a run of whitespace, and it does not itself end with whitespace. */
  function StripTrailing(s: string): (r: string)
    ensures |r| <= |s|
    ensures r == s[..|r|]
    ensures AllWhitespace(s[|r|..])
    ensures |r| > 0 ==> !IsWhitespace(r[|r| - 1])
    decreases |s|
  {
    if |s| > 0 && IsWhitespace(s[|s| - 1]) then StripTrailing(s[..|s| - 1]) else s
  }

  /** `strip()`: the result is a contiguous slice of the input, everything
      cut off on either side is whitespace, and the slice itself has no
      whitespace at either end. */
  function Strip(s: string): (r: string)
    ensures IsStripped(r)
    ensures exists i :: OccursAt(r, s, i) && AllWhitespace(s[..i]) && AllWhitespace(s[i + |r|..])
  {
    var a := StripLeading(s);
    var r := StripTrailing(a);
    var i := |s| - |a|;
    StripParts(s, i, a, r);
    assert OccursAt(r, s, i) && AllWhitespace(s[..i]) && AllWhitespace(s[i + |r|..]);
    r
  }

  /** Glues the two halves of `strip()` together: a suffix of `s` after
      leading whitespace, cut before its trailing whitespace. */
  lemma StripParts(s: string, i: int, a: string, r: string)
    requires 0 <= i <= |s| && a == s[i..] && AllWhitespace(s[..i])
    requires |a| > 0 ==> !IsWhitespace(a[0])
    requires |r| <= |a| && r == a[..|r|] && AllWhitespace(a[|r|..])
    requires |r| > 0 ==> !IsWhitespace(r[|r| - 1])
    ensures IsStripped(r)
    ensures OccursAt(r, s, i) && AllWhitespace(s[..i]) && AllWhitespace(s[i + |r|..])
  {
    assert r == s[i..i + |r|];
    assert s[i + |r|..] == a[|r|..];
    assert |r| > 0 ==> r[0] == a[0];
  }

  /** A stripped string is left alone, so `strip()` is idempotent. */
  lemma StripFixpoint(s: string)
    requires IsStripped(s)
    ensures Strip(s) == s
  {
  }

  /** A string made only of whitespace strips to the empty string. */
  lemma StripAllWhitespace(s: string)
    requires AllWhitespace(s)
    ensures Strip(s) == ""
  {
  }

  // ---------------------------------------------------------------------
  // contains()

  /** `t` occurs in `s` starting at position `i`. */
  predicate OccursAt(t: string, s: string, i: int) {
    0 <= i <= |s| - |t| && s[i..i + |t|] == t
  }

  /** `t` occurs in `s` at some position. */
  ghost predicate IsSubstring(t: string, s: string) {
    exists i :: OccursAt(t, s, i)
  }

  /** `s.contains(t)`: a left-to-right search for an occurrence of `t`. */
  function Contains(s: string, t: string): (b: bool)
    ensures b <==> IsSubstring(t, s)
    decreases |s|
  {
    if |t| > |s| then false
    else if s[..|t|] == t then
      assert OccursAt(t, s, 0);
      true
    else
      var b := Contains(s[1..], t);
      assert b ==> IsSubstring(t, s) by {
        if b {
          var i :| OccursAt(t, s[1..], i);
          assert s[i + 1..i + 1 + |t|] == t;
          assert OccursAt(t, s, i + 1);
        }
      }
      assert IsSubstring(t, s) ==> b by {
        if IsSubstring(t, s) {
          var i :| OccursAt(t, s, i);
          assert i != 0;
          assert s[1..][i - 1..i - 1 + |t|] == t;
          assert OccursAt(t, s[1..], i - 1);
        }
      }
      b
  }

  /** A string without upper-case letters has none in any of its slices. */
  lemma NoUpperInSlice(s: string, i: int, j: int)
    requires !HasUpper(s) && 0 <= i <= j <= |s|
    ensures !HasUpper(s[i..j])
  {
    assert forall k :: 0 <= k < j - i ==> s[i..j][k] == s[i + k];
  }

  /** The empty string occurs in every string. */
  lemma EmptyIsSubstring(s: string)
    ensures IsSubstring("", s)
  {
    assert OccursAt("", s, 0);
  }

  /** A term with an upper-case letter never occurs in a lower-cased name. */
  lemma UpperNeverInLower(t: string, s: string)
    requires HasUpper(t)
    ensures !IsSubstring(t, ToLower(s))
  {
  }
}
