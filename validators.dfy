/** String checks used on query parameters (src/validators.rs). */
module Validators {

  /** Number of bytes UTF-8 uses for one Unicode scalar value. */
  function Utf8Width(c: char): (w: nat)
    ensures 1 <= w <= 4
  {
    if c as int < 0x80 then 1
    else if c as int < 0x800 then 2
    else if c as int < 0x1_0000 then 3
    else 4
  }

  /** Byte length of the UTF-8 encoding of `s`: Rust's `str::len`. */
  function Utf8Len(s: string): nat
  {
    if s == [] then 0 else Utf8Width(s[0]) + Utf8Len(s[1..])
  }

  /** A string has at least one byte per character and at most four. */
  lemma {:induction false} Utf8LenBounds(s: string)
    ensures |s| <= Utf8Len(s) <= 4 * |s|
  {
    if s != [] {
      Utf8LenBounds(s[1..]);
    }
  }

  /** On ASCII text the byte length is the character count. */
  lemma {:induction false} Utf8LenAscii(s: string)
    requires forall i :: 0 <= i < |s| ==> s[i] as int < 0x80
    ensures Utf8Len(s) == |s|
  {
    if s != [] {
      Utf8LenAscii(s[1..]);
    }
  }

  /**
   * `is_str_valid_length`: the two early returns reject a byte length below
   * `min` and one above `max`.
   */
  function IsStrValidLength(value: string, min: nat, max: nat): (ok: bool)
    ensures ok <==> min <= Utf8Len(value) <= max
  {
    if !(Utf8Len(value) >= min) then false
    else if !(Utf8Len(value) <= max) then false
    else true
  }

  /** With crossed bounds no string has a valid length. */
  lemma CrossedBoundsRejectAll(value: string, min: nat, max: nat)
    requires min > max
    ensures !IsStrValidLength(value, min, max)
  {
  }

  /** A string of valid length has at most `max` characters, since each character takes a byte or more. */
  lemma ValidLengthBoundsChars(value: string, min: nat, max: nat)
    requires IsStrValidLength(value, min, max)
    ensures |value| <= max
  {
    Utf8LenBounds(value);
  }

  /** No character of `value` occurs in `blacklist`. */
  predicate IsPatternFree(value: string, blacklist: string)
  {
    forall i :: 0 <= i < |value| ==> value[i] !in blacklist
  }

  /**
   * `is_str_valid_pattern`: for each character of `value`, scan `blacklist`
   * and answer false at the first equal pair; answer true when both loops end.
   */
  method IsStrValidPattern(value: string, blacklist: string) returns (ok: bool)
    ensures ok <==> IsPatternFree(value, blacklist)
  {
    var i := 0;
    while i < |value|
      invariant 0 <= i <= |value|
      invariant forall k :: 0 <= k < i ==> value[k] !in blacklist
    {
      var j := 0;
      while j < |blacklist|
        invariant 0 <= j <= |blacklist|
        invariant forall m :: 0 <= m < j ==> blacklist[m] != value[i]
      {
        if value[i] == blacklist[j] {
          return false;
        }
        j := j + 1;
      }
      i := i + 1;
    }
    return true;
  }

  /** An empty value or an empty blacklist always passes. */
  lemma EmptyIsPatternFree(value: string, blacklist: string)
    requires value == [] || blacklist == []
    ensures IsPatternFree(value, blacklist)
  {
  }

  /** Every prefix and every suffix of a passing value passes too. */
  lemma PatternFreeSlices(value: string, blacklist: string, n: nat)
    requires IsPatternFree(value, blacklist)
    requires n <= |value|
    ensures IsPatternFree(value[..n], blacklist)
    ensures IsPatternFree(value[n..], blacklist)
  {
    forall i | 0 <= i < |value| - n
      ensures value[n..][i] !in blacklist
    {
      assert value[n..][i] == value[n + i];
    }
  }

  /**
   * `is_str_alphanumeric`: `chars().all(char::is_alphanumeric)`, stopping at
   * the first character that fails. Rust's Unicode classification is not part
   * of this model, so it is the parameter `isAlphanumeric`.
   */
  function IsStrAlphanumeric(value: string, isAlphanumeric: char -> bool): (ok: bool)
    ensures ok <==> forall i :: 0 <= i < |value| ==> isAlphanumeric(value[i])
  {
    if value == [] then true
    else isAlphanumeric(value[0]) && IsStrAlphanumeric(value[1..], isAlphanumeric)
  }
}
