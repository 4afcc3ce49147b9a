/**
 * Bytes and the well-formedness rule that `std::str::from_utf8` applies to
 * them: the well-formed UTF-8 byte sequences of the Unicode Standard,
 * section 3.9, Table 3-7 (no overlong forms, no surrogates, nothing above
 * U+10FFFF).
 */
module Utf8 {

  type byte = x: int | 0 <= x < 0x100

  predicate IsAscii(b: byte) { b < 0x80 }

  predicate IsContinuation(b: byte) { 0x80 <= b <= 0xBF }

  /**
   * The number of bytes of the well-formed scalar-value encoding at the front
   * of `s`, or 0 when `s` does not start with one.
   */
  function LeadWidth(s: seq<byte>): (w: nat)
    requires |s| > 0
    ensures w <= 4 && w <= |s|
    ensures w == 1 <==> IsAscii(s[0])
    ensures forall j :: 0 < j < w ==> !IsAscii(s[j])
  {
    var b := s[0];
    if b < 0x80 then 1
    else if 0xC2 <= b <= 0xDF then
      if |s| >= 2 && IsContinuation(s[1]) then 2 else 0
    else if b == 0xE0 then
      if |s| >= 3 && 0xA0 <= s[1] <= 0xBF && IsContinuation(s[2]) then 3 else 0
    else if 0xE1 <= b <= 0xEC || 0xEE <= b <= 0xEF then
      if |s| >= 3 && IsContinuation(s[1]) && IsContinuation(s[2]) then 3 else 0
    else if b == 0xED then
      if |s| >= 3 && 0x80 <= s[1] <= 0x9F && IsContinuation(s[2]) then 3 else 0
    else if b == 0xF0 then
      if |s| >= 4 && 0x90 <= s[1] <= 0xBF && IsContinuation(s[2]) && IsContinuation(s[3]) then 4 else 0
    else if 0xF1 <= b <= 0xF3 then
      if |s| >= 4 && IsContinuation(s[1]) && IsContinuation(s[2]) && IsContinuation(s[3]) then 4 else 0
    else if b == 0xF4 then
      if |s| >= 4 && 0x80 <= s[1] <= 0x8F && IsContinuation(s[2]) && IsContinuation(s[3]) then 4 else 0
    else 0
  }

  /**
   * `s` is a sequence of well-formed UTF-8 encodings, one after the other:
   * what `std::str::from_utf8` accepts. Well-formed text never starts with
   * a continuation byte.
   */
  predicate Valid(s: seq<byte>)
    ensures Valid(s) && |s| > 0 ==> !IsContinuation(s[0])
    decreases |s|
  {
    |s| == 0 || (var w := LeadWidth(s); w > 0 && Valid(s[w..]))
  }

  /** What Rust's `String` holds: bytes that are well-formed UTF-8. */
  type Text = s: seq<byte> | Valid(s) witness []

  /** The width of the leading encoding depends only on the bytes it covers. */
  lemma LeadWidthAgree(s: seq<byte>, t: seq<byte>)
    requires |s| > 0 && LeadWidth(s) > 0
    requires |t| >= LeadWidth(s)
    requires forall j :: 0 <= j < LeadWidth(s) ==> t[j] == s[j]
    ensures LeadWidth(t) == LeadWidth(s)
  {
  }

  /** Text made of ASCII bytes only is well-formed. */
  lemma {:induction false} AsciiValid(s: seq<byte>)
    requires forall i :: 0 <= i < |s| ==> IsAscii(s[i])
    ensures Valid(s)
    decreases |s|
  {
    if |s| > 0 {
      AsciiValid(s[1..]);
    }
  }

  /** Concatenating two well-formed sequences gives a well-formed sequence. */
  lemma {:induction false} ConcatValid(a: seq<byte>, b: seq<byte>)
    requires Valid(a) && Valid(b)
    ensures Valid(a + b)
    decreases |a|
  {
    if |a| == 0 {
      assert a + b == b;
    } else {
      var w := LeadWidth(a);
      LeadWidthAgree(a, a + b);
      assert LeadWidth(a + b) == w;
      assert Valid(a[w..]);
      assert (a + b)[w..] == a[w..] + b;
      ConcatValid(a[w..], b);
    }
  }

  /**
   * An ASCII byte in well-formed text sits on a character boundary: cutting
   * the text just before it leaves two well-formed halves.
   */
  lemma {:induction false} AsciiBoundary(s: seq<byte>, i: nat)
    requires Valid(s) && i < |s| && IsAscii(s[i])
    ensures Valid(s[..i]) && Valid(s[i..])
    decreases |s|
  {
    var w := LeadWidth(s);
    if i < w {
      assert i == 0;
      assert s[..i] == [] && s[i..] == s;
    } else {
      AsciiBoundary(s[w..], i - w);
      assert s[w..][i - w..] == s[i..];
      var p := s[..i];
      LeadWidthAgree(s, p);
      assert p[w..] == s[w..][..i - w];
    }
  }
}
