/**
 * String helpers shared by the services and components: the parts of the
 * JavaScript string library the translator relies on (`trim`,
 * `toLowerCase`, `includes`, `startsWith`, number-to-string), written out.
 */
module Common {

  datatype Option<T> = None | Some(value: T)

  /** Characters removed by `String.prototype.trim`: ECMAScript WhiteSpace and LineTerminator. */
  predicate IsJsWhitespace(c: char) {
    || c == '\t' || c == '\n' || c == '\U{000B}' || c == '\U{000C}' || c == '\r' || c == ' '
    || c == '\U{00A0}' || c == '\U{1680}' || ('\U{2000}' <= c <= '\U{200A}')
    || c == '\U{2028}' || c == '\U{2029}' || c == '\U{202F}' || c == '\U{205F}'
    || c == '\U{3000}' || c == '\U{FEFF}'
  }

  /** The index of the first character of `s` at or after `i` that is not whitespace (`|s|` when there is none). */
  function SkipBlanks(s: string, i: nat): (r: nat)
    requires i <= |s|
    ensures i <= r <= |s|
    ensures r < |s| ==> !IsJsWhitespace(s[r])
    decreases |s| - i
  {
    if i < |s| && IsJsWhitespace(s[i]) then SkipBlanks(s, i + 1) else i
  }

  /** The end of `s[..j]` once its trailing whitespace is dropped, going no lower than `lo`. */
  function BackOverBlanks(s: string, lo: nat, j: nat): (r: nat)
    requires lo <= j <= |s|
    ensures lo <= r <= j
    ensures r > lo ==> !IsJsWhitespace(s[r - 1])
    ensures r == lo && lo < j ==> IsJsWhitespace(s[lo])
    decreases j
  {
    if j > lo && IsJsWhitespace(s[j - 1]) then BackOverBlanks(s, lo, j - 1) else j
  }

  /** Every character `SkipBlanks` passes over is whitespace. */
  lemma {:induction false} SkippedAreBlank(s: string, i: nat)
    requires i <= |s|
    ensures forall k :: i <= k < SkipBlanks(s, i) ==> IsJsWhitespace(s[k])
    decreases |s| - i
  {
    if i < |s| && IsJsWhitespace(s[i]) {
      SkippedAreBlank(s, i + 1);
    }
  }

  /** Every character `BackOverBlanks` drops is whitespace. */
  lemma {:induction false} DroppedAreBlank(s: string, lo: nat, j: nat)
    requires lo <= j <= |s|
    ensures forall k :: BackOverBlanks(s, lo, j) <= k < j ==> IsJsWhitespace(s[k])
    decreases j
  {
    if j > lo && IsJsWhitespace(s[j - 1]) {
      DroppedAreBlank(s, lo, j - 1);
    }
  }

  /** `s` is all whitespace (so `s.trim()` is the empty, falsy string): skipping blanks reaches its end. */
  predicate IsBlank(s: string) {
    SkipBlanks(s, 0) == |s|
  }

  /** A string is blank exactly when each of its characters is whitespace. */
  lemma BlankAt(s: string)
    ensures IsBlank(s) <==> forall k :: 0 <= k < |s| ==> IsJsWhitespace(s[k])
  {
    SkippedAreBlank(s, 0);
  }

  /** `s.trim()`: `s` without its leading and its trailing whitespace; empty exactly when `s` is blank. */
  function Trim(s: string): (r: string)
    ensures r == [] <==> IsBlank(s)
    ensures r != [] ==> !IsJsWhitespace(r[0])
    ensures r != [] ==> !IsJsWhitespace(r[|r| - 1])
  {
    var start := SkipBlanks(s, 0);
    var end := BackOverBlanks(s, start, |s|);
    s[start..end]
  }

  /** What `trim` removes is whitespace only: `s` is whitespace, then `Trim(s)`, then whitespace. */
  lemma TrimRemovesOnlyWhitespace(s: string)
    ensures exists i :: && OccursAt(s, Trim(s), i)
                        && (forall k :: 0 <= k < i ==> IsJsWhitespace(s[k]))
                        && (forall k :: i + |Trim(s)| <= k < |s| ==> IsJsWhitespace(s[k]))
  {
    var start := SkipBlanks(s, 0);
    var end := BackOverBlanks(s, start, |s|);
    SkippedAreBlank(s, 0);
    DroppedAreBlank(s, start, |s|);
    assert Trim(s) == s[start..end];
    assert OccursAt(s, Trim(s), start);
  }

  /** Trimming twice is trimming once. */
  lemma TrimIdempotent(s: string)
    ensures Trim(Trim(s)) == Trim(s)
  {
    var r := Trim(s);
    if r != [] {
      assert SkipBlanks(r, 0) == 0;
      assert BackOverBlanks(r, 0, |r|) == |r|;
      assert r[0..|r|] == r;
    }
  }

  /** `toLowerCase` on one character, restricted to the ASCII letters. */
  function LowerChar(c: char): (d: char)
    ensures 'A' <= c <= 'Z' ==> d as int == c as int + 32
    ensures !('A' <= c <= 'Z') ==> d == c
  {
    if 'A' <= c <= 'Z' then (c as int + 32) as char else c
  }

  /** `s.toLowerCase()` with ASCII case folding. */
  function ToLower(s: string): (r: string)
    ensures |r| == |s|
    ensures forall k :: 0 <= k < |s| ==> r[k] == LowerChar(s[k])
  {
    seq(|s|, k requires 0 <= k < |s| => LowerChar(s[k]))
  }

  /** `sub` occurs in `s` at position `i`. */
  predicate OccursAt(s: string, sub: string, i: int) {
    0 <= i && i + |sub| <= |s| && s[i..i + |sub|] == sub
  }

  /** `s.startsWith(p)`. */
  predicate StartsWith(s: string, p: string) {
    |p| <= |s| && s[..|p|] == p
  }

  /** An occurrence in the tail of `s` is an occurrence in `s` one place further on. */
  lemma OccursInTail(s: string, sub: string, i: int)
    requires s != [] && 0 <= i
    ensures OccursAt(s[1..], sub, i) <==> OccursAt(s, sub, i + 1)
  {
    if 0 <= i && i + |sub| <= |s| - 1 {
      assert s[1..][i..i + |sub|] == s[i + 1..i + 1 + |sub|];
    }
  }

  /** `s.includes(sub)`: some position of `s` starts an occurrence of `sub`. */
  function Includes(s: string, sub: string): (r: bool)
    ensures r <==> exists i :: OccursAt(s, sub, i)
  {
    if StartsWith(s, sub) then
      assert OccursAt(s, sub, 0);
      true
    else if |s| == 0 then
      assert forall i :: !OccursAt(s, sub, i);
      false
    else
      var r := Includes(s[1..], sub);
      forall i | 0 <= i ensures OccursAt(s[1..], sub, i) <==> OccursAt(s, sub, i + 1) {
        OccursInTail(s, sub, i);
      }
      assert !OccursAt(s, sub, 0);
      assert forall i :: OccursAt(s, sub, i) ==> OccursAt(s[1..], sub, i - 1);
      r
  }

  /** `r` is `s` with some elements left out, the rest in their order. */
  predicate Subsequence<T(==)>(r: seq<T>, s: seq<T>)
    decreases |s|
  {
    if s == [] then r == []
    else (r != [] && r[0] == s[0] && Subsequence(r[1..], s[1..])) || Subsequence(r, s[1..])
  }

  /** The UTF-16 code units of one character (`split('')` yields these, one per element). */
  function CodeUnits(c: char): (units: seq<int>)
    ensures 1 <= |units| <= 2
    ensures forall k :: 0 <= k < |units| ==> 0 <= units[k] < 0x10000
    ensures c as int < 0x10000 ==> units == [c as int]
    ensures |units| == 2 ==>
      && 0xD800 <= units[0] < 0xDC00 && 0xDC00 <= units[1] < 0xE000
      && c as int == 0x10000 + (units[0] - 0xD800) * 0x400 + (units[1] - 0xDC00)
  {
    var n := c as int;
    if n < 0x10000 then [n] else [0xD800 + (n - 0x10000) / 0x400, 0xDC00 + (n - 0x10000) % 0x400]
  }

  /** The UTF-16 code units of a string, in order. */
  function Utf16(s: string): (units: seq<int>)
    ensures |s| <= |units| <= 2 * |s|
    ensures forall k :: 0 <= k < |units| ==> 0 <= units[k] < 0x10000
  {
    if s == [] then [] else CodeUnits(s[0]) + Utf16(s[1..])
  }

  /** The decimal digit for `d < 10`. */
  function DigitChar(d: nat): (c: char)
    requires d < 10
    ensures '0' <= c <= '9'
  {
    ('0' as int + d) as char
  }

  /** The number a string of decimal digits denotes, read most significant first: `v = 10 * v + (c - '0')` per character. */
  function DecimalValue(s: string): nat {
    if s == [] then 0
    else
      var d := s[|s| - 1] as int - '0' as int;
      10 * DecimalValue(s[..|s| - 1]) + (if 0 <= d < 10 then d else 0)
  }

  /** `String(n)` for a non-negative integer: decimal digits, most significant first, that read back as `n`. */
  function NatToDecimal(n: nat): (r: string)
    ensures |r| > 0
    ensures forall k :: 0 <= k < |r| ==> '0' <= r[k] <= '9'
    ensures DecimalValue(r) == n
  {
    if n < 10 then [DigitChar(n)]
    else
      var init := NatToDecimal(n / 10);
      var r := init + [DigitChar(n % 10)];
      assert r[..|r| - 1] == init;
      r
  }
}
