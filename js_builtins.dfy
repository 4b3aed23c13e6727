/**
 * Models of the JavaScript built-ins that the prize-draw server and its client
 * rely on: `String.prototype.trim`, `toUpperCase` (on ASCII letters),
 * `String.prototype.includes`, `Math.round`, the `Math.floor(Math.random() * n)`
 * idiom for a random index, and `Number(x) || 0`.
 */
module JsBuiltins {

  datatype Option<T> = None | Some(value: T)

  /** The result of `Number(x)` on a request value: an integer, or NaN for text
      that is not numeric (and for undefined). */
  datatype JsNumber = Int(value: int) | NaN

  /** `Number(x) || 0`: NaN (and 0) become 0. */
  function OrZero(v: JsNumber): int
  {
    match v
    case Int(n) => n
    case NaN => 0
  }

  /** The code points `String.prototype.trim` strips: ECMAScript's WhiteSpace
      and LineTerminator productions. */
  predicate IsWhitespace(c: char)
  {
    || c == '\t' || c == '\n' || c == '\U{000B}' || c == '\U{000C}' || c == '\r'
    || c == ' ' || c == '\U{00A0}' || c == '\U{1680}'
    || ('\U{2000}' <= c <= '\U{200A}')
    || c == '\U{2028}' || c == '\U{2029}' || c == '\U{202F}' || c == '\U{205F}'
    || c == '\U{3000}' || c == '\U{FEFF}'
  }

  /** The number of whitespace characters at the start of `s`. */
  function LeadingWhitespace(s: string): (n: nat)
    ensures n <= |s|
    ensures forall k :: 0 <= k < n ==> IsWhitespace(s[k])
    ensures n < |s| ==> !IsWhitespace(s[n])
  {
    if |s| > 0 && IsWhitespace(s[0]) then 1 + LeadingWhitespace(s[1..]) else 0
  }

  /** The number of whitespace characters at the end of `s`. */
  function TrailingWhitespace(s: string): (n: nat)
    ensures n <= |s|
    ensures forall k :: |s| - n <= k < |s| ==> IsWhitespace(s[k])
    ensures n < |s| ==> !IsWhitespace(s[|s| - 1 - n])
  {
    if |s| > 0 && IsWhitespace(s[|s| - 1]) then 1 + TrailingWhitespace(s[..|s| - 1]) else 0
  }

  /** `s.trim()`: `s` without its leading and trailing whitespace. */
  function Trim(s: string): (r: string)
    ensures r == [] || (!IsWhitespace(r[0]) && !IsWhitespace(r[|r| - 1]))
    ensures r == [] <==> forall k :: 0 <= k < |s| ==> IsWhitespace(s[k])
    ensures exists i, j :: 0 <= i <= j <= |s| && r == s[i..j]
              && (forall k :: 0 <= k < i ==> IsWhitespace(s[k]))
              && (forall k :: j <= k < |s| ==> IsWhitespace(s[k]))
  {
    var i := LeadingWhitespace(s);
    var n := TrailingWhitespace(s[i..]);
    TrimBounds(s, i, s[i..], n);
    s[i..|s| - n]
  }

  /** Where the trimmed slice starts and ends, from what the two whitespace
      counts promise. */
  lemma TrimBounds(s: string, i: nat, t: string, n: nat)
    requires i <= |s| && t == s[i..]
    requires forall k :: 0 <= k < i ==> IsWhitespace(s[k])
    requires i < |s| ==> !IsWhitespace(s[i])
    requires n <= |t|
    requires forall k :: |t| - n <= k < |t| ==> IsWhitespace(t[k])
    requires n < |t| ==> !IsWhitespace(t[|t| - 1 - n])
    ensures i <= |s| - n
    ensures forall k :: |s| - n <= k < |s| ==> IsWhitespace(s[k])
    ensures i < |s| - n ==> !IsWhitespace(s[i]) && !IsWhitespace(s[|s| - n - 1])
    ensures i == |s| - n <==> forall k :: 0 <= k < |s| ==> IsWhitespace(s[k])
  {
    forall k | |s| - n <= k < |s| ensures IsWhitespace(s[k]) {
      assert s[k] == t[k - i];
    }
    if i < |s| {
      assert t[0] == s[i];
      assert s[|s| - n - 1] == t[|t| - 1 - n];
    }
  }

  /** A string whose ends are not whitespace is its own trim. */
  lemma TrimOfTrimmed(s: string)
    requires s == [] || (!IsWhitespace(s[0]) && !IsWhitespace(s[|s| - 1]))
    ensures Trim(s) == s
  {
    if s != [] {
      assert LeadingWhitespace(s) == 0;
      assert s[0..] == s;
      assert TrailingWhitespace(s) == 0;
      assert s[0..|s|] == s;
    }
  }

  /** Trimming twice is trimming once. */
  lemma TrimIdempotent(s: string)
    ensures Trim(Trim(s)) == Trim(s)
  {
    TrimOfTrimmed(Trim(s));
  }

  /** `toUpperCase` on one character, for the ASCII letters. */
  function UpperChar(c: char): char
  {
    if 'a' <= c <= 'z' then (c as int - 32) as char else c
  }

  /** Upper-casing neither makes nor removes whitespace. */
  lemma UpperCharWhitespace()
    ensures forall c :: IsWhitespace(UpperChar(c)) <==> IsWhitespace(c)
  {
  }

  /** `s.toUpperCase()`, restricted to ASCII case mapping. */
  function ToUpper(s: string): (r: string)
    ensures |r| == |s|
    ensures forall k :: 0 <= k < |r| ==> !('a' <= r[k] <= 'z')
    ensures forall k :: 0 <= k < |s| && 'a' <= s[k] <= 'z' ==> r[k] as int == s[k] as int - 32
    ensures forall k :: 0 <= k < |s| && !('a' <= s[k] <= 'z') ==> r[k] == s[k]
    ensures forall k :: 0 <= k < |s| ==> r[k] == UpperChar(s[k])
  {
    if s == [] then [] else [UpperChar(s[0])] + ToUpper(s[1..])
  }

  /** A string without lower-case ASCII letters is its own upper case. */
  lemma ToUpperOfUpper(s: string)
    requires forall k :: 0 <= k < |s| ==> !('a' <= s[k] <= 'z')
    ensures ToUpper(s) == s
  {
    var r := ToUpper(s);
    assert forall k :: 0 <= k < |s| ==> r[k] == s[k];
  }

  /** `t` occurs in `s` starting at position `i`. */
  predicate OccursAt(s: string, t: string, i: nat)
  {
    i + |t| <= |s| && s[i..i + |t|] == t
  }

  /** `s.includes(t)`, scanning `s` from the left. */
  function Includes(s: string, t: string): (b: bool)
    ensures b <==> exists i: nat :: OccursAt(s, t, i)
    decreases |s|
  {
    if |t| > |s| then false
    else if s[..|t|] == t then (assert OccursAt(s, t, 0); true)
    else
      var b := Includes(s[1..], t);
      assert forall i: nat :: OccursAt(s, t, i + 1) <==> OccursAt(s[1..], t, i) by {
        forall i: nat ensures OccursAt(s, t, i + 1) <==> OccursAt(s[1..], t, i) {
          if i + 1 + |t| <= |s| {
            assert s[1..][i..i + |t|] == s[i + 1..i + 1 + |t|];
          }
        }
      }
      assert forall i: nat :: OccursAt(s, t, i) ==> i > 0;
      assert b ==> exists i: nat :: OccursAt(s, t, i) by {
        if b {
          var i: nat :| OccursAt(s[1..], t, i);
          assert OccursAt(s, t, i + 1);
        }
      }
      assert (exists i: nat :: OccursAt(s, t, i)) ==> b by {
        if exists i: nat :: OccursAt(s, t, i) {
          var i: nat :| OccursAt(s, t, i);
          assert OccursAt(s[1..], t, i - 1);
        }
      }
      b
  }

  /** `Math.round(x)`: the nearest integer, halves rounded up. */
  function Round(x: real): (n: int)
    ensures x - 0.5 < n as real <= x + 0.5
  {
    (x + 0.5).Floor
  }

  /** `Math.floor(u * n)` for a draw `u` of `Math.random()`: an index into a
      list of length `n`. */
  function RandomIndex(u: real, n: nat): (k: nat)
    requires 0.0 <= u < 1.0 && n > 0
    ensures k < n
    ensures k as real <= u * n as real < k as real + 1.0
  {
    ScaledDrawInRange(u, n);
    (u * n as real).Floor
  }

  /** The index is `k` exactly for the draws in `[k / n, (k + 1) / n)`. */
  lemma RandomIndexBand(u: real, n: nat, k: nat)
    requires 0.0 <= u < 1.0 && n > 0
    requires k as real <= u * n as real < k as real + 1.0
    ensures RandomIndex(u, n) == k
  {
    var j := RandomIndex(u, n);
    FloorUnique(u * n as real, j, k);
  }

  /** Both directions: the index is `k` if and only if the draw lies in
      `[k / n, (k + 1) / n)`. */
  lemma RandomIndexIff(u: real, n: nat, k: nat)
    requires 0.0 <= u < 1.0 && 0 < n
    ensures RandomIndex(u, n) == k <==> k as real <= u * n as real < k as real + 1.0
  {
    if k as real <= u * n as real < k as real + 1.0 {
      RandomIndexBand(u, n, k);
    }
  }

  lemma FloorUnique(x: real, j: int, k: int)
    requires j as real <= x < j as real + 1.0
    requires k as real <= x < k as real + 1.0
    ensures j == k
  {
  }

  /** `Math.random() * n` lies in `[0, n)` for a positive `n`. */
  lemma ScaledDrawInRange(u: real, n: int)
    requires 0.0 <= u < 1.0 && n > 0
    ensures 0.0 <= u * n as real < n as real
  {
    assert (1.0 - u) * n as real > 0.0;
  }
}
