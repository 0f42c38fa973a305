/**
 * The parts of JavaScript's string library that the recognition-result
 * normaliser relies on: `trim`, `toLowerCase`, `startsWith`, and the
 * `\s*`-separated phrase search of its document-type patterns.
 */
module JsText {

  /** The characters `String.prototype.trim` removes and `\s` matches: WhiteSpace and LineTerminator. */
  predicate IsJsWhitespace(c: char)
  {
    || ('\U{9}' <= c <= '\U{D}')               // tab, line feed, vertical tab, form feed, carriage return
    || c == '\U{20}' || c == '\U{A0}' || c == '\U{1680}'
    || ('\U{2000}' <= c <= '\U{200A}')
    || c == '\U{2028}' || c == '\U{2029}'      // line and paragraph separators
    || c == '\U{202F}' || c == '\U{205F}' || c == '\U{3000}'
    || c == '\U{FEFF}'                         // byte order mark
  }

  predicate AllWhitespace(s: string)
  {
    forall i :: 0 <= i < |s| ==> IsJsWhitespace(s[i])
  }

  /** Neither the first nor the last character is whitespace. */
  predicate Trimmed(s: string)
  {
    |s| == 0 || (!IsJsWhitespace(s[0]) && !IsJsWhitespace(s[|s| - 1]))
  }

  /** Number of whitespace characters at the start of `s`. */
  function LeadingSpace(s: string): (k: nat)
    ensures k <= |s| && AllWhitespace(s[..k])
    ensures k < |s| ==> !IsJsWhitespace(s[k])
  {
    if |s| == 0 || !IsJsWhitespace(s[0]) then 0
    else
      var k := 1 + LeadingSpace(s[1..]);
      assert s[..k] == [s[0]] + s[1..][..k - 1];
      k
  }

  /** Number of whitespace characters at the end of `s`. */
  function TrailingSpace(s: string): (k: nat)
    ensures k <= |s| && AllWhitespace(s[|s| - k..])
    ensures k < |s| ==> !IsJsWhitespace(s[|s| - 1 - k])
  {
    if |s| == 0 || !IsJsWhitespace(s[|s| - 1]) then 0
    else
      var k := 1 + TrailingSpace(s[..|s| - 1]);
      assert s[|s| - k..] == s[..|s| - 1][|s| - k..] + [s[|s| - 1]];
      k
  }

  /**
   * `s.trim()`: the result is `s` with its leading and trailing whitespace
   * cut off, and nothing else removed.
   */
  function Trim(s: string): (r: string)
    ensures Trimmed(r)
    ensures exists a, b ::
      (0 <= a <= b <= |s| && r == s[a..b] && AllWhitespace(s[..a]) && AllWhitespace(s[b..]))
  {
    var a := LeadingSpace(s);
    var b := |s| - TrailingSpace(s[a..]);
    assert s[a..][|s[a..]| - (|s| - b)..] == s[b..];
    s[a..b]
  }

  /** A string without whitespace at either end is its own trim. */
  lemma TrimOfTrimmed(s: string)
    requires Trimmed(s)
    ensures Trim(s) == s
  {
  }

  /** Trimming twice is trimming once. */
  lemma TrimIdempotent(s: string)
    ensures Trim(Trim(s)) == Trim(s)
  {
    TrimOfTrimmed(Trim(s));
  }

  /**
   * `toLowerCase` on the letters the document-type patterns can meet:
   * ASCII capitals and the Serbian capital C with caron.
   */
  function ToLower(s: string): (r: string)
    ensures |r| == |s|
    ensures forall i :: 0 <= i < |s| ==> ('A' <= s[i] <= 'Z' <==> 'a' <= r[i] <= 'z' && r[i] != s[i])
    ensures forall i :: 0 <= i < |s| && 'A' <= s[i] <= 'Z' ==> r[i] as int == s[i] as int + 32
    ensures forall i :: 0 <= i < |s| && s[i] == '\U{10C}' ==> r[i] == '\U{10D}'
    ensures forall i :: 0 <= i < |s| && !('A' <= s[i] <= 'Z') && s[i] != '\U{10C}' ==> r[i] == s[i]
  {
    seq(|s|, i requires 0 <= i < |s| => LowerChar(s[i]))
  }

  function LowerChar(c: char): char
  {
    if 'A' <= c <= 'Z' then (c as int + 32) as char
    else if c == '\U{10C}' then '\U{10D}'  // capital to small C with caron
    else c
  }

  predicate StartsWith(s: string, prefix: string)
  {
    |prefix| <= |s| && s[..|prefix|] == prefix
  }

  /** `s` contains `w` as a contiguous piece at position `i`. */
  predicate OccursAt(s: string, w: string, i: int)
  {
    0 <= i && i + |w| <= |s| && s[i..i + |w|] == w
  }

  predicate Contains(s: string, w: string)
  {
    exists i | 0 <= i <= |s| :: OccursAt(s, w, i)
  }

  /** First position at or after `i` that is not whitespace (or the end). */
  function SkipSpace(s: string, i: nat): (j: nat)
    requires i <= |s|
    ensures i <= j <= |s| && AllWhitespace(s[i..j])
    ensures j < |s| ==> !IsJsWhitespace(s[j])
    decreases |s| - i
  {
    if i == |s| || !IsJsWhitespace(s[i]) then i
    else
      var j := SkipSpace(s, i + 1);
      assert s[i..j] == [s[i]] + s[i + 1..j];
      j
  }

  /**
   * The regular expression `w1\s*w2` matches at position `i`. As `w2` starts
   * with a letter, skipping every whitespace character is the only way `\s*`
   * can let it match.
   */
  predicate PhraseAt(s: string, w1: string, w2: string, i: int)
  {
    OccursAt(s, w1, i) && OccursAt(s, w2, SkipSpace(s, i + |w1|))
  }

  predicate ContainsPhrase(s: string, w1: string, w2: string)
  {
    exists i | 0 <= i <= |s| :: PhraseAt(s, w1, w2, i)
  }
}
