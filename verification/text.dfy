/** The parts of .NET's `System.String` and `System.Char` behaviour the core
    relies on: `char.IsWhiteSpace`, `string.IsNullOrWhiteSpace`,
    `string.Trim()` and the invariant ASCII upper-casing used to compare
    HTTP method names. */
module Text {
  import opened Wrappers

  /** `char.IsWhiteSpace`: the separators of Unicode categories Zs, Zl and
      Zp, plus U+0009 to U+000D and U+0085. */
  predicate IsWhiteSpace(c: char) {
    || ('\t' <= c <= '\r')
    || c == ' '
    || c == '\U{85}'
    || c == '\U{A0}'
    || c == '\U{1680}'
    || ('\U{2000}' <= c <= '\U{200A}')
    || c == '\U{2028}'
    || c == '\U{2029}'
    || c == '\U{202F}'
    || c == '\U{205F}'
    || c == '\U{3000}'
  }

  /** Empty or white space only. */
  predicate IsBlank(s: string) {
    forall i :: 0 <= i < |s| ==> IsWhiteSpace(s[i])
  }

  /** `string.IsNullOrWhiteSpace`. */
  predicate IsNullOrBlank(s: Option<string>) {
    s.None? || IsBlank(s.value)
  }

  /** The number of white-space characters `s` starts with. */
  function LeadingSpace(s: string): (k: nat)
    ensures k <= |s|
    ensures forall i :: 0 <= i < k ==> IsWhiteSpace(s[i])
    ensures k == |s| || !IsWhiteSpace(s[k])
  {
    if |s| > 0 && IsWhiteSpace(s[0]) then 1 + LeadingSpace(s[1..]) else 0
  }

  /** The number of white-space characters `s` ends with. */
  function TrailingSpace(s: string): (k: nat)
    ensures k <= |s|
    ensures forall i :: |s| - k <= i < |s| ==> IsWhiteSpace(s[i])
    ensures k == |s| || !IsWhiteSpace(s[|s| - k - 1])
  {
    if |s| > 0 && IsWhiteSpace(s[|s| - 1]) then 1 + TrailingSpace(s[..|s| - 1]) else 0
  }

  /** `string.Trim()`: the result is the part of `s` after its leading
      white space, it neither starts nor ends with white space, and only
      white space follows it in `s`. */
  function Trim(s: string): (r: string)
    ensures LeadingSpace(s) + |r| <= |s|
    ensures r == s[LeadingSpace(s)..LeadingSpace(s) + |r|]
    ensures forall i :: LeadingSpace(s) + |r| <= i < |s| ==> IsWhiteSpace(s[i])
    ensures r == [] || (!IsWhiteSpace(r[0]) && !IsWhiteSpace(r[|r| - 1]))
  {
    var a := LeadingSpace(s);
    if a == |s| then []
    else
      var b := |s| - TrailingSpace(s);
      assert a < b by {
        assert !IsWhiteSpace(s[a]);
      }
      s[a..b]
  }

  /** A string is blank exactly when trimming leaves nothing, and trimming
      twice changes nothing. */
  lemma TrimBlank(s: string)
    ensures IsBlank(s) <==> Trim(s) == []
    ensures Trim(Trim(s)) == Trim(s)
  {
    var t := Trim(s);
    if t != [] {
      assert LeadingSpace(t) == 0;
      assert TrailingSpace(t) == 0;
      assert !IsWhiteSpace(s[LeadingSpace(s)]);
    }
  }

  /** ASCII letters upper-cased, everything else kept (the case folding
      `StringComparison.OrdinalIgnoreCase` applies to ASCII text). */
  function AsciiUpper(s: string): (r: string)
    ensures |r| == |s|
    ensures forall i :: 0 <= i < |s| ==> (if 'a' <= s[i] <= 'z' then r[i] as int == s[i] as int - 32 else r[i] == s[i])
  {
    if s == [] then []
    else
      var c := s[0];
      [if 'a' <= c <= 'z' then (c as int - 32) as char else c] + AsciiUpper(s[1..])
  }
}
