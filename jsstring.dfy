/**
  The ECMAScript string built-ins the chat component relies on: `trim`, `startsWith`,
  `endsWith`, `slice`, and the LineTerminator class that the regular-expression atom `.`
  refuses.  Strings are sequences of Unicode scalar values; see the README for why the
  UTF-16 code units of JavaScript strings make no difference to the operations modelled here.
*/
module JsString {

  /** LineTerminator (ECMA-262, section 12.3): LF, CR, LINE SEPARATOR, PARAGRAPH SEPARATOR. */
  predicate IsLineTerminator(c: char) {
    c == '\n' || c == '\r' || c == '\U{2028}' || c == '\U{2029}'
  }

  /**
    WhiteSpace (ECMA-262, section 12.2): TAB, VT, FF, ZWNBSP and every code point of
    general category Zs.
  */
  predicate IsWhiteSpace(c: char) {
    c == '\t' || c == '\U{000B}' || c == '\U{000C}' || c == '\U{FEFF}' ||
    c == ' ' || c == '\U{00A0}' || c == '\U{1680}' ||
    ('\U{2000}' <= c <= '\U{200A}') ||
    c == '\U{202F}' || c == '\U{205F}' || c == '\U{3000}'
  }

  /** What `String.prototype.trim` removes from either end (ECMA-262, section 22.1.3.32.1). */
  predicate IsTrimmable(c: char) {
    IsWhiteSpace(c) || IsLineTerminator(c)
  }

  /** `s.trimStart()`: drops the longest trimmable prefix. */
  function TrimStart(s: string): (r: string)
    ensures |r| <= |s| && r == s[|s| - |r|..]
    ensures r == [] || !IsTrimmable(r[0])
    ensures forall i :: 0 <= i < |s| - |r| ==> IsTrimmable(s[i])
  {
    if s != [] && IsTrimmable(s[0]) then TrimStart(s[1..]) else s
  }

  /** `s.trimEnd()`: drops the longest trimmable suffix. */
  function TrimEnd(s: string): (r: string)
    ensures |r| <= |s| && r == s[..|r|]
    ensures r == [] || !IsTrimmable(r[|r| - 1])
    ensures forall i :: |r| <= i < |s| ==> IsTrimmable(s[i])
  {
    if s != [] && IsTrimmable(s[|s| - 1]) then TrimEnd(s[..|s| - 1]) else s
  }

  /**
    `s.trim()`: the part of `s` left after removing trimmable code points from both ends.
    It is empty exactly when every code point of `s` is trimmable.
  */
  function Trim(s: string): (r: string)
    ensures var lo := |s| - |TrimStart(s)|;
      lo + |r| <= |s| && r == s[lo..lo + |r|] &&
      (forall i :: 0 <= i < lo ==> IsTrimmable(s[i])) &&
      (forall i :: lo + |r| <= i < |s| ==> IsTrimmable(s[i]))
    ensures r != [] ==> !IsTrimmable(r[0]) && !IsTrimmable(r[|r| - 1])
    ensures r == [] <==> forall i :: 0 <= i < |s| ==> IsTrimmable(s[i])
  {
    TrimEnd(TrimStart(s))
  }

  /** Text that neither starts nor ends with a trimmable code point is left as it is. */
  lemma TrimKeeps(s: string)
    requires s != [] && !IsTrimmable(s[0]) && !IsTrimmable(s[|s| - 1])
    ensures Trim(s) == s
  {
    assert TrimStart(s) == s;
  }

  /** `s.startsWith(prefix)`. */
  predicate StartsWith(s: string, prefix: string) {
    |prefix| <= |s| && s[..|prefix|] == prefix
  }

  /** `s.endsWith(suffix)`. */
  predicate EndsWith(s: string, suffix: string) {
    |suffix| <= |s| && s[|s| - |suffix|..] == suffix
  }

  /** The clamping of a relative index done by `slice` (ECMA-262, section 22.1.3.22). */
  function RelativeIndex(len: nat, k: int): (r: nat)
    ensures r <= len
  {
    if k < 0 then (if len + k < 0 then 0 else len + k)
    else if k > len then len else k
  }

  /** `s.slice(start, end)`: negative indices count from the end, crossed bounds give "". */
  function Slice(s: string, start: int, end: int): string {
    var from, to := RelativeIndex(|s|, start), RelativeIndex(|s|, end);
    if from >= to then "" else s[from..to]
  }

  /** `s.slice(2, -2)` removes two code points from each end, or yields "" when fewer than four. */
  lemma SliceStripsTwo(s: string)
    ensures |s| >= 4 ==> Slice(s, 2, -2) == s[2..|s| - 2]
    ensures |s| < 4 ==> Slice(s, 2, -2) == ""
  {
  }

  /** Concatenation of a list of strings, in order. */
  function Concat(parts: seq<string>): string {
    if parts == [] then "" else parts[0] + Concat(parts[1..])
  }

  lemma {:induction false} ConcatAppend(xs: seq<string>, ys: seq<string>)
    ensures Concat(xs + ys) == Concat(xs) + Concat(ys)
  {
    if xs == [] {
      assert xs + ys == ys;
    } else {
      assert (xs + ys)[1..] == xs[1..] + ys;
      ConcatAppend(xs[1..], ys);
    }
  }
}
