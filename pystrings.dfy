/**
 * The Python string primitives the scripts rely on, on `string` = `seq<char>`:
 * whitespace as `str.isspace` (and the regex class `\s`) sees it, `strip`,
 * `endswith`, the `in` substring test, `replace(pat, "")` and `" ".join`.
 */
module PyStrings {

  /** `c.isspace()`: the characters Python (and `\s` in a `str` pattern) treats as whitespace. */
  predicate IsSpace(c: char) {
    || ('\U{9}' <= c <= '\U{D}')
    || ('\U{1C}' <= c <= '\U{20}')
    || c == '\U{85}' || c == '\U{A0}' || c == '\U{1680}'
    || ('\U{2000}' <= c <= '\U{200A}')
    || c == '\U{2028}' || c == '\U{2029}' || c == '\U{202F}' || c == '\U{205F}' || c == '\U{3000}'
  }

  /** `s.lstrip()`. */
  function TrimStart(s: string): (r: string)
    ensures |r| <= |s| && r == s[|s| - |r|..]
    ensures r == [] || !IsSpace(r[0])
    ensures forall i :: 0 <= i < |s| - |r| ==> IsSpace(s[i])
  {
    if s != [] && IsSpace(s[0]) then TrimStart(s[1..]) else s
  }

  /** `s.rstrip()`. */
  function TrimEnd(s: string): (r: string)
    ensures |r| <= |s| && r == s[..|r|]
    ensures r == [] || !IsSpace(r[|r| - 1])
    ensures forall i :: |r| <= i < |s| ==> IsSpace(s[i])
  {
    if s != [] && IsSpace(s[|s| - 1]) then TrimEnd(s[..|s| - 1]) else s
  }

  /** `s.strip()`. */
  function Strip(s: string): string {
    TrimEnd(TrimStart(s))
  }

  /** `s.endswith(suffix)`. */
  predicate EndsWith(s: string, suffix: string) {
    |suffix| <= |s| && s[|s| - |suffix|..] == suffix
  }

  /** `s` occurs in `t` at position `i`. */
  predicate OccursAt(s: string, t: string, i: nat) {
    i + |s| <= |t| && t[i..i + |s|] == s
  }

  /** `s in t`: an occurrence anywhere (the empty string occurs everywhere). */
  predicate Contains(t: string, s: string) {
    exists i :: 0 <= i <= |t| && OccursAt(s, t, i)
  }

  /** `t.replace(pat, "")`: occurrences removed left to right, without overlap. */
  function RemoveAll(t: string, pat: string): (r: string)
    ensures |r| <= |t|
    decreases |t|
  {
    if pat == [] || |t| < |pat| then t
    else if t[..|pat|] == pat then RemoveAll(t[|pat|..], pat)
    else [t[0]] + RemoveAll(t[1..], pat)
  }

  /** `sep.join(parts)`. */
  function Join(sep: string, parts: seq<string>): string {
    if parts == [] then [] else if |parts| == 1 then parts[0] else parts[0] + sep + Join(sep, parts[1..])
  }

  /** Removing a non-empty string shortens the text exactly when it occurs there. */
  lemma {:induction false} RemoveAllShortens(t: string, pat: string)
    requires pat != []
    ensures |RemoveAll(t, pat)| < |t| <==> Contains(t, pat)
    decreases |t|
  {
    if |t| < |pat| {
    } else if t[..|pat|] == pat {
      assert OccursAt(pat, t, 0);
    } else {
      RemoveAllShortens(t[1..], pat);
      if Contains(t, pat) {
        var i :| 0 <= i <= |t| && OccursAt(pat, t, i);
        assert i != 0;
        assert t[1..][i - 1..i - 1 + |pat|] == t[i..i + |pat|];
        assert OccursAt(pat, t[1..], i - 1);
      }
      if Contains(t[1..], pat) {
        var i :| 0 <= i <= |t[1..]| && OccursAt(pat, t[1..], i);
        assert t[i + 1..i + 1 + |pat|] == t[1..][i..i + |pat|];
        assert OccursAt(pat, t, i + 1);
      }
    }
  }

  /** Removing a string that does not occur leaves the text as it was. */
  lemma {:induction false} RemoveAbsent(t: string, pat: string)
    requires !Contains(t, pat) || pat == []
    ensures RemoveAll(t, pat) == t
    decreases |t|
  {
    if pat != [] && |t| >= |pat| {
      assert !OccursAt(pat, t, 0);
      if Contains(t[1..], pat) {
        var i :| 0 <= i <= |t[1..]| && OccursAt(pat, t[1..], i);
        assert t[i + 1..i + 1 + |pat|] == t[1..][i..i + |pat|];
        assert OccursAt(pat, t, i + 1);
      }
      RemoveAbsent(t[1..], pat);
    }
  }
}
