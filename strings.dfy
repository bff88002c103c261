/** The string tests and edits the wizard makes on file names: the
    `strcmp`/`endsWith` suffix tests, the `strstr` search and the `.tif`
    append rule of the output browse slot (startPage.cpp, line 349). */
module Text {

  /** `s` ends with `suffix` (case-sensitive). */
  predicate EndsWith(s: string, suffix: string)
  {
    |suffix| <= |s| && s[|s| - |suffix|..] == suffix
  }

  /** `t` occurs in `s` starting at position `i`. */
  predicate OccursAt(s: string, t: string, i: int)
  {
    0 <= i <= |s| - |t| && s[i..i + |t|] == t
  }

  /** `strstr(s, t) != NULL`: `t` occurs somewhere in `s`. */
  predicate Contains(s: string, t: string)
  {
    exists i | 0 <= i <= |s| - |t| :: OccursAt(s, t, i)
  }

  /** ASCII lower case; other characters are left alone. */
  function LowerAscii(c: char): (r: char)
    ensures 'A' <= c <= 'Z' ==> r as int == c as int + 32
    ensures !('A' <= c <= 'Z') ==> r == c
  {
    if 'A' <= c <= 'Z' then (c as int + 32) as char else c
  }

  /** `endsWith(suffix, Qt::CaseInsensitive)`, with ASCII case folding. */
  predicate EndsWithIgnoreCase(s: string, suffix: string)
  {
    |suffix| <= |s| &&
    forall k | 0 <= k < |suffix| :: LowerAscii(s[|s| - |suffix| + k]) == LowerAscii(suffix[k])
  }

  /** A suffix is in particular a suffix up to case. */
  lemma EndsWithIgnoresCase(s: string, suffix: string)
    requires EndsWith(s, suffix)
    ensures EndsWithIgnoreCase(s, suffix)
  {
    forall k | 0 <= k < |suffix|
      ensures s[|s| - |suffix| + k] == suffix[k]
    {
      assert s[|s| - |suffix|..][k] == suffix[k];
    }
  }

  /** The output browse rule: `.tif` is appended exactly when the name does
      not already end with it. */
  function AppendTif(name: string): (r: string)
    ensures EndsWith(r, ".tif")
    ensures EndsWith(name, ".tif") ==> r == name
    ensures !EndsWith(name, ".tif") ==> r == name + ".tif"
  {
    if EndsWith(name, ".tif") then name else name + ".tif"
  }

  /** Applying the rule a second time changes nothing. */
  lemma AppendTifIdempotent(name: string)
    ensures AppendTif(AppendTif(name)) == AppendTif(name)
  {
  }

  /** The command line looks for `.ch2` anywhere in the name, the browse
      slot only at the end: `a.ch2.fin` is CHRTR2 on the command line and
      legacy CHRTR when browsed. */
  lemma SearchAndSuffixDiffer()
    ensures Contains("a.ch2.fin", ".ch2")
    ensures !EndsWith("a.ch2.fin", ".ch2")
  {
    assert OccursAt("a.ch2.fin", ".ch2", 1);
    assert "a.ch2.fin"[5..] != ".ch2" by { assert "a.ch2.fin"[5..][1] == 'f'; }
  }

  /** A name ending in `.ch2` contains it. */
  lemma SuffixIsContained(s: string, t: string)
    requires EndsWith(s, t)
    ensures Contains(s, t)
  {
    assert OccursAt(s, t, |s| - |t|);
  }
}
