/**
  String helpers the path-segment code relies on: invariant lower-casing,
  ordinal case-insensitive comparison and `TrimStart` with a one-character
  trim set. Case mapping is modelled on ASCII letters only.
*/
module Text {

  /** True when `c` is an ASCII upper-case letter. */
  predicate IsUpper(c: char) {
    'A' <= c <= 'Z'
  }

  /** Invariant lower-casing of one character (ASCII letters only). */
  function LowerChar(c: char): (r: char)
    ensures IsUpper(c) ==> r as int == c as int + 32
    ensures !IsUpper(c) ==> r == c
    ensures !IsUpper(r)
  {
    if IsUpper(c) then (c as int + 32) as char else c
  }

  /** `ToLowerInvariant`: every character lower-cased, length kept. */
  function Lower(s: string): (r: string)
    ensures |r| == |s|
    ensures forall i :: 0 <= i < |s| ==> r[i] == LowerChar(s[i])
  {
    seq(|s|, i requires 0 <= i < |s| => LowerChar(s[i]))
  }

  /**
    `string.Equals(a, b, StringComparison.OrdinalIgnoreCase)`: equal lengths
    and the characters agree after case folding, compared front to back.
  */
  function EqualsIgnoreCase(a: string, b: string): bool
    decreases |a|
  {
    if |a| == 0 then |b| == 0
    else |b| > 0 && LowerChar(a[0]) == LowerChar(b[0]) && EqualsIgnoreCase(a[1..], b[1..])
  }

  /** The character-by-character comparison agrees with comparing the lower-cased forms. */
  lemma {:induction false} EqualsIgnoreCaseIffLowerEqual(a: string, b: string)
    ensures EqualsIgnoreCase(a, b) <==> Lower(a) == Lower(b)
    decreases |a|
  {
    if |a| == 0 {
    } else if |b| == 0 {
      assert |Lower(a)| != |Lower(b)|;
    } else {
      EqualsIgnoreCaseIffLowerEqual(a[1..], b[1..]);
      assert Lower(a) == [LowerChar(a[0])] + Lower(a[1..]);
      assert Lower(b) == [LowerChar(b[0])] + Lower(b[1..]);
    }
  }

  /**
    `s.TrimStart(new[] { c })`: removes EVERY leading occurrence of `c`,
    not only the first one.
  */
  function TrimStart(s: string, c: char): (r: string)
    ensures |r| <= |s|
    ensures r == s[|s| - |r|..]
    ensures forall i :: 0 <= i < |s| - |r| ==> s[i] == c
    ensures |r| > 0 ==> r[0] != c
    decreases |s|
  {
    if |s| > 0 && s[0] == c then TrimStart(s[1..], c) else s
  }

  /** A string that does not start with `c` is left as it is. */
  lemma TrimStartNoLeading(s: string, c: char)
    requires |s| == 0 || s[0] != c
    ensures TrimStart(s, c) == s
  {
  }

  /** Trimming a string that has one more leading `c` gives the same result. */
  lemma TrimStartPrefix(s: string, c: char)
    ensures TrimStart([c] + s, c) == TrimStart(s, c)
  {
    assert ([c] + s)[1..] == s;
  }

  /** Lower-casing commutes with trimming leading `@`. */
  lemma {:induction false} LowerTrimStartAt(s: string)
    ensures Lower(TrimStart(s, '@')) == TrimStart(Lower(s), '@')
    decreases |s|
  {
    var ls := Lower(s);
    if |s| == 0 {
    } else if s[0] == '@' {
      assert ls[0] == '@';
      assert ls[1..] == Lower(s[1..]);
      LowerTrimStartAt(s[1..]);
      assert TrimStart(ls, '@') == TrimStart(ls[1..], '@');
    } else {
      assert ls[0] == LowerChar(s[0]) != '@';
      assert TrimStart(ls, '@') == ls;
      assert TrimStart(s, '@') == s;
    }
  }
}
