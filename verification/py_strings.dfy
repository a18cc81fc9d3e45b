/**
  The Python string primitives that audio.py leans on, stated on `seq<char>`:
  the character classes behind `\s`, `str.isspace`, `[a-zA-Z]`; `str.lower`
  (ASCII part); `str.strip`; `str.replace`; and an order-preserving filter used
  to talk about which characters of a string survive an operation.
*/
module PyStrings {

  /** `str.isspace()`, which is also what `\s` matches in a `str` pattern
      compiled without `re.ASCII`: the ASCII separators 0x09-0x0D and 0x1C-0x20,
      and the Unicode space separators, line and paragraph separators. */
  predicate IsSpace(c: char) {
    || ('\t' <= c <= '\r')
    || ('\U{1C}' <= c <= ' ')
    || c == '\U{85}' || c == '\U{A0}' || c == '\U{1680}'
    || ('\U{2000}' <= c <= '\U{200A}')
    || c == '\U{2028}' || c == '\U{2029}' || c == '\U{202F}' || c == '\U{205F}' || c == '\U{3000}'
  }

  /** `\s` in a pattern compiled with `re.ASCII`: `[ \t\n\r\f\v]`. */
  predicate IsAsciiSpace(c: char) {
    c == ' ' || '\t' <= c <= '\r'
  }

  /** How the two readings of `\s` relate: the ASCII class is exactly the six
      characters space, tab, line feed, carriage return, form feed and vertical
      tab; each of them is also `str.isspace`; and the only other whitespace
      below 0x80 is the four separators 0x1C-0x1F. */
  lemma SpaceClasses(c: char)
    ensures IsAsciiSpace(c) <==> c in [' ', '\t', '\n', '\r', '\U{C}', '\U{B}']
    ensures IsAsciiSpace(c) ==> IsSpace(c)
    ensures IsSpace(c) && !IsAsciiSpace(c) ==> ('\U{1C}' <= c <= '\U{1F}') || c as int >= 0x80
    ensures IsSpace('\U{A0}') && IsSpace('\U{3000}') && !IsAsciiSpace('\U{A0}')
    ensures !IsSpace('\U{200B}') && !IsSpace('\U{FEFF}') && !IsSpace('\U{7F}')
  {
  }

  predicate IsAsciiUpper(c: char) { 'A' <= c <= 'Z' }

  predicate IsAsciiLower(c: char) { 'a' <= c <= 'z' }

  predicate IsAsciiLetter(c: char) { IsAsciiUpper(c) || IsAsciiLower(c) }

  predicate AllSpace(s: string) {
    forall i :: 0 <= i < |s| ==> IsSpace(s[i])
  }

  /** The characters of `s` that satisfy `keep`, in their original order. */
  function Filter(s: string, keep: char -> bool): (r: string)
    ensures |r| <= |s|
    ensures forall i :: 0 <= i < |r| ==> keep(r[i])
  {
    if s == [] then [] else (if keep(s[0]) then [s[0]] else []) + Filter(s[1..], keep)
  }

  lemma {:induction false} FilterAppend(a: string, b: string, keep: char -> bool)
    ensures Filter(a + b, keep) == Filter(a, keep) + Filter(b, keep)
    decreases |a|
  {
    if a == [] {
      assert a + b == b;
    } else {
      assert (a + b)[1..] == a[1..] + b;
      FilterAppend(a[1..], b, keep);
    }
  }

  lemma {:induction false} FilterNone(s: string, keep: char -> bool)
    requires forall i :: 0 <= i < |s| ==> !keep(s[i])
    ensures Filter(s, keep) == []
    decreases |s|
  {
    if s != [] {
      FilterNone(s[1..], keep);
    }
  }

  lemma {:induction false} FilterAll(s: string, keep: char -> bool)
    requires forall i :: 0 <= i < |s| ==> keep(s[i])
    ensures Filter(s, keep) == s
    decreases |s|
  {
    if s != [] {
      FilterAll(s[1..], keep);
    }
  }

  /** Python's `str.lower` on one character, restricted to ASCII: 'A'..'Z'
      become 'a'..'z', every other character is left alone. */
  function LowerChar(c: char): (d: char)
    ensures !IsAsciiUpper(d)
    ensures IsAsciiLetter(d) <==> IsAsciiLetter(c)
    ensures IsAsciiUpper(c) ==> d as int - 'a' as int == c as int - 'A' as int
    ensures !IsAsciiUpper(c) ==> d == c
  {
    if IsAsciiUpper(c) then (c as int + 32) as char else c
  }

  /** `str.lower()` with ASCII case mapping. */
  function Lower(s: string): (r: string)
    ensures |r| == |s|
  {
    seq(|s|, i requires 0 <= i < |s| => LowerChar(s[i]))
  }

  /** After lower-casing no upper-case ASCII letter is left, and the
      letters sit where they were. */
  lemma LowerNoCapitals(s: string)
    ensures forall i :: 0 <= i < |s| ==> !IsAsciiUpper(Lower(s)[i])
    ensures forall i :: 0 <= i < |s| ==> (IsAsciiLetter(Lower(s)[i]) <==> IsAsciiLetter(s[i]))
  {
  }

  lemma LowerCons(s: string)
    requires s != []
    ensures Lower(s) == [LowerChar(s[0])] + Lower(s[1..])
  {
  }

  lemma LowerAppend(a: string, b: string)
    ensures Lower(a + b) == Lower(a) + Lower(b)
  {
  }

  /** Lower-casing a string that has no upper-case letter changes nothing;
      in particular `Lower` is idempotent. */
  lemma LowerNoUpper(s: string)
    requires forall i :: 0 <= i < |s| ==> !IsAsciiUpper(s[i])
    ensures Lower(s) == s
  {
  }

  /** Leading whitespace removed (the first half of `str.strip()`). */
  function TrimStart(s: string): (r: string)
    ensures |r| <= |s| && r == s[|s| - |r|..]
    ensures AllSpace(s[..|s| - |r|])
    ensures r == [] || !IsSpace(r[0])
    decreases |s|
  {
    if s != [] && IsSpace(s[0]) then TrimStart(s[1..]) else s
  }

  /** Trailing whitespace removed (the second half of `str.strip()`). */
  function TrimEnd(s: string): (r: string)
    ensures |r| <= |s| && r == s[..|r|]
    ensures AllSpace(s[|r|..])
    ensures r == [] || !IsSpace(r[|r| - 1])
    decreases |s|
  {
    if s != [] && IsSpace(s[|s| - 1]) then
      var r := TrimEnd(s[..|s| - 1]);
      assert s[|r|..] == s[..|s| - 1][|r|..] + [s[|s| - 1]];
      r
    else s
  }

  /** `str.strip()` with no argument. */
  function Strip(s: string): (r: string)
    ensures |r| <= |s|
    ensures r == [] || (!IsSpace(r[0]) && !IsSpace(r[|r| - 1]))
  {
    TrimEnd(TrimStart(s))
  }

  /** `Strip` cuts only whitespace, and only at the two ends: `s` is the
      result with an all-whitespace prefix and suffix around it. */
  lemma StripSplit(s: string) returns (pre: string, post: string)
    ensures s == pre + Strip(s) + post
    ensures AllSpace(pre) && AllSpace(post)
  {
    var t := TrimStart(s);
    var r := TrimEnd(t);
    pre, post := s[..|s| - |t|], t[|r|..];
    Concat3(s, pre, t, r, post);
  }

  lemma Concat3(s: string, pre: string, t: string, r: string, post: string)
    requires |pre| <= |s| && pre == s[..|pre|] && t == s[|pre|..]
    requires |r| <= |t| && r == t[..|r|] && post == t[|r|..]
    ensures s == pre + r + post
  {
    assert s == pre + t;
    assert t == r + post;
  }

  /** Filtering out whitespace before or after stripping gives the same
      characters. */
  lemma StripFilter(s: string, keep: char -> bool)
    requires forall c :: IsSpace(c) ==> !keep(c)
    ensures Filter(Strip(s), keep) == Filter(s, keep)
  {
    var pre, post := StripSplit(s);
    FilterNone(pre, keep);
    FilterNone(post, keep);
    FilterAppend(pre, Strip(s), keep);
    FilterAppend(pre + Strip(s), post, keep);
  }

  /** A string that neither starts nor ends with whitespace is its own strip. */
  lemma StripFixed(s: string)
    requires s == [] || (!IsSpace(s[0]) && !IsSpace(s[|s| - 1]))
    ensures Strip(s) == s
  {
  }

  /** `s[i..]` starts with `pat`. */
  predicate OccursAt(s: string, pat: string, i: int) {
    0 <= i && i + |pat| <= |s| && s[i..i + |pat|] == pat
  }

  /** `s.replace(pat, rep)`: scan left to right and replace every
      non-overlapping occurrence of a non-empty `pat`. */
  function Replace(s: string, pat: string, rep: string): (r: string)
    requires pat != []
    ensures |pat| == |rep| ==> |r| == |s|
    decreases |s|
  {
    if |s| < |pat| then s
    else if s[..|pat|] == pat then rep + Replace(s[|pat|..], pat, rep)
    else [s[0]] + Replace(s[1..], pat, rep)
  }

  /** A string with no occurrence of the pattern comes back unchanged. */
  lemma {:induction false} ReplaceAbsent(s: string, pat: string, rep: string)
    requires pat != []
    requires forall i :: !OccursAt(s, pat, i)
    ensures Replace(s, pat, rep) == s
    decreases |s|
  {
    if |s| >= |pat| {
      assert !OccursAt(s, pat, 0);
      forall i ensures !OccursAt(s[1..], pat, i) {
        assert OccursAt(s[1..], pat, i) ==> OccursAt(s, pat, i + 1) by {
          if 0 <= i && i + |pat| <= |s| - 1 {
            assert s[1..][i..i + |pat|] == s[i + 1..i + 1 + |pat|];
          }
        }
      }
      ReplaceAbsent(s[1..], pat, rep);
    }
  }
}
