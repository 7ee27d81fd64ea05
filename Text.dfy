/**
 * String operations the web handlers rely on: Python's `str.strip()`,
 * ASCII lower-casing, substring containment, `str.endswith` and the text
 * after the last occurrence of a separator (`rsplit(sep, 1)[1]`).
 */
module Text {

  /** Python's `str.isspace()` for one character (the characters `str.strip()` removes). */
  predicate IsSpace(c: char)
  {
    var n := c as int;
    (9 <= n <= 13) || (0x1c <= n <= 0x20) || n == 0x85 || n == 0xa0 || n == 0x1680 ||
    (0x2000 <= n <= 0x200a) || n == 0x2028 || n == 0x2029 || n == 0x202f || n == 0x205f ||
    n == 0x3000
  }

  /** Leading whitespace removed. */
  function TrimStart(s: string): (r: string)
    ensures |r| <= |s| && r == s[|s| - |r|..]
    ensures forall k :: 0 <= k < |s| - |r| ==> IsSpace(s[k])
    ensures r != [] ==> !IsSpace(r[0])
  {
    if |s| > 0 && IsSpace(s[0]) then TrimStart(s[1..]) else s
  }

  /** Trailing whitespace removed. */
  function TrimEnd(s: string): (r: string)
    ensures |r| <= |s| && r == s[..|r|]
    ensures forall k :: |r| <= k < |s| ==> IsSpace(s[k])
    ensures r != [] ==> !IsSpace(r[|r| - 1])
  {
    if |s| > 0 && IsSpace(s[|s| - 1]) then TrimEnd(s[..|s| - 1]) else s
  }

  /** How many whitespace characters `s` starts with. */
  function LeadingSpaces(s: string): (n: nat)
    ensures n <= |s|
  {
    |s| - |TrimStart(s)|
  }

  /**
   * Python's `s.strip()`: the result is the piece of `s` that starts after the
   * leading whitespace, everything cut off on either side is whitespace, and
   * the piece neither starts nor ends with whitespace.
   */
  function Strip(s: string): (r: string)
    ensures LeadingSpaces(s) + |r| <= |s|
    ensures r == s[LeadingSpaces(s)..LeadingSpaces(s) + |r|]
    ensures forall k :: 0 <= k < LeadingSpaces(s) ==> IsSpace(s[k])
    ensures forall k :: LeadingSpaces(s) + |r| <= k < |s| ==> IsSpace(s[k])
    ensures r != [] ==> !IsSpace(r[0]) && !IsSpace(r[|r| - 1])
  {
    var t := TrimStart(s);
    var r := TrimEnd(t);
    assert forall k :: |r| <= k < |t| ==> t[k] == s[|s| - |t| + k];
    r
  }

  /** A string strips to nothing exactly when every character is whitespace. */
  lemma StripEmptyIff(s: string)
    ensures Strip(s) == [] <==> forall k :: 0 <= k < |s| ==> IsSpace(s[k])
  {
  }

  /** Stripping twice is stripping once. */
  lemma StripIdempotent(s: string)
    ensures Strip(Strip(s)) == Strip(s)
  {
  }

  /** ASCII lower-casing of one character; every other character is kept. */
  function LowerChar(c: char): char
  {
    if 'A' <= c <= 'Z' then (c as int + 32) as char else c
  }

  /** ASCII lower-casing of a string, character by character. */
  function Lower(s: string): (r: string)
    ensures |r| == |s|
    ensures forall i :: 0 <= i < |s| ==> r[i] == LowerChar(s[i])
  {
    seq(|s|, i requires 0 <= i < |s| => LowerChar(s[i]))
  }

  predicate IsPrefix(p: string, s: string)
  {
    |p| <= |s| && s[..|p|] == p
  }

  /** Python's `s.endswith(suffix)`. */
  predicate EndsWith(s: string, suffix: string)
  {
    |suffix| <= |s| && s[|s| - |suffix|..] == suffix
  }

  /** `p` occurs in `s` at position `i`. */
  ghost predicate OccursAt(p: string, s: string, i: int)
  {
    0 <= i <= |s| - |p| && s[i..i + |p|] == p
  }

  /** Python's `p in s`, computed by trying each start position in turn. */
  function IsSubstring(p: string, s: string): bool
    decreases |s|
  {
    if |p| > |s| then false
    else if IsPrefix(p, s) then true
    else |s| > 0 && IsSubstring(p, s[1..])
  }

  /** The computed test agrees with "`p` occurs somewhere in `s`". */
  lemma {:induction false} IsSubstringIff(p: string, s: string)
    ensures IsSubstring(p, s) <==> exists i :: OccursAt(p, s, i)
    decreases |s|
  {
    if |p| > |s| {
    } else if IsPrefix(p, s) {
      assert OccursAt(p, s, 0);
    } else {
      assert |s| > 0;
      IsSubstringIff(p, s[1..]);
      if IsSubstring(p, s[1..]) {
        var i :| OccursAt(p, s[1..], i);
        assert s[1..][i..i + |p|] == s[i + 1..i + 1 + |p|];
        assert OccursAt(p, s, i + 1);
      } else {
        forall i | 0 <= i <= |s| - |p| ensures !OccursAt(p, s, i) {
          if i > 0 {
            assert !OccursAt(p, s[1..], i - 1);
            assert s[1..][i - 1..i - 1 + |p|] == s[i..i + |p|];
          }
        }
      }
    }
  }

  /** The empty string contains only the empty string. */
  lemma EmptyContainsOnlyEmpty(p: string)
    ensures IsSubstring(p, "") <==> p == ""
  {
  }

  /** Case-insensitive containment: `query` occurs in `cell` after both are lower-cased. */
  predicate ContainsIgnoreCase(cell: string, query: string)
  {
    IsSubstring(Lower(query), Lower(cell))
  }

  /**
   * Python's `s.rsplit(sep, 1)[1]` when `sep` occurs in `s`: the text after
   * the last `sep`.
   */
  function AfterLast(s: string, sep: char): (r: string)
    requires sep in s
    ensures |r| < |s| && s[|s| - |r| - 1] == sep && r == s[|s| - |r|..]
    ensures sep !in r
  {
    if s[|s| - 1] == sep then []
    else
      var r := AfterLast(s[..|s| - 1], sep);
      assert s[..|s| - 1][|s| - 1 - |r|..] == s[|s| - 1 - |r|..|s| - 1];
      r + [s[|s| - 1]]
  }

  /** When position `i` holds the last `sep`, `AfterLast` is the text after it. */
  lemma AfterLastIsUnique(s: string, sep: char, i: int)
    requires 0 <= i < |s| && s[i] == sep && sep !in s[i + 1..]
    ensures AfterLast(s, sep) == s[i + 1..]
  {
  }
}
