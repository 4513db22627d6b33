/** The string primitives the script relies on, as JavaScript defines them:
    `includes` (substring search), `trim` and `toLowerCase`. */
module Text {

  /** `s.includes(p)`: p occurs in s, looked for from the left. */
  predicate Contains(s: string, p: string)
    decreases |s|
  {
    p <= s || (s != [] && Contains(s[1..], p))
  }

  /** p occurs in s starting at index i. */
  predicate OccursAt(s: string, p: string, i: nat)
  {
    i + |p| <= |s| && s[i..i + |p|] == p
  }

  /** Contains agrees with the index-based meaning of a substring. */
  lemma {:induction false} ContainsIffOccurs(s: string, p: string)
    ensures Contains(s, p) <==> exists i: nat :: OccursAt(s, p, i)
    decreases |s|
  {
    if p <= s {
      assert s[0..0 + |p|] == s[..|p|];
      assert OccursAt(s, p, 0);
    } else if s != [] {
      ContainsIffOccurs(s[1..], p);
      if Contains(s[1..], p) {
        var i: nat :| OccursAt(s[1..], p, i);
        OccursInTail(s, p, i);
      } else {
        forall i: nat ensures !OccursAt(s, p, i) {
          if i == 0 {
            assert |p| <= |s| ==> s[0..0 + |p|] == s[..|p|];
          } else {
            OccursInTail(s, p, i - 1);
          }
        }
      }
    }
  }

  /** An occurrence in the tail is an occurrence one place further on in the
      whole string, and back. */
  lemma OccursInTail(s: string, p: string, j: nat)
    requires s != []
    ensures OccursAt(s[1..], p, j) <==> OccursAt(s, p, j + 1)
  {
    if j + 1 + |p| <= |s| {
      assert s[1..][j..j + |p|] == s[j + 1..j + 1 + |p|];
    }
  }

  /** A pattern never fits in a shorter string. */
  lemma {:induction false} ContainsLength(s: string, p: string)
    ensures Contains(s, p) ==> |p| <= |s|
    decreases |s|
  {
    if s != [] && !(p <= s) {
      ContainsLength(s[1..], p);
    }
  }

  /** An occurrence in a suffix is an occurrence in the whole string. */
  lemma {:induction false} ContainsInSuffix(s: string, p: string, k: nat)
    requires k <= |s|
    ensures Contains(s[k..], p) ==> Contains(s, p)
    decreases k
  {
    if k > 0 {
      assert s[1..][k - 1..] == s[k..];
      ContainsInSuffix(s[1..], p, k - 1);
    }
  }

  /** A prefix free of the pattern's first character cannot hold the start of
      an occurrence. */
  lemma {:induction false} ContainsSkipsPrefix(x: string, t: string, p: string)
    requires p != [] && p[0] !in x
    ensures Contains(x + t, p) ==> Contains(t, p)
    decreases |x|
  {
    if x != [] {
      assert (x + t)[0] == x[0];
      assert (x + t)[1..] == x[1..] + t;
      ContainsSkipsPrefix(x[1..], t, p);
    } else {
      assert x + t == t;
    }
  }

  /** The characters `trim` removes: ECMAScript WhiteSpace (tab, vertical tab,
      form feed, space, no-break space, byte order mark and the Unicode space
      separators) and LineTerminator (line feed, carriage return, line and
      paragraph separators). */
  predicate IsWhitespace(c: char)
  {
    || ('\t' <= c <= '\r')
    || c == ' '
    || c == '\U{00A0}'
    || c == '\U{1680}'
    || ('\U{2000}' <= c <= '\U{200A}')
    || c == '\U{2028}' || c == '\U{2029}'
    || c == '\U{202F}' || c == '\U{205F}'
    || c == '\U{3000}'
    || c == '\U{FEFF}'
  }

  /** Drops leading whitespace: the result is the suffix of s that starts at
      its first non-whitespace character. */
  function TrimStart(s: string): (r: string)
    ensures |r| <= |s| && r == s[|s| - |r|..]
    ensures forall i :: 0 <= i < |s| - |r| ==> IsWhitespace(s[i])
    ensures r != [] ==> !IsWhitespace(r[0])
    decreases |s|
  {
    if s != [] && IsWhitespace(s[0]) then TrimStart(s[1..]) else s
  }

  /** Drops trailing whitespace: the result is the prefix of s that ends at
      its last non-whitespace character. */
  function TrimEnd(s: string): (r: string)
    ensures |r| <= |s| && r == s[..|r|]
    ensures forall i :: |r| <= i < |s| ==> IsWhitespace(s[i])
    ensures r != [] ==> !IsWhitespace(r[|r| - 1])
    decreases |s|
  {
    if s != [] && IsWhitespace(s[|s| - 1]) then TrimEnd(s[..|s| - 1]) else s
  }

  /** r is the slice of s starting at i, and everything of s before and
      after that slice is whitespace. */
  predicate TrimmedAt(s: string, r: string, i: nat)
  {
    && i + |r| <= |s| && r == s[i..i + |r|]
    && (forall k :: 0 <= k < i ==> IsWhitespace(s[k]))
    && (forall k :: i + |r| <= k < |s| ==> IsWhitespace(s[k]))
  }

  /** `s.trim()`: the slice of s left after removing whitespace at both ends;
      it has no whitespace at either end and is empty exactly when s is all
      whitespace. */
  function Trim(s: string): (r: string)
    ensures exists i: nat :: TrimmedAt(s, r, i)
    ensures r == [] <==> forall i :: 0 <= i < |s| ==> IsWhitespace(s[i])
    ensures r != [] ==> !IsWhitespace(r[0]) && !IsWhitespace(r[|r| - 1])
  {
    var a := TrimStart(s);
    var r := TrimEnd(a);
    TrimmedSlice(s, a, r);
    r
  }

  /** Trimming the end of a suffix of s cut off after leading whitespace
      leaves a slice of s with whitespace on both sides. */
  lemma TrimmedSlice(s: string, a: string, r: string)
    requires |a| <= |s| && a == s[|s| - |a|..]
    requires forall k :: 0 <= k < |s| - |a| ==> IsWhitespace(s[k])
    requires |r| <= |a| && r == a[..|r|]
    requires forall k :: |r| <= k < |a| ==> IsWhitespace(a[k])
    ensures TrimmedAt(s, r, |s| - |a|)
  {
    var i := |s| - |a|;
    assert r == s[i..i + |r|];
    assert forall k :: i + |r| <= k < |s| ==> s[k] == a[k - i];
  }

  /** `toLowerCase` on one character, for the ASCII letters. */
  function LowerChar(c: char): char
  {
    if 'A' <= c <= 'Z' then (c as int + 32) as char else c
  }

  /** `s.toLowerCase()`, character by character (ASCII letters only). */
  function Lower(s: string): (r: string)
    ensures |r| == |s|
  {
    seq(|s|, i requires 0 <= i < |s| => LowerChar(s[i]))
  }
}
