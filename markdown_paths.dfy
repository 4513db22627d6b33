/** Asset-link rewriting of a fetched markdown post, `rewriteMarkdownPaths`
    (log.js:57-63): links written relative to the log folder, `](./assets/`
    and `](assets/`, are turned into `](log/assets/` so that they resolve
    from the page at the site root. */
module MarkdownPaths {
  import opened Text

  /** `s.replace(/pat/g, rep)` for a literal, non-empty pattern: the string is
      scanned from the left, each match is replaced and the scan resumes after
      it, so matches never overlap. */
  function ReplaceAll(s: string, pat: string, rep: string): string
    requires pat != []
    decreases |s|
  {
    if s == [] then []
    else if pat <= s then rep + ReplaceAll(s[|pat|..], pat, rep)
    else [s[0]] + ReplaceAll(s[1..], pat, rep)
  }

  const DOT_ASSETS: string := "](./assets/"
  const BARE_ASSETS: string := "](assets/"
  const ROOT_ASSETS: string := "](log/assets/"

  /** `rewriteMarkdownPaths(md)`: the two global replacements, in order. */
  function RewriteMarkdownPaths(md: string): string
  {
    ReplaceAll(ReplaceAll(md, DOT_ASSETS, ROOT_ASSETS), BARE_ASSETS, ROOT_ASSETS)
  }

  /** Text without the pattern comes back unchanged. */
  lemma {:induction false} ReplaceAllAbsent(s: string, pat: string, rep: string)
    requires pat != []
    ensures !Contains(s, pat) ==> ReplaceAll(s, pat, rep) == s
    decreases |s|
  {
    if s != [] && !(pat <= s) {
      ReplaceAllAbsent(s[1..], pat, rep);
      assert s == [s[0]] + s[1..];
    }
  }

  /** The leftmost match is replaced and the rest of the text after it is
      rewritten on its own; with ReplaceAllAbsent this determines the result
      for every input. */
  lemma ReplaceAllLeftmost(s: string, pat: string, rep: string, i: nat)
    requires pat != [] && OccursAt(s, pat, i)
    requires forall j: nat :: j < i ==> !OccursAt(s, pat, j)
    ensures ReplaceAll(s, pat, rep) == s[..i] + rep + ReplaceAll(s[i + |pat|..], pat, rep)
  {
    var u, r := s[i..], ReplaceAll(s[i + |pat|..], pat, rep);
    ReplaceAllCopiesPrefix(s, pat, rep, i);
    FrontOfSuffix(s, pat, i);
    ReplaceAllAtFront(u, pat, rep);
    assert s[..i] + (rep + r) == s[..i] + rep + r;
  }

  lemma FrontOfSuffix(s: string, pat: string, i: nat)
    requires OccursAt(s, pat, i)
    ensures pat <= s[i..] && s[i..][|pat|..] == s[i + |pat|..]
  {
    assert s[i..][..|pat|] == s[i..i + |pat|];
  }

  /** A match at the front is replaced. */
  lemma ReplaceAllAtFront(s: string, pat: string, rep: string)
    requires pat != [] && pat <= s
    ensures ReplaceAll(s, pat, rep) == rep + ReplaceAll(s[|pat|..], pat, rep)
  {
  }

  /** Up to the first match, the text is copied unchanged. */
  lemma {:induction false} ReplaceAllCopiesPrefix(s: string, pat: string, rep: string, i: nat)
    requires pat != [] && i <= |s|
    requires forall j: nat :: j < i ==> !OccursAt(s, pat, j)
    ensures ReplaceAll(s, pat, rep) == s[..i] + ReplaceAll(s[i..], pat, rep)
    decreases i
  {
    if i == 0 {
      assert s[..0] + ReplaceAll(s[0..], pat, rep) == ReplaceAll(s, pat, rep);
    } else {
      NoMatchInTail(s, pat, i);
      ReplaceAllCopiesPrefix(s[1..], pat, rep, i - 1);
      CopiesPrefixStep(s, pat, rep, i);
    }
  }

  /** One step of ReplaceAllCopiesPrefix: copying the first character and
      then i - 1 characters of the tail copies i characters. */
  lemma CopiesPrefixStep(s: string, pat: string, rep: string, i: nat)
    requires pat != [] && 0 < i <= |s| && !OccursAt(s, pat, 0)
    requires ReplaceAll(s[1..], pat, rep) == s[1..][..i - 1] + ReplaceAll(s[1..][i - 1..], pat, rep)
    ensures ReplaceAll(s, pat, rep) == s[..i] + ReplaceAll(s[i..], pat, rep)
  {
    var t, r := s[1..], ReplaceAll(s[i..], pat, rep);
    ReplaceAllSkip(s, pat, rep);
    SplitAfterFirst(s, i);
    assert [s[0]] + (t[..i - 1] + r) == s[..i] + r;
  }

  /** No match before i in s means no match before i - 1 in its tail. */
  lemma NoMatchInTail(s: string, pat: string, i: nat)
    requires 0 < i <= |s|
    requires forall j: nat :: j < i ==> !OccursAt(s, pat, j)
    ensures forall j: nat :: j < i - 1 ==> !OccursAt(s[1..], pat, j)
  {
    forall j: nat | j < i - 1
      ensures !OccursAt(s[1..], pat, j)
    {
      OccursInTail(s, pat, j);
    }
  }

  /** The first i characters are the first one followed by i - 1 of the
      tail, and the rest after them is the same. */
  lemma SplitAfterFirst(s: string, i: nat)
    requires 0 < i <= |s|
    ensures s[1..][i - 1..] == s[i..]
    ensures s[..i] == [s[0]] + s[1..][..i - 1]
  {
  }

  /** Without a match at the front, the first character is copied. */
  lemma ReplaceAllSkip(s: string, pat: string, rep: string)
    requires pat != [] && s != [] && !OccursAt(s, pat, 0)
    ensures ReplaceAll(s, pat, rep) == [s[0]] + ReplaceAll(s[1..], pat, rep)
  {
    assert |pat| <= |s| ==> s[..|pat|] == s[0..0 + |pat|];
  }

  /** A longer replacement makes the text grow with every match, so the text
      is left unchanged only when it held no match. */
  lemma {:induction false} ReplaceAllGrows(s: string, pat: string, rep: string)
    requires pat != [] && |pat| < |rep|
    ensures |ReplaceAll(s, pat, rep)| >= |s|
    ensures Contains(s, pat) ==> |ReplaceAll(s, pat, rep)| > |s|
    decreases |s|
  {
    if s != [] {
      if pat <= s {
        ReplaceAllGrows(s[|pat|..], pat, rep);
      } else {
        ReplaceAllGrows(s[1..], pat, rep);
      }
    }
  }

  /** When the replacement begins like the pattern, a prefix of the result
      made only of other characters was already a prefix of the input. */
  lemma {:induction false} ReplaceAllKeepsPrefix(s: string, pat: string, rep: string, q: string)
    requires pat != [] && rep != [] && rep[0] == pat[0] && pat[0] !in q
    ensures q <= ReplaceAll(s, pat, rep) ==> q <= s
    decreases |s|
  {
    if s != [] && q != [] {
      if pat <= s {
        assert q[0] != (rep + ReplaceAll(s[|pat|..], pat, rep))[0];
      } else {
        var t := ReplaceAll(s[1..], pat, rep);
        ReplaceAllKeepsPrefix(s[1..], pat, rep, q[1..]);
        if q <= [s[0]] + t {
          assert q[1..] <= t;
          assert q[0] == s[0] && q[1..] <= s[1..];
        }
      }
    }
  }

  /** Every match is consumed and the replacement cannot recreate one: no
      occurrence of the pattern survives. */
  lemma {:induction false} ReplaceAllRemoves(s: string, pat: string, rep: string)
    requires pat != [] && |pat| <= |rep| && !(pat <= rep)
    requires rep[0] == pat[0] && pat[0] !in pat[1..] && pat[0] !in rep[1..]
    ensures !Contains(ReplaceAll(s, pat, rep), pat)
    decreases |s|
  {
    if s != [] {
      if pat <= s {
        var t := ReplaceAll(s[|pat|..], pat, rep);
        ReplaceAllRemoves(s[|pat|..], pat, rep);
        assert (rep + t)[..|pat|] == rep[..|pat|];
        assert (rep + t)[1..] == rep[1..] + t;
        ContainsSkipsPrefix(rep[1..], t, pat);
      } else {
        var t := ReplaceAll(s[1..], pat, rep);
        ReplaceAllRemoves(s[1..], pat, rep);
        ReplaceAllKeepsPrefix(s[1..], pat, rep, pat[1..]);
        assert ([s[0]] + t)[1..] == t;
      }
    }
  }

  /** Replacing pat cannot create an occurrence of another pattern q that
      starts like it but is not a prefix of the replacement. */
  lemma {:induction false} ReplaceAllCreatesNone(s: string, pat: string, rep: string, q: string)
    requires pat != [] && q != [] && |q| <= |rep| && !(q <= rep)
    requires rep[0] == pat[0] && q[0] == pat[0] && q[0] !in q[1..] && q[0] !in rep[1..]
    ensures !Contains(s, q) ==> !Contains(ReplaceAll(s, pat, rep), q)
    decreases |s|
  {
    if s != [] && !Contains(s, q) {
      if pat <= s {
        var t := ReplaceAll(s[|pat|..], pat, rep);
        ContainsInSuffix(s, q, |pat|);
        ReplaceAllCreatesNone(s[|pat|..], pat, rep, q);
        assert (rep + t)[..|q|] == rep[..|q|];
        assert (rep + t)[1..] == rep[1..] + t;
        ContainsSkipsPrefix(rep[1..], t, q);
      } else {
        var t := ReplaceAll(s[1..], pat, rep);
        ReplaceAllCreatesNone(s[1..], pat, rep, q);
        ReplaceAllKeepsPrefix(s[1..], pat, rep, q[1..]);
        assert ([s[0]] + t)[1..] == t;
      }
    }
  }

  /** After the rewrite no relative asset link is left in either spelling. */
  lemma RewriteLeavesNoRelativeLinks(md: string)
    ensures !Contains(RewriteMarkdownPaths(md), DOT_ASSETS)
    ensures !Contains(RewriteMarkdownPaths(md), BARE_ASSETS)
  {
    var once := ReplaceAll(md, DOT_ASSETS, ROOT_ASSETS);
    assert DOT_ASSETS[0] !in DOT_ASSETS[1..];
    assert ROOT_ASSETS[0] !in ROOT_ASSETS[1..];
    assert BARE_ASSETS[0] !in BARE_ASSETS[1..];
    assert DOT_ASSETS[2] != ROOT_ASSETS[2] && BARE_ASSETS[2] != ROOT_ASSETS[2];
    ReplaceAllRemoves(md, DOT_ASSETS, ROOT_ASSETS);
    ReplaceAllCreatesNone(once, BARE_ASSETS, ROOT_ASSETS, DOT_ASSETS);
    ReplaceAllRemoves(once, BARE_ASSETS, ROOT_ASSETS);
  }

  /** The rewrite leaves a text unchanged exactly when it holds neither
      relative spelling; other forms such as `](/assets/` or `](../assets/`
      are never touched. */
  lemma RewriteUnchangedIff(md: string)
    ensures RewriteMarkdownPaths(md) == md <==>
              !Contains(md, DOT_ASSETS) && !Contains(md, BARE_ASSETS)
  {
    var once := ReplaceAll(md, DOT_ASSETS, ROOT_ASSETS);
    ReplaceAllAbsent(md, DOT_ASSETS, ROOT_ASSETS);
    ReplaceAllGrows(md, DOT_ASSETS, ROOT_ASSETS);
    ReplaceAllAbsent(once, BARE_ASSETS, ROOT_ASSETS);
    ReplaceAllGrows(once, BARE_ASSETS, ROOT_ASSETS);
  }

  /** Rewriting an already rewritten text changes nothing. */
  lemma RewriteIdempotent(md: string)
    ensures RewriteMarkdownPaths(RewriteMarkdownPaths(md)) == RewriteMarkdownPaths(md)
  {
    RewriteLeavesNoRelativeLinks(md);
    RewriteUnchangedIff(RewriteMarkdownPaths(md));
  }

  /** A head whose only `]` is its first character, and which differs from
      the pattern at some index k, is copied unchanged: every match of a
      pattern starting with `]` lies wholly after it. */
  lemma HeadCopied(head: string, x: string, pat: string, rep: string, k: nat)
    requires pat != [] && pat[0] == ']' && head != [] && ']' !in head[1..]
    requires k < |head| && k < |pat| && head[k] != pat[k]
    ensures ReplaceAll(head + x, pat, rep) == head + ReplaceAll(x, pat, rep)
  {
    var s := head + x;
    forall j: nat | j < |head|
      ensures !OccursAt(s, pat, j)
    {
      if j + |pat| <= |s| {
        var w := s[j..j + |pat|];
        if j == 0 {
          assert w[k] == head[k];
        } else {
          assert w[0] == head[j] && head[j] == head[1..][j - 1];
        }
      }
    }
    ReplaceAllCopiesPrefix(s, pat, rep, |head|);
    assert s[..|head|] == head && s[|head|..] == x;
  }

  /** A link `](./assets/` becomes `](log/assets/`, and whatever follows it is
      rewritten on its own. */
  lemma RewriteDotLink(rest: string)
    ensures RewriteMarkdownPaths(DOT_ASSETS + rest) == ROOT_ASSETS + RewriteMarkdownPaths(rest)
  {
    var md := DOT_ASSETS + rest;
    assert md[..|DOT_ASSETS|] == DOT_ASSETS && md[|DOT_ASSETS|..] == rest;
    ReplaceAllAtFront(md, DOT_ASSETS, ROOT_ASSETS);
    assert ']' !in ROOT_ASSETS[1..] && ROOT_ASSETS[2] != BARE_ASSETS[2];
    HeadCopied(ROOT_ASSETS, ReplaceAll(rest, DOT_ASSETS, ROOT_ASSETS), BARE_ASSETS, ROOT_ASSETS, 2);
  }

  /** A link `](assets/` becomes `](log/assets/`, and whatever follows it is
      rewritten on its own. */
  lemma RewriteBareLink(rest: string)
    ensures RewriteMarkdownPaths(BARE_ASSETS + rest) == ROOT_ASSETS + RewriteMarkdownPaths(rest)
  {
    var once := ReplaceAll(rest, DOT_ASSETS, ROOT_ASSETS);
    assert ']' !in BARE_ASSETS[1..] && BARE_ASSETS[2] != DOT_ASSETS[2];
    HeadCopied(BARE_ASSETS, rest, DOT_ASSETS, ROOT_ASSETS, 2);
    var md := BARE_ASSETS + once;
    assert md[..|BARE_ASSETS|] == BARE_ASSETS && md[|BARE_ASSETS|..] == once;
    ReplaceAllAtFront(md, BARE_ASSETS, ROOT_ASSETS);
  }

  const ABSOLUTE_ASSETS: string := "](/assets/"
  const PARENT_ASSETS: string := "](../assets/"

  /** Absolute links `](/assets/` and parent links `](../assets/` are kept as
      they are, and whatever follows them is rewritten on its own. */
  lemma RewriteKeepsOtherLinks(rest: string)
    ensures RewriteMarkdownPaths(ABSOLUTE_ASSETS + rest) == ABSOLUTE_ASSETS + RewriteMarkdownPaths(rest)
    ensures RewriteMarkdownPaths(PARENT_ASSETS + rest) == PARENT_ASSETS + RewriteMarkdownPaths(rest)
  {
    var once := ReplaceAll(rest, DOT_ASSETS, ROOT_ASSETS);
    assert ']' !in ABSOLUTE_ASSETS[1..] && ']' !in PARENT_ASSETS[1..];
    assert ABSOLUTE_ASSETS[2] != DOT_ASSETS[2] && ABSOLUTE_ASSETS[2] != BARE_ASSETS[2];
    assert PARENT_ASSETS[3] != DOT_ASSETS[3] && PARENT_ASSETS[2] != BARE_ASSETS[2];
    HeadCopied(ABSOLUTE_ASSETS, rest, DOT_ASSETS, ROOT_ASSETS, 2);
    HeadCopied(ABSOLUTE_ASSETS, once, BARE_ASSETS, ROOT_ASSETS, 2);
    HeadCopied(PARENT_ASSETS, rest, DOT_ASSETS, ROOT_ASSETS, 3);
    HeadCopied(PARENT_ASSETS, once, BARE_ASSETS, ROOT_ASSETS, 2);
  }
}
