/** The page controller of log.js: marking the active row (`setActive`,
    log.js:38-42), resolving a deep link (`tryLoadFromHash`, log.js:171-181),
    start-up (`init`, log.js:183-192) and the search handler (`wireSearch`,
    log.js:154-167). The list rows are modelled by their `active` flags; the
    network, markdown and DOM work of `loadPost` is not part of this model. */
module Session {
  import opened Catalog
  import opened DateOrder
  import opened Search

  /** `setActive(listEl, idx)`: row i is active exactly when i is idx, so at
      most one row is active and none when idx is out of range. */
  method SetActive(active: array<bool>, idx: int)
    modifies active
    ensures forall i :: 0 <= i < active.Length ==> active[i] == (i == idx)
    ensures forall i, j :: 0 <= i < j < active.Length ==> !(active[i] && active[j])
    ensures (exists i :: 0 <= i < active.Length && active[i]) <==> 0 <= idx < active.Length
  {
    for i := 0 to active.Length
      invariant forall k :: 0 <= k < i ==> active[k] == (k == idx)
    {
      active[i] := i == idx;
    }
    assert 0 <= idx < active.Length ==> active[idx];
  }

  /** `hash.replace("#", "")`: a string pattern, so only the first `#` is
      removed, wherever it stands. */
  function StripFirstHash(hash: string): string
    decreases |hash|
  {
    if hash == [] then []
    else if hash[0] == '#' then hash[1..]
    else [hash[0]] + StripFirstHash(hash[1..])
  }

  /** Without a `#` the fragment is kept as it is. */
  lemma {:induction false} StripFirstHashNone(hash: string)
    requires '#' !in hash
    ensures StripFirstHash(hash) == hash
    decreases |hash|
  {
    if hash != [] {
      assert hash[0] != '#' && '#' !in hash[1..];
      StripFirstHashNone(hash[1..]);
      assert hash == [hash[0]] + hash[1..];
    }
  }

  /** When the first `#` stands at index k, exactly that character is cut out. */
  lemma {:induction false} StripFirstHashAt(hash: string, k: nat)
    requires k < |hash| && hash[k] == '#' && '#' !in hash[..k]
    ensures StripFirstHash(hash) == hash[..k] + hash[k + 1..]
    decreases k
  {
    if k > 0 {
      var tail := hash[1..];
      assert hash[0] == hash[..k][0];
      assert tail[..k - 1] == hash[1..k];
      assert '#' !in tail[..k - 1];
      StripFirstHashAt(tail, k - 1);
      assert hash[..k] == [hash[0]] + tail[..k - 1];
      assert tail[k..] == hash[k + 1..];
    }
  }

  /** `posts.findIndex((p) => p.file === file)`: the first index whose post
      has that file, or -1. */
  method FindIndexByFile(posts: array<Post>, file: string) returns (idx: int)
    ensures -1 <= idx < posts.Length
    ensures idx == -1 <==> forall i :: 0 <= i < posts.Length ==> posts[i].file != file
    ensures 0 <= idx ==> posts[idx].file == file &&
                         forall j :: 0 <= j < idx ==> posts[j].file != file
  {
    idx := 0;
    while idx < posts.Length
      invariant 0 <= idx <= posts.Length
      invariant forall j :: 0 <= j < idx ==> posts[j].file != file
    {
      if posts[idx].file == file {
        return;
      }
      idx := idx + 1;
    }
    idx := -1;
  }

  /** `tryLoadFromHash(posts)` on an already decoded fragment: it loads a post
      exactly when the fragment is not empty and names the file of some post,
      and then it loads the first such post; `idx` is the position it passes
      to `loadPost`. */
  method TryLoadFromHash(posts: array<Post>, hash: string) returns (loaded: bool, idx: int)
    ensures var h := StripFirstHash(hash);
      && (loaded <==> h != [] && exists i :: 0 <= i < posts.Length && posts[i].file == h)
      && (loaded ==> 0 <= idx < posts.Length && posts[idx].file == h &&
                     forall j :: 0 <= j < idx ==> posts[j].file != h)
  {
    var h := StripFirstHash(hash);
    loaded, idx := false, -1;
    if h != [] {
      idx := FindIndexByFile(posts, h);
      loaded := idx >= 0;
    }
  }

  /** `init()`: the list is sorted newest first and drawn with no active row;
      `drawn` is the order of the rows. The post named by the fragment is
      opened if there is one; otherwise the list is sorted a second time and
      its first post is opened, if any. `selected` is the position passed to
      `loadPost` and `rows` holds the rows' active flags afterwards. Because
      the comparator orders ties arbitrarily, the default post opened need
      not be the post drawn in row 0: only its date is the same. */
  method Init(posts: array<Post>, hash: string)
    returns (selected: Option<nat>, rows: array<bool>, ghost drawn: seq<Post>)
    modifies posts
    ensures fresh(rows) && rows.Length == posts.Length == |drawn|
    ensures DescendingByDate(drawn) && multiset(drawn) == old(multiset(posts[..]))
    ensures DescendingByDate(posts[..]) && multiset(posts[..]) == old(multiset(posts[..]))
    ensures var h := StripFirstHash(hash);
      if h != [] && exists i :: 0 <= i < |drawn| && drawn[i].file == h then
        && posts[..] == drawn
        && selected.Some? && selected.value < posts.Length
        && posts[selected.value].file == h
        && forall j :: 0 <= j < selected.value ==> posts[j].file != h
      else
        selected == if posts.Length > 0 then Some(0) else None
    ensures selected == Some(0) ==> drawn[0].date == posts[0].date
    ensures selected == Some(0) ==> forall j :: 0 <= j < posts.Length ==> !StrLess(posts[0].date, posts[j].date)
    ensures forall i :: 0 <= i < rows.Length ==> rows[i] == (selected == Some(i))
  {
    SortByDateDesc(posts);
    drawn := posts[..];
    rows := new bool[posts.Length](_ => false);
    var loaded, idx := TryLoadFromHash(posts, hash);
    if loaded {
      selected := Some(idx);
      SetActive(rows, idx);
    } else if posts.Length > 0 {
      SortByDateDesc(posts);
      NewestDateAgrees(drawn, posts[..]);
      ghost var h := StripFirstHash(hash);
      forall i | 0 <= i < posts.Length
        ensures h == [] || posts[i].file != h
      {
        assert posts[i] in multiset(posts[..]);
        assert posts[i] in drawn;
      }
      selected := Some(0);
      SetActive(rows, 0);
    } else {
      selected := None;
    }
    if posts.Length > 0 {
      StrLessIrreflexive(posts[0].date);
    }
  }

  /** The handler `wireSearch` installs: the search result is redrawn sorted
      newest first, with no active row. An empty query hands the full list
      itself to the renderer, which sorts it in place; any other query builds
      a new list and leaves the full list alone. `rows` holds the new rows'
      active flags. */
  method OnSearchInput(all: array<Post>, input: string) returns (shown: array<Post>, rows: array<bool>)
    modifies all
    ensures NormalizeQuery(input) == [] ==> shown == all
    ensures NormalizeQuery(input) != [] ==> fresh(shown) && all[..] == old(all[..])
    ensures DescendingByDate(shown[..])
    ensures multiset(shown[..]) == multiset(SearchPosts(old(all[..]), input))
    ensures fresh(rows) && rows.Length == shown.Length
    ensures forall i :: 0 <= i < rows.Length ==> !rows[i]
  {
    var q := NormalizeQuery(input);
    if q == [] {
      shown := all;
    } else {
      shown := ArrayOf(Filter(all[..], q));
    }
    SortByDateDesc(shown);
    rows := new bool[shown.Length](_ => false);
  }

  /** A new array holding the posts of s, in order. */
  method ArrayOf(s: seq<Post>) returns (a: array<Post>)
    ensures fresh(a) && a[..] == s
  {
    a := new Post[|s|](i requires 0 <= i < |s| => s[i]);
    assert a[..] == s;
  }
}
