/** The search filter that `wireSearch` runs on every input event
    (log.js:154-167): the query is trimmed and lower-cased; an empty query
    shows every post, any other keeps, in order, the posts whose lower-cased
    title, one of whose lower-cased tags, or whose raw date contains it. */
module Search {
  import opened Text
  import opened Catalog

  /** `input.value.trim().toLowerCase()` */
  function NormalizeQuery(input: string): string
  {
    Lower(Trim(input))
  }

  /** `(p.tags ?? []).some((t) => t.toLowerCase().includes(q))` over the tag
      list. */
  function SomeTagContains(tags: seq<string>, q: string): (b: bool)
    ensures b <==> exists i :: 0 <= i < |tags| && Contains(Lower(tags[i]), q)
    decreases |tags|
  {
    if tags == [] then false
    else Contains(Lower(tags[0]), q) || SomeTagContains(tags[1..], q)
  }

  /** The predicate handed to `filter`. */
  predicate Matches(p: Post, q: string)
  {
    || Contains(Lower(p.title), q)
    || SomeTagContains(TagsOrEmpty(p), q)
    || Contains(p.date, q)
  }

  /** `posts.filter(...)`: the matching posts, in their original order. */
  function Filter(posts: seq<Post>, q: string): seq<Post>
    decreases |posts|
  {
    if posts == [] then []
    else (if Matches(posts[0], q) then [posts[0]] else []) + Filter(posts[1..], q)
  }

  /** The list the search hands to the renderer. */
  function SearchPosts(all: seq<Post>, input: string): seq<Post>
  {
    var q := NormalizeQuery(input);
    if q == [] then all else Filter(all, q)
  }

  /** r can be obtained from s by deleting elements, keeping the order. */
  predicate IsSubsequence<T(==)>(r: seq<T>, s: seq<T>)
    decreases |s|
  {
    if r == [] then true
    else if s == [] then false
    else if r[0] == s[0] then IsSubsequence(r[1..], s[1..])
    else IsSubsequence(r, s[1..])
  }

  /** Filter keeps every matching occurrence and drops every other one. */
  lemma {:induction false} FilterCounts(posts: seq<Post>, q: string)
    ensures forall x :: multiset(Filter(posts, q))[x] ==
                          if Matches(x, q) then multiset(posts)[x] else 0
    decreases |posts|
  {
    if posts != [] {
      FilterCounts(posts[1..], q);
      assert posts == [posts[0]] + posts[1..];
    }
  }

  /** A post is in the filtered list exactly when it is in the input and
      matches the query. */
  lemma FilterMembership(posts: seq<Post>, q: string)
    ensures forall x :: x in Filter(posts, q) <==> x in posts && Matches(x, q)
  {
    FilterCounts(posts, q);
    forall x ensures x in Filter(posts, q) <==> x in posts && Matches(x, q) {
      assert x in Filter(posts, q) <==> x in multiset(Filter(posts, q));
      assert x in posts <==> x in multiset(posts);
    }
  }

  /** The filtered list keeps the input's order. */
  lemma {:induction false} FilterIsSubsequence(posts: seq<Post>, q: string)
    ensures IsSubsequence(Filter(posts, q), posts)
    decreases |posts|
  {
    if posts != [] {
      var rest := Filter(posts[1..], q);
      FilterIsSubsequence(posts[1..], q);
      if !Matches(posts[0], q) && rest != [] {
        FilterMembership(posts[1..], q);
        assert rest[0] in rest && Matches(rest[0], q);
        assert rest[0] != posts[0];
        assert Filter(posts, q) == rest;
      }
    }
  }

  /** A query that trims to nothing, and only such a query, shows the full
      list, with the same posts in the same order. */
  lemma SearchEmptyQuery(all: seq<Post>, input: string)
    ensures NormalizeQuery(input) == [] <==> forall i :: 0 <= i < |input| ==> IsWhitespace(input[i])
    ensures NormalizeQuery(input) == [] ==> SearchPosts(all, input) == all
  {
  }

  /** Any other query yields the posts that match it, as an order-preserving
      subsequence of the full list: each matching post is kept as often as
      it occurs and no other post is kept. */
  lemma SearchNonEmptyQuery(all: seq<Post>, input: string)
    requires NormalizeQuery(input) != []
    ensures var q, r := NormalizeQuery(input), SearchPosts(all, input);
      && IsSubsequence(r, all)
      && (forall x :: multiset(r)[x] == if Matches(x, q) then multiset(all)[x] else 0)
      && (forall x :: x in r <==> x in all && Matches(x, q))
  {
    var q := NormalizeQuery(input);
    FilterIsSubsequence(all, q);
    FilterCounts(all, q);
    FilterMembership(all, q);
  }
}
