/** The client-side search of the list page (js/search.js): `filterPosts` narrows the posts to
    the active tag and keeps those whose title, description, excerpt, category or some tag
    contains the query, ignoring case; `resetSearch` clears the search box. */
module Search {
  import opened Collections
  import opened Strings
  import opened Posts

  /** `query.toLowerCase().trim()`. */
  function Normalize(query: string): string {
    Trim(Lower(query))
  }

  /** A normalized query neither starts nor ends with white space and has no upper-case
      ASCII letter. */
  lemma NormalizedShape(query: string)
    ensures var r := Normalize(query);
      (r == [] || (!IsSpace(r[0]) && !IsSpace(r[|r| - 1]))) &&
      forall i :: 0 <= i < |r| ==> !('A' <= r[i] <= 'Z')
  {
    var l := Lower(query);
    var k := TrimIsInnerSlice(l);
    var r := Trim(l);
    assert Normalize(query) == r;
    assert r == [] || (!IsSpace(r[0]) && !IsSpace(r[|r| - 1]));
    forall i | 0 <= i < |r|
      ensures !('A' <= r[i] <= 'Z')
    {
      assert r[i] == l[k + i] == LowerChar(query[k + i]);
      LowerCharNotUpper(query[k + i]);
    }
  }

  /** Normalizing is idempotent, so a normalized query is its own normal form. */
  lemma NormalizeIdempotent(query: string)
    ensures Normalize(Normalize(query)) == Normalize(query)
  {
    var q := Lower(query);
    LowerTrimCommute(q);
    LowerIdempotent(query);
    TrimIdempotent(q);
  }

  /** A query and its upper-case letters lowered give the same search. */
  lemma NormalizeIgnoresCase(query: string)
    ensures Normalize(Lower(query)) == Normalize(query)
  {
    LowerIdempotent(query);
  }

  /** The posts the search starts from: with a truthy active tag, the posts carrying it;
      otherwise all posts. */
  function Candidates(posts: seq<Post>, activeTag: Option<string>): (r: seq<Post>)
    ensures Present(activeTag) ==> forall p :: p in r <==> p in posts && HasTag(p, activeTag.value)
    ensures Present(activeTag) ==>
      forall p :: multiset(r)[p] == if HasTag(p, activeTag.value) then multiset(posts)[p] else 0
    ensures !Present(activeTag) ==> r == posts
    ensures IsSubsequence(r, posts)
  {
    if Present(activeTag) then WithTag(posts, activeTag.value)
    else
      FilterAll(posts, p => true);
      FilterIsSubsequence(posts, p => true);
      posts
  }

  /** `field && field.toLowerCase().includes(q)`: an absent or empty field never matches. */
  predicate FieldHit(field: Option<string>, q: string) {
    Present(field) && Contains(Lower(field.value), q)
  }

  /** `tags.some(tag => tag.toLowerCase().includes(q))`. */
  function SomeTagHits(tags: seq<string>, q: string): (r: bool)
    ensures r <==> exists i :: 0 <= i < |tags| && Contains(Lower(tags[i]), q)
  {
    if tags == [] then false
    else if Contains(Lower(tags[0]), q) then true
    else
      var rest := SomeTagHits(tags[1..], q);
      assert forall i :: 1 <= i < |tags| ==> tags[i] == tags[1..][i - 1];
      assert rest ==> exists i :: 0 <= i < |tags| && Contains(Lower(tags[i]), q) by {
        if rest {
          var i :| 0 <= i < |tags[1..]| && Contains(Lower(tags[1..][i]), q);
          assert tags[i + 1] == tags[1..][i];
        }
      }
      rest
  }

  /** The callback of `searchPosts.filter`: the title, description, excerpt or category
      contains `q`, or, when `tags` is an array, one of the tags does. */
  predicate Matches(post: Post, q: string) {
    FieldHit(post.title, q) || FieldHit(post.description, q) || FieldHit(post.excerpt, q) ||
    FieldHit(post.category, q) || (post.tags.Some? && SomeTagHits(post.tags.value, q))
  }

  /** `filterPosts(query)` once `blogApp` has handed over the posts and the active tag: the
      list it renders. */
  function FilterPosts(posts: seq<Post>, activeTag: Option<string>, query: string): (r: seq<Post>)
    ensures Normalize(query) == [] ==> r == Candidates(posts, activeTag)
    ensures Normalize(query) != [] ==>
      forall p :: p in r <==> p in Candidates(posts, activeTag) && Matches(p, Normalize(query))
    ensures Normalize(query) != [] ==>
      forall p :: multiset(r)[p] == if Matches(p, Normalize(query)) then multiset(Candidates(posts, activeTag))[p] else 0
    ensures IsSubsequence(r, Candidates(posts, activeTag))
  {
    var candidates := Candidates(posts, activeTag);
    var q := Normalize(query);
    if q == [] then
      FilterAll(candidates, p => true);
      FilterIsSubsequence(candidates, p => true);
      candidates
    else
      FilterIsSubsequence(candidates, p => Matches(p, q));
      Filter(candidates, p => Matches(p, q))
  }

  /** The search is the tag filter followed by the text filter: with a truthy active tag and
      a non-blank query, it keeps the posts that carry the tag and match, in order. */
  lemma TagThenText(posts: seq<Post>, tag: string, query: string)
    requires tag != "" && Normalize(query) != []
    ensures FilterPosts(posts, Some(tag), query)
      == Filter(posts, p => HasTag(p, tag) && Matches(p, Normalize(query)))
  {
    var q := Normalize(query);
    assert FilterPosts(posts, Some(tag), query) == Filter(WithTag(posts, tag), p => Matches(p, q));
    FilterFilter(posts, p => HasTag(p, tag), p => Matches(p, q),
      p => HasTag(p, tag) && Matches(p, Normalize(query)));
  }

  /** A blank query leaves the candidates unchanged, and with no truthy active tag that is
      every post. */
  lemma BlankQueryShowsAll(posts: seq<Post>, activeTag: Option<string>, query: string)
    requires forall i :: 0 <= i < |query| ==> IsSpace(query[i])
    ensures FilterPosts(posts, activeTag, query) == Candidates(posts, activeTag)
  {
    var l := Lower(query);
    forall i | 0 <= i < |l|
      ensures IsSpace(l[i])
    {
      LowerCharSpace(query[i]);
    }
    TrimStartAllSpace(l);
  }

  /** A post whose text fields are all absent or empty and whose `tags` is not an array is
      never found by a non-blank query. */
  lemma AbsentFieldsNeverMatch(post: Post, posts: seq<Post>, activeTag: Option<string>, query: string)
    requires !Present(post.title) && !Present(post.description) && !Present(post.excerpt)
    requires !Present(post.category) && post.tags.None?
    requires Normalize(query) != []
    ensures post !in FilterPosts(posts, activeTag, query)
  {
  }

  /** The case of the query's letters does not matter: searching for the query or for its
      lowered form gives the same list. */
  lemma QueryCaseIrrelevant(posts: seq<Post>, activeTag: Option<string>, query: string)
    ensures FilterPosts(posts, activeTag, Lower(query)) == FilterPosts(posts, activeTag, query)
  {
    NormalizeIgnoresCase(query);
  }

  /** The search box (`#search-input`). */
  class SearchBox {
    var value: string

    constructor (initial: string)
      ensures value == initial
    {
      value := initial;
    }

    /** `resetSearch`: clears the typed query and renders nothing. */
    method Reset()
      modifies this
      ensures value == ""
    {
      value := "";
    }
  }
}
