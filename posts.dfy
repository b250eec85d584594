/** The entries of `posts.json` as the list page and the search see them, the tag filter
    (js/app.js `post.tags.includes(tag)`), and the fields a post card shows. */
module Posts {
  import opened Collections

  /** One entry of `posts.json`. A field missing from the entry is `None`; `tags` is `None`
      also when the entry's `tags` is present but not an array. */
  datatype Post = Post(
    file: Option<string>,
    title: Option<string>,
    date: Option<string>,
    category: Option<string>,
    description: Option<string>,
    excerpt: Option<string>,
    tags: Option<seq<string>>)

  /** JavaScript truthiness of a string field: present and not empty. */
  predicate Present(field: Option<string>) {
    field.Some? && field.value != ""
  }

  /** `Array.isArray(post.tags) && post.tags.includes(tag)`. */
  predicate HasTag(post: Post, tag: string) {
    post.tags.Some? && tag in post.tags.value
  }

  /** `posts.filter(post => Array.isArray(post.tags) && post.tags.includes(tag))`: exactly the
      posts carrying the tag, in their original order. */
  function WithTag(posts: seq<Post>, tag: string): (r: seq<Post>)
    ensures forall p :: p in r <==> p in posts && HasTag(p, tag)
    ensures forall p :: multiset(r)[p] == if HasTag(p, tag) then multiset(posts)[p] else 0
    ensures IsSubsequence(r, posts)
  {
    FilterIsSubsequence(posts, p => HasTag(p, tag));
    Filter(posts, p => HasTag(p, tag))
  }

  /** Filtering by the same tag twice is filtering once. */
  lemma WithTagIdempotent(posts: seq<Post>, tag: string)
    ensures WithTag(WithTag(posts, tag), tag) == WithTag(posts, tag)
  {
    var r := WithTag(posts, tag);
    FilterAll(r, p => HasTag(p, tag));
  }

  /** What `escapeHtml` is given and shows for a string field: its text, or "" when falsy.
      The escaping itself is not part of this model. */
  function Shown(field: Option<string>): (r: string)
    ensures Present(field) ==> r == field.value
    ensures !Present(field) ==> r == ""
  {
    if Present(field) then field.value else ""
  }

  /** `post.description || post.excerpt || ""`. */
  function Description(post: Post): (r: string)
    ensures r != "" <==> Present(post.description) || Present(post.excerpt)
    ensures Present(post.description) ==> r == post.description.value
    ensures !Present(post.description) && Present(post.excerpt) ==> r == post.excerpt.value
  {
    if Present(post.description) then post.description.value
    else if Present(post.excerpt) then post.excerpt.value
    else ""
  }

  /** What one post card shows, in page order: the link target, the title, the date, the
      category segment (only for a truthy category), the description paragraph (only for a
      non-empty description), and one chip per tag. */
  datatype Card = Card(
    file: Option<string>,
    title: string,
    date: string,
    category: Option<string>,
    description: Option<string>,
    tags: seq<string>)

  /** The card `renderPosts` builds for one post. */
  function CardOf(post: Post): (c: Card)
    ensures c.file == post.file && c.title == Shown(post.title) && c.date == Shown(post.date)
    ensures c.category.Some? <==> Present(post.category)
    ensures c.category.Some? ==> c.category.value == post.category.value
    ensures c.description.Some? <==> Present(post.description) || Present(post.excerpt)
    ensures c.description.Some? ==> c.description.value == Description(post)
    ensures post.tags.Some? ==> c.tags == post.tags.value
    ensures post.tags.None? ==> c.tags == []
  {
    var description := Description(post);
    Card(
      post.file,
      Shown(post.title),
      Shown(post.date),
      if Present(post.category) then Some(post.category.value) else None,
      if description != "" then Some(description) else None,
      if post.tags.Some? && |post.tags.value| > 0 then post.tags.value else [])
  }

  /** `posts.map(card)`: one card per post, in the order of the posts. */
  function Cards(posts: seq<Post>): (r: seq<Card>)
    ensures |r| == |posts|
    ensures forall i :: 0 <= i < |posts| ==> r[i] == CardOf(posts[i])
  {
    if posts == [] then [] else [CardOf(posts[0])] + Cards(posts[1..])
  }

  /** The cards of two lists one after the other are the cards of the joined list. */
  lemma {:induction false} CardsAppend(a: seq<Post>, b: seq<Post>)
    ensures Cards(a + b) == Cards(a) + Cards(b)
  {
    if a != [] {
      assert (a + b)[1..] == a[1..] + b;
      CardsAppend(a[1..], b);
    } else {
      assert a + b == b;
    }
  }
}
