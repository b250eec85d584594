/** The tag index of the list page (js/app.js `renderTags`): how often each tag occurs over
    all posts, filled into the `tagCount` dictionary by two nested `forEach` loops, and the
    sorted list of distinct tags, `Object.keys(tagCount).sort()`. */
module TagIndex {
  import opened Posts

  // ----- Occurrences -----

  /** How many times `tag` appears in `tags`. */
  function CountIn(tags: seq<string>, tag: string): nat
    decreases |tags|
  {
    if tags == [] then 0
    else CountIn(tags[..|tags| - 1], tag) + (if tags[|tags| - 1] == tag then 1 else 0)
  }

  /** A tag is counted at least once exactly when it appears. */
  lemma {:induction false} CountInPositive(tags: seq<string>, tag: string)
    ensures CountIn(tags, tag) > 0 <==> tag in tags
    decreases |tags|
  {
    if tags != [] {
      var init := tags[..|tags| - 1];
      CountInPositive(init, tag);
      assert tags == init + [tags[|tags| - 1]];
    }
  }

  /** The tags a post contributes: its array, or none when `tags` is not an array. */
  function TagsOf(post: Post): seq<string> {
    if post.tags.Some? then post.tags.value else []
  }

  /** The total number of occurrences of `tag` across the `tags` arrays of `posts`. */
  function Occurrences(posts: seq<Post>, tag: string): nat
    decreases |posts|
  {
    if posts == [] then 0
    else Occurrences(posts[..|posts| - 1], tag) + CountIn(TagsOf(posts[|posts| - 1]), tag)
  }

  /** A tag occurs exactly when some post carries it, that is, when filtering by it keeps
      some post; so no tag button leads to an empty list. */
  lemma {:induction false} OccurrencesPositive(posts: seq<Post>, tag: string)
    ensures Occurrences(posts, tag) > 0 <==> WithTag(posts, tag) != []
    decreases |posts|
  {
    if posts != [] {
      var init, last := posts[..|posts| - 1], posts[|posts| - 1];
      OccurrencesPositive(init, tag);
      CountInPositive(TagsOf(last), tag);
      assert posts == init + [last];
      assert HasTag(last, tag) <==> tag in TagsOf(last);
      NoneCarries(init, tag);
      NoneCarries(posts, tag);
    }
  }

  /** The tag filter keeps nothing exactly when no post carries the tag. */
  lemma NoneCarries(posts: seq<Post>, tag: string)
    ensures WithTag(posts, tag) == [] <==> forall p :: p in posts ==> !HasTag(p, tag)
  {
    if WithTag(posts, tag) != [] {
      assert WithTag(posts, tag)[0] in WithTag(posts, tag);
    }
  }

  // ----- The `tagCount` dictionary -----

  /** No element occurs twice. */
  predicate Distinct(xs: seq<string>) {
    forall i, j :: 0 <= i < j < |xs| ==> xs[i] != xs[j]
  }

  /** `counts` holds the occurrences over `posts` followed by the tags `extra`, exactly for
      the tags that occur, and `keys` lists its keys once each in the order they were added. */
  ghost predicate Tallied(counts: map<string, nat>, keys: seq<string>, posts: seq<Post>, extra: seq<string>) {
    (forall t :: t in counts <==> Occurrences(posts, t) + CountIn(extra, t) > 0) &&
    (forall t :: t in counts ==> counts[t] == Occurrences(posts, t) + CountIn(extra, t)) &&
    Distinct(keys) && (forall t :: t in keys <==> t in counts)
  }

  /** `tagCount[tag] = (tagCount[tag] || 0) + 1`, with the key order `Object.keys` reports. */
  lemma CountStep(counts: map<string, nat>, keys: seq<string>, posts: seq<Post>, tags: seq<string>, j: nat)
    requires j < |tags| && Tallied(counts, keys, posts, tags[..j])
    ensures var tag := tags[j];
      var n := if tag in counts then counts[tag] else 0;
      Tallied(counts[tag := n + 1], if tag in counts then keys else keys + [tag], posts, tags[..j + 1])
  {
    assert tags[..j + 1][..j] == tags[..j];
  }

  /** The nested `forEach` loops of `renderTags` over `posts` and each post's tags. */
  method CountTags(posts: seq<Post>) returns (counts: map<string, nat>, keys: seq<string>)
    ensures forall t :: t in counts <==> Occurrences(posts, t) > 0
    ensures forall t :: t in counts ==> counts[t] == Occurrences(posts, t)
    ensures Distinct(keys) && forall t :: t in keys <==> t in counts
  {
    counts, keys := map[], [];
    var i := 0;
    while i < |posts|
      invariant 0 <= i <= |posts|
      invariant Tallied(counts, keys, posts[..i], [])
    {
      counts, keys := CountPostTags(counts, keys, posts[..i], TagsOf(posts[i]));
      NextPost(counts, keys, posts, i);
      i := i + 1;
    }
    assert posts[..i] == posts;
  }

  /** The inner `forEach` over one post's `tags`, after the posts `done`. */
  method CountPostTags(counts0: map<string, nat>, keys0: seq<string>, ghost done: seq<Post>, tags: seq<string>)
    returns (counts: map<string, nat>, keys: seq<string>)
    requires Tallied(counts0, keys0, done, [])
    ensures Tallied(counts, keys, done, tags)
  {
    counts, keys := counts0, keys0;
    var j := 0;
    while j < |tags|
      invariant 0 <= j <= |tags|
      invariant Tallied(counts, keys, done, tags[..j])
    {
      CountStep(counts, keys, done, tags, j);
      var tag := tags[j];
      if tag !in counts {
        keys := keys + [tag];
      }
      counts := counts[tag := (if tag in counts then counts[tag] else 0) + 1];
      j := j + 1;
    }
    assert tags[..j] == tags;
  }

  /** Counting a post's tags after the posts before it is counting one more post. */
  lemma NextPost(counts: map<string, nat>, keys: seq<string>, posts: seq<Post>, i: nat)
    requires i < |posts| && Tallied(counts, keys, posts[..i], TagsOf(posts[i]))
    ensures Tallied(counts, keys, posts[..i + 1], [])
  {
    assert posts[..i + 1][..i] == posts[..i];
  }

  // ----- The order of `sort()` -----

  /** The default order of `Array.prototype.sort` on strings: `a` comes strictly before `b`
      when it is a proper prefix of `b` or is smaller at the first position they differ. */
  predicate Below(a: string, b: string)
    decreases |a|
  {
    |b| > 0 && (|a| == 0 || a[0] < b[0] || (a[0] == b[0] && Below(a[1..], b[1..])))
  }

  lemma {:induction false} BelowIrreflexive(a: string)
    ensures !Below(a, a)
    decreases |a|
  {
    if |a| > 0 {
      BelowIrreflexive(a[1..]);
    }
  }

  /** Of two different strings, one is below the other. */
  lemma {:induction false} BelowTotal(a: string, b: string)
    requires a != b
    ensures Below(a, b) || Below(b, a)
    decreases |a|
  {
    if |a| > 0 && |b| > 0 && a[0] == b[0] {
      assert a == [a[0]] + a[1..] && b == [b[0]] + b[1..];
      BelowTotal(a[1..], b[1..]);
    }
  }

  lemma {:induction false} BelowTransitive(a: string, b: string, c: string)
    requires Below(a, b) && Below(b, c)
    ensures Below(a, c)
    decreases |a|
  {
    if |a| > 0 && a[0] == b[0] && b[0] == c[0] {
      BelowTransitive(a[1..], b[1..], c[1..]);
    }
  }

  /** Never both ways. */
  lemma BelowAsymmetric(a: string, b: string)
    ensures !(Below(a, b) && Below(b, a))
  {
    if Below(a, b) && Below(b, a) {
      BelowTransitive(a, b, a);
      BelowIrreflexive(a);
    }
  }

  /** Every element is strictly below every later one: sorted and without duplicates. */
  predicate StrictlySorted(xs: seq<string>) {
    forall i, j :: 0 <= i < j < |xs| ==> Below(xs[i], xs[j])
  }

  // ----- `sort()` -----

  /** Inserts `x` into the sorted `s` in front of the first element not below it. */
  function Insert(x: string, s: seq<string>): (r: seq<string>)
    ensures multiset(r) == multiset(s) + multiset{x}
  {
    if s == [] then [x]
    else if Below(s[0], x) then
      assert s == [s[0]] + s[1..];
      [s[0]] + Insert(x, s[1..])
    else [x] + s
  }

  /** Inserting a new element into a sorted list keeps it sorted. */
  lemma {:induction false} InsertSorted(x: string, s: seq<string>)
    requires StrictlySorted(s) && x !in s
    ensures StrictlySorted(Insert(x, s))
    decreases |s|, 1
  {
    if s != [] {
      if Below(s[0], x) {
        InsertBehindHead(x, s);
      } else {
        BelowTotal(x, s[0]);
        forall j | 0 <= j < |s|
          ensures Below(x, s[j])
        {
          if j > 0 {
            BelowTransitive(x, s[0], s[j]);
          }
        }
      }
    }
  }

  /** The case where `x` goes behind the head: the head stays first, below all the rest. */
  lemma {:induction false} InsertBehindHead(x: string, s: seq<string>)
    requires StrictlySorted(s) && x !in s && s != [] && Below(s[0], x)
    ensures StrictlySorted(Insert(x, s))
    decreases |s|, 0
  {
    InsertSorted(x, s[1..]);
    var r := Insert(x, s[1..]);
    forall y | y in r
      ensures Below(s[0], y)
    {
      assert y in multiset(r);
      if y != x {
        assert y in s[1..];
      }
    }
    assert Insert(x, s) == [s[0]] + r;
  }

  /** `keys.sort()` by insertion. */
  function Sort(keys: seq<string>): (r: seq<string>)
    ensures multiset(r) == multiset(keys)
  {
    if keys == [] then []
    else
      assert keys == [keys[0]] + keys[1..];
      Insert(keys[0], Sort(keys[1..]))
  }

  /** Sorting distinct keys gives them strictly ascending. */
  lemma {:induction false} SortSorted(keys: seq<string>)
    requires Distinct(keys)
    ensures StrictlySorted(Sort(keys))
  {
    if keys != [] {
      var rest := keys[1..];
      assert Distinct(rest);
      SortSorted(rest);
      assert keys[0] !in multiset(rest);
      assert keys[0] !in Sort(rest) by {
        assert multiset(Sort(rest)) == multiset(rest);
      }
      InsertSorted(keys[0], Sort(rest));
    }
  }

  /** Two strictly sorted lists with the same elements are equal: the sorted tag list depends
      only on which tags occur, not on the order the posts mention them. */
  lemma {:induction false} SortedUnique(a: seq<string>, b: seq<string>)
    requires StrictlySorted(a) && StrictlySorted(b)
    requires forall t :: t in a <==> t in b
    ensures a == b
    decreases |a|
  {
    HeadIn(a);
    HeadIn(b);
    if a != [] && b != [] {
      TailMembers(a, b[0]);
      TailMembers(b, a[0]);
      BelowAsymmetric(a[0], b[0]);
      forall t
        ensures t in a[1..] <==> t in b[1..]
      {
        TailMembers(a, t);
        TailMembers(b, t);
      }
      SortedUnique(a[1..], b[1..]);
    }
  }

  lemma HeadIn(s: seq<string>)
    ensures s != [] ==> s[0] in s
  {
  }

  /** In a strictly sorted list, the elements after the first are the others, all above it. */
  lemma TailMembers(s: seq<string>, t: string)
    requires StrictlySorted(s) && s != []
    ensures t in s[1..] <==> t in s && t != s[0]
    ensures t in s && t != s[0] ==> Below(s[0], t)
  {
    BelowIrreflexive(s[0]);
    if t in s && t != s[0] {
      var k :| 0 <= k < |s| && s[k] == t;
      assert s[1..][k - 1] == t;
    }
    if t in s[1..] {
      var k :| 0 <= k < |s| - 1 && s[1..][k] == t;
      assert s[k + 1] == t;
    }
  }

  /** `Object.keys(tagCount).sort()` for the posts: strictly ascending, and holding exactly the
      tags that occur in some post's `tags` array. */
  lemma AllTagsSpec(posts: seq<Post>, counts: map<string, nat>, keys: seq<string>)
    requires forall t :: t in counts <==> Occurrences(posts, t) > 0
    requires Distinct(keys) && forall t :: t in keys <==> t in counts
    ensures StrictlySorted(Sort(keys))
    ensures forall t :: t in Sort(keys) <==> WithTag(posts, t) != []
  {
    SortSorted(keys);
    forall t
      ensures t in Sort(keys) <==> WithTag(posts, t) != []
    {
      OccurrencesPositive(posts, t);
      assert t in Sort(keys) <==> t in multiset(keys);
    }
  }
}
