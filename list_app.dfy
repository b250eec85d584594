/** The list page (js/app.js): the module state `allPosts`, `allTags` and `activeTag`, the tag
    bar built by `renderTags` and restyled by `updateActiveTagButton`, the post cards written by
    `renderPosts`, the click handlers, and the search box's `filterPosts` (js/search.js) that
    renders through the page once `window.blogApp` is published. The page's elements are kept
    as the values they show. */
module ListApp {
  import opened Collections
  import opened Posts
  import opened TagIndex
  import opened Search

  /** A button of the tag bar: "전체" (no `data-tag`), or one per tag with its count. */
  datatype Button = AllButton(active: bool) | TagButton(tag: string, count: nat, active: bool)

  /** `btn.dataset.tag`: absent on the "전체" button. */
  function DataTag(b: Button): Option<string> {
    if b.TagButton? then Some(b.tag) else None
  }

  /** The rule of `updateActiveTagButton`: with no active tag, a button without a truthy
      `data-tag` is active; otherwise the button whose tag equals the active tag is. */
  predicate ActiveFor(activeTag: Option<string>, tag: Option<string>) {
    (activeTag.None? && !Present(tag)) || (tag.Some? && tag == activeTag)
  }

  /** The buttons `renderTags` creates for the sorted tags: "전체", marked active, then one
      inactive button per tag with its number of occurrences in `posts`. */
  function TagBar(posts: seq<Post>, tags: seq<string>): (r: seq<Button>)
    ensures |r| == |tags| + 1 && r[0] == AllButton(true)
    ensures forall j :: 0 <= j < |tags| ==> r[j + 1] == TagButton(tags[j], Occurrences(posts, tags[j]), false)
  {
    [AllButton(true)] + seq(|tags|, j requires 0 <= j < |tags| => TagButton(tags[j], Occurrences(posts, tags[j]), false))
  }

  /** One more tag, one more button at the end. */
  lemma TagBarStep(posts: seq<Post>, tags: seq<string>, i: nat)
    requires i < |tags|
    ensures TagBar(posts, tags[..i + 1])
      == TagBar(posts, tags[..i]) + [TagButton(tags[i], Occurrences(posts, tags[i]), false)]
  {
    var a, b := TagBar(posts, tags[..i + 1]), TagBar(posts, tags[..i]) + [TagButton(tags[i], Occurrences(posts, tags[i]), false)];
    assert |a| == |b|;
    forall j | 0 <= j < |a|
      ensures a[j] == b[j]
    {
      if 0 < j <= i {
        assert tags[..i + 1][j - 1] == tags[..i][j - 1];
      }
    }
  }

  /** A button restyled by the rule. */
  function Restyled(b: Button, activeTag: Option<string>): Button {
    var on := ActiveFor(activeTag, DataTag(b));
    if b.AllButton? then AllButton(on) else b.(active := on)
  }

  /** After restyling, every button is active exactly by the rule, and nothing else about the
      buttons changes. */
  lemma RestyledSpec(b: Button, activeTag: Option<string>)
    ensures Restyled(b, activeTag).active <==> ActiveFor(activeTag, DataTag(b))
    ensures DataTag(Restyled(b, activeTag)) == DataTag(b)
    ensures b.TagButton? ==> Restyled(b, activeTag).count == b.count
  {
  }

  /** Which button of the tag bar is active: with an active tag, the buttons carrying it
      (one, as the tags are distinct); with none, "전체", and also a button for the empty tag,
      since `!""` holds. */
  lemma OnlyActiveTagButton(posts: seq<Post>, tags: seq<string>, activeTag: Option<string>, i: nat)
    requires i < |tags| + 1
    ensures var b := Restyled(TagBar(posts, tags)[i], activeTag);
      b.active <==> (i == 0 && activeTag.None?) ||
                    (i > 0 && (activeTag == Some(tags[i - 1]) || (activeTag.None? && tags[i - 1] == "")))
  {
    var bar := TagBar(posts, tags);
    if i > 0 {
      assert bar[i] == TagButton(tags[i - 1], Occurrences(posts, tags[i - 1]), false);
    }
  }

  /** What `style.display` of the no-results element was last set to. */
  datatype Display = Untouched | Block | Hidden

  class App {
    /** Whether `#tags-container`, `#posts-container` and `#no-results` exist. */
    const hasTagsContainer: bool
    const hasPostsContainer: bool
    const hasNoResults: bool
    /** The search box `window.blogSearch.reset` clears, when there is one. */
    const searchBox: SearchBox?

    var allPosts: seq<Post>
    var allTags: seq<string>
    var activeTag: Option<string>
    var buttons: seq<Button>
    var cards: seq<Card>
    var noResults: Display
    /** Whether `window.blogApp` has been set, which `filterPosts` needs. */
    var published: bool

    /** The page before `init` has run. */
    constructor (hasTags: bool, hasPosts: bool, hasNoResultsElement: bool, box: SearchBox?)
      ensures hasTagsContainer == hasTags && hasPostsContainer == hasPosts
      ensures hasNoResults == hasNoResultsElement && searchBox == box
      ensures allPosts == [] && allTags == [] && activeTag == None && buttons == []
      ensures cards == [] && noResults == Untouched && !published
    {
      hasTagsContainer, hasPostsContainer, hasNoResults, searchBox := hasTags, hasPosts, hasNoResultsElement, box;
      allPosts, allTags, activeTag, buttons := [], [], None, [];
      cards, noResults, published := [], Untouched, false;
    }

    /** `fetchPosts`: `outcome` is the parsed `posts.json`, or `None` when the request or the
        parse failed. On success the list is stored and returned; on failure `[]` is
        returned and `allPosts` is left as it was. */
    method FetchPosts(outcome: Option<seq<Post>>) returns (posts: seq<Post>)
      modifies this
      ensures outcome.Some? ==> allPosts == outcome.value && posts == outcome.value
      ensures outcome.None? ==> allPosts == old(allPosts) && posts == []
      ensures allTags == old(allTags) && activeTag == old(activeTag) && buttons == old(buttons)
      ensures cards == old(cards) && noResults == old(noResults) && published == old(published)
    {
      if outcome.None? {
        return [];
      }
      allPosts := outcome.value;
      return allPosts;
    }

    /** `renderTags(posts)`: counts the tags, stores them sorted in `allTags`, and builds the
        tag bar. Without a tags container nothing happens. */
    method RenderTags(posts: seq<Post>)
      modifies this
      ensures !hasTagsContainer ==> allTags == old(allTags) && buttons == old(buttons)
      ensures hasTagsContainer ==> StrictlySorted(allTags) && buttons == TagBar(posts, allTags)
      ensures hasTagsContainer ==> forall t :: t in allTags <==> WithTag(posts, t) != []
      ensures allPosts == old(allPosts) && activeTag == old(activeTag)
      ensures cards == old(cards) && noResults == old(noResults) && published == old(published)
    {
      if !hasTagsContainer {
        return;
      }
      allTags, buttons := IndexTags(posts);
    }

    /** The computing part of `renderTags`: the sorted distinct tags and the tag bar. */
    static method IndexTags(posts: seq<Post>) returns (tags: seq<string>, bar: seq<Button>)
      ensures StrictlySorted(tags) && forall t :: t in tags <==> WithTag(posts, t) != []
      ensures bar == TagBar(posts, tags)
    {
      var counts, keys := CountTags(posts);
      tags := Sort(keys);
      AllTagsSpec(posts, counts, keys);
      forall t | t in tags
        ensures t in counts
      {
        assert t in multiset(keys);
      }
      bar := BuildTagBar(posts, tags, counts);
    }

    /** The `allTags.forEach` that appends one button per tag after "전체". */
    static method BuildTagBar(posts: seq<Post>, tags: seq<string>, counts: map<string, nat>)
      returns (bar: seq<Button>)
      requires forall t :: t in tags ==> t in counts && counts[t] == Occurrences(posts, t)
      ensures bar == TagBar(posts, tags)
    {
      bar := [AllButton(true)];
      var i := 0;
      while i < |tags|
        invariant 0 <= i <= |tags|
        invariant bar == TagBar(posts, tags[..i])
      {
        TagBarStep(posts, tags, i);
        bar := bar + [TagButton(tags[i], counts[tags[i]], false)];
        i := i + 1;
      }
      assert tags[..i] == tags;
    }

    /** `updateActiveTagButton`: the loop over the buttons, each restyled by the rule. */
    method UpdateActiveTagButton()
      modifies this
      ensures |buttons| == |old(buttons)|
      ensures forall i :: 0 <= i < |buttons| ==> buttons[i] == Restyled(old(buttons)[i], activeTag)
      ensures allPosts == old(allPosts) && allTags == old(allTags) && activeTag == old(activeTag)
      ensures cards == old(cards) && noResults == old(noResults) && published == old(published)
    {
      var i := 0;
      while i < |buttons|
        invariant 0 <= i <= |buttons| == |old(buttons)|
        invariant forall j :: 0 <= j < i ==> buttons[j] == Restyled(old(buttons)[j], activeTag)
        invariant forall j :: i <= j < |buttons| ==> buttons[j] == old(buttons)[j]
        invariant allPosts == old(allPosts) && allTags == old(allTags) && activeTag == old(activeTag)
        invariant cards == old(cards) && noResults == old(noResults) && published == old(published)
      {
        buttons := buttons[i := Restyled(buttons[i], activeTag)];
        i := i + 1;
      }
    }

    /** `renderPosts(posts)`: one card per post, in order, and the no-results element shown
        exactly when there are none. Without a posts container nothing happens. */
    method RenderPosts(posts: seq<Post>)
      modifies this
      ensures !hasPostsContainer ==> cards == old(cards) && noResults == old(noResults)
      ensures hasPostsContainer ==> cards == Cards(posts)
      ensures hasPostsContainer && hasNoResults ==> noResults == (if posts == [] then Block else Hidden)
      ensures !hasNoResults ==> noResults == old(noResults)
      ensures allPosts == old(allPosts) && allTags == old(allTags) && activeTag == old(activeTag)
      ensures buttons == old(buttons) && published == old(published)
    {
      if !hasPostsContainer {
        return;
      }
      if |posts| == 0 {
        cards := [];
        if hasNoResults {
          noResults := Block;
        }
        return;
      }
      if hasNoResults {
        noResults := Hidden;
      }
      cards := Cards(posts);
    }

    /** The "전체" button: no active tag, every post, and the search box cleared. */
    method ClickAll()
      modifies this, searchBox
      ensures activeTag == None
      ensures |buttons| == |old(buttons)|
      ensures forall i :: 0 <= i < |buttons| ==> buttons[i] == Restyled(old(buttons)[i], None)
      ensures hasPostsContainer ==> cards == Cards(allPosts)
      ensures hasPostsContainer && hasNoResults ==> noResults == (if allPosts == [] then Block else Hidden)
      ensures !hasPostsContainer ==> cards == old(cards) && noResults == old(noResults)
      ensures !hasNoResults ==> noResults == old(noResults)
      ensures searchBox != null ==> searchBox.value == ""
      ensures allPosts == old(allPosts) && allTags == old(allTags) && published == old(published)
    {
      activeTag := None;
      UpdateActiveTagButton();
      RenderPosts(allPosts);
      if searchBox != null {
        searchBox.Reset();
      }
    }

    /** A tag button: that tag becomes active and only the posts carrying it are shown. */
    method ClickTag(tag: string)
      modifies this
      ensures activeTag == Some(tag)
      ensures |buttons| == |old(buttons)|
      ensures forall i :: 0 <= i < |buttons| ==> buttons[i] == Restyled(old(buttons)[i], Some(tag))
      ensures hasPostsContainer ==> cards == Cards(WithTag(allPosts, tag))
      ensures hasPostsContainer && hasNoResults ==> noResults == (if WithTag(allPosts, tag) == [] then Block else Hidden)
      ensures !hasPostsContainer ==> cards == old(cards) && noResults == old(noResults)
      ensures !hasNoResults ==> noResults == old(noResults)
      ensures allPosts == old(allPosts) && allTags == old(allTags) && published == old(published)
    {
      activeTag := Some(tag);
      UpdateActiveTagButton();
      var filtered := WithTag(allPosts, tag);
      RenderPosts(filtered);
    }

    /** `init`: fetch, build the tag bar, render every post, and publish `window.blogApp`. */
    method Init(outcome: Option<seq<Post>>)
      modifies this
      ensures outcome.Some? ==> allPosts == outcome.value
      ensures outcome.None? ==> allPosts == old(allPosts)
      ensures var posts := if outcome.Some? then outcome.value else [];
        (hasTagsContainer ==> StrictlySorted(allTags) && buttons == TagBar(posts, allTags) &&
                              forall t :: t in allTags <==> WithTag(posts, t) != []) &&
        (hasPostsContainer ==> cards == Cards(posts)) &&
        (hasPostsContainer && hasNoResults ==> noResults == (if posts == [] then Block else Hidden))
      ensures !hasTagsContainer ==> allTags == old(allTags) && buttons == old(buttons)
      ensures !hasPostsContainer ==> cards == old(cards) && noResults == old(noResults)
      ensures !hasNoResults ==> noResults == old(noResults)
      ensures published && activeTag == old(activeTag)
    {
      var posts := FetchPosts(outcome);
      RenderTags(posts);
      RenderPosts(posts);
      published := true;
    }

    /** `filterPosts(query)` of the search box, rendering through the page: nothing happens
        until `window.blogApp` is published. */
    method SearchPosts(query: string)
      modifies this
      ensures !published ==> cards == old(cards) && noResults == old(noResults)
      ensures published && hasPostsContainer ==> cards == Cards(FilterPosts(allPosts, activeTag, query))
      ensures published && hasPostsContainer && hasNoResults ==>
        noResults == (if FilterPosts(allPosts, activeTag, query) == [] then Block else Hidden)
      ensures !hasPostsContainer ==> cards == old(cards) && noResults == old(noResults)
      ensures !hasNoResults ==> noResults == old(noResults)
      ensures allPosts == old(allPosts) && allTags == old(allTags) && activeTag == old(activeTag)
      ensures buttons == old(buttons) && published == old(published)
    {
      if !published {
        return;
      }
      var results := FilterPosts(allPosts, activeTag, query);
      RenderPosts(results);
    }
  }
}
