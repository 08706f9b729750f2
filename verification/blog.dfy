/** The blog grid: nine fixture posts, filtered by category and by a
    case-insensitive search text, and revealed a few at a time by the
    "load more" control. The view state is the triple the page script keeps
    in local variables; every event handler is a transition of that state
    followed by a full re-render. */
module Blog {
  import opened Optional
  import opened Text
  import opened Listing
  import opened Search

  datatype BlogPost = BlogPost(
    id: nat, title: string, cat: string, date: string, author: string,
    img: string, excerpt: string)

  /** The posts in declaration (display) order. */
  const Posts: seq<BlogPost> := [
    BlogPost(1, "2025 Market trends: what executives must know", "strategy", "Apr 2, 2025", "Elena Voss", "1.jpg", "How geopolitical shifts and AI are reshaping corporate strategy."),
    BlogPost(2, "ESG as a value driver, not a cost", "finance", "Mar 28, 2025", "Michael Chen", "2.jpg", "New metrics show sustainability boosts margins."),
    BlogPost(3, "Leading through uncertainty", "leadership", "Mar 20, 2025", "Sarah Okonkwo", "3.jpg", "Resilience and culture in volatile times."),
    BlogPost(4, "AI in finance: beyond the hype", "digital", "Mar 15, 2025", "James Carter", "4.jpg", "Practical use cases that deliver ROI today."),
    BlogPost(5, "The art of M&A integration", "strategy", "Mar 10, 2025", "Elena Voss", "5.jpg", "Why half of deals fail and how to beat the odds."),
    BlogPost(6, "Digital transformation in banking", "digital", "Mar 5, 2025", "Sarah Okonkwo", "6.jpg", "Legacy modernization case studies."),
    BlogPost(7, "Talent retention 2025", "leadership", "Feb 28, 2025", "Michael Chen", "7.jpg", "New hybrid models and what employees want."),
    BlogPost(8, "Private equity outlook", "finance", "Feb 22, 2025", "James Carter", "8.jpg", "Deal activity and sector hotspots."),
    BlogPost(9, "Supply chain resilience", "strategy", "Feb 18, 2025", "Elena Voss", "9.jpg", "From just-in-time to just-in-case.")
  ]

  /** How many posts a fresh filter or search shows. */
  const PageSize: nat := 6
  /** How many more posts each "load more" click reveals. */
  const Step: nat := 3

  /** The view state. `filter` is the `data-cat` of the last category button
      clicked (`None` when that button had no such attribute, which the page
      compares as `undefined`); `search` is the normalised search text;
      `visible` is how many matching posts may be shown. */
  datatype BlogState = BlogState(filter: Option<string>, search: string, visible: nat)

  const Initial: BlogState := BlogState(Some(All), "", PageSize)

  predicate MatchesCategory(filter: Option<string>, post: BlogPost) {
    filter == Some(All) || filter == Some(post.cat)
  }

  /** The search test: the text occurs in the lower-cased title or excerpt. */
  predicate MatchesSearch(search: string, post: BlogPost) {
    Contains(ToLower(post.title), search) || Contains(ToLower(post.excerpt), search)
  }

  /** The filter callback of `renderPosts`. */
  function Matches(s: BlogState): BlogPost -> bool {
    (post: BlogPost) => MatchesCategory(s.filter, post) && MatchesSearch(s.search, post)
  }

  /** The posts that pass the category and the search test. */
  function Filtered(s: BlogState): seq<BlogPost> {
    Filter(Matches(s), Posts)
  }

  /** A post is listed under a state exactly when it passes both tests, and
      the listing keeps declaration order. */
  lemma FilteredMembership(s: BlogState, k: nat)
    requires k < |Posts|
    ensures Posts[k] in Filtered(s) <==>
      MatchesCategory(s.filter, Posts[k]) && MatchesSearch(s.search, Posts[k])
    ensures IsSubsequence(Filtered(s), Posts)
  {
    var r := Filtered(s);
    if Posts[k] in r {
      var j :| 0 <= j < |r| && r[j] == Posts[k];
      assert Matches(s)(r[j]);
    }
  }

  /** An empty search text matches every post. */
  lemma EmptySearchMatchesAll(post: BlogPost)
    ensures MatchesSearch("", post)
  {
    ContainsEmpty(ToLower(post.title));
  }

  /** What the page shows after a render: the grid, and the display state of
      the load-more control (`None` when the page has no such control). */
  datatype Screen = Screen(grid: Grid<BlogPost>, loadMore: Option<bool>)

  /** `renderPosts`, given the load-more control's display before the call.
      The cards are the first `visible` matching posts in declaration order;
      when there are none, only the placeholder is written and the function
      returns before touching the control; otherwise the control is shown
      exactly when some matching post is still hidden. */
  function Render(s: BlogState, loadMore: Option<bool>): (v: Screen)
    ensures v.grid.NoResults? <==> s.visible == 0 || |Filtered(s)| == 0
    ensures v.grid.NoResults? ==> v.loadMore == loadMore
    ensures v.grid.Cards? ==>
      && v.grid.items <= Filtered(s)
      && |v.grid.items| == (if s.visible < |Filtered(s)| then s.visible else |Filtered(s)|)
      && (forall k | 0 <= k < |v.grid.items| :: Matches(s)(v.grid.items[k]))
      && v.loadMore.Some? == loadMore.Some?
      && (v.loadMore.Some? ==> (v.loadMore.value <==> v.grid.items != Filtered(s)))
  {
    var filtered := Filtered(s);
    var limited := Take(filtered, s.visible);
    if |limited| == 0 then Screen(NoResults, loadMore)
    else
      Screen(Cards(limited),
             if loadMore.Some? then Some(|filtered| > s.visible) else None)
  }

  /** The events the blog section reacts to. `CategoryClick` carries the
      button's `data-cat`; `SearchSubmit` (search button or Enter key)
      carries the search input's value, `None` when the page has no input. */
  datatype Event =
    | CategoryClick(cat: Option<string>)
    | SearchSubmit(input: Option<string>)
    | LoadMoreClick
    | PageClick

  /** The state change of each handler. A category click or a search resets
      the cursor to a page and keeps the other predicate; "load more" only
      moves the cursor on by a step, without any upper clamp; a page-number
      click only resets the cursor. A search without an input field does
      nothing. */
  function Handle(s: BlogState, e: Event): (t: BlogState)
    ensures e.CategoryClick? ==> t.filter == e.cat && t.search == s.search && t.visible == PageSize
    ensures e.SearchSubmit? && e.input.Some? ==>
      t.filter == s.filter && t.search == Normalize(e.input.value) && t.visible == PageSize
    ensures e.SearchSubmit? && e.input.None? ==> t == s
    ensures e.LoadMoreClick? ==> t.filter == s.filter && t.search == s.search && t.visible == s.visible + Step
    ensures e.PageClick? ==> t.filter == s.filter && t.search == s.search && t.visible == PageSize
  {
    match e
    case CategoryClick(cat) => s.(filter := cat, visible := PageSize)
    case SearchSubmit(input) =>
      if input.Some? then s.(search := Normalize(input.value), visible := PageSize) else s
    case LoadMoreClick => s.(visible := s.visible + Step)
    case PageClick => s.(visible := PageSize)
  }

  /** The cursor is reset whenever the filter or the search text changes,
      and only "load more" ever grows it. */
  lemma CursorResetsOnPredicateChange(s: BlogState, e: Event)
    ensures Handle(s, e).filter != s.filter || Handle(s, e).search != s.search
      ==> Handle(s, e).visible == PageSize
    ensures Handle(s, e).visible > s.visible && s.visible >= PageSize ==> e.LoadMoreClick?
  {
  }

  /** The cursor of a reachable state: at least a page, and a whole number
      of steps (a page being two steps). */
  predicate CursorInvariant(visible: nat) {
    visible >= PageSize && visible % Step == 0
  }

  /** The states reachable from the initial one: the cursor invariant holds
      and the search text is normalised. */
  predicate Reachable(s: BlogState) {
    CursorInvariant(s.visible) && Normalize(s.search) == s.search
  }

  /** The initial state is reachable. */
  lemma InitialReachable()
    ensures Reachable(Initial)
  {
    assert Normalize("") == "";
  }

  /** Every handler keeps the cursor invariant. */
  lemma HandleKeepsCursorInvariant(s: BlogState, e: Event)
    requires CursorInvariant(s.visible)
    ensures CursorInvariant(Handle(s, e).visible)
  {
    if e.LoadMoreClick? {
      assert (s.visible + Step) % Step == s.visible % Step;
    }
  }

  /** Every handler stores a normalised search text, if it stored one before. */
  lemma HandleKeepsSearchNormalized(s: BlogState, e: Event)
    requires Normalize(s.search) == s.search
    ensures Normalize(Handle(s, e).search) == Handle(s, e).search
  {
    if e.SearchSubmit? && e.input.Some? {
      NormalizeIdempotent(e.input.value);
    }
  }

  /** Every handler keeps reachability. */
  lemma HandlePreservesReachable(s: BlogState, e: Event)
    requires Reachable(s)
    ensures Reachable(Handle(s, e))
  {
    HandleKeepsCursorInvariant(s, e);
    HandleKeepsSearchNormalized(s, e);
  }

  /** "Load more" never hides a post that was shown: the old cards are a
      prefix of the new ones. */
  lemma LoadMoreExtends(s: BlogState, loadMore: Option<bool>)
    ensures Render(s, loadMore).grid.Cards? ==>
      && Render(Handle(s, LoadMoreClick), loadMore).grid.Cards?
      && Render(s, loadMore).grid.items <= Render(Handle(s, LoadMoreClick), loadMore).grid.items
  {
    TakeMonotone(Filtered(s), s.visible, s.visible + Step);
  }

  /** Under the initial state every post passes both tests. */
  lemma InitialShowsAllPosts()
    ensures Filtered(Initial) == Posts
  {
    forall k | 0 <= k < |Posts| ensures Matches(Initial)(Posts[k]) {
      EmptySearchMatchesAll(Posts[k]);
    }
    FilterAll(Matches(Initial), Posts);
  }

  /** The first render shows posts 1 to 6 and the load-more control. */
  lemma InitialRender(loadMore: bool)
    ensures Render(Initial, Some(loadMore)) == Screen(Cards(Posts[..6]), Some(true))
  {
    InitialShowsAllPosts();
  }

  /** One "load more" click from the start shows all nine posts and hides the
      control; a second click (were the hidden control clicked) moves the
      cursor on to 12 and shows the same posts. */
  lemma LoadMoreFromStart(loadMore: bool)
    ensures Handle(Initial, LoadMoreClick).visible == 9
    ensures Render(Handle(Initial, LoadMoreClick), Some(loadMore)) == Screen(Cards(Posts), Some(false))
    ensures Handle(Handle(Initial, LoadMoreClick), LoadMoreClick).visible == 12
    ensures Render(Handle(Handle(Initial, LoadMoreClick), LoadMoreClick), Some(loadMore))
         == Screen(Cards(Posts), Some(false))
  {
    InitialShowsAllPosts();
    assert Filtered(Handle(Initial, LoadMoreClick)) == Filtered(Initial);
    assert Filtered(Handle(Handle(Initial, LoadMoreClick), LoadMoreClick)) == Filtered(Initial);
  }

  /** Searching " AI " and searching "ai" lead to the same state. */
  lemma SearchIgnoresCaseAndPadding(s: BlogState)
    ensures Handle(s, SearchSubmit(Some(" AI "))) == Handle(s, SearchSubmit(Some("ai")))
  {
    NormalizePaddedUpper();
    NormalizeLower();
  }
}
