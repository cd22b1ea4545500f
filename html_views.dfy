/**
 * The three views of the generated page (src/generators/html.js): which
 * posts and threads each one shows and in what order, and the gallery ids
 * the renderers take from the page-wide `mediaIdCounter`.
 *
 * A rendered post or thread is a `Card`: what it shows and the gallery ids
 * it took, in the order it took them. The markup around them is not part
 * of this model.
 */
module HtmlViews {
  import opened Posts
  import opened Seqs
  import opened HtmlText
  import opened ThreadViews

  /** A gallery id: `gallery-<n>`, or `gallery-qt-<n>` for the preview of a quoted post. */
  datatype Gallery = Gallery(quoted: bool, n: nat)

  function GalleryName(g: Gallery): string {
    (if g.quoted then "gallery-qt-" else "gallery-") + Decimal(g.n)
  }

  /** A quoted preview's id never reads like a post's id: `q` against a digit at position 8. */
  lemma QuotedDiffersFromPlain(m: nat, n: nat)
    ensures GalleryName(Gallery(true, m)) != GalleryName(Gallery(false, n))
  {
    assert GalleryName(Gallery(true, m))[8] == 'q';
    assert GalleryName(Gallery(false, n))[8] == Decimal(n)[0];
  }

  /** Two gallery ids are written the same only when they are the same id. */
  lemma GalleryNameInjective(g: Gallery, h: Gallery)
    requires GalleryName(g) == GalleryName(h)
    ensures g == h
  {
    QuotedDiffersFromPlain(g.n, h.n);
    QuotedDiffersFromPlain(h.n, g.n);
    assert g.quoted == h.quoted;
    var k := if g.quoted then 11 else 8;
    assert GalleryName(g)[k..] == Decimal(g.n) && GalleryName(h)[k..] == Decimal(h.n);
    DecimalInjective(g.n, h.n);
  }

  /** Ids numbered 1, 2, 3, ... in order are all written differently. */
  lemma NumberedNamesDistinct(gs: seq<Gallery>)
    requires forall i :: 0 <= i < |gs| ==> gs[i].n == i + 1
    ensures forall i, j :: 0 <= i < j < |gs| ==> GalleryName(gs[i]) != GalleryName(gs[j])
  {
    forall i, j | 0 <= i < j < |gs|
      ensures GalleryName(gs[i]) != GalleryName(gs[j])
    {
      if GalleryName(gs[i]) == GalleryName(gs[j]) {
        GalleryNameInjective(gs[i], gs[j]);
      }
    }
  }

  /** A rendered post or thread; `expanded` is the thread's initial state and false for a post. */
  datatype Card = Card(entry: Entry, expanded: bool, galleries: seq<Gallery>)

  /** One author's block of the author view: the author, the count in its header, its cards. */
  datatype AuthorSection = AuthorSection(author: Author, count: int, cards: seq<Card>)

  /** An author block shows the group's author, its total as the count, and its entries in order. */
  predicate Shows(section: AuthorSection, g: AuthorGroup) {
    section.author == g.author && section.count == g.total && CardEntries(section.cards) == g.items
  }

  /** Every card of the block is drawn collapsed: `renderThread(item.data)` leaves `expanded` at its default, false. */
  predicate Collapsed(section: AuthorSection) {
    forall k :: 0 <= k < |section.cards| ==> !section.cards[k].expanded
  }

  datatype ThreadsView = EmptyState | ThreadList(cards: seq<Card>)

  datatype Page = Page(timeView: seq<Card>, authorView: seq<AuthorSection>, threadsView: ThreadsView)

  function CardEntries(cards: seq<Card>): seq<Entry> {
    seq(|cards|, i requires 0 <= i < |cards| => cards[i].entry)
  }

  /** The gallery ids of the cards, in rendering order. */
  function CardGalleries(cards: seq<Card>): seq<Gallery> {
    if cards == [] then [] else CardGalleries(cards[..|cards| - 1]) + cards[|cards| - 1].galleries
  }

  function SectionGalleries(sections: seq<AuthorSection>): seq<Gallery> {
    if sections == [] then []
    else SectionGalleries(sections[..|sections| - 1]) + CardGalleries(sections[|sections| - 1].cards)
  }

  function ViewGalleries(v: ThreadsView): seq<Gallery> {
    match v
    case EmptyState => []
    case ThreadList(cards) => CardGalleries(cards)
  }

  /** All gallery ids of a page, in the order the page is rendered. */
  function PageGalleries(p: Page): seq<Gallery> {
    CardGalleries(p.timeView) + SectionGalleries(p.authorView) + ViewGalleries(p.threadsView)
  }

  /**
   * The ids `renderTweet` takes when the counter stands at `c`: one for a
   * retweet (src/generators/html.js:695-707, 751); for a quote, first the
   * quoted preview's and then the post's own (710, 794, 713); otherwise the
   * post's own.
   */
  function PostGalleries(p: Post, c: nat): seq<Gallery> {
    if p.isRetweet && p.retweetedTweet.Some? then [Gallery(false, c + 1)]
    else if p.isQuote && p.quotedTweet.Some? then [Gallery(true, c + 1), Gallery(false, c + 2)]
    else [Gallery(false, c + 1)]
  }

  /** The ids `renderThread` takes: one for the first post, then one for each later post (827, 877). */
  function ThreadGalleries(t: Thread, c: nat): seq<Gallery> {
    seq(|t.tweets|, i requires 0 <= i < |t.tweets| => Gallery(false, c + 1 + i))
  }

  /** `renderThread` reads `thread.tweets[0].media`, so a thread must have a post. */
  predicate Drawable(e: Entry) {
    e.ThreadEntry? ==> |e.thread.tweets| > 0
  }

  // ----- the order of the views -----

  /** The items of `renderTimeView` after its sort (src/generators/html.js:594-604). */
  function TimeViewOrder(threads: seq<Thread>, standalone: seq<Post>): seq<Entry> {
    SortBy(Entries(threads, standalone), NegEntryTime)
  }

  /**
   * The time view lists every thread and every standalone post exactly
   * once, newest first (a thread by its start time).
   */
  lemma TimeViewSound(threads: seq<Thread>, standalone: seq<Post>)
    ensures var r := TimeViewOrder(threads, standalone);
            && multiset(r) == multiset(Entries(threads, standalone))
            && |r| == |threads| + |standalone|
            && (forall i, j :: 0 <= i < j < |r| ==> EntryTime(r[i]) >= EntryTime(r[j]))
    ensures forall t :: t in threads ==> ThreadEntry(t) in TimeViewOrder(threads, standalone)
    ensures forall p :: p in standalone ==> TweetEntry(p) in TimeViewOrder(threads, standalone)
  {
    var r := TimeViewOrder(threads, standalone);
    assert forall i, j :: 0 <= i < j < |r| ==> NegEntryTime(r[i]) <= NegEntryTime(r[j]);
    SameMembers(Entries(threads, standalone), r);
    EntriesListAll(threads, standalone);
  }

  /** The author groups of `renderAuthorView` after its sort by count (src/generators/html.js:622-644). */
  function AuthorViewOrder(threads: seq<Thread>, standalone: seq<Post>): seq<AuthorGroup> {
    SortBy(AuthorGroups(threads, standalone), NegTotal)
  }

  /**
   * An author block of the author view: that author's entries, all of them,
   * in the order they were added (threads first, then posts), not sorted by
   * time; its count is their weights summed. Its header shows the author
   * record of its first entry, the one that opened the group.
   */
  ghost predicate InInsertionOrder(es: seq<Entry>, g: AuthorGroup) {
    && |g.items| > 0
    && g.items == Having(es, EntryKey, g.author.id)
    && g.author == EntryAuthor(g.items[0])
    && g.total == SumBy(g.items, Weight)
  }

  lemma AuthorGroupAt(threads: seq<Thread>, standalone: seq<Post>, j: int)
    requires 0 <= j < |DistinctKeys(Entries(threads, standalone), EntryKey)|
    ensures |AuthorGroups(threads, standalone)| == |DistinctKeys(Entries(threads, standalone), EntryKey)|
    ensures InInsertionOrder(Entries(threads, standalone), AuthorGroups(threads, standalone)[j])
  {
    var es := Entries(threads, standalone);
    var ks := DistinctKeys(es, EntryKey);
    InsertionGroupAt(es, ks, j);
    HavingSpec(es, EntryKey, ks[j]);
    var h := Having(es, EntryKey, ks[j]);
    assert EntryKey(h[0]) == ks[j];
  }

  lemma AuthorGroupsInOrder(threads: seq<Thread>, standalone: seq<Post>)
    ensures var es, gs := Entries(threads, standalone), AuthorGroups(threads, standalone);
            forall j :: 0 <= j < |gs| ==> InInsertionOrder(es, gs[j])
  {
    var ks := DistinctKeys(Entries(threads, standalone), EntryKey);
    if ks != [] {
      AuthorGroupAt(threads, standalone, 0);
    }
    forall j | 0 <= j < |AuthorGroups(threads, standalone)|
      ensures InInsertionOrder(Entries(threads, standalone), AuthorGroups(threads, standalone)[j])
    {
      AuthorGroupAt(threads, standalone, j);
    }
  }

  lemma SortedInInsertionOrder(es: seq<Entry>, gs: seq<AuthorGroup>)
    requires forall j :: 0 <= j < |gs| ==> InInsertionOrder(es, gs[j])
    ensures forall i :: 0 <= i < |SortBy(gs, NegTotal)| ==> InInsertionOrder(es, SortBy(gs, NegTotal)[i])
  {
    var r := SortBy(gs, NegTotal);
    forall i | 0 <= i < |r|
      ensures InInsertionOrder(es, r[i])
    {
      assert r[i] in multiset(gs);
    }
  }

  /**
   * The author view has one block per author id, by non-increasing count;
   * each block holds exactly that author's entries in insertion order, and
   * every thread and post is in a block.
   */
  lemma AuthorViewSound(threads: seq<Thread>, standalone: seq<Post>)
    ensures var r := AuthorViewOrder(threads, standalone);
            forall i, j :: 0 <= i < j < |r| ==> r[i].total >= r[j].total
    ensures KeysDistinct(AuthorViewOrder(threads, standalone), GroupKey)
    ensures var es, r := Entries(threads, standalone), AuthorViewOrder(threads, standalone);
            forall i :: 0 <= i < |r| ==> InInsertionOrder(es, r[i])
    ensures Covers(Entries(threads, standalone), AuthorViewOrder(threads, standalone))
  {
    var es := Entries(threads, standalone);
    var ks := DistinctKeys(es, EntryKey);
    var gs := AuthorGroups(threads, standalone);
    var r := AuthorViewOrder(threads, standalone);
    assert forall i, j :: 0 <= i < j < |r| ==> NegTotal(r[i]) <= NegTotal(r[j]);
    DistinctKeysSpec(es, EntryKey);
    InsertionGroupsCollect(es, ks);
    KeysFromOrder(gs, ks);
    KeysDistinctPermutation(gs, r, GroupKey);
    AuthorGroupsInOrder(threads, standalone);
    SortedInInsertionOrder(es, gs);
    EveryKeyListed(es);
    KeyedGroupsCover(es, gs, ks);
    CoversPermutation(es, gs, r);
  }

  /** The threads view lists every thread once, latest start first (src/generators/html.js:681-682). */
  lemma ThreadsViewSound(threads: seq<Thread>)
    ensures var r := SortBy(threads, NegStartTime);
            && multiset(r) == multiset(threads)
            && forall i, j :: 0 <= i < j < |r| ==> r[i].startTime >= r[j].startTime
  {
    var r := SortBy(threads, NegStartTime);
    assert forall i, j :: 0 <= i < j < |r| ==> NegStartTime(r[i]) <= NegStartTime(r[j]);
  }

  lemma EntriesDrawable(threads: seq<Thread>, standalone: seq<Post>)
    requires forall i :: 0 <= i < |threads| ==> |threads[i].tweets| > 0
    ensures forall e :: e in Entries(threads, standalone) ==> Drawable(e)
  {
    var es := Entries(threads, standalone);
    forall e | e in es
      ensures Drawable(e)
    {
      var p :| 0 <= p < |es| && es[p] == e;
      if p < |threads| {
        assert e == ThreadEntry(threads[p]);
      }
    }
  }

  /** What each view of the page lists, and in which order. */
  predicate PageShows(page: Page, d: Processed) {
    && CardEntries(page.timeView) == TimeViewOrder(d.threads, d.standaloneTweets)
    && |page.authorView| == |AuthorViewOrder(d.threads, d.standaloneTweets)|
    && (forall i :: 0 <= i < |page.authorView| ==> Shows(page.authorView[i], AuthorViewOrder(d.threads, d.standaloneTweets)[i]))
    && (page.threadsView == EmptyState <==> |d.threads| == 0)
    && (page.threadsView.ThreadList? ==>
          CardEntries(page.threadsView.cards) == ThreadEntries(SortBy(d.threads, NegStartTime)))
    && (forall k :: 0 <= k < |page.timeView| ==> !page.timeView[k].expanded)
    && (forall i :: 0 <= i < |page.authorView| ==> Collapsed(page.authorView[i]))
    && (page.threadsView.ThreadList? ==> forall k :: 0 <= k < |page.threadsView.cards| ==> page.threadsView.cards[k].expanded)
  }

  /**
   * `processedData.threads`, the array `renderThreadsView` receives: a fresh
   * array holding the digest's threads. The copy `[...threads]` that the view
   * sorts is the sequence `threads[..]` inside `RenderThreadsView`.
   */
  method ThreadsArray(ts: seq<Thread>) returns (a: array<Thread>)
    ensures fresh(a) && a[..] == ts
  {
    a := new Thread[|ts|](i requires 0 <= i < |ts| => ts[i]);
  }

  /** The generator and its page-wide gallery counter. */
  class HtmlGenerator {
    /** `mediaIdCounter` (src/generators/html.js:11). */
    var mediaIdCounter: nat
    /** Every gallery id handed out since the last reset, in order. */
    ghost var issued: seq<Gallery>

    /** The ids handed out so far are numbered 1 to `mediaIdCounter`, in order. */
    ghost predicate Valid()
      reads this
    {
      && |issued| == mediaIdCounter
      && forall i :: 0 <= i < |issued| ==> issued[i].n == i + 1
    }

    constructor()
      ensures Valid() && issued == []
    {
      mediaIdCounter := 0;
      issued := [];
    }

    /** `gallery-${++mediaIdCounter}` or `gallery-qt-${++mediaIdCounter}`. */
    method NextGallery(quoted: bool) returns (g: Gallery)
      requires Valid()
      modifies this
      ensures Valid()
      ensures g == Gallery(quoted, old(mediaIdCounter) + 1)
      ensures issued == old(issued) + [g]
    {
      mediaIdCounter := mediaIdCounter + 1;
      g := Gallery(quoted, mediaIdCounter);
      issued := issued + [g];
    }

    /** `renderTweet` (src/generators/html.js:688-745), with `renderRetweetedContent` and `renderQuotedTweet`. */
    method RenderTweet(tweet: Post) returns (card: Card)
      requires Valid()
      modifies this
      ensures Valid()
      ensures card == Card(TweetEntry(tweet), false, PostGalleries(tweet, old(mediaIdCounter)))
      ensures issued == old(issued) + card.galleries
    {
      if tweet.isRetweet && tweet.retweetedTweet.Some? {
        var g := NextGallery(false);
        card := Card(TweetEntry(tweet), false, [g]);
      } else {
        var galleries := [];
        if tweet.isQuote && tweet.quotedTweet.Some? {
          var qt := NextGallery(true);
          galleries := [qt];
        }
        var own := NextGallery(false);
        card := Card(TweetEntry(tweet), false, galleries + [own]);
      }
    }

    /** `renderThread` (src/generators/html.js:818-899): an id for the first post, then one per later post. */
    method RenderThread(thread: Thread, expanded: bool) returns (card: Card)
      requires Valid() && |thread.tweets| > 0
      modifies this
      ensures Valid()
      ensures card == Card(ThreadEntry(thread), expanded, ThreadGalleries(thread, old(mediaIdCounter)))
      ensures issued == old(issued) + card.galleries
    {
      var first := NextGallery(false);
      var galleries := [first];
      for i := 1 to |thread.tweets|
        invariant Valid()
        invariant galleries == ThreadGalleries(thread, old(mediaIdCounter))[..i]
        invariant issued == old(issued) + galleries
      {
        var g := NextGallery(false);
        galleries := galleries + [g];
      }
      card := Card(ThreadEntry(thread), expanded, galleries);
    }

    /** `renderThread(item.data, expanded)` for a thread item, `renderTweet(item.data)` for a post. */
    method RenderEntry(e: Entry, expanded: bool) returns (card: Card)
      requires Valid() && Drawable(e)
      modifies this
      ensures Valid()
      ensures card.entry == e && card.expanded == (e.ThreadEntry? && expanded)
      ensures issued == old(issued) + card.galleries
    {
      match e
      case ThreadEntry(t) =>
        card := RenderThread(t, expanded);
      case TweetEntry(p) =>
        card := RenderTweet(p);
    }

    /** `entries.map(render).join('')`: each entry in turn, the counter carried from one to the next. */
    method RenderCards(entries: seq<Entry>, expanded: bool) returns (cards: seq<Card>)
      requires Valid() && forall k :: 0 <= k < |entries| ==> Drawable(entries[k])
      modifies this
      ensures Valid()
      ensures CardEntries(cards) == entries
      ensures forall k :: 0 <= k < |cards| ==> cards[k].expanded == (cards[k].entry.ThreadEntry? && expanded)
      ensures issued == old(issued) + CardGalleries(cards)
    {
      cards := [];
      for i := 0 to |entries|
        invariant Valid()
        invariant CardEntries(cards) == entries[..i]
        invariant forall k :: 0 <= k < |cards| ==> cards[k].expanded == (cards[k].entry.ThreadEntry? && expanded)
        invariant issued == old(issued) + CardGalleries(cards)
      {
        var card := RenderEntry(entries[i], expanded);
        assert (cards + [card])[..|cards|] == cards;
        cards := cards + [card];
      }
    }

    /** `renderTimeView` (src/generators/html.js:590-613). */
    method RenderTimeView(threads: seq<Thread>, standalone: seq<Post>) returns (cards: seq<Card>)
      requires Valid() && forall i :: 0 <= i < |threads| ==> |threads[i].tweets| > 0
      modifies this
      ensures Valid()
      ensures CardEntries(cards) == TimeViewOrder(threads, standalone)
      ensures forall k :: 0 <= k < |cards| ==> !cards[k].expanded
      ensures issued == old(issued) + CardGalleries(cards)
    {
      var items: seq<Entry> := [];
      for i := 0 to |threads|
        invariant items == ThreadEntries(threads[..i])
      {
        items := items + [ThreadEntry(threads[i])];
      }
      assert threads[..|threads|] == threads;
      for j := 0 to |standalone|
        invariant items == Entries(threads, standalone[..j])
      {
        items := items + [TweetEntry(standalone[j])];
      }
      assert standalone[..|standalone|] == standalone;
      ghost var es := items;
      items := SortBy(items, NegEntryTime);
      EntriesDrawable(threads, standalone);
      forall k | 0 <= k < |items|
        ensures Drawable(items[k])
      {
        assert items[k] in multiset(es);
      }
      cards := RenderCards(items, false);
    }

    /** The grouping and sorting of `renderAuthorView` (src/generators/html.js:622-644). */
    static method AuthorBlocks(threads: seq<Thread>, standalone: seq<Post>) returns (authors: seq<AuthorGroup>)
      ensures authors == AuthorViewOrder(threads, standalone)
    {
      var order, groups := CollectAuthorGroups(threads, standalone);
      ValuesInOrder(Entries(threads, standalone), order, groups);
      authors := seq(|order|, i requires 0 <= i < |order| && order[i] in groups => groups[order[i]]);
      assert authors == AuthorGroups(threads, standalone);
      authors := SortBy(authors, NegTotal);
    }

    /** One author block: its header's author and count, then its entries rendered in order (661). */
    method RenderSection(g: AuthorGroup) returns (section: AuthorSection)
      requires Valid() && forall k :: 0 <= k < |g.items| ==> Drawable(g.items[k])
      modifies this
      ensures Valid()
      ensures Shows(section, g) && Collapsed(section)
      ensures issued == old(issued) + CardGalleries(section.cards)
    {
      var cards := RenderCards(g.items, false);
      section := AuthorSection(g.author, g.total, cards);
    }

    /** The author blocks rendered one after the other (src/generators/html.js:646-663). */
    method RenderSections(authors: seq<AuthorGroup>) returns (sections: seq<AuthorSection>)
      requires Valid()
      requires forall i, k :: 0 <= i < |authors| && 0 <= k < |authors[i].items| ==> Drawable(authors[i].items[k])
      modifies this
      ensures Valid()
      ensures |sections| == |authors|
      ensures forall i :: 0 <= i < |sections| ==> Shows(sections[i], authors[i]) && Collapsed(sections[i])
      ensures issued == old(issued) + SectionGalleries(sections)
    {
      sections := [];
      for i := 0 to |authors|
        invariant Valid()
        invariant |sections| == i
        invariant forall k :: 0 <= k < i ==> Shows(sections[k], authors[k]) && Collapsed(sections[k])
        invariant issued == old(issued) + SectionGalleries(sections)
      {
        var section := RenderSection(authors[i]);
        assert (sections + [section])[..i] == sections;
        assert SectionGalleries(sections + [section]) == SectionGalleries(sections) + CardGalleries(section.cards);
        sections := sections + [section];
      }
    }

    /** `renderAuthorView` (src/generators/html.js:618-664). */
    method RenderAuthorView(threads: seq<Thread>, standalone: seq<Post>) returns (sections: seq<AuthorSection>)
      requires Valid() && forall i :: 0 <= i < |threads| ==> |threads[i].tweets| > 0
      modifies this
      ensures Valid()
      ensures |sections| == |AuthorViewOrder(threads, standalone)|
      ensures forall i :: 0 <= i < |sections| ==> Shows(sections[i], AuthorViewOrder(threads, standalone)[i])
      ensures forall i :: 0 <= i < |sections| ==> Collapsed(sections[i])
      ensures issued == old(issued) + SectionGalleries(sections)
    {
      var authors := AuthorBlocks(threads, standalone);
      AuthorItemsDrawable(threads, standalone);
      sections := RenderSections(authors);
    }

    /**
     * `renderThreadsView` (src/generators/html.js:669-683): sorts a copy
     * (`SortBy` of `threads[..]`). The array is not in the `modifies` clause,
     * so the frame alone keeps it as it was; the ensures says so explicitly.
     */
    method RenderThreadsView(threads: array<Thread>) returns (view: ThreadsView)
      requires Valid() && forall i :: 0 <= i < threads.Length ==> |threads[i].tweets| > 0
      modifies this
      ensures Valid()
      ensures view == EmptyState <==> threads.Length == 0
      ensures view.ThreadList? ==> CardEntries(view.cards) == ThreadEntries(SortBy(threads[..], NegStartTime))
      ensures view.ThreadList? ==> forall k :: 0 <= k < |view.cards| ==> view.cards[k].expanded
      ensures threads[..] == old(threads[..])
      ensures issued == old(issued) + ViewGalleries(view)
    {
      if threads.Length == 0 {
        view := EmptyState;
        return;
      }
      var sorted := SortBy(threads[..], NegStartTime);
      var entries := ThreadEntries(sorted);
      forall k | 0 <= k < |entries|
        ensures Drawable(entries[k])
      {
        assert sorted[k] in multiset(threads[..]);
      }
      var cards := RenderCards(entries, true);
      assert forall k :: 0 <= k < |cards| ==> cards[k].entry == entries[k];
      view := ThreadList(cards);
    }

    /** The three views in page order: time, author, threads (src/generators/html.js:343-345). */
    method RenderViews(d: Processed) returns (page: Page)
      requires Valid() && forall i :: 0 <= i < |d.threads| ==> |d.threads[i].tweets| > 0
      modifies this
      ensures Valid()
      ensures PageShows(page, d)
      ensures issued == old(issued) + PageGalleries(page)
    {
      ghost var before := issued;
      var timeView := RenderTimeView(d.threads, d.standaloneTweets);
      var authorView := RenderAuthorView(d.threads, d.standaloneTweets);
      var threads := ThreadsArray(d.threads);
      var threadsView := RenderThreadsView(threads);
      page := Page(timeView, authorView, threadsView);
      ghost var a, b, c := CardGalleries(timeView), SectionGalleries(authorView), ViewGalleries(threadsView);
      assert issued == before + a + b + c;
      Regroup(before, a, b, c);
    }

    /**
     * `generateHtml` (src/generators/html.js:16-345) as far as the views go:
     * the counter is reset, then the views are rendered. Every gallery id of
     * the page is numbered in rendering order from 1, so no two are written
     * the same.
     */
    method GenerateHtml(d: Processed) returns (page: Page)
      requires forall i :: 0 <= i < |d.threads| ==> |d.threads[i].tweets| > 0
      modifies this
      ensures Valid() && PageShows(page, d)
      ensures issued == PageGalleries(page)
      ensures forall i :: 0 <= i < |PageGalleries(page)| ==> PageGalleries(page)[i].n == i + 1
      ensures forall i, j :: 0 <= i < j < |PageGalleries(page)| ==>
                GalleryName(PageGalleries(page)[i]) != GalleryName(PageGalleries(page)[j])
    {
      mediaIdCounter := 0;
      issued := [];
      page := RenderViews(d);
      NumberedNamesDistinct(issued);
    }
  }

  /** Every entry of every author block is a drawable entry of the input. */
  lemma AuthorItemsDrawable(threads: seq<Thread>, standalone: seq<Post>)
    requires forall i :: 0 <= i < |threads| ==> |threads[i].tweets| > 0
    ensures var r := AuthorViewOrder(threads, standalone);
            forall i, k :: 0 <= i < |r| && 0 <= k < |r[i].items| ==> Drawable(r[i].items[k])
  {
    var es := Entries(threads, standalone);
    var r := AuthorViewOrder(threads, standalone);
    EntriesDrawable(threads, standalone);
    AuthorGroupsInOrder(threads, standalone);
    SortedInInsertionOrder(es, AuthorGroups(threads, standalone));
    forall i, k | 0 <= i < |r| && 0 <= k < |r[i].items|
      ensures Drawable(r[i].items[k])
    {
      HavingMember(es, EntryKey, r[i].author.id, r[i].items[k]);
    }
  }
}
