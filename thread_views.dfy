/**
 * The three projections of a processed digest in src/processors/thread.js:
 * one time-ordered list of display items (`flattenForDisplay`), per-author
 * groups (`groupByAuthor`) and the threads alone (`getThreadsOnly`).
 *
 * Every "descending by time" sort of the source is a stable ascending
 * `SortBy` on the negated key.
 */
module ThreadViews {
  import opened Posts
  import opened Seqs

  // ----- flattenForDisplay -----

  /** A row of the flattened list; threads carry their start time as `timestamp`. */
  datatype DisplayItem =
    | ThreadItem(id: string, timestamp: int, author: Author, tweets: seq<Post>, tweetCount: int)
    | TweetItem(id: string, timestamp: int, author: Author, tweet: Post, tweetCount: int)

  function ThreadItemOf(t: Thread): DisplayItem {
    ThreadItem(t.id, t.startTime, t.author, t.tweets, t.tweetCount)
  }

  function TweetItemOf(p: Post): DisplayItem {
    TweetItem(p.id, p.timestamp, p.author, p, 1)
  }

  /** `[...threadItems, ...tweetItems]` */
  function DisplayItems(d: Processed): seq<DisplayItem> {
    seq(|d.threads|, i requires 0 <= i < |d.threads| => ThreadItemOf(d.threads[i]))
    + seq(|d.standaloneTweets|, i requires 0 <= i < |d.standaloneTweets| => TweetItemOf(d.standaloneTweets[i]))
  }

  function NegTimestamp(item: DisplayItem): int { -item.timestamp }

  /**
   * The values of `sortBy` the model covers: `'time'`, and any value that
   * is neither `'time'` nor `'author'` (the list is left unsorted).
   */
  datatype SortOrder = ByTime | Unsorted

  /** `flattenForDisplay` (src/processors/thread.js:95-133). */
  function FlattenForDisplay(d: Processed, sortBy: SortOrder): (r: seq<DisplayItem>)
    ensures |r| == |d.threads| + |d.standaloneTweets|
    ensures multiset(r) == multiset(DisplayItems(d))
    ensures sortBy == ByTime ==> forall i, j :: 0 <= i < j < |r| ==> r[i].timestamp >= r[j].timestamp
    ensures sortBy == Unsorted ==> r == DisplayItems(d)
  {
    var all := DisplayItems(d);
    if sortBy == ByTime then
      var sorted := SortBy(all, NegTimestamp);
      assert forall i, j :: 0 <= i < j < |sorted| ==> NegTimestamp(sorted[i]) <= NegTimestamp(sorted[j]);
      sorted
    else
      all
  }

  lemma SameMembers<T>(a: seq<T>, b: seq<T>)
    requires multiset(a) == multiset(b)
    ensures forall x :: x in a <==> x in b
  {
    forall x
      ensures x in a <==> x in b
    {
      assert x in a <==> x in multiset(a);
      assert x in b <==> x in multiset(b);
    }
  }

  lemma DisplayItemsListAll(d: Processed)
    ensures forall t :: t in d.threads ==> ThreadItemOf(t) in DisplayItems(d)
    ensures forall p :: p in d.standaloneTweets ==> TweetItemOf(p) in DisplayItems(d)
  {
    var all := DisplayItems(d);
    forall t | t in d.threads
      ensures ThreadItemOf(t) in all
    {
      var i :| 0 <= i < |d.threads| && d.threads[i] == t;
      assert all[i] == ThreadItemOf(t);
    }
    forall p | p in d.standaloneTweets
      ensures TweetItemOf(p) in all
    {
      var i :| 0 <= i < |d.standaloneTweets| && d.standaloneTweets[i] == p;
      assert all[|d.threads| + i] == TweetItemOf(p);
    }
  }

  /** Every thread is listed as a thread item keyed by its start time, every standalone post as a post item. */
  lemma FlattenListsAll(d: Processed, sortBy: SortOrder)
    ensures forall t :: t in d.threads ==> ThreadItemOf(t) in FlattenForDisplay(d, sortBy)
    ensures forall p :: p in d.standaloneTweets ==> TweetItemOf(p) in FlattenForDisplay(d, sortBy)
  {
    SameMembers(DisplayItems(d), FlattenForDisplay(d, sortBy));
    DisplayItemsListAll(d);
  }

  // ----- groupByAuthor -----

  /** `{ type: 'thread' | 'tweet', data }` */
  datatype Entry = ThreadEntry(thread: Thread) | TweetEntry(tweet: Post)

  function EntryAuthor(e: Entry): Author {
    match e
    case ThreadEntry(t) => t.author
    case TweetEntry(p) => p.author
  }

  function EntryKey(e: Entry): JsId { EntryAuthor(e).id }

  /** A thread's start time or a post's own time. */
  function EntryTime(e: Entry): int {
    match e
    case ThreadEntry(t) => t.startTime
    case TweetEntry(p) => p.timestamp
  }

  function NegEntryTime(e: Entry): int { -EntryTime(e) }

  /** What an entry adds to its author's total: a thread its `tweetCount`, a post one. */
  function Weight(e: Entry): int {
    match e
    case ThreadEntry(t) => t.tweetCount
    case TweetEntry(_) => 1
  }

  /** An author group; `total` is `totalTweets` in `groupByAuthor` and `count` in `renderAuthorView`. */
  datatype AuthorGroup = AuthorGroup(author: Author, items: seq<Entry>, total: int)

  function NegTotal(g: AuthorGroup): int { -g.total }

  /** The entries in the order both loops visit them: all threads, then all standalone posts. */
  function Entries(threads: seq<Thread>, standalone: seq<Post>): seq<Entry> {
    ThreadEntries(threads) + TweetEntries(standalone)
  }

  function ThreadEntries(threads: seq<Thread>): seq<Entry> {
    seq(|threads|, i requires 0 <= i < |threads| => ThreadEntry(threads[i]))
  }

  function TweetEntries(standalone: seq<Post>): seq<Entry> {
    seq(|standalone|, i requires 0 <= i < |standalone| => TweetEntry(standalone[i]))
  }

  /** The group a non-empty bucket forms: the author of its first entry, its entries, their weights summed. */
  function GroupFrom(bucket: seq<Entry>): AuthorGroup
    requires |bucket| > 0
  {
    AuthorGroup(EntryAuthor(bucket[0]), bucket, SumBy(bucket, Weight))
  }

  lemma {:induction false} HavingPresent<T, K>(s: seq<T>, key: T -> K, k: K)
    requires k in DistinctKeys(s, key)
    ensures |Having(s, key, k)| > 0
  {
    if s != [] && k in DistinctKeys(s[..|s| - 1], key) {
      HavingPresent(s[..|s| - 1], key, k);
    }
  }

  /** The groups of the keys `ks`, in that order, before any sorting. */
  function InsertionGroups(es: seq<Entry>, ks: seq<JsId>): seq<AuthorGroup>
    requires forall k :: k in ks ==> k in DistinctKeys(es, EntryKey)
  {
    if ks == [] then []
    else
      var k := ks[|ks| - 1];
      HavingPresent(es, EntryKey, k);
      InsertionGroups(es, ks[..|ks| - 1]) + [GroupFrom(Having(es, EntryKey, k))]
  }

  /** `Array.from(authorMap.values())` before any sorting. */
  function AuthorGroups(threads: seq<Thread>, standalone: seq<Post>): seq<AuthorGroup> {
    var es := Entries(threads, standalone);
    InsertionGroups(es, DistinctKeys(es, EntryKey))
  }

  /** A group with its items newest first. */
  function Timed(g: AuthorGroup): AuthorGroup {
    g.(items := SortBy(g.items, NegEntryTime))
  }

  function TimedAll(gs: seq<AuthorGroup>): seq<AuthorGroup> {
    seq(|gs|, i requires 0 <= i < |gs| => Timed(gs[i]))
  }

  /** The reference result of `groupByAuthor`. */
  function GroupByAuthorSpec(threads: seq<Thread>, standalone: seq<Post>): seq<AuthorGroup> {
    SortBy(TimedAll(AuthorGroups(threads, standalone)), NegTotal)
  }

  /**
   * The map state after some entries `es`: keys in first-appearance order,
   * and for each key the group its bucket forms.
   */
  ghost predicate Tracks(es: seq<Entry>, order: seq<JsId>, groups: map<JsId, AuthorGroup>) {
    && order == DistinctKeys(es, EntryKey)
    && (forall k :: k in groups <==> k in order)
    && forall k :: k in groups ==> |Having(es, EntryKey, k)| > 0 && groups[k] == GroupFrom(Having(es, EntryKey, k))
  }

  /**
   * One step of either loop of `groupByAuthor` (src/processors/thread.js:144-154,
   * 159-169) and of `renderAuthorView`: open the author's group on first
   * sight, then push the entry and add its weight.
   */
  method AddEntry(ghost es: seq<Entry>, order: seq<JsId>, groups: map<JsId, AuthorGroup>, e: Entry)
    returns (order': seq<JsId>, groups': map<JsId, AuthorGroup>)
    requires Tracks(es, order, groups)
    ensures Tracks(es + [e], order', groups')
  {
    var k := EntryKey(e);
    var es' := es + [e];
    assert es'[..|es|] == es;
    order', groups' := order, groups;
    if k !in groups' {
      HavingMissing(es, EntryKey, k);
      order' := order' + [k];
      groups' := groups'[k := AuthorGroup(EntryAuthor(e), [], 0)];
    }
    var g := groups'[k];
    groups' := groups'[k := g.(items := g.items + [e], total := g.total + Weight(e))];
    forall k' | k' in groups'
      ensures |Having(es', EntryKey, k')| > 0 && groups'[k'] == GroupFrom(Having(es', EntryKey, k'))
    {
      if k' == k {
        GroupGrows(es, e, groups, groups'[k]);
      } else {
        assert groups'[k'] == groups[k'];
        assert Having(es', EntryKey, k') == Having(es, EntryKey, k');
      }
    }
  }

  /** The group of the entry's key after the push, for a group that was open and for one just opened. */
  lemma GroupGrows(es: seq<Entry>, e: Entry, groups: map<JsId, AuthorGroup>, g': AuthorGroup)
    requires forall k :: k in groups ==> |Having(es, EntryKey, k)| > 0 && groups[k] == GroupFrom(Having(es, EntryKey, k))
    requires EntryKey(e) !in groups ==> Having(es, EntryKey, EntryKey(e)) == []
    requires var g := if EntryKey(e) in groups then groups[EntryKey(e)] else AuthorGroup(EntryAuthor(e), [], 0);
             g' == g.(items := g.items + [e], total := g.total + Weight(e))
    ensures |Having(es + [e], EntryKey, EntryKey(e))| > 0
    ensures g' == GroupFrom(Having(es + [e], EntryKey, EntryKey(e)))
  {
    var k := EntryKey(e);
    var h := Having(es, EntryKey, k);
    assert (es + [e])[..|es|] == es;
    assert Having(es + [e], EntryKey, k) == h + [e];
    assert (h + [e])[..|h|] == h;
    assert SumBy(h + [e], Weight) == SumBy(h, Weight) + Weight(e);
  }

  lemma ThreadEntriesSnoc(seen: seq<Entry>, threads: seq<Thread>, i: int)
    requires 0 <= i < |threads|
    ensures seen + ThreadEntries(threads[..i + 1]) == seen + ThreadEntries(threads[..i]) + [ThreadEntry(threads[i])]
  {
    assert ThreadEntries(threads[..i + 1]) == ThreadEntries(threads[..i]) + [ThreadEntry(threads[i])];
  }

  lemma TweetEntriesSnoc(seen: seq<Entry>, standalone: seq<Post>, j: int)
    requires 0 <= j < |standalone|
    ensures seen + TweetEntries(standalone[..j + 1]) == seen + TweetEntries(standalone[..j]) + [TweetEntry(standalone[j])]
  {
    assert TweetEntries(standalone[..j + 1]) == TweetEntries(standalone[..j]) + [TweetEntry(standalone[j])];
  }

  lemma PrefixWhole<T>(s: seq<T>)
    ensures s[..|s|] == s
  {
  }

  /** The first loop of `groupByAuthor` (src/processors/thread.js:143-155): each thread added to its author's group. */
  method AddThreads(ghost seen: seq<Entry>, order: seq<JsId>, groups: map<JsId, AuthorGroup>,
                    threads: seq<Thread>)
    returns (order': seq<JsId>, groups': map<JsId, AuthorGroup>)
    requires Tracks(seen, order, groups)
    ensures Tracks(seen + ThreadEntries(threads), order', groups')
  {
    ghost var acc := seen;
    order', groups' := order, groups;
    for i := 0 to |threads|
      invariant acc == seen + ThreadEntries(threads[..i])
      invariant Tracks(acc, order', groups')
    {
      order', groups' := AddEntry(acc, order', groups', ThreadEntry(threads[i]));
      ThreadEntriesSnoc(seen, threads, i);
      acc := acc + [ThreadEntry(threads[i])];
    }
    PrefixWhole(threads);
  }

  /** The second loop of `groupByAuthor` (src/processors/thread.js:158-170): each standalone post added to its author's group. */
  method AddTweets(ghost seen: seq<Entry>, order: seq<JsId>, groups: map<JsId, AuthorGroup>,
                   standalone: seq<Post>)
    returns (order': seq<JsId>, groups': map<JsId, AuthorGroup>)
    requires Tracks(seen, order, groups)
    ensures Tracks(seen + TweetEntries(standalone), order', groups')
  {
    ghost var acc := seen;
    order', groups' := order, groups;
    for j := 0 to |standalone|
      invariant acc == seen + TweetEntries(standalone[..j])
      invariant Tracks(acc, order', groups')
    {
      order', groups' := AddEntry(acc, order', groups', TweetEntry(standalone[j]));
      TweetEntriesSnoc(seen, standalone, j);
      acc := acc + [TweetEntry(standalone[j])];
    }
    PrefixWhole(standalone);
  }

  /**
   * Both loops of `groupByAuthor` and `renderAuthorView`
   * (src/processors/thread.js:143-170): the threads, then the standalone
   * posts, each added to its author's group.
   */
  method CollectAuthorGroups(threads: seq<Thread>, standalone: seq<Post>)
    returns (order: seq<JsId>, groups: map<JsId, AuthorGroup>)
    ensures Tracks(Entries(threads, standalone), order, groups)
  {
    order, groups := AddThreads([], [], map[], threads);
    assert [] + ThreadEntries(threads) == ThreadEntries(threads);
    order, groups := AddTweets(ThreadEntries(threads), order, groups, standalone);
  }

  /** The sorting loop of `groupByAuthor` (src/processors/thread.js:173-179): each group's items newest first. */
  method SortEachGroup(order: seq<JsId>, groups: map<JsId, AuthorGroup>)
    returns (groups': map<JsId, AuthorGroup>)
    requires NoDup(order) && forall k :: k in groups <==> k in order
    ensures forall k :: k in groups' <==> k in groups
    ensures forall k :: k in groups' ==> groups'[k] == Timed(groups[k])
  {
    groups' := groups;
    for i := 0 to |order|
      invariant forall k :: k in groups' <==> k in groups
      invariant forall k :: k in groups' ==> groups'[k] == if k in order[..i] then Timed(groups[k]) else groups[k]
    {
      assert order[..i + 1] == order[..i] + [order[i]];
      var k := order[i];
      groups' := groups'[k := groups'[k].(items := SortBy(groups'[k].items, NegEntryTime))];
    }
    assert order[..|order|] == order;
  }

  /** Reading the tracked groups in key order gives the groups of the reference definition. */
  lemma ValuesInOrder(es: seq<Entry>, order: seq<JsId>, groups: map<JsId, AuthorGroup>)
    requires Tracks(es, order, groups)
    ensures |InsertionGroups(es, order)| == |order|
    ensures forall i :: 0 <= i < |order| ==> order[i] in groups && InsertionGroups(es, order)[i] == groups[order[i]]
  {
    if order != [] {
      InsertionGroupAt(es, order, 0);
    }
    forall i | 0 <= i < |order|
      ensures InsertionGroups(es, order)[i] == groups[order[i]]
    {
      InsertionGroupAt(es, order, i);
    }
  }

  lemma TimedInOrder(gs: seq<AuthorGroup>, order: seq<JsId>, groups: map<JsId, AuthorGroup>,
                     timed: map<JsId, AuthorGroup>)
    requires |gs| == |order|
    requires forall i :: 0 <= i < |order| ==> order[i] in groups && gs[i] == groups[order[i]]
    requires forall k :: k in timed <==> k in groups
    requires forall k :: k in timed ==> timed[k] == Timed(groups[k])
    ensures forall i :: 0 <= i < |order| ==> order[i] in timed
    ensures seq(|order|, i requires 0 <= i < |order| && order[i] in timed => timed[order[i]]) == TimedAll(gs)
  {
  }

  /** `groupByAuthor` (src/processors/thread.js:138-186). */
  method GroupByAuthor(threads: seq<Thread>, standalone: seq<Post>) returns (authors: seq<AuthorGroup>)
    ensures authors == GroupByAuthorSpec(threads, standalone)
  {
    var order, groups := CollectAuthorGroups(threads, standalone);
    DistinctKeysSpec(Entries(threads, standalone), EntryKey);
    var timed := SortEachGroup(order, groups);
    ValuesInOrder(Entries(threads, standalone), order, groups);
    TimedInOrder(AuthorGroups(threads, standalone), order, groups, timed);
    authors := seq(|order|, i requires 0 <= i < |order| && order[i] in timed => timed[order[i]]);
    authors := SortBy(authors, NegTotal);
  }

  lemma {:induction false} InsertionGroupAt(es: seq<Entry>, ks: seq<JsId>, i: int)
    requires forall k :: k in ks ==> k in DistinctKeys(es, EntryKey)
    requires 0 <= i < |ks|
    ensures |InsertionGroups(es, ks)| == |ks|
    ensures |Having(es, EntryKey, ks[i])| > 0
    ensures InsertionGroups(es, ks)[i] == GroupFrom(Having(es, EntryKey, ks[i]))
  {
    HavingPresent(es, EntryKey, ks[i]);
    if i < |ks| - 1 {
      InsertionGroupAt(es, ks[..|ks| - 1], i);
    } else if |ks| > 1 {
      InsertionGroupAt(es, ks[..|ks| - 1], 0);
    }
  }

  /**
   * A group collects exactly the entries of its author id: it is non-empty,
   * holds nothing else, holds each such entry as often as `es` does, and its
   * total is the sum of their weights. Its author record is the one of the
   * first entry of that id in `es`, the entry that opened the group.
   */
  ghost predicate Collects(es: seq<Entry>, g: AuthorGroup) {
    && |g.items| > 0
    && |Having(es, EntryKey, g.author.id)| > 0
    && g.author == EntryAuthor(Having(es, EntryKey, g.author.id)[0])
    && (forall i :: 0 <= i < |g.items| ==> EntryKey(g.items[i]) == g.author.id)
    && (forall x :: EntryKey(x) == g.author.id ==> multiset(g.items)[x] == multiset(es)[x])
    && g.total == SumBy(g.items, Weight)
  }

  function GroupKey(g: AuthorGroup): JsId { g.author.id }

  lemma InsertionGroupsCollect(es: seq<Entry>, ks: seq<JsId>)
    requires forall k :: k in ks ==> k in DistinctKeys(es, EntryKey)
    ensures |InsertionGroups(es, ks)| == |ks|
    ensures forall i :: 0 <= i < |ks| ==> Collects(es, InsertionGroups(es, ks)[i]) && GroupKey(InsertionGroups(es, ks)[i]) == ks[i]
  {
    if ks != [] {
      InsertionGroupAt(es, ks, 0);
    }
    forall i | 0 <= i < |ks|
      ensures Collects(es, InsertionGroups(es, ks)[i]) && GroupKey(InsertionGroups(es, ks)[i]) == ks[i]
    {
      InsertionGroupAt(es, ks, i);
      HavingSpec(es, EntryKey, ks[i]);
    }
  }

  lemma TimedCollects(es: seq<Entry>, g: AuthorGroup)
    requires Collects(es, g)
    ensures Collects(es, Timed(g)) && GroupKey(Timed(g)) == GroupKey(g)
    ensures SortedBy(Timed(g).items, NegEntryTime)
  {
    var sorted := SortBy(g.items, NegEntryTime);
    SumByPermutation(g.items, sorted, Weight);
    forall i | 0 <= i < |sorted|
      ensures EntryKey(sorted[i]) == g.author.id
    {
      assert sorted[i] in multiset(g.items);
    }
  }

  /** The `i`-th timed group, in key order, before the sort by total. */
  lemma TimedGroupAt(threads: seq<Thread>, standalone: seq<Post>, i: int)
    requires 0 <= i < |DistinctKeys(Entries(threads, standalone), EntryKey)|
    ensures |TimedAll(AuthorGroups(threads, standalone))| == |DistinctKeys(Entries(threads, standalone), EntryKey)|
    ensures var g := TimedAll(AuthorGroups(threads, standalone))[i];
            && Collects(Entries(threads, standalone), g)
            && GroupKey(g) == DistinctKeys(Entries(threads, standalone), EntryKey)[i]
            && SortedBy(g.items, NegEntryTime)
  {
    var es := Entries(threads, standalone);
    var ks := DistinctKeys(es, EntryKey);
    InsertionGroupAt(es, ks, i);
    HavingSpec(es, EntryKey, ks[i]);
    TimedCollects(es, AuthorGroups(threads, standalone)[i]);
  }

  /** The timed groups, in key order, before the sort by total. */
  lemma TimedGroupsCollect(threads: seq<Thread>, standalone: seq<Post>)
    ensures |TimedAll(AuthorGroups(threads, standalone))| == |DistinctKeys(Entries(threads, standalone), EntryKey)|
    ensures var es, ks, timed := Entries(threads, standalone), DistinctKeys(Entries(threads, standalone), EntryKey),
                                 TimedAll(AuthorGroups(threads, standalone));
            forall i :: 0 <= i < |timed| ==> Collects(es, timed[i]) && GroupKey(timed[i]) == ks[i] && SortedBy(timed[i].items, NegEntryTime)
  {
    var ks := DistinctKeys(Entries(threads, standalone), EntryKey);
    var timed := TimedAll(AuthorGroups(threads, standalone));
    if ks != [] {
      TimedGroupAt(threads, standalone, 0);
    }
    forall i | 0 <= i < |timed|
      ensures Collects(Entries(threads, standalone), timed[i]) && GroupKey(timed[i]) == ks[i] && SortedBy(timed[i].items, NegEntryTime)
    {
      TimedGroupAt(threads, standalone, i);
    }
  }

  lemma EntriesListAll(threads: seq<Thread>, standalone: seq<Post>)
    ensures forall t :: t in threads ==> ThreadEntry(t) in Entries(threads, standalone)
    ensures forall p :: p in standalone ==> TweetEntry(p) in Entries(threads, standalone)
  {
    var es := Entries(threads, standalone);
    forall t | t in threads
      ensures ThreadEntry(t) in es
    {
      var i :| 0 <= i < |threads| && threads[i] == t;
      assert es[i] == ThreadEntry(t);
    }
    forall p | p in standalone
      ensures TweetEntry(p) in es
    {
      var i :| 0 <= i < |standalone| && standalone[i] == p;
      assert es[|threads| + i] == TweetEntry(p);
    }
  }

  /** The author id of every entry is among the keys. */
  lemma EveryKeyListed(es: seq<Entry>)
    ensures forall e :: e in es ==> EntryKey(e) in DistinctKeys(es, EntryKey)
  {
    DistinctKeysSpec(es, EntryKey);
    forall e | e in es
      ensures EntryKey(e) in DistinctKeys(es, EntryKey)
    {
      var p :| 0 <= p < |es| && es[p] == e;
    }
  }

  /** Groups whose keys are listed without repeats have distinct keys. */
  lemma KeysFromOrder(gs: seq<AuthorGroup>, ks: seq<JsId>)
    requires NoDup(ks) && |gs| == |ks|
    requires forall i :: 0 <= i < |gs| ==> GroupKey(gs[i]) == ks[i]
    ensures KeysDistinct(gs, GroupKey)
  {
  }

  predicate NewestFirst(items: seq<Entry>) {
    forall a, b :: 0 <= a < b < |items| ==> EntryTime(items[a]) >= EntryTime(items[b])
  }

  /** Every entry lies in some group. */
  ghost predicate Covers(es: seq<Entry>, gs: seq<AuthorGroup>) {
    forall e :: e in es ==> exists i :: 0 <= i < |gs| && e in gs[i].items
  }

  /** One group per key, each collecting its key's entries: every entry is covered. */
  lemma KeyedGroupsCover(es: seq<Entry>, gs: seq<AuthorGroup>, ks: seq<JsId>)
    requires |gs| == |ks|
    requires forall i :: 0 <= i < |gs| ==> Collects(es, gs[i]) && GroupKey(gs[i]) == ks[i]
    requires forall e :: e in es ==> EntryKey(e) in ks
    ensures Covers(es, gs)
  {
    forall e | e in es
      ensures exists i :: 0 <= i < |gs| && e in gs[i].items
    {
      var k :| 0 <= k < |ks| && ks[k] == EntryKey(e);
      assert multiset(gs[k].items)[e] == multiset(es)[e];
    }
  }

  /** Reordering the groups keeps every entry covered. */
  lemma CoversPermutation(es: seq<Entry>, gs: seq<AuthorGroup>, r: seq<AuthorGroup>)
    requires multiset(gs) == multiset(r) && Covers(es, gs)
    ensures Covers(es, r)
  {
    forall e | e in es
      ensures exists i :: 0 <= i < |r| && e in r[i].items
    {
      var k :| 0 <= k < |gs| && e in gs[k].items;
      assert gs[k] in multiset(r);
      var i :| 0 <= i < |r| && r[i] == gs[k];
    }
  }

  /** Sorting the groups by total keeps what each group holds. */
  lemma SortedGroupsCollect(es: seq<Entry>, gs: seq<AuthorGroup>)
    requires forall i :: 0 <= i < |gs| ==> Collects(es, gs[i]) && SortedBy(gs[i].items, NegEntryTime)
    ensures forall i :: 0 <= i < |SortBy(gs, NegTotal)| ==> Collects(es, SortBy(gs, NegTotal)[i])
    ensures forall i :: 0 <= i < |SortBy(gs, NegTotal)| ==> NewestFirst(SortBy(gs, NegTotal)[i].items)
  {
    var r := SortBy(gs, NegTotal);
    forall i | 0 <= i < |r|
      ensures Collects(es, r[i]) && NewestFirst(r[i].items)
    {
      assert r[i] in multiset(gs);
      assert forall a, b :: 0 <= a < b < |r[i].items| ==> NegEntryTime(r[i].items[a]) <= NegEntryTime(r[i].items[b]);
    }
  }

  /**
   * `groupByAuthor` splits the threads and standalone posts by author id:
   * the groups come by non-increasing total, no two share an author id,
   * each holds exactly the entries of its author id (newest first) with
   * their weights summed as its total, and every entry is in a group.
   */
  lemma GroupByAuthorSound(threads: seq<Thread>, standalone: seq<Post>)
    ensures var r := GroupByAuthorSpec(threads, standalone);
            forall i, j :: 0 <= i < j < |r| ==> r[i].total >= r[j].total
    ensures KeysDistinct(GroupByAuthorSpec(threads, standalone), GroupKey)
    ensures var r := GroupByAuthorSpec(threads, standalone);
            forall i :: 0 <= i < |r| ==> Collects(Entries(threads, standalone), r[i]) && NewestFirst(r[i].items)
    ensures Covers(Entries(threads, standalone), GroupByAuthorSpec(threads, standalone))
  {
    var es := Entries(threads, standalone);
    var ks := DistinctKeys(es, EntryKey);
    var timed := TimedAll(AuthorGroups(threads, standalone));
    var r := GroupByAuthorSpec(threads, standalone);
    assert forall i, j :: 0 <= i < j < |r| ==> NegTotal(r[i]) <= NegTotal(r[j]);
    DistinctKeysSpec(es, EntryKey);
    TimedGroupsCollect(threads, standalone);
    KeysFromOrder(timed, ks);
    KeysDistinctPermutation(timed, r, GroupKey);
    SortedGroupsCollect(es, timed);
    EveryKeyListed(es);
    KeyedGroupsCover(es, timed, ks);
    CoversPermutation(es, timed, r);
  }

  // ----- getThreadsOnly -----

  function NegStartTime(t: Thread): int { -t.startTime }

  /**
   * `getThreadsOnly` (src/processors/thread.js:191-194): sorts the caller's
   * array of threads in place, newest start first, and returns that same array.
   */
  method GetThreadsOnly(threads: array<Thread>) returns (r: array<Thread>)
    modifies threads
    ensures r == threads
    ensures threads[..] == SortBy(old(threads[..]), NegStartTime)
  {
    var sorted := SortBy(threads[..], NegStartTime);
    forall i | 0 <= i < threads.Length {
      threads[i] := sorted[i];
    }
    r := threads;
  }

  /** The array `getThreadsOnly` leaves behind holds the same threads, newest start first. */
  lemma ThreadsOnlyOrder(before: seq<Thread>)
    ensures var after := SortBy(before, NegStartTime);
            && multiset(after) == multiset(before)
            && (forall i, j :: 0 <= i < j < |after| ==> after[i].startTime >= after[j].startTime)
  {
    var after := SortBy(before, NegStartTime);
    assert forall i, j :: 0 <= i < j < |after| ==> NegStartTime(after[i]) <= NegStartTime(after[j]);
  }
}
