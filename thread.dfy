/**
 * The thread detector (src/processors/thread.js, `processThreads`): posts are
 * bucketed by conversation, each conversation by author, and every bucket of
 * one author's posts in one conversation either becomes a thread or is
 * emitted as standalone posts.
 *
 * The reference definition walks the buckets in the order the JavaScript
 * `Map`s iterate them (first appearance, `DistinctKeys`); `ProcessThreads`
 * is the loop the source runs and is proved to compute it.
 */
module ThreadDetector {
  import opened Posts
  import opened Seqs

  function ConvKey(p: Post): string { p.conversationId }
  function AuthorKey(p: Post): JsId { p.author.id }
  function TimeKey(p: Post): int { p.timestamp }

  /**
   * The test one member must pass for its bucket to be a thread: it replies
   * to the bucket's author, or it replies to some post at all.  The ids are
   * compared as `===` does: `undefined` equals `undefined` and `null` equals
   * `null`, but `null` never equals `undefined`.
   */
  predicate SelfReply(t: Post, authorId: JsId) {
    t.inReplyToUserId == authorId || Truthy(t.inReplyToTweetId)
  }

  /** `authorTweets.some(...)` */
  predicate AnySelfReply(g: seq<Post>, authorId: JsId) {
    exists i :: 0 <= i < |g| && SelfReply(g[i], authorId)
  }

  /** A bucket of one author's posts in one conversation that becomes a thread. */
  predicate FormsThread(g: seq<Post>, authorId: JsId) {
    |g| > 1 && AnySelfReply(g, authorId)
  }

  function MakeThread(convId: string, sorted: seq<Post>): Thread
    requires |sorted| > 0
  {
    Thread(convId, sorted[0].author, sorted, |sorted|, sorted[0].timestamp, sorted[|sorted| - 1].timestamp, true)
  }

  /** The standalone output record: the input post with its two thread fields set. */
  function MarkStandalone(p: Post): Post {
    p.(isThread := Some(false), tweetCount := Some(1))
  }

  function Count(t: Thread): int { t.tweetCount }

  /** What a run of buckets contributes: threads and unmarked standalone posts, in emission order. */
  datatype Outcome = Outcome(threads: seq<Thread>, standalone: seq<Post>)

  function Then(a: Outcome, b: Outcome): Outcome {
    Outcome(a.threads + b.threads, a.standalone + b.standalone)
  }

  lemma ThenAssociative(a: Outcome, b: Outcome, c: Outcome)
    ensures Then(Then(a, b), c) == Then(a, Then(b, c))
  {
    assert (a.threads + b.threads) + c.threads == a.threads + (b.threads + c.threads);
    assert (a.standalone + b.standalone) + c.standalone == a.standalone + (b.standalone + c.standalone);
  }

  /** One author bucket `g`, in arrival order. */
  function GroupOutcome(convId: string, authorId: JsId, g: seq<Post>): Outcome {
    if |g| > 1 then
      var sorted := SortBy(g, TimeKey);
      if AnySelfReply(sorted, authorId) then Outcome([MakeThread(convId, sorted)], [])
      else Outcome([], sorted)
    else Outcome([], g)
  }

  /** The buckets of the authors `authors` of one conversation, in that order. */
  function ConvOutcome(convId: string, convTweets: seq<Post>, authors: seq<JsId>): Outcome {
    if authors == [] then Outcome([], [])
    else
      var a := authors[|authors| - 1];
      Then(ConvOutcome(convId, convTweets, authors[..|authors| - 1]), GroupOutcome(convId, a, Having(convTweets, AuthorKey, a)))
  }

  /** One conversation of `tweets`, its authors in order of first appearance. */
  function ConvResult(tweets: seq<Post>, convId: string): Outcome {
    var convTweets := Having(tweets, ConvKey, convId);
    ConvOutcome(convId, convTweets, DistinctKeys(convTweets, AuthorKey))
  }

  /** The conversations `convs` of `tweets`, in that order. */
  function AllOutcome(tweets: seq<Post>, convs: seq<string>): Outcome {
    if convs == [] then Outcome([], [])
    else Then(AllOutcome(tweets, convs[..|convs| - 1]), ConvResult(tweets, convs[|convs| - 1]))
  }

  /** The standalone posts before marking, in emission order. */
  function RawStandalone(tweets: seq<Post>): seq<Post> {
    AllOutcome(tweets, DistinctKeys(tweets, ConvKey)).standalone
  }

  /** The reference result of `processThreads`. */
  function ProcessSpec(tweets: seq<Post>): Processed {
    var o := AllOutcome(tweets, DistinctKeys(tweets, ConvKey));
    var raw := o.standalone;
    var marked := seq(|raw|, i requires 0 <= i < |raw| => MarkStandalone(raw[i]));
    Processed(o.threads, marked, Stats(|tweets|, |o.threads|, SumBy(o.threads, Count), |marked|))
  }

  /**
   * The body of the inner loop of `processThreads` for one author bucket
   * (src/processors/thread.js:41-68): sort a multi-post bucket oldest first,
   * then push it as one thread or as standalone posts.
   */
  method EmitGroup(convId: string, authorId: JsId, authorTweets: seq<Post>,
                   threads: seq<Thread>, standaloneTweets: seq<Post>)
    returns (threads': seq<Thread>, standaloneTweets': seq<Post>)
    ensures Outcome(threads', standaloneTweets') == Then(Outcome(threads, standaloneTweets), GroupOutcome(convId, authorId, authorTweets))
  {
    threads', standaloneTweets' := threads, standaloneTweets;
    var group := authorTweets;
    if |group| > 1 {
      group := SortBy(group, TimeKey);
      var isThread := AnySelfReply(group, authorId);
      if isThread {
        threads' := threads' + [MakeThread(convId, group)];
      } else {
        standaloneTweets' := standaloneTweets' + group;
      }
    } else {
      standaloneTweets' := standaloneTweets' + group;
    }
  }

  /** One pass of the outer loop of `processThreads` (src/processors/thread.js:27-70). */
  method EmitConversation(tweets: seq<Post>, convId: string, convTweets: seq<Post>,
                          threads: seq<Thread>, standaloneTweets: seq<Post>)
    returns (threads': seq<Thread>, standaloneTweets': seq<Post>)
    requires convTweets == Having(tweets, ConvKey, convId)
    ensures Outcome(threads', standaloneTweets') == Then(Outcome(threads, standaloneTweets), ConvResult(tweets, convId))
  {
    threads', standaloneTweets' := threads, standaloneTweets;
    var authorOrder, authorGroups := GroupBy(convTweets, AuthorKey);
    for ai := 0 to |authorOrder|
      invariant Outcome(threads', standaloneTweets') == Then(Outcome(threads, standaloneTweets), ConvOutcome(convId, convTweets, authorOrder[..ai]))
    {
      assert authorOrder[..ai + 1][..ai] == authorOrder[..ai];
      var authorId := authorOrder[ai];
      ghost var done := ConvOutcome(convId, convTweets, authorOrder[..ai]);
      threads', standaloneTweets' := EmitGroup(convId, authorId, authorGroups[authorId], threads', standaloneTweets');
      ThenAssociative(Outcome(threads, standaloneTweets), done, GroupOutcome(convId, authorId, Having(convTweets, AuthorKey, authorId)));
    }
    assert authorOrder[..|authorOrder|] == authorOrder;
  }

  /** `processThreads` (src/processors/thread.js:11-89). */
  method ProcessThreads(tweets: seq<Post>) returns (r: Processed)
    ensures r == ProcessSpec(tweets)
  {
    var convOrder, conversationMap := GroupBy(tweets, ConvKey);
    var threads: seq<Thread> := [];
    var standaloneTweets: seq<Post> := [];
    for ci := 0 to |convOrder|
      invariant Outcome(threads, standaloneTweets) == AllOutcome(tweets, convOrder[..ci])
    {
      assert convOrder[..ci + 1][..ci] == convOrder[..ci];
      var convId := convOrder[ci];
      ThenAssociative(AllOutcome(tweets, convOrder[..ci]), Outcome([], []), ConvResult(tweets, convId));
      threads, standaloneTweets := EmitConversation(tweets, convId, conversationMap[convId], threads, standaloneTweets);
    }
    assert convOrder[..|convOrder|] == convOrder;
    var processedStandalone := seq(|standaloneTweets|, i requires 0 <= i < |standaloneTweets| => MarkStandalone(standaloneTweets[i]));
    r := Processed(threads, processedStandalone,
                   Stats(|tweets|, |threads|, SumBy(threads, Count), |processedStandalone|));
  }

  // ----- Every post lands exactly once -----

  /** The posts of `ts`, thread after thread. */
  function ThreadTweets(ts: seq<Thread>): seq<Post> {
    if ts == [] then [] else ThreadTweets(ts[..|ts| - 1]) + ts[|ts| - 1].tweets
  }

  lemma {:induction false} ThreadTweetsConcat(a: seq<Thread>, b: seq<Thread>)
    ensures ThreadTweets(a + b) == ThreadTweets(a) + ThreadTweets(b)
  {
    if b == [] {
      assert a + b == a;
    } else {
      assert (a + b)[..|a + b| - 1] == a + b[..|b| - 1];
      ThreadTweetsConcat(a, b[..|b| - 1]);
    }
  }

  /** Every post an outcome emits, in a thread or standalone. */
  function Members(o: Outcome): multiset<Post> {
    multiset(ThreadTweets(o.threads)) + multiset(o.standalone)
  }

  lemma MembersThen(a: Outcome, b: Outcome)
    ensures Members(Then(a, b)) == Members(a) + Members(b)
  {
    ThreadTweetsConcat(a.threads, b.threads);
  }

  /** A bucket is emitted whole, as one thread or as standalone posts. */
  lemma GroupMembers(convId: string, authorId: JsId, g: seq<Post>)
    ensures Members(GroupOutcome(convId, authorId, g)) == multiset(g)
  {
    if |g| > 1 {
      var sorted := SortBy(g, TimeKey);
      assert ThreadTweets([MakeThread(convId, sorted)]) == sorted;
    }
  }

  lemma {:induction false} ConvMembers(convId: string, convTweets: seq<Post>, authors: seq<JsId>)
    ensures Members(ConvOutcome(convId, convTweets, authors)) == multiset(Grouped(convTweets, AuthorKey, authors))
  {
    if authors != [] {
      var a := authors[|authors| - 1];
      var init := authors[..|authors| - 1];
      ConvMembers(convId, convTweets, init);
      MembersThen(ConvOutcome(convId, convTweets, init), GroupOutcome(convId, a, Having(convTweets, AuthorKey, a)));
      GroupMembers(convId, a, Having(convTweets, AuthorKey, a));
    }
  }

  lemma {:induction false} AllMembers(tweets: seq<Post>, convs: seq<string>)
    ensures Members(AllOutcome(tweets, convs)) == multiset(Grouped(tweets, ConvKey, convs))
  {
    if convs != [] {
      var c := convs[|convs| - 1];
      var init := convs[..|convs| - 1];
      AllMembers(tweets, init);
      MembersThen(AllOutcome(tweets, init), ConvResult(tweets, c));
      var convTweets := Having(tweets, ConvKey, c);
      ConvMembers(c, convTweets, DistinctKeys(convTweets, AuthorKey));
      GroupedPermutation(convTweets, AuthorKey);
    }
  }

  /** The sum of the thread sizes is the number of posts in threads. */
  lemma {:induction false} CountsAreSizes(ts: seq<Thread>)
    requires forall i :: 0 <= i < |ts| ==> ts[i].tweetCount == |ts[i].tweets|
    ensures SumBy(ts, Count) == |ThreadTweets(ts)|
  {
    if ts != [] {
      CountsAreSizes(ts[..|ts| - 1]);
    }
  }

  /**
   * `processThreads` partitions its input: the thread members and the
   * standalone posts together are the input posts, each exactly as often as
   * it occurs; each standalone output is its post with only `isThread` and
   * `tweetCount` set; and the counts add up.
   */
  lemma ProcessPartition(tweets: seq<Post>)
    ensures multiset(ThreadTweets(ProcessSpec(tweets).threads)) + multiset(RawStandalone(tweets)) == multiset(tweets)
    ensures var r, raw := ProcessSpec(tweets), RawStandalone(tweets);
            && |r.standaloneTweets| == |raw|
            && forall i :: 0 <= i < |raw| ==>
                 && r.standaloneTweets[i].isThread == Some(false)
                 && r.standaloneTweets[i].tweetCount == Some(1)
                 && r.standaloneTweets[i].(isThread := raw[i].isThread, tweetCount := raw[i].tweetCount) == raw[i]
    ensures var st := ProcessSpec(tweets).stats;
            && st.totalTweets == |tweets|
            && st.threadCount == |ProcessSpec(tweets).threads|
            && st.standaloneTweetCount == |ProcessSpec(tweets).standaloneTweets|
            && st.tweetsInThreads + st.standaloneTweetCount == st.totalTweets
  {
    var r := ProcessSpec(tweets);
    AllMembers(tweets, DistinctKeys(tweets, ConvKey));
    GroupedPermutation(tweets, ConvKey);
    ThreadsWellFormed(tweets);
    CountsAreSizes(r.threads);
    assert |multiset(ThreadTweets(r.threads)) + multiset(RawStandalone(tweets))| == |multiset(tweets)|;
  }

  // ----- The shape of a thread -----

  /** What every thread `processThreads` builds satisfies. */
  predicate WellFormed(t: Thread) {
    && |t.tweets| >= 2
    && t.tweetCount == |t.tweets|
    && t.author == t.tweets[0].author
    && (forall i :: 0 <= i < |t.tweets| ==> t.tweets[i].conversationId == t.id && t.tweets[i].author.id == t.author.id)
    && SortedBy(t.tweets, TimeKey)
    && t.startTime == t.tweets[0].timestamp
    && t.endTime == t.tweets[|t.tweets| - 1].timestamp
    && t.startTime <= t.endTime
    && AnySelfReply(t.tweets, t.author.id)
    && t.isThread
  }

  lemma GroupWellFormed(convId: string, authorId: JsId, g: seq<Post>)
    requires forall i :: 0 <= i < |g| ==> g[i].conversationId == convId && g[i].author.id == authorId
    ensures forall t :: t in GroupOutcome(convId, authorId, g).threads ==> WellFormed(t)
  {
    if |g| > 1 {
      var sorted := SortBy(g, TimeKey);
      forall i | 0 <= i < |sorted|
        ensures sorted[i].conversationId == convId && sorted[i].author.id == authorId
      {
        assert sorted[i] in multiset(g);
      }
    }
  }

  lemma {:induction false} ConvWellFormed(convId: string, convTweets: seq<Post>, authors: seq<JsId>)
    requires forall i :: 0 <= i < |convTweets| ==> convTweets[i].conversationId == convId
    ensures forall t :: t in ConvOutcome(convId, convTweets, authors).threads ==> WellFormed(t)
  {
    if authors != [] {
      var a := authors[|authors| - 1];
      ConvWellFormed(convId, convTweets, authors[..|authors| - 1]);
      var g := Having(convTweets, AuthorKey, a);
      HavingSpec(convTweets, AuthorKey, a);
      forall i | 0 <= i < |g|
        ensures g[i].conversationId == convId && g[i].author.id == a
      {
        assert g[i] in multiset(convTweets);
        assert AuthorKey(g[i]) == a;
      }
      GroupWellFormed(convId, a, g);
    }
  }

  lemma {:induction false} AllWellFormed(tweets: seq<Post>, convs: seq<string>)
    ensures forall t :: t in AllOutcome(tweets, convs).threads ==> WellFormed(t)
  {
    if convs != [] {
      var c := convs[|convs| - 1];
      AllWellFormed(tweets, convs[..|convs| - 1]);
      HavingSpec(tweets, ConvKey, c);
      ConvWellFormed(c, Having(tweets, ConvKey, c), DistinctKeys(Having(tweets, ConvKey, c), AuthorKey));
    }
  }

  /**
   * Every thread has at least two posts, all of one conversation (its id)
   * and one author id, oldest first, with the first post's author and the
   * first and last post's times as its start and end, and a member that
   * passes the self-reply test.
   */
  lemma ThreadsWellFormed(tweets: seq<Post>)
    ensures forall i :: 0 <= i < |ProcessSpec(tweets).threads| ==> WellFormed(ProcessSpec(tweets).threads[i])
  {
    AllWellFormed(tweets, DistinctKeys(tweets, ConvKey));
  }

  // ----- The fate of each post -----

  /** The posts sharing `x`'s conversation and author id, in input order: the bucket `x` falls in. */
  function Peers(tweets: seq<Post>, x: Post): seq<Post> {
    Having(Having(tweets, ConvKey, x.conversationId), AuthorKey, x.author.id)
  }

  lemma SortedSelfReply(g: seq<Post>, authorId: JsId)
    ensures AnySelfReply(SortBy(g, TimeKey), authorId) <==> AnySelfReply(g, authorId)
  {
    var sorted := SortBy(g, TimeKey);
    if AnySelfReply(sorted, authorId) {
      var i :| 0 <= i < |sorted| && SelfReply(sorted[i], authorId);
      assert sorted[i] in multiset(g);
    }
    if AnySelfReply(g, authorId) {
      var i :| 0 <= i < |g| && SelfReply(g[i], authorId);
      assert g[i] in multiset(sorted);
    }
  }

  lemma GroupFate(convId: string, authorId: JsId, g: seq<Post>, x: Post)
    ensures x in GroupOutcome(convId, authorId, g).standalone <==> x in g && !FormsThread(g, authorId)
    ensures x in ThreadTweets(GroupOutcome(convId, authorId, g).threads) <==> x in g && FormsThread(g, authorId)
  {
    var o := GroupOutcome(convId, authorId, g);
    if |g| > 1 {
      var sorted := SortBy(g, TimeKey);
      SortedSelfReply(g, authorId);
      assert x in sorted <==> x in g by {
        assert x in sorted <==> x in multiset(sorted);
      }
      if AnySelfReply(sorted, authorId) {
        assert o == Outcome([MakeThread(convId, sorted)], []);
        assert [MakeThread(convId, sorted)][..0] == [];
        assert ThreadTweets([MakeThread(convId, sorted)]) == [] + sorted;
      } else {
        assert o == Outcome([], sorted);
      }
    } else {
      assert o == Outcome([], g);
    }
  }

  lemma {:induction false} ConvFate(convId: string, convTweets: seq<Post>, authors: seq<JsId>, x: Post)
    ensures var o, a := ConvOutcome(convId, convTweets, authors), x.author.id;
            && (x in o.standalone <==> a in authors && x in convTweets && !FormsThread(Having(convTweets, AuthorKey, a), a))
            && (x in ThreadTweets(o.threads) <==> a in authors && x in convTweets && FormsThread(Having(convTweets, AuthorKey, a), a))
  {
    if authors != [] {
      var a := authors[|authors| - 1];
      var init := authors[..|authors| - 1];
      ConvFate(convId, convTweets, init, x);
      var g := Having(convTweets, AuthorKey, a);
      GroupFate(convId, a, g, x);
      HavingSpec(convTweets, AuthorKey, a);
      assert x in g <==> x in convTweets && x.author.id == a by {
        assert x in g <==> multiset(g)[x] > 0;
      }
      ThreadTweetsConcat(ConvOutcome(convId, convTweets, init).threads, GroupOutcome(convId, a, g).threads);
      assert x.author.id in authors <==> x.author.id in init || x.author.id == a;
    }
  }

  lemma {:induction false} AllFate(tweets: seq<Post>, convs: seq<string>, x: Post)
    ensures var o := AllOutcome(tweets, convs);
            && (x in o.standalone <==> x.conversationId in convs && x in tweets && !FormsThread(Peers(tweets, x), x.author.id))
            && (x in ThreadTweets(o.threads) <==> x.conversationId in convs && x in tweets && FormsThread(Peers(tweets, x), x.author.id))
  {
    if convs != [] {
      var c := convs[|convs| - 1];
      var init := convs[..|convs| - 1];
      AllFate(tweets, init, x);
      var convTweets := Having(tweets, ConvKey, c);
      var authors := DistinctKeys(convTweets, AuthorKey);
      ConvFate(c, convTweets, authors, x);
      HavingSpec(tweets, ConvKey, c);
      DistinctKeysSpec(convTweets, AuthorKey);
      assert x in convTweets <==> x in tweets && x.conversationId == c by {
        assert x in convTweets <==> multiset(convTweets)[x] > 0;
      }
      if x in convTweets {
        var i :| 0 <= i < |convTweets| && convTweets[i] == x;
        assert AuthorKey(convTweets[i]) == x.author.id;
      }
      ThreadTweetsConcat(AllOutcome(tweets, init).threads, ConvResult(tweets, c).threads);
      assert x.conversationId in convs <==> x.conversationId in init || x.conversationId == c;
    }
  }

  /**
   * A post lands in a thread exactly when its bucket (the posts of its
   * conversation by its author id) has more than one post and a member
   * passing the self-reply test; otherwise it is a standalone post.  No other
   * post appears in either.
   */
  lemma ProcessFate(tweets: seq<Post>, x: Post)
    ensures x in ThreadTweets(ProcessSpec(tweets).threads) <==> x in tweets && FormsThread(Peers(tweets, x), x.author.id)
    ensures x in RawStandalone(tweets) <==> x in tweets && !FormsThread(Peers(tweets, x), x.author.id)
  {
    AllFate(tweets, DistinctKeys(tweets, ConvKey), x);
    if x in tweets {
      ConversationListed(tweets, x);
    }
  }

  lemma ConversationListed(tweets: seq<Post>, x: Post)
    requires x in tweets
    ensures x.conversationId in DistinctKeys(tweets, ConvKey)
  {
    DistinctKeysSpec(tweets, ConvKey);
    var i :| 0 <= i < |tweets| && tweets[i] == x;
    assert ConvKey(tweets[i]) == x.conversationId;
  }

  lemma {:induction false} HavingShorter<T, K>(s: seq<T>, key: T -> K, k: K)
    ensures |Having(s, key, k)| <= |s|
  {
    if s != [] {
      HavingShorter(s[..|s| - 1], key, k);
    }
  }

  /** A post that is the only one of its conversation is always standalone. */
  lemma UniqueConversationStandalone(tweets: seq<Post>, x: Post)
    requires x in tweets && |Having(tweets, ConvKey, x.conversationId)| == 1
    ensures x in RawStandalone(tweets)
    ensures x !in ThreadTweets(ProcessSpec(tweets).threads)
  {
    ProcessFate(tweets, x);
    HavingShorter(Having(tweets, ConvKey, x.conversationId), AuthorKey, x.author.id);
  }

  lemma AtLeastTwo<T>(s: seq<T>, x: T, y: T)
    requires multiset{x, y} <= multiset(s)
    ensures |s| >= 2
  {
    var rest := multiset(s) - multiset{x, y};
    assert multiset(s) == multiset{x, y} + rest;
  }

  /** Two posts at distinct positions are both in a bucket that keeps every post of its key. */
  lemma BothInBucket(tweets: seq<Post>, i: int, j: int)
    requires 0 <= i < j < |tweets|
    requires tweets[i].conversationId == tweets[j].conversationId && tweets[i].author.id == tweets[j].author.id
    ensures multiset{tweets[i], tweets[j]} <= multiset(Peers(tweets, tweets[i]))
  {
    var x, y := tweets[i], tweets[j];
    var convTweets := Having(tweets, ConvKey, x.conversationId);
    var g := Peers(tweets, x);
    PairIn(tweets, i, j);
    HavingSpec(tweets, ConvKey, x.conversationId);
    HavingSpec(convTweets, AuthorKey, x.author.id);
    assert multiset(g)[x] == multiset(tweets)[x];
    assert multiset(g)[y] == multiset(tweets)[y];
  }

  lemma PairIn<T>(s: seq<T>, i: int, j: int)
    requires 0 <= i < j < |s|
    ensures multiset{s[i], s[j]} <= multiset(s)
  {
    assert s == s[..i] + [s[i]] + s[i + 1..j] + [s[j]] + s[j + 1..];
  }

  /**
   * With no author id (`undefined`, as for the users the adapter builds in
   * test mode), two posts of one conversation are a thread as soon as one of
   * them has an `undefined` reply target too (the provider omitted the
   * field): `undefined === undefined` passes the self-reply test.
   */
  lemma AnonymousPostsFormThread(tweets: seq<Post>, i: int, j: int)
    requires 0 <= i < j < |tweets|
    requires tweets[i].conversationId == tweets[j].conversationId
    requires tweets[i].author.id == Undefined && tweets[j].author.id == Undefined
    requires tweets[i].inReplyToUserId == Undefined
    ensures tweets[i] in ThreadTweets(ProcessSpec(tweets).threads)
    ensures tweets[j] in ThreadTweets(ProcessSpec(tweets).threads)
  {
    var x, y := tweets[i], tweets[j];
    var g := Peers(tweets, x);
    BothInBucket(tweets, i, j);
    AtLeastTwo(g, x, y);
    assert x in multiset(g);
    var k :| 0 <= k < |g| && g[k] == x;
    assert SelfReply(g[k], Undefined);
    assert Peers(tweets, y) == g;
    ProcessFate(tweets, x);
    ProcessFate(tweets, y);
  }

  /**
   * An explicit `null` reply target is not the `undefined` author id: an
   * anonymous post is standalone when no post of the input replies to a
   * post and every reply target is `null`.
   */
  lemma AnonymousNullRepliesStandalone(tweets: seq<Post>, x: Post)
    requires x in tweets && x.author.id == Undefined
    requires forall k :: 0 <= k < |tweets| ==> tweets[k].inReplyToUserId == Null && !Truthy(tweets[k].inReplyToTweetId)
    ensures x in RawStandalone(tweets)
    ensures x !in ThreadTweets(ProcessSpec(tweets).threads)
  {
    var conv := Having(tweets, ConvKey, x.conversationId);
    var g := Peers(tweets, x);
    HavingSpec(tweets, ConvKey, x.conversationId);
    HavingSpec(conv, AuthorKey, x.author.id);
    forall k | 0 <= k < |g|
      ensures !SelfReply(g[k], x.author.id)
    {
      assert g[k] in multiset(g);
      assert g[k] in multiset(conv);
      assert g[k] in tweets;
    }
    ProcessFate(tweets, x);
  }

  // ----- One thread per bucket -----

  /** The bucket of conversation `c` and author id `a`, in input order. */
  function Bucket(tweets: seq<Post>, c: string, a: JsId): seq<Post> {
    Having(Having(tweets, ConvKey, c), AuthorKey, a)
  }

  /** `t` holds the whole bucket of its own conversation and author id, oldest first. */
  predicate IsBucket(tweets: seq<Post>, t: Thread) {
    t.tweets == SortBy(Bucket(tweets, t.id, t.author.id), TimeKey)
  }

  /** No two threads share both their conversation and their author id. */
  predicate DistinctBuckets(ts: seq<Thread>) {
    forall i, j :: 0 <= i < j < |ts| ==> ts[i].id != ts[j].id || ts[i].author.id != ts[j].author.id
  }

  lemma InBucket(tweets: seq<Post>, c: string, a: JsId, y: Post)
    requires y in Bucket(tweets, c, a)
    ensures y.author.id == a
  {
    var g := Bucket(tweets, c, a);
    HavingSpec(Having(tweets, ConvKey, c), AuthorKey, a);
    var i :| 0 <= i < |g| && g[i] == y;
    assert AuthorKey(g[i]) == a;
  }

  lemma GroupBucket(tweets: seq<Post>, c: string, a: JsId)
    ensures var ts := GroupOutcome(c, a, Bucket(tweets, c, a)).threads;
            && |ts| <= 1
            && forall k :: 0 <= k < |ts| ==> ts[k].id == c && ts[k].author.id == a && IsBucket(tweets, ts[k])
  {
    var g := Bucket(tweets, c, a);
    var ts := GroupOutcome(c, a, g).threads;
    if |g| > 1 {
      var sorted := SortBy(g, TimeKey);
      if AnySelfReply(sorted, a) {
        var t := MakeThread(c, sorted);
        assert ts == [t];
        assert sorted[0] in multiset(g);
        InBucket(tweets, c, a, sorted[0]);
        assert t.id == c && t.author.id == a && t.tweets == sorted;
      } else {
        assert ts == [];
      }
    } else {
      assert ts == [];
    }
  }

  /** Every thread of `ts` is a whole bucket of conversation `c` and an author id of `authors`. */
  predicate ConvBucketsIn(tweets: seq<Post>, c: string, authors: seq<JsId>, ts: seq<Thread>) {
    forall k :: 0 <= k < |ts| ==> ts[k].id == c && ts[k].author.id in authors && IsBucket(tweets, ts[k])
  }

  predicate DistinctAuthors(ts: seq<Thread>) {
    forall k, l :: 0 <= k < l < |ts| ==> ts[k].author.id != ts[l].author.id
  }

  lemma {:induction false} ConvBuckets(tweets: seq<Post>, c: string, authors: seq<JsId>)
    requires NoDup(authors)
    ensures var ts := ConvOutcome(c, Having(tweets, ConvKey, c), authors).threads;
            ConvBucketsIn(tweets, c, authors, ts) && DistinctAuthors(ts)
  {
    if authors != [] {
      var convTweets := Having(tweets, ConvKey, c);
      var a := authors[|authors| - 1];
      var init := authors[..|authors| - 1];
      assert authors == init + [a];
      assert NoDup(init);
      assert a !in init;
      var ts0 := ConvOutcome(c, convTweets, init).threads;
      var tg := GroupOutcome(c, a, Bucket(tweets, c, a)).threads;
      var ts := ConvOutcome(c, convTweets, authors).threads;
      assert ts == ts0 + tg;
      ConvBuckets(tweets, c, init);
      assert ConvBucketsIn(tweets, c, init, ts0) && DistinctAuthors(ts0);
      GroupBucket(tweets, c, a);
      forall k | 0 <= k < |ts|
        ensures ts[k].id == c && ts[k].author.id in authors && IsBucket(tweets, ts[k])
      {
        if k < |ts0| { assert ts[k] == ts0[k]; } else { assert ts[k] == tg[k - |ts0|]; }
      }
      forall k, l | 0 <= k < l < |ts|
        ensures ts[k].author.id != ts[l].author.id
      {
        if l < |ts0| {
          assert ts[k] == ts0[k] && ts[l] == ts0[l];
        } else {
          assert k < |ts0| && ts[k] == ts0[k] && ts[l] == tg[l - |ts0|];
        }
      }
    }
  }

  lemma {:induction false} AllBuckets(tweets: seq<Post>, convs: seq<string>)
    requires NoDup(convs)
    ensures var ts := AllOutcome(tweets, convs).threads;
            && (forall k :: 0 <= k < |ts| ==> ts[k].id in convs && IsBucket(tweets, ts[k]))
            && DistinctBuckets(ts)
  {
    if convs != [] {
      var c := convs[|convs| - 1];
      var init := convs[..|convs| - 1];
      assert convs == init + [c];
      assert NoDup(init);
      assert c !in init;
      var convTweets := Having(tweets, ConvKey, c);
      var ts0 := AllOutcome(tweets, init).threads;
      var tc := ConvOutcome(c, convTweets, DistinctKeys(convTweets, AuthorKey)).threads;
      assert AllOutcome(tweets, convs).threads == ts0 + tc;
      AllBuckets(tweets, init);
      DistinctKeysSpec(convTweets, AuthorKey);
      ConvBuckets(tweets, c, DistinctKeys(convTweets, AuthorKey));
      AppendBuckets(tweets, ts0, tc, init, c);
      AppendDistinct(ts0, tc, init, c);
    }
  }

  lemma AppendBuckets(tweets: seq<Post>, ts0: seq<Thread>, tc: seq<Thread>, init: seq<string>, c: string)
    requires forall k :: 0 <= k < |ts0| ==> ts0[k].id in init && IsBucket(tweets, ts0[k])
    requires forall k :: 0 <= k < |tc| ==> tc[k].id == c && IsBucket(tweets, tc[k])
    ensures var ts := ts0 + tc;
            forall k :: 0 <= k < |ts| ==> ts[k].id in init + [c] && IsBucket(tweets, ts[k])
  {
    var ts := ts0 + tc;
    forall k | 0 <= k < |ts|
      ensures ts[k].id in init + [c] && IsBucket(tweets, ts[k])
    {
      if k < |ts0| { assert ts[k] == ts0[k]; } else { assert ts[k] == tc[k - |ts0|]; }
    }
  }

  lemma AppendDistinct(ts0: seq<Thread>, tc: seq<Thread>, init: seq<string>, c: string)
    requires DistinctBuckets(ts0) && c !in init
    requires forall k :: 0 <= k < |ts0| ==> ts0[k].id in init
    requires forall k :: 0 <= k < |tc| ==> tc[k].id == c
    requires forall k, l :: 0 <= k < l < |tc| ==> tc[k].author.id != tc[l].author.id
    ensures DistinctBuckets(ts0 + tc)
  {
    var ts := ts0 + tc;
    forall k, l | 0 <= k < l < |ts|
      ensures ts[k].id != ts[l].id || ts[k].author.id != ts[l].author.id
    {
      if l < |ts0| {
        assert ts[k] == ts0[k] && ts[l] == ts0[l];
      } else if k < |ts0| {
        assert ts[k] == ts0[k] && ts[l] == tc[l - |ts0|];
      } else {
        assert ts[k] == tc[k - |ts0|] && ts[l] == tc[l - |ts0|];
      }
    }
  }

  /**
   * Each thread is one whole bucket: all the posts of its first post's
   * conversation and author id, oldest first, so its count is the bucket's
   * size.
   */
  lemma ThreadIsBucket(tweets: seq<Post>, i: int)
    requires 0 <= i < |ProcessSpec(tweets).threads|
    ensures var t := ProcessSpec(tweets).threads[i];
            && |t.tweets| > 0
            && t.tweets == SortBy(Peers(tweets, t.tweets[0]), TimeKey)
            && t.tweetCount == |Peers(tweets, t.tweets[0])|
  {
    var ts := ProcessSpec(tweets).threads;
    DistinctKeysSpec(tweets, ConvKey);
    AllBuckets(tweets, DistinctKeys(tweets, ConvKey));
    ThreadsWellFormed(tweets);
    assert WellFormed(ts[i]);
  }

  /** No bucket yields two threads: the threads have pairwise distinct conversation and author id. */
  lemma ThreadsDistinct(tweets: seq<Post>)
    ensures DistinctBuckets(ProcessSpec(tweets).threads)
  {
    DistinctKeysSpec(tweets, ConvKey);
    AllBuckets(tweets, DistinctKeys(tweets, ConvKey));
  }

  lemma {:induction false} InSomeThread(ts: seq<Thread>, x: Post) returns (i: int)
    requires x in ThreadTweets(ts)
    ensures 0 <= i < |ts| && x in ts[i].tweets
  {
    var init := ts[..|ts| - 1];
    if x in ts[|ts| - 1].tweets {
      i := |ts| - 1;
    } else {
      i := InSomeThread(init, x);
      assert ts[i] == init[i];
    }
  }

  /**
   * A bucket that forms a thread becomes exactly one thread, and that thread
   * holds the whole bucket, oldest first.
   */
  lemma BucketIsOneThread(tweets: seq<Post>, x: Post)
    requires x in tweets && FormsThread(Peers(tweets, x), x.author.id)
    ensures var ts := ProcessSpec(tweets).threads;
            && (exists i :: 0 <= i < |ts| && x in ts[i].tweets && ts[i].tweets == SortBy(Peers(tweets, x), TimeKey))
            && (forall i, j :: 0 <= i < |ts| && 0 <= j < |ts| && x in ts[i].tweets && x in ts[j].tweets ==> i == j)
  {
    var ts := ProcessSpec(tweets).threads;
    ProcessFate(tweets, x);
    var i := InSomeThread(ts, x);
    ThreadsWellFormed(tweets);
    ThreadsDistinct(tweets);
    ThreadIsBucket(tweets, i);
    assert WellFormed(ts[i]);
    SameBucket(ts[i], ts[i].tweets[0], x);
    forall k, l | 0 <= k < |ts| && 0 <= l < |ts| && x in ts[k].tweets && x in ts[l].tweets
      ensures k == l
    {
      assert WellFormed(ts[k]) && WellFormed(ts[l]);
      SameKeys(ts[k], x);
      SameKeys(ts[l], x);
    }
  }

  lemma SameKeys(t: Thread, x: Post)
    requires WellFormed(t) && x in t.tweets
    ensures x.conversationId == t.id && x.author.id == t.author.id
  {
    var k :| 0 <= k < |t.tweets| && t.tweets[k] == x;
  }

  lemma SameBucket(t: Thread, y: Post, x: Post)
    requires WellFormed(t) && y in t.tweets && x in t.tweets
    ensures y.conversationId == x.conversationId && y.author.id == x.author.id
  {
    SameKeys(t, x);
    SameKeys(t, y);
  }
}
