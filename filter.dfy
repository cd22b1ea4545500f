/**
 * The content filter (src/processors/filter.js): a muted-word pass that
 * drops posts and counts why, then a video pass that strips non-image media.
 *
 * The configuration the filter reads (`filtering.mutedWords.enabled`,
 * `filtering.mutedWords.words`, `filtering.videos.enabled`) is passed in as
 * parameters.
 */
module ContentFilter {
  import opened Posts
  import opened Seqs
  import opened TextMatch

  /** The lower-cased text of an embedded copy, or "" when there is none. */
  function EmbeddedText(e: Option<Embedded>): string {
    match e
    case None => ""
    case Some(x) => Lower(x.text)
  }

  /** What the muted words are matched against: own, quoted and retweeted text, lower-cased, space-separated. */
  function Haystack(p: Post): (r: string)
    ensures Lower(p.text) + " " <= r
  {
    Lower(p.text) + " " + EmbeddedText(p.quotedTweet) + " " + EmbeddedText(p.retweetedTweet)
  }

  /**
   * A muted word removes a post when it occurs, ignoring case, right after a
   * word boundary of the post's combined text (what testing the built pattern
   * means, by `MutedPatternIsLiteral`).
   */
  predicate WordMutes(p: Post, word: string) {
    BoundaryMatch(Haystack(p), word)
  }

  /** The muted word a post is removed for: the first word, in list order, that matches it. */
  function FirstMatch(p: Post, words: seq<string>): (r: Option<string>)
    ensures r.Some? ==> r.value in words
  {
    if words == [] then None
    else if WordMutes(p, words[0]) then Some(words[0])
    else FirstMatch(p, words[1..])
  }

  /**
   * A post has no first matching word exactly when no word matches it; when
   * it has one, that word matches and every word before it in the list does not.
   */
  lemma {:induction false} FirstMatchSpec(p: Post, words: seq<string>)
    ensures FirstMatch(p, words).None? <==> forall w :: w in words ==> !WordMutes(p, w)
    ensures FirstMatch(p, words).Some? ==>
      exists k :: 0 <= k < |words| && words[k] == FirstMatch(p, words).value && WordMutes(p, words[k])
                  && forall j :: 0 <= j < k ==> !WordMutes(p, words[j])
  {
    if words != [] && !WordMutes(p, words[0]) {
      var rest := words[1..];
      FirstMatchSpec(p, rest);
      assert forall w :: w in words ==> w == words[0] || w in rest;
      if FirstMatch(p, rest).Some? {
        var k :| 0 <= k < |rest| && rest[k] == FirstMatch(p, rest).value && WordMutes(p, rest[k])
                 && forall j :: 0 <= j < k ==> !WordMutes(p, rest[j]);
        assert words[k + 1] == rest[k];
        assert forall j :: 1 <= j < k + 1 ==> words[j] == rest[j - 1];
      }
    }
  }

  /** The posts the muted-word pass keeps, in input order. */
  function Kept(ps: seq<Post>, words: seq<string>): seq<Post> {
    if ps == [] then []
    else Kept(ps[..|ps| - 1], words) + (if FirstMatch(ps[|ps| - 1], words).None? then [ps[|ps| - 1]] else [])
  }

  /** `(m[w] || 0)` */
  function Get(m: map<string, int>, w: string): int {
    if w in m then m[w] else 0
  }

  /** The per-word counters: each removed post adds one to the counter of its first matching word. */
  function MatchCounts(ps: seq<Post>, words: seq<string>): map<string, int> {
    if ps == [] then map[]
    else
      var m := MatchCounts(ps[..|ps| - 1], words);
      match FirstMatch(ps[|ps| - 1], words)
      case None => m
      case Some(w) => m[w := Get(m, w) + 1]
  }

  datatype MutedStats = MutedStats(total: int, filtered: int, mutedWordMatches: map<string, int>)

  /** The posts `filterTweets` returns: all of them when the pass is off, the kept ones otherwise. */
  function MutedPass(ps: seq<Post>, enabled: bool, words: seq<string>): seq<Post> {
    if !enabled || |words| == 0 then ps else Kept(ps, words)
  }

  /** The counters after one more post is removed for `word`. */
  function Bump(stats: MutedStats, word: string): MutedStats {
    stats.(filtered := stats.filtered + 1,
           mutedWordMatches := stats.mutedWordMatches[word := Get(stats.mutedWordMatches, word) + 1])
  }

  /**
   * The callback `filterTweets` passes to `tweets.filter`: tries the muted
   * words in list order against the post's combined text, and on the first
   * match counts the post as removed for that word and drops it.
   */
  method TweetPasses(tweet: Post, words: seq<string>, stats: MutedStats) returns (keep: bool, stats': MutedStats)
    ensures keep <==> FirstMatch(tweet, words).None?
    ensures keep ==> stats' == stats
    ensures !keep ==> stats' == Bump(stats, FirstMatch(tweet, words).value)
  {
    var allText := Haystack(tweet);
    stats' := stats;
    keep := true;
    var j := 0;
    while j < |words| && keep
      invariant 0 <= j <= |words|
      invariant keep ==> FirstMatch(tweet, words) == FirstMatch(tweet, words[j..]) && stats' == stats
      invariant !keep ==> j > 0 && FirstMatch(tweet, words) == Some(words[j - 1])
      invariant !keep ==> stats' == Bump(stats, words[j - 1])
    {
      var word := words[j];
      assert words[j..][0] == word && words[j..][1..] == words[j + 1..];
      MutedPatternIsLiteral(allText, word);
      if PatternTest(allText, MutedPattern(word)) {
        stats' := Bump(stats', word);
        keep := false;
      }
      j := j + 1;
    }
  }

  /** `filterTweets` (src/processors/filter.js:14-60). */
  method FilterTweets(tweets: seq<Post>, enabled: bool, words: seq<string>)
    returns (kept: seq<Post>, stats: MutedStats)
    ensures kept == MutedPass(tweets, enabled, words)
    ensures stats.total == |tweets| && |kept| + stats.filtered == |tweets|
    ensures !enabled || |words| == 0 ==> kept == tweets && stats.filtered == 0 && stats.mutedWordMatches == map[]
    ensures enabled && |words| > 0 ==> stats.mutedWordMatches == MatchCounts(tweets, words)
  {
    stats := MutedStats(|tweets|, 0, map[]);
    if !enabled || |words| == 0 {
      return tweets, stats;
    }
    kept := [];
    for i := 0 to |tweets|
      invariant kept == Kept(tweets[..i], words)
      invariant stats.total == |tweets|
      invariant stats.filtered == i - |kept|
      invariant stats.mutedWordMatches == MatchCounts(tweets[..i], words)
    {
      var tweet := tweets[i];
      assert tweets[..i + 1][..i] == tweets[..i];
      var keep;
      keep, stats := TweetPasses(tweet, words, stats);
      if keep {
        kept := kept + [tweet];
      }
    }
    assert tweets[..|tweets|] == tweets;
  }

  /** The kept posts are exactly the input posts no muted word matches. */
  lemma {:induction false} KeptMembers(ps: seq<Post>, words: seq<string>, p: Post)
    ensures p in Kept(ps, words) <==> p in ps && forall w :: w in words ==> !WordMutes(p, w)
  {
    if ps != [] {
      var init, last := ps[..|ps| - 1], ps[|ps| - 1];
      KeptMembers(init, words, p);
      FirstMatchSpec(last, words);
      assert ps == init + [last];
      if FirstMatch(last, words).None? {
        assert Kept(ps, words) == Kept(init, words) + [last];
      } else {
        assert Kept(ps, words) == Kept(init, words);
      }
    }
  }

  /** The kept posts are an order-preserving subsequence of the input. */
  lemma {:induction false} KeptEmbedding(ps: seq<Post>, words: seq<string>) returns (idx: seq<int>)
    ensures IsEmbedding(idx, Kept(ps, words), ps)
  {
    if ps == [] {
      idx := [];
    } else {
      var init, last := ps[..|ps| - 1], ps[|ps| - 1];
      idx := KeptEmbedding(init, words);
      var k := Kept(init, words);
      assert forall i :: 0 <= i < |init| ==> init[i] == ps[i];
      if FirstMatch(last, words).None? {
        assert Kept(ps, words) == k + [last];
        idx := idx + [|ps| - 1];
      } else {
        assert Kept(ps, words) == k;
      }
    }
  }

  lemma KeptIsSubsequence(ps: seq<Post>, words: seq<string>)
    ensures SubsequenceOf(Kept(ps, words), ps)
  {
    var idx := KeptEmbedding(ps, words);
  }

  /** Every counter belongs to a configured word. */
  lemma {:induction false} MatchCountsKeys(ps: seq<Post>, words: seq<string>)
    ensures forall w :: w in MatchCounts(ps, words) ==> w in words
  {
    if ps != [] {
      MatchCountsKeys(ps[..|ps| - 1], words);
    }
  }

  function Same(w: string): string { w }

  /** The sum of the counters of `ks`, a missing counter being zero. */
  function CountTotal(m: map<string, int>, ks: seq<string>): int {
    if ks == [] then 0 else CountTotal(m, ks[..|ks| - 1]) + Get(m, ks[|ks| - 1])
  }

  lemma {:induction false} CountTotalEmpty(ks: seq<string>)
    ensures CountTotal(map[], ks) == 0
  {
    if ks != [] {
      CountTotalEmpty(ks[..|ks| - 1]);
    }
  }

  lemma {:induction false} CountTotalBump(m: map<string, int>, ks: seq<string>, w: string)
    requires NoDup(ks)
    ensures CountTotal(m[w := Get(m, w) + 1], ks) == CountTotal(m, ks) + (if w in ks then 1 else 0)
  {
    if ks != [] {
      var init := ks[..|ks| - 1];
      assert NoDup(init);
      CountTotalBump(m, init, w);
      assert ks == init + [ks[|ks| - 1]];
      assert w in ks <==> w in init || w == ks[|ks| - 1];
    }
  }

  /** The distinct muted words, each listed once, include every muted word. */
  lemma DistinctWords(words: seq<string>, w: string)
    requires w in words
    ensures NoDup(DistinctKeys(words, Same)) && w in DistinctKeys(words, Same)
  {
    DistinctKeysSpec(words, Same);
    var k :| 0 <= k < |words| && words[k] == w;
    assert Same(words[k]) == w;
  }

  /** The step of `CountersSumToFiltered` for one more post. */
  lemma CountersStep(ps: seq<Post>, words: seq<string>)
    requires ps != []
    ensures var init, ks := ps[..|ps| - 1], DistinctKeys(words, Same);
            CountTotal(MatchCounts(ps, words), ks) - CountTotal(MatchCounts(init, words), ks)
            == |Kept(init, words)| + 1 - |Kept(ps, words)|
  {
    var init := ps[..|ps| - 1];
    var m := MatchCounts(init, words);
    var ks := DistinctKeys(words, Same);
    var r := FirstMatch(ps[|ps| - 1], words);
    if r.None? {
      assert Kept(ps, words) == Kept(init, words) + [ps[|ps| - 1]];
      assert MatchCounts(ps, words) == m;
    } else {
      var w := r.value;
      assert Kept(ps, words) == Kept(init, words) + [];
      assert MatchCounts(ps, words) == m[w := Get(m, w) + 1];
      DistinctWords(words, w);
      CountTotalBump(m, ks, w);
    }
  }

  /**
   * One counter per removed post: the counters of the distinct muted words
   * add up to the number of removed posts.
   */
  lemma {:induction false} CountersSumToFiltered(ps: seq<Post>, words: seq<string>)
    ensures CountTotal(MatchCounts(ps, words), DistinctKeys(words, Same)) == |ps| - |Kept(ps, words)|
  {
    if ps == [] {
      CountTotalEmpty(DistinctKeys(words, Same));
    } else {
      CountersSumToFiltered(ps[..|ps| - 1], words);
      CountersStep(ps, words);
    }
  }

  /** A sequence no muted word matches is kept whole, and counts nothing. */
  lemma {:induction false} KeptUnmuted(ps: seq<Post>, words: seq<string>)
    requires forall p :: p in ps ==> FirstMatch(p, words).None?
    ensures Kept(ps, words) == ps
    ensures MatchCounts(ps, words) == map[]
  {
    if ps != [] {
      var init, last := ps[..|ps| - 1], ps[|ps| - 1];
      assert ps == init + [last];
      assert forall p :: p in init ==> p in ps;
      KeptUnmuted(init, words);
      assert last in ps;
      assert FirstMatch(last, words).None?;
      assert Kept(ps, words) == Kept(init, words) + [last];
      assert MatchCounts(ps, words) == MatchCounts(init, words);
    }
  }

  /** Filtering the output again with the same words removes nothing. */
  lemma MutedPassIdempotent(ps: seq<Post>, enabled: bool, words: seq<string>)
    ensures MutedPass(MutedPass(ps, enabled, words), enabled, words) == MutedPass(ps, enabled, words)
  {
    if enabled && |words| > 0 {
      forall p | p in Kept(ps, words)
        ensures FirstMatch(p, words).None?
      {
        KeptMembers(ps, words, p);
        FirstMatchSpec(p, words);
      }
      KeptUnmuted(Kept(ps, words), words);
    }
  }

  function KindOf(m: Media): MediaKind { m.kind }

  predicate ImageMediaOnly(media: Option<seq<Media>>) {
    media.Some? ==> forall i :: 0 <= i < |media.value| ==> media.value[i].kind == Image
  }

  /** `media.filter(m => m.type === 'image')` applied to present media only. */
  function ImagesOnly(media: Option<seq<Media>>): (r: Option<seq<Media>>)
    ensures r.Some? == media.Some?
    ensures ImageMediaOnly(r)
  {
    match media
    case None => None
    case Some(m) =>
      HavingSpec(m, KindOf, Image);
      Some(Having(m, KindOf, Image))
  }

  function StripEmbedded(e: Option<Embedded>): Option<Embedded> {
    match e
    case None => None
    case Some(x) => Some(x.(media := ImagesOnly(x.media)))
  }

  function StripVideos(p: Post): Post {
    p.(media := ImagesOnly(p.media),
       quotedTweet := StripEmbedded(p.quotedTweet),
       retweetedTweet := StripEmbedded(p.retweetedTweet))
  }

  predicate EmbeddedImageOnly(e: Option<Embedded>) {
    e.Some? ==> ImageMediaOnly(e.value.media)
  }

  /**
   * `r` is `m` with every non-image item deleted: the image items stay, in
   * their order and as often as they occur, and nothing else does.
   */
  ghost predicate ImageItems(r: seq<Media>, m: seq<Media>) {
    && SubsequenceOf(r, m)
    && forall x :: multiset(r)[x] == if x.kind == Image then multiset(m)[x] else 0
  }

  /** A present media list becomes its image items; an absent one stays absent. */
  ghost predicate StrippedMedia(r: Option<seq<Media>>, m: Option<seq<Media>>) {
    && r.Some? == m.Some?
    && (m.Some? ==> ImageItems(r.value, m.value))
  }

  /** An embedded copy keeps every field but its media, which are stripped. */
  ghost predicate StrippedEmbedded(r: Option<Embedded>, e: Option<Embedded>) {
    && r.Some? == e.Some?
    && (e.Some? ==> r.value.(media := e.value.media) == e.value && StrippedMedia(r.value.media, e.value.media))
  }

  /** `filterVideos` (src/processors/filter.js:71-100). */
  function FilterVideos(tweets: seq<Post>, videosEnabled: bool): (r: seq<Post>)
    ensures |r| == |tweets|
    ensures videosEnabled ==> r == tweets
    ensures !videosEnabled ==> forall i :: 0 <= i < |r| ==>
      && ImageMediaOnly(r[i].media)
      && EmbeddedImageOnly(r[i].quotedTweet)
      && EmbeddedImageOnly(r[i].retweetedTweet)
      && r[i].(media := tweets[i].media, quotedTweet := tweets[i].quotedTweet,
               retweetedTweet := tweets[i].retweetedTweet) == tweets[i]
      && r[i].media.Some? == tweets[i].media.Some?
      && r[i].quotedTweet.Some? == tweets[i].quotedTweet.Some?
      && r[i].retweetedTweet.Some? == tweets[i].retweetedTweet.Some?
      && (r[i].quotedTweet.Some? ==>
            && r[i].quotedTweet.value.(media := tweets[i].quotedTweet.value.media) == tweets[i].quotedTweet.value
            && r[i].quotedTweet.value.media.Some? == tweets[i].quotedTweet.value.media.Some?)
      && (r[i].retweetedTweet.Some? ==>
            && r[i].retweetedTweet.value.(media := tweets[i].retweetedTweet.value.media) == tweets[i].retweetedTweet.value
            && r[i].retweetedTweet.value.media.Some? == tweets[i].retweetedTweet.value.media.Some?)
  {
    if videosEnabled then tweets
    else seq(|tweets|, i requires 0 <= i < |tweets| => StripVideos(tweets[i]))
  }

  /** `media.filter(m => m.type === 'image')` keeps exactly the image items, in order. */
  lemma ImagesOnlyExact(m: Option<seq<Media>>)
    ensures StrippedMedia(ImagesOnly(m), m)
  {
    if m.Some? {
      HavingSpec(m.value, KindOf, Image);
      var idx := HavingEmbedding(m.value, KindOf, Image);
    }
  }

  /**
   * Each media list of a post, its own and those of its quoted and retweeted
   * copies, becomes exactly its image items; everything else is kept.
   */
  lemma StripVideosMedia(p: Post)
    ensures StrippedMedia(StripVideos(p).media, p.media)
    ensures StrippedEmbedded(StripVideos(p).quotedTweet, p.quotedTweet)
    ensures StrippedEmbedded(StripVideos(p).retweetedTweet, p.retweetedTweet)
  {
    ImagesOnlyExact(p.media);
    if p.quotedTweet.Some? {
      ImagesOnlyExact(p.quotedTweet.value.media);
    }
    if p.retweetedTweet.Some? {
      ImagesOnlyExact(p.retweetedTweet.value.media);
    }
  }

  /** With videos off, every media list of every post becomes exactly its image items. */
  lemma FilterVideosStrips(tweets: seq<Post>, i: int)
    requires 0 <= i < |tweets|
    ensures var r := FilterVideos(tweets, false);
            && StrippedMedia(r[i].media, tweets[i].media)
            && StrippedEmbedded(r[i].quotedTweet, tweets[i].quotedTweet)
            && StrippedEmbedded(r[i].retweetedTweet, tweets[i].retweetedTweet)
  {
    StripVideosMedia(tweets[i]);
  }

  /** Applying the video pass twice is applying it once. */
  lemma FilterVideosIdempotent(tweets: seq<Post>, videosEnabled: bool)
    ensures FilterVideos(FilterVideos(tweets, videosEnabled), videosEnabled) == FilterVideos(tweets, videosEnabled)
  {
    if !videosEnabled {
      var once := FilterVideos(tweets, false);
      var twice := FilterVideos(once, false);
      forall i | 0 <= i < |tweets|
        ensures twice[i] == once[i]
      {
        var p := tweets[i];
        if p.media.Some? {
          HavingIdempotent(p.media.value, KindOf, Image);
        }
        if p.quotedTweet.Some? && p.quotedTweet.value.media.Some? {
          HavingIdempotent(p.quotedTweet.value.media.value, KindOf, Image);
        }
        if p.retweetedTweet.Some? && p.retweetedTweet.value.media.Some? {
          HavingIdempotent(p.retweetedTweet.value.media.value, KindOf, Image);
        }
      }
    }
  }

  datatype FilterStats = FilterStats(
    original: int,
    afterMutedWords: int,
    mutedWordStats: MutedStats,
    videosDisabled: bool)

  /** `applyFilters` (src/processors/filter.js:108-126): the muted-word pass, then the video pass. */
  method ApplyFilters(tweets: seq<Post>, mutedEnabled: bool, words: seq<string>, videosEnabled: bool)
    returns (result: seq<Post>, stats: FilterStats)
    ensures result == FilterVideos(MutedPass(tweets, mutedEnabled, words), videosEnabled)
    ensures stats.original == |tweets|
    ensures stats.afterMutedWords == |result|
    ensures stats.mutedWordStats.filtered + |result| == |tweets|
    ensures stats.mutedWordStats.total == |tweets|
    ensures stats.mutedWordStats.mutedWordMatches == if mutedEnabled && |words| > 0 then MatchCounts(tweets, words) else map[]
    ensures stats.videosDisabled == !videosEnabled
  {
    result := tweets;
    stats := FilterStats(|tweets|, 0, MutedStats(0, 0, map[]), !videosEnabled);
    var filtered, mutedStats := FilterTweets(result, mutedEnabled, words);
    result := filtered;
    stats := stats.(afterMutedWords := |result|, mutedWordStats := mutedStats);
    result := FilterVideos(result, videosEnabled);
  }

  /** The video pass leaves every text the muted words are matched against as it was. */
  lemma FilterVideosKeepsHaystack(tweets: seq<Post>, videosEnabled: bool, i: int)
    requires 0 <= i < |tweets|
    ensures Haystack(FilterVideos(tweets, videosEnabled)[i]) == Haystack(tweets[i])
  {
  }

  /** Running both passes again on their own output removes nothing and changes nothing. */
  lemma ApplyFiltersIdempotent(tweets: seq<Post>, mutedEnabled: bool, words: seq<string>, videosEnabled: bool)
    ensures var once := FilterVideos(MutedPass(tweets, mutedEnabled, words), videosEnabled);
            FilterVideos(MutedPass(once, mutedEnabled, words), videosEnabled) == once
  {
    var muted := MutedPass(tweets, mutedEnabled, words);
    var once := FilterVideos(muted, videosEnabled);
    if mutedEnabled && |words| > 0 {
      forall p | p in once
        ensures FirstMatch(p, words).None?
      {
        var i :| 0 <= i < |once| && once[i] == p;
        FilterVideosKeepsHaystack(muted, videosEnabled, i);
        KeptMembers(tweets, words, muted[i]);
        FirstMatchSpec(muted[i], words);
        FirstMatchSpec(p, words);
        assert forall w :: WordMutes(p, w) == WordMutes(muted[i], w);
      }
      KeptUnmuted(once, words);
    }
    FilterVideosIdempotent(muted, videosEnabled);
  }
}
