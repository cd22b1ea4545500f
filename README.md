# Twitter digest core, modelled in Dafny

The digest fetches a day of posts from followed accounts and filters them. It
folds each author's self-reply chains into threads and renders one static HTML
page with three views: by time, by author and threads only. This project models
the logic between fetching and sending:

- `filter.dfy` (`ContentFilter`) models the muted-word filter of
  `src/processors/filter.js`, which counts matches per word. It also models the
  video stripper and their composition, `applyFilters`.
- `text_match.dfy` (`TextMatch`) models the case-insensitive
  `\b<escaped word>` test the filter builds. `escapeRegex` is proved to be read
  back exactly by a literal reader.
- `thread.dfy` (`ThreadDetector`) models `processThreads`. The imperative
  detector (`ProcessThreads`) is proved equal to a functional specification
  (`ProcessSpec`). That specification is then shown to partition the input, to
  build well-formed threads and to place every post according to its own
  conversation/author bucket.
- `thread_views.dfy` (`ThreadViews`) models `flattenForDisplay` (time order),
  `groupByAuthor` (Map-insertion-order buckets, then stable sorts) and
  `getThreadsOnly`, which sorts the caller's array in place.
- `html_text.dfy` (`HtmlText`) models `escapeHtml`, `formatDuration` and the
  media grid class of `src/generators/html.js`.
- `html_views.dfy` (`HtmlViews`) models the three views of the HTML generator.
  Their orderings are proved, and the module-level `mediaIdCounter` becomes a
  field of the class `HtmlGenerator`. Each renderer threads the counter and
  logs the gallery ids it hands out in a ghost `issued` list. `GenerateHtml`
  proves that one page numbers its galleries 1, 2, 3, … and never repeats a
  gallery id.
- `seqs.dfy` (`Seqs`) holds the shared sequence vocabulary:
  - first-appearance key order, as in a JavaScript `Map`;
  - keyed buckets;
  - a stable sort on an integer key (a descending sort is the ascending sort on
    the negated key);
  - sums and subsequence embeddings.
- `posts.dfy` (`Posts`) holds the post, thread and statistics records. A field
  the code reads only for truthiness is an `Option`, so `undefined` and `null`
  coincide there. The author id and the reply user id are compared with `===`
  and used as `Map` keys, so they are a `JsId` that tells `undefined`, `null`
  and a string apart.

## Model

| member | source | states |
|---|---|---|
| TextMatch.EscapeRegex | src/processors/filter.js:132-134 | escaping never shortens a word, and a word without metacharacters is left as it is |
| TextMatch.BoundaryMatchSpec | src/processors/filter.js:46-48 | the scanning matcher holds exactly when some position starts a case-insensitive copy of the word and sits at a word boundary (`\b`) |
| TextMatch.MatchesFromSpec | src/processors/filter.js:46-48 | scanning from position k finds a match iff a boundary match starts at some position at or after k |
| TextMatch.EscapeRegexReadsBack | src/processors/filter.js:132-134 | reading the escaped pattern as a regex literal gives back exactly the word, so every metacharacter is matched literally |
| TextMatch.LiteralIsEscaped | src/processors/filter.js:132-134 | any pattern that reads as the literal w is exactly escapeRegex(w): the escaping is the unique inverse of the reader |
| TextMatch.MutedPatternIsLiteral | src/processors/filter.js:46-48 | testing the built pattern `\b` + escapeRegex(word) against a text holds exactly when the word occurs there at a boundary, ignoring case |
| TextMatch.MatchSurvivesContinuation | src/processors/filter.js:40-48 | the test looks for a prefix: text appended after a matching haystack never removes the match (so "democrat" mutes "Democrats") |
| TextMatch.NonWordStartNeedsWordBefore | src/processors/filter.js:46 | a muted word starting with a non-word character matches only right after a word character, a consequence of the leading `\b` |
| TextMatch.Lower | src/processors/filter.js:31-37 | lower-casing keeps the length and the word/non-word class of every character and leaves no upper-case ASCII letter |
| TextMatch.MatchesPluralExample | src/processors/filter.js:44-45 | "democrat" mutes "I love Democrats" |
| TextMatch.MatchesBeforePunctuationExample | src/processors/filter.js:46 | "democrat" mutes "Democrat!" |
| TextMatch.NoMatchInsideWordExample | src/processors/filter.js:46 | "democrat" does not mute "administrator": a match must start at a word boundary |
| ContentFilter.Haystack | src/processors/filter.js:31-40 | the combined text begins with the post's own lower-cased text and a space, so the embedded texts never run into it |
| ContentFilter.FirstMatch | src/processors/filter.js:43-54 | the muted word reported for a post is one of the configured words |
| ContentFilter.FirstMatchSpec | src/processors/filter.js:43-54 | no word is reported iff no configured word mutes the post; a reported word mutes it and no earlier word does |
| ContentFilter.TweetPasses | src/processors/filter.js:29-57 | a post is kept iff no muted word matches; a dropped post adds one to the count of its first matching word and to `filtered`, and a kept one changes nothing |
| ContentFilter.FilterTweets | src/processors/filter.js:14-60 | the kept list is the muted-word pass. `total` is the input length and kept + filtered = total. When disabled or with no words, everything is kept with zero counts. Otherwise the per-word counts are those of the first-matching words |
| ContentFilter.KeptMembers | src/processors/filter.js:29-57 | a post survives iff it was in the input and no muted word matches it |
| ContentFilter.KeptEmbedding | src/processors/filter.js:29 | the surviving posts embed into the input by increasing indices |
| ContentFilter.KeptIsSubsequence | src/processors/filter.js:29 | the surviving posts are a subsequence of the input: order is kept |
| ContentFilter.MatchCountsKeys | src/processors/filter.js:50 | every key of the per-word counters is a configured muted word |
| ContentFilter.CountersSumToFiltered | src/processors/filter.js:50-51 | the per-word counters, summed over the distinct muted words, equal the number of dropped posts |
| ContentFilter.KeptUnmuted | src/processors/filter.js:29-57 | a list none of whose posts is muted passes unchanged with no counters |
| ContentFilter.MutedPassIdempotent | src/processors/filter.js:14-60 | filtering an already filtered list changes nothing |
| ContentFilter.ImagesOnly | src/processors/filter.js:79-81 | stripping keeps a media list present iff it was present, and what remains is images only |
| ContentFilter.ImagesOnlyExact | src/processors/filter.js:79-81 | a stripped media list is exactly the image items of the original: a subsequence of it holding each image item as often as the original does |
| ContentFilter.StripVideosMedia | src/processors/filter.js:76-97 | the own, quoted and retweeted media lists each stay present iff they were, and become exactly their image items, in order and with multiplicity. The quoted and retweeted copies stay present iff they were and keep every field but `media` |
| ContentFilter.FilterVideos | src/processors/filter.js:67-101 | the list keeps its length. With videos enabled it is returned unchanged. Otherwise each post keeps every field but `media`, and its own media list keeps its presence and holds images only. Each quoted or retweeted copy keeps its presence, every field but `media` and the presence of its media, which hold images only |
| ContentFilter.FilterVideosStrips | src/processors/filter.js:76-97 | with videos off, each post's own, quoted and retweeted media lists become exactly their image items, in order and with multiplicity, and the embedded copies keep every other field |
| ContentFilter.FilterVideosIdempotent | src/processors/filter.js:67-101 | stripping videos twice is the same as stripping once |
| ContentFilter.FilterVideosKeepsHaystack | src/processors/filter.js:31-40 | stripping videos never changes the text the muted-word test looks at |
| ContentFilter.ApplyFilters | src/processors/filter.js:108-127 | the result is the video stripper applied to the muted-word pass. `original` is the input length, `afterMutedWords` the result length and `filtered` plus the result length is the input length. `videosDisabled` mirrors the setting. `mutedWordStats` is the muted-word pass's record: its total is the input length, and its per-word counters are those of the first matching words, or empty when the filter is off or has no words |
| ContentFilter.ApplyFiltersIdempotent | src/processors/filter.js:108-127 | applying both filters to their own output changes nothing |
| Seqs.GroupBy | src/processors/thread.js:13-21 | the grouping loop yields the keys in first-appearance order and one bucket per key, holding exactly the elements with that key in input order |
| Seqs.SortBy | src/processors/thread.js:121-122 | the sorted list is ordered by the key and is a permutation of the input |
| Seqs.SortByStable | src/processors/thread.js:121-122 | elements with equal keys keep their input order, as ECMAScript requires of `sort` |
| ThreadDetector.ThenAssociative | src/processors/thread.js:24-71 | appending emitted threads and standalone posts is associative, so the per-bucket results compose in any grouping |
| ThreadDetector.EmitGroup | src/processors/thread.js:41-68 | handling one author bucket appends exactly that bucket's outcome: one thread when it has two or more posts and some self-reply, otherwise its posts as standalone |
| ThreadDetector.EmitConversation | src/processors/thread.js:27-70 | handling one conversation appends the outcomes of its author buckets in first-appearance order |
| ThreadDetector.ProcessThreads | src/processors/thread.js:11-89 | the detector's loops compute exactly the functional specification: conversation buckets, then author buckets, in Map insertion order, then standalone marking and stats |
| ThreadDetector.ThreadTweetsConcat | src/processors/thread.js:52-60 | the posts of a concatenation of thread lists are the concatenated posts |
| ThreadDetector.MembersThen | src/processors/thread.js:24-71 | the posts of two appended outcomes are the union of both |
| ThreadDetector.GroupMembers | src/processors/thread.js:41-68 | one author bucket's outcome holds exactly that bucket's posts |
| ThreadDetector.ConvMembers | src/processors/thread.js:29-70 | a conversation's outcome holds exactly the posts of its author buckets |
| ThreadDetector.AllMembers | src/processors/thread.js:27-70 | all conversations' outcomes hold exactly the posts of all conversation buckets |
| ThreadDetector.CountsAreSizes | src/processors/thread.js:85 | when every thread's count is its size, the summed counts equal the number of posts in threads |
| ThreadDetector.ProcessPartition | src/processors/thread.js:11-89 | posts in threads plus standalone posts are exactly the input (as a multiset); standalone posts are the unmarked ones re-marked with count 1; the stats add up (total = in threads + standalone) |
| ThreadDetector.GroupWellFormed | src/processors/thread.js:44-60 | a thread built from one bucket is well formed |
| ThreadDetector.ConvWellFormed | src/processors/thread.js:29-70 | every thread a conversation yields is well formed |
| ThreadDetector.AllWellFormed | src/processors/thread.js:27-70 | every thread the detector yields is well formed |
| ThreadDetector.ThreadsWellFormed | src/processors/thread.js:44-60 | every thread has at least two posts, all from its conversation and author, sorted oldest first; its count, start and end time match them, and it is marked `isThread` |
| ThreadDetector.SortedSelfReply | src/processors/thread.js:44-49 | sorting a bucket before testing for a self-reply does not change the verdict |
| ThreadDetector.GroupFate | src/processors/thread.js:41-68 | within one bucket, a post ends standalone iff the bucket does not form a thread, and ends in a thread iff it does |
| ThreadDetector.ConvFate | src/processors/thread.js:29-70 | within one conversation, a post's fate is decided by its own author's bucket |
| ThreadDetector.AllFate | src/processors/thread.js:27-70 | over all conversations, a post's fate is decided by its own conversation/author bucket |
| ThreadDetector.ProcessFate | src/processors/thread.js:11-89 | an input post ends in a thread iff its conversation/author peers form a thread (two or more, with a self-reply); otherwise it ends standalone |
| ThreadDetector.ThreadIsBucket | src/processors/thread.js:41-60 | each thread holds the whole bucket of its first post (every post of that conversation by that author id), oldest first, and its count is the bucket's size |
| ThreadDetector.ThreadsDistinct | src/processors/thread.js:27-60 | no two threads share both conversation and author id, so no bucket is split over two threads |
| ThreadDetector.BucketIsOneThread | src/processors/thread.js:41-60 | the bucket of a post that forms a thread becomes exactly one thread: some thread holds the post and is the whole sorted bucket, and no other thread holds the post |
| ThreadDetector.ConversationListed | src/processors/thread.js:15-21 | every input post's conversation is one of the conversation keys |
| ThreadDetector.UniqueConversationStandalone | src/processors/thread.js:64-67 | a post alone in its conversation is always standalone, never in a thread |
| ThreadDetector.BothInBucket | src/processors/thread.js:31-37 | two posts with the same conversation and author land in the same bucket |
| ThreadDetector.AnonymousPostsFormThread | src/processors/thread.js:46-49 | two posts with an `undefined` author id in one conversation, one of them with an `undefined` reply user id, form a thread: `undefined === undefined` |
| ThreadDetector.AnonymousNullRepliesStandalone | src/processors/thread.js:46-48 | a post with an `undefined` author id stays standalone when every reply user id of the input is `null` and no post has a reply tweet id: `null !== undefined` |
| ThreadViews.FlattenForDisplay | src/processors/thread.js:95-133 | the flattened list has one item per thread and per standalone post (same multiset). With 'time' it runs newest first; with an unknown order it is the threads followed by the posts |
| ThreadViews.DisplayItemsListAll | src/processors/thread.js:99-119 | every thread and standalone post has its item in the combined list |
| ThreadViews.FlattenListsAll | src/processors/thread.js:95-133 | every thread and every standalone post appears in the flattened list |
| ThreadViews.AddEntry | src/processors/thread.js:143-170 | adding one item extends the key order when its author is new and updates that author's group so it collects exactly that author's items so far, in order, with their summed weights |
| ThreadViews.GroupGrows | src/processors/thread.js:152-154 | pushing an item onto its author's group yields the group of the extended prefix |
| ThreadViews.AddThreads | src/processors/thread.js:143-155 | after the thread loop, the map holds one group per author, in first-appearance order, collecting that author's threads in order with summed tweet counts |
| ThreadViews.AddTweets | src/processors/thread.js:158-170 | after the post loop, the groups also collect each author's standalone posts, each weighing 1 |
| ThreadViews.CollectAuthorGroups | src/processors/thread.js:140-170 | the author map tracks all threads then all posts: keys in first-appearance order, one group per key holding exactly its items |
| ThreadViews.SortEachGroup | src/processors/thread.js:173-179 | every group is replaced by its time-sorted version and no key is added or lost |
| ThreadViews.ValuesInOrder | src/processors/thread.js:182 | `Array.from(authorMap.values())` lists the groups in key-insertion order |
| ThreadViews.TimedInOrder | src/processors/thread.js:173-182 | reading the sorted groups in key order is the time-sorted insertion-order list |
| ThreadViews.GroupByAuthor | src/processors/thread.js:138-186 | the loops compute the functional specification: insertion-order groups, items newest first, groups by total descending (stable) |
| ThreadViews.InsertionGroupAt | src/processors/thread.js:143-170 | the group at position i is built from the bucket of the i-th key |
| ThreadViews.InsertionGroupsCollect | src/processors/thread.js:143-170 | each insertion-order group collects exactly its author's entries and has its key; its author record is that of the author's first entry |
| ThreadViews.TimedCollects | src/processors/thread.js:173-179 | sorting a group's items by time keeps what it collects and orders it newest first |
| ThreadViews.TimedGroupAt | src/processors/thread.js:173-179 | each time-sorted group collects its key's items, newest first |
| ThreadViews.TimedGroupsCollect | src/processors/thread.js:173-179 | every time-sorted group collects its key's items, newest first |
| ThreadViews.EntriesListAll | src/processors/thread.js:143-170 | every thread and every standalone post is among the entries grouped |
| ThreadViews.EveryKeyListed | src/processors/thread.js:145-146 | every entry's author id is one of the map's keys |
| ThreadViews.KeyedGroupsCover | src/processors/thread.js:140-170 | one group per key, each collecting its key, covers every entry |
| ThreadViews.CoversPermutation | src/processors/thread.js:182-183 | reordering the groups keeps every entry covered |
| ThreadViews.SortedGroupsCollect | src/processors/thread.js:182-183 | after sorting the groups by total, each still collects its entries newest first |
| ThreadViews.GroupByAuthorSound | src/processors/thread.js:138-186 | groups are ordered by total descending and have distinct author ids. Each collects exactly one author's items (with the total as the sum of thread counts plus one per post) newest first, and carries the author record of that author's first-seen item. Every item is in some group |
| ThreadViews.GetThreadsOnly | src/processors/thread.js:191-194 | sorts the caller's thread array in place (stable, by start time descending) and returns that same array |
| ThreadViews.ThreadsOnlyOrder | src/processors/thread.js:191-194 | the array afterwards holds the same threads, newest start first |
| HtmlText.Decimal | src/generators/html.js:1014 | a number's decimal text is non-empty and all digits |
| HtmlText.DecimalCanonical | src/generators/html.js:1014 | the decimal text has no leading zero: it starts with `0` only for zero, which is written `0` |
| HtmlText.DecimalReadsBack | src/generators/html.js:1014 | the decimal text reads back as the number |
| HtmlText.DecimalInjective | src/generators/html.js:1014 | distinct numbers have distinct decimal text |
| HtmlText.PadStart2 | src/generators/html.js:1014 | `padStart(2, '0')` makes a shorter text two characters long and leaves a longer one unchanged |
| HtmlText.FormatDuration | src/generators/html.js:1009-1015 | the text is empty exactly for a missing or zero duration |
| HtmlText.PaddedSeconds | src/generators/html.js:1012-1014 | seconds below 60 print as exactly two digits that read back as the seconds |
| HtmlText.FormatDurationReadsBack | src/generators/html.js:1009-1015 | for a positive duration, "M:SS" parses back to the whole seconds (minutes × 60 + seconds), and the minutes carry no leading zero |
| HtmlText.ReplaceAllConcat | src/generators/html.js:1051-1055 | a global replace distributes over concatenation |
| HtmlText.ReplaceAllAbsent | src/generators/html.js:1051-1055 | replacing a character that does not occur changes nothing |
| HtmlText.ReplaceChainConcat | src/generators/html.js:1051-1055 | the five-replace chain distributes over concatenation |
| HtmlText.ReplaceChainOne | src/generators/html.js:1051-1055 | the chain turns one character into its entity: `&` first, so entities made later are never escaped again |
| HtmlText.EscapeHtml | src/generators/html.js:1049-1057 | a missing text escapes to nothing; any other text has each character replaced by its entity, independently of the others |
| HtmlText.ReplaceChainCharwise | src/generators/html.js:1051-1055 | the sequential replace chain equals escaping character by character |
| HtmlText.EscapeEachHasNoMarkup | src/generators/html.js:1049-1056 | charwise escaping leaves no `<`, `>`, `"` or `'` |
| HtmlText.EscapeHtmlHasNoMarkup | src/generators/html.js:1049-1056 | escaped text contains no `<`, `>`, `"` or `'`, and it is empty exactly when the text is missing or empty |
| HtmlText.UnescapeEntity | src/generators/html.js:1051-1055 | each character's entity is read back as that character |
| HtmlText.UnescapeEscapeEach | src/generators/html.js:1049-1056 | unescaping charwise-escaped text gives back the text |
| HtmlText.EscapeHtmlReadsBack | src/generators/html.js:1049-1056 | unescaping the escaped text gives back the original text |
| HtmlText.EscapeHtmlInjective | src/generators/html.js:1049-1056 | distinct texts escape to distinct HTML |
| HtmlText.GridClass | src/generators/html.js:904-909 | the class is one of `single`, `double`, `triple`, `quad`, or none |
| HtmlText.GridClassCells | src/generators/html.js:904-909 | the grid class shows as many cells as there are media items, capped at four, and no grid is drawn for missing or empty media |
| HtmlViews.QuotedDiffersFromPlain | src/generators/html.js:794 | a `gallery-qt-` id never equals a `gallery-` id |
| HtmlViews.GalleryNameInjective | src/generators/html.js:713-877 | two galleries with the same id are the same gallery (kind and number) |
| HtmlViews.NumberedNamesDistinct | src/generators/html.js:713 | galleries numbered 1, 2, 3, … in issue order have pairwise distinct ids |
| HtmlViews.TimeViewSound | src/generators/html.js:590-613 | the time view lists every thread (at its start time) and every standalone post exactly once, newest first |
| HtmlViews.AuthorGroupAt | src/generators/html.js:622-640 | the j-th map group holds its author's items in push order, non-empty, with the summed count and the first item's author record |
| HtmlViews.AuthorGroupsInOrder | src/generators/html.js:622-643 | every map group holds its author's items in push order with the summed count and the first item's author record |
| HtmlViews.SortedInInsertionOrder | src/generators/html.js:644 | sorting the groups by count keeps each group's contents |
| HtmlViews.AuthorViewSound | src/generators/html.js:618-664 | sections are ordered by count descending and have distinct author ids. Each holds its author's items in push order (unlike `groupByAuthor`, not re-sorted by time) with the summed count. Its header shows the author record of that author's first item (whose name and handle are printed). Every item is shown |
| HtmlViews.ThreadsViewSound | src/generators/html.js:669-683 | the threads view sorts a copy: it holds the same threads, newest start first |
| HtmlViews.EntriesDrawable | src/generators/html.js:824-827 | every item of the digest can be rendered when every thread has a first post |
| HtmlViews.AuthorItemsDrawable | src/generators/html.js:661 | every item of every author section can be rendered |
| HtmlViews.ThreadsArray | src/generators/html.js:669 | `processedData.threads`, the array the threads view receives, is a fresh array holding the digest's threads |
| HtmlViews.HtmlGenerator.constructor | src/generators/html.js:11 | the counter starts at 0 with nothing issued |
| HtmlViews.HtmlGenerator.NextGallery | src/generators/html.js:713 | `++mediaIdCounter` hands out the next number, one above the previous counter, and logs it |
| HtmlViews.HtmlGenerator.RenderTweet | src/generators/html.js:688-745 | a retweet takes one id (for the retweeted content); otherwise a quote first takes a `gallery-qt-` id for the quoted post, then the post takes its own id |
| HtmlViews.HtmlGenerator.RenderThread | src/generators/html.js:818-899 | a thread takes one id per post, first post first, and is rendered expanded as asked |
| HtmlViews.HtmlGenerator.RenderEntry | src/generators/html.js:607-611 | an item is drawn as a thread or a post card; only threads can be expanded |
| HtmlViews.HtmlGenerator.RenderCards | src/generators/html.js:606-612 | cards follow the items in order, and the ids issued are the cards' ids in order |
| HtmlViews.HtmlGenerator.RenderTimeView | src/generators/html.js:590-613 | cards follow the time order (threads collapsed), and the ids are issued in card order |
| HtmlViews.HtmlGenerator.AuthorBlocks | src/generators/html.js:622-644 | the loops and the sort compute the author-view order |
| HtmlViews.HtmlGenerator.RenderSection | src/generators/html.js:646-662 | a section shows its group's author, its total as the count, and one card per item in order, every thread collapsed (`expanded` defaults to false) |
| HtmlViews.HtmlGenerator.RenderSections | src/generators/html.js:646-664 | one section per group, in order, every card collapsed, issuing ids section by section |
| HtmlViews.HtmlGenerator.RenderAuthorView | src/generators/html.js:618-664 | one section per author in the author-view order, every card collapsed, issuing ids in page order |
| HtmlViews.HtmlGenerator.RenderThreadsView | src/generators/html.js:669-683 | the empty state shows iff there are no threads. Otherwise the expanded threads appear newest start first, and the caller's thread array is left unchanged |
| HtmlViews.HtmlGenerator.RenderViews | src/generators/html.js:343-345 | the page shows the three views of the digest, rendered time, author, threads, and issues their ids in that order. Threads are collapsed in the time and author views and expanded in the threads view |
| HtmlViews.HtmlGenerator.GenerateHtml | src/generators/html.js:16-345 | after resetting the counter, the page's galleries are numbered 1, 2, 3, … in page order and their ids are pairwise distinct |

## Left out

- The `'author'` branch of `flattenForDisplay` (src/processors/thread.js:123-130) is not modelled. It compares display names with `localeCompare`, whose collation order is locale data outside the program.
- Case folding (`toLowerCase`, the regex `i` flag) and the `\b` word class cover ASCII only.
- Fields read only for truthiness treat `null` and `undefined` alike as `None`. `inReplyToTweetId` counts as set exactly when it is `Some` of a non-empty string, as JavaScript truthiness does.
- Ids are strings. A numeric `in_reply_to_user_id` that the adapter passes through when the `_str` field is missing, and which `===` never equates with a string author id, is not modelled.
- The regular expression engine appears only as the `\b` + escaped literal pattern that `filterTweets` builds. No general regex semantics are modelled.
- Rendered markup is abstracted to card, section and page values carrying the item shown, the expansion flag and the gallery ids. Template text, `formatTweetText`, `toLocale*` calls, `JSON.stringify`, `encodeURIComponent` and the client-side script are not part of this model.
- The page header figures (unique authors, dates), `renderMedia`'s item markup and `renderMediaPreview` beyond its grid class are not modelled. Neither are the API adapter, `index.js`, the e-mail sender and the configuration loader.
- The `filtering` configuration block is absent from config/config.js. Its `enabled`, `words` and video settings are parameters of the filter operations.
- `FormatDuration` takes a natural number of milliseconds: negative or fractional durations are not modelled.
- `FilterTweets` keeps its per-word counters in a Dafny map keyed by the word. JavaScript object-key quirks (such as a word named `__proto__`) are not modelled.
- `Array.prototype.sort` is modelled as a stable sort (which ECMAScript requires) by an integer key. Time and counts are integers.
- JavaScript numbers are IEEE doubles, but timestamps, durations, counts and the gallery counter are unbounded integers here. Integers above 2^53 would lose precision in the source, and `String`/template interpolation switches to exponent notation from 1e21 on. `FormatDuration`, `Decimal` and `HtmlViews.HtmlGenerator.NextGallery` do not model either effect.
- `GroupByAuthor` and the author view build groups as values held in a map. The source pushes into shared group objects; that aliasing is not modelled.
- `HtmlViews.HtmlGenerator.RenderThread` requires a thread with at least one post. The source would fail on `thread.tweets[0].media` otherwise, and the detector never builds such a thread.
- `HtmlText.GridClass` returns "" when `renderMedia` draws no grid at all.
- `HtmlViews.ThreadsArray` stands for `processedData.threads`, the array the threads view receives. The source's `[...threads]` copy is the sorted sequence `SortBy(threads[..], …)` inside `RenderThreadsView`, so that array is never written.
