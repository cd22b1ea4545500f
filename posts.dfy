/**
 * The records the digest core works on: normalised posts as the fetch
 * adapter produces them, the threads the thread detector builds, and the
 * processed digest that the three page views consume.
 *
 * JavaScript values that may be `undefined` or `null` are `Option`s where
 * only their truthiness is read. The author id and the reply target, which
 * the thread detector compares with `===` and uses as `Map` keys, tell the
 * two apart.
 */
module Posts {

  datatype Option<+T> = None | Some(value: T)

  /** An id field as `a || b` leaves it: `undefined`, `null`, or a string. */
  datatype JsId = Undefined | Null | Str(value: string)

  datatype Author = Author(
    id: JsId,                    // grouping key of threads and of the by-author views
    username: string,
    displayName: Option<string>,
    verified: bool)

  datatype MediaKind = Image | Video | Gif

  datatype Media = Media(kind: MediaKind, url: string, durationMs: Option<nat>)

  /** A quoted or retweeted copy embedded in a post; never a thread member. */
  datatype Embedded = Embedded(id: string, text: string, author: Author, media: Option<seq<Media>>)

  datatype Post = Post(
    id: string,
    text: string,
    timestamp: int,               // milliseconds since the epoch
    author: Author,
    conversationId: string,
    inReplyToUserId: JsId,
    inReplyToTweetId: Option<string>,
    isRetweet: bool,
    retweetedTweet: Option<Embedded>,
    isQuote: bool,
    quotedTweet: Option<Embedded>,
    media: Option<seq<Media>>,
    isThread: Option<bool>,       // set to false on standalone output, absent on input
    tweetCount: Option<int>)      // set to 1 on standalone output, absent on input

  datatype Thread = Thread(
    id: string,                   // the conversation id
    author: Author,
    tweets: seq<Post>,            // oldest first
    tweetCount: int,
    startTime: int,
    endTime: int,
    isThread: bool)               // always true on a thread

  datatype Stats = Stats(totalTweets: int, threadCount: int, tweetsInThreads: int, standaloneTweetCount: int)

  datatype Processed = Processed(threads: seq<Thread>, standaloneTweets: seq<Post>, stats: Stats)

  /** A JavaScript truthiness test of an optional id string. */
  predicate Truthy(s: Option<string>) {
    s.Some? && s.value != ""
  }
}
