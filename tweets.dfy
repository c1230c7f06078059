/**
 * Tweet records and the queries both tweet files share. `get_id`,
 * `get_tweet` and the filter inside `delete_tweet` are textually the same in
 * db_tweet_utils.py and data_base/db_tweet_utils.py, so they are modelled once.
 */
module Tweets {
  import opened Common

  /** `post_tweet` raises TweetTooLong above this many characters. */
  const MaxTweetLength := 140

  /** `add_reply` raises TweetTooLong above this many characters. */
  const MaxReplyLength := 280

  datatype Reply = Reply(replyId: string, username: string, date: string, content: string)

  /**
   * A tweet record. `likes` and `replies` are absent until `like_tweet` or
   * `add_reply` first writes them; the standalone store never writes them.
   * `date` is the opaque ISO timestamp `datetime.now()` produced.
   */
  datatype Tweet = Tweet(
    id: string,
    username: string,
    date: string,
    content: string,
    likes: Option<seq<string>>,
    replies: Option<seq<Reply>>)

  /** The exceptions of the tweet stores (UserNotFound only in data_base/). */
  datatype TweetError = TweetTooLong | TweetNotFound | UserNotFound

  /** `get_id`: the id under which `get_tweet` finds the tweet again. */
  function GetId(t: Tweet): (r: string)
    ensures GetTweet([t], r) == Ok(t)
  {
    t.id
  }

  /** The record `post_tweet` builds: no likes or replies yet. */
  function NewTweet(id: string, username: string, date: string, content: string): Tweet
  {
    Tweet(id, username, date, content, None, None)
  }

  function HasId(id: string): Tweet -> bool
  {
    (t: Tweet) => t.id == id
  }

  function HasOtherId(id: string): Tweet -> bool
  {
    (t: Tweet) => t.id != id
  }

  /** Ids are unique: each `post_tweet` draws a fresh uuid4. */
  predicate UniqueIds(tweets: seq<Tweet>)
  {
    UniqueKeys(tweets, GetId)
  }

  /** `get_tweet`: the first tweet carrying the id, or TweetNotFound. */
  function GetTweet(tweets: seq<Tweet>, id: string): (r: Result<Tweet, TweetError>)
    ensures r.Ok? <==> exists i :: 0 <= i < |tweets| && tweets[i].id == id
    ensures r.Ok? ==> exists i :: 0 <= i < |tweets| && tweets[i] == r.value && r.value.id == id &&
                                  forall j :: 0 <= j < i ==> tweets[j].id != id
    ensures r.Err? ==> r.error == TweetNotFound
  {
    match FirstIndex(tweets, HasId(id))
    case None => Err(TweetNotFound)
    case Some(i) => Ok(tweets[i])
  }

  /** The comprehension in `delete_tweet`: every tweet with another id, in order. */
  function WithoutTweet(tweets: seq<Tweet>, id: string): (r: seq<Tweet>)
    ensures forall i :: 0 <= i < |r| ==> r[i] in tweets && r[i].id != id
    ensures forall i :: 0 <= i < |tweets| && tweets[i].id != id ==> tweets[i] in r
    ensures |r| == |tweets| <==> GetTweet(tweets, id).Err?
    ensures |r| == |tweets| ==> r == tweets
  {
    Filter(tweets, HasOtherId(id))
  }

  /** Deleting keeps order: the filter distributes over any split of the collection. */
  lemma WithoutTweetAppend(a: seq<Tweet>, b: seq<Tweet>, id: string)
    ensures WithoutTweet(a + b, id) == WithoutTweet(a, id) + WithoutTweet(b, id)
  {
    FilterAppend(a, b, HasOtherId(id));
  }

  /** Deleting keeps ids unique. */
  lemma WithoutTweetKeepsUnique(tweets: seq<Tweet>, id: string)
    requires UniqueIds(tweets)
    ensures UniqueIds(WithoutTweet(tweets, id))
  {
    FilterKeepsUniqueKeys(tweets, HasOtherId(id), GetId);
  }

  /** After a delete, `get_tweet` on that id raises TweetNotFound. */
  lemma GetAfterDelete(tweets: seq<Tweet>, id: string)
    ensures GetTweet(WithoutTweet(tweets, id), id) == Err(TweetNotFound)
  {
  }

  /** Appending a tweet with a fresh id: `get_tweet` on that id yields it. */
  lemma {:induction false} GetAfterAppend(tweets: seq<Tweet>, t: Tweet)
    requires forall i :: 0 <= i < |tweets| ==> tweets[i].id != t.id
    ensures GetTweet(tweets + [t], t.id) == Ok(t)
  {
    var s := tweets + [t];
    assert s[|tweets|] == t;
    assert forall j :: 0 <= j < |tweets| ==> s[j] == tweets[j];
    var i :| 0 <= i < |s| && s[i] == GetTweet(s, t.id).value && s[i].id == t.id &&
             forall j :: 0 <= j < i ==> s[j].id != t.id;
    assert i == |tweets|;
  }

  /** Appending a tweet with a fresh id keeps ids unique. */
  lemma AppendKeepsUnique(tweets: seq<Tweet>, t: Tweet)
    requires UniqueIds(tweets)
    requires forall i :: 0 <= i < |tweets| ==> tweets[i].id != t.id
    ensures UniqueIds(tweets + [t])
  {
  }

  /** With unique ids, the id of a stored tweet (`get_id`) finds exactly that tweet. */
  lemma GetTweetOfId(tweets: seq<Tweet>, k: nat)
    requires UniqueIds(tweets)
    requires k < |tweets|
    ensures GetTweet(tweets, GetId(tweets[k])) == Ok(tweets[k])
  {
  }
}
