/**
 * The earlier tweet store of db_tweet_utils.py: one collection of tweets,
 * with no bookkeeping on user records. `uuid.uuid4()` and `datetime.now()`
 * are the `newId` and `date` arguments.
 */
module StandaloneTweetStore {
  import opened Common
  import opened Tweets

  /** The tweets file; `tweets` is what `_load_tweets` reads and `_save_tweets` writes. */
  class TweetFile {
    var tweets: seq<Tweet>

    ghost predicate Valid()
      reads this
    {
      UniqueIds(tweets)
    }

    /** A missing, empty or corrupt file reads as an empty collection. */
    constructor ()
      ensures Valid() && tweets == []
    {
      tweets := [];
    }

    /**
     * `post_tweet`: TweetTooLong exactly above 140 characters, with the file
     * unchanged; otherwise one new tweet at the end, returned, and found by
     * `get_tweet` under its id.
     */
    method PostTweet(username: string, description: string, newId: string, date: string)
      returns (r: Result<Tweet, TweetError>)
      requires Valid()
      requires forall i :: 0 <= i < |tweets| ==> tweets[i].id != newId
      modifies this
      ensures Valid()
      ensures r.Err? <==> |description| > MaxTweetLength
      ensures r.Err? ==> r.error == TweetTooLong && tweets == old(tweets)
      ensures r.Ok? ==> r.value == NewTweet(newId, username, date, description)
      ensures r.Ok? ==> tweets == old(tweets) + [r.value]
      ensures r.Ok? ==> GetTweet(tweets, GetId(r.value)) == Ok(r.value)
    {
      if |description| > MaxTweetLength {
        return Err(TweetTooLong);
      }
      var tweet := NewTweet(newId, username, date, description);
      AppendKeepsUnique(tweets, tweet);
      GetAfterAppend(tweets, tweet);
      tweets := tweets + [tweet];
      r := Ok(tweet);
    }

    /**
     * `delete_tweet`: keeps the tweets with another id, in order; raises
     * TweetNotFound, leaving the file unchanged, when the length did not drop.
     */
    method DeleteTweet(id: string) returns (r: Outcome<TweetError>)
      requires Valid()
      modifies this
      ensures Valid()
      ensures r.Fail? <==> GetTweet(old(tweets), id).Err?
      ensures r.Fail? ==> r.error == TweetNotFound && tweets == old(tweets)
      ensures r.Pass? ==> tweets == WithoutTweet(old(tweets), id)
      ensures GetTweet(tweets, id) == Err(TweetNotFound)
    {
      var before := |tweets|;
      var kept := WithoutTweet(tweets, id);
      var after := |kept|;
      if after == before {
        return Fail(TweetNotFound);
      }
      WithoutTweetKeepsUnique(tweets, id);
      GetAfterDelete(tweets, id);
      tweets := kept;
      r := Pass;
    }
  }

  /**
   * The scenario of test_DB_tweets.py's test_post_and_get_tweet and
   * test_delete_tweet, on an empty file: post, get, delete, get again.
   */
  method PostGetDelete(username: string, content: string, newId: string, date: string)
    returns (fetched: Result<Tweet, TweetError>, afterDelete: Result<Tweet, TweetError>)
    requires |content| <= MaxTweetLength
    ensures fetched.Ok? && fetched.value.username == username && fetched.value.content == content
    ensures afterDelete == Err(TweetNotFound)
  {
    var file := new TweetFile();
    var posted := file.PostTweet(username, content, newId, date);
    fetched := GetTweet(file.tweets, GetId(posted.value));
    var deleted := file.DeleteTweet(GetId(posted.value));
    afterDelete := GetTweet(file.tweets, GetId(posted.value));
  }
}
