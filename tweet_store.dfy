/**
 * The tweet store of data_base/db_tweet_utils.py. Besides the tweets file it
 * keeps, in the users file of the account store, the list of tweet ids each
 * user posted. Likes and replies live inside the tweet records.
 * `uuid.uuid4()`, `datetime.now()` and `random.choice` become arguments.
 */
module TweetStore {
  import opened Common
  import opened Tweets
  import opened Accounts

  // ---------------------------------------------------------------- likes

  /** `tweet.get("likes", [])`. */
  function LikesOf(t: Tweet): seq<string>
  {
    if t.likes.Some? then t.likes.value else []
  }

  /** `tweet.get("replies", [])` (the list `add_reply` creates on demand). */
  function RepliesOf(t: Tweet): seq<Reply>
  {
    if t.replies.Some? then t.replies.value else []
  }

  /** The toggle in `like_tweet`: `likes.remove(username)` if present, else `likes.append(username)`. */
  function Toggle(likes: seq<string>, username: string): (r: seq<string>)
    ensures username in likes ==> |r| == |likes| - 1
    ensures username !in likes ==> |r| == |likes| + 1
  {
    if username in likes then RemoveFirst(likes, username) else likes + [username]
  }

  /**
   * On a likes list without duplicates, toggling flips the user's membership,
   * leaves every other user's membership alone and adds no duplicate.
   */
  lemma ToggleFlips(likes: seq<string>, username: string)
    requires NoDup(likes)
    ensures username in Toggle(likes, username) <==> username !in likes
    ensures forall v :: v != username ==> (v in Toggle(likes, username) <==> v in likes)
    ensures NoDup(Toggle(likes, username))
  {
    if username in likes {
      RemoveFirstNoDup(likes, username);
      var r := RemoveFirst(likes, username);
      forall v | v != username ensures v in r <==> v in likes {
        assert multiset(r)[v] == multiset(likes)[v];
      }
    } else {
      var r := likes + [username];
      forall i, j | 0 <= i < j < |r| ensures r[i] != r[j] {
        if j == |likes| {
          assert r[i] == likes[i];
        } else {
          assert r[i] == likes[i] && r[j] == likes[j];
        }
      }
    }
  }

  /**
   * Toggling twice restores the likes list up to order (the unlike-then-like
   * case moves the user to the end), and exactly when the user had not liked.
   */
  lemma ToggleTwice(likes: seq<string>, username: string)
    requires NoDup(likes)
    ensures multiset(Toggle(Toggle(likes, username), username)) == multiset(likes)
    ensures username !in likes ==> Toggle(Toggle(likes, username), username) == likes
  {
    ToggleFlips(likes, username);
    if username !in likes {
      RemoveFirstSplit(likes, username, []);
      assert likes + [username] + [] == likes + [username];
      assert likes + [] == likes;
    } else {
      var once := RemoveFirst(likes, username);
      assert username !in once;
      assert Toggle(once, username) == once + [username];
      assert multiset(once + [username]) == multiset(once) + multiset{username};
    }
  }

  /** Every tweet's likes list is free of duplicates. */
  predicate LikesNoDup(tweets: seq<Tweet>)
  {
    forall t :: t in tweets ==> NoDup(LikesOf(t))
  }

  /** `get_likes_count`: `len(likes)`, and 0 for a missing tweet or a missing field. */
  function GetLikesCount(tweets: seq<Tweet>, id: string): (n: nat)
    ensures GetTweet(tweets, id).Err? ==> n == 0
    ensures GetTweet(tweets, id).Ok? ==> n == |LikesOf(GetTweet(tweets, id).value)|
  {
    match GetTweet(tweets, id)
    case Ok(t) => |LikesOf(t)|
    case Err(_) => 0
  }

  /** `has_user_liked`: membership in `likes`, and false for a missing tweet. */
  function HasUserLiked(tweets: seq<Tweet>, id: string, username: string): (liked: bool)
    ensures GetTweet(tweets, id).Err? ==> !liked
    ensures liked ==> GetLikesCount(tweets, id) > 0
    ensures liked <==> GetTweet(tweets, id).Ok? && username in LikesOf(GetTweet(tweets, id).value)
  {
    match GetTweet(tweets, id)
    case Ok(t) => username in LikesOf(t)
    case Err(_) => false
  }

  // ------------------------------------------------- in-place tweet updates

  /**
   * The effect of `for t in tweets: if t["tweet_id"] == id: tweet = t; break`
   * followed by an in-place change of `tweet`: the first tweet with the id is
   * replaced by `f` of it; without such a tweet nothing changes.
   */
  function UpdateTweet(tweets: seq<Tweet>, id: string, f: Tweet -> Tweet): (r: seq<Tweet>)
    ensures |r| == |tweets|
    ensures forall j :: 0 <= j < |tweets| && tweets[j].id != id ==> r[j] == tweets[j]
    ensures forall j :: 0 <= j < |tweets| ==> r[j] == tweets[j] || r[j] == f(tweets[j])
    ensures GetTweet(tweets, id).Err? ==> r == tweets
  {
    match FirstIndex(tweets, HasId(id))
    case None => tweets
    case Some(i) => tweets[i := f(tweets[i])]
  }

  /** When `f` keeps the id, `get_tweet` afterwards returns `f` of what it returned before. */
  lemma GetAfterUpdate(tweets: seq<Tweet>, id: string, f: Tweet -> Tweet)
    requires GetTweet(tweets, id).Ok?
    requires f(GetTweet(tweets, id).value).id == id
    ensures GetTweet(UpdateTweet(tweets, id, f), id) == Ok(f(GetTweet(tweets, id).value))
  {
    var i :| 0 <= i < |tweets| && tweets[i] == GetTweet(tweets, id).value && tweets[i].id == id &&
             forall j :: 0 <= j < i ==> tweets[j].id != id;
    var r := UpdateTweet(tweets, id, f);
    assert FirstIndex(tweets, HasId(id)) == Some(i);
    assert r == tweets[i := f(tweets[i])];
    var k :| 0 <= k < |r| && r[k] == GetTweet(r, id).value && r[k].id == id &&
             forall j :: 0 <= j < k ==> r[j].id != id;
    assert k == i by {
      assert forall j :: 0 <= j < |r| && j != i ==> r[j] == tweets[j];
    }
  }

  /** `like_tweet`'s change to one tweet. */
  function Liking(username: string): Tweet -> Tweet
  {
    (t: Tweet) => t.(likes := Some(Toggle(LikesOf(t), username)))
  }

  /** `add_reply`'s change to one tweet. */
  function Replying(reply: Reply): Tweet -> Tweet
  {
    (t: Tweet) => t.(replies := Some(RepliesOf(t) + [reply]))
  }

  /**
   * One `like_tweet` on an existing tweet flips `has_user_liked` for that user,
   * moves `get_likes_count` by one in the matching direction, leaves every other
   * user's like alone and keeps all likes lists free of duplicates.
   */
  lemma LikeFlips(tweets: seq<Tweet>, id: string, username: string)
    requires LikesNoDup(tweets)
    requires GetTweet(tweets, id).Ok?
    ensures HasUserLiked(UpdateTweet(tweets, id, Liking(username)), id, username) == !HasUserLiked(tweets, id, username)
    ensures GetLikesCount(UpdateTweet(tweets, id, Liking(username)), id) ==
            if HasUserLiked(tweets, id, username) then GetLikesCount(tweets, id) - 1
            else GetLikesCount(tweets, id) + 1
    ensures forall v :: v != username ==>
              HasUserLiked(UpdateTweet(tweets, id, Liking(username)), id, v) == HasUserLiked(tweets, id, v)
    ensures LikesNoDup(UpdateTweet(tweets, id, Liking(username)))
  {
    var t := GetTweet(tweets, id).value;
    GetAfterUpdate(tweets, id, Liking(username));
    ToggleFlips(LikesOf(t), username);
    var r := UpdateTweet(tweets, id, Liking(username));
    forall u | u in r ensures NoDup(LikesOf(u)) {
      var k :| 0 <= k < |r| && r[k] == u;
      if tweets[k].id != id {
        assert u == tweets[k];
      } else {
        var i :| 0 <= i < |tweets| && tweets[i] == t && t.id == id &&
                 forall j :: 0 <= j < i ==> tweets[j].id != id;
        assert FirstIndex(tweets, HasId(id)) == Some(i);
        if k != i {
          assert u == tweets[k];
        } else {
          assert u == Liking(username)(t);
        }
      }
    }
  }

  /** Two `like_tweet` calls by the same user restore every user's like and the count. */
  lemma LikeTwiceRestores(tweets: seq<Tweet>, id: string, username: string)
    requires LikesNoDup(tweets)
    ensures forall v :: HasUserLiked(UpdateTweet(UpdateTweet(tweets, id, Liking(username)), id, Liking(username)), id, v) ==
                        HasUserLiked(tweets, id, v)
    ensures GetLikesCount(UpdateTweet(UpdateTweet(tweets, id, Liking(username)), id, Liking(username)), id) ==
            GetLikesCount(tweets, id)
  {
    if GetTweet(tweets, id).Ok? {
      var once := UpdateTweet(tweets, id, Liking(username));
      LikeFlips(tweets, id, username);
      GetAfterUpdate(tweets, id, Liking(username));
      LikeFlips(once, id, username);
    }
  }

  /** After `add_reply`, the tweet's replies are the old ones followed by the new reply. */
  lemma ReplyAppends(tweets: seq<Tweet>, id: string, reply: Reply)
    requires GetTweet(tweets, id).Ok?
    ensures GetTweet(UpdateTweet(tweets, id, Replying(reply)), id).Ok?
    ensures RepliesOf(GetTweet(UpdateTweet(tweets, id, Replying(reply)), id).value) ==
            RepliesOf(GetTweet(tweets, id).value) + [reply]
    ensures LikesOf(GetTweet(UpdateTweet(tweets, id, Replying(reply)), id).value) ==
            LikesOf(GetTweet(tweets, id).value)
  {
    GetAfterUpdate(tweets, id, Replying(reply));
  }

  /** An update that keeps ids keeps them unique; one that keeps likes keeps them duplicate-free. */
  lemma UpdateKeepsInvariants(tweets: seq<Tweet>, id: string, f: Tweet -> Tweet)
    requires UniqueIds(tweets)
    requires forall i :: 0 <= i < |tweets| ==> f(tweets[i]).id == tweets[i].id
    ensures UniqueIds(UpdateTweet(tweets, id, f))
    ensures LikesNoDup(tweets) && (forall i :: 0 <= i < |tweets| ==> LikesOf(f(tweets[i])) == LikesOf(tweets[i])) ==>
              LikesNoDup(UpdateTweet(tweets, id, f))
  {
  }

  // ----------------------------------------------------------- queries

  /** `afficher_tweet`: author, date and content of the tweet, or TweetNotFound. */
  function DisplayTweet(tweets: seq<Tweet>, id: string): (r: Result<(string, string, string), TweetError>)
    ensures r.Err? <==> forall i :: 0 <= i < |tweets| ==> tweets[i].id != id
    ensures r.Err? ==> r.error == TweetNotFound
    ensures r.Ok? ==> exists i :: 0 <= i < |tweets| && tweets[i].id == id &&
                                  r.value == (tweets[i].username, tweets[i].date, tweets[i].content)
  {
    match GetTweet(tweets, id)
    case Ok(t) => Ok((t.username, t.date, t.content))
    case Err(e) => Err(e)
  }

  /**
   * `select_random_tweet`: TweetNotFound on an empty collection, otherwise the
   * id of some stored tweet (`random.choice` is a nondeterministic choice).
   */
  method SelectRandomTweet(tweets: seq<Tweet>) returns (r: Result<string, TweetError>)
    ensures r.Err? <==> tweets == []
    ensures r.Err? ==> r.error == TweetNotFound
    ensures r.Ok? ==> GetTweet(tweets, r.value).Ok?
  {
    if tweets == [] {
      return Err(TweetNotFound);
    }
    var k :| 0 <= k < |tweets|;
    r := Ok(tweets[k].id);
  }

  // ------------------------------------------- tweet ids in user records

  /** `user.get("tweets", [])`. */
  function TweetsOf(u: User): seq<string>
  {
    if u.tweets.Some? then u.tweets.value else []
  }

  function Holds(id: string): User -> bool
  {
    (u: User) => id in TweetsOf(u)
  }

  /** Two user collections that differ only outside the usernames. */
  predicate SameUsernames(a: seq<User>, b: seq<User>)
  {
    |a| == |b| && forall i :: 0 <= i < |a| ==> a[i].username == b[i].username
  }

  lemma SameUsernamesKeepUnique(a: seq<User>, b: seq<User>)
    requires SameUsernames(a, b) && UniqueUsernames(a)
    ensures UniqueUsernames(b)
  {
    forall i, j | 0 <= i < j < |b| ensures b[i].username != b[j].username {
      assert a[i].username != a[j].username;
    }
  }

  /**
   * The users half of `post_tweet`: the first user with the username gets the
   * id appended to their `tweets` (created if absent); None when no user matches.
   */
  function AttachTweet(users: seq<User>, username: string, id: string): (r: Option<seq<User>>)
    ensures r.Some? <==> GetUser(users, username).Some?
    ensures r.Some? ==> SameUsernames(users, r.value)
  {
    match FirstIndex(users, Named(username))
    case None => None
    case Some(i) => Some(users[i := users[i].(tweets := Some(TweetsOf(users[i]) + [id]))])
  }

  /**
   * After attaching, `get_user` on the author shows the id at the end of their
   * tweets and nothing else changed; `get_user` on any other name is unchanged.
   */
  lemma AttachTweetLookup(users: seq<User>, username: string, id: string)
    requires GetUser(users, username).Some?
    ensures GetUser(AttachTweet(users, username, id).value, username) ==
            Some(GetUser(users, username).value.(tweets := Some(TweetsOf(GetUser(users, username).value) + [id])))
    ensures forall other :: other != username ==>
              GetUser(AttachTweet(users, username, id).value, other) == GetUser(users, other)
  {
    var i :| 0 <= i < |users| && users[i] == GetUser(users, username).value && users[i].username == username &&
             forall j :: 0 <= j < i ==> users[j].username != username;
    assert FirstIndex(users, Named(username)) == Some(i);
    var r := AttachTweet(users, username, id).value;
    assert forall j :: 0 <= j < |r| && j != i ==> r[j] == users[j];
    var k :| 0 <= k < |r| && r[k] == GetUser(r, username).value && r[k].username == username &&
             forall j :: 0 <= j < k ==> r[j].username != username;
    assert k == i;
    forall other | other != username ensures GetUser(r, other) == GetUser(users, other) {
      LookupOther(users, r, i, other);
    }
  }

  /** Changing one record other than a name's match leaves that name's lookup alone. */
  lemma LookupOther(users: seq<User>, r: seq<User>, i: nat, other: string)
    requires SameUsernames(users, r) && i < |users|
    requires forall j :: 0 <= j < |r| && j != i ==> r[j] == users[j]
    requires users[i].username != other
    ensures GetUser(r, other) == GetUser(users, other)
  {
    if GetUser(users, other).Some? {
      var k :| 0 <= k < |users| && users[k] == GetUser(users, other).value && users[k].username == other &&
               forall j :: 0 <= j < k ==> users[j].username != other;
      var m :| 0 <= m < |r| && r[m] == GetUser(r, other).value && r[m].username == other &&
               forall j :: 0 <= j < m ==> r[j].username != other;
      assert m == k by {
        assert users[m].username == other;
        assert r[k].username == other;
      }
    }
  }

  /**
   * The users half of `delete_tweet`: one occurrence of the id is removed from
   * the first user whose `tweets` holds it; nothing changes when none does.
   */
  function DetachTweet(users: seq<User>, id: string): (r: seq<User>)
    ensures SameUsernames(users, r)
    ensures (forall j :: 0 <= j < |users| ==> id !in TweetsOf(users[j])) ==> r == users
  {
    match FirstIndex(users, Holds(id))
    case None => users
    case Some(i) => users[i := users[i].(tweets := Some(RemoveFirst(TweetsOf(users[i]), id)))]
  }

  /**
   * Only the first holder changes: its tweet ids lose exactly one copy of the
   * id and keep their order; every other user record is untouched.
   */
  lemma DetachTweetChangesFirstHolder(users: seq<User>, id: string, i: nat, a: seq<string>, b: seq<string>)
    requires i < |users| && TweetsOf(users[i]) == a + [id] + b && id !in a
    requires forall j :: 0 <= j < i ==> id !in TweetsOf(users[j])
    ensures TweetsOf(DetachTweet(users, id)[i]) == a + b
    ensures forall j :: 0 <= j < |users| && j != i ==> DetachTweet(users, id)[j] == users[j]
  {
    assert id in TweetsOf(users[i]);
    assert FirstIndex(users, Holds(id)) == Some(i);
    RemoveFirstSplit(a, id, b);
  }

  // --------------------------------------------------------------- the store

  /**
   * The tweets file, and the users file of the account store it writes into.
   * `tweets` is what `_load_tweets` reads and `_save_tweets` writes.
   */
  class TweetFile {
    var tweets: seq<Tweet>
    const accounts: UserFile

    ghost predicate Valid()
      reads this, accounts
    {
      UniqueIds(tweets) && LikesNoDup(tweets) && accounts.Valid()
    }

    /** A missing, empty or corrupt tweets file reads as an empty collection. */
    constructor (accounts: UserFile)
      requires accounts.Valid()
      ensures Valid() && tweets == [] && this.accounts == accounts
    {
      this.accounts := accounts;
      tweets := [];
    }

    /**
     * `post_tweet`: TweetTooLong exactly above 140 characters, with neither
     * file changed. Otherwise the tweet is appended and saved first; then the
     * first user with the username gets the id. With no such user the error
     * is raised after the save: the tweet stays, with no owner.
     */
    method PostTweet(username: string, description: string, newId: string, date: string)
      returns (r: Result<Tweet, TweetError>)
      requires Valid()
      requires forall i :: 0 <= i < |tweets| ==> tweets[i].id != newId
      modifies this, accounts
      ensures Valid()
      ensures r == Err(TweetTooLong) <==> |description| > MaxTweetLength
      ensures |description| > MaxTweetLength ==> tweets == old(tweets) && accounts.users == old(accounts.users)
      ensures |description| <= MaxTweetLength ==> tweets == old(tweets) + [NewTweet(newId, username, date, description)]
      ensures |description| <= MaxTweetLength && GetUser(old(accounts.users), username).Some? ==>
                r == Ok(NewTweet(newId, username, date, description)) &&
                Some(accounts.users) == AttachTweet(old(accounts.users), username, newId)
      ensures |description| <= MaxTweetLength && GetUser(old(accounts.users), username).None? ==>
                r == Err(UserNotFound) && accounts.users == old(accounts.users)
    {
      if |description| > MaxTweetLength {
        return Err(TweetTooLong);
      }
      var tweet := NewTweet(newId, username, date, description);
      AppendKeepsUnique(tweets, tweet);
      tweets := tweets + [tweet];

      var users := accounts.users;
      var i := 0;
      while i < |users|
        invariant 0 <= i <= |users|
        invariant forall j :: 0 <= j < i ==> users[j].username != username
      {
        if users[i].username == username {
          var user := users[i];
          var ids := TweetsOf(user);
          assert FirstIndex(users, Named(username)) == Some(i);
          SameUsernamesKeepUnique(users, users[i := user.(tweets := Some(ids + [newId]))]);
          accounts.users := users[i := user.(tweets := Some(ids + [newId]))];
          return Ok(tweet);
        }
        i := i + 1;
      }
      r := Err(UserNotFound);
    }

    /**
     * `delete_tweet`: TweetNotFound, with neither file changed, exactly when
     * no tweet has the id. Otherwise every tweet with the id goes and the
     * first user holding the id loses one copy of it.
     */
    method DeleteTweet(id: string) returns (r: Outcome<TweetError>)
      requires Valid()
      modifies this, accounts
      ensures Valid()
      ensures r.Fail? <==> GetTweet(old(tweets), id).Err?
      ensures r.Fail? ==> r.error == TweetNotFound && tweets == old(tweets) && accounts.users == old(accounts.users)
      ensures r.Pass? ==> tweets == WithoutTweet(old(tweets), id)
      ensures r.Pass? ==> accounts.users == DetachTweet(old(accounts.users), id)
      ensures GetTweet(tweets, id) == Err(TweetNotFound)
    {
      var before := |tweets|;
      var kept := WithoutTweet(tweets, id);
      var after := |kept|;
      if after == before {
        return Fail(TweetNotFound);
      }
      WithoutTweetKeepsUnique(tweets, id);
      GetAfterDelete(tweets, id);
      tweets := kept;

      var users := accounts.users;
      var i := 0;
      while i < |users|
        invariant 0 <= i <= |users|
        invariant forall j :: 0 <= j < i ==> id !in TweetsOf(users[j])
      {
        if id in TweetsOf(users[i]) {
          assert FirstIndex(users, Holds(id)) == Some(i);
          users := users[i := users[i].(tweets := Some(RemoveFirst(TweetsOf(users[i]), id)))];
          break;
        }
        i := i + 1;
      }
      SameUsernamesKeepUnique(accounts.users, users);
      accounts.users := users;
      r := Pass;
    }

    /**
     * `like_tweet`: TweetNotFound, with nothing changed, for an unknown id;
     * otherwise the user's like on the first tweet with the id is toggled.
     */
    method LikeTweet(id: string, username: string) returns (r: Outcome<TweetError>)
      requires Valid()
      modifies this
      ensures Valid()
      ensures r.Fail? <==> GetTweet(old(tweets), id).Err?
      ensures r.Fail? ==> r.error == TweetNotFound
      ensures tweets == UpdateTweet(old(tweets), id, Liking(username))
    {
      var i := 0;
      while i < |tweets| && tweets[i].id != id
        invariant 0 <= i <= |tweets|
        invariant forall j :: 0 <= j < i ==> tweets[j].id != id
      {
        i := i + 1;
      }
      if i == |tweets| {
        return Fail(TweetNotFound);
      }
      assert FirstIndex(tweets, HasId(id)) == Some(i);
      LikeFlips(tweets, id, username);
      UpdateKeepsInvariants(tweets, id, Liking(username));
      var tweet := tweets[i];
      var likes := LikesOf(tweet);
      if username in likes {
        likes := RemoveFirst(likes, username);
      } else {
        likes := likes + [username];
      }
      tweets := tweets[i := tweet.(likes := Some(likes))];
      r := Pass;
    }

    /**
     * `add_reply`: TweetTooLong above 280 characters, then TweetNotFound for
     * an unknown id, both with nothing changed; otherwise the reply is
     * appended to the first matching tweet's replies and returned.
     */
    method AddReply(id: string, username: string, content: string, replyId: string, date: string)
      returns (r: Result<Reply, TweetError>)
      requires Valid()
      modifies this
      ensures Valid()
      ensures r == Err(TweetTooLong) <==> |content| > MaxReplyLength
      ensures r == Err(TweetNotFound) <==> |content| <= MaxReplyLength && GetTweet(old(tweets), id).Err?
      ensures r.Ok? <==> |content| <= MaxReplyLength && GetTweet(old(tweets), id).Ok?
      ensures r.Err? ==> tweets == old(tweets)
      ensures r.Ok? ==> r.value == Reply(replyId, username, date, content)
      ensures r.Ok? ==> tweets == UpdateTweet(old(tweets), id, Replying(r.value))
    {
      if |content| > MaxReplyLength {
        return Err(TweetTooLong);
      }
      var i := 0;
      while i < |tweets| && tweets[i].id != id
        invariant 0 <= i <= |tweets|
        invariant forall j :: 0 <= j < i ==> tweets[j].id != id
      {
        i := i + 1;
      }
      if i == |tweets| {
        return Err(TweetNotFound);
      }
      var reply := Reply(replyId, username, date, content);
      assert FirstIndex(tweets, HasId(id)) == Some(i);
      UpdateKeepsInvariants(tweets, id, Replying(reply));
      var tweet := tweets[i];
      var replies := RepliesOf(tweet);
      tweets := tweets[i := tweet.(replies := Some(replies + [reply]))];
      assert forall j :: 0 <= j < |tweets| && j != i ==> tweets[j] == old(tweets)[j];
      r := Ok(reply);
    }
  }

  /**
   * `post_tweet` by a username no user record has: the error is raised after
   * the tweets file was saved, so that file keeps a tweet no user lists.
   */
  method PostForUnknownAuthor(digest: string -> string, username: string, content: string, newId: string, date: string)
    returns (r: Result<Tweet, TweetError>, stored: seq<Tweet>)
    requires |content| <= MaxTweetLength
    ensures r == Err(UserNotFound)
    ensures stored == [NewTweet(newId, username, date, content)]
  {
    var accounts := new UserFile(digest);
    var file := new TweetFile(accounts);
    r := file.PostTweet(username, content, newId, date);
    stored := file.tweets;
  }
}
