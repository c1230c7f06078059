# TweetInsa record stores, modelled in Dafny

TweetInsa is a small social network. Its persistence layer keeps two JSON
collections: user accounts and tweets. Every operation loads a whole
collection, changes it in memory and writes it back. This project models
that layer with the files abstracted away. Each collection is a `seq` field
of a class. A load is a read of the field and a save is an assignment to it.

- `common.dfy` (`Common`): the Option, Result and Outcome types used for the
  source's exceptions. It also holds the Python idioms the stores use, each
  defined once: the first-match search loop (`FirstIndex`), the filtering
  list comprehension (`Filter`) and `list.remove` (`RemoveFirst`).
- `accounts.dfy` (`Accounts`, data_base/db_auth_utils.py): user records, the
  salted password hash, `get_user`, `delete_user`, `authenticate`, and the
  class `UserFile` whose `AddUser` and `DeleteUser` change the collection.
  The digest (sha256 in the source) is a function `digest` the store is
  built with. Nothing is assumed about it.
- `tweets.dfy` (`Tweets`): tweet and reply records, `get_id`, `get_tweet`
  and the filter inside `delete_tweet`. Both tweet files have the same text
  for these, so they are modelled once.
- `standalone_tweet_store.dfy` (`StandaloneTweetStore`, db_tweet_utils.py):
  the earlier tweet store, with `post_tweet` and `delete_tweet` and no user
  bookkeeping.
- `tweet_store.dfy` (`TweetStore`, data_base/db_tweet_utils.py): the tweet
  store that also writes tweet ids into user records, plus likes, replies,
  `afficher_tweet` and `select_random_tweet`. Its class `TweetFile` holds the
  tweets and a reference to the `UserFile` it updates.
- `password_policy.dfy` (`PasswordPolicy`, sign_up_backend.py): `MDP_valide`.

Nondeterministic inputs become arguments:
- `uuid.uuid4()` is `newId` or `replyId`. A new tweet id is required to be
  fresh, which keeps ids unique.
- `datetime.now()` is an opaque `date` string.
- `secrets.token_hex(16)` is `freshSalt`.
- `random.choice` is a nondeterministic choice (`:|`).

The query functions (`GetTweet`, `GetUser`, `Authenticate`, `GetLikesCount`,
`HasUserLiked`, `DisplayTweet`) take the collection value that the source's
load would return.

Where the tests and the code disagree, the model follows the code:
- data_base/tests_DB.py expects an error from a second `delete_user`, but
  the code returns silently.
- The tests call `count_users`, `follow`, `get_user_by_email` and other
  functions that the code does not define.

## Model

| member | source | states |
|---|---|---|
| Common.FirstIndex | data_base/db_tweet_utils.py:183-186 | A first-match search stops at an element satisfying the test with no earlier one satisfying it. It finds nothing exactly when no element satisfies the test. |
| Common.Filter | db_tweet_utils.py:157 | A comprehension keeps exactly the elements passing the test. It keeps every such element and never grows the list. Its length is unchanged exactly when every element passes, and the list is then returned as it was. |
| Common.FilterAppend | db_tweet_utils.py:157 | Filtering distributes over concatenation, so kept elements stay in their original order. |
| Common.FilterKeepsUniqueKeys | data_base/db_auth_utils.py:73 | Filtering never makes two elements share a key. |
| Common.RemoveFirst | data_base/db_tweet_utils.py:275 | `list.remove` drops exactly one occurrence: the length drops by one and the multiset loses one copy. |
| Common.RemoveFirstSplit | data_base/db_tweet_utils.py:214 | `list.remove` removes the first occurrence and keeps the rest in order. |
| Common.RemoveFirstNoDup | data_base/db_tweet_utils.py:274-275 | On a list without duplicates, removal leaves no occurrence and no duplicate. |
| Accounts.HashPassword | data_base/db_auth_utils.py:45-49 | An explicit salt is returned unchanged, and a missing salt is replaced by the fresh one. The hash is the digest of the returned salt followed by the password. |
| Accounts.GetUser | data_base/db_auth_utils.py:64-69 | Returns the first record with the username, or None exactly when no record has it. |
| Accounts.RemoveUser | data_base/db_auth_utils.py:71-74 | Keeps exactly the records with another username. Removing an absent username changes nothing. |
| Accounts.Authenticate | data_base/db_auth_utils.py:76-81 | False for an unknown username. Otherwise true exactly when the stored hash equals the digest of the stored salt followed by the password. |
| Accounts.GetUserAfterAdd | data_base/db_auth_utils.py:51-69 | After a record with a new username is appended, `get_user` returns that record. |
| Accounts.GetOtherAfterAdd | data_base/db_auth_utils.py:55-69 | Appending a user does not change the lookup of any other username. |
| Accounts.AuthenticateAfterAdd | data_base/db_auth_utils.py:51-81 | Immediately after `add_user(u, e, p)`, `authenticate(u, p)` is true for every digest and salt. |
| Accounts.AddKeepsUnique | data_base/db_auth_utils.py:53-61 | Appending a record whose username is new keeps usernames unique. |
| Accounts.RemoveKeepsUnique | data_base/db_auth_utils.py:71-74 | `delete_user` keeps usernames unique, and afterwards the username is not found. |
| Accounts.UserFile.constructor | data_base/db_auth_utils.py:23-24 | A missing users file is an empty collection. |
| Accounts.UserFile.AddUser | data_base/db_auth_utils.py:51-62 | Rejects a username already present and leaves the users unchanged. Otherwise appends exactly one record with the salted hash at the end. Usernames stay unique, the email is not checked, and the new user authenticates. |
| Accounts.UserFile.DeleteUser | data_base/db_auth_utils.py:71-74 | The users become the filtered collection. An absent username is a silent no-op. Usernames stay unique and the name is no longer found. |
| Accounts.AddAuthenticateDelete | data_base/tests_DB.py:51-63 | On an empty file: re-adding a username fails, the new user authenticates, and after deletion the user is not found. A second delete succeeds and leaves the file empty. |
| Tweets.GetId | data_base/db_tweet_utils.py:147-161 | The id it returns is the one under which `get_tweet` finds the tweet again (on its own here; in any collection with unique ids by Tweets.GetTweetOfId). |
| Tweets.GetTweet | data_base/db_tweet_utils.py:163-186 | Returns the first tweet with the id. Raises TweetNotFound exactly when no tweet has it. |
| Tweets.WithoutTweet | data_base/db_tweet_utils.py:202-207 | Keeps exactly the tweets with another id. The length is unchanged, and so is the list, exactly when `get_tweet` would raise TweetNotFound. |
| Tweets.WithoutTweetAppend | db_tweet_utils.py:155-157 | Deleting keeps the remaining tweets in their original order. |
| Tweets.WithoutTweetKeepsUnique | db_tweet_utils.py:155-161 | Deleting keeps tweet ids unique. |
| Tweets.GetAfterDelete | db_tweet_utils.py:142-161 | After a delete, `get_tweet` on that id raises TweetNotFound. |
| Tweets.GetAfterAppend | db_tweet_utils.py:135-139 | After a tweet with a fresh id is appended, `get_tweet` on its id returns it. |
| Tweets.AppendKeepsUnique | db_tweet_utils.py:89-96 | Appending a tweet with a fresh id keeps ids unique. |
| Tweets.GetTweetOfId | data_base/db_tweet_utils.py:147-186 | With unique ids, `get_tweet(get_id(t))` returns `t` for every stored tweet. |
| StandaloneTweetStore.TweetFile.constructor | db_tweet_utils.py:37-44 | A missing, empty or corrupt tweets file is an empty collection. |
| StandaloneTweetStore.TweetFile.PostTweet | db_tweet_utils.py:66-98 | Raises TweetTooLong exactly above 140 characters, with the store unchanged; 140 is accepted. Otherwise appends exactly one tweet with the given author and content and returns it. Earlier tweets are unchanged, and `get_tweet` on the new id returns the tweet. |
| StandaloneTweetStore.TweetFile.DeleteTweet | db_tweet_utils.py:142-161 | Raises TweetNotFound, with the store unchanged, exactly when no tweet has the id. Otherwise keeps exactly the other tweets in order. Afterwards `get_tweet` raises TweetNotFound. |
| StandaloneTweetStore.PostGetDelete | test_DB_tweets.py:37-58 | Post, then get: the same author and content. Delete, then get: TweetNotFound. |
| TweetStore.Toggle | data_base/db_tweet_utils.py:273-277 | Toggling shrinks the likes by one when the user is present and grows them by one otherwise. |
| TweetStore.ToggleFlips | data_base/db_tweet_utils.py:273-279 | On likes without duplicates, a toggle flips the user's membership and leaves every other user's membership alone. It never adds a duplicate. |
| TweetStore.ToggleTwice | data_base/db_tweet_utils.py:262-280 | Two toggles restore the likes as a multiset. They restore the exact list when the user had not liked. |
| TweetStore.GetLikesCount | data_base/db_tweet_utils.py:282-287 | The length of the tweet's likes: 0 for a missing tweet or a missing `likes` field. |
| TweetStore.HasUserLiked | data_base/db_tweet_utils.py:289-294 | Membership in the tweet's likes: false for a missing tweet. A like implies a positive count. |
| TweetStore.UpdateTweet | data_base/db_tweet_utils.py:264-271 | The search-then-mutate pattern: only the first tweet with the id may change. Tweets with other ids are untouched, and an unknown id changes nothing. |
| TweetStore.GetAfterUpdate | data_base/db_tweet_utils.py:303-320 | When the change keeps the id, `get_tweet` afterwards returns the changed record. |
| TweetStore.LikeFlips | data_base/db_tweet_utils.py:262-294 | One like flips `has_user_liked` for that user and moves `get_likes_count` by one in the matching direction. Other users' likes are unchanged and no likes list gains a duplicate. |
| TweetStore.LikeTwiceRestores | data_base/db_tweet_utils.py:262-294 | Two likes by the same user restore every user's `has_user_liked` and the count. |
| TweetStore.ReplyAppends | data_base/db_tweet_utils.py:318-320 | After `add_reply`, the tweet's replies are the old ones followed by the new reply, and its likes are unchanged. |
| TweetStore.UpdateKeepsInvariants | data_base/db_tweet_utils.py:279-280 | An in-place change that keeps ids keeps them unique. One that also keeps likes keeps them free of duplicates. |
| TweetStore.DisplayTweet | data_base/db_tweet_utils.py:220-239 | Returns the author, date and content of a tweet with the id. Raises TweetNotFound exactly when none has it. |
| TweetStore.SelectRandomTweet | data_base/db_tweet_utils.py:241-259 | Raises TweetNotFound exactly on an empty collection. Otherwise returns an id that `get_tweet` finds. |
| TweetStore.AttachTweet | data_base/db_tweet_utils.py:133-143 | Fails exactly when no user has the username. Otherwise keeps every username. |
| TweetStore.AttachTweetLookup | data_base/db_tweet_utils.py:133-140 | Afterwards `get_user` on the author shows the new id at the end of their `tweets`, created if absent. Every other username's lookup is unchanged. |
| TweetStore.DetachTweet | data_base/db_tweet_utils.py:211-216 | Keeps every username. Changes nothing when no user holds the id. |
| TweetStore.DetachTweetChangesFirstHolder | data_base/db_tweet_utils.py:211-216 | Only the first user holding the id changes: it loses one copy of the id and keeps the order of the rest. |
| TweetStore.TweetFile.constructor | data_base/db_tweet_utils.py:42-49 | A missing, empty or corrupt tweets file is an empty collection. |
| TweetStore.TweetFile.PostTweet | data_base/db_tweet_utils.py:99-143 | Raises TweetTooLong exactly above 140 characters, with neither file changed. Otherwise appends exactly one tweet. The first user with the username gets the id appended; otherwise UserNotFound is raised and the tweet stays. |
| TweetStore.TweetFile.DeleteTweet | data_base/db_tweet_utils.py:189-216 | Raises TweetNotFound, with neither file changed, exactly when no tweet has the id. Otherwise removes every tweet with the id and detaches it from the first holder. |
| TweetStore.TweetFile.LikeTweet | data_base/db_tweet_utils.py:262-280 | Raises TweetNotFound exactly for an unknown id. The first tweet with the id has the user's like toggled, and the likes stay free of duplicates. |
| TweetStore.TweetFile.AddReply | data_base/db_tweet_utils.py:298-322 | Raises TweetTooLong exactly above 280 characters, then TweetNotFound for an unknown id, changing nothing either way. Succeeds exactly when the reply fits and the tweet exists, and then appends the reply to the first matching tweet and returns it. |
| TweetStore.PostForUnknownAuthor | data_base/db_tweet_utils.py:130-143 | Posting as an unknown user raises UserNotFound, but the tweet is already stored: there is no rollback. |
| PasswordPolicy.MdpValide | sign_up_backend.py:21-28 | Returns normally exactly when the password has at least 8 characters, an upper-case letter and a digit. Otherwise it raises MDPInvalide. |
| PasswordPolicy.EachRuleRejects | sign_up_backend.py:22-28 | Each rule alone rejects: fewer than 8 characters, no upper-case letter, or no digit. |
| PasswordPolicy.Examples | sign_up_backend.py:21-28 | The test passwords "Paass123" (8 characters) and "Mypassword8" are accepted. A 7-character password and one without an upper-case letter are rejected. |

## Left out

- File and JSON I/O (`_load_tweets`, `_save_tweets`, `_load_users`,
  `_save_users`, `_load_db`, `_save_db`): each collection is a field. The
  fallback to an empty collection is the constructors' empty state.
- Crash atomicity and concurrency: an operation runs to completion, and
  lost updates between processes are not modelled.
- sha256 and `secrets.token_hex`: the digest is an arbitrary function and
  the salt an argument. No claim is made that a wrong password is rejected,
  because that would need the digest to be injective.
- `uuid.uuid4` and `datetime.now`: arguments. A new tweet id is required
  to be fresh. Reply ids are not required to be fresh, since nothing looks
  them up.
- `random.choice`: a nondeterministic choice with no distribution.
- PasswordPolicy.MdpValide: `str.isupper` and `str.isdigit` accept all of
  Unicode's upper-case letters and digits. The model accepts only ASCII
  'A'..'Z' and '0'..'9', so it rejects some passwords the source accepts.
- TweetStore.TweetFile.PostTweet: for an unknown author the source raises
  `db_auth_utils.UserNotFoundError`. data_base/db_auth_utils.py does not
  define that name, so Python actually raises AttributeError. Either way
  the call fails after the tweet was saved. The model names the error
  UserNotFound.
- JSON records may hold other fields, such as `tweets_posted` written by
  the tests. The model's records carry only the fields the core reads or
  writes.
- Follow graphs, email uniqueness, `get_user_by_email`, `count_users`,
  rename cascades and reporting appear only in tests or other listings, with
  no code in the core, so they are not modelled.
- Flask routes, timeline sorting and date formatting (data_base/app.py),
  static/modal.js, the interactive sign-up prompts and the module-level
  script statements are not part of this model.
