# Twitter timelines: fan-out on write against fan-out on read

This project models the two timeline back ends of a small Twitter-like
benchmark:

- **The Redis engine** (`twitter_api_redis.py`, class `TwitterAPI`) does the
  work at post time. `postTweet` takes a fresh id from `tweet_counter`. It
  stores the tweet hash and adds the id to the author's own sorted set. It
  then adds the id to the timeline sorted set of every current follower.
  `getTimeline` is a `ZREVRANGE` over the user's timeline followed by one
  hash read per id. `addFollow`, `clearFollows` and `clearTweets` maintain
  the follow sets and wipe the keyspace.
- **The MySQL baseline** (`twitter_api.py`, class `TwitterAPI`) does the work
  at read time. `postTweet` inserts a row. `getTimeline` joins `tweet` with
  `follows`, orders by `tweet_ts DESC` and applies `LIMIT`. `getFollowers`,
  `getFollowees` and `getTweets` are single-table selects, and the two
  clear operations truncate a table.

The headline result is `FanOutEquivalence.TimelinesAgree`. Both
`getTimeline` docstrings promise "the most recent tweets from users followed
by user_id" (twitter_api_redis.py:99, twitter_api.py:50). Load both engines
the way the benchmark scripts load them: first every follow, then every
post. Suppose also that no follows row occurs twice, that no two posts share
a timestamp, and that the limit is positive. Then for every user the
fan-out-on-write timeline equals the fan-out-on-read timeline, as the same
sequence of tweets.

Each condition is needed:

- `NoBackfill`: a follow recorded after a post shows the tweet in the join
  but not in the precomputed timeline.
- `DuplicateRowRepeatsTweet`: a repeated follows row makes the join return
  the tweet twice, while the sorted set holds it once.
- `LimitZeroDiffers`: with limit 0 the join returns nothing, while the
  range query returns the whole timeline.
- `TieByMemberString`: for equal timestamps, Redis ranks by the member
  string, so id 9 comes ahead of id 10. MySQL leaves the order of equal
  `tweet_ts` open, so no single order can be shown for the join.

Files:

- `twitter_objects.dfy`: the `Tweet` record both APIs return.
- `ranking.dfy`: a descending insertion sort with a tie-break, and the fact
  that a strictly descending listing of a set is unique.
- `redis_twitter.dfy`: the keyspace as a `Store` value and the operations as
  functions of it. It also holds the class `TwitterApi`, whose methods update
  the key families (typed fields) in place and are proved against those
  functions.
- `sql_twitter.dfy`: the two tables, a class `TwitterApi` for the writes,
  and the queries as functions.
- `fanout_equivalence.dfy`: the benchmark load traces, the equivalence
  theorem and the counterexamples.

How the code treats the limit:

- Neither `getTimeline` checks its limit. On Redis the stop index is
  `limit - 1` (twitter_api_redis.py:103-108). Limit 0 therefore becomes
  `ZREVRANGE key 0 -1`, the whole timeline (`TimelineLimitZeroIsWhole`). A
  negative limit counts back from the end and drops the lowest `-limit`
  ranks (`ZRevRangeNegative`).
- On MySQL, `LIMIT 0` returns no rows. A negative `LIMIT` is a syntax error,
  modelled as `Err(NegativeLimit)`.

## Model

| member | source | states |
|---|---|---|
| RedisTwitter.ZAdd | twitter_api_redis.py:80-83 | ZADD puts the member in with the new score and leaves every other member and score as it was |
| RedisTwitter.Rank | twitter_api_redis.py:103-108 | the ZREVRANGE ordering lists every member of the sorted set exactly once (same multiset), each with a score no lower than the next |
| RedisTwitter.RankMembers | twitter_api_redis.py:103-108 | the ranking contains exactly the members of the sorted set, with no id repeated |
| RedisTwitter.ZRevRange | twitter_api_redis.py:103-108 | the range query returns at most as many ids as the set holds, all of them members; ZRevRangeTop, ZRevRangeWhole and ZRevRangeNegative give the exact ids for every limit |
| RedisTwitter.ZRevRangeTop | twitter_api_redis.py:103-108 | for limit >= 1, ranks 0..limit-1 are the first min(limit, size) ids of the ranking |
| RedisTwitter.ZRevRangeNegative | twitter_api_redis.py:103-108 | for a negative limit, the stop index limit-1 counts back from the end: all ranks but the lowest -limit are returned |
| RedisTwitter.TieByMemberString | twitter_api_redis.py:103-108 | for equal scores Redis ranks the greater member string first: ids 9 and 10 with one score rank as [9, 10] |
| RedisTwitter.ZRevRangeWhole | twitter_api_redis.py:103-108 | a stop index of -1 selects the whole ranking |
| RedisTwitter.EmptyStoreValid | twitter_api_redis.py:5-11 | the empty keyspace satisfies the consistency invariant that links the six key families |
| RedisTwitter.FollowsCleared | twitter_api_redis.py:38-46 | clearFollows empties every following and followers set, leaves tweets, timelines and counter alone, and keeps the store consistent |
| RedisTwitter.TweetsCleared | twitter_api_redis.py:48-59 | clearTweets removes every hash, authored set and timeline and resets the counter to absent, leaves the follow graph alone, and keeps the store consistent |
| RedisTwitter.Followed | twitter_api_redis.py:129-137 | addFollow adds the edge to both the following and the followers index, changes no other user's sets, copies no past tweets into the timeline, and keeps the store consistent |
| RedisTwitter.FollowIdempotent | twitter_api_redis.py:129-137 | following twice gives the same store as following once (SADD is a set insert) |
| RedisTwitter.Posted | twitter_api_redis.py:61-95 | postTweet's new store; its contract is stated by PostTakesFreshId, PostStoresRecord, PostFansOutToCurrentFollowers, PostKeepsAuthored and PostKeepsTimelines |
| RedisTwitter.FanOut | twitter_api_redis.py:89-95 | after the fan-out, each recipient's timeline has had the id ZADDed and every other timeline is unchanged |
| RedisTwitter.NextIdUnused | twitter_api_redis.py:66 | on a consistent store, the next INCR value names no stored tweet and no entry in any authored set or timeline |
| RedisTwitter.PostTakesFreshId | twitter_api_redis.py:61-95 | postTweet's id is the counter plus one, greater than every stored id, and the store stays consistent |
| RedisTwitter.PostKeepsAuthored | twitter_api_redis.py:72-83 | after a post every authored-set entry names a stored tweet by that author scored by its timestamp, and every tweet is in its author's set |
| RedisTwitter.PostKeepsTimelines | twitter_api_redis.py:89-95 | after a post every timeline entry names a stored tweet and is scored by its timestamp |
| RedisTwitter.ClearTweetsRestartsIds | twitter_api_redis.py:58-59 | after clearTweets the next post gets id 1 and is the only stored tweet |
| RedisTwitter.PostStoresRecord | twitter_api_redis.py:71-76 | the hash for the new id holds author, text and the post-time timestamp; no other hash changes |
| RedisTwitter.PostIgnoresTweetIdAndTs | twitter_api_redis.py:61-76 | the id and timestamp carried by the tweet passed in have no effect on the result |
| RedisTwitter.PostFansOutToCurrentFollowers | twitter_api_redis.py:80-95 | exactly the author's current followers gain (id, timestamp) in their timelines; only the author's authored set changes; the follow graph is untouched |
| RedisTwitter.PostReachesAuthorOnlyIfSelfFollower | twitter_api_redis.py:86-95 | on a consistent store, the author's own timeline gets the tweet if and only if the author follows themself |
| RedisTwitter.Hydrate | twitter_api_redis.py:114-125 | the read loop returns no more tweets than ids |
| RedisTwitter.HydrateMembers | twitter_api_redis.py:114-125 | every returned tweet is the stored hash of one of the ids; every id that has a hash is returned |
| RedisTwitter.HydrateAllPresent | twitter_api_redis.py:114-125 | when every id has a hash, one tweet per id is returned, in id order |
| RedisTwitter.Timeline | twitter_api_redis.py:97-127 | getTimeline's result; its contract is stated by TimelineAtMostLimit, TimelineLimitZeroIsWhole, TimelineEmptyWithoutEntries, TimelineSkipsMissing and TimelineMostRecentFirst |
| RedisTwitter.TimelineAtMostLimit | twitter_api_redis.py:97-127 | for limit >= 1, getTimeline returns at most limit tweets |
| RedisTwitter.TimelineLimitZeroIsWhole | twitter_api_redis.py:103-108 | limit 0 returns the whole hydrated timeline, not nothing |
| RedisTwitter.TimelineEmptyWithoutEntries | twitter_api_redis.py:110-111 | a user with no timeline entries gets the empty list, not an error |
| RedisTwitter.TimelineSkipsMissing | twitter_api_redis.py:117-125 | every tweet returned comes from the hash of one of the user's timeline entries; ids without a hash are skipped |
| RedisTwitter.ValidTimelineEntries | twitter_api_redis.py:89-95 | on a consistent store every timeline entry names a stored tweet scored by its timestamp |
| RedisTwitter.RankPrefixHydrated | twitter_api_redis.py:103-125 | hydrating the first k ranked ids gives k tweets, the i-th being the hash of the i-th id, keyed by its score |
| RedisTwitter.TopHydrated | twitter_api_redis.py:103-125 | with every entry backed by a hash: min(limit, size) tweets, each a different entry, newest first, and no entry left out is newer than a tweet returned |
| RedisTwitter.PrefixNewest | twitter_api_redis.py:103-108 | the hydrated prefix of a ranking that repeats no id holds different tweets, is non-increasing, and no member outside the prefix scores higher than one inside |
| RedisTwitter.TimelineMostRecentFirst | twitter_api_redis.py:97-127 | on a consistent store with limit >= 1, getTimeline returns the min(limit, entries) most recent entries, each once, newest first |
| RedisTwitter.TwitterApi.ClearFollows | twitter_api_redis.py:38-46 | the new state is FollowsCleared of the old |
| RedisTwitter.TwitterApi.ClearTweets | twitter_api_redis.py:48-59 | the new state is TweetsCleared of the old |
| RedisTwitter.TwitterApi.PostTweet | twitter_api_redis.py:61-95 | INCR, HSET, ZADD, then the loop over the followers; the new state is Posted of the old, with the loop invariant tying the partial fan-out to FanOut |
| RedisTwitter.TwitterApi.GetTimeline | twitter_api_redis.py:97-127 | the early return on no ids and the read loop give exactly Timeline of the current state |
| RedisTwitter.TwitterApi.AddFollow | twitter_api_redis.py:129-137 | the new state is Followed of the old |
| RedisTwitter.FanOutOneMore | twitter_api_redis.py:89-95 | one iteration of the follower loop moves one follower from pending to done in the FanOut summary of the store |
| SqlTwitter.FollowsTruncated | twitter_api.py:23-27 | TRUNCATE follows empties that table and leaves the tweet table alone |
| SqlTwitter.TweetTruncated | twitter_api.py:29-33 | TRUNCATE tweet empties that table and leaves the follows table alone |
| SqlTwitter.Inserted | twitter_api.py:35-46 | INSERT adds exactly one row at the end with the tweet's author and text; earlier rows and the follows table are unchanged |
| SqlTwitter.TwitterApi.ClearFollows | twitter_api.py:23-27 | the new tables are FollowsTruncated of the old |
| SqlTwitter.TwitterApi.ClearTweets | twitter_api.py:29-33 | the new tables are TweetTruncated of the old |
| SqlTwitter.TwitterApi.PostTweet | twitter_api.py:35-46 | the new tables are Inserted of the old |
| SqlTwitter.Take | twitter_api.py:59 | LIMIT n returns a prefix of at most n rows, and every row when there are fewer |
| SqlTwitter.ByTsDesc | twitter_api.py:58 | ORDER BY tweet_ts DESC permutes its input into non-increasing timestamp order |
| SqlTwitter.Matches | twitter_api.py:55-57 | the JOIN of one tweet row with the follows rows; its contract is stated by MatchesMembers and FanOutEquivalence.MatchesCount |
| SqlTwitter.Joined | twitter_api.py:54-57 | the JOIN over all tweet rows; its contract is stated by JoinedMembers and FanOutEquivalence.JoinedOnce |
| SqlTwitter.Timeline | twitter_api.py:48-75 | getTimeline's result; its contract is stated by TimelineFromFollowees and TimelineMostRecent |
| SqlTwitter.MatchesMembers | twitter_api.py:55-57 | a tweet row joins only as its own projection, and joins at least once if and only if the user follows its author |
| SqlTwitter.JoinedMembers | twitter_api.py:54-57 | the join yields exactly the projected rows whose author the user follows |
| SqlTwitter.TimelineFromFollowees | twitter_api.py:48-75 | getTimeline succeeds if and only if limit >= 0; then it returns exactly min(limit, size of the join) tweets, newest first, each a stored row by a followee |
| SqlTwitter.PrefixMostRecent | twitter_api.py:58-59 | what LIMIT leaves out of a listing ordered newest first, counting each copy it cuts, is no newer than anything it keeps |
| SqlTwitter.TimelineMostRecent | twitter_api.py:48-75 | the result is drawn from the join, no tweet more often than the join lists it; no joined tweet left out, counting each copy cut from a repeated join row, is newer than one returned, and when the join fits in the limit every joined tweet is returned |
| SqlTwitter.Followers | twitter_api.py:78-86 | getFollowers' result; its contract is stated by FollowersCount and FollowersFolloweesConverse |
| SqlTwitter.Followees | twitter_api.py:88-96 | getFollowees' result; its contract is stated by FolloweesCount and FollowersFolloweesConverse |
| SqlTwitter.FollowersCount | twitter_api.py:78-86 | getFollowers(y) lists x once for each follows row (x, y) |
| SqlTwitter.FolloweesCount | twitter_api.py:88-96 | getFollowees(x) lists y once for each follows row (x, y) |
| SqlTwitter.FollowersFolloweesConverse | twitter_api.py:78-96 | x is among y's followers if and only if (x, y) is a row, if and only if y is among x's followees, with equal counts |
| SqlTwitter.ByAuthor | twitter_api.py:100-106 | the WHERE user_id filter of getTweets; its contract is stated by ByAuthorCount and ByAuthorMembers |
| SqlTwitter.Tweets | twitter_api.py:98-123 | getTweets' result; its contract is stated by TweetsOfUser |
| SqlTwitter.ByAuthorCount | twitter_api.py:100-106 | the WHERE user_id filter lists each row of the user exactly as often as the table holds it, and no other row |
| SqlTwitter.ByAuthorMembers | twitter_api.py:100-106 | the WHERE user_id filter keeps exactly the rows by that user |
| SqlTwitter.TweetsOfUser | twitter_api.py:98-123 | getTweets returns the user's rows, projected, newest first, each exactly as often as the table holds it, and nothing else |
| FanOutEquivalence.FollowAllGraph | redis_app.py:29-40 | loading the follows rows through addFollow adds exactly the rows to both the followers and the following index; the tweets, authored sets, timelines and counter are unchanged |
| FanOutEquivalence.PostAllTweets | redis_app.py:47-57 | posting n tweets into a cleared store numbers them 1..n and stores each one's author, text and timestamp |
| FanOutEquivalence.PostAllTimeline | redis_app.py:47-57 | posting into a cleared store puts into a user's timeline exactly the posts by authors the user follows, scored by timestamp |
| FanOutEquivalence.PostAllCounter | twitter_api_redis.py:66 | each post advances the counter by one and leaves the follow graph alone |
| FanOutEquivalence.PostOneTimeline | twitter_api_redis.py:86-95 | one post adds its id to a user's timeline exactly when the user follows the author |
| FanOutEquivalence.LoadRedisState | redis_app.py:15-57 | after clearTweets, clearFollows, all follows, then all posts, the hashes and each timeline are as the load describes |
| FanOutEquivalence.InsertAllRows | app.py:41-51 | inserting the posts into an empty tweet table yields row i with id i+1, the post's author, text and timestamp |
| FanOutEquivalence.MatchesCount | twitter_api.py:55-57 | the join lists a tweet row once per follows row that matches it |
| FanOutEquivalence.JoinedOnce | twitter_api.py:55-57 | without duplicate follows rows, and with distinct row ids, the join repeats no tweet |
| FanOutEquivalence.RedisListing | twitter_api_redis.py:103-125 | the whole hydrated Redis timeline is strictly newest first and shows exactly the followed posts |
| FanOutEquivalence.SqlListing | twitter_api.py:53-58 | the ordered join is strictly newest first and shows exactly the followed posts |
| FanOutEquivalence.FullListingsAgree | twitter_api.py:53-58 | the whole Redis listing and the whole ordered join are the same sequence |
| FanOutEquivalence.TimelinesAgree | twitter_api.py:48-75 | with follows loaded before posts, no duplicate follows row, distinct timestamps and limit >= 1, getTimeline by join returns Ok of exactly the fan-out-on-write timeline |
| FanOutEquivalence.LoadedAgree | twitter_api_redis.py:97-127 | the same equality, stated on any store and tables in the loaded shape |
| FanOutEquivalence.TopOfFullListing | twitter_api_redis.py:103-125 | the top-limit read is the first min(limit, size) tweets of the whole hydrated ranking |
| FanOutEquivalence.NoBackfill | twitter_api_redis.py:129-137 | a follow recorded after a post: the join shows the tweet, the precomputed timeline does not |
| FanOutEquivalence.DuplicateRowRepeatsTweet | twitter_api.py:53-59 | a repeated follows row makes the join return the tweet twice, while Redis returns it once |
| FanOutEquivalence.JoinTwice | twitter_api.py:53-59 | the join half of DuplicateRowRepeatsTweet |
| FanOutEquivalence.LimitZeroDiffers | twitter_api_redis.py:103-108 | with limit 0 the join returns nothing while the range query returns the whole timeline |
| FanOutEquivalence.OneFollowedPost | twitter_api_redis.py:97-127 | one post by a followee is the whole Redis timeline for any positive limit |

## Left out

- Connections: `__init__` and `close` of both classes, and the Redis and MySQL clients themselves, are not modelled; the state is the data they hold.
- Clock: `time.time()` in the Redis `postTweet`, and MySQL's `tweet_ts` default, become parameters (`timestamp`, `assignedTs`). The float that Redis stores as a string and reads back with `float(...)` is an integer `Timestamp` here.
- Auto-increment: the MySQL `tweet_id` default is the parameter `assignedId`. The load traces assume it numbers the rows 1, 2, ... from an empty table.
- `KEYS` globbing in the clear operations is modelled as deleting the matching key families as a whole; no other key families exist in the model.
- Concurrency and failures: `INCR` atomicity, interleaved clients, a fan-out interrupted half-way, and the counter's 64-bit overflow are not modelled.
- RedisTwitter.Rank: ties between equal scores are broken by the descending decimal string of the member id, as Redis orders them. No general contract states that tie order; TieByMemberString shows it on one example.
- SqlTwitter.ByTsDesc: MySQL leaves the order of equal timestamps open. The model fixes one order, and the contracts state only that the timestamps are non-increasing.
- SqlTwitter.TimelineFromFollowees: `LIMIT` with a negative value is modelled as an error value; the exception MySQL raises and its message are not.
- `__repr__` of `Tweet` (text truncated to 30 characters) is display only.
- The benchmark scripts' timing, CSV parsing, batching and random user choice are not modelled. Only the order of their calls is kept (`LoadRedis`, `LoadSql`). The MySQL script as written does not clear its tables before loading; `LoadSql` starts from empty tables.
- `getTimeline`'s default `limit=10` is not modelled; the limit is always passed.
