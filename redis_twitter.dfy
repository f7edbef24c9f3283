/**
 The fan-out-on-write timeline engine over a Redis keyspace. Every key
 family the engine uses is a typed field of its own:

   tweet_counter            counter     (0 when the key does not exist)
   tweet:{id}               tweets      (hash user_id, tweet_text, tweet_ts)
   user:{id}:tweets         authored    (sorted set, member tweet id, score timestamp)
   user:{id}:timeline       timelines   (sorted set, member tweet id, score timestamp)
   user:{id}:following      following   (set of user ids)
   user:{id}:followers      followers   (set of user ids)

 Redis drops a collection key once it is empty, so a user missing from a
 map and a user mapped to an empty collection mean the same thing.
 */
module RedisTwitter {
  import opened TwitterObjects
  import Ranking

  /** A sorted set: each member (a tweet id) with its score (a timestamp). */
  type ZSet = map<int, Timestamp>

  /** The fields of the hash stored under tweet:{id}. */
  datatype TweetRecord = TweetRecord(userId: int, tweetText: string, tweetTs: Timestamp)

  /** The part of the keyspace the engine reads and writes. */
  datatype Store = Store(
    counter: int,
    tweets: map<int, TweetRecord>,
    authored: map<int, ZSet>,
    timelines: map<int, ZSet>,
    following: map<int, set<int>>,
    followers: map<int, set<int>>)

  /** A keyspace holding none of the engine's keys. */
  const EmptyStore := Store(0, map[], map[], map[], map[], map[])

  /** The sorted set stored for `userId`; the empty set when the key is missing. */
  function ZGet(m: map<int, ZSet>, userId: int): ZSet
  {
    if userId in m then m[userId] else map[]
  }

  /** The set stored for `userId`; the empty set when the key is missing (SMEMBERS). */
  function Members(m: map<int, set<int>>, userId: int): set<int>
  {
    if userId in m then m[userId] else {}
  }

  /** ZADD of one member: inserts it, or moves it to the new score if present. */
  function ZAdd(z: ZSet, member: int, score: Timestamp): (r: ZSet)
    ensures member in r && r[member] == score
    ensures forall m :: m != member ==> (m in r <==> m in z)
    ensures forall m :: m in z && m != member ==> r[m] == z[m]
  {
    z[member := score]
  }

  /** The score of `member`, or 0 when it is not in the set. */
  function Score(z: ZSet, member: int): int
  {
    if member in z then z[member] else 0
  }

  // ---------------------------------------------------------------------
  // Member order inside a sorted set

  function DigitChar(d: nat): char
    requires d < 10
  {
    "0123456789"[d]
  }

  /** The decimal digits of `n`. */
  function Digits(n: nat): string
    decreases n
  {
    if n < 10 then [DigitChar(n)] else Digits(n / 10) + [DigitChar(n % 10)]
  }

  /** The string Redis stores for the integer member `n`. */
  function Decimal(n: int): string
  {
    if n < 0 then "-" + Digits(-n) else Digits(n)
  }

  /** Byte-wise comparison of two member strings, a proper prefix coming first. */
  predicate LexLess(a: string, b: string)
  {
    if a == [] then b != []
    else if b == [] then false
    else if a[0] != b[0] then a[0] < b[0]
    else LexLess(a[1..], b[1..])
  }

  /** A non-empty set has a member to pick. */
  lemma HasMember(s: set<int>)
    requires s != {}
    ensures exists y :: y in s
  {
    if forall y :: y !in s {
      assert false;
    }
  }

  /** The least element of a non-empty set of integers. */
  lemma LeastExists(s: set<int>)
    requires s != {}
    ensures exists m :: m in s && forall y :: y in s ==> m <= y
    decreases |s|
  {
    HasMember(s);
    var x :| x in s;
    var rest := s - {x};
    if rest == {} {
      forall y | y in s ensures x <= y {
        assert y !in rest;
      }
    } else {
      LeastExists(rest);
      var m :| m in rest && forall y :: y in rest ==> m <= y;
      var least := if x < m then x else m;
      forall y | y in s ensures least <= y {
        if y != x {
          assert y in rest;
        }
      }
      assert least in s;
    }
  }

  function Least(s: set<int>): (m: int)
    requires s != {}
    ensures m in s && forall y :: y in s ==> m <= y
  {
    LeastExists(s);
    var m :| m in s && forall y :: y in s ==> m <= y;
    m
  }

  /** The members of `s` in ascending numeric order. */
  function Ascending(s: set<int>): (r: seq<int>)
    ensures multiset(r) == multiset(s)
    decreases |s|
  {
    if s == {} then []
    else
      var m := Least(s);
      var rest := Ascending(s - {m});
      assert s == (s - {m}) + {m};
      assert multiset(s) == multiset(s - {m}) + multiset{m};
      [m] + rest
  }

  /**
   All members of `z` in ZREVRANGE order: highest score first, and between
   equal scores the greater member string first.
   */
  function Rank(z: ZSet): (r: seq<int>)
    ensures multiset(r) == multiset(z.Keys)
    ensures |r| == |z|
    ensures forall i :: 0 <= i < |r| ==> r[i] in z
    ensures forall i, j :: 0 <= i < j < |r| ==> Score(z, r[i]) >= Score(z, r[j])
  {
    var key := (m: int) => Score(z, m);
    var r := Ranking.SortDesc(Ascending(z.Keys), key, (a: int, b: int) => LexLess(Decimal(b), Decimal(a)));
    Ranking.SortDescSorted(Ascending(z.Keys), key, (a: int, b: int) => LexLess(Decimal(b), Decimal(a)));
    assert |r| == |multiset(r)| == |multiset(z.Keys)| == |z.Keys|;
    assert forall i :: 0 <= i < |r| ==> r[i] in multiset(r);
    r
  }

  /** The members of a ranking are exactly the members of the set, each listed once. */
  lemma RankMembers(z: ZSet)
    ensures forall m :: m in Rank(z) <==> m in z
    ensures forall i, j :: 0 <= i < j < |Rank(z)| ==> Rank(z)[i] != Rank(z)[j]
  {
    var r := Rank(z);
    forall m ensures m in r <==> m in z {
      assert m in r <==> m in multiset(r);
    }
    forall i, j | 0 <= i < j < |r| ensures r[i] != r[j] {
      if r[i] == r[j] {
        Ranking.RepeatedTwice(r, i, j);
        assert false;
      }
    }
  }

  /**
   ZREVRANGE z start stop: the ranks start..stop (inclusive) of the ranking,
   where a negative index counts back from the end, as Redis normalises it.
   */
  function ZRevRange(z: ZSet, start: int, stop: int): (r: seq<int>)
    ensures |r| <= |z|
    ensures forall i :: 0 <= i < |r| ==> r[i] in z
  {
    var ranked := Rank(z);
    var n := |ranked|;
    var lo := if start < 0 then start + n else start;
    var hi := if stop < 0 then stop + n else stop;
    var lo := if lo < 0 then 0 else lo;
    if lo > hi || lo >= n then []
    else ranked[lo .. if hi >= n then n else hi + 1]
  }

  /** For a positive `count`, ZREVRANGE z 0 (count - 1) is the top `count` of the ranking. */
  lemma ZRevRangeTop(z: ZSet, count: int)
    requires count >= 1
    ensures ZRevRange(z, 0, count - 1) == Rank(z)[..if count < |z| then count else |z|]
  {
  }

  /** ZREVRANGE z 0 -1 is the whole ranking: a stop of -1 means the last rank. */
  lemma ZRevRangeWhole(z: ZSet)
    ensures ZRevRange(z, 0, -1) == Rank(z)
  {
  }

  /**
   A negative `limit` makes the stop index limit - 1 count back from the
   end: ZREVRANGE then drops the lowest -limit ranks and returns the rest.
   */
  lemma ZRevRangeNegative(z: ZSet, limit: int)
    requires limit < 0
    ensures ZRevRange(z, 0, limit - 1) == Rank(z)[..if |z| + limit < 0 then 0 else |z| + limit]
  {
  }

  /**
   Redis breaks a tie in score by the member string, greater first: of ids
   9 and 10 with equal scores, 9 ranks first although 10 is the later id.
   */
  lemma TieByMemberString()
    ensures Rank(map[9 := 5, 10 := 5]) == [9, 10]
  {
    var z := map[9 := 5, 10 := 5];
    assert z.Keys == {9, 10};
    assert Least({9, 10}) == 9;
    assert {9, 10} - {9} == {10};
    assert Least({10}) == 10;
    assert {10} - {10} == {};
    assert Ascending(z.Keys) == [9, 10];
    assert Decimal(9) == "9" && Decimal(10) == "10";
    assert LexLess("10", "9");
  }

  // ---------------------------------------------------------------------
  // The store's consistency

  /**
   What the engine's operations keep true of the keyspace: tweet ids lie in
   1..counter, every sorted-set entry names a stored tweet and is scored by
   its timestamp, every tweet is in its author's authored set, and the
   following and followers sets are converse.
   */
  ghost predicate Valid(s: Store)
  {
    && s.counter >= 0
    && (forall id :: id in s.tweets ==> 1 <= id <= s.counter)
    && (forall u, id :: u in s.authored && id in s.authored[u] ==>
          id in s.tweets && s.tweets[id].userId == u && s.authored[u][id] == s.tweets[id].tweetTs)
    && (forall id :: id in s.tweets ==>
          s.tweets[id].userId in s.authored && id in s.authored[s.tweets[id].userId])
    && (forall u, id :: u in s.timelines && id in s.timelines[u] ==>
          id in s.tweets && s.timelines[u][id] == s.tweets[id].tweetTs)
    && (forall a, b :: b in Members(s.following, a) <==> a in Members(s.followers, b))
  }

  lemma EmptyStoreValid()
    ensures Valid(EmptyStore)
  {
  }

  // ---------------------------------------------------------------------
  // The operations as functions of the keyspace

  /** clearFollows: deletes every following and followers set. */
  function FollowsCleared(s: Store): (r: Store)
    ensures forall u :: Members(r.following, u) == {} && Members(r.followers, u) == {}
    ensures r.counter == s.counter && r.tweets == s.tweets
    ensures r.authored == s.authored && r.timelines == s.timelines
    ensures Valid(s) ==> Valid(r)
  {
    s.(following := map[], followers := map[])
  }

  /** clearTweets: deletes every tweet hash, authored set and timeline, and the counter. */
  function TweetsCleared(s: Store): (r: Store)
    ensures r.counter == 0 && r.tweets == map[]
    ensures forall u :: ZGet(r.authored, u) == map[] && ZGet(r.timelines, u) == map[]
    ensures r.following == s.following && r.followers == s.followers
    ensures Valid(s) ==> Valid(r)
  {
    s.(counter := 0, tweets := map[], authored := map[], timelines := map[])
  }

  /** addFollow: `followerId` follows `followeeId`; both indexes gain the edge. */
  function Followed(s: Store, followerId: int, followeeId: int): (r: Store)
    ensures followeeId in Members(r.following, followerId)
    ensures followerId in Members(r.followers, followeeId)
    ensures forall u :: u != followerId ==> Members(r.following, u) == Members(s.following, u)
    ensures forall u :: u != followeeId ==> Members(r.followers, u) == Members(s.followers, u)
    ensures Members(r.following, followerId) - {followeeId} == Members(s.following, followerId) - {followeeId}
    ensures Members(r.followers, followeeId) - {followerId} == Members(s.followers, followeeId) - {followerId}
    ensures r.counter == s.counter && r.tweets == s.tweets
    ensures r.authored == s.authored && r.timelines == s.timelines
    ensures Valid(s) ==> Valid(r)
  {
    s.(following := s.following[followerId := Members(s.following, followerId) + {followeeId}],
       followers := s.followers[followeeId := Members(s.followers, followeeId) + {followerId}])
  }

  /** The timelines after `id` with score `score` is added to those of every user in `recipients`. */
  function FanOut(timelines: map<int, ZSet>, recipients: set<int>, id: int, score: Timestamp): (r: map<int, ZSet>)
    ensures forall v :: v in recipients ==> ZGet(r, v) == ZAdd(ZGet(timelines, v), id, score)
    ensures forall v :: v !in recipients ==> ZGet(r, v) == ZGet(timelines, v)
  {
    map v | v in timelines.Keys + recipients ::
      if v in recipients then ZAdd(ZGet(timelines, v), id, score) else timelines[v]
  }

  /**
   postTweet: takes the next id from the counter, stores the tweet hash with
   the author, the text and `timestamp` (the tweet's own id and timestamp are
   not used), adds the id to the author's authored set, and adds it to the
   timeline of every user in the author's current follower set.
   */
  function Posted(s: Store, tweet: Tweet, timestamp: Timestamp): Store
  {
    var id := s.counter + 1;
    s.(counter := id,
       tweets := s.tweets[id := TweetRecord(tweet.userId, tweet.tweetText, timestamp)],
       authored := s.authored[tweet.userId := ZAdd(ZGet(s.authored, tweet.userId), id, timestamp)],
       timelines := FanOut(s.timelines, Members(s.followers, tweet.userId), id, timestamp))
  }

  /** The tweet the read path builds from the hash stored for `id`. */
  function Stored(id: int, rec: TweetRecord): Tweet
  {
    Tweet(Some(id), rec.userId, rec.tweetText, Some(rec.tweetTs))
  }

  /** The tweets stored for `ids`, in order, skipping ids that have no hash. */
  function Hydrate(tweets: map<int, TweetRecord>, ids: seq<int>): (r: seq<Tweet>)
    ensures |r| <= |ids|
  {
    if ids == [] then []
    else
      var id := ids[|ids| - 1];
      Hydrate(tweets, ids[..|ids| - 1]) + (if id in tweets then [Stored(id, tweets[id])] else [])
  }

  /**
   getTimeline: the tweets of the top `limit` entries of the user's
   timeline, highest score first (ZREVRANGE 0 limit-1), each read from its
   hash; entries without a hash are skipped.
   */
  function Timeline(s: Store, userId: int, limit: int): seq<Tweet>
  {
    var ids := ZRevRange(ZGet(s.timelines, userId), 0, limit - 1);
    if ids == [] then [] else Hydrate(s.tweets, ids)
  }

  // ---------------------------------------------------------------------
  // What the operations promise

  /** Under a consistent store the counter's next value names no stored tweet and no sorted-set entry. */
  lemma NextIdUnused(s: Store)
    requires Valid(s)
    ensures s.counter + 1 !in s.tweets
    ensures forall id :: id in s.tweets ==> id < s.counter + 1
    ensures forall u :: u in s.authored ==> s.counter + 1 !in s.authored[u]
    ensures forall u :: u in s.timelines ==> s.counter + 1 !in s.timelines[u]
  {
  }

  /**
   postTweet takes the counter's next value as the new id: it is greater
   than every id already stored, and the store stays consistent.
   */
  lemma PostTakesFreshId(s: Store, tweet: Tweet, timestamp: Timestamp)
    requires Valid(s)
    ensures var r := Posted(s, tweet, timestamp);
            && r.counter == s.counter + 1
            && (forall id :: id in s.tweets ==> id < r.counter)
            && r.counter !in s.tweets
            && Valid(r)
  {
    NextIdUnused(s);
    PostKeepsAuthored(s, tweet, timestamp);
    PostKeepsTimelines(s, tweet, timestamp);
  }

  lemma PostKeepsAuthored(s: Store, tweet: Tweet, timestamp: Timestamp)
    requires Valid(s)
    ensures var r := Posted(s, tweet, timestamp);
            && (forall u, t :: u in r.authored && t in r.authored[u] ==>
                  t in r.tweets && r.tweets[t].userId == u && r.authored[u][t] == r.tweets[t].tweetTs)
            && (forall t :: t in r.tweets ==>
                  r.tweets[t].userId in r.authored && t in r.authored[r.tweets[t].userId])
  {
    var r := Posted(s, tweet, timestamp);
    var id := r.counter;
    NextIdUnused(s);
    forall u, t | u in r.authored && t in r.authored[u]
      ensures t in r.tweets && r.tweets[t].userId == u && r.authored[u][t] == r.tweets[t].tweetTs
    {
      if t != id {
        assert u in s.authored && t in s.authored[u];
      }
    }
    forall t | t in r.tweets
      ensures r.tweets[t].userId in r.authored && t in r.authored[r.tweets[t].userId]
    {
      if t != id {
        assert t in s.tweets;
        assert t in ZGet(s.authored, s.tweets[t].userId);
      }
    }
  }

  lemma PostKeepsTimelines(s: Store, tweet: Tweet, timestamp: Timestamp)
    requires Valid(s)
    ensures var r := Posted(s, tweet, timestamp);
            forall u, t :: u in r.timelines && t in r.timelines[u] ==>
              t in r.tweets && r.timelines[u][t] == r.tweets[t].tweetTs
  {
    var r := Posted(s, tweet, timestamp);
    var id := r.counter;
    NextIdUnused(s);
    forall u, t | u in r.timelines && t in r.timelines[u]
      ensures t in r.tweets && r.timelines[u][t] == r.tweets[t].tweetTs
    {
      assert ZGet(r.timelines, u) == r.timelines[u];
      if t != id {
        assert t in ZGet(s.timelines, u);
      }
    }
  }

  /** After clearTweets the counter starts over: the next tweet gets id 1. */
  lemma ClearTweetsRestartsIds(s: Store, tweet: Tweet, timestamp: Timestamp)
    ensures Posted(TweetsCleared(s), tweet, timestamp).counter == 1
    ensures Posted(TweetsCleared(s), tweet, timestamp).tweets
              == map[1 := TweetRecord(tweet.userId, tweet.tweetText, timestamp)]
  {
  }

  /**
   The hash stored for the new id holds the author, the text and the given
   timestamp; no other hash changes.
   */
  lemma PostStoresRecord(s: Store, tweet: Tweet, timestamp: Timestamp)
    ensures var r := Posted(s, tweet, timestamp);
            && r.counter in r.tweets
            && r.tweets[r.counter] == TweetRecord(tweet.userId, tweet.tweetText, timestamp)
            && (forall id :: id != r.counter ==> (id in r.tweets <==> id in s.tweets))
            && (forall id :: id != r.counter && id in s.tweets ==> r.tweets[id] == s.tweets[id])
  {
  }

  /** The id and timestamp carried by the tweet handed to postTweet play no part. */
  lemma PostIgnoresTweetIdAndTs(s: Store, t1: Tweet, t2: Tweet, timestamp: Timestamp)
    requires t1.userId == t2.userId && t1.tweetText == t2.tweetText
    ensures Posted(s, t1, timestamp) == Posted(s, t2, timestamp)
  {
  }

  /**
   postTweet adds (id, timestamp) to the author's authored set and to the
   timeline of exactly the author's current followers; every other
   authored set and timeline is unchanged, and so is the social graph.
   */
  lemma PostFansOutToCurrentFollowers(s: Store, tweet: Tweet, timestamp: Timestamp)
    ensures var r := Posted(s, tweet, timestamp);
            var recipients := Members(s.followers, tweet.userId);
            && (forall v :: v in recipients ==> ZGet(r.timelines, v) == ZGet(s.timelines, v)[r.counter := timestamp])
            && (forall v :: v !in recipients ==> ZGet(r.timelines, v) == ZGet(s.timelines, v))
            && ZGet(r.authored, tweet.userId) == ZGet(s.authored, tweet.userId)[r.counter := timestamp]
            && (forall v :: v != tweet.userId ==> ZGet(r.authored, v) == ZGet(s.authored, v))
            && r.following == s.following && r.followers == s.followers
  {
  }

  /** The author's own timeline gains the tweet only when the author follows itself. */
  lemma PostReachesAuthorOnlyIfSelfFollower(s: Store, tweet: Tweet, timestamp: Timestamp)
    requires Valid(s)
    ensures var r := Posted(s, tweet, timestamp);
            (r.counter in ZGet(r.timelines, tweet.userId)) <==> (tweet.userId in Members(s.following, tweet.userId))
  {
    var r := Posted(s, tweet, timestamp);
    assert r.counter !in s.tweets;
    assert r.counter !in ZGet(s.timelines, tweet.userId);
  }

  /** Following twice leaves the same graph as following once. */
  lemma FollowIdempotent(s: Store, followerId: int, followeeId: int)
    ensures Followed(Followed(s, followerId, followeeId), followerId, followeeId)
            == Followed(s, followerId, followeeId)
  {
    var once := Followed(s, followerId, followeeId);
    assert Members(once.following, followerId) + {followeeId} == Members(once.following, followerId);
    assert Members(once.followers, followeeId) + {followerId} == Members(once.followers, followeeId);
    assert once.following[followerId := Members(once.following, followerId)] == once.following;
    assert once.followers[followeeId := Members(once.followers, followeeId)] == once.followers;
  }

  /** Which stored tweets the read path can produce from a list of ids. */
  lemma {:induction false} HydrateMembers(tweets: map<int, TweetRecord>, ids: seq<int>)
    ensures forall t :: t in Hydrate(tweets, ids) ==>
              t.tweetId.Some? && t.tweetId.value in ids && t.tweetId.value in tweets
              && t == Stored(t.tweetId.value, tweets[t.tweetId.value])
    ensures forall id :: id in ids && id in tweets ==> Stored(id, tweets[id]) in Hydrate(tweets, ids)
    decreases |ids|
  {
    if ids != [] {
      var init := ids[..|ids| - 1];
      HydrateMembers(tweets, init);
      assert ids == init + [ids[|ids| - 1]];
      forall id | id in ids ensures id in init || id == ids[|ids| - 1] {
      }
    }
  }

  /** When every id has a hash, the read path keeps them all, in order. */
  lemma {:induction false} HydrateAllPresent(tweets: map<int, TweetRecord>, ids: seq<int>)
    requires forall i :: 0 <= i < |ids| ==> ids[i] in tweets
    ensures |Hydrate(tweets, ids)| == |ids|
    ensures forall i :: 0 <= i < |ids| ==> Hydrate(tweets, ids)[i] == Stored(ids[i], tweets[ids[i]])
    decreases |ids|
  {
    if ids != [] {
      var init := ids[..|ids| - 1];
      HydrateAllPresent(tweets, init);
    }
  }

  /** For a positive limit, getTimeline returns at most `limit` tweets. */
  lemma TimelineAtMostLimit(s: Store, userId: int, limit: int)
    requires limit >= 1
    ensures |Timeline(s, userId, limit)| <= limit
  {
    ZRevRangeTop(ZGet(s.timelines, userId), limit);
  }

  /**
   A limit of 0 asks ZREVRANGE for ranks 0..-1, which Redis reads as the
   whole set: getTimeline then returns every entry, not none.
   */
  lemma TimelineLimitZeroIsWhole(s: Store, userId: int)
    ensures Timeline(s, userId, 0) == Hydrate(s.tweets, Rank(ZGet(s.timelines, userId)))
  {
    ZRevRangeWhole(ZGet(s.timelines, userId));
  }

  /** A user without timeline entries gets the empty timeline, not an error. */
  lemma TimelineEmptyWithoutEntries(s: Store, userId: int, limit: int)
    requires ZGet(s.timelines, userId) == map[]
    ensures Timeline(s, userId, limit) == []
  {
  }

  /**
   Every tweet getTimeline returns is read from the hash of an entry of the
   user's timeline; entries without a hash are skipped rather than failing.
   */
  lemma TimelineSkipsMissing(s: Store, userId: int, limit: int)
    ensures forall t :: t in Timeline(s, userId, limit) ==>
              && t.tweetId.Some?
              && t.tweetId.value in ZGet(s.timelines, userId)
              && t.tweetId.value in s.tweets
              && t == Stored(t.tweetId.value, s.tweets[t.tweetId.value])
  {
    var ids := ZRevRange(ZGet(s.timelines, userId), 0, limit - 1);
    HydrateMembers(s.tweets, ids);
  }

  /** On a consistent store every timeline entry names a stored tweet and is scored by its timestamp. */
  lemma ValidTimelineEntries(s: Store, userId: int)
    requires Valid(s)
    ensures forall id :: id in ZGet(s.timelines, userId) ==>
              id in s.tweets && ZGet(s.timelines, userId)[id] == s.tweets[id].tweetTs
  {
  }

  /**
   The tweets read for the first `k` members of the ranking of a sorted set
   whose every member has a hash scored by its timestamp: one per member,
   newest first.
   */
  lemma {:induction false} RankPrefixHydrated(tweets: map<int, TweetRecord>, z: ZSet, k: nat)
    requires k <= |z|
    requires forall id :: id in z ==> id in tweets && z[id] == tweets[id].tweetTs
    ensures var ranked := Rank(z);
            var r := Hydrate(tweets, ranked[..k]);
            && |r| == k
            && (forall i :: 0 <= i < k ==> r[i] == Stored(ranked[i], tweets[ranked[i]]))
            && (forall i :: 0 <= i < k ==> TsKey(r[i]) == Score(z, ranked[i]))
  {
    var ranked := Rank(z);
    RankMembers(z);
    HydrateAllPresent(tweets, ranked[..k]);
  }

  /**
   The tweets read for the top `count` members of a sorted set whose every
   member has a hash scored by its timestamp: min(count, |z|) of them,
   each a different member, newest first, and no member left out is newer
   than one kept.
   */
  lemma {:induction false} TopHydrated(tweets: map<int, TweetRecord>, z: ZSet, count: int)
    requires count >= 1
    requires forall id :: id in z ==> id in tweets && z[id] == tweets[id].tweetTs
    ensures var r := Hydrate(tweets, ZRevRange(z, 0, count - 1));
            && |r| == (if count < |z| then count else |z|)
            && (forall i, j :: 0 <= i < j < |r| ==> r[i] != r[j])
            && (forall i, j :: 0 <= i < j < |r| ==> TsKey(r[i]) >= TsKey(r[j]))
            && (forall id, t :: id in z && id in tweets && Stored(id, tweets[id]) !in r && t in r ==> z[id] <= TsKey(t))
  {
    var ranked := Rank(z);
    var k := if count < |z| then count else |z|;
    ZRevRangeTop(z, count);
    RankPrefixHydrated(tweets, z, k);
    RankMembers(z);
    PrefixNewest(tweets, z, ranked, Hydrate(tweets, ranked[..k]), k);
  }

  /**
   The hydrated first `k` ids of a ranking by score that repeats no id are
   different tweets, newest first, and none left out is newer.
   */
  lemma PrefixNewest(tweets: map<int, TweetRecord>, z: ZSet, ranked: seq<int>, r: seq<Tweet>, k: nat)
    requires k <= |ranked| && |r| == k
    requires forall i, j :: 0 <= i < j < |ranked| ==> ranked[i] != ranked[j]
    requires forall id :: id in z ==> id in ranked
    requires forall i, j :: 0 <= i < j < |ranked| ==> Score(z, ranked[i]) >= Score(z, ranked[j])
    requires forall i :: 0 <= i < k ==> ranked[i] in tweets && r[i] == Stored(ranked[i], tweets[ranked[i]])
    requires forall i :: 0 <= i < k ==> TsKey(r[i]) == Score(z, ranked[i])
    ensures forall i, j :: 0 <= i < j < |r| ==> r[i] != r[j]
    ensures forall i, j :: 0 <= i < j < |r| ==> TsKey(r[i]) >= TsKey(r[j])
    ensures forall id, t :: id in z && id in tweets && Stored(id, tweets[id]) !in r && t in r ==> z[id] <= TsKey(t)
  {
    forall i, j | 0 <= i < j < |r| ensures r[i] != r[j] {
      assert r[i].tweetId == Some(ranked[i]) && r[j].tweetId == Some(ranked[j]);
    }
    forall id, t | id in z && id in tweets && Stored(id, tweets[id]) !in r && t in r ensures z[id] <= TsKey(t) {
      var i :| 0 <= i < |r| && r[i] == t;
      var p :| 0 <= p < |ranked| && ranked[p] == id;
      forall q | 0 <= q < k ensures ranked[q] != id {
        assert r[q] in r;
      }
      assert p > i;
    }
  }

  /**
   On a consistent store and a positive limit, getTimeline returns the
   min(limit, entries) most recent entries of the user's timeline, each
   once, newest first: any entry left out is no newer than every tweet
   returned.
   */
  lemma TimelineMostRecentFirst(s: Store, userId: int, limit: int)
    requires Valid(s) && limit >= 1
    ensures var z := ZGet(s.timelines, userId);
            var r := Timeline(s, userId, limit);
            && |r| == (if limit < |z| then limit else |z|)
            && (forall i, j :: 0 <= i < j < |r| ==> r[i] != r[j])
            && (forall i, j :: 0 <= i < j < |r| ==> TsKey(r[i]) >= TsKey(r[j]))
            && (forall id, t :: id in z && id in s.tweets && Stored(id, s.tweets[id]) !in r && t in r ==> z[id] <= TsKey(t))
  {
    ValidTimelineEntries(s, userId);
    TopHydrated(s.tweets, ZGet(s.timelines, userId), limit);
  }

  // ---------------------------------------------------------------------
  // The engine, updating the keyspace in place

  class TwitterApi {
    var counter: int
    var tweets: map<int, TweetRecord>
    var authored: map<int, ZSet>
    var timelines: map<int, ZSet>
    var following: map<int, set<int>>
    var followers: map<int, set<int>>

    /** The keyspace as a value. */
    function State(): Store
      reads this
    {
      Store(counter, tweets, authored, timelines, following, followers)
    }

    method ClearFollows()
      modifies this
      ensures State() == FollowsCleared(old(State()))
    {
      following := map[];
      followers := map[];
    }

    method ClearTweets()
      modifies this
      ensures State() == TweetsCleared(old(State()))
    {
      tweets := map[];
      authored := map[];
      timelines := map[];
      counter := 0;
    }

    method PostTweet(tweet: Tweet, timestamp: Timestamp)
      modifies this
      ensures State() == Posted(old(State()), tweet, timestamp)
    {
      counter := counter + 1;
      var tweetId := counter;
      tweets := tweets[tweetId := TweetRecord(tweet.userId, tweet.tweetText, timestamp)];
      authored := authored[tweet.userId := ZAdd(ZGet(authored, tweet.userId), tweetId, timestamp)];
      var recipients := Members(followers, tweet.userId);
      ghost var stored, written, before := tweets, authored, timelines;
      var pending := recipients;
      while pending != {}
        invariant pending <= recipients
        invariant timelines == FanOut(before, recipients - pending, tweetId, timestamp)
        invariant counter == tweetId == old(counter) + 1
        invariant tweets == stored && authored == written
        invariant following == old(following) && followers == old(followers)
        decreases pending
      {
        HasMember(pending);
        var followerId :| followerId in pending;
        FanOutOneMore(before, recipients, pending, followerId, tweetId, timestamp);
        timelines := timelines[followerId := ZAdd(ZGet(timelines, followerId), tweetId, timestamp)];
        pending := pending - {followerId};
      }
      assert recipients - pending == recipients;
    }

    method GetTimeline(userId: int, limit: int) returns (timeline: seq<Tweet>)
      ensures timeline == Timeline(State(), userId, limit)
    {
      var tweetIds := ZRevRange(ZGet(timelines, userId), 0, limit - 1);
      if tweetIds == [] {
        return [];
      }
      timeline := [];
      var i := 0;
      while i < |tweetIds|
        invariant 0 <= i <= |tweetIds|
        invariant timeline == Hydrate(tweets, tweetIds[..i])
      {
        var tweetId := tweetIds[i];
        if tweetId in tweets {
          var tweetData := tweets[tweetId];
          timeline := timeline + [Tweet(Some(tweetId), tweetData.userId, tweetData.tweetText, Some(tweetData.tweetTs))];
        }
        assert tweetIds[..i + 1][..i] == tweetIds[..i];
        i := i + 1;
      }
      assert tweetIds[..i] == tweetIds;
    }

    method AddFollow(followerId: int, followeeId: int)
      modifies this
      ensures State() == Followed(old(State()), followerId, followeeId)
    {
      following := following[followerId := Members(following, followerId) + {followeeId}];
      followers := followers[followeeId := Members(followers, followeeId) + {followerId}];
    }
  }

  /** One more recipient in the fan-out loop: `next` leaves the pending set. */
  lemma FanOutOneMore(timelines: map<int, ZSet>, recipients: set<int>, pending: set<int>,
                      next: int, id: int, score: Timestamp)
    requires next in pending && pending <= recipients
    ensures var before := FanOut(timelines, recipients - pending, id, score);
            FanOut(timelines, recipients - (pending - {next}), id, score)
              == before[next := ZAdd(ZGet(before, next), id, score)]
  {
    var done := recipients - pending;
    var before := FanOut(timelines, done, id, score);
    var after := FanOut(timelines, recipients - (pending - {next}), id, score);
    assert recipients - (pending - {next}) == done + {next};
    var stepped := before[next := ZAdd(ZGet(before, next), id, score)];
    assert after.Keys == stepped.Keys;
    forall v | v in after ensures after[v] == stepped[v] {
      assert ZGet(after, v) == after[v] && ZGet(stepped, v) == stepped[v];
    }
  }
}
