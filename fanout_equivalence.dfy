/**
 Both engines loaded the way the benchmark scripts load them, and the
 claim that they then serve the same timeline: with every follow recorded
 before the first post, no duplicate follows row, distinct timestamps and a
 positive limit, the precomputed timeline equals the join computed at read
 time.
 */
module FanOutEquivalence {
  import opened TwitterObjects
  import Ranking
  import R = RedisTwitter
  import S = SqlTwitter

  /** One post of a load: the tweet handed to postTweet and the time it is stamped with. */
  datatype Post = Post(tweet: Tweet, ts: Timestamp)

  /** addFollow for every row, in order. */
  function FollowAll(s: R.Store, rows: seq<S.FollowRow>): R.Store
  {
    if rows == [] then s
    else
      var f := rows[|rows| - 1];
      R.Followed(FollowAll(s, rows[..|rows| - 1]), f.followerId, f.followeeId)
  }

  /** postTweet for every post, in order. */
  function PostAll(s: R.Store, posts: seq<Post>): R.Store
  {
    if posts == [] then s
    else
      var p := posts[|posts| - 1];
      R.Posted(PostAll(s, posts[..|posts| - 1]), p.tweet, p.ts)
  }

  /** The Redis load: clearTweets, clearFollows, then every follow, then every post. */
  function LoadRedis(s0: R.Store, follows: seq<S.FollowRow>, posts: seq<Post>): R.Store
  {
    PostAll(FollowAll(R.FollowsCleared(R.TweetsCleared(s0)), follows), posts)
  }

  /** postTweet for every post, the i-th (from 1) given id i by the auto-increment column. */
  function InsertAll(db: S.Tables, posts: seq<Post>): S.Tables
  {
    if posts == [] then db
    else
      var p := posts[|posts| - 1];
      S.Inserted(InsertAll(db, posts[..|posts| - 1]), p.tweet, |posts|, p.ts)
  }

  /** The relational load: empty tables, the follows rows inserted, then every post. */
  function LoadSql(follows: seq<S.FollowRow>, posts: seq<Post>): S.Tables
  {
    InsertAll(S.Tables(follows, []), posts)
  }

  /** No row of the follows table occurs twice. */
  ghost predicate NoDuplicateRows(follows: seq<S.FollowRow>)
  {
    forall f :: multiset(follows)[f] <= 1
  }

  /** No two posts carry the same timestamp. */
  ghost predicate DistinctTimestamps(posts: seq<Post>)
  {
    forall i, j :: 0 <= i < j < |posts| ==> posts[i].ts != posts[j].ts
  }

  /** The row the relational load holds for the i-th post (from 0). */
  function RowOf(posts: seq<Post>, i: nat): S.TweetRow
    requires i < |posts|
  {
    S.TweetRow(i + 1, posts[i].tweet.userId, posts[i].tweet.tweetText, posts[i].ts)
  }

  // ---------------------------------------------------------------------
  // The Redis load

  /**
   Loading follows adds exactly the rows to both indexes of the graph, and
   leaves the tweets, authored sets, timelines and counter as they were.
   */
  lemma {:induction false} FollowAllGraph(s: R.Store, rows: seq<S.FollowRow>)
    ensures var r := FollowAll(s, rows);
            && r.counter == s.counter && r.tweets == s.tweets
            && r.authored == s.authored && r.timelines == s.timelines
            && (forall a, b :: a in R.Members(r.followers, b) <==>
                  a in R.Members(s.followers, b) || S.FollowRow(a, b) in rows)
            && (forall a, b :: b in R.Members(r.following, a) <==>
                  b in R.Members(s.following, a) || S.FollowRow(a, b) in rows)
    decreases |rows|
  {
    if rows != [] {
      var init := rows[..|rows| - 1];
      FollowAllGraph(s, init);
      assert rows == init + [rows[|rows| - 1]];
    }
  }

  /** Posting into a store with no tweets and an absent counter numbers the posts 1, 2, ... */
  lemma {:induction false} PostAllTweets(s: R.Store, posts: seq<Post>)
    requires s.counter == 0 && s.tweets == map[]
    ensures var r := PostAll(s, posts);
            && r.followers == s.followers
            && r.counter == |posts|
            && (forall id :: id in r.tweets <==> 1 <= id <= |posts|)
            && (forall id :: 1 <= id <= |posts| ==>
                  r.tweets[id] == R.TweetRecord(posts[id - 1].tweet.userId, posts[id - 1].tweet.tweetText, posts[id - 1].ts))
    decreases |posts|
  {
    if posts != [] {
      var init := posts[..|posts| - 1];
      var last := posts[|posts| - 1];
      PostAllTweets(s, init);
      var before := PostAll(s, init);
      R.PostStoresRecord(before, last.tweet, last.ts);
      R.PostFansOutToCurrentFollowers(before, last.tweet, last.ts);
      assert forall i :: 0 <= i < |init| ==> init[i] == posts[i];
    }
  }

  /** Timeline `z` of `userId` holds exactly the posts by a followee, scored by timestamp. */
  ghost predicate HoldsFollowed(z: R.ZSet, posts: seq<Post>, followers: map<int, set<int>>, userId: int)
  {
    && (forall id :: id in z <==> 1 <= id <= |posts| && userId in R.Members(followers, posts[id - 1].tweet.userId))
    && (forall id :: id in z ==> z[id] == posts[id - 1].ts)
  }

  /**
   Posting into a store with an absent counter and an empty timeline for
   `userId` puts into that timeline exactly the posts whose author
   `userId` follows, each scored by its timestamp.
   */
  lemma {:induction false} PostAllTimeline(s: R.Store, posts: seq<Post>, userId: int)
    requires s.counter == 0 && s.tweets == map[] && R.ZGet(s.timelines, userId) == map[]
    ensures HoldsFollowed(R.ZGet(PostAll(s, posts).timelines, userId), posts, s.followers, userId)
    decreases |posts|
  {
    if posts != [] {
      var init := posts[..|posts| - 1];
      PostAllTimeline(s, init, userId);
      PostAllCounter(s, init);
      var before := PostAll(s, init);
      var last := posts[|posts| - 1];
      var zb := R.ZGet(before.timelines, userId);
      assert PostAll(s, posts) == R.Posted(before, last.tweet, last.ts);
      PostOneTimeline(before, last, userId);
      assert R.ZGet(PostAll(s, posts).timelines, userId)
          == if userId in R.Members(s.followers, last.tweet.userId) then zb[|posts| := last.ts] else zb;
      HoldsOneMore(zb, posts, s.followers, userId);
    }
  }

  /** The step of PostAllTimeline: the next post goes in exactly when its author is followed. */
  lemma HoldsOneMore(zb: R.ZSet, posts: seq<Post>, followers: map<int, set<int>>, userId: int)
    requires posts != []
    requires HoldsFollowed(zb, posts[..|posts| - 1], followers, userId)
    ensures var n := |posts|;
            var last := posts[n - 1];
            HoldsFollowed(if userId in R.Members(followers, last.tweet.userId) then zb[n := last.ts] else zb,
                          posts, followers, userId)
  {
    var init := posts[..|posts| - 1];
    assert forall i :: 0 <= i < |init| ==> init[i] == posts[i];
  }

  /** Each post takes one id and leaves the follow graph alone. */
  lemma {:induction false} PostAllCounter(s: R.Store, posts: seq<Post>)
    ensures PostAll(s, posts).counter == s.counter + |posts|
    ensures PostAll(s, posts).followers == s.followers
    ensures PostAll(s, posts).following == s.following
    decreases |posts|
  {
    if posts != [] {
      PostAllCounter(s, posts[..|posts| - 1]);
    }
  }

  /** One post adds its id to the timeline of `userId` exactly when `userId` follows the author. */
  lemma PostOneTimeline(before: R.Store, p: Post, userId: int)
    ensures var z := R.ZGet(R.Posted(before, p.tweet, p.ts).timelines, userId);
            var zb := R.ZGet(before.timelines, userId);
            z == if userId in R.Members(before.followers, p.tweet.userId) then zb[before.counter + 1 := p.ts] else zb
  {
    R.PostFansOutToCurrentFollowers(before, p.tweet, p.ts);
  }

  /** The Redis load, for one user: which tweets exist and what that user's timeline holds. */
  lemma LoadRedisState(s0: R.Store, follows: seq<S.FollowRow>, posts: seq<Post>, userId: int)
    ensures var r := LoadRedis(s0, follows, posts);
            Loaded(r.tweets, R.ZGet(r.timelines, userId), follows, posts, userId)
  {
    var cleared := R.FollowsCleared(R.TweetsCleared(s0));
    FollowAllGraph(cleared, follows);
    PostAllTweets(FollowAll(cleared, follows), posts);
    PostAllTimeline(FollowAll(cleared, follows), posts, userId);
  }

  // ---------------------------------------------------------------------
  // The relational load

  lemma {:induction false} InsertAllRows(db: S.Tables, posts: seq<Post>)
    requires db.tweet == []
    ensures var r := InsertAll(db, posts);
            && r.follows == db.follows
            && |r.tweet| == |posts|
            && (forall i :: 0 <= i < |posts| ==> r.tweet[i] == RowOf(posts, i))
    decreases |posts|
  {
    if posts != [] {
      var init := posts[..|posts| - 1];
      InsertAllRows(db, init);
      assert forall i :: 0 <= i < |init| ==> RowOf(init, i) == RowOf(posts, i);
    }
  }

  /** The join lists a tweet row once per follows row that matches it. */
  lemma {:induction false} MatchesCount(row: S.TweetRow, follows: seq<S.FollowRow>, userId: int)
    ensures forall x :: multiset(S.Matches(row, follows, userId))[x] ==
              if x == S.Project(row) then multiset(follows)[S.FollowRow(userId, row.userId)] else 0
    decreases |follows|
  {
    if follows != [] {
      var init := follows[..|follows| - 1];
      var last := follows[|follows| - 1];
      MatchesCount(row, init, userId);
      assert follows == init + [last];
      assert multiset(follows) == multiset(init) + multiset{last};
    }
  }

  /** Without duplicate follows rows, and with distinct tweet ids, the join repeats no tweet. */
  lemma {:induction false} JoinedOnce(rows: seq<S.TweetRow>, follows: seq<S.FollowRow>, userId: int)
    requires NoDuplicateRows(follows)
    requires forall i, j :: 0 <= i < j < |rows| ==> rows[i].tweetId != rows[j].tweetId
    ensures forall x :: multiset(S.Joined(rows, follows, userId))[x] <= 1
    decreases |rows|
  {
    if rows != [] {
      var init := rows[..|rows| - 1];
      var last := rows[|rows| - 1];
      JoinedOnce(init, follows, userId);
      MatchesCount(last, follows, userId);
      S.JoinedMembers(init, follows, userId);
      assert forall row :: row in init ==> row.tweetId != last.tweetId;
      assert S.Project(last) !in S.Joined(init, follows, userId);
      assert S.Project(last) !in multiset(S.Joined(init, follows, userId));
    }
  }

  // ---------------------------------------------------------------------
  // The two full listings

  /** `t` is what both engines show for the i-th post, for some post by a followee of `userId`. */
  ghost predicate Listed(posts: seq<Post>, follows: seq<S.FollowRow>, userId: int, t: Tweet)
  {
    exists i :: 0 <= i < |posts| && S.FollowRow(userId, posts[i].tweet.userId) in follows
                && t == S.Project(RowOf(posts, i))
  }

  /** The tweet hashes and one timeline as the Redis load leaves them. */
  ghost predicate Loaded(tweets: map<int, R.TweetRecord>, z: R.ZSet, follows: seq<S.FollowRow>,
                         posts: seq<Post>, userId: int)
  {
    && (forall id :: id in tweets <==> 1 <= id <= |posts|)
    && (forall id :: 1 <= id <= |posts| ==>
          tweets[id] == R.TweetRecord(posts[id - 1].tweet.userId, posts[id - 1].tweet.tweetText, posts[id - 1].ts))
    && (forall id :: id in z <==> 1 <= id <= |posts| && S.FollowRow(userId, posts[id - 1].tweet.userId) in follows)
    && (forall id :: id in z ==> z[id] == posts[id - 1].ts)
  }

  /** The whole Redis timeline, read back, is strictly newest first and shows exactly the listed tweets. */
  lemma RedisListing(tweets: map<int, R.TweetRecord>, z: R.ZSet, follows: seq<S.FollowRow>,
                     posts: seq<Post>, userId: int)
    requires DistinctTimestamps(posts)
    requires Loaded(tweets, z, follows, posts, userId)
    ensures var x := R.Hydrate(tweets, R.Rank(z));
            && Ranking.StrictlyDesc(x, TsKey)
            && forall t :: t in x <==> Listed(posts, follows, userId, t)
  {
    var ranked := R.Rank(z);
    assert ranked[..|z|] == ranked;
    R.RankPrefixHydrated(tweets, z, |z|);
    R.RankMembers(z);
    var x := R.Hydrate(tweets, ranked);
    RedisListingStrict(z, ranked, x, posts);
    RedisListingMembers(tweets, z, ranked, x, follows, posts, userId);
  }

  /** A listing of the timeline's ids, hydrated, is strictly newest first when timestamps differ. */
  lemma RedisListingStrict(z: R.ZSet, ranked: seq<int>, x: seq<Tweet>, posts: seq<Post>)
    requires DistinctTimestamps(posts)
    requires forall id :: id in z ==> 1 <= id <= |posts| && z[id] == posts[id - 1].ts
    requires |x| == |ranked| && forall i :: 0 <= i < |ranked| ==> ranked[i] in z
    requires forall i :: 0 <= i < |x| ==> TsKey(x[i]) == R.Score(z, ranked[i])
    requires forall i, j :: 0 <= i < j < |ranked| ==> ranked[i] != ranked[j]
    requires forall i, j :: 0 <= i < j < |ranked| ==> R.Score(z, ranked[i]) >= R.Score(z, ranked[j])
    ensures Ranking.StrictlyDesc(x, TsKey)
  {
    forall i, j | 0 <= i < j < |x| ensures TsKey(x[i]) > TsKey(x[j]) {
      assert ranked[i] in z && ranked[j] in z;
    }
  }

  /** A listing of every id of the timeline, hydrated, shows exactly the listed tweets. */
  lemma RedisListingMembers(tweets: map<int, R.TweetRecord>, z: R.ZSet, ranked: seq<int>, x: seq<Tweet>,
                            follows: seq<S.FollowRow>, posts: seq<Post>, userId: int)
    requires Loaded(tweets, z, follows, posts, userId)
    requires |x| == |ranked| && forall m :: m in ranked <==> m in z
    requires forall i :: 0 <= i < |x| ==> ranked[i] in tweets && x[i] == R.Stored(ranked[i], tweets[ranked[i]])
    ensures forall t :: t in x <==> Listed(posts, follows, userId, t)
  {
    forall t ensures t in x <==> Listed(posts, follows, userId, t) {
      if t in x {
        var k :| 0 <= k < |x| && x[k] == t;
        var id := ranked[k];
        assert id in z;
        assert t == S.Project(RowOf(posts, id - 1));
      }
      if Listed(posts, follows, userId, t) {
        var i :| 0 <= i < |posts| && S.FollowRow(userId, posts[i].tweet.userId) in follows
                 && t == S.Project(RowOf(posts, i));
        assert i + 1 in z;
        var k :| 0 <= k < |ranked| && ranked[k] == i + 1;
        assert x[k] == t;
      }
    }
  }

  /** Each tweet of the join is the projection of one of the loaded rows. */
  lemma JoinedFromRows(rows: seq<S.TweetRow>, follows: seq<S.FollowRow>, posts: seq<Post>, userId: int)
    requires |rows| == |posts| && forall i :: 0 <= i < |posts| ==> rows[i] == RowOf(posts, i)
    ensures forall t :: t in S.Joined(rows, follows, userId) <==> Listed(posts, follows, userId, t)
  {
    S.JoinedMembers(rows, follows, userId);
    forall t ensures t in S.Joined(rows, follows, userId) <==> Listed(posts, follows, userId, t) {
      if t in S.Joined(rows, follows, userId) {
        var row :| row in rows && S.FollowRow(userId, row.userId) in follows && S.Project(row) == t;
        var i :| 0 <= i < |rows| && rows[i] == row;
        assert S.FollowRow(userId, posts[i].tweet.userId) in follows && t == S.Project(RowOf(posts, i));
      }
      if Listed(posts, follows, userId, t) {
        var i :| 0 <= i < |posts| && S.FollowRow(userId, posts[i].tweet.userId) in follows
                 && t == S.Project(RowOf(posts, i));
        assert rows[i] in rows;
      }
    }
  }

  /** The join, ordered newest first, is strictly newest first and shows exactly the listed tweets. */
  lemma SqlListing(rows: seq<S.TweetRow>, follows: seq<S.FollowRow>, posts: seq<Post>, userId: int)
    requires NoDuplicateRows(follows) && DistinctTimestamps(posts)
    requires |rows| == |posts| && forall i :: 0 <= i < |posts| ==> rows[i] == RowOf(posts, i)
    ensures var y := S.ByTsDesc(S.Joined(rows, follows, userId));
            && Ranking.StrictlyDesc(y, TsKey)
            && forall t :: t in y <==> Listed(posts, follows, userId, t)
  {
    var joined := S.Joined(rows, follows, userId);
    var y := S.ByTsDesc(joined);
    JoinedFromRows(rows, follows, posts, userId);
    JoinedOnce(rows, follows, userId);
    forall t ensures t in y <==> t in joined {
      assert t in y <==> t in multiset(y);
      assert t in joined <==> t in multiset(joined);
    }
    forall i, j | 0 <= i < |y| && 0 <= j < |y| && y[i] != y[j] ensures TsKey(y[i]) != TsKey(y[j]) {
      assert y[i] in y && y[j] in y;
      var p :| 0 <= p < |posts| && S.FollowRow(userId, posts[p].tweet.userId) in follows
               && y[i] == S.Project(RowOf(posts, p));
      var q :| 0 <= q < |posts| && S.FollowRow(userId, posts[q].tweet.userId) in follows
               && y[j] == S.Project(RowOf(posts, q));
      assert p != q;
    }
    Ranking.DescDistinctIsStrict(y, TsKey);
  }

  /** Under the load's conditions both full listings are the same sequence. */
  lemma FullListingsAgree(tweets: map<int, R.TweetRecord>, z: R.ZSet, rows: seq<S.TweetRow>,
                          follows: seq<S.FollowRow>, posts: seq<Post>, userId: int)
    requires NoDuplicateRows(follows) && DistinctTimestamps(posts)
    requires |rows| == |posts| && forall i :: 0 <= i < |posts| ==> rows[i] == RowOf(posts, i)
    requires Loaded(tweets, z, follows, posts, userId)
    ensures R.Hydrate(tweets, R.Rank(z)) == S.ByTsDesc(S.Joined(rows, follows, userId))
  {
    RedisListing(tweets, z, follows, posts, userId);
    SqlListing(rows, follows, posts, userId);
    Ranking.StrictlyDescUnique(R.Hydrate(tweets, R.Rank(z)), S.ByTsDesc(S.Joined(rows, follows, userId)), TsKey);
  }

  /**
   The headline property: load both engines with the same follows rows
   and then the same posts. If no follows row repeats, the timestamps are
   distinct and the limit is positive, the fan-out-on-write timeline of
   every user equals the fan-out-on-read one.
   */
  lemma TimelinesAgree(s0: R.Store, follows: seq<S.FollowRow>, posts: seq<Post>, userId: int, limit: int)
    requires NoDuplicateRows(follows) && DistinctTimestamps(posts) && limit >= 1
    ensures S.Timeline(LoadSql(follows, posts), userId, limit)
            == S.Ok(R.Timeline(LoadRedis(s0, follows, posts), userId, limit))
  {
    LoadRedisState(s0, follows, posts, userId);
    InsertAllRows(S.Tables(follows, []), posts);
    LoadedAgree(LoadRedis(s0, follows, posts), LoadSql(follows, posts), follows, posts, userId, limit);
  }

  /** The headline property on the states the loads leave, whatever produced them. */
  lemma LoadedAgree(store: R.Store, db: S.Tables, follows: seq<S.FollowRow>, posts: seq<Post>,
                    userId: int, limit: int)
    requires NoDuplicateRows(follows) && DistinctTimestamps(posts) && limit >= 1
    requires Loaded(store.tweets, R.ZGet(store.timelines, userId), follows, posts, userId)
    requires db.follows == follows
    requires |db.tweet| == |posts| && forall i :: 0 <= i < |posts| ==> db.tweet[i] == RowOf(posts, i)
    ensures S.Timeline(db, userId, limit) == S.Ok(R.Timeline(store, userId, limit))
  {
    var z := R.ZGet(store.timelines, userId);
    FullListingsAgree(store.tweets, z, db.tweet, follows, posts, userId);
    TopOfFullListing(store.tweets, z, limit);
  }

  /** The first `limit` entries, hydrated, are the first entries of the whole hydrated timeline. */
  lemma TopOfFullListing(tweets: map<int, R.TweetRecord>, z: R.ZSet, limit: int)
    requires limit >= 1
    requires forall id :: id in z ==> id in tweets && z[id] == tweets[id].tweetTs
    ensures var full := R.Hydrate(tweets, R.Rank(z));
            var k := if limit < |z| then limit else |z|;
            && |full| == |z|
            && R.Hydrate(tweets, R.ZRevRange(z, 0, limit - 1)) == full[..k]
  {
    var ranked := R.Rank(z);
    var k := if limit < |z| then limit else |z|;
    R.ZRevRangeTop(z, limit);
    R.RankPrefixHydrated(tweets, z, k);
    R.RankPrefixHydrated(tweets, z, |z|);
    assert ranked[..|z|] == ranked;
  }

  // ---------------------------------------------------------------------
  // Why each condition is needed

  /** A follow recorded after the post: the join shows the tweet, the precomputed timeline does not. */
  lemma NoBackfill()
    ensures var t := Tweet(None, 1, "hello", None);
            var store := R.Followed(R.Posted(R.EmptyStore, t, 100), 2, 1);
            var db := S.Inserted(S.Tables([S.FollowRow(2, 1)], []), t, 1, 100);
            && R.Timeline(store, 2, 10) == []
            && S.Timeline(db, 2, 10) == S.Ok([Tweet(Some(1), 1, "hello", Some(100))])
  {
    var t := Tweet(None, 1, "hello", None);
    var store := R.Followed(R.Posted(R.EmptyStore, t, 100), 2, 1);
    assert R.ZGet(store.timelines, 2) == map[];
    var db := S.Inserted(S.Tables([S.FollowRow(2, 1)], []), t, 1, 100);
    assert db.tweet == [S.TweetRow(1, 1, "hello", 100)];
    assert db.tweet[..0] == [];
    assert db.follows[..0] == [];
  }

  /** A repeated follows row: the join lists the tweet twice, the sorted set holds it once. */
  lemma DuplicateRowRepeatsTweet()
    ensures var posts := [Post(Tweet(None, 1, "hello", None), 100)];
            var rows := [S.FollowRow(2, 1), S.FollowRow(2, 1)];
            var shown := Tweet(Some(1), 1, "hello", Some(100));
            && S.Timeline(LoadSql(rows, posts), 2, 10) == S.Ok([shown, shown])
            && R.Timeline(LoadRedis(R.EmptyStore, rows, posts), 2, 10) == [shown]
  {
    var posts := [Post(Tweet(None, 1, "hello", None), 100)];
    var rows := [S.FollowRow(2, 1), S.FollowRow(2, 1)];
    InsertAllRows(S.Tables(rows, []), posts);
    JoinTwice(LoadSql(rows, posts));
    OneFollowedPost(R.EmptyStore, rows, posts, 2, 10);
  }

  /** The join side of DuplicateRowRepeatsTweet. */
  lemma JoinTwice(db: S.Tables)
    requires db.follows == [S.FollowRow(2, 1), S.FollowRow(2, 1)]
    requires db.tweet == [S.TweetRow(1, 1, "hello", 100)]
    ensures var shown := Tweet(Some(1), 1, "hello", Some(100));
            S.Timeline(db, 2, 10) == S.Ok([shown, shown])
  {
    var shown := Tweet(Some(1), 1, "hello", Some(100));
    var row := S.TweetRow(1, 1, "hello", 100);
    assert [row][..0] == [];
    assert db.follows[..1] == [S.FollowRow(2, 1)] && [S.FollowRow(2, 1)][..0] == [];
    assert S.Matches(row, [S.FollowRow(2, 1)], 2) == [shown];
    assert S.Joined(db.tweet, db.follows, 2) == [shown, shown];
    var y := S.ByTsDesc([shown, shown]);
    assert multiset(y) == multiset{shown, shown};
    assert y[0] in multiset(y) && y[1] in multiset(y);
    assert y == [shown, shown];
  }

  /** A limit of 0: the join returns nothing, the range query returns the whole timeline. */
  lemma LimitZeroDiffers()
    ensures var posts := [Post(Tweet(None, 1, "hello", None), 100)];
            var rows := [S.FollowRow(2, 1)];
            var shown := Tweet(Some(1), 1, "hello", Some(100));
            && S.Timeline(LoadSql(rows, posts), 2, 0) == S.Ok([])
            && R.Timeline(LoadRedis(R.EmptyStore, rows, posts), 2, 0) == [shown]
  {
    var posts := [Post(Tweet(None, 1, "hello", None), 100)];
    var rows := [S.FollowRow(2, 1)];
    R.TimelineLimitZeroIsWhole(LoadRedis(R.EmptyStore, rows, posts), 2);
    OneFollowedPost(R.EmptyStore, rows, posts, 2, 1);
  }

  /** One post by a followee of `userId`: the Redis timeline shows it for any positive limit. */
  lemma OneFollowedPost(s0: R.Store, rows: seq<S.FollowRow>, posts: seq<Post>, userId: int, limit: int)
    requires |posts| == 1 && S.FollowRow(userId, posts[0].tweet.userId) in rows && limit >= 1
    ensures R.Timeline(LoadRedis(s0, rows, posts), userId, limit)
            == [Tweet(Some(1), posts[0].tweet.userId, posts[0].tweet.tweetText, Some(posts[0].ts))]
  {
    LoadRedisState(s0, rows, posts, userId);
    LoadedSingle(LoadRedis(s0, rows, posts), rows, posts, userId, limit);
  }

  /** OneFollowedPost on the state the load leaves. */
  lemma LoadedSingle(store: R.Store, rows: seq<S.FollowRow>, posts: seq<Post>, userId: int, limit: int)
    requires |posts| == 1 && S.FollowRow(userId, posts[0].tweet.userId) in rows && limit >= 1
    requires Loaded(store.tweets, R.ZGet(store.timelines, userId), rows, posts, userId)
    ensures R.Timeline(store, userId, limit)
            == [Tweet(Some(1), posts[0].tweet.userId, posts[0].tweet.tweetText, Some(posts[0].ts))]
  {
    var z := R.ZGet(store.timelines, userId);
    SingleEntry(z);
    var ranked := R.Rank(z);
    R.ZRevRangeTop(z, limit);
    R.RankPrefixHydrated(store.tweets, z, 1);
    assert ranked[0] in z;
  }

  /** A sorted set whose only member is 1 has one entry. */
  lemma SingleEntry(z: R.ZSet)
    requires forall id :: id in z <==> id == 1
    ensures |z| == 1
  {
    assert 1 in z;
    assert forall id :: id in z.Keys <==> id in {1};
    assert z.Keys == {1};
  }
}
