/**
 The fan-out-on-read baseline over two relational tables:

   follows(follower_id, followee_id)
   tweet(tweet_id, user_id, tweet_text, tweet_ts)

 A table is a bag of rows, here a sequence in insertion order. Writes are
 INSERT and TRUNCATE; a timeline is computed at read time by joining the
 two tables, ordering by timestamp and applying LIMIT.
 */
module SqlTwitter {
  import opened TwitterObjects
  import Ranking

  datatype FollowRow = FollowRow(followerId: int, followeeId: int)

  datatype TweetRow = TweetRow(tweetId: int, userId: int, tweetText: string, tweetTs: Timestamp)

  datatype Tables = Tables(follows: seq<FollowRow>, tweet: seq<TweetRow>)

  /** A LIMIT clause with a negative count does not parse. */
  datatype QueryError = NegativeLimit

  datatype Result<T> = Ok(value: T) | Err(error: QueryError)

  /** The selected columns of one tweet row, as the API returns them. */
  function Project(row: TweetRow): Tweet
  {
    Tweet(Some(row.tweetId), row.userId, row.tweetText, Some(row.tweetTs))
  }

  // ---------------------------------------------------------------------
  // Writes

  /** TRUNCATE TABLE follows. */
  function FollowsTruncated(db: Tables): (r: Tables)
    ensures r.follows == [] && r.tweet == db.tweet
  {
    db.(follows := [])
  }

  /** TRUNCATE TABLE tweet. */
  function TweetTruncated(db: Tables): (r: Tables)
    ensures r.tweet == [] && r.follows == db.follows
  {
    db.(tweet := [])
  }

  /**
   INSERT INTO tweet (user_id, tweet_text): exactly one row is added, with
   the given author and text; the id and timestamp are the ones the table's
   defaults supply. Every earlier row, and the follows table, is unchanged.
   */
  function Inserted(db: Tables, t: Tweet, assignedId: int, assignedTs: Timestamp): (r: Tables)
    ensures |r.tweet| == |db.tweet| + 1
    ensures r.tweet[..|db.tweet|] == db.tweet
    ensures r.tweet[|db.tweet|].userId == t.userId && r.tweet[|db.tweet|].tweetText == t.tweetText
    ensures r.follows == db.follows
  {
    db.(tweet := db.tweet + [TweetRow(assignedId, t.userId, t.tweetText, assignedTs)])
  }

  // ---------------------------------------------------------------------
  // Queries

  /** The first `n` elements of `s`, or all of them when there are fewer (LIMIT n). */
  function Take<T>(s: seq<T>, n: nat): (r: seq<T>)
    ensures |r| <= n && |r| <= |s|
    ensures r == s[..|r|]
    ensures |r| < n ==> r == s
  {
    if n < |s| then s[..n] else s
  }

  /** ORDER BY tweet_ts DESC; MySQL leaves the order of equal timestamps open. */
  function ByTsDesc(s: seq<Tweet>): (r: seq<Tweet>)
    ensures multiset(r) == multiset(s)
    ensures |r| == |s|
    ensures forall i, j :: 0 <= i < j < |r| ==> TsKey(r[i]) >= TsKey(r[j])
  {
    Ranking.SortDescSorted(s, TsKey, NoPreference);
    Ranking.SortDesc(s, TsKey, NoPreference)
  }

  predicate NoPreference(a: Tweet, b: Tweet)
  {
    false
  }

  /** The join of one tweet row with the follows rows (userId, row.userId), projected. */
  function Matches(row: TweetRow, follows: seq<FollowRow>, userId: int): seq<Tweet>
  {
    if follows == [] then []
    else
      var f := follows[|follows| - 1];
      Matches(row, follows[..|follows| - 1], userId)
        + (if f.followerId == userId && f.followeeId == row.userId then [Project(row)] else [])
  }

  /**
   tweet t JOIN follows f ON t.user_id = f.followee_id WHERE f.follower_id = userId,
   projected on the tweet's columns.
   */
  function Joined(tweet: seq<TweetRow>, follows: seq<FollowRow>, userId: int): seq<Tweet>
  {
    if tweet == [] then []
    else
      Joined(tweet[..|tweet| - 1], follows, userId) + Matches(tweet[|tweet| - 1], follows, userId)
  }

  /** getTimeline: the join ordered newest first, cut to `limit` rows. */
  function Timeline(db: Tables, userId: int, limit: int): Result<seq<Tweet>>
  {
    if limit < 0 then Err(NegativeLimit)
    else Ok(Take(ByTsDesc(Joined(db.tweet, db.follows, userId)), limit))
  }

  /** SELECT follower_id FROM follows WHERE followee_id = userId. */
  function Followers(follows: seq<FollowRow>, userId: int): seq<int>
  {
    if follows == [] then []
    else
      var f := follows[|follows| - 1];
      Followers(follows[..|follows| - 1], userId) + (if f.followeeId == userId then [f.followerId] else [])
  }

  /** SELECT followee_id FROM follows WHERE follower_id = userId. */
  function Followees(follows: seq<FollowRow>, userId: int): seq<int>
  {
    if follows == [] then []
    else
      var f := follows[|follows| - 1];
      Followees(follows[..|follows| - 1], userId) + (if f.followerId == userId then [f.followeeId] else [])
  }

  /** The rows written by `userId`, projected, in table order. */
  function ByAuthor(tweet: seq<TweetRow>, userId: int): seq<Tweet>
  {
    if tweet == [] then []
    else
      var row := tweet[|tweet| - 1];
      ByAuthor(tweet[..|tweet| - 1], userId) + (if row.userId == userId then [Project(row)] else [])
  }

  /** getTweets: SELECT ... FROM tweet WHERE user_id = userId ORDER BY tweet_ts DESC. */
  function Tweets(db: Tables, userId: int): seq<Tweet>
  {
    ByTsDesc(ByAuthor(db.tweet, userId))
  }

  // ---------------------------------------------------------------------
  // The tables, updated in place

  class TwitterApi {
    var follows: seq<FollowRow>
    var tweet: seq<TweetRow>

    /** Both tables as a value. */
    function Contents(): Tables
      reads this
    {
      Tables(follows, tweet)
    }

    method ClearFollows()
      modifies this
      ensures Contents() == FollowsTruncated(old(Contents()))
    {
      follows := [];
    }

    method ClearTweets()
      modifies this
      ensures Contents() == TweetTruncated(old(Contents()))
    {
      tweet := [];
    }

    /** `assignedId` and `assignedTs` stand for the values the table's defaults give the new row. */
    method PostTweet(t: Tweet, assignedId: int, assignedTs: Timestamp)
      modifies this
      ensures Contents() == Inserted(old(Contents()), t, assignedId, assignedTs)
    {
      tweet := tweet + [TweetRow(assignedId, t.userId, t.tweetText, assignedTs)];
    }
  }

  // ---------------------------------------------------------------------
  // What the queries promise

  /** A joined row is a projected tweet row whose author `userId` follows, and each such row is joined. */
  lemma {:induction false} MatchesMembers(row: TweetRow, follows: seq<FollowRow>, userId: int)
    ensures forall t :: t in Matches(row, follows, userId) ==> t == Project(row)
    ensures Matches(row, follows, userId) != [] <==> FollowRow(userId, row.userId) in follows
    decreases |follows|
  {
    if follows != [] {
      var init := follows[..|follows| - 1];
      MatchesMembers(row, init, userId);
      assert follows == init + [follows[|follows| - 1]];
    }
  }

  /** Membership in the join. */
  lemma {:induction false} JoinedMembers(tweet: seq<TweetRow>, follows: seq<FollowRow>, userId: int)
    ensures forall t :: t in Joined(tweet, follows, userId) ==>
              FollowRow(userId, t.userId) in follows && exists row :: row in tweet && Project(row) == t
    ensures forall row :: row in tweet && FollowRow(userId, row.userId) in follows ==>
              Project(row) in Joined(tweet, follows, userId)
    decreases |tweet|
  {
    if tweet != [] {
      var init := tweet[..|tweet| - 1];
      var last := tweet[|tweet| - 1];
      JoinedMembers(init, follows, userId);
      MatchesMembers(last, follows, userId);
      assert tweet == init + [last];
      forall t | t in Joined(tweet, follows, userId)
        ensures FollowRow(userId, t.userId) in follows && exists row :: row in tweet && Project(row) == t
      {
        if t !in Joined(init, follows, userId) {
          assert t in Matches(last, follows, userId);
          assert t == Project(last);
        }
      }
      forall row | row in tweet && FollowRow(userId, row.userId) in follows
        ensures Project(row) in Joined(tweet, follows, userId)
      {
        if row != last {
          assert row in init;
        } else {
          var m := Matches(last, follows, userId);
          assert m[0] in m;
        }
      }
    }
  }

  /**
   getTimeline fails exactly for a negative limit; otherwise it returns at
   most `limit` tweets, newest first, each a tweet row whose author the
   user follows.
   */
  lemma TimelineFromFollowees(db: Tables, userId: int, limit: int)
    ensures var r := Timeline(db, userId, limit);
            && (r.Ok? <==> limit >= 0)
            && (r.Ok? ==> |r.value| <= limit)
            && (r.Ok? ==> |r.value| == if |Joined(db.tweet, db.follows, userId)| < limit
                                         then |Joined(db.tweet, db.follows, userId)| else limit)
            && (r.Ok? ==> forall i, j :: 0 <= i < j < |r.value| ==> TsKey(r.value[i]) >= TsKey(r.value[j]))
            && (r.Ok? ==> forall t :: t in r.value ==>
                  FollowRow(userId, t.userId) in db.follows && exists row :: row in db.tweet && Project(row) == t)
  {
    if limit >= 0 {
      var joined := Joined(db.tweet, db.follows, userId);
      var ordered := ByTsDesc(joined);
      JoinedMembers(db.tweet, db.follows, userId);
      var r := Take(ordered, limit);
      forall t | t in r ensures t in joined {
        assert t in ordered;
        assert t in multiset(ordered);
      }
    }
  }

  /**
   getTimeline draws its tweets from the join, each at most as often as the
   join lists it; every joined row it leaves out is no newer than any tweet
   it returns, and when the join has at most `limit` rows all are returned.
   */
  lemma TimelineMostRecent(db: Tables, userId: int, limit: int)
    requires limit >= 0
    ensures var joined := Joined(db.tweet, db.follows, userId);
            var r := Timeline(db, userId, limit).value;
            && multiset(r) <= multiset(joined)
            && (forall t, u :: multiset(r)[t] < multiset(joined)[t] && u in r ==> TsKey(t) <= TsKey(u))
            && (forall t, u :: t in joined && t !in r && u in r ==> TsKey(t) <= TsKey(u))
            && (|joined| <= limit ==> multiset(r) == multiset(joined))
  {
    var joined := Joined(db.tweet, db.follows, userId);
    var ordered := ByTsDesc(joined);
    var r := Take(ordered, limit);
    PrefixMostRecent(ordered, limit);
    forall t | t in joined && t !in r ensures multiset(r)[t] < multiset(joined)[t] {
      assert t in multiset(joined);
    }
  }

  /**
   What LIMIT leaves out of a listing ordered newest first, counting every
   copy it cuts, is no newer than anything it keeps.
   */
  lemma PrefixMostRecent(ordered: seq<Tweet>, limit: nat)
    requires forall i, j :: 0 <= i < j < |ordered| ==> TsKey(ordered[i]) >= TsKey(ordered[j])
    ensures var r := Take(ordered, limit);
            forall t, u :: multiset(r)[t] < multiset(ordered)[t] && u in r ==> TsKey(t) <= TsKey(u)
    ensures var r := Take(ordered, limit);
            forall t, u :: t in ordered && t !in r && u in r ==> TsKey(t) <= TsKey(u)
    ensures multiset(Take(ordered, limit)) <= multiset(ordered)
  {
    var r := Take(ordered, limit);
    var rest := ordered[|r|..];
    assert ordered == r + rest;
    assert multiset(ordered) == multiset(r) + multiset(rest);
    forall t, u | multiset(r)[t] < multiset(ordered)[t] && u in r ensures TsKey(t) <= TsKey(u) {
      assert t in multiset(rest);
      var p :| 0 <= p < |rest| && rest[p] == t;
      var i :| 0 <= i < |r| && r[i] == u;
      assert ordered[|r| + p] == t && ordered[i] == u;
    }
    forall t | t in ordered && t !in r ensures multiset(r)[t] < multiset(ordered)[t] {
      assert t in multiset(ordered);
    }
  }

  /** The number of times `x` occurs in a sequence. */
  function Count<T(==)>(s: seq<T>, x: T): nat
  {
    multiset(s)[x]
  }

  /** getFollowers lists `x` for `y` once per row (x, y). */
  lemma {:induction false} FollowersCount(follows: seq<FollowRow>, x: int, y: int)
    ensures Count(Followers(follows, y), x) == Count(follows, FollowRow(x, y))
    decreases |follows|
  {
    if follows != [] {
      var init := follows[..|follows| - 1];
      var last := follows[|follows| - 1];
      FollowersCount(init, x, y);
      assert follows == init + [last];
      assert multiset(follows) == multiset(init) + multiset{last};
      var tail := if last.followeeId == y then [last.followerId] else [];
      assert multiset(Followers(follows, y)) == multiset(Followers(init, y)) + multiset(tail);
    }
  }

  /** getFollowees lists `y` for `x` once per row (x, y). */
  lemma {:induction false} FolloweesCount(follows: seq<FollowRow>, x: int, y: int)
    ensures Count(Followees(follows, x), y) == Count(follows, FollowRow(x, y))
    decreases |follows|
  {
    if follows != [] {
      var init := follows[..|follows| - 1];
      var last := follows[|follows| - 1];
      FolloweesCount(init, x, y);
      assert follows == init + [last];
      assert multiset(follows) == multiset(init) + multiset{last};
      var tail := if last.followerId == x then [last.followeeId] else [];
      assert multiset(Followees(follows, x)) == multiset(Followees(init, x)) + multiset(tail);
    }
  }

  /**
   getFollowers and getFollowees are converse: `x` is listed among the
   followers of `y` exactly as often as `y` among the followees of `x`, so
   one lists the other exactly when the row (x, y) exists.
   */
  lemma FollowersFolloweesConverse(follows: seq<FollowRow>, x: int, y: int)
    ensures Count(Followers(follows, y), x) == Count(Followees(follows, x), y)
    ensures x in Followers(follows, y) <==> FollowRow(x, y) in follows
    ensures x in Followers(follows, y) <==> y in Followees(follows, x)
  {
    FollowersCount(follows, x, y);
    FolloweesCount(follows, x, y);
    assert x in Followers(follows, y) <==> x in multiset(Followers(follows, y));
    assert y in Followees(follows, x) <==> y in multiset(Followees(follows, x));
    assert FollowRow(x, y) in follows <==> FollowRow(x, y) in multiset(follows);
  }

  /** ByAuthor lists each row of `userId` as often as the table holds it, and no other row. */
  lemma {:induction false} ByAuthorCount(tweet: seq<TweetRow>, userId: int)
    ensures forall row :: multiset(ByAuthor(tweet, userId))[Project(row)]
                          == if row.userId == userId then multiset(tweet)[row] else 0
    decreases |tweet|
  {
    if tweet != [] {
      var init := tweet[..|tweet| - 1];
      var last := tweet[|tweet| - 1];
      ByAuthorCount(init, userId);
      assert tweet == init + [last];
      assert multiset(tweet) == multiset(init) + multiset{last};
      var tail := if last.userId == userId then [Project(last)] else [];
      assert multiset(ByAuthor(tweet, userId)) == multiset(ByAuthor(init, userId)) + multiset(tail);
    }
  }

  /** Which tweets ByAuthor lists. */
  lemma {:induction false} ByAuthorMembers(tweet: seq<TweetRow>, userId: int)
    ensures forall t :: t in ByAuthor(tweet, userId) ==>
              t.userId == userId && exists row :: row in tweet && Project(row) == t
    ensures forall row :: row in tweet ==> (Project(row) in ByAuthor(tweet, userId) <==> row.userId == userId)
    decreases |tweet|
  {
    if tweet != [] {
      var init := tweet[..|tweet| - 1];
      var last := tweet[|tweet| - 1];
      ByAuthorMembers(init, userId);
      assert tweet == init + [last];
      forall row | row in tweet
        ensures Project(row) in ByAuthor(tweet, userId) <==> row.userId == userId
      {
        if row != last {
          assert row in init;
        }
      }
    }
  }

  /**
   getTweets returns exactly the tweets whose author is `userId`, newest
   first: every row of the user, projected, as often as the table holds it,
   and nothing else.
   */
  lemma TweetsOfUser(db: Tables, userId: int)
    ensures var r := Tweets(db, userId);
            && (forall t :: t in r ==> t.userId == userId && exists row :: row in db.tweet && Project(row) == t)
            && (forall row :: row in db.tweet ==> (Project(row) in r <==> row.userId == userId))
            && (forall i, j :: 0 <= i < j < |r| ==> TsKey(r[i]) >= TsKey(r[j]))
            && (forall row :: multiset(r)[Project(row)] == if row.userId == userId then multiset(db.tweet)[row] else 0)
  {
    var listed := ByAuthor(db.tweet, userId);
    ByAuthorMembers(db.tweet, userId);
    ByAuthorCount(db.tweet, userId);
    var r := Tweets(db, userId);
    forall t ensures t in r <==> t in listed {
      assert t in r <==> t in multiset(r);
      assert t in listed <==> t in multiset(listed);
    }
  }
}
