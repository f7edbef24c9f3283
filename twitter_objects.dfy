/**
 The record both timeline APIs hand back to their callers, and the
 optional value used for the record's database-assigned fields.
 */
module TwitterObjects {

  datatype Option<T> = None | Some(value: T)

  /** An abstract, totally ordered clock reading. */
  type Timestamp = int

  /**
   A tweet as the APIs exchange it. `tweetId` and `tweetTs` are absent on a
   tweet a caller is about to post and present on every tweet read back.
   */
  datatype Tweet = Tweet(tweetId: Option<int>, userId: int, tweetText: string, tweetTs: Option<Timestamp>)

  /** The ordering key of a tweet read back from storage (0 when it carries no timestamp). */
  function TsKey(t: Tweet): int
  {
    match t.tweetTs
    case Some(ts) => ts
    case None => 0
  }
}
