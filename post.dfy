/** The post history record and the `Post` entity built from it
    (src/data/models/post.ts, src/shared/types/post.ts). */
module PostModel {

  import opened Wrappers

  /** `'draft' | 'published'`. */
  datatype Status = Draft | Published

  /** `PostHistoryRecord`: what one entry of the history file holds. The optional
      `noteUrl` and `mediaIds` are `None` when the key is absent. */
  datatype PostHistoryRecord = PostHistoryRecord(
    id: string,
    title: string,
    sourceFileName: string,
    sourceFilePath: string,
    postedAt: string,
    noteUrl: Option<string>,
    status: Status,
    mediaIds: Option<seq<string>>)

  /** The `Post` entity. Its fields are set once by the constructor and never changed,
      so it is a value. */
  datatype Post = Post(
    id: string,
    title: string,
    sourceFileName: string,
    sourceFilePath: string,
    postedAt: string,
    noteUrl: Option<string>,
    status: Status,
    mediaIds: Option<seq<string>>)

  /** `new Post(record)`: every field of the record, unchanged. */
  function FromRecord(record: PostHistoryRecord): (p: Post)
    ensures p.id == record.id && p.title == record.title
    ensures p.sourceFileName == record.sourceFileName && p.sourceFilePath == record.sourceFilePath
    ensures p.postedAt == record.postedAt && p.noteUrl == record.noteUrl
    ensures p.status == record.status && p.mediaIds == record.mediaIds
  {
    Post(record.id, record.title, record.sourceFileName, record.sourceFilePath,
         record.postedAt, record.noteUrl, record.status, record.mediaIds)
  }

  /** `toRecord`: the eight fields of the post, unchanged. */
  function ToRecord(p: Post): (record: PostHistoryRecord)
    ensures record.id == p.id && record.title == p.title
    ensures record.sourceFileName == p.sourceFileName && record.sourceFilePath == p.sourceFilePath
    ensures record.postedAt == p.postedAt && record.noteUrl == p.noteUrl
    ensures record.status == p.status && record.mediaIds == p.mediaIds
  {
    PostHistoryRecord(p.id, p.title, p.sourceFileName, p.sourceFilePath,
                      p.postedAt, p.noteUrl, p.status, p.mediaIds)
  }

  /** `new Post(r).toRecord()` is `r`; absent optional fields stay absent. */
  lemma RecordRoundTrip(record: PostHistoryRecord)
    ensures ToRecord(FromRecord(record)) == record
    ensures record.noteUrl.None? ==> ToRecord(FromRecord(record)).noteUrl.None?
    ensures record.mediaIds.None? ==> ToRecord(FromRecord(record)).mediaIds.None?
  {
  }

  /** Building a post from its own record gives the same post. */
  lemma PostRoundTrip(p: Post)
    ensures FromRecord(ToRecord(p)) == p
  {
  }

  /** `getElapsedTime`: the clock reading `now` minus the time `new Date(postedAt)` stands
      for, both in milliseconds. `parseDate` is the date parser; `None` is an invalid
      date, whose time is `NaN`, and so is the difference. */
  function GetElapsedTime(p: Post, now: int, parseDate: string -> Option<int>): (r: Option<int>)
    ensures r.Some? <==> parseDate(p.postedAt).Some?
    ensures r.Some? ==> parseDate(p.postedAt).value + r.value == now
  {
    match parseDate(p.postedAt)
    case None => None
    case Some(t) => Some(now - t)
  }

  /** The elapsed time grows exactly as the clock does. */
  lemma ElapsedTimeFollowsClock(p: Post, now: int, later: int, parseDate: string -> Option<int>)
    requires parseDate(p.postedAt).Some?
    ensures GetElapsedTime(p, later, parseDate).value - GetElapsedTime(p, now, parseDate).value == later - now
  {
  }
}
