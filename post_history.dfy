/** The JSON-file-backed post history store (src/data/repositories/post-history.ts).
    The file is the repository's `disk` field; every mutation reads the whole file,
    changes the list and writes the whole file back. */
module PostHistory {

  import opened Wrappers
  import opened Text
  import opened PostModel

  /** `PostHistoryFile`: what the history file holds once parsed. */
  datatype PostHistoryFile = PostHistoryFile(
    version: string,
    records: seq<PostHistoryRecord>,
    lastUpdated: string)

  /** The states of the history file as the repository's reads tell them apart:
      absent (`ENOENT`), unreadable for any other reason, not JSON, JSON without a
      `records` array, or a history file. */
  datatype Disk = Missing | Unreadable | NotJson | NoRecords | Stored(file: PostHistoryFile)

  /** The error a read propagates: the failed read, `JSON.parse`'s `SyntaxError`, or the
      `TypeError` of calling `map` on a missing `records`. */
  datatype HistoryError = ReadError | SyntaxError | TypeError

  /** The format version every write stores. */
  const FileVersion: string := "1.0.0"

  /** `getStats`'s result. */
  datatype Stats = Stats(totalPosts: nat, draftCount: nat, publishedCount: nat, lastPostDate: Option<string>)

  /** `posts.map((post) => post.toRecord())`. */
  function ToRecords(posts: seq<Post>): (records: seq<PostHistoryRecord>)
    ensures |records| == |posts| && forall k :: 0 <= k < |posts| ==> records[k] == ToRecord(posts[k])
    decreases |posts|
  {
    if posts == [] then [] else [ToRecord(posts[0])] + ToRecords(posts[1..])
  }

  /** `records.map((record) => new Post(record))`. */
  function FromRecords(records: seq<PostHistoryRecord>): (posts: seq<Post>)
    ensures |posts| == |records| && forall k :: 0 <= k < |records| ==> posts[k] == FromRecord(records[k])
    decreases |records|
  {
    if records == [] then [] else [FromRecord(records[0])] + FromRecords(records[1..])
  }

  /** Posts written as records read back as the same posts. */
  lemma {:induction false} RecordsRoundTrip(posts: seq<Post>)
    ensures FromRecords(ToRecords(posts)) == posts
    decreases |posts|
  {
    if posts != [] {
      RecordsRoundTrip(posts[1..]);
      PostRoundTrip(posts[0]);
    }
  }

  /** `findIndex((p) => p.id === id)`: the first index holding `id`, or none. */
  function IndexOfId(posts: seq<Post>, id: string): (r: Option<nat>)
    ensures r.Some? ==> r.value < |posts| && posts[r.value].id == id
                        && forall k :: 0 <= k < r.value ==> posts[k].id != id
    ensures r.None? ==> forall k :: 0 <= k < |posts| ==> posts[k].id != id
    decreases |posts|
  {
    if posts == [] then None
    else if posts[0].id == id then Some(0)
    else match IndexOfId(posts[1..], id)
      case None => None
      case Some(i) => Some(i + 1)
  }

  /** `find((post) => post.id === id) || null`: the first post holding `id`. */
  function FindId(posts: seq<Post>, id: string): (r: Option<Post>)
    ensures r.Some? ==> r.value.id == id && r.value in posts
    ensures r.Some? ==>
      exists i :: 0 <= i < |posts| && posts[i] == r.value && forall k :: 0 <= k < i ==> posts[k].id != id
    ensures r.None? <==> forall k :: 0 <= k < |posts| ==> posts[k].id != id
  {
    match IndexOfId(posts, id)
    case None => None
    case Some(i) => Some(posts[i])
  }

  /** The list `save` writes: the first post with the same id replaced in place, or the
      post appended when its id is new. */
  function Upsert(posts: seq<Post>, p: Post): (r: seq<Post>)
    ensures (exists k :: 0 <= k < |posts| && posts[k].id == p.id) ==> |r| == |posts|
    ensures (forall k :: 0 <= k < |posts| ==> posts[k].id != p.id) ==> r == posts + [p]
  {
    match IndexOfId(posts, p.id)
    case Some(i) => posts[i := p]
    case None => posts + [p]
  }

  /** Saving a post whose id is present replaces the first post with that id and keeps
      every other post where it was. */
  lemma UpsertReplacesFirst(posts: seq<Post>, p: Post, i: nat)
    requires i < |posts| && posts[i].id == p.id
    requires forall k :: 0 <= k < i ==> posts[k].id != p.id
    ensures |Upsert(posts, p)| == |posts| && Upsert(posts, p)[i] == p
    ensures forall k :: 0 <= k < |posts| && k != i ==> Upsert(posts, p)[k] == posts[k]
  {
    var j := IndexOfId(posts, p.id);
    assert j == Some(i) by {
      if j.value < i {
      } else if j.value > i {
      }
    }
  }

  /** Every id appears at most once. */
  predicate UniqueIds(posts: seq<Post>) {
    forall a, b :: 0 <= a < b < |posts| ==> posts[a].id != posts[b].id
  }

  /** Saving keeps ids unique. */
  lemma UpsertKeepsIdsUnique(posts: seq<Post>, p: Post)
    requires UniqueIds(posts)
    ensures UniqueIds(Upsert(posts, p))
  {
    match IndexOfId(posts, p.id)
    case Some(i) =>
      UpsertReplacesFirst(posts, p, i);
    case None =>
  }

  /** After a post is saved, looking its id up finds that post. */
  lemma FindAfterUpsert(posts: seq<Post>, p: Post)
    ensures FindId(Upsert(posts, p), p.id) == Some(p)
  {
    match IndexOfId(posts, p.id)
    case Some(i) =>
      UpsertReplacesFirst(posts, p, i);
      assert Upsert(posts, p)[i].id == p.id;
    case None =>
      assert Upsert(posts, p)[|posts|].id == p.id;
  }

  /** `filter((post) => post.id !== id)`. */
  function WithoutId(posts: seq<Post>, id: string): (r: seq<Post>)
    ensures forall q :: q in r <==> q in posts && q.id != id
    ensures IsSubsequence(r, posts)
    ensures forall q :: multiset(r)[q] == if q.id != id then multiset(posts)[q] else 0
    decreases |posts|
  {
    if posts == [] then []
    else
      var rest := WithoutId(posts[1..], id);
      assert posts == [posts[0]] + posts[1..];
      if posts[0].id != id then
        assert ([posts[0]] + rest)[1..] == rest;
        [posts[0]] + rest
      else
        SubsequenceExtendFront(rest, posts[1..], [posts[0]]);
        assert [posts[0]] + posts[1..] == posts;
        rest
  }

  /** Deleting an id that is absent keeps the list as it is. */
  lemma {:induction false} WithoutAbsentId(posts: seq<Post>, id: string)
    requires forall k :: 0 <= k < |posts| ==> posts[k].id != id
    ensures WithoutId(posts, id) == posts
    decreases |posts|
  {
    if posts != [] {
      WithoutAbsentId(posts[1..], id);
      assert [posts[0]] + posts[1..] == posts;
    }
  }

  /** The status of each post, in order. */
  function Statuses(posts: seq<Post>): (r: seq<Status>)
    ensures |r| == |posts| && forall k :: 0 <= k < |posts| ==> r[k] == posts[k].status
  {
    seq(|posts|, k requires 0 <= k < |posts| => posts[k].status)
  }

  /** `filter((p) => p.status === status).length`: how many posts have that status. */
  function CountStatus(posts: seq<Post>, status: Status): (n: nat)
    ensures n <= |posts|
    ensures n == multiset(Statuses(posts))[status]
    decreases |posts|
  {
    if posts == [] then 0
    else
      assert Statuses(posts) == [posts[0].status] + Statuses(posts[1..]);
      (if posts[0].status == status then 1 else 0) + CountStatus(posts[1..], status)
  }

  /** Every post is either a draft or published. */
  lemma {:induction false} CountsPartition(posts: seq<Post>)
    ensures CountStatus(posts, Draft) + CountStatus(posts, Published) == |posts|
    decreases |posts|
  {
    if posts != [] {
      CountsPartition(posts[1..]);
    }
  }

  /** The index of the first post with the latest time among `posts[..n]`: the element
      a stable sort by descending time puts first. */
  function LatestIndex(posts: seq<Post>, n: nat, timeOf: string -> int): (i: nat)
    requires 0 < n <= |posts|
    ensures i < n
    ensures forall k :: 0 <= k < n ==> timeOf(posts[k].postedAt) <= timeOf(posts[i].postedAt)
    ensures forall k :: 0 <= k < i ==> timeOf(posts[k].postedAt) < timeOf(posts[i].postedAt)
    decreases n
  {
    if n == 1 then 0
    else
      var i := LatestIndex(posts, n - 1, timeOf);
      if timeOf(posts[n - 1].postedAt) > timeOf(posts[i].postedAt) then n - 1 else i
  }

  /** `getStats` over a list of posts. `lastPostDate` is the `postedAt` of the first post
      with the latest time, where `timeOf` is `new Date(...).getTime()`. */
  function StatsOf(posts: seq<Post>, timeOf: string -> int): (s: Stats)
    ensures s.totalPosts == |posts| && s.draftCount + s.publishedCount == s.totalPosts
    ensures s.draftCount == CountStatus(posts, Draft) && s.publishedCount == CountStatus(posts, Published)
    ensures s.lastPostDate.None? <==> posts == []
    ensures s.lastPostDate.Some? ==>
      exists i :: 0 <= i < |posts| && posts[i].postedAt == s.lastPostDate.value
        && (forall k :: 0 <= k < |posts| ==> timeOf(posts[k].postedAt) <= timeOf(posts[i].postedAt))
        && (forall k :: 0 <= k < i ==> timeOf(posts[k].postedAt) < timeOf(posts[i].postedAt))
  {
    CountsPartition(posts);
    var last := if |posts| > 0 then Some(posts[LatestIndex(posts, |posts|, timeOf)].postedAt) else None;
    Stats(|posts|, CountStatus(posts, Draft), CountStatus(posts, Published), last)
  }

  /** The history file a write of `posts` at ISO time `now` produces. */
  function Written(posts: seq<Post>, now: string): (file: PostHistoryFile)
    ensures file.version == FileVersion && file.lastUpdated == now
    ensures FromRecords(file.records) == posts
  {
    RecordsRoundTrip(posts);
    PostHistoryFile(FileVersion, ToRecords(posts), now)
  }

  /** `PostHistoryRepository`. The history file it reads and writes is the `disk` field;
      the current ISO time of a write is the parameter `now`. */
  class PostHistoryRepository {
    const filePath: string
    var disk: Disk

    constructor(filePath: string, disk: Disk)
      ensures this.filePath == filePath && this.disk == disk
    {
      this.filePath := filePath;
      this.disk := disk;
    }

    /** `findAll`: the stored posts; a missing file is an empty history, every other
        failure propagates. */
    function FindAll(): (r: Result<seq<Post>, HistoryError>)
      reads this
      ensures disk.Missing? ==> r == Success([])
      ensures disk.Stored? ==>
        r.Success? && |r.value| == |disk.file.records|
        && forall k :: 0 <= k < |r.value| ==> ToRecord(r.value[k]) == disk.file.records[k]
      ensures r.Failure? <==> disk.Unreadable? || disk.NotJson? || disk.NoRecords?
    {
      match disk
      case Missing => Success([])
      case Unreadable => Failure(ReadError)
      case NotJson => Failure(SyntaxError)
      case NoRecords => Failure(TypeError)
      case Stored(file) => Success(FromRecords(file.records))
    }

    /** `findById`: the first post holding `id`, or none; read failures propagate. */
    function FindById(id: string): (r: Result<Option<Post>, HistoryError>)
      reads this
      ensures r.Success? <==> FindAll().Success?
      ensures r.Success? && r.value.Some? ==> r.value.value.id == id && r.value.value in FindAll().value
      ensures r.Success? && r.value.Some? ==>
        exists i :: 0 <= i < |FindAll().value| && FindAll().value[i] == r.value.value
          && forall k :: 0 <= k < i ==> FindAll().value[k].id != id
      ensures r.Success? && r.value.None? ==> forall p :: p in FindAll().value ==> p.id != id
    {
      match FindAll()
      case Failure(e) => Failure(e)
      case Success(posts) => Success(FindId(posts, id))
    }

    /** `saveMultiple`: the file is replaced by version `1.0.0`, the posts' records in
        order and the time `now`, whatever it held before; reading it back gives the
        same posts. */
    method SaveMultiple(posts: seq<Post>, now: string)
      modifies this
      ensures disk == Stored(PostHistoryFile(FileVersion, ToRecords(posts), now))
      ensures FindAll() == Success(posts)
    {
      disk := Stored(Written(posts, now));
    }

    /** `save`: an upsert by id followed by a full rewrite. A failed read leaves the
        file alone. */
    method Save(post: Post, now: string) returns (r: Outcome<HistoryError>)
      modifies this
      ensures old(FindAll()).Failure? ==> r == Fail(old(FindAll()).error) && disk == old(disk)
      ensures old(FindAll()).Success? ==>
        r.Pass? && disk == Stored(PostHistoryFile(FileVersion, ToRecords(Upsert(old(FindAll()).value, post)), now))
      ensures r.Pass? ==> FindById(post.id) == Success(Some(post))
      ensures r.Pass? && UniqueIds(old(FindAll()).value) ==> UniqueIds(FindAll().value)
    {
      var all := FindAll();
      if all.Failure? {
        return Fail(all.error);
      }
      var records := all.value;
      var index := IndexOfId(records, post.id);
      if index.Some? {
        records := records[index.value := post];
      } else {
        records := records + [post];
      }
      assert records == Upsert(all.value, post);
      FindAfterUpsert(all.value, post);
      if UniqueIds(all.value) { UpsertKeepsIdsUnique(all.value, post); }
      SaveMultiple(records, now);
      return Pass;
    }

    /** `delete`: every post holding `id` goes, the rest keep their order, and the file
        is rewritten even when nothing was removed. */
    method Delete(id: string, now: string) returns (r: Outcome<HistoryError>)
      modifies this
      ensures old(FindAll()).Failure? ==> r == Fail(old(FindAll()).error) && disk == old(disk)
      ensures old(FindAll()).Success? ==>
        r.Pass? && disk == Stored(PostHistoryFile(FileVersion, ToRecords(WithoutId(old(FindAll()).value, id)), now))
      ensures r.Pass? ==> FindById(id) == Success(None)
    {
      var all := FindAll();
      if all.Failure? {
        return Fail(all.error);
      }
      var filtered := WithoutId(all.value, id);
      SaveMultiple(filtered, now);
      return Pass;
    }

    /** `getStats` over the stored posts; `timeOf` is the date parser's millisecond
        time. */
    function GetStats(timeOf: string -> int): (r: Result<Stats, HistoryError>)
      reads this
      ensures r.Success? <==> FindAll().Success?
      ensures r.Success? ==>
        r.value.totalPosts == |FindAll().value|
        && r.value.draftCount + r.value.publishedCount == r.value.totalPosts
        && (r.value.lastPostDate.None? <==> FindAll().value == [])
      ensures r.Success? ==> r.value == StatsOf(FindAll().value, timeOf)
    {
      match FindAll()
      case Failure(e) => Failure(e)
      case Success(posts) => Success(StatsOf(posts, timeOf))
    }

    /** `exists`: whether the file can be read and parsed as JSON; a missing file is
        `false` and every other failure propagates. A JSON file without records exists
        even though `findAll` fails on it. */
    function Exists(): (r: Result<bool, HistoryError>)
      reads this
      ensures r == Success(false) <==> disk.Missing?
      ensures r == Success(true) <==> disk.NoRecords? || disk.Stored?
      ensures disk.NoRecords? ==> r.Success? && FindAll().Failure?
    {
      match disk
      case Missing => Success(false)
      case Unreadable => Failure(ReadError)
      case NotJson => Failure(SyntaxError)
      case _ => Success(true)
    }
  }
}
