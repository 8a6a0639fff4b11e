/** The bookmark component: its state slots, the realtime callback, and the
    add and delete handlers, each handler cut at its await points into one
    method per step so that any interleaving with feed events is a sequence
    of calls on one object. Remote replies are passed in as parameters. */
module Client {

  import opened Wrappers
  import opened Text
  import opened Reconcile

  const UrlRequired: string := "URL is required."
  const SchemeRequired: string := "URL must start with \"http://\" or \"https://\"."

  /** The scheme test of the add handler: `u` begins with "http://" or
      with "https://". */
  predicate HasHttpScheme(u: string)
    ensures HasHttpScheme(u) <==>
      (|u| >= 7 && u[..7] == "http://") || (|u| >= 8 && u[..8] == "https://")
  {
    StartsWith(u, "http://") || StartsWith(u, "https://")
  }

  /** The row the add handler asks the remote store to insert. */
  datatype NewRow = NewRow(userId: string, url: string, title: string)

  /** What the synchronous part of the add handler ends in: a validation
      message, the URL parser throwing while the default title is worked
      out, or an insert request. */
  datatype AddPlan = Reject(message: string) | Throw | Insert(row: NewRow)

  /** The synchronous part of the add handler on the current inputs.
      `hostname` is the platform URL parser (`new URL(u).hostname`); `None`
      stands for the parser throwing. */
  function PlanAdd(userId: string, url: string, title: string, hostname: string -> Option<string>): (p: AddPlan)
    ensures p.Reject? <==> AllWhitespace(url) || !HasHttpScheme(Trim(url))
    ensures p.Reject? ==> p.message == if AllWhitespace(url) then UrlRequired else SchemeRequired
    ensures p.Insert? ==> p.row.userId == userId && p.row.url == Trim(url) && HasHttpScheme(p.row.url)
    ensures p.Insert? && !AllWhitespace(title) ==> p.row.title == Trim(title) && p.row.title != []
    ensures p.Insert? && AllWhitespace(title) ==> hostname(Trim(url)) == Some(p.row.title)
    ensures p.Throw? <==> !p.Reject? && AllWhitespace(title) && hostname(Trim(url)) == None
  {
    TrimEmptyIffBlank(url);
    TrimEmptyIffBlank(title);
    var u := Trim(url);
    var t := Trim(title);
    if u == [] then Reject(UrlRequired)
    else if !HasHttpScheme(u) then Reject(SchemeRequired)
    else if t != [] then Insert(NewRow(userId, u, t))
    else match hostname(u)
      case None => Throw
      case Some(h) => Insert(NewRow(userId, u, h))
  }

  /** The reply to the insert request: an error, or possibly a row. */
  datatype InsertReply = InsertFailed(message: string) | InsertDone(data: Option<Bookmark>)

  /** An event of the realtime channel. The channel listens to every event
      kind, so updates arrive too; the list ignores them. */
  datatype Change = Inserted(record: Bookmark) | Deleted(id: Id) | Updated(record: Bookmark)

  class BookmarksClient {
    const userId: string
    var bookmarks: seq<Bookmark>
    var url: string
    var title: string
    var adding: bool
    var deletingId: Option<Id>
    var error: string

    /** The invariant every update except the rollback keeps. */
    ghost predicate IdsUnique()
      reads this
    {
      UniqueIds(bookmarks)
    }

    /** Mounting: the list starts as the server's snapshot, as given. */
    constructor (userId: string, initialBookmarks: seq<Bookmark>)
      ensures this.userId == userId && bookmarks == initialBookmarks
      ensures url == "" && title == "" && !adding && deletingId == None && error == ""
      ensures IdsUnique() <==> UniqueIds(initialBookmarks)
    {
      this.userId := userId;
      bookmarks := initialBookmarks;
      url, title := "", "";
      adding := false;
      deletingId := None;
      error := "";
    }

    /** Typing into the URL field. */
    method EditUrl(value: string)
      modifies this
      ensures url == value
      ensures bookmarks == old(bookmarks) && title == old(title) && adding == old(adding)
      ensures deletingId == old(deletingId) && error == old(error)
    {
      url := value;
    }

    /** Typing into the title field. */
    method EditTitle(value: string)
      modifies this
      ensures title == value
      ensures bookmarks == old(bookmarks) && url == old(url) && adding == old(adding)
      ensures deletingId == old(deletingId) && error == old(error)
    {
      title := value;
    }

    /** The realtime callback. */
    method OnRemoteChange(change: Change)
      modifies this
      ensures change.Inserted? ==> bookmarks == PrependIfAbsent(old(bookmarks), change.record)
      ensures change.Deleted? ==> bookmarks == RemoveId(old(bookmarks), change.id)
      ensures change.Updated? ==> bookmarks == old(bookmarks)
      ensures url == old(url) && title == old(title) && adding == old(adding)
      ensures deletingId == old(deletingId) && error == old(error)
      ensures old(IdsUnique()) ==> IdsUnique()
    {
      match change {
        case Inserted(record) =>
          if !HasId(bookmarks, record.id) {
            bookmarks := [record] + bookmarks;
          }
        case Deleted(id) =>
          bookmarks := RemoveId(bookmarks, id);
        case Updated(_) =>
      }
    }

    /** The add handler up to its await: clear the error, validate the
        trimmed URL, raise `adding`, work out the title and hand back the
        insert request. When the title is blank and the URL parser throws,
        the handler stops with `adding` still raised and no request. */
    method BeginAdd(hostname: string -> Option<string>) returns (request: Option<NewRow>)
      modifies this
      ensures match PlanAdd(userId, old(url), old(title), hostname)
        case Reject(message) => error == message && request == None && adding == old(adding)
        case Throw => error == "" && request == None && adding
        case Insert(row) => error == "" && request == Some(row) && adding
      ensures bookmarks == old(bookmarks) && url == old(url) && title == old(title)
      ensures deletingId == old(deletingId)
    {
      error := "";
      var trimmedUrl := Trim(url);
      var trimmedTitle := Trim(title);
      TrimEmptyIffBlank(url);
      TrimEmptyIffBlank(title);
      if trimmedUrl == [] {
        error := UrlRequired;
        return None;
      }
      if !StartsWith(trimmedUrl, "http://") && !StartsWith(trimmedUrl, "https://") {
        error := SchemeRequired;
        return None;
      }
      adding := true;
      var rowTitle := trimmedTitle;
      if rowTitle == [] {
        var host := hostname(trimmedUrl);
        if host == None {
          return None;
        }
        rowTitle := host.value;
      }
      request := Some(NewRow(userId, trimmedUrl, rowTitle));
    }

    /** The add handler after its await. */
    method CompleteAdd(reply: InsertReply)
      modifies this
      ensures !adding && deletingId == old(deletingId)
      ensures reply.InsertFailed? ==>
        error == reply.message && bookmarks == old(bookmarks) && url == old(url) && title == old(title)
      ensures reply.InsertDone? ==> error == old(error) && url == "" && title == ""
      ensures reply == InsertDone(None) ==> bookmarks == old(bookmarks)
      ensures reply.InsertDone? && reply.data.Some? ==>
        bookmarks == PrependIfAbsent(old(bookmarks), reply.data.value)
      ensures old(IdsUnique()) ==> IdsUnique()
    {
      adding := false;
      if reply.InsertFailed? {
        error := reply.message;
        return;
      }
      if reply.data.Some? {
        var data := reply.data.value;
        if !HasId(bookmarks, data.id) {
          bookmarks := [data] + bookmarks;
        }
      }
      url := "";
      title := "";
    }

    /** The delete handler up to its await: mark the id and remove it at
        once, before any reply. */
    method BeginDelete(id: Id)
      modifies this
      ensures deletingId == Some(id)
      ensures bookmarks == RemoveId(old(bookmarks), id)
      ensures url == old(url) && title == old(title) && adding == old(adding) && error == old(error)
      ensures old(IdsUnique()) ==> IdsUnique()
    {
      deletingId := Some(id);
      bookmarks := RemoveId(bookmarks, id);
    }

    /** The delete handler after the delete request: the mark is cleared
        whatever the reply; on a failure the handler goes on to re-fetch. */
    method DeleteResponded(failure: Option<string>) returns (refetch: bool)
      modifies this
      ensures refetch <==> failure.Some?
      ensures deletingId == None
      ensures bookmarks == old(bookmarks) && url == old(url) && title == old(title)
      ensures adding == old(adding) && error == old(error)
    {
      deletingId := None;
      refetch := failure.Some?;
    }

    /** The delete handler after the re-fetch: the row found, if any, goes
        back at the FRONT of the list, with no check for its id, and the
        delete's error message is shown. */
    method RollbackResponded(refetched: Option<Bookmark>, failureMessage: string)
      modifies this
      ensures error == failureMessage
      ensures refetched.None? ==> bookmarks == old(bookmarks)
      ensures refetched.Some? ==>
        |bookmarks| == |old(bookmarks)| + 1 && bookmarks[0] == refetched.value && bookmarks[1..] == old(bookmarks)
      ensures url == old(url) && title == old(title) && adding == old(adding) && deletingId == old(deletingId)
      ensures refetched.Some? && old(IdsUnique()) ==> (IdsUnique() <==> !HasId(old(bookmarks), refetched.value.id))
    {
      if refetched.Some? {
        if IdsUnique() {
          RollbackKeepsUniqueIdsWhenAbsent(bookmarks, refetched.value);
        }
        bookmarks := [refetched.value] + bookmarks;
      }
      error := failureMessage;
    }
  }

  const RowA := Bookmark("1", "u", "https://a.example", "A", "t1")
  const RowB := Bookmark("2", "u", "https://b.example", "B", "t0")
  const RowC := Bookmark("3", "u", "https://c.example", "C", "t2")

  /** A snapshot of two rows, a feed insert of a newer row, then a delete
      that the server accepts: the list ends as the new row then the first. */
  method FeedThenDeleteScenario() returns (final: seq<Bookmark>, marked: Option<Id>)
    ensures final == [RowC, RowA] && marked == None
  {
    var a, b, c := RowA, RowB, RowC;
    FeedThenDeleteLists(a, b, c);
    var client := new BookmarksClient("u", [a, b]);
    client.OnRemoteChange(Inserted(c));
    client.BeginDelete(b.id);
    var refetch := client.DeleteResponded(None);
    assert !refetch;
    final, marked := client.bookmarks, client.deletingId;
  }

  lemma FeedThenDeleteLists(a: Bookmark, b: Bookmark, c: Bookmark)
    requires a.id != b.id && c.id != a.id && c.id != b.id
    ensures PrependIfAbsent([a, b], c) == [c, a, b]
    ensures RemoveId([c, a, b], b.id) == [c, a]
  {
    assert !HasId([a, b], c.id) by {
      forall x | x in [a, b] ensures x.id != c.id { }
    }
    assert [c, a, b][1..] == [a, b] && [a, b][1..] == [b] && [b][1..] == [];
    assert RemoveId([b], b.id) == [];
    assert RemoveId([a, b], b.id) == [a];
  }

  /** An add whose row the feed delivered first: one entry for that id. */
  method AddRacesFeedScenario(hostname: string -> Option<string>) returns (final: seq<Bookmark>, busy: bool)
    requires hostname("https://x.com") == Some("x.com")
    ensures final == [Bookmark("7", "u", "https://x.com", "x.com", "t")] && !busy
  {
    var row := Bookmark("7", "u", "https://x.com", "x.com", "t");
    var client := new BookmarksClient("u", []);
    client.EditUrl("https://x.com");
    TrimOfTrimmed("https://x.com");
    TrimOfTrimmed("");
    var request := client.BeginAdd(hostname);
    assert request == Some(NewRow("u", "https://x.com", "x.com"));
    client.OnRemoteChange(Inserted(row));
    client.CompleteAdd(InsertDone(Some(row)));
    assert client.url == "";
    final, busy := client.bookmarks, client.adding;
  }
}
