# Bookmark list reconciliation, modelled in Dafny

The bookmark manager's client component (`BookmarksClient`) keeps an ordered
list of bookmark rows. It also keeps a few state slots: the `url` and `title`
inputs, the `adding` flag, the `deletingId` marker and the `error` message.
Three sources change the list:

- the realtime change feed: an INSERT prepends its row unless the id is
  present, and a DELETE filters out every entry with the id;
- the add handler: it trims and validates the inputs, picks the title, and,
  once the remote insert answers, prepends the returned row unless its id is
  present;
- the delete handler: it removes the entry at once; if the remote delete
  fails, it re-fetches the row and prepends it with no id check.

Files:

- `wrappers.dfy`: `Option`, for the nullable slots.
- `text.dfy`: JavaScript's `trim` (the ECMAScript whitespace and
  line-terminator set) and `startsWith`.
- `reconcile.dfy`: the list updaters as functions (`PrependIfAbsent`,
  `RemoveId`), id uniqueness, and a trace model. In the trace model any
  interleaving of the five kinds of list update is a sequence of `Step`s.
  The model proves two things about traces:
  - the ids in the list always follow the set-level reading of the trace;
  - every trace without a rollback keeps the ids pairwise distinct.
- `client.dfy`: the class `BookmarksClient` with the component's state slots.
  Each async handler is cut at its await points:
  - `BeginAdd` and `CompleteAdd` for the add handler;
  - `BeginDelete`, `DeleteResponded` and `RollbackResponded` for the delete
    handler.

  Remote replies are parameters of these methods, so any interleaving of
  handler steps and feed events is a sequence of calls on one object. The
  platform URL parser (`new URL(u).hostname`) is the parameter `hostname`; it
  returns `None` where the parser throws.

Behaviour the model keeps as the code has it:

- The rollback prepends the re-fetched row at the front, with no check for its
  id. The model does not repair this. It proves that uniqueness survives the
  rollback exactly when the id is absent (`RollbackKeepsUniqueIdsWhenAbsent`).
  It proves that a row already present is duplicated (`RollbackCanDuplicate`).
  It proves that a failed-then-restored delete keeps the same ids but moves the
  row to the front (`DeleteThenRollback`).
- The add handler raises `adding` before it works out the default title. If
  the title is blank and the URL parser throws, the handler ends there: no
  request is sent, `error` stays empty and `adding` stays raised.
- The realtime channel subscribes to every event kind. UPDATE events leave the
  list alone.
- `deletingId` is cleared when the delete request answers, before any
  re-fetch, whatever the answer.
- A delete, local or from the feed, removes every entry with the id, not just
  one.
- Validation looks at the trimmed URL, not the raw input.
- A validation failure does change state: the error slot is first cleared and
  then set to the message.

## Model

| member | source | states |
|---|---|---|
| `Text.Trim` | components/BookmarksClient.tsx:79-80 | the trimmed input is an infix of the input with only whitespace around it, and it neither starts nor ends with whitespace |
| `Text.TrimEmptyIffBlank` | components/BookmarksClient.tsx:82 | the trimmed URL is empty (the `!trimmedUrl` test) exactly when the raw URL is all whitespace |
| `Text.TrimIdempotent` | components/BookmarksClient.tsx:79-80 | trimming an already trimmed input changes nothing |
| `Reconcile.PrependIfAbsent` | components/BookmarksClient.tsx:56-60 | a row whose id is present leaves the list unchanged; a fresh row becomes the head with the old list behind it in order; the ids become the old ids plus the row's id; uniqueness is kept |
| `Reconcile.RemoveId` | components/BookmarksClient.tsx:62-64 | no entry with the id remains; every other entry keeps its multiplicity; the result is a subsequence of the list (order kept); an absent id changes nothing; uniqueness is kept |
| `Reconcile.RemoveIdIds` | components/BookmarksClient.tsx:122 | after a removal the ids are the old ids minus the removed one |
| `Reconcile.DuplicateInsertIdempotent` | components/BookmarksClient.tsx:56-58 | delivering the same insert twice gives the list one delivery gives |
| `Reconcile.RemoveIdIdempotent` | components/BookmarksClient.tsx:62-64 | removing an id twice is removing it once |
| `Reconcile.RemoveAfterInsert` | components/BookmarksClient.tsx:54-64 | removing the id of a just-inserted row equals removing it from the original list, and gives back the original list when the id was fresh |
| `Reconcile.InsertRemoveCommute` | components/BookmarksClient.tsx:54-64 | an insert and a removal about different ids commute, as lists |
| `Reconcile.RemoveRemoveCommute` | components/BookmarksClient.tsx:62-64 | two removals commute, as lists |
| `Reconcile.UniqueIdsPairwise` | components/BookmarksClient.tsx:58 | the recursive uniqueness invariant is the same as "no two positions share an id" |
| `Reconcile.CountOfId` | components/BookmarksClient.tsx:122 | in a list with unique ids, the filter on a present id drops exactly one entry |
| `Reconcile.RollbackKeepsUniqueIdsWhenAbsent` | components/BookmarksClient.tsx:139 | on a unique list, the unchecked prepend keeps uniqueness if and only if the id is absent, and then the row occurs exactly once, at the front |
| `Reconcile.RollbackCanDuplicate` | components/BookmarksClient.tsx:139 | prepending a row that is already in the list breaks uniqueness |
| `Reconcile.DeleteThenRollback` | components/BookmarksClient.tsx:122-139 | an optimistic removal of a present id followed by the rollback of the row re-fetched by that id (whose other fields may differ from the list's entry) keeps the ids, the length and uniqueness, and puts the row first |
| `Reconcile.HasId` | components/BookmarksClient.tsx:58 | `prev.some((b) => b.id === id)` holds exactly when the id is among the list's ids (also the test at line 109) |
| `Reconcile.Apply` | components/BookmarksClient.tsx:54-139 | one update from any source: the ids change as the set-level reading of the step says, the list grows by at most one, every step but the rollback keeps uniqueness, and the rollback prepends its row to the unchanged list |
| `Reconcile.Run` | components/BookmarksClient.tsx:54-139 | a trace of updates applied in order adds at most one entry per step |
| `Reconcile.RunIdsOfDisjointTrace` | components/BookmarksClient.tsx:54-139 | when no id is both inserted and removed by a trace, its set-level reading is the starting ids plus the inserted ids minus the removed ids, whatever the order of the steps |
| `Reconcile.DisjointTraceIds` | components/BookmarksClient.tsx:54-139 | for such a trace the list ends holding exactly the snapshot's ids plus the inserted ids minus the removed ids, in any interleaving |
| `Reconcile.RunRefinesIds` | components/BookmarksClient.tsx:54-139 | for any interleaving of feed inserts and deletes, add successes, optimistic deletes and rollbacks, the ids in the list are exactly those the set-level reading of the trace gives |
| `Reconcile.RunKeepsUniqueIds` | components/BookmarksClient.tsx:54-122 | from a unique snapshot, every interleaving without a rollback keeps the ids pairwise distinct |
| `Text.StartsWith` | components/BookmarksClient.tsx:83 | `s.startsWith(p)` holds exactly when `p` is no longer than `s` and is the prefix of `s` of that length |
| `Client.HasHttpScheme` | components/BookmarksClient.tsx:83 | the scheme test holds exactly when the URL's first 7 characters are "http://" or its first 8 are "https://" |
| `Client.PlanAdd` | components/BookmarksClient.tsx:79-95 | rejects exactly a blank URL (with "URL is required.") or a trimmed URL without an http/https scheme (with the scheme message); otherwise it requests the trimmed URL, titled with the trimmed title if that is non-blank, else with the parser's hostname, and it throws when that parser throws |
| `Client.BookmarksClient.constructor` | components/BookmarksClient.tsx:20-25 | the list is the snapshot as given, the inputs and error are empty, nothing is in flight |
| `Client.BookmarksClient.EditUrl` | components/BookmarksClient.tsx:215 | the URL input takes the typed value; nothing else changes |
| `Client.BookmarksClient.EditTitle` | components/BookmarksClient.tsx:228 | the title input takes the typed value; nothing else changes |
| `Client.BookmarksClient.OnRemoteChange` | components/BookmarksClient.tsx:51-66 | an INSERT applies PrependIfAbsent, a DELETE applies RemoveId, other events change nothing; no other slot changes; uniqueness is kept |
| `Client.BookmarksClient.BeginAdd` | components/BookmarksClient.tsx:76-97 | follows PlanAdd: on rejection the error is the message and the list, inputs and `adding` are unchanged with no request; otherwise the error is cleared, `adding` is raised, and the request is sent unless the parser threw |
| `Client.BookmarksClient.CompleteAdd` | components/BookmarksClient.tsx:99-115 | `adding` is lowered; on error the message is shown and the list and inputs are unchanged; on success a returned row is prepended only if its id is absent and the inputs are cleared; uniqueness is kept |
| `Client.BookmarksClient.BeginDelete` | components/BookmarksClient.tsx:119-122 | marks the id as being deleted and removes every entry with it before any reply; uniqueness is kept |
| `Client.BookmarksClient.DeleteResponded` | components/BookmarksClient.tsx:124-131 | the mark is cleared whatever the reply; a re-fetch follows exactly when the delete failed; nothing else changes |
| `Client.BookmarksClient.RollbackResponded` | components/BookmarksClient.tsx:131-141 | the error becomes the delete's message; a re-fetched row goes to the front unconditionally (length grows by one); uniqueness then holds again exactly when its id was absent |
| `Client.FeedThenDeleteScenario` | components/BookmarksClient.tsx:54-131 | on one component: a snapshot [A, B], a feed insert of C, a delete of B that the server accepts: the list ends as [C, A] and no delete is marked |
| `Client.AddRacesFeedScenario` | components/BookmarksClient.tsx:54-115 | on one component: an add of "https://x.com" with a blank title, the feed delivers the inserted row before the add's reply, then the reply brings the same row: the list holds that row once, and `adding` is lowered |
| `Client.FeedThenDeleteLists` | components/BookmarksClient.tsx:56-64 | with three distinct ids, a feed insert on [A, B] gives [C, A, B], and removing B's id then gives [C, A] |

## Left out

- The live indicator (`flashLive` and its 1.5 s timer): it is timer-driven UI and has no effect on the list.
- `formatDate`, `getDomain` and all rendering: they are presentation, and depend on locale and the platform URL parser.
- The platform URL parser: it stands as the parameter `hostname`, with `None` for a throw; the model proves nothing about which URLs it accepts.
- Supabase calls, the channel subscription, its server-side `user_id` filter and its teardown: these are network I/O. Their replies are method parameters, and the model does not check that feed rows belong to the user.
- Unmounting: replies that arrive after the component is gone are not modelled.
- True concurrency: interleavings are sequences of calls on one object, each step running to its await point. This matches the single UI thread and the functional list updaters.
- React's batching of state updates: each setter takes effect in program order. The list updaters are functional, so batching does not change their result.
- Ordering by `createdAt`: the client never sorts, so the timestamp is an opaque string.
- The server pages and the OAuth route (`app/page.tsx`, `app/dashboard/page.tsx`, `app/auth/google/route.ts`): they are redirects, the server fetch and presentation fallbacks, so they are not part of this model.
