# A verified model of musicd's core

musicd is a music daemon written in C. This project models the parts of it that decide something
and do not merely call a library, and proves what they promise.

| area | modules | source |
|---|---|---|
| shared definitions | `Common` | |
| thread pool | `TaskPool`, `TaskRuns`, `TaskQueue` | `src/task.c` |
| growable buffer | `Strings` | `src/strings.c` |
| JSON serializer | `Json`, `JsonParser` | `src/json.c` |
| session table | `Session`, `SessionAccounts`, `SessionTable` | `src/session.c` |
| library store | `LibraryTree`, `Library`, `LibraryRows`, `LibraryStore` | `src/library.c` |
| query compiler | `Like`, `QueryFilters`, `QueryGaps`, `QueryIds`, `QueryReader`, `QuerySort`, `QueryOrder`, `QueryObject`, `QueryResults`, `QueryNames`, `QueryHandlers`, `QueryAnswers` | `src/query.c`, `src/protocol_http.c` |
| HTTP input | `HttpArgs`, `Http`, `HttpRequests`, `Client` | `src/protocol_http.c`, `src/client.c` |
| cue sheets | `Cue`, `CueSheets` | `src/cue.c` |

Each area has two layers. A module of values says what an operation does as a function, and proves
the laws: invariants over all runs, round trips, meaning preserved. A class or a method with the
source's own loops and assignments is proved to do what the function says, so the laws hold of it.

- **Pool.** Each section under `task_mutex` is one step of `TaskPool.Next`. A run is any sequence of
  steps that are possible, with any number of submissions at any point. `TaskQueue.Pool` has the
  linked tasks on the heap.
- **JSON.** A document is emitted as a flat stream of calls; only the buffer and one comma flag
  connect them. `JsonParser` is an independent reader that follows the grammar of sections 2 to 7 of
  RFC 8259; null, fractions, exponents and `\u`, which the writer has no call for, it does not read.
- **Sessions.** The list is newest first. The clock and the random numbers are inputs; an id must
  become free at some draw. `SessionAccounts` tells the fields of a session from the operations of the run.
- **Library.** A table is a map from rowid to row, a statement an operation on the maps. The meaning
  of a deletion, `Library.Remove`, is stated once; the recursive procedure is proved to compute it.
  `LibraryRows` says of every addition and deletion which rows are there afterwards.
  `LibraryTree` has the directory table as a graph, with any parent ids, and the recursion call by call.
- **Queries.** A WHERE clause is a conjunction of conditions with `?` marks. `Like.Matches` is the
  LIKE of SQLite, `QueryFilters.Evaluate` binds the k-th value to the k-th mark, and `QueryReader` and
  `QueryOrder` read the text that is built as a database does. `QueryAnswers` goes the whole way from a
  client's argument names and values to the rows and their order.
- **HTTP.** `HttpRequests.Asks` says of which bytes a request consists. `Http.Batch` parses a whole stream at once. `Http.Process` is what one call of
  `client_process` makes of the bytes that have arrived; `Client.Step` is the whole call, with its
  four states, and is proved to refine it.
- **Cue.** `Cue.Batch` splits the lines at TRACK and then computes every duration. The loop with two
  slots is proved to add the same tracks. `CueSheets` has each field of a track from the lines of its section.

A `char` stands for a byte.

## Where code and documentation differ

The model follows the code. For each difference a lemma says exactly when the promise is kept, for all
inputs; where that is not plain from the condition, another gives a run or an input that breaks it.

- The header comment of `src/task.c:27-38` says that running workers do not hold back other tasks. When
  all threads are busy, a non-worker that is submitted can start at once if and only if fewer than 32
  threads are live, fewer than four workers run, and no task is queued (`TaskRuns.NonWorkerStarts`). In
  `NonWorkerHeldBack` it waits because four workers run; in `NonWorkerOutrun` three workers run on four
  threads, and it waits because the thread spawned for it takes an earlier task. `NextToStart` has the
  condition for every reachable state, busy or not.
- A referenced session can be freed. This happens if and only if the newest session is referenced and no
  unreferenced one was requested before it (`Session.VictimReferenced`). `session_new` leaves the last
  request at zero, so a newest session that has not been requested is always the victim
  (`NewestIsVictim`), and of two sessions created in a row on a full table the second costs the first
  (`SecondCostsFirst`). In the run of `ReferencedEvicted` the victim is the only session that is
  referenced. The branch for "all sessions in use" cannot be reached from a full table (`VictimExists`).
- `bind_filters` binds values for filters that the format has no column for. The values stay aligned with
  the placeholders, and the statement selects the right rows for all texts, if and only if no unmapped
  text filter precedes a mapped one (`QueryFilters.Alignment`, `QueryGaps.MeaningExactly`);
  `QueryFilters.MisboundFilter` is an artist query that selects a wrong row.
- The text filters and the directory filter mean "contains" and "directly below" if and only if the text
  has no `%` or `_` (`Like.SubstringMeaning`, `Like.DirectoryMeaning`).
- The comment in `src/query.c:256-257` promises a list of numbers, but only characters are filtered. The
  statement prepares if and only if no comma is at either end of what is kept and no two are in a row
  (`QueryIds.IdFilterMeaning`).
- `src/query.h:62-65` promises at most `limit` rows for a limit that is not negative. With limit 0 and no
  positive offset the clause is left out (`QueryResults.LimitKept`). The HTTP handlers set positive limits
  only and so keep the promise (`HttpArgs.ParseQueryBounds`).
- Member names are not escaped, and control characters other than five are copied. A document reads back
  if and only if it has none of these (`JsonParser.RoundTrip`).
- A protocol may ask for more data before it is detected (`src/protocol.h:33-36`), but `find_protocol`
  takes that for a refusal. A stream with requests, none with a header over the limit, is delivered if and
  only if the first read has a whole method (`Http.ShortFirstRead`).
- The header limit is tested only while the end of the headers is missing. What is delivered does not
  depend on how the stream is cut if and only if no request has a header that exceeds the limit before its
  last byte (`Http.CutsAgree`); any other stream is delivered whole in one read (`OneReadDelivers`) and
  loses requests in another cut (`LosingCut`).
- The reply "400 Bad Request" is written to `outbuf` and the client is closed at once by
  `src/server.c:110-114`, so it is never sent (`Client.EndsDrainedOrRefused`).
- `src/protocol.h:53-57` promises a feed whenever a feeding client can take data. It is asked for if and
  only if, besides, nothing is left in `inbuf` (`Client.FeedAsked`): while the first bytes of another
  request are there and no more arrive, the client never produces more than the handler wrote before the
  stream, whatever that is and however it is sent, so no number of calls feeds the stream (`StreamStalls`).
- The cue file of a track is not a maintained reference. Additions keep all cue files live, and a deletion
  does if and only if every track whose cue file goes loses its own file as well
  (`Library.RemoveKeepsCuefiles`); `CuefileDangles` is a run in which one is left dangling.
- `library_directory` takes any parent id and `library_directory_delete` has no guard. A deletion ends if
  and only if the directory is not its own ancestor (`LibraryTree.EndsExactly`); it then removes the least
  set of directories that holds this one and the children of all its members (`DirectoryDelete`). With ids
  of rows that exist it always ends (`Library.DeletionEnds`); `Library.OwnParent` is an addition after
  which it does not.
- A cue sheet in which INDEX 01 comes before the first TRACK dereferences a null pointer; all others are
  read as specified (`Cue.CueRead`).

## Model

| member | source | states |
|---|---|---|
| TaskPool.Skipped | src/task.c:55-60 | every queued task in front of the one that is taken is a worker, the one taken is not, and the worker limit is reached at that moment |
| TaskPool.CountersLook | src/task.c:55-70 | a thread that finds nothing may exit: counters stay exact and within 4 and 32, and a queue that is not empty keeps a live thread |
| TaskPool.CountersSubmit | src/task.c:117-144 | the same when a task is submitted and the pool may decline to spawn a thread |
| TaskPool.AccountedLook | src/task.c:72-92 | taking a task out of the queue counts as its one start, and changes the account of no other task |
| TaskPool.AccountedNotify | src/task.c:107-111 | letting go of a task is its one signal, or its one release if it was launched detached |
| TaskPool.OrderLook | src/task.c:55-83 | no start breaks the order: over the whole history a task precedes an earlier one only if the earlier is a worker and the later is not |
| TaskPool.InvariantStep | src/task.c:47-144 | every step of any thread or submitter keeps counters, queue shape, thread shape, start order and the account of every task |
| TaskPool.InvariantRun | src/task.c:47-144 | so does every run |
| TaskRuns.CountersAreExact | src/task.c:40-45 | after any run active_workers is the number of threads in a worker task and at most 4, active_threads the number of live threads and at most 32, and no queued task is stranded without a thread |
| TaskRuns.SubmitSpawns | src/task.c:117-144 | after any run a submitted task of any kind, detached or not, gets one more thread, about to look for work, if and only if fewer than 32 threads are live and fewer than four are inside workers; no other thread moves, and the task is last in the queue |
| TaskRuns.LookTakes | src/task.c:53-93 | after any run a thread that looks takes the first queued task that is no worker or finds fewer than four inside workers, whatever its place, and exits if there is none |
| TaskRuns.ExitLeavesFourWorkers | src/task.c:62-70 | a thread that exits with tasks queued leaves four others running workers, and only workers in the queue |
| TaskRuns.Overtaking | src/task.c:55-60 | a task is started before an earlier one still queued only if the earlier is a worker, the later is not, and four workers run at that moment |
| TaskRuns.EachKindInOrder | src/task.c:121-127 | over a whole run workers start in submission order, and so do the other tasks |
| TaskRuns.MeasureRun | src/task.c:52-112 | without further submissions every step brings the end exactly one step nearer |
| TaskRuns.NeverStuck | src/task.c:52-112 | while anything is left to do some thread can take a step |
| TaskRuns.EveryTaskCompletes | src/task.c:52-144 | once submissions stop every continuation ends within a known number of steps, and it ends with an empty queue, no threads, and every task run exactly once and signalled once or freed once |
| TaskRuns.NextToStart | src/task.c:55-140 | after any run, a non-worker that is submitted can be started by the next thread to take the lock if and only if some thread is about to look or is spawned, and no queued task may run |
| TaskRuns.NonWorkerStarts | src/task.c:129-140 | a non-worker submitted while all threads are inside tasks can be started by the next thread to take the lock if and only if fewer than 32 threads are live, fewer than four workers run, and nothing is queued |
| TaskRuns.NonWorkerHeldBack | src/task.c:129-140 | a run after which a non-worker is queued with 28 more threads allowed and none to run it |
| TaskRuns.NonWorkerOutrun | src/task.c:117-144 | a run after which a non-worker is queued with three workers running, five threads live, and the thread spawned for it inside an earlier task |
| TaskQueue.Pool.constructor | src/task.c:43-45 | the pool starts empty, with both counters at zero |
| TaskQueue.Pool.Link | src/task.c:121-127 | appending to the links is appending to the sequence they form, forwards and backwards, and the list stays acyclic |
| TaskQueue.Pool.Start | src/task.c:117-144 | the heap and the counters change as the pool's submission step says; a thread is spawned and counted if and only if the counters are below 32 and 4 |
| TaskQueue.Pool.Launch | src/task.c:176-182 | the same for a task that is marked detached |
| TaskQueue.Pool.Unlink | src/task.c:72-83 | unlinking at any position removes exactly that task from the sequence and leaves a well-formed list |
| TaskQueue.Pool.Find | src/task.c:55-60 | the walk ends at the first task that may run now, or at the end |
| TaskQueue.Pool.Take | src/task.c:53-93 | the first locked section of the loop is the pool's look step, and returns the task that left the queue |
| TaskQueue.Pool.Finish | src/task.c:95-105 | the second locked section gives back the worker slot of a worker and nothing else |
| Strings.GrownBounds | src/strings.c:76-79 | the doubling loop ends with enough space, at least double the old capacity and below twice the need |
| Strings.WellSizedStep | src/strings.c:70-157 | no operation breaks the bounds on size, capacity and copied bytes |
| Strings.QueueRun | src/strings.c:128-157 | any run holds what was appended less what was removed from the front |
| Strings.Amortised | src/strings.c:29-157 | from string_new the buffer is a byte queue, its capacity is 64 or below twice the peak size, and all blocks ever copied together are below twice the peak size |
| Strings.String.constructor | src/strings.c:29-37 | an empty, terminated buffer with 64 bytes of capacity |
| Strings.String.EnsureSpace | src/strings.c:70-82 | the text is kept, the capacity is the least sufficient doubling, and the old block is copied only if it grows |
| Strings.String.Append | src/strings.c:128-141 | the bytes are added at the end and the terminator follows them |
| Strings.String.PushBack | src/strings.c:143-148 | one byte is added at the end and the terminator follows it |
| Strings.String.RemoveFront | src/strings.c:150-157 | the first n bytes go, the rest moves to the front, the capacity stays |
| Json.EmitsText | src/json.c:22-127 | from any buffer and comma state the calls of a document append a pending comma and exactly the document's text, and leave the flag set |
| Json.EmitsMembers | src/json.c:70-74 | further members of an object append their text with one comma before each |
| Json.EmitsItems | src/json.c:58-68 | further items of an array append their text with one comma before each |
| Json.Writer.WriteComma | src/json.c:22-28 | a pending comma is written and the flag cleared |
| Json.Writer.Begin | src/json.c:46-62 | an opening bracket after a pending comma, leaving no comma pending |
| Json.Writer.End | src/json.c:52-68 | a closing bracket with no comma before it, leaving one pending |
| Json.Writer.DefineMember | src/json.c:70-74 | the quoted name and a colon, leaving no comma pending |
| Json.Writer.Bool | src/json.c:76-81 | a literal after a pending comma, leaving one pending |
| Json.Writer.Int | src/json.c:83-95 | a decimal number after a pending comma, leaving one pending |
| Json.Writer.EscapedChar | src/json.c:111-121 | the search over the escape table replaces exactly its seven characters |
| Json.Writer.EscapedChars | src/json.c:110-123 | the loop over the bytes appends the escaped text |
| Json.Writer.String | src/json.c:101-127 | the quoted, escaped string; a null pointer is written as the empty string |
| JsonParser.EscapeInverse | src/json.c:97-99 | each escape that is written reads back as the character it stands for |
| JsonParser.ReadsString | src/json.c:101-127 | an escaped string without other control characters reads back as itself |
| JsonParser.RejectsUnclean | src/json.c:119-121 | a string with any other control character is not readable at all |
| JsonParser.RejectsOddName | src/json.c:70-74 | a member name with a quote, a backslash or a control character does not read back as itself |
| JsonParser.ReadsBack | src/json.c:22-127 | the text of any clean document reads back as that document, and reading stops right behind it |
| JsonParser.OnlyCleanReadsBack | src/json.c:22-127 | only clean documents do |
| JsonParser.RoundTrip | src/json.c:30-127 | what the writer's calls leave in a new buffer parses to the document if and only if names are plain and strings clean |
| Session.VictimUnique | src/session.c:65-70 | the rule for eviction determines one session |
| Session.VictimIsOldest | src/session.c:65-70 | the victim was requested no later than any unreferenced session, and is unreferenced unless it is the head; with an unreferenced head it is a least recently used one |
| Session.VictimIsFirst | src/session.c:63-97 | of several unreferenced sessions last requested at the victim's time the newest is the victim |
| Session.VictimReferenced | src/session.c:67-69 | a referenced session is evicted if and only if the newest one is referenced and no unreferenced one was requested earlier |
| Session.NewestIsVictim | src/session.c:65-70 | with times that are not negative, a newest session that was never requested is the one victim, whatever its references |
| Session.SecondCostsFirst | src/session.c:99-123 | in any run, of two sessions created in a row on a full table the second evicts exactly the first, which is still referenced |
| Session.ReferencedEvicted | src/session.c:63-123 | a run at whose end creating a session has evicted the only referenced session of a full table, and no other |
| Session.VictimExists | src/session.c:72-77 | every table that is not empty has a victim, so eviction never fails on a full table |
| Session.GenerateFresh | src/session.c:51-61 | the drawn id is free, and sessions it collided with differ only in their last request |
| Session.InvariantStep | src/session.c:99-147 | every operation keeps ids distinct, the list newest first, reference counts non-negative and the bound of 10000 |
| Session.InvariantRun | src/session.c:99-147 | so does every run |
| Session.EvictionInRun | src/session.c:99-123 | in any run a new session always succeeds with a free id; it costs another only when the table is full, and then one that is unreferenced or the newest alive, with no unreferenced one requested earlier |
| SessionAccounts.AccountsAreExact | src/session.c:34-147 | in every run and for every session in the table, its reference count is one plus the session_gets that returned it less its derefs, and its last request is the time of the last lookup that found it, by session_get or by the draw of an id, zero if none did |
| SessionAccounts.GenerateMarks | src/session.c:34-61 | drawing an id marks exactly the sessions it collides with, each with the time of the last draw of its id |
| SessionAccounts.NewIdIsFirstFree | src/session.c:51-61 | the id of a new session is the first of the draws that no other session has |
| SessionTable.GenerateStep | src/session.c:55-58 | one round of drawing an id either ends with a free id or leaves the same result to be drawn |
| SessionTable.Sessions.Lookup | src/session.c:34-49 | the walk finds the session with the id and marks only that one |
| SessionTable.Sessions.GenerateId | src/session.c:51-61 | the loop ends at the first free id |
| SessionTable.Sessions.FindOldest | src/session.c:65-70 | the loop ends at the victim, and at none only in an empty list |
| SessionTable.Sessions.Unlink | src/session.c:82-90 | exactly the session is removed from a list that stays linked both ways and acyclic |
| SessionTable.Sessions.PurgeOldest | src/session.c:63-97 | exactly the victim is removed and the counter stays the length of the list |
| SessionTable.Sessions.MakeRoom | src/session.c:103 | the loop ends with room for one more, having purged at most one session |
| SessionTable.Sessions.Link | src/session.c:113-117 | the new session becomes the head |
| SessionTable.Sessions.New | src/session.c:99-123 | the table takes the step of creating a session, given that one of the ids drawn is free once there is room |
| SessionTable.Sessions.Get | src/session.c:125-137 | the session with the id is returned, with one reference more and requested now; none if no session has the id |
| SessionTable.Sessions.Deref | src/session.c:139-147 | exactly one reference fewer on the session given, nothing for a null one; the table takes the step of a release when the count was positive |
| Library.ClearFileRecounts | src/library.c:295-305 | recounting the albums of one file leaves every album with the number of its remaining tracks |
| Library.DeleteFileRemoves | src/library.c:293-335 | deleting a file removes exactly its row, its tracks and its images, and keeps the album counts right |
| LibraryRows.FileCleared | src/library.c:293-318 | clearing a file takes exactly its tracks and images; all other rows stay as they are, and each album counts the tracks left |
| LibraryRows.FileDeleted | src/library.c:293-335 | deleting it takes its own row besides |
| Library.RemoveTwice | src/library.c:389-414 | deletions one after the other remove the union |
| LibraryTree.BelowIsLeast | src/library.c:456-489 | for any parent ids, what is at or below a directory is the least set with it and all children of its members |
| LibraryTree.BelowShrinks | src/library.c:394-399 | the recursion is for directories with less below them, and stays among those that are not their own ancestors, whatever has been deleted already |
| LibraryTree.OrderedHasNoCycle | src/library.c:339-363 | where parents precede their children no directory is its own ancestor |
| LibraryTree.CycleStays | src/library.c:400-414 | no row of a cycle is ever the one whose turn it is to be deleted |
| LibraryTree.LongDeletion | src/library.c:394-414 | the deletion of a directory that is its own ancestor has runs of every length |
| LibraryTree.StackDistinct | src/library.c:394-414 | otherwise no two calls in progress are for the same directory |
| LibraryTree.DeletionBound | src/library.c:394-414 | and there are at most two steps for each other directory, one call and one return, and two more |
| LibraryTree.EndsExactly | src/library.c:394-414 | for any table and any order of the rows, the deletion of a directory ends if and only if the directory is not its own ancestor |
| Library.PartialStep | src/library.c:394-399 | for any parent ids, deleting one more child with all below it takes a partly deleted tree to the next one |
| Library.PartialFinish | src/library.c:405-413 | when no child is left, deleting the directory's own row has removed exactly what is at or below it |
| LibraryRows.TreeDeleted | src/library.c:389-414 | deleting a tree takes exactly the directories in every set that holds the one given and all children of its members, the files in them, and these files' tracks and images; no other row changes but the counts |
| Library.RemoveKeepsInvariant | src/library.c:293-413 | removing a set of directories closed under children with their files leaves no dangling reference |
| Library.DeleteTreeKeepsInvariant | src/library.c:400-414 | deleting a tree keeps every reference live and every count right |
| Library.DeletionEnds | src/library.c:339-414 | in every state with the invariant the deletion of any directory ends |
| Library.OwnParent | src/library.c:339-363 | with an id that names nothing yet, the first directory becomes its own parent and its deletion does not end |
| Library.ClearFileKeepsInvariant | src/library.c:293-318 | so does clearing a file |
| Library.DeleteFileKeepsInvariant | src/library.c:321-335 | so does deleting one |
| Library.AddFileKeepsInvariant | src/library.c:207-231 | so does looking up or inserting a file, which then exists with that path |
| Library.AddDirectoryKeepsInvariant | src/library.c:339-363 | so does looking up or inserting a directory, and parents precede their children |
| Library.AddAlbumKeepsInvariant | src/library.c:93-116 | a new album starts with a count of zero and no track has its rowid |
| Library.InsertTrackKeepsInvariant | src/library.c:181-203 | inserting a track and raising its album's counter keeps the counts right |
| Library.AddTrackKeepsInvariant | src/library.c:158-204 | adding a track adds one row, which names the right file and album, and keeps the invariant |
| LibraryRows.TrackAdded | src/library.c:158-204 | in every store with its keys one track row is added, with the title; its artist, album, file and cue file ids name the rows that had the names and paths already, else new ones, 0 for none; a new file row has the given directory, the album counts one track more |
| LibraryRows.FileAdded | src/library.c:207-231 | a file that has a row keeps it; else one with the path and the directory is inserted if the directory is positive, and 0 returned if not |
| LibraryRows.DirectoryAdded | src/library.c:339-363 | the same for a directory and its parent, which may be 0 |
| LibraryRows.ArtistAdded | src/library.c:93-116 | the id returned is that of the row with the name, inserted if there was none; 0 for no name |
| LibraryRows.AlbumAdded | src/library.c:93-116 | the same for an album, a new one without tracks |
| LibraryRows.ImageAdded | src/library.c:492-510 | one image row more, of the file given |
| Library.CuefileDangles | src/library.c:170-172 | a run from the empty store after which a track names a cue file that is gone |
| Library.InvariantStep | src/library.c:158-414 | every operation keeps counts, references, uniqueness and the order of the tree |
| Library.RemoveKeepsCuefiles | src/library.c:321-335 | removing files keeps every cue file live if and only if each track whose cue file goes loses its own file too |
| Library.DeleteFileKeepsCuefiles | src/library.c:321-335 | deleting a file keeps them live if and only if no other file's track names it as its cue file |
| Library.DeleteTreeKeepsCuefiles | src/library.c:400-414 | deleting a tree keeps them live if and only if no track outside it has its cue file inside it |
| Library.AddTrackKeepsCuefiles | src/library.c:158-204 | adding a track keeps them live |
| Library.CountsAndReferences | src/library.c:118-414 | after any sequence of operations each album's stored count is the number of its tracks, and tracks, images, files and directories name live rows |
| Library.CountsStep | src/library.c:118-414 | each operation with any ids keeps every album's stored count the number of its tracks, a deletion of a directory whichever directories and files it comes to remove |
| Library.CountsForAnyIds | src/library.c:118-414 | so the counts are right in every state of every run with any ids |
| LibraryStore.Store.FileRow | src/library.c:207-231 | for any ids, the file table changes as the lookup or insertion says; the invariant is kept when the directory exists |
| LibraryStore.Store.DirectoryRow | src/library.c:339-363 | for any ids, the directory table changes as the lookup or insertion says; the invariant is kept when the parent exists |
| LibraryStore.Store.ArtistRow | src/library.c:93-116 | an existing artist is reused, another one inserted |
| LibraryStore.Store.AlbumRow | src/library.c:93-116 | an existing album is reused, another one inserted with a count of zero |
| LibraryStore.Store.IncrementAlbumTracks | src/library.c:118-132 | counts that were right before a track of this album was inserted are right again |
| LibraryStore.Store.TrackAdd | src/library.c:158-204 | one track row more, with the title and the ids of its artist, album, file and cue file; the invariant is kept when the directory exists |
| LibraryStore.Store.ImageAdd | src/library.c:492-510 | one image row for the file given, under a new rowid; the invariant is kept when the file exists |
| LibraryStore.Store.RecountWithout | src/library.c:295-305 | counts that were right become, for every album, the number of its tracks outside the file |
| LibraryStore.Store.FileClear | src/library.c:293-318 | in any store: recount, then delete, as clearing a file says; the invariant is kept |
| LibraryStore.Store.FileDelete | src/library.c:321-335 | wherever the counts are right, exactly the file, its tracks and its images are removed; the invariant is kept |
| LibraryStore.Store.DeleteFilesIn | src/library.c:260-291 | wherever the counts are right, the loop with its callback removes exactly the files of the directory |
| LibraryStore.Store.DeleteDirectoriesIn | src/library.c:456-489 | for any parent ids, the loop with its recursive callback removes all that is below the directory and leaves no child |
| LibraryStore.Store.DirectoryDelete | src/library.c:400-414 | for any parent ids, wherever the directory is not its own ancestor and the counts are right, the recursion ends and removes exactly the directory and what is below it with its files, tracks and images; the invariant is kept |
| Like.PlainFirst | src/query.c:376-384 | plain text at the front of a pattern matches the same text up to case and nothing else |
| Like.PlainContains | src/query.c:252 | a plain text between two percent signs matches exactly the texts that contain it |
| Like.PlainPrefix | src/query.c:382-384 | a plain text before a percent sign matches exactly the texts that start with it |
| Like.PlainDirectory | src/query.c:349-351 | the two conditions of the directory filter mean that the prefix matches and no slash follows it |
| Like.SubstringMeaning | src/query.c:252 | the text filters mean "contains" for all values if and only if the text has no wildcard |
| Like.DirectoryMeaning | src/query.c:376-381 | the directory filter means "directly below" for all paths if and only if the path has no wildcard |
| QueryFilters.Alignment | src/query.c:330-392 | the k-th bound value belongs to the k-th placeholder, counting both slots of the directory filter, if and only if no unmapped text filter precedes a mapped one |
| QueryFilters.BoundSlots | src/query.c:366-392 | the k-th bound string is the text that belongs to the k-th slot of the set text filters |
| QueryFilters.CompiledSlots | src/query.c:330-363 | the k-th condition with a placeholder is the one of the k-th slot of the mapped text filters |
| QueryFilters.AlignedValues | src/query.c:330-392 | without a gap the k-th bound string belongs to the filter, and the slot of it, that the k-th placeholder's condition is for |
| QueryFilters.CompiledMeaning | src/query.c:330-392 | from any field on, the compiled conditions with the bound values hold of a row if and only if every mapped filter does |
| QueryFilters.FiltersMeaning | src/query.c:330-392 | compiling and binding preserve the meaning of the filters |
| QueryFilters.MisboundFilter | src/query.c:371-374 | the artist query with the client's texts title=Help and artist=Queen selects an artist named Help |
| QueryFilters.WhereMarks | src/query.c:336-360 | the text of a conjunction has one question mark per bound slot and no other |
| QueryFilters.CompiledMarks | src/query.c:330-363 | the WHERE text has exactly as many placeholders as its text filters want values; id lists add none |
| QueryFilters.SanitizedClean | src/query.c:256-264 | what is kept of an id filter is digits and commas |
| QueryFilters.TracksPlain | src/query.c:106-121 | no column expression of the track query has a question mark |
| QueryFilters.ArtistsPlain | src/query.c:134-149 | nor of the artist query |
| QueryFilters.AlbumsPlain | src/query.c:162-177 | nor of the album query |
| QueryGaps.MeaningExactly | src/query.c:330-392 | for given fields, the statement selects the rows that satisfy the filters for all client texts if and only if no unmapped text filter precedes a mapped one |
| QueryGaps.TracksApart | src/query.c:106-121 | no column of the track query is both an id and text |
| QueryGaps.ArtistsApart | src/query.c:134-149 | nor of the artist query |
| QueryGaps.AlbumsApart | src/query.c:162-177 | nor of the album query |
| QueryIds.IdFilterMeaning | src/query.c:256-264 | for every client text, the statement prepares if and only if what is kept has no comma at either end and no two in a row; then it is a list of numbers and exactly the rows with these ids are selected |
| QueryIds.ReadsGroups | src/query.c:355-358 | groups of digits joined by commas are read as their values, leading zeros included |
| QueryIds.IdsRoundTrip | src/query.c:256-264 | ids written in decimal and joined by commas select exactly the rows with these ids |
| QueryReader.ReadsWhere | src/query.c:336-360 | the text of every conjunction with readable columns is read back as that conjunction |
| QueryReader.ReadsCompiled | src/query.c:330-363 | what a database reads in the text of build_filters is the compiled conjunction, because id filters hold digits and commas only |
| QueryReader.TracksReadable | src/query.c:106-121 | every column expression of the track query can be told from the operator behind it |
| QueryReader.ArtistsReadable | src/query.c:134-149 | so can those of the artist query |
| QueryReader.AlbumsReadable | src/query.c:162-177 | and of the album query |
| QuerySort.KnownName | src/query.c:75-88 | no known name is empty, has a comma or starts with the sign |
| QuerySort.ReadsSort | src/query.c:292-327 | every list of known names with directions is parsed as written, and parsing succeeds |
| QuerySort.StopsAtUnknown | src/query.c:307-314 | at the first name that is not known parsing fails, and the rules before it stay |
| QuerySort.AddsInOrder | src/query.c:277-290 | adding rules appends exactly the mapped ones, in order, with commas between |
| QuerySort.SortRoundTrip | src/query.c:277-327 | a sort argument written the documented way appends exactly its mapped rules to the ORDER BY text |
| QueryOrder.SortMeaning | src/query.c:277-327 | after any list of terms and any sort argument written the documented way, what a database reads in the ORDER BY text is these terms and then the columns of the names, in order, descending where the client has put the sign and ascending elsewhere |
| QueryOrder.AddsTerm | src/query.c:277-290 | a rule more is read as one term more, its column and direction, behind all others |
| QueryOrder.TermStable | src/query.c:277-290 | a term is read in the same way whatever text follows it |
| QueryOrder.FormatsSortable | src/query.c:106-177 | every column expression of the three queries can be told from the collation behind it |
| QueryNames.NamesKnown | src/query.c:27-88 | each of the thirteen names is its field, and there are no others |
| QueryNames.TrackColumns | src/query.c:106-121 | the column of a track that each name stands for |
| QueryNames.ArtistColumns | src/query.c:134-149 | the columns of an artist, and that no other name has one |
| QueryNames.AlbumColumns | src/query.c:162-177 | the columns of an album, and that no other name has one |
| QueryNames.NameAsks | src/query.c:243-254 | from the client's name and wildcard-free text to the column of the row: title, artist, album and searches ask that it contains the text, the two names of paths that it is below them, the others that it is the text |
| QueryNames.IdsAsk | src/query.c:256-264 | the three names of ids ask that the column is one of the ids of the list |
| QueryObject.Query.constructor | src/query.c:201-229 | a new query has no filter, no order and no limit |
| QueryObject.Query.Filter | src/query.c:243-265 | one filter is replaced by what is kept of the text, or cleared; id filters go on holding digits and commas only |
| QueryObject.Query.Sort | src/query.c:277-290 | one rule is appended, or nothing for an unmapped field; what a database reads in the order text grows by that column and direction |
| QueryObject.Query.SortFromString | src/query.c:292-327 | the loop ends on every text, adds the rules before the first unknown name, and fails only there |
| QueryObject.SqlIsWhere | src/query.c:335-346 | the text built with the join flag is the text of the conjunction so far |
| QueryObject.Query.BuildFilters | src/query.c:330-363 | the text is that of the compiled conjunction |
| QueryObject.Query.BindFilters | src/query.c:366-392 | the values bound are those of the set text filters, in order |
| QueryObject.Query.Count | src/query.c:394-432 | the number of rows that the conjunction read from the built text selects, or -1 when it does not prepare |
| QueryObject.Query.Index | src/query.c:434-487 | the position of the id in the ordered result of the statement read from the built text, 0 when absent, -1 when it does not prepare |
| QueryObject.Query.Start | src/query.c:489-526 | one page of the ordered result of the statement read from the built text |
| QueryResults.SelectsExactly | src/query.c:330-392 | a query returns exactly the rows of the table that satisfy every mapped filter |
| QueryResults.FilterAsks | src/query.c:243-254 | from the client's wildcard-free text to the row: contains, directly below, starts with, or equals, without regard to case |
| QueryResults.IndexIsFirst | src/query.c:466-482 | the index is the position of the first row with the id, and 0 if there is none |
| QueryResults.CountAndIndexAgree | src/query.c:394-487 | the count is the length of the unlimited result; the index is i if and only if the i-th row has the id, and 0 if and only if no selected row has it |
| QueryResults.PagesCover | src/query.c:505-507 | successive pages concatenate to the whole result |
| QueryResults.LimitKept | src/query.c:505-507 | at most `limit` rows come back for every result if and only if limit or offset is positive |
| QueryHandlers.AnswerMeaning | src/protocol_http.c:544-602 | the list that a client's arguments ask for has exactly the tracks that satisfy every filter, provided that no filter on the number of tracks comes before one on a path or a search |
| QueryHandlers.AnswerSize | src/protocol_http.c:414-420 | its length is the total that is sent along |
| QueryAnswers.AnswerOfArgs | src/protocol_http.c:347-602 | for every list of arguments in any encoding the tracks of the answer are the rows that have what each argument asks in the column of its name, of several for one field the last, provided that no filter on the number of tracks comes with one on a path or a search |
| QueryAnswers.AnswerSorted | src/protocol_http.c:404-602 | the tracks of the answer, and of every page of it, are in the order of the columns the client has named, descending where it has put the sign, by any collation of the database |
| QueryHandlers.Tracks | src/protocol_http.c:544-602 | the handler sends the rows of the list behind the offset, at most limit of them if that is positive, with the total if it is asked for; an error exactly when the statement does not prepare |
| QueryHandlers.TrackIndex | src/protocol_http.c:604-640 | the handler sends where in that list the track is, -1 exactly when it is not there; an error exactly for an id that is not positive or a statement that does not prepare |
| QueryHandlers.PageWith | src/protocol_http.c:544-640 | asking for the index of a track and then for the page with it finds the track in the page, where the index says, exactly when it is in the list |
| HttpArgs.DecodesEncoding | src/protocol_http.c:283-308 | decoding inverts every percent-encoding (section 2.1 of RFC 3986, with plus for space) and stops right behind it |
| HttpArgs.DecodesOnlyEncodings | src/protocol_http.c:283-308 | whatever decodes was an encoding of the result, up to the next ampersand |
| HttpArgs.DecodesByte | src/protocol_http.c:283-308 | a percent sign and the two hexadecimal digits of a byte, each in either case, decode to that byte |
| HttpArgs.BadEscape | src/protocol_http.c:377-388 | after a bad escape in the value of a known name that filter is not set, and parsing goes on inside the value, behind the character after the percent sign |
| HttpArgs.EncodeIsEncoding | src/protocol_http.c:283-308 | every byte string has an encoding |
| HttpArgs.ArgsRoundTrip | src/protocol_http.c:347-390 | for every list of arguments the filters set are the known names with their values, in order; the others are skipped |
| HttpArgs.DecodeUrl | src/protocol_http.c:283-308 | the loop decodes the value and leaves the pointer behind it, or right behind the percent sign of a bad escape |
| HttpArgs.ScanName | src/protocol_http.c:358 | the name ends at the first equals sign or ampersand |
| HttpArgs.ScanValue | src/protocol_http.c:375 | the value of an unknown name is skipped up to the next ampersand |
| HttpArgs.ParseArg | src/protocol_http.c:357-388 | after one round, what the rest of the text still sets completes what the whole text sets, and the rest is shorter |
| HttpArgs.ParseQueryFilters | src/protocol_http.c:347-390 | the loop ends on every text and sets the parsed filters in order |
| HttpArgs.ParseQueryBounds | src/protocol_http.c:392-402 | on a new query the rows asked for are those behind the offset, at most limit of them if that is positive |
| Http.FindEndStable | src/protocol_http.c:1307-1321 | once the end of the headers has arrived it is found at the same place ever after |
| Http.RequestLineStable | src/protocol_http.c:1323-1366 | and the request read from them never changes |
| Http.GotStable | src/protocol_http.c:1301-1393 | and the same number of bytes is consumed |
| HttpRequests.ReadsExactly | src/protocol_http.c:1301-1366 | a request is read, and a number of bytes used, if and only if exactly these bytes are a method, a path, arguments behind a question mark or none, a space, and headers up to the first empty line; it is the request with that path and these arguments |
| HttpRequests.AsksForMore | src/protocol_http.c:1307-1366 | more bytes are asked for if and only if no empty line has arrived and at most 10240 bytes have; what is neither that nor a request is refused |
| HttpRequests.ReadsStream | src/protocol_http.c:1301-1366 | the requests of a stream are those its texts ask for, in order |
| HttpRequests.StreamOf | src/protocol_http.c:1301-1366 | every stream is made of such texts, as far as it can be read |
| HttpRequests.RequestsDelivered | src/client.c:159-237 | for every list of requests with headers of at most 10241 bytes each, every cut whose first read has a whole method dispatches exactly these requests, in order |
| Http.ProcessAgrees | src/client.c:159-237 | one call, wherever the stream is cut, keeps dispatched requests plus what is left to parse equal to the requests of the stream, and after its end the dispatched ones a prefix of them |
| Http.ChunkingIndependent | src/client.c:159-237 | however the stream is cut and whatever fails, the requests dispatched are a prefix of those of the stream, and while the client lives the rest parses from inbuf and later bytes |
| Http.AllDelivered | src/client.c:159-237 | if nothing fails, the first read has a whole method and no header exceeds the limit, every cut delivers exactly the requests of the stream |
| Http.LosingCut | src/protocol_http.c:1308-1320 | every stream with a header that exceeds the limit has a cut in which requests are lost for good |
| Http.CutsAgree | src/protocol_http.c:1308-1320 | every cut delivers exactly the requests of the stream if and only if no request has a header that exceeds the limit before its last byte |
| Http.OneReadDelivers | src/protocol_http.c:1308-1320 | in one read every stream is delivered whole, whatever its headers |
| Http.ShortFirstRead | src/client.c:86-97 | a stream with requests and no header over the limit is delivered if and only if the first read has a whole method; without one nothing is dispatched |
| Http.ScanQuery | src/protocol_http.c:1343-1351 | the loop finds the space that ends the query, or that the line ends first |
| Http.ExtractPath | src/protocol_http.c:1357-1366 | path and arguments are split at the first question mark |
| Http.HttpProcess | src/protocol_http.c:1301-1366 | the parsing loops frame one request, ask for more, or refuse |
| Client.StepConserves | src/client.c:159-237 | no call loses, repeats or reorders a byte in either direction |
| Client.StepRefines | src/client.c:159-237 | whatever its state, one call takes the connection where the framing model says and ends it exactly when that does |
| Client.ClientRun | src/client.c:159-237 | over any run the bytes sent are the first produced, the bytes consumed the first received, and the requests dispatched the first of the stream |
| Client.EndsDrainedOrRefused | src/client.c:168-221 | when nothing fails a client ends if and only if its first read lacks a whole method, or it is draining once the callback has been called and the system takes all its output, or the bytes in front are a malformed request; in the second case all is sent, in the third the whole reply stays at the end of outbuf, unsent |
| Client.FeedAsked | src/client.c:215-234 | when nothing fails a call asks for a feed if and only if the client is detected and feeding, all its output is taken, and nothing is left in inbuf |
| Client.FeedReaches | src/client.c:224-234 | a call that asks for a feed has sent everything before; what the feed writes is in outbuf then, and the state is the one it leaves |
| Client.RequestReaches | src/client.c:213-223 | a call that finds a whole request takes its bytes and hands it over; what the handler writes is at the end of the output, and the state is the one it leaves |
| Client.StaysStalled | src/client.c:215-234 | a feeding client with part of a request in inbuf does not change in any number of calls in which nothing arrives |
| Client.StreamStalls | src/client.c:159-237 | a client whose request is answered by a stream, with part of another request behind it, stays in the feed state in any such run and produces exactly what the handler wrote before the stream, for any output and any partial writes |
| Client.Connection.constructor | src/client.c:99-109 | a new client has empty buffers and no protocol |
| Client.Connection.ReadAll | src/client.c:163-166 | everything that has arrived is appended in order |
| Client.Connection.WriteData | src/client.c:65-83 | what was written leaves the front of outbuf |
| Client.Connection.ServeOne | src/client.c:213-236 | at most one request is taken off inbuf, or a feed is made when both buffers are empty |
| Client.Connection.Process | src/client.c:159-237 | the object takes the step of the machine |
| Cue.OneTrackPerLine | src/cue.c:245-269 | every TRACK line after FILE yields exactly one track, in order |
| CueSheets.SheetMeaning | src/cue.c:170-293 | for a sheet whose file is opened each section yields one track, with the title and the artist of its last TITLE and PERFORMER lines, by default none and the album's, album and album artist from the header, from its INDEX 01 or 0 to that of the next section or the end of the file |
| CueSheets.NotOpened | src/cue.c:185-239 | when the file is not opened nothing is added, and reading fails only if it does not exist |
| CueSheets.SheetCrashes | src/cue.c:272-280 | a sheet dereferences null if and only if an INDEX 01 comes between FILE and the first TRACK |
| CueSheets.EverySheet | src/cue.c:150-293 | lines with FILE before the first empty line are such a sheet, others add nothing |
| Cue.DurationsSum | src/cue.c:282-293 | the durations add up to the file's duration less the first start |
| Cue.DurationsNonNegative | src/cue.c:252-289 | no duration is negative if and only if the starts do not decrease and lie within the file |
| Cue.PendingTrack | src/cue.c:248-258 | a TRACK line moves the pipeline on by one without changing what is finally added |
| Cue.Flush | src/cue.c:282-293 | the two kept tracks get their durations at the end of the file |
| Cue.ReadBody | src/cue.c:241-293 | the loop with two slots adds the tracks of the batch definition, in order, if and only if no INDEX 01 comes before the first TRACK; otherwise it dereferences null |
| Cue.CueRead | src/cue.c:150-293 | the whole reader adds the tracks and returns the result of the batch definition, and dereferences null exactly for the other sheets |

## Left out

- `src/stream.c`, `src/track.c`, `src/image.c`, `src/format.c` and `src/libav.c`: thin layers over libav and FreeImage.
- `src/server.c`, `src/url.c`, `src/cache.c`, `src/log.c`, `src/lyrics.c`, `src/scan.c`, `src/config.c`: sockets, poll, files, scraping.
- Task pipes, the task functions themselves, failing thread creation and mutexes: a locked section is one step, and a task function is assumed to return when progress is claimed.
- SQLite itself: statements that fail to prepare or step for other reasons than a malformed id list, the 32-bit column read of `src/library.c:62`, ids beyond 64 bits, and cursors during deletion. A loop over a cursor takes any row that still matches.
- How a database sorts: the order of a result is any fixed arrangement of the selected rows for an ORDER BY text; where the order matters it follows the terms that are read in the text, by any comparison of two values.
- The columns for modification times, image ids, lyrics, and the text copies in the track table.
- Integer widths: sizes, counters and rowids do not overflow; a failing allocation is not modelled.
- `string_of` and `string_from`: from an empty text they have capacity zero, which never grows. `string_iconv` is not modelled either.
- The buffers of a client and the order text of a query are sequences; that the growable buffer behaves like one is proved in `Strings`.
- LIKE works on bytes: that `_` stands for one character of several bytes in UTF-8 is not modelled.
- `library_root_path` is a parameter of a query and is assumed to find a root.
- Strings passed to the JSON writer are C strings: one with a NUL would be cut there.
- Documents are emitted with balanced calls, as the handlers do; unbalanced call streams are not given a meaning.
- The other handlers, and sessions and cookies, in `src/protocol_http.c`: `Client.Effect` is what they do to the client. Of `method_tracks` and `method_track_index` the rows and numbers sent are modelled, not their JSON. The search for cookies reads past the request, so it depends on later bytes.
- `args_str` and `args_int` with their prefix matching, and `Content-Type` and other headers.
- Pipelined requests are served one per call; when poll next wakes the client is not modelled.
- Reading the tokens of a cue line, quoted strings and the lookup of another sheet (`src/cue.c:58-90`, `src/cue.c:200-215`): a line is already split and FILE has an outcome. Times are real numbers.
- SessionTable.Sessions.Deref: releases a session only while it is in the table; one that has been evicted is freed memory.
- Session users, random ids and the clock: the draws are inputs, and one of them is free.
