# wikimetrics cohort validation, modelled in Dafny

wikimetrics lets a user upload a cohort, i.e. a list of
`(username or user id, project)` pairs. A background job then validates
the cohort against each wiki's own `user` table. This project models that
job and the helpers it uses:

- `wikimetrics/models/validate_cohort.py` (module `ValidateCohort`). It
  covers `normalize_project`, `validate_users`, `ValidateCohort.validate_records`
  and `ValidateCohort.run`, the last seen as "store the task id, then validate".
  The job runs in these steps:
  1. reset the cohort;
  2. load its wiki_user rows and deduplicate them by `(username, project)`;
  3. normalise each project against the project directory;
  4. group the rows into per-project batches and check each batch against
     that project's user table;
  5. deduplicate again;
  6. write the membership rows, delete the left-over wiki_user rows, and
     mark the cohort validated.
- `wikimetrics/utils.py` (module `Utils`). It covers `deduplicate`,
  `deduplicate_by_key`, `project_name_for_link`, `link_to_user_page` (its
  formatting branch) and `diff_datewise` (no parse formats).
- `wikimetrics/database.py` (module `Database`). It covers
  `get_host_projects_map` and the lazily filled caches of the `Database`
  object: the wikimetrics engine, the per-project MediaWiki engines and
  session makers, and the project directory.

Supporting modules:

- `Tables`: the metadata rows the job reads and writes, the SQL statements
  it issues (as functions on the rows), and a `Session` class. A session
  holds the database as the session sees it and the committed database.
  `Commit` makes the first durable; `Close` rolls back to the second.
- `Builtins`: the Python string built-ins the job relies on, on ASCII text:
  `isdigit`, `int`, `str`, `strip` and `lower`.
- `Wrappers`: `Option`.

How the external pieces are modelled:

- The project directory is the key set of `get_project_host_map()`.
- Each project's MediaWiki `user` table is a sequence of `(user_id, user_name)`
  rows in a store map. A project missing from the store cannot be queried, so
  the query raises.
- `parse_username` is a function parameter.
- A raised exception is a `false` result. Where the source swallows it (the
  bare `except` of the grouping loop), the model carries on the same way.
- Where the source leaves the order unspecified, the model chooses with
  `:|` in its loops: `query(...).all()` on the metadata database, the values
  of a dict, `iteritems()` and `keys()`. Contracts therefore cannot depend on
  that order. A query against a MediaWiki user table returns rows in table
  order.

The code inserts a membership row for every record kept by the second
deduplication, invalid records included (`validate_cohort.py:180-192`).
`ValidateCohort.ValidatedTables` and `ValidateCohort.ValidatedRecords` state
this.

Some behaviour of the code that the contracts expose:

- Two uploaded records with the same username can join the same batch,
  e.g. `(Bob, "en")` and `(Bob, "enwiki")`. `users_dict` keeps only the later
  one, so only that one is classified (`ValidateCohort.ShadowedRecordUntouched`).
  The second deduplication, run on the normalised projects, then keeps the
  earlier one. So a member can end the run with `valid` still `None`.
- A failed in-loop `validate_users` call is swallowed. Its batch is neither
  committed nor emptied and keeps growing. A later in-loop flush of that
  project can therefore hold more than 1000 records (the "1000" in
  `ValidateCohort.FlushSizes` holds when every call returns).
- In id mode, a record whose key has a leading zero, such as `"042"`, is never
  confirmed. If the store has that user, the match's key `str(42) == "42"` is
  not in `users_dict`, so the lookup raises a KeyError, unless the same batch
  also holds a record keyed `"42"`: then that one is confirmed and `"042"` is
  rejected (`ValidateCohort.UnwrittenIdKeyRaises` states the exact condition,
  `ValidateCohort.LeadingZeroIdRaises` the example).
- A repeated run does not give the result of a first one. The reset clears
  only `valid` (`validate_cohort.py:128-137`), while a confirmation has
  written the store's user name over the uploaded key (`:252`) and the
  grouping loop has written the normalised project (`:157`). In id mode a
  record uploaded as `"42"` and confirmed as `"Alice"` is therefore rejected
  with `"invalid user_id: Alice"` on the next run, since the `isdigit` filter
  drops its key (`ValidateCohort.ConfirmedIdRejectedOnRerun`). A retry after
  a run whose in-loop batches were committed is affected the same way.

## Model

| member | source | states |
|---|---|---|
| Utils.Deduplicate | wikimetrics/utils.py:105-108 | returns `Unique(sequence)`: no repeated element, exactly the input's elements, in order of first occurrence |
| Utils.UniqueSpec | wikimetrics/utils.py:105-108 | `Unique(s)` has no repeats, holds exactly the elements of `s`, and orders them by first occurrence in `s` |
| Utils.DeduplicateByKey | wikimetrics/utils.py:111-118 | the result holds, for each distinct key, exactly the first input object with that key, nothing else; it is a permutation of `FirstByKey` and its length is the number of distinct keys |
| Utils.FirstByKeySpec | wikimetrics/utils.py:111-118 | the reference `FirstByKey` keeps exactly the first object per key |
| Utils.FirstPerKeyUnique | wikimetrics/utils.py:111-118 | any two first-per-key results of one input are permutations of each other, of length equal to the number of distinct keys (dict order does not matter) |
| Utils.FirstPerKeyWithin | wikimetrics/utils.py:111-118 | every element of a first-per-key result comes from the input, and none appears twice |
| Utils.DeduplicateByKeyAgain | wikimetrics/utils.py:111-118 | deduplicating a first-per-key result again by the same key keeps all of its elements |
| Utils.ProjectNameForLink | wikimetrics/utils.py:125-128 | a name ending in "wiki" loses exactly that suffix; any other name is returned unchanged |
| Utils.ProjectNameForLinkRemovesOneSuffix | wikimetrics/utils.py:125-128 | `name + "wiki"` gives `name`; "enwiki" gives "en", "wiki" gives "", "wikiwiki" gives "wiki" |
| Utils.LinkToUserPage | wikimetrics/utils.py:131-137 | the link is "https://", then the project's link name, then ".wikipedia.org/wiki/User:", then the username |
| Utils.DiffDatewise | wikimetrics/utils.py:162-192 | the two sets are exactly left-minus-right and right-minus-left; they are disjoint and their union is the symmetric difference |
| Builtins.NatToString | wikimetrics/models/validate_cohort.py:249 | `str(n)` is a digit string that `int` reads back as `n`, with no leading zero unless it is "0" |
| Builtins.NatToStringParseNat | wikimetrics/models/validate_cohort.py:240-249 | `str(int(k)) == k` for a digit string without a leading zero |
| Builtins.StripIdempotent | wikimetrics/models/validate_cohort.py:214 | stripping twice is stripping once |
| Builtins.StripLower | wikimetrics/models/validate_cohort.py:214 | stripping and lower-casing commute |
| Tables.ClearValid | wikimetrics/models/validate_cohort.py:129-133 | the cohort's rows get `valid = None` with every other field kept; other cohorts' rows are unchanged; no row is added or removed |
| Tables.DeleteMemberships | wikimetrics/models/validate_cohort.py:134-136 | exactly the membership rows of other cohorts remain |
| Tables.MembershipRows | wikimetrics/models/validate_cohort.py:185-192 | one `(cohort, id)` row per id, in order |
| Tables.MembershipRowsNames | wikimetrics/models/validate_cohort.py:185-192 | the inserted rows name exactly the given records |
| Tables.DeleteWikiUsersNotIn | wikimetrics/models/validate_cohort.py:195-198 | a row remains iff it belongs to another cohort or its id is kept; remaining rows are unchanged |
| ValidateCohort.NormalizeProject | wikimetrics/models/validate_cohort.py:206-223 | the stripped, lower-cased name when it is a directory key; otherwise that name plus "wiki" when that is a key; otherwise None; a result is always a directory key |
| ValidateCohort.NormalizeProjectIdempotent | wikimetrics/models/validate_cohort.py:206-223 | normalising a normalised name gives it back |
| ValidateCohort.NormalizeProjectIgnoresPadding | wikimetrics/models/validate_cohort.py:214 | whitespace of any length on either side of a name does not change its normalisation |
| Builtins.StripSurrounded | wikimetrics/models/validate_cohort.py:214 | `strip` of a string surrounded by whitespace runs of any length is the `strip` of the string |
| ValidateCohort.NormalizeProjectIgnoresCase | wikimetrics/models/validate_cohort.py:214 | capitals do not change a name's normalisation |
| ValidateCohort.ProjectStep | wikimetrics/models/validate_cohort.py:150-157 | the project step settles the record's project (normalised, or kept and marked invalid with its reason), keeps its id, cohort, username and user id, and keeps `valid` and the reason when the project normalises |
| ValidateCohort.UsersDict | wikimetrics/models/validate_cohort.py:235 | every username of the batch is a key, and each key names a batch record with that username |
| ValidateCohort.UsersDictLastWins | wikimetrics/models/validate_cohort.py:235 | a record the dict does not hold under its username is followed later in the batch by the one it holds |
| ValidateCohort.Query | wikimetrics/models/validate_cohort.py:239-245 | returns exactly the user-table rows whose id is a digit key read as an integer (id mode), or whose name is a key (name mode) |
| ValidateCohort.FindMatch | wikimetrics/models/validate_cohort.py:247-252 | a found match lies among the matches and has the key looked up; none found means no match has that key |
| ValidateCohort.ConfirmNext | wikimetrics/models/validate_cohort.py:248-257 | one turn of the "update results" loop: the match's key is popped, the record it named is confirmed, and the rows become the classification of one more match; nothing is committed |
| ValidateCohort.ConfirmMatches | wikimetrics/models/validate_cohort.py:247-257 | succeeds iff each match's key is still in `users_dict` when its turn comes; then every keyed record with a match is confirmed (store name and id, `valid = True`, no reason) and its key popped; on a KeyError at match `n`, the first whose key is missing, exactly the matches before `n` are applied and nothing else changes (`RaisedAt`); nothing is committed |
| ValidateCohort.RejectUnmatched | wikimetrics/models/validate_cohort.py:260-265 | every key left in `users_dict` marks its record invalid with "invalid user_id: k" or "invalid user_name: k", whatever the key order |
| ValidateCohort.ValidateUsers | wikimetrics/models/validate_cohort.py:226-272 | returns normally iff the project can be queried and every match finds its key; then the rows are the batch classification; when the query itself raises nothing changes; on a KeyError exactly the matches before the first missing key are applied; only batch records change, never their id, project or cohort; nothing is committed |
| ValidateCohort.UsersDictAgree | wikimetrics/models/validate_cohort.py:235 | `users_dict` depends only on the usernames of the batch's records |
| ValidateCohort.ClassifyBatchAgree | wikimetrics/models/validate_cohort.py:235-265 | on rows that agree on the batch's records, a `validate_users` call succeeds alike and classifies those records alike |
| ValidateCohort.ClassifyBatchOutside | wikimetrics/models/validate_cohort.py:235-265 | a `validate_users` call leaves every record outside its batch as it was |
| ValidateCohort.ShadowedRecordUntouched | wikimetrics/models/validate_cohort.py:235 | a batch record not held by `users_dict` under its username is left as it was |
| ValidateCohort.BatchRecordOutcome | wikimetrics/models/validate_cohort.py:245-265 | a record held by `users_dict` is valid iff the query selects a row with its key; if valid it is confirmed by such a row, otherwise rejected with the reason naming the key |
| ValidateCohort.NonCanonicalIdKeyRejected | wikimetrics/models/validate_cohort.py:239-265 | in id mode a key that is not a digit string, or has a leading zero, ends "invalid user_id: <key>" |
| ValidateCohort.UnwrittenIdKeyRaises | wikimetrics/models/validate_cohort.py:240-252 | in id mode, a digit key whose integer the store holds but whose `str` of that integer is not a key of `users_dict` (e.g. a leading zero) makes the call raise |
| ValidateCohort.CanonicalIdKeyConfirmed | wikimetrics/models/validate_cohort.py:239-257 | in id mode a canonical digit key is confirmed, with that user id, when the store has the id |
| ValidateCohort.LeadingZeroIdRaises | wikimetrics/models/validate_cohort.py:240-252 | key "042" against store user 42 makes the lookup of "42" fail |
| ValidateCohort.QueryNoneSelected | wikimetrics/models/validate_cohort.py:239-245 | a query that selects no store row returns no match |
| ValidateCohort.ConfirmedIdRejectedOnRerun | wikimetrics/models/validate_cohort.py:239-265 | in id mode, a record a call confirmed with a store user whose name is not a digit string is, after the reset, rejected by the next call on it with "invalid user_id: <that name>", and that call returns normally |
| ValidateCohort.QuerySucceedsWhenKeysResolve | wikimetrics/models/validate_cohort.py:245-257 | no KeyError when the selectable store rows have distinct keys, all in the batch |
| ValidateCohort.IdQuerySucceeds | wikimetrics/models/validate_cohort.py:239-257 | in id mode, distinct store ids and canonical digit keys rule out the KeyError |
| ValidateCohort.NameQuerySucceeds | wikimetrics/models/validate_cohort.py:242-257 | in name mode, distinct store names that `parse_username` leaves alone rule out the KeyError |
| ValidateCohort.ResetValidation | wikimetrics/models/validate_cohort.py:127-137 | the cohort is not validated, its rows have `valid = None`, its memberships are gone, other cohorts' rows are unchanged, and all of it is committed |
| ValidateCohort.CohortRecords | wikimetrics/models/validate_cohort.py:139-141 | exactly the ids of the cohort's rows, each once |
| ValidateCohort.RejectRecord | wikimetrics/models/validate_cohort.py:151-155 | a record whose project does not normalise keeps its raw project and gets `valid = False` with "invalid project: <raw project>"; no other row and no other field changes; nothing is committed; it joins no batch |
| ValidateCohort.AppendRecord | wikimetrics/models/validate_cohort.py:157-160 | the record takes its normalised project, no other row changes, and the record is appended at the end of that project's batch (created empty when absent); nothing is committed |
| ValidateCohort.FlushIfFull | wikimetrics/models/validate_cohort.py:162-172 | a batch of at most 999 records changes nothing; a larger one is handed whole to one logged `validate_users` call, which returns iff the batch's query succeeds; then the rows are the batch classification, everything is committed and the batch emptied; a failed call commits nothing and keeps the batch; either way no row outside the batch changes; no record is lost or repeated between the batches and the returned calls |
| ValidateCohort.GroupRecord | wikimetrics/models/validate_cohort.py:149-172 | a record whose project does not normalise is rejected and nothing else changes; otherwise it does what `JoinBatch` states: the record joins its batch, which is flushed exactly when it then exceeds 999 records, the flush returning iff the batch's query succeeds, and then committing the batch classification; outside the record and a flushed batch no row changes (`StepWrites`); records are conserved between the batches and the returned calls |
| ValidateCohort.UntakenStep | wikimetrics/models/validate_cohort.py:149-172 | after one more turn, every handled record that no call took still holds its loaded row with only the project step applied |
| ValidateCohort.GroupNext | wikimetrics/models/validate_cohort.py:149-172 | one turn of the grouping loop keeps the grouping, sizing and conservation facts and the rows of records no call took |
| ValidateCohort.JoinBatch | wikimetrics/models/validate_cohort.py:157-170 | the record takes its normalised project and joins its batch, which is flushed exactly when it then exceeds 999 records; below that only the record's project changes and nothing is committed; a flush returns iff the grown batch's query succeeds on the rows after the join; then the rows are its classification, everything is committed and the batch emptied; a failed one commits nothing and keeps the grown batch; a flush changes no row outside the grown batch |
| ValidateCohort.ConservedFlush | wikimetrics/models/validate_cohort.py:162-170 | a flush keeps every project's records conserved: a returned call moves the batch into the call log, a failed one leaves it pending |
| ValidateCohort.BatchByProject | wikimetrics/models/validate_cohort.py:148-172 | every deduplicated record has its project settled; a record no in-loop call took holds its loaded row with only the project step applied; every batch holds records whose projects normalise to it; for each project, the records of the returned in-loop calls followed by the pending batch are exactly that project's deduplicated records, in order; a batch is flushed at 1000; other cohorts' rows, the cohorts and the memberships are untouched |
| ValidateCohort.GroupedBatchesIn | wikimetrics/models/validate_cohort.py:157-160 | every batch holds rows of the cohort's table |
| ValidateCohort.ValidateBatch | wikimetrics/models/validate_cohort.py:176-177 | the end-of-loop `validate_users` call on one batch returns iff the batch's query succeeds; then the rows are its classification; nothing is committed; the grouping facts are kept |
| ValidateCohort.EndBatchesApart | wikimetrics/models/validate_cohort.py:157-160 | a batch not yet visited shares no record with the batches already validated: each record is in the batch of its own normalised project only |
| ValidateCohort.EndCallsAdvance | wikimetrics/models/validate_cohort.py:175-177 | one more end-of-loop call, on a batch apart from the earlier ones, returns iff its query succeeds on the rows before the loop; when it returns, its classification adds to the earlier ones and every record in no visited batch is unchanged |
| ValidateCohort.FlushNext | wikimetrics/models/validate_cohort.py:175-177 | one turn of the end-of-loop loop: an empty batch is skipped; otherwise one logged call on exactly the batch, returning iff its query succeeds on the rows before the loop and, when it does, adding its classification; nothing is committed |
| ValidateCohort.FlushLoop | wikimetrics/models/validate_cohort.py:175-177 | the loop visits every project unless a call raises, and then stops; the calls made hold the `EndLoop` facts: one per visited non-empty batch, each returning iff its query succeeds, the classifications applied while all return; nothing is committed |
| ValidateCohort.EndCallsDecide | wikimetrics/models/validate_cohort.py:175-177 | the end-of-loop calls all return iff every non-empty pending batch's query succeeds on the rows before the loop |
| ValidateCohort.EndLoopDone | wikimetrics/models/validate_cohort.py:175-177 | once the loop stops, the calls lie on the pending batches, no project twice, of the stated sizes; when all return they took each pending batch exactly, and the run goes on iff every non-empty pending batch's query succeeds |
| ValidateCohort.FlushRemaining | wikimetrics/models/validate_cohort.py:175-178 | one logged call per non-empty pending batch, on exactly that batch, no project twice, with between 1 and 999 records when its project had no failure; each call returns iff its batch's query succeeds on the rows as the grouping loop left them; the run goes on iff every non-empty pending batch's query succeeds; then each pending record holds its classification in its batch, every other row is unchanged, the returned calls took each pending batch exactly and everything is committed; otherwise nothing more is committed |
| ValidateCohort.EndFlushesCover | wikimetrics/models/validate_cohort.py:174-176 | one returned call per non-empty batch, on that batch and no project twice, means the returned calls took exactly the pending batches |
| ValidateCohort.EndCallsAfterInLoop | wikimetrics/models/validate_cohort.py:162-177 | the in-loop calls logged before the end-of-loop ones change neither the end-of-loop calls' success nor their classification |
| ValidateCohort.FlushSizes | wikimetrics/models/validate_cohort.py:162-178 | in-loop calls get at least 1000 records and end-of-loop calls at least 1; when every call returns, exactly 1000 and at most 999; in-loop calls come first |
| ValidateCohort.CommitMembership | wikimetrics/models/validate_cohort.py:180-200 | the second dedup keeps the first record per (final username, normalised project); one membership row per kept record; the cohort's other rows deleted; the cohort validated; all committed together |
| ValidateCohort.ValidatedMembershipsMatchRows | wikimetrics/models/validate_cohort.py:185-200 | after validation, a row belongs to the cohort iff the cohort has a membership row for it, and the cohort is validated |
| ValidateCohort.LoadedBeforeReset | wikimetrics/models/validate_cohort.py:127-144 | the reset changes no id, cohort, username or project, so the loaded rows and their first deduplication read the same on the rows before it |
| ValidateCohort.AllFlushed | wikimetrics/models/validate_cohort.py:148-176 | when every end-of-loop call returns, the returned calls took each deduplicated record whose project normalises to `p` exactly once, in order, under `p` |
| ValidateCohort.GroupedSettled | wikimetrics/models/validate_cohort.py:148-172 | after the grouping every deduplicated record keeps its id and cohort and has its uploaded project settled |
| ValidateCohort.UntakenLoaded | wikimetrics/models/validate_cohort.py:128-172 | after the grouping loop, a kept record that no in-loop call took holds its row from before the reset with `valid` cleared and the project step applied |
| ValidateCohort.ValidateRecords | wikimetrics/models/validate_cohort.py:113-200 | loads each of the cohort's rows once and keeps the first per `(username, uploaded project)`; after the grouping loop each kept record keeps its id and cohort and has its project settled, and one that no in-loop call took holds its row from before the reset with `valid` cleared and only the project step applied; each end-of-loop call returns iff its batch's query succeeds on those rows, and the run succeeds iff all of them return; on success each record of an end-of-loop batch holds its classification in that batch and every other row is as the grouping loop left it; the returned calls took each kept record whose project normalises to `p` exactly once, in order, under `p`; the members are the first record per key of the rows as validated, and hold those values; the committed database is the validated one: cohort validated, old memberships replaced by one row per member, only members kept among its rows, other cohorts untouched; on failure the committed database differs from the reset one only in field values of the cohort's own rows; flush sizes as in `FlushSizes` |
| ValidateCohort.Queued | wikimetrics/models/validate_cohort.py:106-108 | storing the task id changes no wiki_user or membership row and no cohort key |
| ValidateCohort.Run | wikimetrics/models/validate_cohort.py:103-111 | a missing cohort fails with nothing written; otherwise the cohort holds the task id and is validated iff the run succeeded, and the database holds what `ValidateRecords` committed, with the same statements about the loaded, deduplicated, grouped, validated and member records and the end-of-loop calls, read on the database `run` started from |
| Database.HostName | wikimetrics/database.py:52-54 | a host name is "s" followed by the host's number |
| Database.HostNamesDistinct | wikimetrics/database.py:52-56 | different hosts get different names |
| Database.LastListingHost | wikimetrics/database.py:47-57 | the last host of 1..n listing the project; None iff no host lists it |
| Database.MapsToLastHostUnique | wikimetrics/database.py:47-57 | the host lists determine the directory: two maps that both fit them are equal |
| Database.GetHostProjectsMap | wikimetrics/database.py:47-57 | maps exactly the projects listed by hosts 1..7, each to the name of the last host listing it |
| Database.AddHostProjects | wikimetrics/database.py:55-56 | adding host `h`'s list to a map that fits hosts 1..h-1 gives one that fits hosts 1..h |
| Database.DebugProjectHostMap | wikimetrics/database.py:194-197 | keys are exactly the configured project names, each mapped to "localhost" |
| Database.Database.constructor | wikimetrics/database.py:67-86 | no engine, session maker or directory exists yet |
| Database.Database.GetEngine | wikimetrics/database.py:88-101 | the wikimetrics engine is created at most once, with the configured URL, and returned from then on; nothing else changes |
| Database.Database.GetMwEngine | wikimetrics/database.py:152-173 | a project's engine is created on its first request, with the project's URL, and returned from the cache afterwards; the cache only gains this project |
| Database.Database.GetMwSession | wikimetrics/database.py:121-150 | one session maker per project, bound to that project's engine, created on first use and reused afterwards; earlier entries are never lost |
| Database.Database.GetProjectHostMap | wikimetrics/database.py:175-215 | a stored directory is returned when `usecache` is set; otherwise it is recomputed (the configured names to "localhost" under DEBUG, the host lists otherwise) and stored |

## Left out

- File and network I/O: `urlopen` in `get_host_projects` is replaced by the `hostProjects` parameter, the list of projects each host serves.
- Database.Database.GetProjectHostMap: does not model the on-disk JSON cache (`exists`, `os.access`, `json.dump`/`json.load` and the exception raised when the cache can be neither fetched nor read); outside DEBUG it always computes from the host lists.
- The threading lock around `get_project_host_map`: the model is sequential.
- `create_engine` and `sessionmaker` belong to SQLAlchemy, whose code is not part of this model. Engines are tokens holding their URL, session makers are tokens holding their engine. `SQL_ECHO`, `convert_unicode`, the DEBUG `create_all` of the MediaWiki tables and `ping_connection` are not modelled.
- `Database.get_session` and the wikimetrics session maker: the job's session is the `Tables.Session` the model creates.
- `ValidateCohort.from_upload`, `async_validate`, Celery and `current_task`: the task id is the `taskId` parameter of `Run`.
- SQL is replaced by functions on the rows. SQLAlchemy autoflush and identity-map effects are not modelled; a session's writes are visible to it at once.
- `parse_username` is defined in a file that is not part of this model; it is an arbitrary function parameter.
- Exceptions other than the ones named (a failing store query, the KeyError) are not modelled. This includes an exception from `get_project_host_map` or `normalize_project` inside the grouping loop, which the bare `except` would swallow.
- Text is ASCII: `lower`, `strip` and `isdigit` are modelled on ASCII only, and Python 2 unicode handling (the `UnicodeEncodeError` branches of `link_to_user_page`) is left out.
- `diff_datewise` with parse formats (`strptime`) is left out; so are the JSON helpers, `r()`, `timestamps_to_now`, `ensure_dir` and the date helpers of utils.py.
- ValidateCohort.BatchByProject: for a record an in-loop call took, it does not state the row it ends with, nor, across the loop, whether that call returned. A swallowed failure can leave some matches applied to a batch that stays pending and is validated again later, and the call log does not record the rows each call saw. `FlushIfFull`, `JoinBatch` and `GroupRecord` state both for the single call they make.
- ValidateCohort.ValidateRecords: the end-of-loop calls are stated on the rows as the grouping loop left them. For a record an in-loop call took, that row is stated only as a settled record, not as a function of the store, for the reason given for `BatchByProject`; every other record's row is stated exactly. On failure it does not state which in-loop batches were committed.
- ValidateCohort.Run: weaker in the same way as `ValidateRecords`.
- The reports controller, the metrics, the JavaScript UI, packaging, the debugging script and the database migrations are outside the core.
