/**
 * The cohort validation pipeline of wikimetrics/models/validate_cohort.py:
 * project normalisation, the per-batch check against a project's own user
 * table, and the run that takes a cohort from "not validated" to "validated".
 *
 * The project directory is the set of its keys, each project's user table is a
 * sequence of rows in the store map, and `parse_username` is a parameter.
 */
module ValidateCohort {
  import opened Wrappers
  import opened Builtins
  import opened Tables
  import Utils

  /** A row of a project's own `user` table. */
  datatype MediawikiUser = MediawikiUser(userId: nat, userName: string)

  /**
   * The per-project user tables. A project that is not in the map has no
   * reachable database: a query against it raises.
   */
  type Store = map<string, seq<MediawikiUser>>

  /** What the pipeline consults but does not own. */
  datatype Environment = Environment(
    directory: set<string>,
    store: Store,
    parseUsername: string -> string)

  // ---------------------------------------------------------------------------
  // normalize_project (wikimetrics/models/validate_cohort.py:206-223)
  // ---------------------------------------------------------------------------

  function Canon(project: string): string {
    Lower(Strip(project))
  }

  /**
   * The directory key a typed project name stands for: the trimmed,
   * lower-cased name itself, or else that name with "wiki" appended.
   */
  function NormalizeProject(project: string, directory: set<string>): (r: Option<string>)
    ensures r.Some? ==> r.value in directory
    ensures Canon(project) in directory ==> r == Some(Canon(project))
    ensures Canon(project) !in directory && Canon(project) + "wiki" in directory ==> r == Some(Canon(project) + "wiki")
    ensures r == None <==> Canon(project) !in directory && Canon(project) + "wiki" !in directory
  {
    var p := Canon(project);
    if p in directory then Some(p)
    else
      var newProj := p + "wiki";
      if newProj !in directory then None else Some(newProj)
  }

  /** A normalised name is a fixed point of normalisation. */
  lemma NormalizeProjectIdempotent(project: string, directory: set<string>)
    requires NormalizeProject(project, directory).Some?
    ensures NormalizeProject(NormalizeProject(project, directory).value, directory) == NormalizeProject(project, directory)
  {
    var p := Canon(project);
    StripIdempotent(project);
    LowerOfStrippedIsStripped(Strip(project));
    LowerIdempotent(Strip(project));
    assert Canon(p) == p;
    var q := p + "wiki";
    assert q[|q| - 1] == 'i';
    if p != [] {
      assert q[0] == p[0];
    }
    StripWithoutEdgeSpaces(q);
    assert Lower(q) == q;
  }

  /** Whitespace of any length around a name does not change what it normalises to. */
  lemma NormalizeProjectIgnoresPadding(ws1: string, project: string, ws2: string, directory: set<string>)
    requires AllSpace(ws1) && AllSpace(ws2)
    ensures NormalizeProject(ws1 + project + ws2, directory) == NormalizeProject(project, directory)
  {
    StripSurrounded(ws1, project, ws2);
  }

  /** Capitals in a name do not change what it normalises to. */
  lemma NormalizeProjectIgnoresCase(project: string, directory: set<string>)
    ensures NormalizeProject(Lower(project), directory) == NormalizeProject(project, directory)
  {
    StripLower(project);
    LowerIdempotent(Strip(project));
  }

  // ---------------------------------------------------------------------------
  // validate_users (wikimetrics/models/validate_cohort.py:226-272)
  // ---------------------------------------------------------------------------

  /** `users_dict`: each username of the batch maps to the last record carrying it. */
  function UsersDict(rows: map<nat, WikiUser>, wikiusers: seq<nat>): (d: map<string, nat>)
    requires forall i :: 0 <= i < |wikiusers| ==> wikiusers[i] in rows
    ensures forall k :: k in d ==> d[k] in wikiusers && rows[d[k]].mediawikiUsername == k
    ensures forall i :: 0 <= i < |wikiusers| ==> rows[wikiusers[i]].mediawikiUsername in d
  {
    if wikiusers == [] then map[]
    else
      var init := wikiusers[..|wikiusers| - 1];
      var last := wikiusers[|wikiusers| - 1];
      var d := UsersDict(rows, init);
      assert forall k :: k in d ==> d[k] in wikiusers by {
        forall k | k in d ensures d[k] in wikiusers {
          assert d[k] in init;
        }
      }
      d[rows[last].mediawikiUsername := last]
  }

  /**
   * The dict comprehension keeps the last record of each username: a record
   * the dict does not hold under its username is followed, later in the
   * batch, by the one it does hold.
   */
  lemma {:induction false} UsersDictLastWins(rows: map<nat, WikiUser>, wikiusers: seq<nat>, i: nat)
    requires forall i :: 0 <= i < |wikiusers| ==> wikiusers[i] in rows
    requires i < |wikiusers|
    ensures var k := rows[wikiusers[i]].mediawikiUsername;
            UsersDict(rows, wikiusers)[k] == wikiusers[i] ||
            exists j :: i < j < |wikiusers| && wikiusers[j] == UsersDict(rows, wikiusers)[k]
  {
    var n := |wikiusers| - 1;
    var init := wikiusers[..n];
    var d := UsersDict(rows, init);
    var d' := UsersDict(rows, wikiusers);
    assert d' == d[rows[wikiusers[n]].mediawikiUsername := wikiusers[n]];
    var k := rows[wikiusers[i]].mediawikiUsername;
    if k == rows[wikiusers[n]].mediawikiUsername {
      if i < n {
        assert wikiusers[n] == d'[k];
      }
    } else {
      assert init[i] == wikiusers[i];
      UsersDictLastWins(rows, init, i);
      if d[k] != init[i] {
        var j :| i < j < |init| && init[j] == d[k];
        assert wikiusers[j] == d'[k];
      }
    }
  }

  /** `keys_as_ints`: the keys that pass `isdigit()`, read as integers. */
  function IdKeys(keys: set<string>): set<nat> {
    set k | k in keys && IsDigits(k) :: ParseNat(k)
  }

  /** The query clause: `user_id IN keys_as_ints`, or `user_name IN keys`. */
  predicate Selected(m: MediawikiUser, keys: set<string>, validateAsUserIds: bool) {
    if validateAsUserIds then m.userId in IdKeys(keys) else m.userName in keys
  }

  /** `session.query(MediawikiUser).filter(clause).all()`: the selected rows of a user table, in table order. */
  function Query(table: seq<MediawikiUser>, keys: set<string>, validateAsUserIds: bool): (ms: seq<MediawikiUser>)
    ensures forall m :: m in ms <==> m in table && Selected(m, keys, validateAsUserIds)
  {
    if table == [] then []
    else
      var rest := Query(table[1..], keys, validateAsUserIds);
      if Selected(table[0], keys, validateAsUserIds) then [table[0]] + rest else rest
  }

  /** The `users_dict` key a match is looked up under: `str(user_id)`, or `parse_username(user_name)`. */
  function MatchKey(m: MediawikiUser, validateAsUserIds: bool, parseUsername: string -> string): string {
    if validateAsUserIds then NatToString(m.userId) else parseUsername(m.userName)
  }

  /** The first match looked up under `k`. */
  function FindMatch(ms: seq<MediawikiUser>, k: string, validateAsUserIds: bool, parseUsername: string -> string): (r: Option<MediawikiUser>)
    ensures r.Some? ==> r.value in ms && MatchKey(r.value, validateAsUserIds, parseUsername) == k
    ensures r.None? ==> forall m :: m in ms ==> MatchKey(m, validateAsUserIds, parseUsername) != k
  {
    if ms == [] then None
    else
      var init := ms[..|ms| - 1];
      var last := ms[|ms| - 1];
      assert ms == init + [last];
      var r := FindMatch(init, k, validateAsUserIds, parseUsername);
      if r.Some? then r
      else if MatchKey(last, validateAsUserIds, parseUsername) == k then Some(last)
      else None
  }

  /**
   * No KeyError: when each match is processed its key is still in
   * `users_dict`, that is, it is a key of the batch and no earlier match
   * had it.
   */
  predicate MatchesResolve(ms: seq<MediawikiUser>, d: map<string, nat>, validateAsUserIds: bool, parseUsername: string -> string) {
    forall i :: 0 <= i < |ms| ==>
      && MatchKey(ms[i], validateAsUserIds, parseUsername) in d
      && forall j :: 0 <= j < i ==> MatchKey(ms[j], validateAsUserIds, parseUsername) != MatchKey(ms[i], validateAsUserIds, parseUsername)
  }

  function InvalidReason(validateAsUserIds: bool, key: string): string {
    (if validateAsUserIds then "invalid user_id: " else "invalid user_name: ") + key
  }

  /** A record confirmed by a store row: name and id come from the store. */
  function Confirmed(wu: WikiUser, m: MediawikiUser): WikiUser {
    wu.(mediawikiUsername := m.userName, mediawikiUserid := Some(m.userId), valid := Some(true), reasonInvalid := None)
  }

  function Rejected(wu: WikiUser, reason: string): WikiUser {
    wu.(reasonInvalid := Some(reason), valid := Some(false))
  }

  /** A record whose project does not normalise: invalid, with the reason naming the uploaded project. */
  function RejectedProject(wu: WikiUser): WikiUser {
    Rejected(wu, "invalid project: " + wu.project)
  }

  /**
   * The rows once the matches `ms` are applied and every key of `d` that no
   * match has and that is not `pending` is marked invalid. Only the record a
   * key of `d` points to is touched.
   */
  function Classified(rows: map<nat, WikiUser>, d: map<string, nat>, ms: seq<MediawikiUser>, pending: set<string>,
                      validateAsUserIds: bool, parseUsername: string -> string): map<nat, WikiUser>
  {
    map id | id in rows ::
      var k := rows[id].mediawikiUsername;
      if k in d && d[k] == id then
        match FindMatch(ms, k, validateAsUserIds, parseUsername)
        case Some(m) => Confirmed(rows[id], m)
        case None => if k in pending then rows[id] else Rejected(rows[id], InvalidReason(validateAsUserIds, k))
      else rows[id]
  }

  /** The batch's store query runs and every match finds its record. */
  predicate QuerySucceeds(rows: map<nat, WikiUser>, wikiusers: seq<nat>, project: string, validateAsUserIds: bool,
                          store: Store, parseUsername: string -> string)
    requires forall i :: 0 <= i < |wikiusers| ==> wikiusers[i] in rows
  {
    var d := UsersDict(rows, wikiusers);
    project in store && MatchesResolve(Query(store[project], d.Keys, validateAsUserIds), d, validateAsUserIds, parseUsername)
  }

  /** The rows after a successful `validate_users` call. */
  function ClassifyBatch(rows: map<nat, WikiUser>, wikiusers: seq<nat>, project: string, validateAsUserIds: bool,
                         store: Store, parseUsername: string -> string): (r: map<nat, WikiUser>)
    requires forall i :: 0 <= i < |wikiusers| ==> wikiusers[i] in rows
    requires project in store
    ensures r.Keys == rows.Keys
  {
    var d := UsersDict(rows, wikiusers);
    Classified(rows, d, Query(store[project], d.Keys, validateAsUserIds), {}, validateAsUserIds, parseUsername)
  }

  /** `users_dict` reads only the usernames of the batch's records. */
  lemma {:induction false} UsersDictAgree(rows1: map<nat, WikiUser>, rows2: map<nat, WikiUser>, wikiusers: seq<nat>)
    requires forall i :: 0 <= i < |wikiusers| ==> wikiusers[i] in rows1 && wikiusers[i] in rows2
    requires forall i :: 0 <= i < |wikiusers| ==> rows1[wikiusers[i]].mediawikiUsername == rows2[wikiusers[i]].mediawikiUsername
    ensures UsersDict(rows1, wikiusers) == UsersDict(rows2, wikiusers)
  {
    if wikiusers != [] {
      var init := wikiusers[..|wikiusers| - 1];
      assert forall i :: 0 <= i < |init| ==> init[i] == wikiusers[i];
      UsersDictAgree(rows1, rows2, init);
    }
  }

  /**
   * A `validate_users` call reads only the batch's own records: on rows that
   * agree there, it succeeds alike and classifies those records alike.
   */
  lemma ClassifyBatchAgree(rows1: map<nat, WikiUser>, rows2: map<nat, WikiUser>, wikiusers: seq<nat>, project: string,
                           validateAsUserIds: bool, store: Store, parseUsername: string -> string)
    requires forall i :: 0 <= i < |wikiusers| ==> wikiusers[i] in rows1 && wikiusers[i] in rows2
    requires forall i :: 0 <= i < |wikiusers| ==> rows1[wikiusers[i]] == rows2[wikiusers[i]]
    ensures QuerySucceeds(rows1, wikiusers, project, validateAsUserIds, store, parseUsername)
         == QuerySucceeds(rows2, wikiusers, project, validateAsUserIds, store, parseUsername)
    ensures project in store ==> forall id :: id in wikiusers ==>
              ClassifyBatch(rows1, wikiusers, project, validateAsUserIds, store, parseUsername)[id]
              == ClassifyBatch(rows2, wikiusers, project, validateAsUserIds, store, parseUsername)[id]
  {
    UsersDictAgree(rows1, rows2, wikiusers);
  }

  /** ... and leaves every other record as it was. */
  lemma ClassifyBatchOutside(rows: map<nat, WikiUser>, wikiusers: seq<nat>, project: string,
                             validateAsUserIds: bool, store: Store, parseUsername: string -> string)
    requires forall i :: 0 <= i < |wikiusers| ==> wikiusers[i] in rows
    requires project in store
    ensures forall id :: id in rows && id !in wikiusers ==>
              ClassifyBatch(rows, wikiusers, project, validateAsUserIds, store, parseUsername)[id] == rows[id]
  {
    var d := UsersDict(rows, wikiusers);
    ClassifiedFrame(rows, wikiusers, d, Query(store[project], d.Keys, validateAsUserIds), {}, validateAsUserIds, parseUsername);
  }

  /** The fields `validate_users` never writes. */
  predicate SameRecord(a: WikiUser, b: WikiUser) {
    a.id == b.id && a.project == b.project && a.validatingCohort == b.validatingCohort
  }

  /** Every key of `d` points to a row carrying that username. */
  ghost predicate DictTargets(rows: map<nat, WikiUser>, d: map<string, nat>) {
    forall k :: k in d ==> d[k] in rows && rows[d[k]].mediawikiUsername == k
  }

  /** Applying one more match whose key was still in `users_dict` confirms exactly its record. */
  lemma ClassifiedConfirmStep(rows: map<nat, WikiUser>, d: map<string, nat>, ms: seq<MediawikiUser>, hit: MediawikiUser,
                              validateAsUserIds: bool, parseUsername: string -> string)
    requires DictTargets(rows, d)
    requires MatchKey(hit, validateAsUserIds, parseUsername) in d
    requires FindMatch(ms, MatchKey(hit, validateAsUserIds, parseUsername), validateAsUserIds, parseUsername).None?
    ensures var key := MatchKey(hit, validateAsUserIds, parseUsername);
            Classified(rows, d, ms + [hit], d.Keys, validateAsUserIds, parseUsername)
            == Classified(rows, d, ms, d.Keys, validateAsUserIds, parseUsername)[d[key] := Confirmed(rows[d[key]], hit)]
  {
    var key := MatchKey(hit, validateAsUserIds, parseUsername);
    var ms' := ms + [hit];
    assert ms'[..|ms'| - 1] == ms;
    forall k | k in d
      ensures FindMatch(ms', k, validateAsUserIds, parseUsername)
           == if k == key then Some(hit) else FindMatch(ms, k, validateAsUserIds, parseUsername)
    {
    }
  }

  /** Marking one more unmatched key invalid rejects exactly its record. */
  lemma ClassifiedRejectStep(rows: map<nat, WikiUser>, d: map<string, nat>, ms: seq<MediawikiUser>, pending: set<string>, key: string,
                             validateAsUserIds: bool, parseUsername: string -> string)
    requires DictTargets(rows, d)
    requires key in pending && key in d
    requires FindMatch(ms, key, validateAsUserIds, parseUsername).None?
    ensures Classified(rows, d, ms, pending - {key}, validateAsUserIds, parseUsername)
         == Classified(rows, d, ms, pending, validateAsUserIds, parseUsername)[d[key] := Rejected(rows[d[key]], InvalidReason(validateAsUserIds, key))]
  {
  }

  /** What any partial classification leaves: the key set and the fields never written, and a row outside the batch. */
  lemma ClassifiedFrame(rows: map<nat, WikiUser>, wikiusers: seq<nat>, d: map<string, nat>, ms: seq<MediawikiUser>, pending: set<string>,
                        validateAsUserIds: bool, parseUsername: string -> string)
    requires forall k :: k in d ==> d[k] in wikiusers
    ensures var r := Classified(rows, d, ms, pending, validateAsUserIds, parseUsername);
            && r.Keys == rows.Keys
            && (forall id :: id in rows ==> SameRecord(r[id], rows[id]))
            && (forall id :: id in rows && id !in wikiusers ==> r[id] == rows[id])
  {
  }

  /** Which matched keys are pending makes no difference. */
  lemma ClassifiedPendingMatched(rows: map<nat, WikiUser>, d: map<string, nat>, ms: seq<MediawikiUser>, p1: set<string>, p2: set<string>,
                                 validateAsUserIds: bool, parseUsername: string -> string)
    requires forall k :: k in d && FindMatch(ms, k, validateAsUserIds, parseUsername).None? ==> (k in p1 <==> k in p2)
    ensures Classified(rows, d, ms, p1, validateAsUserIds, parseUsername) == Classified(rows, d, ms, p2, validateAsUserIds, parseUsername)
  {
  }

  /** With every key still pending, a row is either untouched or confirmed. */
  lemma ClassifiedAllPending(rows: map<nat, WikiUser>, d: map<string, nat>, ms: seq<MediawikiUser>,
                             validateAsUserIds: bool, parseUsername: string -> string)
    ensures var r := Classified(rows, d, ms, d.Keys, validateAsUserIds, parseUsername);
            forall id :: id in rows ==> r[id] == rows[id] || (r[id].valid == Some(true) && r[id].reasonInvalid == None)
  {
  }

  /** `rest` is what is left of `users_dict` once the matches `ms` have popped their keys. */
  ghost predicate PoppedBy(d: map<string, nat>, ms: seq<MediawikiUser>, rest: map<string, nat>,
                           validateAsUserIds: bool, parseUsername: string -> string) {
    && rest.Keys <= d.Keys
    && (forall k :: k in rest ==> rest[k] == d[k])
    && (forall k :: k in d ==> (k in rest <==> FindMatch(ms, k, validateAsUserIds, parseUsername).None?))
  }

  /** Appending a match whose key is in the batch and new to `ms` keeps the matches resolving. */
  lemma MatchesResolveSnoc(ms: seq<MediawikiUser>, m: MediawikiUser, d: map<string, nat>,
                           validateAsUserIds: bool, parseUsername: string -> string)
    requires MatchesResolve(ms, d, validateAsUserIds, parseUsername)
    requires MatchKey(m, validateAsUserIds, parseUsername) in d
    requires forall x :: x in ms ==> MatchKey(x, validateAsUserIds, parseUsername) != MatchKey(m, validateAsUserIds, parseUsername)
    ensures MatchesResolve(ms + [m], d, validateAsUserIds, parseUsername)
  {
    var ms' := ms + [m];
    forall i | 0 <= i < |ms'|
      ensures MatchKey(ms'[i], validateAsUserIds, parseUsername) in d
      ensures forall j :: 0 <= j < i ==> MatchKey(ms'[j], validateAsUserIds, parseUsername) != MatchKey(ms'[i], validateAsUserIds, parseUsername)
    {
      if i < |ms| {
        assert ms'[i] == ms[i];
        assert forall j :: 0 <= j < i ==> ms'[j] == ms[j];
      } else {
        assert forall j :: 0 <= j < i ==> ms'[j] == ms[j] && ms[j] in ms;
      }
    }
  }

  /** One more match whose key is still in `rest` keeps the matches resolving. */
  lemma ResolveAdvance(d: map<string, nat>, matches: seq<MediawikiUser>, i: nat, rest: map<string, nat>,
                       validateAsUserIds: bool, parseUsername: string -> string)
    requires i < |matches|
    requires MatchesResolve(matches[..i], d, validateAsUserIds, parseUsername)
    requires PoppedBy(d, matches[..i], rest, validateAsUserIds, parseUsername)
    requires MatchKey(matches[i], validateAsUserIds, parseUsername) in rest
    ensures MatchesResolve(matches[..i + 1], d, validateAsUserIds, parseUsername)
  {
    var key := MatchKey(matches[i], validateAsUserIds, parseUsername);
    assert FindMatch(matches[..i], key, validateAsUserIds, parseUsername).None?;
    assert matches[..i + 1] == matches[..i] + [matches[i]];
    MatchesResolveSnoc(matches[..i], matches[i], d, validateAsUserIds, parseUsername);
  }

  /** ... and pops exactly its key. */
  lemma PoppedAdvance(d: map<string, nat>, matches: seq<MediawikiUser>, i: nat, rest: map<string, nat>,
                      validateAsUserIds: bool, parseUsername: string -> string)
    requires i < |matches|
    requires PoppedBy(d, matches[..i], rest, validateAsUserIds, parseUsername)
    requires MatchKey(matches[i], validateAsUserIds, parseUsername) in rest
    ensures PoppedBy(d, matches[..i + 1], rest - {MatchKey(matches[i], validateAsUserIds, parseUsername)}, validateAsUserIds, parseUsername)
  {
    var ms := matches[..i + 1];
    assert ms[..|ms| - 1] == matches[..i];
    assert ms[|ms| - 1] == matches[i];
  }

  /** ... and confirms exactly the record its key names, which was still as loaded. */
  lemma ConfirmAdvance(rows: map<nat, WikiUser>, d: map<string, nat>, matches: seq<MediawikiUser>, i: nat, rest: map<string, nat>,
                       validateAsUserIds: bool, parseUsername: string -> string)
    requires DictTargets(rows, d) && i < |matches|
    requires PoppedBy(d, matches[..i], rest, validateAsUserIds, parseUsername)
    requires MatchKey(matches[i], validateAsUserIds, parseUsername) in rest
    ensures var key := MatchKey(matches[i], validateAsUserIds, parseUsername);
            && Classified(rows, d, matches[..i], d.Keys, validateAsUserIds, parseUsername)[rest[key]] == rows[rest[key]]
            && Classified(rows, d, matches[..i + 1], d.Keys, validateAsUserIds, parseUsername)
               == Classified(rows, d, matches[..i], d.Keys, validateAsUserIds, parseUsername)[rest[key] := Confirmed(rows[rest[key]], matches[i])]
  {
    assert matches[..i + 1] == matches[..i] + [matches[i]];
    ClassifiedConfirmStep(rows, d, matches[..i], matches[i], validateAsUserIds, parseUsername);
  }

  /** A match whose key is no longer in `rest` is the KeyError. */
  lemma KeyErrorAt(d: map<string, nat>, matches: seq<MediawikiUser>, i: nat, rest: map<string, nat>,
                   validateAsUserIds: bool, parseUsername: string -> string)
    requires i < |matches|
    requires PoppedBy(d, matches[..i], rest, validateAsUserIds, parseUsername)
    requires MatchKey(matches[i], validateAsUserIds, parseUsername) !in rest
    ensures !MatchesResolve(matches[..i + 1], d, validateAsUserIds, parseUsername)
    ensures !MatchesResolve(matches, d, validateAsUserIds, parseUsername)
  {
    var key := MatchKey(matches[i], validateAsUserIds, parseUsername);
    var ms := matches[..i + 1];
    assert ms[i] == matches[i];
    if key in d {
      var m := FindMatch(matches[..i], key, validateAsUserIds, parseUsername).value;
      var j :| 0 <= j < i && matches[..i][j] == m;
      assert matches[j] == m && ms[j] == m;
    }
  }

  /** One turn of the "update results" loop: the record the match's key names is confirmed and the key popped. */
  method ConfirmNext(s: Session, ghost rows: map<nat, WikiUser>, ghost d: map<string, nat>, matches: seq<MediawikiUser>, i: nat,
                     rest: map<string, nat>, validateAsUserIds: bool, parseUsername: string -> string) returns (rest': map<string, nat>)
    requires DictTargets(rows, d) && i < |matches|
    requires MatchesResolve(matches[..i], d, validateAsUserIds, parseUsername)
    requires PoppedBy(d, matches[..i], rest, validateAsUserIds, parseUsername)
    requires MatchKey(matches[i], validateAsUserIds, parseUsername) in rest
    requires s.db.wikiUsers == Classified(rows, d, matches[..i], d.Keys, validateAsUserIds, parseUsername)
    modifies s
    ensures rest' == rest - {MatchKey(matches[i], validateAsUserIds, parseUsername)}
    ensures MatchesResolve(matches[..i + 1], d, validateAsUserIds, parseUsername)
    ensures PoppedBy(d, matches[..i + 1], rest', validateAsUserIds, parseUsername)
    ensures s.db == old(s.db).(wikiUsers := Classified(rows, d, matches[..i + 1], d.Keys, validateAsUserIds, parseUsername))
    ensures s.committed == old(s.committed)
  {
    var hit := matches[i];
    var key := MatchKey(hit, validateAsUserIds, parseUsername);
    var id := rest[key];
    var wu := s.db.wikiUsers[id];
    ResolveAdvance(d, matches, i, rest, validateAsUserIds, parseUsername);
    PoppedAdvance(d, matches, i, rest, validateAsUserIds, parseUsername);
    ConfirmAdvance(rows, d, matches, i, rest, validateAsUserIds, parseUsername);
    var confirmed := wu.(mediawikiUsername := hit.userName, mediawikiUserid := Some(hit.userId), valid := Some(true), reasonInvalid := None);
    assert confirmed == Confirmed(rows[id], hit);
    s.db := s.db.(wikiUsers := s.db.wikiUsers[id := confirmed]);
    rest' := rest - {key};
  }

  /**
   * The KeyError at match `n`: the matches before it resolve and were
   * applied, and match `n` is the first whose key is missing; `after` is what
   * the rows then hold.
   */
  ghost predicate RaisedAt(rows: map<nat, WikiUser>, d: map<string, nat>, matches: seq<MediawikiUser>, after: map<nat, WikiUser>,
                           validateAsUserIds: bool, parseUsername: string -> string) {
    exists n :: 0 <= n < |matches|
      && MatchesResolve(matches[..n], d, validateAsUserIds, parseUsername)
      && !MatchesResolve(matches[..n + 1], d, validateAsUserIds, parseUsername)
      && after == Classified(rows, d, matches[..n], d.Keys, validateAsUserIds, parseUsername)
  }

  /**
   * The "update results" loop of `validate_users`: each match confirms the
   * record its key names and pops the key. It fails (the KeyError) at the
   * first match whose key is not, or no longer, in `usersDict`; the matches
   * before it stay applied.
   */
  method ConfirmMatches(s: Session, ghost rows: map<nat, WikiUser>, usersDict: map<string, nat>, matches: seq<MediawikiUser>,
                        validateAsUserIds: bool, parseUsername: string -> string) returns (ok: bool, rest: map<string, nat>)
    requires s.db.wikiUsers == rows && DictTargets(rows, usersDict)
    modifies s
    ensures s.committed == old(s.committed)
    ensures ok == MatchesResolve(matches, usersDict, validateAsUserIds, parseUsername)
    ensures ok ==> s.db == old(s.db).(wikiUsers := Classified(rows, usersDict, matches, usersDict.Keys, validateAsUserIds, parseUsername))
    ensures ok ==> PoppedBy(usersDict, matches, rest, validateAsUserIds, parseUsername)
    ensures !ok ==> s.db == old(s.db).(wikiUsers := s.db.wikiUsers)
                    && RaisedAt(rows, usersDict, matches, s.db.wikiUsers, validateAsUserIds, parseUsername)
  {
    ghost var d := usersDict;
    rest := usersDict;
    assert Classified(rows, d, matches[..0], d.Keys, validateAsUserIds, parseUsername) == rows;
    var i := 0;
    while i < |matches|
      invariant 0 <= i <= |matches|
      invariant MatchesResolve(matches[..i], d, validateAsUserIds, parseUsername)
      invariant PoppedBy(d, matches[..i], rest, validateAsUserIds, parseUsername)
      invariant s.db == old(s.db).(wikiUsers := Classified(rows, d, matches[..i], d.Keys, validateAsUserIds, parseUsername))
      invariant s.committed == old(s.committed)
    {
      var hit := matches[i];
      var key := MatchKey(hit, validateAsUserIds, parseUsername);
      if key !in rest {
        // KeyError
        KeyErrorAt(d, matches, i, rest, validateAsUserIds, parseUsername);
        return false, rest;
      }
      rest := ConfirmNext(s, rows, d, matches, i, rest, validateAsUserIds, parseUsername);
      i := i + 1;
    }
    assert matches[..i] == matches;
    return true, rest;
  }

  /** The "mark the rest invalid" loop of `validate_users`, in whatever order `users_dict.keys()` yields. */
  method RejectUnmatched(s: Session, ghost rows: map<nat, WikiUser>, ghost d: map<string, nat>, matches: seq<MediawikiUser>,
                         usersDict: map<string, nat>, validateAsUserIds: bool, parseUsername: string -> string)
    requires DictTargets(rows, d)
    requires usersDict.Keys <= d.Keys && forall k :: k in usersDict ==> usersDict[k] == d[k]
    requires forall k :: k in usersDict ==> FindMatch(matches, k, validateAsUserIds, parseUsername).None?
    requires s.db.wikiUsers == Classified(rows, d, matches, usersDict.Keys, validateAsUserIds, parseUsername)
    modifies s
    ensures s.db == old(s.db).(wikiUsers := Classified(rows, d, matches, {}, validateAsUserIds, parseUsername))
    ensures s.committed == old(s.committed)
  {
    var pending := usersDict;
    while pending != map[]
      invariant pending.Keys <= usersDict.Keys
      invariant forall k :: k in pending ==> pending[k] == d[k]
      invariant s.db == old(s.db).(wikiUsers := Classified(rows, d, matches, pending.Keys, validateAsUserIds, parseUsername))
      invariant s.committed == old(s.committed)
      decreases |pending|
    {
      var key :| key in pending;
      var id := pending[key];
      var wu := s.db.wikiUsers[id];
      assert wu == rows[id];
      ClassifiedRejectStep(rows, d, matches, pending.Keys, key, validateAsUserIds, parseUsername);
      s.db := s.db.(wikiUsers := s.db.wikiUsers[id := wu.(reasonInvalid := Some(InvalidReason(validateAsUserIds, key)), valid := Some(false))]);
      assert pending.Keys - {key} == (pending - {key}).Keys;
      pending := pending - {key};
    }
    assert pending.Keys == {};
  }

  /**
   * `validate_users(wikiusers, project, validate_as_user_ids)`. It returns
   * false where the source raises: the project's store cannot be queried, or
   * a match's key is not (or no longer) in `users_dict`.
   */
  method ValidateUsers(s: Session, wikiusers: seq<nat>, project: string, validateAsUserIds: bool,
                       store: Store, parseUsername: string -> string) returns (ok: bool)
    requires forall i :: 0 <= i < |wikiusers| ==> wikiusers[i] in s.db.wikiUsers
    modifies s
    ensures s.committed == old(s.committed)
    ensures s.db.cohorts == old(s.db.cohorts) && s.db.cohortWikiUsers == old(s.db.cohortWikiUsers)
    ensures s.db.wikiUsers.Keys == old(s.db.wikiUsers).Keys
    ensures ok == QuerySucceeds(old(s.db.wikiUsers), wikiusers, project, validateAsUserIds, store, parseUsername)
    ensures ok ==> s.db.wikiUsers == ClassifyBatch(old(s.db.wikiUsers), wikiusers, project, validateAsUserIds, store, parseUsername)
    ensures project !in store ==> s.db == old(s.db)
    ensures forall id :: id in old(s.db.wikiUsers) ==> SameRecord(s.db.wikiUsers[id], old(s.db.wikiUsers)[id])
    ensures forall id :: id in old(s.db.wikiUsers) && id !in wikiusers ==> s.db.wikiUsers[id] == old(s.db.wikiUsers)[id]
    ensures !ok && project in store ==>
              RaisedAt(old(s.db.wikiUsers), UsersDict(old(s.db.wikiUsers), wikiusers),
                       Query(store[project], UsersDict(old(s.db.wikiUsers), wikiusers).Keys, validateAsUserIds),
                       s.db.wikiUsers, validateAsUserIds, parseUsername)
    ensures !ok ==> forall id :: id in old(s.db.wikiUsers) ==>
              s.db.wikiUsers[id] == old(s.db.wikiUsers)[id] || (s.db.wikiUsers[id].valid == Some(true) && s.db.wikiUsers[id].reasonInvalid == None)
  {
    ghost var rows := s.db.wikiUsers;
    var usersDict := UsersDict(s.db.wikiUsers, wikiusers);
    assert DictTargets(rows, usersDict);
    if project !in store {
      // the query raises before any record is written; users_dict is cleared and the exception re-raised
      return false;
    }
    var matches := Query(store[project], usersDict.Keys, validateAsUserIds);
    var rest;
    ok, rest := ConfirmMatches(s, rows, usersDict, matches, validateAsUserIds, parseUsername);
    if !ok {
      // the handler clears users_dict and re-raises
      ghost var n :| 0 <= n < |matches|
                     && MatchesResolve(matches[..n], usersDict, validateAsUserIds, parseUsername)
                     && !MatchesResolve(matches[..n + 1], usersDict, validateAsUserIds, parseUsername)
                     && s.db.wikiUsers == Classified(rows, usersDict, matches[..n], usersDict.Keys, validateAsUserIds, parseUsername);
      ClassifiedFrame(rows, wikiusers, usersDict, matches[..n], usersDict.Keys, validateAsUserIds, parseUsername);
      ClassifiedAllPending(rows, usersDict, matches[..n], validateAsUserIds, parseUsername);
      return;
    }
    ClassifiedPendingMatched(rows, usersDict, matches, usersDict.Keys, rest.Keys, validateAsUserIds, parseUsername);
    RejectUnmatched(s, rows, usersDict, matches, rest, validateAsUserIds, parseUsername);
    ClassifiedFrame(rows, wikiusers, usersDict, matches, {}, validateAsUserIds, parseUsername);
  }

  // ---------------------------------------------------------------------------
  // What a successful `validate_users` call decides, record by record
  // ---------------------------------------------------------------------------

  /** A record shadowed in `users_dict` by a later one with the same username is not touched. */
  lemma ShadowedRecordUntouched(rows: map<nat, WikiUser>, wikiusers: seq<nat>, project: string, validateAsUserIds: bool,
                                store: Store, parseUsername: string -> string, id: nat)
    requires forall i :: 0 <= i < |wikiusers| ==> wikiusers[i] in rows
    requires project in store && id in rows
    requires var k := rows[id].mediawikiUsername; k !in UsersDict(rows, wikiusers) || UsersDict(rows, wikiusers)[k] != id
    ensures ClassifyBatch(rows, wikiusers, project, validateAsUserIds, store, parseUsername)[id] == rows[id]
  {
  }

  /**
   * The record `users_dict` keeps for a username is confirmed by a store row
   * whose key is that username when the query selects one, and otherwise
   * rejected with the reason naming the key.
   */
  lemma BatchRecordOutcome(rows: map<nat, WikiUser>, wikiusers: seq<nat>, project: string, validateAsUserIds: bool,
                           store: Store, parseUsername: string -> string, i: nat)
    requires forall j :: 0 <= j < |wikiusers| ==> wikiusers[j] in rows
    requires project in store && i < |wikiusers|
    requires var k := rows[wikiusers[i]].mediawikiUsername; UsersDict(rows, wikiusers)[k] == wikiusers[i]
    ensures var d := UsersDict(rows, wikiusers);
            var k := rows[wikiusers[i]].mediawikiUsername;
            var r := ClassifyBatch(rows, wikiusers, project, validateAsUserIds, store, parseUsername)[wikiusers[i]];
            && ((exists m :: m in store[project] && Selected(m, d.Keys, validateAsUserIds) && MatchKey(m, validateAsUserIds, parseUsername) == k)
                <==> r.valid == Some(true))
            && (r.valid == Some(true) ==>
                  exists m :: m in store[project] && MatchKey(m, validateAsUserIds, parseUsername) == k && r == Confirmed(rows[wikiusers[i]], m))
            && (r.valid != Some(true) ==> r == Rejected(rows[wikiusers[i]], InvalidReason(validateAsUserIds, k)))
  {
    var d := UsersDict(rows, wikiusers);
    var k := rows[wikiusers[i]].mediawikiUsername;
    var ms := Query(store[project], d.Keys, validateAsUserIds);
    var r := ClassifyBatch(rows, wikiusers, project, validateAsUserIds, store, parseUsername)[wikiusers[i]];
    match FindMatch(ms, k, validateAsUserIds, parseUsername)
    case Some(m) =>
      assert r == Confirmed(rows[wikiusers[i]], m);
    case None =>
      assert r == Rejected(rows[wikiusers[i]], InvalidReason(validateAsUserIds, k));
  }

  /**
   * With user ids, a key with a leading zero or with anything but digits is
   * never confirmed: the key a match is looked up under is `str(user_id)`.
   */
  lemma NonCanonicalIdKeyRejected(rows: map<nat, WikiUser>, wikiusers: seq<nat>, project: string,
                                  store: Store, parseUsername: string -> string, i: nat)
    requires forall j :: 0 <= j < |wikiusers| ==> wikiusers[j] in rows
    requires project in store && i < |wikiusers|
    requires var k := rows[wikiusers[i]].mediawikiUsername; UsersDict(rows, wikiusers)[k] == wikiusers[i] && !Canonical(k)
    ensures ClassifyBatch(rows, wikiusers, project, true, store, parseUsername)[wikiusers[i]]
         == Rejected(rows[wikiusers[i]], "invalid user_id: " + rows[wikiusers[i]].mediawikiUsername)
  {
  }

  /** With user ids, a key without a leading zero is confirmed when the store has that id. */
  lemma CanonicalIdKeyConfirmed(rows: map<nat, WikiUser>, wikiusers: seq<nat>, project: string,
                                store: Store, parseUsername: string -> string, i: nat)
    requires forall j :: 0 <= j < |wikiusers| ==> wikiusers[j] in rows
    requires project in store && i < |wikiusers|
    requires var k := rows[wikiusers[i]].mediawikiUsername; UsersDict(rows, wikiusers)[k] == wikiusers[i] && Canonical(k)
    requires exists m :: m in store[project] && m.userId == ParseNat(rows[wikiusers[i]].mediawikiUsername)
    ensures var r := ClassifyBatch(rows, wikiusers, project, true, store, parseUsername)[wikiusers[i]];
            r.valid == Some(true) && r.reasonInvalid == None && r.mediawikiUserid == Some(ParseNat(rows[wikiusers[i]].mediawikiUsername))
  {
    var d := UsersDict(rows, wikiusers);
    var k := rows[wikiusers[i]].mediawikiUsername;
    var m :| m in store[project] && m.userId == ParseNat(k);
    assert k in d.Keys && IsDigits(k);
    assert m.userId in IdKeys(d.Keys);
    NatToStringParseNat(k);
    assert MatchKey(m, true, parseUsername) == k;
    BatchRecordOutcome(rows, wikiusers, project, true, store, parseUsername, i);
    var r := ClassifyBatch(rows, wikiusers, project, true, store, parseUsername)[wikiusers[i]];
    var m' :| m' in store[project] && MatchKey(m', true, parseUsername) == k && r == Confirmed(rows[wikiusers[i]], m');
    assert ParseNat(NatToString(m'.userId)) == m'.userId;
  }

  /**
   * With user ids, a digit key whose integer the store holds, but whose
   * integer written back by `str` is not itself a key of `users_dict` (as
   * with a leading zero), makes the lookup of that match raise the KeyError.
   */
  lemma UnwrittenIdKeyRaises(rows: map<nat, WikiUser>, wikiusers: seq<nat>, project: string,
                             store: Store, parseUsername: string -> string, i: nat)
    requires forall j :: 0 <= j < |wikiusers| ==> wikiusers[j] in rows
    requires project in store && i < |wikiusers|
    requires var k := rows[wikiusers[i]].mediawikiUsername;
             && IsDigits(k)
             && (exists m :: m in store[project] && m.userId == ParseNat(k))
             && NatToString(ParseNat(k)) !in UsersDict(rows, wikiusers)
    ensures !QuerySucceeds(rows, wikiusers, project, true, store, parseUsername)
  {
    var d := UsersDict(rows, wikiusers);
    var k := rows[wikiusers[i]].mediawikiUsername;
    var m :| m in store[project] && m.userId == ParseNat(k);
    assert k in d.Keys;
    assert m.userId in IdKeys(d.Keys);
    var ms := Query(store[project], d.Keys, true);
    assert m in ms;
    var t :| 0 <= t < |ms| && ms[t] == m;
    assert MatchKey(ms[t], true, parseUsername) !in d;
  }

  /** The record "042" against store user 42: the match's key is "42", which `users_dict` lacks. */
  /** A query that selects no row of the table returns nothing. */
  lemma {:induction false} QueryNoneSelected(table: seq<MediawikiUser>, keys: set<string>, validateAsUserIds: bool)
    requires forall m :: m in table ==> !Selected(m, keys, validateAsUserIds)
    ensures Query(table, keys, validateAsUserIds) == []
  {
    if table != [] {
      assert table[0] in table;
      QueryNoneSelected(table[1..], keys, validateAsUserIds);
    }
  }

  /**
   * A re-run in id mode rejects a record the last run confirmed, when the
   * store's user name is not a digit string: the confirmation wrote that
   * name over the uploaded id, and the reset clears only `valid`.
   */
  lemma ConfirmedIdRejectedOnRerun(rows: map<nat, WikiUser>, c: nat, id: nat, m: MediawikiUser, project: string,
                                   store: Store, parseUsername: string -> string)
    requires id in rows && rows[id].validatingCohort == c
    requires project in store && m in store[project] && !IsDigits(m.userName)
    ensures var again := ClearValid(rows[id := Confirmed(rows[id], m)], c);
            && QuerySucceeds(again, [id], project, true, store, parseUsername)
            && ClassifyBatch(again, [id], project, true, store, parseUsername)[id] == Rejected(again[id], "invalid user_id: " + m.userName)
  {
    var again := ClearValid(rows[id := Confirmed(rows[id], m)], c);
    var d := UsersDict(again, [id]);
    assert again[id].mediawikiUsername == m.userName;
    assert d.Keys == {m.userName} && d[m.userName] == id;
    assert IdKeys(d.Keys) == {};
    QueryNoneSelected(store[project], d.Keys, true);
    NonCanonicalIdKeyRejected(again, [id], project, store, parseUsername, 0);
  }

  lemma LeadingZeroIdRaises()
    ensures var wu := WikiUser(1, "042", None, "enwiki", None, None, 7);
            !QuerySucceeds(map[1 := wu], [1], "enwiki", true, map["enwiki" := [MediawikiUser(42, "Bob")]], s => s)
  {
    var wu := WikiUser(1, "042", None, "enwiki", None, None, 7);
    var rows := map[1 := wu];
    var d := UsersDict(rows, [1]);
    assert d == map["042" := 1];
    assert ParseNat("042") == 42 by {
      assert "042"[..2] == "04" && "04"[..1] == "0" && "0"[..0] == "";
    }
    assert IdKeys(d.Keys) == {42};
    var table := [MediawikiUser(42, "Bob")];
    assert Query(table, d.Keys, true) == table;
    var key := NatToString(42);
    assert key != "042" by {
      assert key[0] == '0' ==> key == "0";
    }
    assert key !in d;
  }

  /** The store rows a query can return: all of them under distinct keys, each key in the batch. */
  ghost predicate KeysResolve(table: seq<MediawikiUser>, d: map<string, nat>, validateAsUserIds: bool, parseUsername: string -> string) {
    && (forall m :: m in table && Selected(m, d.Keys, validateAsUserIds) ==> MatchKey(m, validateAsUserIds, parseUsername) in d)
    && (forall i, j :: 0 <= i < j < |table| ==> MatchKey(table[i], validateAsUserIds, parseUsername) != MatchKey(table[j], validateAsUserIds, parseUsername))
  }

  lemma {:induction false} QueryKeepsKeysApart(table: seq<MediawikiUser>, d: map<string, nat>, validateAsUserIds: bool, parseUsername: string -> string)
    requires KeysResolve(table, d, validateAsUserIds, parseUsername)
    ensures MatchesResolve(Query(table, d.Keys, validateAsUserIds), d, validateAsUserIds, parseUsername)
  {
    if table != [] {
      var tail := table[1..];
      assert KeysResolve(tail, d, validateAsUserIds, parseUsername) by {
        forall i, j | 0 <= i < j < |tail|
          ensures MatchKey(tail[i], validateAsUserIds, parseUsername) != MatchKey(tail[j], validateAsUserIds, parseUsername)
        {
          assert tail[i] == table[i + 1] && tail[j] == table[j + 1];
        }
      }
      QueryKeepsKeysApart(tail, d, validateAsUserIds, parseUsername);
      var rest := Query(tail, d.Keys, validateAsUserIds);
      if Selected(table[0], d.Keys, validateAsUserIds) {
        var ms := [table[0]] + rest;
        forall i | 0 <= i < |ms|
          ensures MatchKey(ms[i], validateAsUserIds, parseUsername) in d
          ensures forall j :: 0 <= j < i ==> MatchKey(ms[j], validateAsUserIds, parseUsername) != MatchKey(ms[i], validateAsUserIds, parseUsername)
        {
          if i > 0 {
            assert ms[i] == rest[i - 1];
            assert ms[i] in tail;
            var t :| 0 <= t < |tail| && tail[t] == ms[i];
            assert table[t + 1] == ms[i];
            forall j | 0 <= j < i
              ensures MatchKey(ms[j], validateAsUserIds, parseUsername) != MatchKey(ms[i], validateAsUserIds, parseUsername)
            {
              if j > 0 {
                assert ms[j] == rest[j - 1];
              }
            }
          }
        }
      }
    }
  }

  /** A query cannot raise when the store rows it can select have distinct keys, each of them in the batch. */
  lemma QuerySucceedsWhenKeysResolve(rows: map<nat, WikiUser>, wikiusers: seq<nat>, project: string, validateAsUserIds: bool,
                                     store: Store, parseUsername: string -> string)
    requires forall i :: 0 <= i < |wikiusers| ==> wikiusers[i] in rows
    requires project in store
    requires KeysResolve(store[project], UsersDict(rows, wikiusers), validateAsUserIds, parseUsername)
    ensures QuerySucceeds(rows, wikiusers, project, validateAsUserIds, store, parseUsername)
  {
    QueryKeepsKeysApart(store[project], UsersDict(rows, wikiusers), validateAsUserIds, parseUsername);
  }

  /** By user id: distinct ids in the store and canonical digit keys in the batch. */
  lemma IdQuerySucceeds(rows: map<nat, WikiUser>, wikiusers: seq<nat>, project: string, store: Store, parseUsername: string -> string)
    requires forall i :: 0 <= i < |wikiusers| ==> wikiusers[i] in rows
    requires project in store
    requires forall i, j :: 0 <= i < j < |store[project]| ==> store[project][i].userId != store[project][j].userId
    requires forall i :: 0 <= i < |wikiusers| && IsDigits(rows[wikiusers[i]].mediawikiUsername) ==> Canonical(rows[wikiusers[i]].mediawikiUsername)
    ensures QuerySucceeds(rows, wikiusers, project, true, store, parseUsername)
  {
    var d := UsersDict(rows, wikiusers);
    var table := store[project];
    forall m | m in table && Selected(m, d.Keys, true) ensures MatchKey(m, true, parseUsername) in d {
      var k :| k in d.Keys && IsDigits(k) && ParseNat(k) == m.userId;
      var i :| 0 <= i < |wikiusers| && wikiusers[i] == d[k];
      NatToStringParseNat(k);
    }
    forall i, j | 0 <= i < j < |table| ensures MatchKey(table[i], true, parseUsername) != MatchKey(table[j], true, parseUsername) {
      assert ParseNat(NatToString(table[i].userId)) == table[i].userId;
      assert ParseNat(NatToString(table[j].userId)) == table[j].userId;
    }
    QuerySucceedsWhenKeysResolve(rows, wikiusers, project, true, store, parseUsername);
  }

  /** By user name, with `parse_username` leaving store names as they are: distinct names in the store. */
  lemma NameQuerySucceeds(rows: map<nat, WikiUser>, wikiusers: seq<nat>, project: string, store: Store, parseUsername: string -> string)
    requires forall i :: 0 <= i < |wikiusers| ==> wikiusers[i] in rows
    requires project in store
    requires forall m :: m in store[project] ==> parseUsername(m.userName) == m.userName
    requires forall i, j :: 0 <= i < j < |store[project]| ==> store[project][i].userName != store[project][j].userName
    ensures QuerySucceeds(rows, wikiusers, project, false, store, parseUsername)
  {
    QuerySucceedsWhenKeysResolve(rows, wikiusers, project, false, store, parseUsername);
  }

  // ---------------------------------------------------------------------------
  // ValidateCohort.validate_records (wikimetrics/models/validate_cohort.py:113-200)
  // ---------------------------------------------------------------------------

  /** A `ValidateCohort` job: the cohort's id and validation mode, copied from the cohort row when the job is made. */
  datatype Job = Job(cohortId: nat, validateAsUserIds: bool)

  /** The key both deduplications use: `(mediawiki_username, project)` as the rows hold them at that moment. */
  function RecordKey(rows: map<nat, WikiUser>): nat -> (string, string) {
    id => if id in rows then (rows[id].mediawikiUsername, rows[id].project) else ([], [])
  }

  /** The database after the reset that opens `validate_records`. */
  function Reset(db: Db, c: nat): Db
    requires c in db.cohorts
  {
    db.(cohorts := db.cohorts[c := db.cohorts[c].(validated := false)],
        wikiUsers := ClearValid(db.wikiUsers, c),
        cohortWikiUsers := DeleteMemberships(db.cohortWikiUsers, c))
  }

  /** What every phase after the reset keeps: the cohorts, the memberships, and the rows of other cohorts. */
  ghost predicate Unaffected(db: Db, base: Db, c: nat) {
    && db.cohorts == base.cohorts
    && db.cohortWikiUsers == base.cohortWikiUsers
    && db.wikiUsers.Keys == base.wikiUsers.Keys
    && (forall id :: id in base.wikiUsers ==> SameRecordCohort(db.wikiUsers[id], base.wikiUsers[id]))
    && (forall id :: id in base.wikiUsers && base.wikiUsers[id].validatingCohort != c ==> db.wikiUsers[id] == base.wikiUsers[id])
  }

  predicate SameRecordCohort(a: WikiUser, b: WikiUser) {
    a.id == b.id && a.validatingCohort == b.validatingCohort
  }

  /**
   * What the project step leaves in a record uploaded with project `raw`: the
   * normalised project, or the raw one marked invalid with the reason naming it.
   */
  predicate ProjectSettled(w: WikiUser, raw: string, directory: set<string>) {
    Settled(w, raw, NormalizeProject(raw, directory))
  }

  /** `ProjectSettled` with the normalisation of `raw` already worked out as `normalized`. */
  predicate Settled(w: WikiUser, raw: string, normalized: Option<string>) {
    match normalized
    case Some(p) => w.project == p
    case None => w.project == raw && w.valid == Some(false) && w.reasonInvalid == Some("invalid project: " + raw)
  }

  /** The row the project step writes for a record whose project normalises to `normalized`. */
  function ProjectStep(w: WikiUser, normalized: Option<string>): (r: WikiUser)
    ensures Settled(r, w.project, normalized)
    ensures SameRecordCohort(r, w) && r.mediawikiUsername == w.mediawikiUsername && r.mediawikiUserid == w.mediawikiUserid
    ensures normalized.Some? ==> r.valid == w.valid && r.reasonInvalid == w.reasonInvalid
  {
    match normalized
    case Some(p) => w.(project := p)
    case None => RejectedProject(w)
  }

  /** `norms` holds the normalisation of each record's uploaded project. */
  ghost predicate NormsOf(norms: map<nat, Option<string>>, base: Db, dd: seq<nat>, directory: set<string>)
    requires forall id :: id in dd ==> id in base.wikiUsers
  {
    forall id :: id in dd ==> id in norms && norms[id] == NormalizeProject(base.wikiUsers[id].project, directory)
  }

  /** One call of `validate_users` from `validate_records`: the batch's project and records, whether it was the in-loop flush, and whether it returned. */
  datatype Flush = Flush(project: string, batch: seq<nat>, inLoop: bool, ok: bool)

  ghost function FailedProjects(log: seq<Flush>): set<string> {
    set f | f in log && !f.ok :: f.project
  }

  /** `wikiusers_by_project[p]`, an absent project read as an empty batch. */
  function BatchOf(batches: map<string, seq<nat>>, p: string): seq<nat> {
    if p in batches then batches[p] else []
  }

  /** The records of `dd`, in order, whose project normalises to `p` according to `norms`. */
  ghost function OfProject(dd: seq<nat>, norms: map<nat, Option<string>>, p: string): seq<nat> {
    if dd == [] then []
    else
      var last := dd[|dd| - 1];
      OfProject(dd[..|dd| - 1], norms, p) + (if last in norms && norms[last] == Some(p) then [last] else [])
  }

  /** The records of `dd`, in order, whose uploaded project in `rows` normalises to `p`. */
  ghost function RecordsOfProject(rows: map<nat, WikiUser>, dd: seq<nat>, directory: set<string>, p: string): seq<nat> {
    if dd == [] then []
    else
      var last := dd[|dd| - 1];
      RecordsOfProject(rows, dd[..|dd| - 1], directory, p)
        + (if last in rows && NormalizeProject(rows[last].project, directory) == Some(p) then [last] else [])
  }

  /** The records that the calls of `log` on `p`'s batches validated and that returned, in call order. */
  ghost function Flushed(log: seq<Flush>, p: string): seq<nat> {
    if log == [] then []
    else
      var f := log[|log| - 1];
      Flushed(log[..|log| - 1], p) + (if f.project == p && f.ok then f.batch else [])
  }

  /**
   * No record is lost or repeated: for every project, the records validated by
   * the calls that returned, followed by the project's pending batch, are the
   * handled records of that project in order.
   */
  ghost predicate Conserved(dd: seq<nat>, i: nat, batches: map<string, seq<nat>>, log: seq<Flush>, norms: map<nat, Option<string>>)
    requires i <= |dd|
  {
    forall p :: Flushed(log, p) + BatchOf(batches, p) == OfProject(dd[..i], norms, p)
  }

  lemma ConservedReject(dd: seq<nat>, i: nat, batches: map<string, seq<nat>>, log: seq<Flush>, norms: map<nat, Option<string>>)
    requires i < |dd| && Conserved(dd, i, batches, log, norms)
    requires dd[i] in norms && norms[dd[i]] == None
    ensures Conserved(dd, i + 1, batches, log, norms)
  {
    assert dd[..i + 1][..i] == dd[..i];
  }

  lemma ConservedAppend(dd: seq<nat>, i: nat, batches: map<string, seq<nat>>, log: seq<Flush>, norms: map<nat, Option<string>>, p: string)
    requires i < |dd| && Conserved(dd, i, batches, log, norms)
    requires dd[i] in norms && norms[dd[i]] == Some(p)
    ensures Conserved(dd, i + 1, batches[p := BatchOf(batches, p) + [dd[i]]], log, norms)
  {
    assert dd[..i + 1][..i] == dd[..i];
    var batches' := batches[p := BatchOf(batches, p) + [dd[i]]];
    forall q ensures Flushed(log, q) + BatchOf(batches', q) == OfProject(dd[..i + 1], norms, q) {
      if q == p {
        assert Flushed(log, q) + BatchOf(batches', q) == (Flushed(log, q) + BatchOf(batches, q)) + [dd[i]];
      }
    }
  }

  lemma ConservedFlush(dd: seq<nat>, i: nat, batches: map<string, seq<nat>>, log: seq<Flush>, norms: map<nat, Option<string>>,
                       p: string, ok: bool)
    requires i <= |dd| && Conserved(dd, i, batches, log, norms)
    requires p in batches
    ensures Conserved(dd, i, if ok then batches[p := []] else batches, log + [Flush(p, batches[p], true, ok)], norms)
  {
    var log' := log + [Flush(p, batches[p], true, ok)];
    assert log'[..|log|] == log;
    var batches' := if ok then batches[p := []] else batches;
    forall q ensures Flushed(log', q) + BatchOf(batches', q) == OfProject(dd[..i], norms, q) {
      if q == p && ok {
        assert Flushed(log', q) == Flushed(log, q) + batches[p];
        assert BatchOf(batches', q) == [];
      }
    }
  }

  lemma {:induction false} FlushedAppend(log1: seq<Flush>, log2: seq<Flush>, p: string)
    ensures Flushed(log1 + log2, p) == Flushed(log1, p) + Flushed(log2, p)
  {
    if log2 == [] {
      assert log1 + log2 == log1;
    } else {
      var init := log2[..|log2| - 1];
      assert (log1 + log2)[..|log1 + log2| - 1] == log1 + init;
      FlushedAppend(log1, init, p);
    }
  }

  /** Calls that all returned, on distinct projects: `p`'s records are those of its one call, if any. */
  lemma {:induction false} FlushedOnce(log: seq<Flush>, p: string)
    requires forall i, j :: 0 <= i < j < |log| ==> log[i].project != log[j].project
    requires forall j :: 0 <= j < |log| ==> log[j].ok
    ensures (forall j :: 0 <= j < |log| ==> log[j].project != p) ==> Flushed(log, p) == []
    ensures forall j :: 0 <= j < |log| && log[j].project == p ==> Flushed(log, p) == log[j].batch
  {
    if log != [] {
      var init := log[..|log| - 1];
      FlushedOnce(init, p);
      forall j | 0 <= j < |log| && log[j].project == p ensures Flushed(log, p) == log[j].batch {
        if j < |init| {
          assert init[j] == log[j];
          assert log[|log| - 1].project != p;
        } else {
          assert forall k :: 0 <= k < |init| ==> init[k].project != p by {
            forall k | 0 <= k < |init| ensures init[k].project != p {
              assert init[k] == log[k];
            }
          }
        }
      }
    }
  }

  /**
   * The end-of-loop calls so far, `todo` being the projects not yet visited:
   * one call per visited non-empty batch, on that batch, no project twice.
   */
  ghost predicate EndFlushes(batches: map<string, seq<nat>>, todo: set<string>, log: seq<Flush>) {
    && (forall j :: 0 <= j < |log| ==>
          && !log[j].inLoop && log[j].batch != []
          && log[j].project in batches && log[j].batch == batches[log[j].project] && log[j].project !in todo)
    && (forall i, j :: 0 <= i < j < |log| ==> log[i].project != log[j].project)
    && (forall q :: q in batches && q !in todo && batches[q] != [] ==> exists j :: 0 <= j < |log| && log[j].project == q)
  }

  /** Visiting `p` keeps `EndFlushes`: a call on its batch is logged exactly when the batch is non-empty. */
  lemma EndFlushesStep(batches: map<string, seq<nat>>, todo: set<string>, log: seq<Flush>, p: string, r: bool)
    requires EndFlushes(batches, todo, log) && p in todo && p in batches
    ensures batches[p] != [] ==> EndFlushes(batches, todo - {p}, log + [Flush(p, batches[p], false, r)])
    ensures batches[p] == [] ==> EndFlushes(batches, todo - {p}, log)
  {
    if batches[p] != [] {
      var log' := log + [Flush(p, batches[p], false, r)];
      assert forall j :: 0 <= j < |log| ==> log'[j] == log[j];
      assert log'[|log|].project == p;
    }
  }

  /** The end-of-loop calls, one per non-empty batch and all returned, validate exactly the pending batches. */
  lemma EndFlushesCover(batches: map<string, seq<nat>>, log: seq<Flush>)
    requires forall j :: 0 <= j < |log| ==> log[j].project in batches && log[j].batch == batches[log[j].project]
    requires forall i, j :: 0 <= i < j < |log| ==> log[i].project != log[j].project
    requires forall p :: p in batches && batches[p] != [] ==> exists j :: 0 <= j < |log| && log[j].project == p
    requires forall j :: 0 <= j < |log| ==> log[j].ok
    ensures forall p :: Flushed(log, p) == BatchOf(batches, p)
  {
    forall p ensures Flushed(log, p) == BatchOf(batches, p) {
      EndFlushCoversOne(batches, log, p);
    }
  }

  /** `EndFlushesCover` for the one project `p`. */
  lemma EndFlushCoversOne(batches: map<string, seq<nat>>, log: seq<Flush>, p: string)
    requires forall j :: 0 <= j < |log| ==> log[j].project in batches && log[j].batch == batches[log[j].project]
    requires forall i, j :: 0 <= i < j < |log| ==> log[i].project != log[j].project
    requires p in batches && batches[p] != [] ==> exists j :: 0 <= j < |log| && log[j].project == p
    requires forall j :: 0 <= j < |log| ==> log[j].ok
    ensures Flushed(log, p) == BatchOf(batches, p)
  {
    FlushedOnce(log, p);
    if exists j :: 0 <= j < |log| && log[j].project == p {
      var j :| 0 <= j < |log| && log[j].project == p;
      assert Flushed(log, p) == log[j].batch;
    }
  }

  /** Every batch's records are rows of `rows`. */
  ghost predicate BatchesIn(batches: map<string, seq<nat>>, rows: map<nat, WikiUser>) {
    forall p, k :: p in batches && 0 <= k < |batches[p]| ==> batches[p][k] in rows
  }

  /** Each end-of-loop call among `flushes` returned iff its batch's query succeeds on `rows`. */
  ghost predicate EndCallsOn(rows: map<nat, WikiUser>, flushes: seq<Flush>, validateAsUserIds: bool, store: Store,
                             parseUsername: string -> string) {
    forall j :: 0 <= j < |flushes| && !flushes[j].inLoop ==>
      && (forall k :: 0 <= k < |flushes[j].batch| ==> flushes[j].batch[k] in rows)
      && flushes[j].ok == QuerySucceeds(rows, flushes[j].batch, flushes[j].project, validateAsUserIds, store, parseUsername)
  }

  /**
   * `after` is `rows` with every end-of-loop call among `flushes` applied:
   * each call's query succeeds on `rows`, each record of its batch holds its
   * classification in that batch, and a record in none of them is unchanged.
   */
  ghost predicate EndCallsClassified(rows: map<nat, WikiUser>, after: map<nat, WikiUser>, flushes: seq<Flush>,
                                     validateAsUserIds: bool, store: Store, parseUsername: string -> string) {
    && after.Keys == rows.Keys
    && (forall j :: 0 <= j < |flushes| && !flushes[j].inLoop ==>
          && (forall k :: 0 <= k < |flushes[j].batch| ==> flushes[j].batch[k] in rows)
          && QuerySucceeds(rows, flushes[j].batch, flushes[j].project, validateAsUserIds, store, parseUsername)
          && (forall id :: id in flushes[j].batch ==>
                after[id] == ClassifyBatch(rows, flushes[j].batch, flushes[j].project, validateAsUserIds, store, parseUsername)[id]))
    && (forall id :: id in rows && (forall j :: 0 <= j < |flushes| && !flushes[j].inLoop ==> id !in flushes[j].batch) ==>
          after[id] == rows[id])
  }

  /**
   * The end-of-loop flush after visiting all projects but `todo`: the calls
   * so far, `ok` iff they all returned, each returned iff its query succeeds
   * on `rows`, and, while they all return, `cur` is `rows` with their
   * classifications applied.
   */
  ghost predicate EndLoop(rows: map<nat, WikiUser>, cur: map<nat, WikiUser>, batches: map<string, seq<nat>>, todo: set<string>,
                          log: seq<Flush>, ok: bool, validateAsUserIds: bool, store: Store, parseUsername: string -> string) {
    && EndFlushes(batches, todo, log)
    && (ok <==> forall j :: 0 <= j < |log| ==> log[j].ok)
    && EndCallsOn(rows, log, validateAsUserIds, store, parseUsername)
    && (ok ==> EndCallsClassified(rows, cur, log, validateAsUserIds, store, parseUsername))
  }

  /** A batch not yet visited shares no record with the batches already validated. */
  lemma EndBatchesApart(batches: map<string, seq<nat>>, todo: set<string>, log: seq<Flush>, norms: map<nat, Option<string>>, p: string)
    requires EndFlushes(batches, todo, log) && p in todo && p in batches
    requires forall q, id :: q in batches && id in batches[q] ==> id in norms && norms[id] == Some(q)
    ensures forall j, id :: 0 <= j < |log| && id in log[j].batch ==> id !in batches[p]
  {
    forall j, id | 0 <= j < |log| && id in log[j].batch ensures id !in batches[p] {
      var q := log[j].project;
      assert log[j].batch == batches[q] && q != p;
      assert norms[id] == Some(q);
    }
  }

  /** A logged call keeps `EndCallsOn` when it is an in-loop one or succeeded exactly when its query does. */
  lemma EndCallsOnSnoc(rows: map<nat, WikiUser>, log: seq<Flush>, f: Flush,
                       validateAsUserIds: bool, store: Store, parseUsername: string -> string)
    requires EndCallsOn(rows, log, validateAsUserIds, store, parseUsername)
    requires !f.inLoop ==> (forall k :: 0 <= k < |f.batch| ==> f.batch[k] in rows)
                           && f.ok == QuerySucceeds(rows, f.batch, f.project, validateAsUserIds, store, parseUsername)
    ensures EndCallsOn(rows, log + [f], validateAsUserIds, store, parseUsername)
  {
    var log' := log + [f];
    assert forall j :: 0 <= j < |log| ==> log'[j] == log[j];
  }

  /** A returned end-of-loop call on a batch apart from the earlier ones adds its classification. */
  lemma EndCallsClassifiedSnoc(rows: map<nat, WikiUser>, cur: map<nat, WikiUser>, cur': map<nat, WikiUser>, log: seq<Flush>,
                               batch: seq<nat>, p: string, validateAsUserIds: bool, store: Store, parseUsername: string -> string)
    requires forall k :: 0 <= k < |batch| ==> batch[k] in rows
    requires forall j, id :: 0 <= j < |log| && !log[j].inLoop && id in log[j].batch ==> id !in batch
    requires EndCallsClassified(rows, cur, log, validateAsUserIds, store, parseUsername)
    requires QuerySucceeds(rows, batch, p, validateAsUserIds, store, parseUsername)
    requires cur'.Keys == cur.Keys
    requires forall id :: id in batch ==> cur'[id] == ClassifyBatch(rows, batch, p, validateAsUserIds, store, parseUsername)[id]
    requires forall id :: id in cur && id !in batch ==> cur'[id] == cur[id]
    ensures EndCallsClassified(rows, cur', log + [Flush(p, batch, false, true)], validateAsUserIds, store, parseUsername)
  {
    var log' := log + [Flush(p, batch, false, true)];
    assert forall j :: 0 <= j < |log| ==> log'[j] == log[j];
    assert log'[|log|] == Flush(p, batch, false, true);
    forall id | id in rows && (forall j :: 0 <= j < |log'| && !log'[j].inLoop ==> id !in log'[j].batch)
      ensures cur'[id] == rows[id]
    {
      assert id !in batch by {
        assert !log'[|log|].inLoop;
      }
      assert forall j :: 0 <= j < |log| && !log[j].inLoop ==> id !in log[j].batch by {
        forall j | 0 <= j < |log| && !log[j].inLoop ensures id !in log[j].batch {
          assert log'[j] == log[j];
        }
      }
    }
  }

  /** A record in none of the end-of-loop batches still holds its row. */
  lemma UnvisitedUnchanged(rows: map<nat, WikiUser>, cur: map<nat, WikiUser>, log: seq<Flush>, id: nat,
                            validateAsUserIds: bool, store: Store, parseUsername: string -> string)
    requires EndCallsClassified(rows, cur, log, validateAsUserIds, store, parseUsername)
    requires id in rows && forall j :: 0 <= j < |log| && !log[j].inLoop ==> id !in log[j].batch
    ensures id in cur && cur[id] == rows[id]
  {
  }

  /**
   * One more end-of-loop call, on a batch that shares no record with the
   * earlier ones: it succeeds iff its query succeeds on the rows before all
   * of them, and its classification adds to theirs.
   */
  lemma EndCallsAdvance(rows: map<nat, WikiUser>, cur: map<nat, WikiUser>, cur': map<nat, WikiUser>, log: seq<Flush>,
                        batch: seq<nat>, p: string, ok: bool, validateAsUserIds: bool, store: Store, parseUsername: string -> string)
    requires forall k :: 0 <= k < |batch| ==> batch[k] in rows
    requires forall j, id :: 0 <= j < |log| && !log[j].inLoop && id in log[j].batch ==> id !in batch
    requires EndCallsOn(rows, log, validateAsUserIds, store, parseUsername)
    requires EndCallsClassified(rows, cur, log, validateAsUserIds, store, parseUsername)
    requires ok == QuerySucceeds(cur, batch, p, validateAsUserIds, store, parseUsername)
    requires ok ==> cur' == ClassifyBatch(cur, batch, p, validateAsUserIds, store, parseUsername)
    ensures EndCallsOn(rows, log + [Flush(p, batch, false, ok)], validateAsUserIds, store, parseUsername)
    ensures ok ==> EndCallsClassified(rows, cur', log + [Flush(p, batch, false, ok)], validateAsUserIds, store, parseUsername)
  {
    forall k | 0 <= k < |batch| ensures cur[batch[k]] == rows[batch[k]] {
      var id := batch[k];
      assert id in batch;
      assert forall j :: 0 <= j < |log| && !log[j].inLoop ==> id !in log[j].batch;
      UnvisitedUnchanged(rows, cur, log, id, validateAsUserIds, store, parseUsername);
    }
    ClassifyBatchAgree(cur, rows, batch, p, validateAsUserIds, store, parseUsername);
    EndCallsOnSnoc(rows, log, Flush(p, batch, false, ok), validateAsUserIds, store, parseUsername);
    if ok {
      ClassifyBatchOutside(cur, batch, p, validateAsUserIds, store, parseUsername);
      EndCallsClassifiedSnoc(rows, cur, cur', log, batch, p, validateAsUserIds, store, parseUsername);
    }
  }

  /** The end-of-loop calls all return iff every non-empty pending batch's query succeeds. */
  lemma EndCallsDecide(rows: map<nat, WikiUser>, batches: map<string, seq<nat>>, log: seq<Flush>, ok: bool,
                       validateAsUserIds: bool, store: Store, parseUsername: string -> string)
    requires BatchesIn(batches, rows)
    requires forall j :: 0 <= j < |log| ==> !log[j].inLoop && log[j].project in batches && log[j].batch == batches[log[j].project]
    requires forall j :: 0 <= j < |log| ==> log[j].batch != []
    requires EndCallsOn(rows, log, validateAsUserIds, store, parseUsername)
    requires ok <==> forall j :: 0 <= j < |log| ==> log[j].ok
    requires ok ==> forall p :: p in batches && batches[p] != [] ==> exists j :: 0 <= j < |log| && log[j].project == p
    ensures ok <==> forall p :: p in batches && batches[p] != [] ==>
                      QuerySucceeds(rows, batches[p], p, validateAsUserIds, store, parseUsername)
  {
    if ok {
      forall p | p in batches && batches[p] != [] ensures QuerySucceeds(rows, batches[p], p, validateAsUserIds, store, parseUsername) {
        var j :| 0 <= j < |log| && log[j].project == p;
        assert log[j].ok;
      }
    } else {
      var j :| 0 <= j < |log| && !log[j].ok;
      var p := log[j].project;
      assert !QuerySucceeds(rows, batches[p], p, validateAsUserIds, store, parseUsername);
    }
  }

  /** In-loop calls logged before the end-of-loop ones change neither statement about the latter. */
  lemma EndCallsAfterInLoop(rows: map<nat, WikiUser>, after: map<nat, WikiUser>, log1: seq<Flush>, log2: seq<Flush>, ok: bool,
                            validateAsUserIds: bool, store: Store, parseUsername: string -> string)
    requires forall j :: 0 <= j < |log1| ==> log1[j].inLoop
    requires EndCallsOn(rows, log2, validateAsUserIds, store, parseUsername)
    requires ok ==> EndCallsClassified(rows, after, log2, validateAsUserIds, store, parseUsername)
    ensures EndCallsOn(rows, log1 + log2, validateAsUserIds, store, parseUsername)
    ensures ok ==> EndCallsClassified(rows, after, log1 + log2, validateAsUserIds, store, parseUsername)
  {
    var log := log1 + log2;
    assert forall j :: 0 <= j < |log2| ==> log[|log1| + j] == log2[j];
    assert forall j :: 0 <= j < |log1| ==> log[j] == log1[j];
    if ok {
      forall id | id in rows && (forall j :: 0 <= j < |log| && !log[j].inLoop ==> id !in log[j].batch)
        ensures after[id] == rows[id]
      {
        assert forall j :: 0 <= j < |log2| && !log2[j].inLoop ==> id !in log2[j].batch by {
          forall j | 0 <= j < |log2| && !log2[j].inLoop ensures id !in log2[j].batch {
            assert log[|log1| + j] == log2[j];
          }
        }
        UnvisitedUnchanged(rows, after, log2, id, validateAsUserIds, store, parseUsername);
      }
    }
  }

  /** `OfProject` with the normalisations in `norms` is `RecordsOfProject`. */
  lemma {:induction false} OfProjectNormalized(rows: map<nat, WikiUser>, dd: seq<nat>, norms: map<nat, Option<string>>,
                                               directory: set<string>, p: string)
    requires forall id :: id in dd ==> id in rows && id in norms && norms[id] == NormalizeProject(rows[id].project, directory)
    ensures OfProject(dd, norms, p) == RecordsOfProject(rows, dd, directory, p)
  {
    if dd != [] {
      var init := dd[..|dd| - 1];
      assert forall id :: id in init ==> id in dd;
      OfProjectNormalized(rows, init, norms, directory, p);
      assert dd[|dd| - 1] in dd;
    }
  }

  /** The reset (lines 128-137): the cohort is unvalidated, its rows' `valid` cleared, its memberships deleted, all committed. */
  method ResetValidation(s: Session, c: nat)
    requires c in s.db.cohorts
    modifies s
    ensures s.db == s.committed == Reset(old(s.db), c)
  {
    s.db := s.db.(cohorts := s.db.cohorts[c := s.db.cohorts[c].(validated := false)]);
    s.db := s.db.(wikiUsers := ClearValid(s.db.wikiUsers, c));
    s.db := s.db.(cohortWikiUsers := DeleteMemberships(s.db.cohortWikiUsers, c));
    s.Commit();
  }

  /** `session.query(WikiUser).filter(WikiUser.validating_cohort == cohort.id).all()`, in no particular order. */
  method CohortRecords(rows: map<nat, WikiUser>, c: nat) returns (ids: seq<nat>)
    ensures Utils.NoDuplicates(ids)
    ensures forall id :: id in ids <==> id in rows && rows[id].validatingCohort == c
  {
    var todo := set id | id in rows.Keys && rows[id].validatingCohort == c;
    ids := [];
    while todo != {}
      invariant Utils.NoDuplicates(ids)
      invariant forall id :: id in ids ==> id in rows && rows[id].validatingCohort == c && id !in todo
      invariant forall id :: id in todo ==> id in rows && rows[id].validatingCohort == c
      invariant forall id :: id in rows && rows[id].validatingCohort == c ==> id in ids || id in todo
      decreases |todo|
    {
      var id :| id in todo;
      ids := ids + [id];
      todo := todo - {id};
    }
  }

  /**
   * The record facts of the grouping loop once `dd[..i]` has been handled:
   * those records are settled, the rest are as loaded, and every batch holds
   * handled records whose projects normalise to the batch's project.
   */
  ghost predicate Grouped(rows: map<nat, WikiUser>, base: Db, dd: seq<nat>, i: nat, batches: map<string, seq<nat>>, norms: map<nat, Option<string>>)
    requires i <= |dd|
    requires forall id :: id in dd ==> id in base.wikiUsers && id in norms
    requires rows.Keys == base.wikiUsers.Keys
  {
    && (forall j :: 0 <= j < i ==> Settled(rows[dd[j]], base.wikiUsers[dd[j]].project, norms[dd[j]]))
    && (forall j :: i <= j < |dd| ==> rows[dd[j]] == base.wikiUsers[dd[j]])
    && (forall p :: p in batches ==>
          forall id :: id in batches[p] ==> id in dd[..i] && norms[id] == Some(p))
  }

  /** No call of `log` had `id` in its batch. */
  ghost predicate InNoCall(log: seq<Flush>, id: nat) {
    forall j :: 0 <= j < |log| ==> id !in log[j].batch
  }

  /** A handled record that no call of `log` took still holds what the project step wrote into its loaded row. */
  ghost predicate Untaken(rows: map<nat, WikiUser>, base: Db, dd: seq<nat>, i: nat, log: seq<Flush>, norms: map<nat, Option<string>>)
    requires i <= |dd|
    requires forall id :: id in dd ==> id in base.wikiUsers && id in norms
    requires rows.Keys == base.wikiUsers.Keys
  {
    forall j :: 0 <= j < i && InNoCall(log, dd[j]) ==> rows[dd[j]] == ProjectStep(base.wikiUsers[dd[j]], norms[dd[j]])
  }

  /**
   * What one turn of the grouping loop writes: the row `w` for `id`, and then
   * either no call, or one call whose batch holds `id` and which leaves every
   * row outside its batch alone.
   */
  ghost predicate StepWrites(rows: map<nat, WikiUser>, rows': map<nat, WikiUser>, id: nat, w: WikiUser, log: seq<Flush>, log': seq<Flush>) {
    || (log' == log && rows' == rows[id := w])
    || (&& |log'| == |log| + 1 && log'[..|log|] == log && id in log'[|log|].batch
        && rows'.Keys == rows.Keys
        && forall x :: x in rows && x != id && x !in log'[|log|].batch ==> rows'[x] == rows[x])
  }

  /** One turn of the grouping loop keeps `Untaken`. */
  lemma UntakenStep(rows: map<nat, WikiUser>, rows': map<nat, WikiUser>, base: Db, dd: seq<nat>, i: nat,
                    log: seq<Flush>, log': seq<Flush>, norms: map<nat, Option<string>>)
    requires i < |dd| && Utils.NoDuplicates(dd)
    requires forall id :: id in dd ==> id in base.wikiUsers && id in norms
    requires rows.Keys == base.wikiUsers.Keys && rows'.Keys == rows.Keys
    requires rows[dd[i]] == base.wikiUsers[dd[i]]
    requires Untaken(rows, base, dd, i, log, norms)
    requires StepWrites(rows, rows', dd[i], ProjectStep(rows[dd[i]], norms[dd[i]]), log, log')
    ensures Untaken(rows', base, dd, i + 1, log', norms)
  {
    forall j | 0 <= j < i + 1 && InNoCall(log', dd[j])
      ensures rows'[dd[j]] == ProjectStep(base.wikiUsers[dd[j]], norms[dd[j]])
    {
      if log' != log {
        assert dd[j] !in log'[|log|].batch;
      }
      if j < i {
        assert dd[j] != dd[i];
        forall k | 0 <= k < |log| ensures dd[j] !in log[k].batch {
          assert log[k] == log'[k];
        }
      }
    }
  }

  /** The flush facts of the grouping loop: a batch is emptied at 1000, and a flush holds 1000 records unless an earlier one of its project failed. */
  ghost predicate FlushesSized(batches: map<string, seq<nat>>, log: seq<Flush>) {
    && (forall p :: p in batches ==> |batches[p]| <= 999 || p in FailedProjects(log))
    && (forall j :: 0 <= j < |log| ==> log[j].inLoop && |log[j].batch| >= 1000)
    && (forall j :: 0 <= j < |log| ==> |log[j].batch| == 1000 || log[j].project in FailedProjects(log[..j]))
  }

  /** `FlushesSized` with `p`'s batch allowed one record more: the state just before the flush test. */
  ghost predicate FlushesSizedBut(batches: map<string, seq<nat>>, log: seq<Flush>, p: string) {
    && p in batches && (|batches[p]| <= 1000 || p in FailedProjects(log))
    && (forall q :: q in batches && q != p ==> |batches[q]| <= 999 || q in FailedProjects(log))
    && (forall j :: 0 <= j < |log| ==> log[j].inLoop && |log[j].batch| >= 1000)
    && (forall j :: 0 <= j < |log| ==> |log[j].batch| == 1000 || log[j].project in FailedProjects(log[..j]))
  }

  lemma GrowBatch(batches: map<string, seq<nat>>, log: seq<Flush>, p: string, id: nat)
    requires FlushesSized(batches, log)
    ensures FlushesSizedBut(batches[p := BatchOf(batches, p) + [id]], log, p)
  {
  }

  /** Writing the record `id` of cohort `c` without touching its id or cohort keeps what the phases after the reset keep. */
  lemma UnaffectedAfterUpdate(db: Db, base: Db, c: nat, id: nat, w: WikiUser)
    requires Unaffected(db, base, c)
    requires id in base.wikiUsers && base.wikiUsers[id].validatingCohort == c
    requires SameRecordCohort(w, db.wikiUsers[id])
    ensures Unaffected(db.(wikiUsers := db.wikiUsers[id := w]), base, c)
  {
  }

  /** A `validate_users` call on a batch of handled records keeps the grouping facts. */
  lemma GroupedAfterValidate(rows: map<nat, WikiUser>, rows': map<nat, WikiUser>, base: Db, dd: seq<nat>, i: nat,
                             batches: map<string, seq<nat>>, p: string, norms: map<nat, Option<string>>)
    requires i <= |dd| && Utils.NoDuplicates(dd)
    requires forall id :: id in dd ==> id in base.wikiUsers && id in norms
    requires rows.Keys == base.wikiUsers.Keys && rows'.Keys == rows.Keys
    requires Grouped(rows, base, dd, i, batches, norms)
    requires p in batches
    requires forall id :: id in rows ==> SameRecord(rows'[id], rows[id])
    requires forall id :: id in rows && id !in batches[p] ==> rows'[id] == rows[id]
    ensures Grouped(rows', base, dd, i, batches, norms)
  {
  }

  /** Emptying a batch keeps the grouping facts. */
  lemma GroupedEmptied(rows: map<nat, WikiUser>, base: Db, dd: seq<nat>, i: nat, batches: map<string, seq<nat>>, p: string,
                       norms: map<nat, Option<string>>)
    requires i <= |dd|
    requires forall id :: id in dd ==> id in base.wikiUsers && id in norms
    requires rows.Keys == base.wikiUsers.Keys
    requires Grouped(rows, base, dd, i, batches, norms)
    ensures Grouped(rows, base, dd, i, batches[p := []], norms)
  {
  }

  /** Changing only the record `dd[i]`, and settling it, moves the grouping facts from `i` to `i + 1`. */
  lemma GroupedStep(rows: map<nat, WikiUser>, rows': map<nat, WikiUser>, base: Db, dd: seq<nat>, i: nat,
                    batches: map<string, seq<nat>>, batches': map<string, seq<nat>>, norms: map<nat, Option<string>>)
    requires i < |dd| && Utils.NoDuplicates(dd)
    requires forall id :: id in dd ==> id in base.wikiUsers && id in norms
    requires rows.Keys == base.wikiUsers.Keys && rows'.Keys == rows.Keys
    requires Grouped(rows, base, dd, i, batches, norms)
    requires forall id :: id in rows && id != dd[i] ==> rows'[id] == rows[id]
    requires Settled(rows'[dd[i]], base.wikiUsers[dd[i]].project, norms[dd[i]])
    requires forall q :: q in batches' ==> forall id :: id in batches'[q] ==> id in dd[..i + 1] && norms[id] == Some(q)
    ensures Grouped(rows', base, dd, i + 1, batches', norms)
  {
    forall j | 0 <= j < |dd| && j != i ensures rows'[dd[j]] == rows[dd[j]] {
      assert dd[j] != dd[i];
    }
  }

  /** Normalising the project of `dd[i]` and appending it to its batch keeps the grouping facts. */
  lemma GroupedAppend(rows: map<nat, WikiUser>, base: Db, dd: seq<nat>, i: nat, batches: map<string, seq<nat>>, p: string,
                      norms: map<nat, Option<string>>)
    requires i < |dd| && Utils.NoDuplicates(dd)
    requires forall id :: id in dd ==> id in base.wikiUsers && id in norms
    requires rows.Keys == base.wikiUsers.Keys
    requires Grouped(rows, base, dd, i, batches, norms)
    requires norms[dd[i]] == Some(p)
    ensures Grouped(rows[dd[i] := rows[dd[i]].(project := p)], base, dd, i + 1,
                    batches[p := BatchOf(batches, p) + [dd[i]]], norms)
  {
    var batches' := batches[p := BatchOf(batches, p) + [dd[i]]];
    assert dd[..i + 1] == dd[..i] + [dd[i]];
    GroupedStep(rows, rows[dd[i] := rows[dd[i]].(project := p)], base, dd, i, batches, batches', norms);
  }

  /** A `validate_users` call on records of cohort `c` keeps what the phases after the reset keep. */
  lemma UnaffectedAfterValidate(db: Db, db': Db, base: Db, c: nat, batch: seq<nat>)
    requires Unaffected(db, base, c)
    requires db'.cohorts == db.cohorts && db'.cohortWikiUsers == db.cohortWikiUsers && db'.wikiUsers.Keys == db.wikiUsers.Keys
    requires forall id :: id in db.wikiUsers ==> SameRecord(db'.wikiUsers[id], db.wikiUsers[id])
    requires forall id :: id in db.wikiUsers && id !in batch ==> db'.wikiUsers[id] == db.wikiUsers[id]
    requires forall id :: id in batch ==> id in base.wikiUsers && base.wikiUsers[id].validatingCohort == c
    ensures Unaffected(db', base, c)
  {
  }

  /** The log facts after a flush of `p`'s batch, emptied when the call returned. */
  lemma FlushesSizedAfterFlush(batches: map<string, seq<nat>>, log: seq<Flush>, p: string, ok: bool)
    requires FlushesSizedBut(batches, log, p) && |batches[p]| > 999
    ensures var log' := log + [Flush(p, batches[p], true, ok)];
            FlushesSized(if ok then batches[p := []] else batches, log')
  {
    var f := Flush(p, batches[p], true, ok);
    var log' := log + [f];
    FailedAfter(log, f);
    forall j | 0 <= j < |log'|
      ensures log'[j].inLoop && |log'[j].batch| >= 1000
      ensures |log'[j].batch| == 1000 || log'[j].project in FailedProjects(log'[..j])
    {
      if j < |log| {
        assert log'[j] == log[j] && log'[..j] == log[..j];
      } else {
        assert log'[..j] == log;
      }
    }
  }

  /** A call joins the failed projects exactly when it did not return. */
  lemma FailedAfter(log: seq<Flush>, f: Flush)
    ensures FailedProjects(log + [f]) == FailedProjects(log) + (if f.ok then {} else {f.project})
  {
    var log' := log + [f];
    forall g | g in log' ensures g in log || g == f {
    }
    assert f in log';
    forall g | g in log ensures g in log' {
    }
  }

  /** The flush inside the grouping loop (lines 162-170): a batch past 999 records is validated and, if that returns, committed and emptied. */
  method FlushIfFull(s: Session, ghost base: Db, c: nat, dd: seq<nat>, i: nat, batches: map<string, seq<nat>>, ghost log: seq<Flush>,
                     ghost norms: map<nat, Option<string>>, p: string, validateAsUserIds: bool, env: Environment)
    returns (batches': map<string, seq<nat>>, ghost log': seq<Flush>)
    requires i <= |dd| && Utils.NoDuplicates(dd)
    requires forall id :: id in dd ==> id in base.wikiUsers && base.wikiUsers[id].validatingCohort == c && id in norms
    requires Unaffected(s.db, base, c) && Unaffected(s.committed, base, c)
    requires Grouped(s.db.wikiUsers, base, dd, i, batches, norms)
    requires FlushesSizedBut(batches, log, p)
    requires forall k :: 0 <= k < |batches[p]| ==> batches[p][k] in s.db.wikiUsers
    requires Conserved(dd, i, batches, log, norms)
    modifies s
    ensures Unaffected(s.db, base, c) && Unaffected(s.committed, base, c)
    ensures Grouped(s.db.wikiUsers, base, dd, i, batches', norms)
    ensures FlushesSized(batches', log')
    ensures Conserved(dd, i, batches', log', norms)
    ensures forall id :: id in old(s.db.wikiUsers) && id !in batches[p] ==> s.db.wikiUsers[id] == old(s.db.wikiUsers)[id]
    ensures |batches[p]| <= 999 ==> batches' == batches && log' == log && s.db == old(s.db) && s.committed == old(s.committed)
    ensures |batches[p]| > 999 ==>
              |log'| == |log| + 1 && log' == log + [Flush(p, batches[p], true, log'[|log|].ok)]
              && batches' == (if log'[|log|].ok then batches[p := []] else batches)
              && log'[|log|].ok == QuerySucceeds(old(s.db.wikiUsers), batches[p], p, validateAsUserIds, env.store, env.parseUsername)
              && (log'[|log|].ok ==>
                    s.committed == s.db
                    && s.db.wikiUsers == ClassifyBatch(old(s.db.wikiUsers), batches[p], p, validateAsUserIds, env.store, env.parseUsername))
              && (!log'[|log|].ok ==> s.committed == old(s.committed))
  {
    var batch := batches[p];
    if |batch| <= 999 {
      return batches, log;
    }
    assert |batch| == 1000 || p in FailedProjects(log);
    ghost var db := s.db;
    assert forall id :: id in batch ==> id in dd;
    var ok := ValidateUsers(s, batch, p, validateAsUserIds, env.store, env.parseUsername);
    GroupedAfterValidate(db.wikiUsers, s.db.wikiUsers, base, dd, i, batches, p, norms);
    UnaffectedAfterValidate(db, s.db, base, c, batch);
    FlushesSizedAfterFlush(batches, log, p, ok);
    ConservedFlush(dd, i, batches, log, norms, p, ok);
    log' := log + [Flush(p, batch, true, ok)];
    batches' := batches;
    if ok {
      s.Commit();
      GroupedEmptied(s.db.wikiUsers, base, dd, i, batches, p, norms);
      batches' := batches[p := []];
    }
    // a failed validation raises; the bare except continues with the next record
  }

  /** A record whose project does not normalise (lines 152-155): marked invalid with the reason naming the uploaded project. */
  method RejectRecord(s: Session, ghost base: Db, c: nat, dd: seq<nat>, i: nat, batches: map<string, seq<nat>>,
                      ghost norms: map<nat, Option<string>>)
    requires i < |dd| && Utils.NoDuplicates(dd)
    requires forall id :: id in dd ==> id in base.wikiUsers && base.wikiUsers[id].validatingCohort == c && id in norms
    requires norms[dd[i]] == None
    requires Unaffected(s.db, base, c) && Unaffected(s.committed, base, c)
    requires Grouped(s.db.wikiUsers, base, dd, i, batches, norms)
    modifies s
    ensures s.committed == old(s.committed)
    ensures s.db == old(s.db).(wikiUsers := old(s.db.wikiUsers)[dd[i] := RejectedProject(old(s.db.wikiUsers)[dd[i]])])
    ensures Unaffected(s.db, base, c) && Unaffected(s.committed, base, c)
    ensures Grouped(s.db.wikiUsers, base, dd, i + 1, batches, norms)
  {
    var id := dd[i];
    var wu := s.db.wikiUsers[id];
    assert wu == base.wikiUsers[id];
    ghost var rows := s.db.wikiUsers;
    var rejected := wu.(reasonInvalid := Some("invalid project: " + wu.project), valid := Some(false));
    assert rejected == RejectedProject(wu);
    UnaffectedAfterUpdate(s.db, base, c, id, rejected);
    s.db := s.db.(wikiUsers := s.db.wikiUsers[id := rejected]);
    assert dd[..i + 1] == dd[..i] + [id];
    GroupedStep(rows, s.db.wikiUsers, base, dd, i, batches, batches, norms);
  }

  /** A record whose project normalises to `p` (lines 157-161): it takes that project and joins `p`'s batch. */
  method AppendRecord(s: Session, ghost base: Db, c: nat, dd: seq<nat>, i: nat, batches: map<string, seq<nat>>, ghost log: seq<Flush>,
                      ghost norms: map<nat, Option<string>>, p: string)
    returns (batches': map<string, seq<nat>>)
    requires i < |dd| && Utils.NoDuplicates(dd)
    requires forall id :: id in dd ==> id in base.wikiUsers && base.wikiUsers[id].validatingCohort == c && id in norms
    requires norms[dd[i]] == Some(p)
    requires Unaffected(s.db, base, c)
    requires Grouped(s.db.wikiUsers, base, dd, i, batches, norms)
    requires FlushesSized(batches, log)
    modifies s
    ensures s.committed == old(s.committed)
    ensures s.db == old(s.db).(wikiUsers := old(s.db.wikiUsers)[dd[i] := old(s.db.wikiUsers)[dd[i]].(project := p)])
    ensures batches' == batches[p := BatchOf(batches, p) + [dd[i]]]
    ensures Unaffected(s.db, base, c)
    ensures Grouped(s.db.wikiUsers, base, dd, i + 1, batches', norms)
    ensures FlushesSizedBut(batches', log, p)
  {
    var id := dd[i];
    var wu := s.db.wikiUsers[id];
    GroupedAppend(s.db.wikiUsers, base, dd, i, batches, p, norms);
    UnaffectedAfterUpdate(s.db, base, c, id, wu.(project := p));
    s.db := s.db.(wikiUsers := s.db.wikiUsers[id := wu.(project := p)]);
    GrowBatch(batches, log, p, id);
    batches' := batches[p := BatchOf(batches, p) + [id]];
  }

  /** Emptying a batch forgets what it had grown to. */
  lemma EmptiedAfterGrowth(batches: map<string, seq<nat>>, p: string, grown: seq<nat>)
    ensures batches[p := grown][p := []] == batches[p := []]
  {
  }

  /** A record whose project normalises to `p` (lines 156-170): it joins `p`'s batch, which is flushed if that makes it outgrow 999. */
  method JoinBatch(s: Session, ghost base: Db, c: nat, dd: seq<nat>, i: nat, batches: map<string, seq<nat>>, ghost log: seq<Flush>,
                   ghost norms: map<nat, Option<string>>, p: string, validateAsUserIds: bool, env: Environment)
    returns (batches': map<string, seq<nat>>, ghost log': seq<Flush>)
    requires i < |dd| && Utils.NoDuplicates(dd)
    requires forall id :: id in dd ==> id in base.wikiUsers && base.wikiUsers[id].validatingCohort == c && id in norms
    requires norms[dd[i]] == Some(p)
    requires Unaffected(s.db, base, c) && Unaffected(s.committed, base, c)
    requires Grouped(s.db.wikiUsers, base, dd, i, batches, norms)
    requires FlushesSized(batches, log)
    requires Conserved(dd, i, batches, log, norms)
    modifies s
    ensures Unaffected(s.db, base, c) && Unaffected(s.committed, base, c)
    ensures Grouped(s.db.wikiUsers, base, dd, i + 1, batches', norms)
    ensures FlushesSized(batches', log')
    ensures Conserved(dd, i + 1, batches', log', norms)
    ensures StepWrites(old(s.db.wikiUsers), s.db.wikiUsers, dd[i], old(s.db.wikiUsers)[dd[i]].(project := p), log, log')
    ensures var grown := BatchOf(batches, p) + [dd[i]];
            var joined := old(s.db.wikiUsers)[dd[i] := old(s.db.wikiUsers)[dd[i]].(project := p)];
            && (|grown| <= 999 ==>
                  batches' == batches[p := grown] && log' == log && s.committed == old(s.committed)
                  && s.db == old(s.db).(wikiUsers := joined))
            && (|grown| > 999 ==>
                  |log'| == |log| + 1 && log' == log + [Flush(p, grown, true, log'[|log|].ok)]
                  && batches' == (if log'[|log|].ok then batches[p := []] else batches[p := grown])
                  && (forall k :: 0 <= k < |grown| ==> grown[k] in joined)
                  && (forall id :: id in joined && id !in grown ==> s.db.wikiUsers[id] == joined[id])
                  && log'[|log|].ok == QuerySucceeds(joined, grown, p, validateAsUserIds, env.store, env.parseUsername)
                  && (log'[|log|].ok ==>
                        s.committed == s.db
                        && s.db.wikiUsers == ClassifyBatch(joined, grown, p, validateAsUserIds, env.store, env.parseUsername))
                  && (!log'[|log|].ok ==> s.committed == old(s.committed)))
  {
    var grown := AppendRecord(s, base, c, dd, i, batches, log, norms, p);
    ConservedAppend(dd, i, batches, log, norms, p);
    assert grown[p] == BatchOf(batches, p) + [dd[i]];
    assert forall k :: 0 <= k < |grown[p]| ==> grown[p][k] in s.db.wikiUsers by {
      forall k | 0 <= k < |grown[p]| ensures grown[p][k] in s.db.wikiUsers {
        if k < |BatchOf(batches, p)| {
          assert BatchOf(batches, p)[k] in batches[p];
        }
      }
    }
    EmptiedAfterGrowth(batches, p, grown[p]);
    batches', log' := FlushIfFull(s, base, c, dd, i + 1, grown, log, norms, p, validateAsUserIds, env);
    if log' != log {
      assert log'[..|log|] == log;
      assert dd[i] in grown[p];
    }
  }

  /** One turn of the grouping loop: handle `dd[i]`. */
  method GroupRecord(s: Session, ghost base: Db, c: nat, dd: seq<nat>, i: nat, batches: map<string, seq<nat>>, ghost log: seq<Flush>,
                     ghost norms: map<nat, Option<string>>, validateAsUserIds: bool, env: Environment)
    returns (batches': map<string, seq<nat>>, ghost log': seq<Flush>)
    requires i < |dd| && Utils.NoDuplicates(dd)
    requires forall id :: id in dd ==> id in base.wikiUsers && base.wikiUsers[id].validatingCohort == c
    requires NormsOf(norms, base, dd, env.directory)
    requires Unaffected(s.db, base, c) && Unaffected(s.committed, base, c)
    requires Grouped(s.db.wikiUsers, base, dd, i, batches, norms)
    requires FlushesSized(batches, log)
    requires Conserved(dd, i, batches, log, norms)
    modifies s
    ensures Unaffected(s.db, base, c) && Unaffected(s.committed, base, c)
    ensures Grouped(s.db.wikiUsers, base, dd, i + 1, batches', norms)
    ensures FlushesSized(batches', log')
    ensures Conserved(dd, i + 1, batches', log', norms)
    ensures StepWrites(old(s.db.wikiUsers), s.db.wikiUsers, dd[i], ProjectStep(old(s.db.wikiUsers)[dd[i]], norms[dd[i]]), log, log')
    ensures norms[dd[i]].None? ==>
              batches' == batches && log' == log && s.committed == old(s.committed)
              && s.db == old(s.db).(wikiUsers := old(s.db.wikiUsers)[dd[i] := RejectedProject(old(s.db.wikiUsers)[dd[i]])])
    ensures norms[dd[i]].Some? ==>
              var p := norms[dd[i]].value;
              var grown := BatchOf(batches, p) + [dd[i]];
              var joined := old(s.db.wikiUsers)[dd[i] := old(s.db.wikiUsers)[dd[i]].(project := p)];
              && (|grown| <= 999 ==>
                    batches' == batches[p := grown] && log' == log && s.committed == old(s.committed)
                    && s.db == old(s.db).(wikiUsers := joined))
              && (|grown| > 999 ==>
                    |log'| == |log| + 1 && log' == log + [Flush(p, grown, true, log'[|log|].ok)]
                    && batches' == (if log'[|log|].ok then batches[p := []] else batches[p := grown])
                    && (forall k :: 0 <= k < |grown| ==> grown[k] in joined)
                    && (forall id :: id in joined && id !in grown ==> s.db.wikiUsers[id] == joined[id])
                    && log'[|log|].ok == QuerySucceeds(joined, grown, p, validateAsUserIds, env.store, env.parseUsername)
                    && (log'[|log|].ok ==>
                          s.committed == s.db
                          && s.db.wikiUsers == ClassifyBatch(joined, grown, p, validateAsUserIds, env.store, env.parseUsername))
                    && (!log'[|log|].ok ==> s.committed == old(s.committed)))
  {
    var id := dd[i];
    var wu := s.db.wikiUsers[id];
    assert wu == base.wikiUsers[id];
    var normalizedProject := NormalizeProject(wu.project, env.directory);
    assert normalizedProject == norms[id];
    if normalizedProject.None? {
      RejectRecord(s, base, c, dd, i, batches, norms);
      ConservedReject(dd, i, batches, log, norms);
      return batches, log;
    }
    batches', log' := JoinBatch(s, base, c, dd, i, batches, log, norms, normalizedProject.value, validateAsUserIds, env);
  }

  /** `GroupRecord`, with the records no call took carried along. */
  method GroupNext(s: Session, ghost base: Db, c: nat, dd: seq<nat>, i: nat, batches: map<string, seq<nat>>, ghost log: seq<Flush>,
                   ghost norms: map<nat, Option<string>>, validateAsUserIds: bool, env: Environment)
    returns (batches': map<string, seq<nat>>, ghost log': seq<Flush>)
    requires i < |dd| && Utils.NoDuplicates(dd)
    requires forall id :: id in dd ==> id in base.wikiUsers && base.wikiUsers[id].validatingCohort == c
    requires NormsOf(norms, base, dd, env.directory)
    requires Unaffected(s.db, base, c) && Unaffected(s.committed, base, c)
    requires Grouped(s.db.wikiUsers, base, dd, i, batches, norms)
    requires FlushesSized(batches, log)
    requires Conserved(dd, i, batches, log, norms)
    requires Untaken(s.db.wikiUsers, base, dd, i, log, norms)
    modifies s
    ensures Unaffected(s.db, base, c) && Unaffected(s.committed, base, c)
    ensures Grouped(s.db.wikiUsers, base, dd, i + 1, batches', norms)
    ensures FlushesSized(batches', log')
    ensures Conserved(dd, i + 1, batches', log', norms)
    ensures Untaken(s.db.wikiUsers, base, dd, i + 1, log', norms)
  {
    ghost var rows := s.db.wikiUsers;
    assert rows[dd[i]] == base.wikiUsers[dd[i]];
    batches', log' := GroupRecord(s, base, c, dd, i, batches, log, norms, validateAsUserIds, env);
    UntakenStep(rows, s.db.wikiUsers, base, dd, i, log, log', norms);
  }

  /**
   * The grouping loop (lines 148-172): each deduplicated record gets its
   * project normalised or is rejected, joins its project's batch, and a batch
   * that grows past 999 is validated, committed and emptied. A failed
   * validation is swallowed: nothing is committed and the batch is kept.
   */
  method BatchByProject(s: Session, ghost base: Db, c: nat, dd: seq<nat>, ghost norms: map<nat, Option<string>>,
                        validateAsUserIds: bool, env: Environment)
    returns (batches: map<string, seq<nat>>, ghost log: seq<Flush>)
    requires s.db == base && s.committed == base
    requires Utils.NoDuplicates(dd)
    requires forall id :: id in dd ==> id in base.wikiUsers && base.wikiUsers[id].validatingCohort == c
    requires NormsOf(norms, base, dd, env.directory)
    modifies s
    ensures Unaffected(s.db, base, c) && Unaffected(s.committed, base, c)
    ensures Grouped(s.db.wikiUsers, base, dd, |dd|, batches, norms)
    ensures FlushesSized(batches, log)
    ensures Conserved(dd, |dd|, batches, log, norms)
    ensures Untaken(s.db.wikiUsers, base, dd, |dd|, log, norms)
  {
    batches := map[];
    log := [];
    for i := 0 to |dd|
      invariant Unaffected(s.db, base, c) && Unaffected(s.committed, base, c)
      invariant Grouped(s.db.wikiUsers, base, dd, i, batches, norms)
      invariant FlushesSized(batches, log)
      invariant Conserved(dd, i, batches, log, norms)
      invariant Untaken(s.db.wikiUsers, base, dd, i, log, norms)
    {
      batches, log := GroupNext(s, base, c, dd, i, batches, log, norms, validateAsUserIds, env);
    }
  }

  /** The `validate_users` call on a batch of grouped records, in the loop or after it. */
  method ValidateBatch(s: Session, ghost base: Db, c: nat, dd: seq<nat>, batches: map<string, seq<nat>>,
                       ghost norms: map<nat, Option<string>>, p: string, validateAsUserIds: bool, env: Environment)
    returns (ok: bool)
    requires Utils.NoDuplicates(dd)
    requires forall id :: id in dd ==> id in base.wikiUsers && base.wikiUsers[id].validatingCohort == c && id in norms
    requires Unaffected(s.db, base, c)
    requires Grouped(s.db.wikiUsers, base, dd, |dd|, batches, norms)
    requires p in batches && forall k :: 0 <= k < |batches[p]| ==> batches[p][k] in s.db.wikiUsers
    modifies s
    ensures s.committed == old(s.committed)
    ensures Unaffected(s.db, base, c)
    ensures Grouped(s.db.wikiUsers, base, dd, |dd|, batches, norms)
    ensures ok == QuerySucceeds(old(s.db.wikiUsers), batches[p], p, validateAsUserIds, env.store, env.parseUsername)
    ensures ok ==> s.db.wikiUsers == ClassifyBatch(old(s.db.wikiUsers), batches[p], p, validateAsUserIds, env.store, env.parseUsername)
  {
    ghost var db := s.db;
    var batch := batches[p];
    assert forall id :: id in batch ==> id in dd;
    ok := ValidateUsers(s, batch, p, validateAsUserIds, env.store, env.parseUsername);
    GroupedAfterValidate(db.wikiUsers, s.db.wikiUsers, base, dd, |dd|, batches, p, norms);
    UnaffectedAfterValidate(db, s.db, base, c, batch);
  }

  /** After calls that all returned, one more call leaves them all returned iff it returned. */
  lemma AllReturnedSnoc(log: seq<Flush>, f: Flush)
    requires forall j :: 0 <= j < |log| ==> log[j].ok
    ensures f.ok <==> forall j :: 0 <= j < |log + [f]| ==> (log + [f])[j].ok
  {
    assert (log + [f])[|log|] == f;
  }

  /**
   * One turn of the end-of-loop flush: `p`'s batch, when non-empty, is
   * validated on top of the batches visited so far and the call is logged.
   */
  method FlushNext(s: Session, ghost base: Db, c: nat, dd: seq<nat>, batches: map<string, seq<nat>>, ghost norms: map<nat, Option<string>>,
                   ghost rows: map<nat, WikiUser>, ghost todo: set<string>, ghost log: seq<Flush>, p: string,
                   validateAsUserIds: bool, env: Environment)
    returns (ok: bool, ghost log': seq<Flush>)
    requires Utils.NoDuplicates(dd)
    requires forall id :: id in dd ==> id in base.wikiUsers && base.wikiUsers[id].validatingCohort == c && id in norms
    requires Unaffected(s.db, base, c)
    requires Grouped(s.db.wikiUsers, base, dd, |dd|, batches, norms)
    requires BatchesIn(batches, rows)
    requires p in todo && todo <= batches.Keys
    requires EndLoop(rows, s.db.wikiUsers, batches, todo, log, true, validateAsUserIds, env.store, env.parseUsername)
    modifies s
    ensures log' == log + (if batches[p] != [] then [Flush(p, batches[p], false, ok)] else [])
    ensures batches[p] == [] ==> ok
    ensures s.committed == old(s.committed)
    ensures Unaffected(s.db, base, c)
    ensures Grouped(s.db.wikiUsers, base, dd, |dd|, batches, norms)
    ensures EndLoop(rows, s.db.wikiUsers, batches, todo - {p}, log', ok, validateAsUserIds, env.store, env.parseUsername)
  {
    var batch := batches[p];
    if |batch| == 0 {
      EndFlushesStep(batches, todo, log, p, true);
      return true, log;
    }
    ghost var cur := s.db.wikiUsers;
    EndBatchesApart(batches, todo, log, norms, p);
    ok := ValidateBatch(s, base, c, dd, batches, norms, p, validateAsUserIds, env);
    EndCallsAdvance(rows, cur, s.db.wikiUsers, log, batch, p, ok, validateAsUserIds, env.store, env.parseUsername);
    EndFlushesStep(batches, todo, log, p, ok);
    log' := log + [Flush(p, batch, false, ok)];
    AllReturnedSnoc(log, Flush(p, batch, false, ok));
  }

  /** The loop of the end-of-loop flush, which stops at the first call that raises. */
  method FlushLoop(s: Session, ghost base: Db, c: nat, dd: seq<nat>, batches: map<string, seq<nat>>,
                   ghost norms: map<nat, Option<string>>, validateAsUserIds: bool, env: Environment)
    returns (ok: bool, todo: set<string>, ghost log: seq<Flush>)
    requires Utils.NoDuplicates(dd)
    requires forall id :: id in dd ==> id in base.wikiUsers && base.wikiUsers[id].validatingCohort == c && id in norms
    requires Unaffected(s.db, base, c)
    requires Grouped(s.db.wikiUsers, base, dd, |dd|, batches, norms)
    requires BatchesIn(batches, s.db.wikiUsers)
    modifies s
    ensures s.committed == old(s.committed)
    ensures Unaffected(s.db, base, c)
    ensures Grouped(s.db.wikiUsers, base, dd, |dd|, batches, norms)
    ensures todo <= batches.Keys && (ok ==> todo == {})
    ensures EndLoop(old(s.db.wikiUsers), s.db.wikiUsers, batches, todo, log, ok, validateAsUserIds, env.store, env.parseUsername)
  {
    ghost var rows := s.db.wikiUsers;
    ok, log := true, [];
    todo := batches.Keys;
    // a failed validation raises and leaves validate_records: the loop stops
    while ok && todo != {}
      invariant todo <= batches.Keys
      invariant Unaffected(s.db, base, c)
      invariant Grouped(s.db.wikiUsers, base, dd, |dd|, batches, norms)
      invariant EndLoop(rows, s.db.wikiUsers, batches, todo, log, ok, validateAsUserIds, env.store, env.parseUsername)
      invariant s.committed == old(s.committed)
      decreases |todo|
    {
      var p :| p in todo;
      ok, log := FlushNext(s, base, c, dd, batches, norms, rows, todo, log, p, validateAsUserIds, env);
      todo := todo - {p};
    }
  }

  /** What the end-of-loop calls add up to once the loop stops, all projects visited or a call failed. */
  lemma EndLoopDone(rows: map<nat, WikiUser>, cur: map<nat, WikiUser>, batches: map<string, seq<nat>>, todo: set<string>,
                    log: seq<Flush>, ok: bool, failed: set<string>, validateAsUserIds: bool, store: Store, parseUsername: string -> string)
    requires BatchesIn(batches, rows)
    requires forall p :: p in batches ==> |batches[p]| <= 999 || p in failed
    requires EndLoop(rows, cur, batches, todo, log, ok, validateAsUserIds, store, parseUsername)
    requires ok ==> todo == {}
    ensures forall j :: 0 <= j < |log| ==> !log[j].inLoop && 1 <= |log[j].batch| && (log[j].project !in failed ==> |log[j].batch| <= 999)
    ensures forall j :: 0 <= j < |log| ==> log[j].project in batches && log[j].batch == batches[log[j].project]
    ensures forall i, j :: 0 <= i < j < |log| ==> log[i].project != log[j].project
    ensures ok ==> forall p :: p in batches && batches[p] != [] ==> exists j :: 0 <= j < |log| && log[j].project == p
    ensures ok ==> forall p :: Flushed(log, p) == BatchOf(batches, p)
    ensures ok <==> forall j :: 0 <= j < |log| ==> log[j].ok
    ensures EndCallsOn(rows, log, validateAsUserIds, store, parseUsername)
    ensures ok ==> EndCallsClassified(rows, cur, log, validateAsUserIds, store, parseUsername)
    ensures ok <==> forall p :: p in batches && batches[p] != [] ==> QuerySucceeds(rows, batches[p], p, validateAsUserIds, store, parseUsername)
  {
    EndCallsDecide(rows, batches, log, ok, validateAsUserIds, store, parseUsername);
    if ok {
      EndFlushesCover(batches, log);
    }
  }

  /**
   * The end-of-loop flush (lines 175-178): every non-empty batch left is
   * validated, in whatever order the dict yields its projects, and then the
   * session commits. A failed validation propagates: nothing more is
   * committed.
   */
  method FlushRemaining(s: Session, ghost base: Db, c: nat, dd: seq<nat>, batches: map<string, seq<nat>>,
                        ghost norms: map<nat, Option<string>>, ghost failed: set<string>, validateAsUserIds: bool, env: Environment)
    returns (ok: bool, ghost log: seq<Flush>)
    requires Utils.NoDuplicates(dd)
    requires forall id :: id in dd ==> id in base.wikiUsers && base.wikiUsers[id].validatingCohort == c && id in norms
    requires Unaffected(s.db, base, c) && Unaffected(s.committed, base, c)
    requires Grouped(s.db.wikiUsers, base, dd, |dd|, batches, norms)
    requires BatchesIn(batches, s.db.wikiUsers)
    requires forall p :: p in batches ==> |batches[p]| <= 999 || p in failed
    modifies s
    ensures Unaffected(s.db, base, c) && Unaffected(s.committed, base, c)
    ensures ok ==> s.committed == s.db && Grouped(s.db.wikiUsers, base, dd, |dd|, map[], norms)
    ensures forall j :: 0 <= j < |log| ==> !log[j].inLoop && 1 <= |log[j].batch| && (log[j].project !in failed ==> |log[j].batch| <= 999)
    ensures forall j :: 0 <= j < |log| ==> log[j].project in batches && log[j].batch == batches[log[j].project]
    ensures forall i, j :: 0 <= i < j < |log| ==> log[i].project != log[j].project
    ensures ok ==> forall p :: p in batches && batches[p] != [] ==> exists j :: 0 <= j < |log| && log[j].project == p
    ensures ok ==> forall p :: Flushed(log, p) == BatchOf(batches, p)
    ensures ok <==> forall j :: 0 <= j < |log| ==> log[j].ok
    ensures EndCallsOn(old(s.db.wikiUsers), log, validateAsUserIds, env.store, env.parseUsername)
    ensures ok ==> EndCallsClassified(old(s.db.wikiUsers), s.db.wikiUsers, log, validateAsUserIds, env.store, env.parseUsername)
    ensures ok <==> forall p :: p in batches && batches[p] != [] ==>
                      QuerySucceeds(old(s.db.wikiUsers), batches[p], p, validateAsUserIds, env.store, env.parseUsername)
    ensures !ok ==> s.committed == old(s.committed)
  {
    ghost var rows := s.db.wikiUsers;
    var todo;
    ok, todo, log := FlushLoop(s, base, c, dd, batches, norms, validateAsUserIds, env);
    EndLoopDone(rows, s.db.wikiUsers, batches, todo, log, ok, failed, validateAsUserIds, env.store, env.parseUsername);
    if ok {
      s.Commit();
    }
  }

  /**
   * The closing writes (lines 180-200): the second deduplication, one
   * membership row per record it keeps, the deletion of the cohort's other
   * rows, and the cohort marked validated, all committed together.
   */
  method CommitMembership(s: Session, c: nat, deduplicated: seq<nat>) returns (uniqueAndValidated: seq<nat>)
    requires c in s.db.cohorts
    modifies s
    ensures Utils.FirstPerKey(deduplicated, RecordKey(old(s.db.wikiUsers)), uniqueAndValidated)
    ensures s.committed == s.db
    ensures s.db == Db(DeleteWikiUsersNotIn(old(s.db.wikiUsers), c, set id | id in uniqueAndValidated),
                       old(s.db.cohorts)[c := old(s.db.cohorts)[c].(validated := true)],
                       old(s.db.cohortWikiUsers) + MembershipRows(c, uniqueAndValidated))
  {
    uniqueAndValidated := Utils.DeduplicateByKey(deduplicated, RecordKey(s.db.wikiUsers));
    s.db := s.db.(cohortWikiUsers := s.db.cohortWikiUsers + MembershipRows(c, uniqueAndValidated));
    s.db := s.db.(wikiUsers := DeleteWikiUsersNotIn(s.db.wikiUsers, c, set id | id in uniqueAndValidated));
    s.db := s.db.(cohorts := s.db.cohorts[c := s.db.cohorts[c].(validated := true)]);
    s.Commit();
  }

  /**
   * What a completed `validate_records` leaves, from `before`: the cohort
   * validated; its old memberships replaced by one row per member; of its
   * wiki_user rows only the members kept, with pairwise distinct
   * `(mediawiki_username, project)` keys and each project settled; the other
   * cohorts' rows untouched.
   */
  ghost predicate Validated(before: Db, after: Db, c: nat, members: seq<nat>, directory: set<string>)
    requires c in before.cohorts
  {
    ValidatedTables(before, after, c, members) && MembersSettled(before, after, members, directory)
  }

  /** The table part of `Validated`. */
  ghost predicate ValidatedTables(before: Db, after: Db, c: nat, members: seq<nat>)
    requires c in before.cohorts
  {
    && after.cohorts == before.cohorts[c := before.cohorts[c].(validated := true)]
    && after.cohortWikiUsers == DeleteMemberships(before.cohortWikiUsers, c) + MembershipRows(c, members)
    && (forall id :: id in after.wikiUsers <==> id in before.wikiUsers && (before.wikiUsers[id].validatingCohort != c || id in members))
    && (forall id :: id in before.wikiUsers && before.wikiUsers[id].validatingCohort != c ==> after.wikiUsers[id] == before.wikiUsers[id])
    && (forall id :: id in members ==> id in before.wikiUsers && before.wikiUsers[id].validatingCohort == c)
    && Utils.NoDuplicates(members)
    && Utils.KeysDistinct(members, RecordKey(after.wikiUsers))
  }

  /** The record part of `Validated`: each member keeps its id and cohort and has its uploaded project settled. */
  ghost predicate MembersSettled(before: Db, after: Db, members: seq<nat>, directory: set<string>) {
    forall id :: id in members ==>
      && id in before.wikiUsers && id in after.wikiUsers
      && SameRecordCohort(after.wikiUsers[id], before.wikiUsers[id])
      && ProjectSettled(after.wikiUsers[id], before.wikiUsers[id].project, directory)
  }

  /** After validation the cohort's wiki_user rows and its membership rows name the same records. */
  lemma ValidatedMembershipsMatchRows(before: Db, after: Db, c: nat, members: seq<nat>, directory: set<string>)
    requires c in before.cohorts
    requires Validated(before, after, c, members, directory)
    ensures forall id :: id in after.wikiUsers && after.wikiUsers[id].validatingCohort == c <==> CohortWikiUser(c, id) in after.cohortWikiUsers
    ensures after.cohorts[c].validated
  {
    assert ValidatedTables(before, after, c, members);
    assert MembersSettled(before, after, members, directory);
    forall id ensures id in after.wikiUsers && after.wikiUsers[id].validatingCohort == c <==> id in members {
      if id in members {
        assert SameRecordCohort(after.wikiUsers[id], before.wikiUsers[id]);
      } else if id in after.wikiUsers {
        assert after.wikiUsers[id] == before.wikiUsers[id];
      }
    }
    MembershipRowsNames(c, members);
    forall id ensures CohortWikiUser(c, id) in after.cohortWikiUsers <==> id in members {
      assert CohortWikiUser(c, id) !in DeleteMemberships(before.cohortWikiUsers, c);
    }
  }

  /** The flushes of one `validate_records` run: the in-loop ones first, then the end-of-loop ones. */
  lemma FlushSizes(batches: map<string, seq<nat>>, log1: seq<Flush>, log2: seq<Flush>)
    requires FlushesSized(batches, log1)
    requires forall j :: 0 <= j < |log2| ==> !log2[j].inLoop && 1 <= |log2[j].batch| && (log2[j].project !in FailedProjects(log1) ==> |log2[j].batch| <= 999)
    ensures forall f :: f in log1 + log2 ==> (f.inLoop ==> |f.batch| >= 1000) && (!f.inLoop ==> |f.batch| >= 1)
    ensures (forall f :: f in log1 + log2 ==> f.ok) ==>
              forall f :: f in log1 + log2 ==> (f.inLoop ==> |f.batch| == 1000) && (!f.inLoop ==> |f.batch| <= 999)
    ensures forall i, j :: 0 <= i < j < |log1 + log2| && (log1 + log2)[j].inLoop ==> (log1 + log2)[i].inLoop
  {
    var log := log1 + log2;
    forall f | f in log ensures (f.inLoop ==> |f.batch| >= 1000) && (!f.inLoop ==> |f.batch| >= 1) {
      var k :| 0 <= k < |log| && log[k] == f;
      if k < |log1| { assert log1[k] == f; } else { assert log2[k - |log1|] == f; }
    }
    if forall f :: f in log ==> f.ok {
      assert FailedProjects(log1) == {};
      forall f | f in log ensures (f.inLoop ==> |f.batch| == 1000) && (!f.inLoop ==> |f.batch| <= 999) {
        var k :| 0 <= k < |log| && log[k] == f;
        if k < |log1| {
          assert log1[k] == f;
          assert FailedProjects(log1[..k]) == {};
        } else {
          assert log2[k - |log1|] == f;
        }
      }
    }
  }

  /** `ok` of the end-of-loop flush decides the run: in-loop failures are swallowed. */
  lemma EndFlushesDecide(log1: seq<Flush>, log2: seq<Flush>, done: bool)
    requires forall j :: 0 <= j < |log1| ==> log1[j].inLoop
    requires forall j :: 0 <= j < |log2| ==> !log2[j].inLoop
    requires done <==> forall j :: 0 <= j < |log2| ==> log2[j].ok
    ensures done <==> forall f :: f in log1 + log2 && !f.inLoop ==> f.ok
  {
    if done {
      forall f | f in log1 + log2 && !f.inLoop ensures f.ok {
        var k :| 0 <= k < |log1 + log2| && (log1 + log2)[k] == f;
        if k < |log1| { assert log1[k] == f; } else { assert log2[k - |log1|] == f; }
      }
    } else {
      var j :| 0 <= j < |log2| && !log2[j].ok;
      assert (log1 + log2)[|log1| + j] == log2[j];
    }
  }

  /** The deletion of the cohort's non-members, on rows that kept their ids and cohorts since `before`. */
  lemma RowsAfterDelete(before: map<nat, WikiUser>, grouped: map<nat, WikiUser>, after: map<nat, WikiUser>, c: nat, members: seq<nat>)
    requires grouped.Keys == before.Keys
    requires forall id :: id in before ==> grouped[id].validatingCohort == before[id].validatingCohort
    requires forall id :: id in before && before[id].validatingCohort != c ==> grouped[id] == before[id]
    requires forall id :: id in members ==> id in before && before[id].validatingCohort == c
    requires after == DeleteWikiUsersNotIn(grouped, c, set id | id in members)
    ensures forall id :: id in after <==> id in before && (before[id].validatingCohort != c || id in members)
    ensures forall id :: id in before && before[id].validatingCohort != c ==> after[id] == before[id]
    ensures forall id :: id in members ==> id in after && after[id] == grouped[id]
  {
  }

  /** The closing writes on the grouped records give the table part of a completed validation. */
  lemma TablesAfterCommit(before: Db, base: Db, grouped: Db, after: Db, c: nat, dd: seq<nat>, members: seq<nat>)
    requires c in before.cohorts && base == Reset(before, c)
    requires forall id :: id in dd ==> id in base.wikiUsers && base.wikiUsers[id].validatingCohort == c
    requires Unaffected(grouped, base, c)
    requires forall id :: id in members ==> id in dd
    requires Utils.NoDuplicates(members) && Utils.KeysDistinct(members, RecordKey(grouped.wikiUsers))
    requires after == Db(DeleteWikiUsersNotIn(grouped.wikiUsers, c, set id | id in members),
                         grouped.cohorts[c := grouped.cohorts[c].(validated := true)],
                         grouped.cohortWikiUsers + MembershipRows(c, members))
    ensures ValidatedTables(before, after, c, members)
    ensures forall id :: id in members ==> id in after.wikiUsers && after.wikiUsers[id] == grouped.wikiUsers[id]
  {
    RowsKeptSinceReset(before, base, grouped, c);
    RowsAfterDelete(before.wikiUsers, grouped.wikiUsers, after.wikiUsers, c, members);
    assert after.cohorts == before.cohorts[c := before.cohorts[c].(validated := true)];
    Utils.KeysOfAgree(members, RecordKey(grouped.wikiUsers), RecordKey(after.wikiUsers));
  }

  /** The rows after the reset and the grouping keep their ids and cohorts, and other cohorts' rows are as before the reset. */
  lemma RowsKeptSinceReset(before: Db, base: Db, grouped: Db, c: nat)
    requires c in before.cohorts && base == Reset(before, c)
    requires Unaffected(grouped, base, c)
    ensures grouped.wikiUsers.Keys == before.wikiUsers.Keys
    ensures forall id :: id in before.wikiUsers ==> grouped.wikiUsers[id].validatingCohort == before.wikiUsers[id].validatingCohort
    ensures forall id :: id in before.wikiUsers && before.wikiUsers[id].validatingCohort != c ==> grouped.wikiUsers[id] == before.wikiUsers[id]
    ensures grouped.cohorts == before.cohorts[c := before.cohorts[c].(validated := false)]
    ensures grouped.cohortWikiUsers == DeleteMemberships(before.cohortWikiUsers, c)
  {
  }

  /** The closing writes keep each member's record as grouped, so its project stays settled. */
  lemma SettledAfterCommit(before: Db, base: Db, grouped: Db, after: Db, c: nat, dd: seq<nat>,
                           norms: map<nat, Option<string>>, members: seq<nat>, directory: set<string>)
    requires c in before.cohorts && base == Reset(before, c)
    requires Utils.NoDuplicates(dd)
    requires forall id :: id in dd ==> id in base.wikiUsers && id in norms
    requires NormsOf(norms, base, dd, directory)
    requires grouped.wikiUsers.Keys == base.wikiUsers.Keys
    requires forall id :: id in base.wikiUsers ==> SameRecordCohort(grouped.wikiUsers[id], base.wikiUsers[id])
    requires Grouped(grouped.wikiUsers, base, dd, |dd|, map[], norms)
    requires forall id :: id in members ==> id in dd && id in after.wikiUsers && after.wikiUsers[id] == grouped.wikiUsers[id]
    ensures MembersSettled(before, after, members, directory)
  {
    GroupedSettled(before, base, grouped.wikiUsers, c, dd, norms, directory);
  }

  /** After the grouping every deduplicated record keeps its id and cohort and has its uploaded project settled. */
  lemma GroupedSettled(before: Db, base: Db, grouped: map<nat, WikiUser>, c: nat, dd: seq<nat>,
                       norms: map<nat, Option<string>>, directory: set<string>)
    requires c in before.cohorts && base == Reset(before, c)
    requires forall id :: id in dd ==> id in base.wikiUsers && id in norms
    requires NormsOf(norms, base, dd, directory)
    requires grouped.Keys == base.wikiUsers.Keys
    requires forall id :: id in base.wikiUsers ==> SameRecordCohort(grouped[id], base.wikiUsers[id])
    requires Grouped(grouped, base, dd, |dd|, map[], norms)
    ensures forall id :: id in dd ==>
              && id in before.wikiUsers && id in grouped
              && SameRecordCohort(grouped[id], before.wikiUsers[id])
              && ProjectSettled(grouped[id], before.wikiUsers[id].project, directory)
  {
    forall id | id in dd
      ensures id in before.wikiUsers && id in grouped
      ensures SameRecordCohort(grouped[id], before.wikiUsers[id])
      ensures ProjectSettled(grouped[id], before.wikiUsers[id].project, directory)
    {
      var j :| 0 <= j < |dd| && dd[j] == id;
      assert Settled(grouped[id], base.wikiUsers[id].project, norms[id]);
      assert base.wikiUsers[id].(valid := before.wikiUsers[id].valid) == before.wikiUsers[id];
      assert norms[id] == NormalizeProject(before.wikiUsers[id].project, directory);
    }
  }

  /** The records loaded after the reset, and their first deduplication, read on the rows as they were before it. */
  lemma LoadedBeforeReset(before: Db, base: Db, c: nat, ids: seq<nat>, dd: seq<nat>)
    requires c in before.cohorts && base == Reset(before, c)
    requires forall id :: id in ids <==> id in base.wikiUsers && base.wikiUsers[id].validatingCohort == c
    requires Utils.FirstPerKey(ids, RecordKey(base.wikiUsers), dd)
    ensures forall id :: id in ids <==> id in before.wikiUsers && before.wikiUsers[id].validatingCohort == c
    ensures Utils.FirstPerKey(ids, RecordKey(before.wikiUsers), dd)
  {
    forall id | id in before.wikiUsers
      ensures base.wikiUsers[id].(valid := before.wikiUsers[id].valid) == before.wikiUsers[id]
    {
    }
    forall id | id in ids ensures RecordKey(base.wikiUsers)(id) == RecordKey(before.wikiUsers)(id) {
      assert base.wikiUsers[id].(valid := before.wikiUsers[id].valid) == before.wikiUsers[id];
    }
    Utils.FirstPerKeyAgree(ids, RecordKey(base.wikiUsers), RecordKey(before.wikiUsers), dd);
  }

  /**
   * With every end-of-loop call returned, the calls that returned took each
   * deduplicated record whose project normalises to `p` exactly once, in
   * order, under `p`.
   */
  lemma AllFlushed(before: Db, base: Db, c: nat, dd: seq<nat>, norms: map<nat, Option<string>>, batches: map<string, seq<nat>>,
                   log1: seq<Flush>, log2: seq<Flush>, directory: set<string>)
    requires c in before.cohorts && base == Reset(before, c)
    requires forall id :: id in dd ==> id in base.wikiUsers
    requires NormsOf(norms, base, dd, directory)
    requires Conserved(dd, |dd|, batches, log1, norms)
    requires forall p :: Flushed(log2, p) == BatchOf(batches, p)
    ensures forall p :: Flushed(log1 + log2, p) == RecordsOfProject(before.wikiUsers, dd, directory, p)
  {
    assert dd[..|dd|] == dd;
    forall id | id in dd ensures id in before.wikiUsers && norms[id] == NormalizeProject(before.wikiUsers[id].project, directory) {
      assert base.wikiUsers[id].(valid := before.wikiUsers[id].valid) == before.wikiUsers[id];
    }
    forall p ensures Flushed(log1 + log2, p) == RecordsOfProject(before.wikiUsers, dd, directory, p) {
      FlushedAppend(log1, log2, p);
      OfProjectNormalized(before.wikiUsers, dd, norms, directory, p);
    }
  }

  /**
   * `loaded` holds the ids of cohort `c`'s records in `rows`, each once, and
   * `deduplicated` keeps the first of them per `(mediawiki_username, project)`.
   */
  ghost predicate LoadedAndDeduplicated(rows: map<nat, WikiUser>, c: nat, loaded: seq<nat>, deduplicated: seq<nat>) {
    && Utils.NoDuplicates(loaded)
    && (forall id :: id in loaded <==> id in rows && rows[id].validatingCohort == c)
    && Utils.FirstPerKey(loaded, RecordKey(rows), deduplicated)
  }

  /** Every deduplicated record of `rows` keeps its id and cohort in `grouped` and has its uploaded project settled there. */
  ghost predicate SettledRecords(rows: map<nat, WikiUser>, directory: set<string>, deduplicated: seq<nat>, grouped: map<nat, WikiUser>) {
    forall id :: id in deduplicated ==>
      && id in rows && id in grouped
      && SameRecordCohort(grouped[id], rows[id])
      && ProjectSettled(grouped[id], rows[id].project, directory)
  }

  /** No in-loop call of `flushes` had `id` in its batch. */
  ghost predicate InNoLoopCall(flushes: seq<Flush>, id: nat) {
    forall j :: 0 <= j < |flushes| && flushes[j].inLoop ==> id !in flushes[j].batch
  }

  /**
   * Every deduplicated record of `rows` that no in-loop call took holds in
   * `loopRows` its row as the reset left it, with the project step applied.
   */
  ghost predicate UntakenRecords(rows: map<nat, WikiUser>, directory: set<string>, deduplicated: seq<nat>, flushes: seq<Flush>,
                                 loopRows: map<nat, WikiUser>) {
    forall id :: id in deduplicated && InNoLoopCall(flushes, id) ==>
      && id in rows && id in loopRows
      && loopRows[id] == ProjectStep(rows[id].(valid := None), NormalizeProject(rows[id].project, directory))
  }

  /** `Untaken` after the grouping loop, read on the rows as they were before the reset. */
  lemma UntakenLoaded(before: Db, base: Db, c: nat, dd: seq<nat>, norms: map<nat, Option<string>>, directory: set<string>,
                      loopRows: map<nat, WikiUser>, log1: seq<Flush>, log2: seq<Flush>)
    requires c in before.cohorts && base == Reset(before, c)
    requires forall id :: id in dd ==> id in base.wikiUsers && base.wikiUsers[id].validatingCohort == c && id in norms
    requires NormsOf(norms, base, dd, directory)
    requires loopRows.Keys == base.wikiUsers.Keys
    requires forall j :: 0 <= j < |log1| ==> log1[j].inLoop
    requires Untaken(loopRows, base, dd, |dd|, log1, norms)
    ensures UntakenRecords(before.wikiUsers, directory, dd, log1 + log2, loopRows)
  {
    forall id | id in dd && InNoLoopCall(log1 + log2, id)
      ensures id in before.wikiUsers && id in loopRows
      ensures loopRows[id] == ProjectStep(before.wikiUsers[id].(valid := None), NormalizeProject(before.wikiUsers[id].project, directory))
    {
      var j :| 0 <= j < |dd| && dd[j] == id;
      forall k | 0 <= k < |log1| ensures id !in log1[k].batch {
        assert (log1 + log2)[k] == log1[k];
      }
      assert InNoCall(log1, dd[j]);
      assert base.wikiUsers[id] == before.wikiUsers[id].(valid := None);
    }
  }

  /** The grouping facts put every batch's records among the rows. */
  lemma GroupedBatchesIn(rows: map<nat, WikiUser>, base: Db, dd: seq<nat>, batches: map<string, seq<nat>>, norms: map<nat, Option<string>>)
    requires forall id :: id in dd ==> id in base.wikiUsers && id in norms
    requires rows.Keys == base.wikiUsers.Keys
    requires Grouped(rows, base, dd, |dd|, batches, norms)
    ensures BatchesIn(batches, rows)
  {
    forall p, k | p in batches && 0 <= k < |batches[p]| ensures batches[p][k] in rows {
      assert batches[p][k] in batches[p];
      assert dd[..|dd|] == dd;
    }
  }

  /**
   * What a completed `validate_records` did with the deduplicated records of
   * `rows`: the `validate_users` calls that returned took each record whose
   * project normalises to `p` exactly once, in order, under `p`; every record
   * kept its id and cohort and had its project settled (`grouped`); the
   * members are the first record per key of the grouped records, invalid ones
   * included, and hold in `after` the values they had in `grouped`.
   */
  ghost predicate ValidatedRecords(rows: map<nat, WikiUser>, directory: set<string>, deduplicated: seq<nat>,
                                   grouped: map<nat, WikiUser>, members: seq<nat>, flushes: seq<Flush>, after: map<nat, WikiUser>) {
    && (forall p :: Flushed(flushes, p) == RecordsOfProject(rows, deduplicated, directory, p))
    && SettledRecords(rows, directory, deduplicated, grouped)
    && Utils.FirstPerKey(deduplicated, RecordKey(grouped), members)
    && (forall id :: id in members ==> id in after && after[id] == grouped[id])
  }

  /**
   * `validate_records` (lines 113-200): reset the cohort, load and
   * deduplicate its records, settle their projects and validate them in
   * per-project batches, then write the memberships and delete the
   * duplicates. `ok` is false when an end-of-loop validation raised, which
   * leaves the method with what was committed so far. `loaded` is the
   * cohort's records as the query returns them, `deduplicated` their first
   * deduplication, `grouped` the records once the batches are validated,
   * `members` the second deduplication, and `flushes` the `validate_users`
   * calls in order.
   */
  method ValidateRecords(s: Session, c: nat, validateAsUserIds: bool, env: Environment)
    returns (ok: bool, members: seq<nat>, ghost loaded: seq<nat>, ghost deduplicated: seq<nat>,
             ghost loopRows: map<nat, WikiUser>, ghost grouped: map<nat, WikiUser>, ghost flushes: seq<Flush>)
    requires c in s.db.cohorts
    modifies s
    ensures LoadedAndDeduplicated(old(s.db.wikiUsers), c, loaded, deduplicated)
    ensures SettledRecords(old(s.db.wikiUsers), env.directory, deduplicated, loopRows)
    ensures UntakenRecords(old(s.db.wikiUsers), env.directory, deduplicated, flushes, loopRows)
    ensures EndCallsOn(loopRows, flushes, validateAsUserIds, env.store, env.parseUsername)
    ensures ok ==> EndCallsClassified(loopRows, grouped, flushes, validateAsUserIds, env.store, env.parseUsername)
    ensures ok ==> ValidatedRecords(old(s.db.wikiUsers), env.directory, deduplicated, grouped, members, flushes, s.db.wikiUsers)
    ensures ok ==> s.committed == s.db && Validated(old(s.db), s.committed, c, members, env.directory)
    ensures !ok ==> Unaffected(s.committed, Reset(old(s.db), c), c)
    ensures forall f :: f in flushes ==> (f.inLoop ==> |f.batch| >= 1000) && (!f.inLoop ==> |f.batch| >= 1)
    ensures (forall f :: f in flushes ==> f.ok) ==>
              forall f :: f in flushes ==> (f.inLoop ==> |f.batch| == 1000) && (!f.inLoop ==> |f.batch| <= 999)
    ensures forall i, j :: 0 <= i < j < |flushes| && flushes[j].inLoop ==> flushes[i].inLoop
    ensures ok <==> forall f :: f in flushes && !f.inLoop ==> f.ok
  {
    ghost var before := s.db;
    ResetValidation(s, c);
    ghost var base := s.db;
    var ids := CohortRecords(s.db.wikiUsers, c);
    var dd := Utils.DeduplicateByKey(ids, RecordKey(s.db.wikiUsers));
    loaded, deduplicated := ids, dd;
    LoadedBeforeReset(before, base, c, ids, dd);
    Utils.FirstPerKeyWithin(ids, RecordKey(base.wikiUsers), dd);
    ghost var norms := map id | id in dd :: NormalizeProject(base.wikiUsers[id].project, env.directory);
    var batches, log1 := BatchByProject(s, base, c, dd, norms, validateAsUserIds, env);
    loopRows := s.db.wikiUsers;
    GroupedBatchesIn(loopRows, base, dd, batches, norms);
    GroupedSettled(before, base, loopRows, c, dd, norms, env.directory);
    var done, log2 := FlushRemaining(s, base, c, dd, batches, norms, FailedProjects(log1), validateAsUserIds, env);
    FlushSizes(batches, log1, log2);
    flushes := log1 + log2;
    UntakenLoaded(before, base, c, dd, norms, env.directory, loopRows, log1, log2);
    grouped := s.db.wikiUsers;
    EndCallsAfterInLoop(loopRows, grouped, log1, log2, done, validateAsUserIds, env.store, env.parseUsername);
    EndFlushesDecide(log1, log2, done);
    if !done {
      return false, [], loaded, deduplicated, loopRows, grouped, flushes;
    }
    AllFlushed(before, base, c, dd, norms, batches, log1, log2, env.directory);
    GroupedSettled(before, base, grouped, c, dd, norms, env.directory);
    ghost var db := s.db;
    members := CommitMembership(s, c, dd);
    ok := true;
    Utils.FirstPerKeyWithin(dd, RecordKey(grouped), members);
    TablesAfterCommit(before, base, db, s.db, c, dd, members);
    SettledAfterCommit(before, base, db, s.db, c, dd, norms, members, env.directory);
    assert ValidatedRecords(before.wikiUsers, env.directory, dd, grouped, members, flushes, s.db.wikiUsers);
  }

  /** The database once `run` has stored the task id in the cohort row and committed. */
  function Queued(db: Db, c: nat, taskId: string): (q: Db)
    requires c in db.cohorts
    ensures q.wikiUsers == db.wikiUsers && q.cohortWikiUsers == db.cohortWikiUsers && q.cohorts.Keys == db.cohorts.Keys
  {
    db.(cohorts := db.cohorts[c := db.cohorts[c].(validationQueueKey := Some(taskId))])
  }

  /**
   * `ValidateCohort.run` (lines 103-111) on the database `db`, with `taskId`
   * the id of the running task: store the task id, commit, validate the
   * records, and close the session, which drops whatever was not committed.
   * `after` is what the database then holds; a missing cohort raises before
   * anything is written. The ghost results are those of `ValidateRecords`.
   */
  method Run(job: Job, db: Db, taskId: string, env: Environment)
    returns (ok: bool, after: Db, ghost members: seq<nat>, ghost loaded: seq<nat>, ghost deduplicated: seq<nat>,
             ghost loopRows: map<nat, WikiUser>, ghost grouped: map<nat, WikiUser>, ghost flushes: seq<Flush>)
    ensures job.cohortId !in db.cohorts ==> !ok && after == db
    ensures job.cohortId in db.cohorts ==> LoadedAndDeduplicated(db.wikiUsers, job.cohortId, loaded, deduplicated)
    ensures job.cohortId in db.cohorts ==> SettledRecords(db.wikiUsers, env.directory, deduplicated, loopRows)
    ensures job.cohortId in db.cohorts ==> UntakenRecords(db.wikiUsers, env.directory, deduplicated, flushes, loopRows)
    ensures EndCallsOn(loopRows, flushes, job.validateAsUserIds, env.store, env.parseUsername)
    ensures ok ==> EndCallsClassified(loopRows, grouped, flushes, job.validateAsUserIds, env.store, env.parseUsername)
    ensures ok ==> ValidatedRecords(db.wikiUsers, env.directory, deduplicated, grouped, members, flushes, after.wikiUsers)
    ensures job.cohortId in db.cohorts ==>
              job.cohortId in after.cohorts
              && after.cohorts[job.cohortId] == db.cohorts[job.cohortId].(validated := ok, validationQueueKey := Some(taskId))
    ensures job.cohortId in db.cohorts && ok ==> Validated(Queued(db, job.cohortId, taskId), after, job.cohortId, members, env.directory)
    ensures job.cohortId in db.cohorts && !ok ==> Unaffected(after, Reset(Queued(db, job.cohortId, taskId), job.cohortId), job.cohortId)
  {
    var c := job.cohortId;
    var s := new Session(db);
    if c !in s.db.cohorts {
      // `cohort` is None and the attribute assignment raises
      s.Close();
      return false, s.committed, [], [], [], map[], map[], [];
    }
    s.db := s.db.(cohorts := s.db.cohorts[c := s.db.cohorts[c].(validationQueueKey := Some(taskId))]);
    s.Commit();
    ok, members, loaded, deduplicated, loopRows, grouped, flushes := ValidateRecords(s, c, job.validateAsUserIds, env);
    s.Close();
    after := s.committed;
  }
}
