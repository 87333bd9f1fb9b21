/**
 * The part of the wikimetrics metadata database the validation pipeline reads
 * and writes: the wiki_user rows (uploaded identities), the cohort rows and the
 * cohort_wiki_user membership rows, together with a session that holds
 * uncommitted changes until it commits and drops them when it closes.
 */
module Tables {
  import opened Wrappers

  /** A wiki_user row: one uploaded identity of the cohort being validated. */
  datatype WikiUser = WikiUser(
    id: nat,
    mediawikiUsername: string,
    mediawikiUserid: Option<nat>,
    project: string,
    valid: Option<bool>,
    reasonInvalid: Option<string>,
    validatingCohort: nat)

  /** The cohort fields the pipeline touches. */
  datatype Cohort = Cohort(validated: bool, validateAsUserIds: bool, validationQueueKey: Option<string>)

  /** A cohort_wiki_user row: the durable link from a cohort to one of its wiki users. */
  datatype CohortWikiUser = CohortWikiUser(cohortId: nat, wikiUserId: nat)

  datatype Db = Db(wikiUsers: map<nat, WikiUser>, cohorts: map<nat, Cohort>, cohortWikiUsers: seq<CohortWikiUser>)

  /** Every row is stored under its own primary key. */
  ghost predicate RowsKeyed(rows: map<nat, WikiUser>) {
    forall id :: id in rows ==> rows[id].id == id
  }

  /** `UPDATE wiki_user SET valid = NULL WHERE validating_cohort = cohort`. */
  function ClearValid(rows: map<nat, WikiUser>, cohort: nat): (r: map<nat, WikiUser>)
    ensures r.Keys == rows.Keys
    ensures forall id :: id in rows && rows[id].validatingCohort == cohort ==> r[id].valid == None
    ensures forall id :: id in rows && rows[id].validatingCohort != cohort ==> r[id] == rows[id]
    ensures forall id :: id in rows ==> r[id].(valid := rows[id].valid) == rows[id]
  {
    map id | id in rows :: if rows[id].validatingCohort == cohort then rows[id].(valid := None) else rows[id]
  }

  /** `DELETE FROM cohort_wiki_user WHERE cohort_id = cohort`, keeping the other rows in order. */
  function DeleteMemberships(rows: seq<CohortWikiUser>, cohort: nat): (r: seq<CohortWikiUser>)
    ensures forall m :: m in r <==> m in rows && m.cohortId != cohort
    ensures |r| <= |rows|
  {
    if rows == [] then []
    else if rows[0].cohortId == cohort then DeleteMemberships(rows[1..], cohort)
    else [rows[0]] + DeleteMemberships(rows[1..], cohort)
  }

  /** The rows `{cohort_id: cohort, wiki_user_id: id}` for each id, in order. */
  function MembershipRows(cohort: nat, ids: seq<nat>): (r: seq<CohortWikiUser>)
    ensures |r| == |ids|
    ensures forall i :: 0 <= i < |ids| ==> r[i] == CohortWikiUser(cohort, ids[i])
  {
    seq(|ids|, i requires 0 <= i < |ids| => CohortWikiUser(cohort, ids[i]))
  }

  /** The inserted rows name exactly the given records. */
  lemma MembershipRowsNames(cohort: nat, ids: seq<nat>)
    ensures forall id :: CohortWikiUser(cohort, id) in MembershipRows(cohort, ids) <==> id in ids
  {
    var rows := MembershipRows(cohort, ids);
    forall id ensures CohortWikiUser(cohort, id) in rows <==> id in ids {
      if id in ids {
        var i :| 0 <= i < |ids| && ids[i] == id;
        assert rows[i] == CohortWikiUser(cohort, id);
      }
    }
  }

  /** `DELETE FROM wiki_user WHERE validating_cohort = cohort AND id NOT IN keep`. */
  function DeleteWikiUsersNotIn(rows: map<nat, WikiUser>, cohort: nat, keep: set<nat>): (r: map<nat, WikiUser>)
    ensures forall id :: id in r <==> id in rows && (rows[id].validatingCohort != cohort || id in keep)
    ensures forall id :: id in r ==> r[id] == rows[id]
  {
    map id | id in rows && (rows[id].validatingCohort != cohort || id in keep) :: rows[id]
  }

  /**
   * A session on the metadata database: `db` is what the session sees, its
   * own uncommitted writes included; `committed` is what the database holds.
   */
  class Session {
    var db: Db
    var committed: Db

    constructor (database: Db)
      ensures db == database && committed == database
    {
      db := database;
      committed := database;
    }

    /** `session.commit()`: the session's writes become durable. */
    method Commit()
      modifies this
      ensures committed == old(db) && db == old(db)
    {
      committed := db;
    }

    /** `session.close()`: writes not yet committed are rolled back. */
    method Close()
      modifies this
      ensures db == old(committed) && committed == old(committed)
    {
      db := committed;
    }
  }
}
