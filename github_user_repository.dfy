/** The GitHubUser table and its four statements (src/repositories/github_user_repository.rs). */
module Repositories {
  import opened Wrappers
  import opened Numeric
  import opened Entities

  /**
   * Why a statement failed: the primary key already holds the id, the text
   * of the statement does not parse, or the database engine failed for a
   * reason outside this model (I/O, locking, ...).
   */
  datatype DbError = ConstraintViolation | MalformedStatement | EngineFailure

  /** The outcome of a write: the statement's result and the table afterwards. */
  datatype Written = Written(result: Result<(), DbError>, rows: seq<GithubUser>)

  /** The two `WHERE` clauses of the read statements. */
  datatype Filter = ByUsername(username: string) | ById(id: Int32)

  predicate Matches(row: GithubUser, filter: Filter)
  {
    match filter
    case ByUsername(u) => row.username == u
    case ById(i) => row.id == i
  }

  /** `id` is the primary key: no two rows share one. */
  predicate UniqueIds(rows: seq<GithubUser>)
  {
    forall i, j :: 0 <= i < j < |rows| ==> rows[i].id != rows[j].id
  }

  predicate HasId(rows: seq<GithubUser>, id: Int32)
  {
    exists i :: 0 <= i < |rows| && rows[i].id == id
  }

  /** Position of the first row the filter selects, or |rows| when there is none. */
  function FirstIndex(rows: seq<GithubUser>, filter: Filter): (k: nat)
    ensures k <= |rows|
    ensures forall j :: 0 <= j < k ==> !Matches(rows[j], filter)
    ensures k < |rows| ==> Matches(rows[k], filter)
  {
    if rows == [] then 0
    else if Matches(rows[0], filter) then 0
    else 1 + FirstIndex(rows[1..], filter)
  }

  /** The rows a `SELECT * ... WHERE` returns, reduced to the first by `.first()`. */
  function SelectFirst(rows: seq<GithubUser>, filter: Filter): (r: Option<GithubUser>)
    ensures r.None? <==> forall j :: 0 <= j < |rows| ==> !Matches(rows[j], filter)
    ensures r.Some? ==> r.value == rows[FirstIndex(rows, filter)]
  {
    var k := FirstIndex(rows, filter);
    if k < |rows| then Some(rows[k]) else None
  }

  /**
   * `INSERT`: appends the row carrying all six columns, unless the id is
   * taken (primary-key violation) or the engine fails; a failure leaves the
   * table as it was.
   */
  function InsertRows(rows: seq<GithubUser>, entity: GithubUser, engineFails: bool): (w: Written)
    ensures w.result.Ok? ==> w.rows == rows + [entity]
    ensures w.result.Err? ==> w.rows == rows
    ensures w.result.Ok? <==> !engineFails && !HasId(rows, entity.id)
  {
    if engineFails then Written(Err(EngineFailure), rows)
    else if HasId(rows, entity.id) then Written(Err(ConstraintViolation), rows)
    else Written(Ok(()), rows + [entity])
  }

  /** Every row with the entity's id replaced by the entity; the others kept. */
  function Replaced(rows: seq<GithubUser>, entity: GithubUser): (r: seq<GithubUser>)
    ensures |r| == |rows|
    ensures forall i :: 0 <= i < |rows| && rows[i].id == entity.id ==> r[i] == entity
    ensures forall i :: 0 <= i < |rows| && rows[i].id != entity.id ==> r[i] == rows[i]
  {
    seq(|rows|, i requires 0 <= i < |rows| => if rows[i].id == entity.id then entity else rows[i])
  }

  /**
   * `update` as intended: overwrite all six columns of the row whose id is
   * `entity.id`. No matching row is not an error: nothing changes.
   */
  function UpdateRows(rows: seq<GithubUser>, entity: GithubUser, engineFails: bool): (w: Written)
    ensures w.result.Ok? <==> !engineFails
    ensures w.result.Ok? ==> w.rows == Replaced(rows, entity)
    ensures w.result.Err? ==> w.rows == rows
  {
    if engineFails then Written(Err(EngineFailure), rows)
    else Written(Ok(()), Replaced(rows, entity))
  }

  /** `upsert`: try the insert; if it fails, answer with whatever the update answers. */
  function UpsertRows(rows: seq<GithubUser>, entity: GithubUser, insertFails: bool, updateFails: bool): (w: Written)
    ensures InsertRows(rows, entity, insertFails).result.Ok? ==> w == InsertRows(rows, entity, insertFails)
    ensures InsertRows(rows, entity, insertFails).result.Err? ==> w == UpdateRows(rows, entity, updateFails)
  {
    var inserted := InsertRows(rows, entity, insertFails);
    if inserted.result.Ok? then inserted else UpdateRows(inserted.rows, entity, updateFails)
  }

  /**
   * `update` as written: the statement repeats `SET` before every column and
   * has a comma before `WHERE`, so preparing it fails and nothing is written.
   */
  function UpdateRowsAsWritten(rows: seq<GithubUser>, entity: GithubUser): (w: Written)
    ensures w.result == Err(MalformedStatement) && w.rows == rows
  {
    Written(Err(MalformedStatement), rows)
  }

  /** `upsert` over the update as written. */
  function UpsertRowsAsWritten(rows: seq<GithubUser>, entity: GithubUser, insertFails: bool): (w: Written)
    ensures InsertRows(rows, entity, insertFails).result.Ok? ==> w == InsertRows(rows, entity, insertFails)
    ensures InsertRows(rows, entity, insertFails).result.Err? ==> w == UpdateRowsAsWritten(rows, entity)
  {
    var inserted := InsertRows(rows, entity, insertFails);
    if inserted.result.Ok? then inserted else UpdateRowsAsWritten(inserted.rows, entity)
  }

  /** As written, refreshing a user whose id is already stored always fails and stores nothing. */
  lemma UpsertAsWrittenCannotRefresh(rows: seq<GithubUser>, entity: GithubUser, insertFails: bool)
    requires HasId(rows, entity.id)
    ensures UpsertRowsAsWritten(rows, entity, insertFails) == Written(Err(MalformedStatement), rows)
  {
  }

  /** With the update as intended, refreshing a stored id without engine faults succeeds and stores the new row. */
  lemma UpsertRefreshesStoredRow(rows: seq<GithubUser>, entity: GithubUser, insertFails: bool)
    requires UniqueIds(rows) && HasId(rows, entity.id)
    ensures UpsertRows(rows, entity, insertFails, false).result == Ok(())
    ensures SelectFirst(UpsertRows(rows, entity, insertFails, false).rows, ById(entity.id)) == Some(entity)
  {
  }

  /**
   * When the INSERT of a new id fails in the engine, the fallback UPDATE
   * matches no row yet reports success: the upsert answers Ok and stores
   * nothing.
   */
  lemma UpsertOkWithoutStoring(rows: seq<GithubUser>, entity: GithubUser)
    requires !HasId(rows, entity.id)
    ensures UpsertRows(rows, entity, true, false) == Written(Ok(()), rows)
  {
  }

  /** Inserting keeps the ids unique. */
  lemma InsertKeepsUniqueIds(rows: seq<GithubUser>, entity: GithubUser, engineFails: bool)
    requires UniqueIds(rows)
    ensures UniqueIds(InsertRows(rows, entity, engineFails).rows)
  {
  }

  /** Updating keeps the ids unique: the replaced rows already carried the entity's id. */
  lemma UpdateKeepsUniqueIds(rows: seq<GithubUser>, entity: GithubUser, engineFails: bool)
    requires UniqueIds(rows)
    ensures UniqueIds(UpdateRows(rows, entity, engineFails).rows)
  {
  }

  /** Upserting keeps the ids unique. */
  lemma UpsertKeepsUniqueIds(rows: seq<GithubUser>, entity: GithubUser, insertFails: bool, updateFails: bool)
    requires UniqueIds(rows)
    ensures UniqueIds(UpsertRows(rows, entity, insertFails, updateFails).rows)
  {
  }

  /** An upsert for an id already stored never adds a row. */
  lemma UpsertOfStoredIdKeepsRowCount(rows: seq<GithubUser>, entity: GithubUser, insertFails: bool, updateFails: bool)
    requires HasId(rows, entity.id)
    ensures |UpsertRows(rows, entity, insertFails, updateFails).rows| == |rows|
  {
  }

  /**
   * Upserting the same id twice, without engine faults, leaves exactly one
   * row with that id, holding the second call's values.
   */
  lemma UpsertTwiceSecondWins(rows: seq<GithubUser>, first: GithubUser, second: GithubUser, insertFails: bool)
    requires UniqueIds(rows) && first.id == second.id
    ensures var after := UpsertRows(UpsertRows(rows, first, false, false).rows, second, insertFails, false).rows;
      SelectFirst(after, ById(first.id)) == Some(second) && UniqueIds(after)
  {
    var middle := UpsertRows(rows, first, false, false).rows;
    UpsertKeepsUniqueIds(rows, first, false, false);
    if !HasId(rows, first.id) {
      assert middle[|rows|].id == first.id;
    }
    assert HasId(middle, second.id);
    UpsertRefreshesStoredRow(middle, second, insertFails);
    UpsertKeepsUniqueIds(middle, second, insertFails, false);
  }

  /** The connection's table, as the repository sees it. */
  class GitHubUserRepository {
    var rows: seq<GithubUser>

    ghost predicate Valid()
      reads this
    {
      UniqueIds(rows)
    }

    /** A repository over an existing table. */
    constructor (rows: seq<GithubUser>)
      requires UniqueIds(rows)
      ensures Valid() && this.rows == rows
    {
      this.rows := rows;
    }

    /** `get_by_username`: the first row with exactly this user name, if any. */
    function GetByUsername(username: string): (r: Option<GithubUser>)
      reads this
      ensures r.None? <==> forall j :: 0 <= j < |rows| ==> rows[j].username != username
      ensures r.Some? ==> r.value.username == username
      ensures r.Some? ==> exists k :: (0 <= k < |rows| && rows[k] == r.value &&
                                       forall j :: 0 <= j < k ==> rows[j].username != username)
    {
      var r := SelectFirst(rows, ByUsername(username));
      assert r.Some? ==> Matches(rows[FirstIndex(rows, ByUsername(username))], ByUsername(username));
      r
    }

    /** `get_by_id`: the first row with this id, if any. */
    function GetById(id: Int32): (r: Option<GithubUser>)
      reads this
      ensures r.None? <==> !HasId(rows, id)
      ensures r.Some? ==> r.value.id == id
      ensures r.Some? ==> exists k :: (0 <= k < |rows| && rows[k] == r.value &&
                                       forall j :: 0 <= j < k ==> rows[j].id != id)
    {
      var r := SelectFirst(rows, ById(id));
      assert r.Some? ==> Matches(rows[FirstIndex(rows, ById(id))], ById(id));
      assert r.None? ==> forall j :: 0 <= j < |rows| ==> !Matches(rows[j], ById(id));
      r
    }

    /** `insert`. */
    method Insert(entity: GithubUser, engineFails: bool) returns (res: Result<(), DbError>)
      requires Valid()
      modifies this
      ensures Valid()
      ensures Written(res, rows) == InsertRows(old(rows), entity, engineFails)
    {
      InsertKeepsUniqueIds(rows, entity, engineFails);
      if engineFails {
        return Err(EngineFailure);
      }
      if GetById(entity.id).Some? {
        return Err(ConstraintViolation);
      }
      rows := rows + [entity];
      return Ok(());
    }

    /**
     * `update`, with the statement's intended meaning (a single `SET` list);
     * the statement as written is `UpdateRowsAsWritten`.
     */
    method Update(entity: GithubUser, engineFails: bool) returns (res: Result<(), DbError>)
      requires Valid()
      modifies this
      ensures Valid()
      ensures Written(res, rows) == UpdateRows(old(rows), entity, engineFails)
    {
      UpdateKeepsUniqueIds(rows, entity, engineFails);
      if engineFails {
        return Err(EngineFailure);
      }
      rows := Replaced(rows, entity);
      return Ok(());
    }

    /** `upsert`: insert, falling back to update when the insert fails. */
    method Upsert(entity: GithubUser, insertFails: bool, updateFails: bool) returns (res: Result<(), DbError>)
      requires Valid()
      modifies this
      ensures Valid()
      ensures Written(res, rows) == UpsertRows(old(rows), entity, insertFails, updateFails)
    {
      var inserted := Insert(entity, insertFails);
      if inserted.Ok? {
        return Ok(());
      }
      res := Update(entity, updateFails);
    }
  }
}
