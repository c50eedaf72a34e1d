/** The database session held by SQLiteProvider: a nullable handle that is
    set once loading succeeds, and the two operations it exposes, runQuery
    and getTableMetadata, which both refuse to run while there is no handle.
    The engine itself is not modelled: what it answers to a statement is an
    input, and every statement handed to it is recorded on the handle. */
module Session {
  import opened Base
  import Query
  import Shaper
  import Schema

  /** The rejection both operations give while no database is loaded. */
  const NOT_READY_MESSAGE := "Database not ready"

  /** What the engine did with one statement: answered with its column names
      and its rows (each passed to the row callback), or raised an error. */
  datatype ExecReply =
    | Answered(columnNames: seq<string>, rows: seq<seq<Shaper.SqlValue>>)
    | Raised(message: string)

  /** The catalog query getTableMetadata issues first. */
  const TABLES_QUERY := "SELECT name FROM sqlite_master WHERE type='table'"

  /** The structural query issued for each table row of the catalog. */
  function TableInfoQuery(tableName: string): string
  {
    "PRAGMA table_info(" + tableName + ")"
  }

  /** The structural queries issued while walking the catalog, one per table row. */
  function TableInfoQueries(catalog: seq<Schema.CatalogEntry>): seq<string>
  {
    seq(|catalog|, i requires 0 <= i < |catalog| => TableInfoQuery(catalog[i].0))
  }

  /** The in-memory database handle. Only the statements handed to it are
      modelled. */
  class Database {
    ghost var executed: seq<string>

    constructor ()
      ensures executed == []
    {
      executed := [];
    }
  }

  class SqlSession {
    /** dbRef.current: null until loading has succeeded. */
    var db: Database?

    constructor ()
      ensures db == null
    {
      db := null;
    }

    /** The end of initialisation: a loaded database becomes the handle; a
        failed load leaves the session as it was. */
    method SettleLoad(outcome: Result<Database, string>)
      modifies this
      ensures outcome.Success? ==> db == outcome.value
      ensures outcome.Failure? ==> db == old(db)
    {
      if outcome.Success? {
        db := outcome.value;
      }
    }

    /** runQuery: without a handle, rejects with NOT_READY_MESSAGE and runs nothing.
        Otherwise hands LimitedQuery(query) to the engine and, when it
        answers, resolves with the header row followed by the rows it
        answered with (none when there are no columns, where the source
        computes 0 / 0 rows). */
    method RunQuery(query: string, reply: ExecReply)
      returns (r: Result<seq<seq<Shaper.SqlValue>>, string>)
      requires reply.Answered? ==>
        forall i | 0 <= i < |reply.rows| :: |reply.rows[i]| == |reply.columnNames|
      modifies db
      ensures db == old(db)
      ensures db == null ==> r == Failure(NOT_READY_MESSAGE)
      ensures db != null ==> db.executed == old(db.executed) + [Query.LimitedQuery(query)]
      ensures db != null && reply.Raised? ==> r == Failure(reply.message)
      ensures db != null && reply.Answered? ==>
        r == Success([Shaper.HeaderRow(reply.columnNames)] +
                     (if reply.columnNames == [] then [] else reply.rows))
    {
      var handle := db;
      if handle == null {
        return Failure(NOT_READY_MESSAGE);
      }
      var limitedQuery := Query.LimitedQuery(query);
      handle.executed := handle.executed + [limitedQuery];
      match reply
      case Raised(message) =>
        r := Failure(message);
      case Answered(columnNames, received) =>
        var table := Shaper.Collect(columnNames, received);
        r := Success(table);
    }

    /** getTableMetadata: without a handle, rejects with NOT_READY_MESSAGE and runs
        nothing. Otherwise issues the catalog query and one structural query
        per table row, and resolves with the aggregate of the columns the
        engine reported. */
    method GetTableMetadata(catalog: seq<Schema.CatalogEntry>)
      returns (r: Result<seq<Schema.TableMetadata>, string>)
      modifies db
      ensures db == old(db)
      ensures db == null ==> r == Failure(NOT_READY_MESSAGE)
      ensures db != null ==>
        db.executed == old(db.executed) + [TABLES_QUERY] + TableInfoQueries(catalog)
      ensures db != null ==> r.Success? && Schema.Describes(r.value, Schema.Reports(catalog))
      ensures db != null ==> r.Success? && Schema.Distinct(Schema.Names(r.value))
    {
      var handle := db;
      if handle == null {
        return Failure(NOT_READY_MESSAGE);
      }
      handle.executed := handle.executed + [TABLES_QUERY] + TableInfoQueries(catalog);
      var tables := Schema.Aggregate(catalog);
      r := Success(tables);
    }
  }
}
