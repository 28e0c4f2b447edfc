/** The lazy, once-only creation of the database tables before the first
    request is handled. */
module Startup {

  /** The process-wide `_table_created` flag, with a count of the times the
      tables have been created through it. */
  class Database {
    var tableCreated: bool
    ghost var createAllRuns: nat

    /** The tables have been created exactly once once the flag is set, and
        not at all before. */
    ghost predicate Valid()
      reads this
    {
      createAllRuns == if tableCreated then 1 else 0
    }

    constructor ()
      ensures Valid() && !tableCreated && createAllRuns == 0
    {
      tableCreated := false;
      createAllRuns := 0;
    }

    /** `ensure_tables`, run before every request: creates the tables when
        the flag is clear and then sets it; a no-op afterwards. */
    method EnsureTables()
      requires Valid()
      modifies this
      ensures Valid() && tableCreated && createAllRuns == 1
      ensures old(tableCreated) ==> unchanged(this)
    {
      if !tableCreated {
        createAllRuns := createAllRuns + 1;
        tableCreated := true;
      }
    }
  }
}
