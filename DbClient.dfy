/** `DbClient`: the store object, holding the MySQL connection, the optional
    Vault client and (standing in for the server) the `customers` table. The
    MySQL server is not modelled; what it does with each attempt to execute a
    statement is given to the operations as `Attempts`. */
module DbClient {
  import opened Values
  import opened Transit
  import opened Records

  /** MySQL client error 2006, "MySQL server has gone away". */
  const ServerGone: int := 2006

  /** The limit `get_customer_records` uses when the caller gives none. */
  const DefaultLimit: nat := 10

  /** What the server does with one attempt to execute a statement. */
  datatype Attempt = Succeeds | Fails(error: Error)

  /** What the server does with the first attempt and, should the connection
      have been lost, with the one retry on the new connection. */
  datatype Attempts = Attempts(first: Attempt, retry: Attempt)

  predicate ConnectionLost(a: Attempt) {
    a == Fails(OperationalError(ServerGone))
  }

  /** `_execute_sql` reconnects exactly when the first attempt lost the connection. */
  predicate Reconnects(run: Attempts) {
    ConnectionLost(run.first)
  }

  /** The statement takes effect: on the first attempt, or on the retry. */
  predicate Applied(run: Attempts) {
    run.first.Succeeds? || (Reconnects(run) && run.retry.Succeeds?)
  }

  /** What `_execute_sql` returns or raises: 1 when the first attempt
      succeeds, 0 when it succeeds after a reconnect, the retry's exception
      when that fails too, None for any other operational error (swallowed),
      and any other exception passed on. */
  function ExecResult(run: Attempts): (r: Outcome<Option<int>>)
    ensures r == Returned(Some(1)) <==> run.first.Succeeds?
    ensures r == Returned(Some(0)) <==> Reconnects(run) && run.retry.Succeeds?
    ensures (r.Returned? && r.value.Some?) <==> Applied(run)
    ensures r == Returned(None) <==>
      run.first.Fails? && run.first.error.OperationalError? && !Reconnects(run)
    ensures r.Raised? && Reconnects(run) ==> r == Raised(run.retry.error)
    ensures r.Raised? && !Reconnects(run) ==> r == Raised(run.first.error)
  {
    match run.first
    case Succeeds => Returned(Some(1))
    case Fails(e) =>
      if Reconnects(run) then
        match run.retry
        case Succeeds => Returned(Some(0))
        case Fails(e') => Raised(e')
      else if e.OperationalError? then Returned(None)
      else Raised(e)
  }

  /** What `get_customer_records` returns or raises. The records come from
      the rows held by the cursor the method created, and that cursor holds
      rows only when the first attempt succeeded: after a reconnect the retry
      ran on a fresh cursor, so the listing is empty. */
  function Listing(codec: Codec, t: Table, limit: nat, run: Attempts): (r: Outcome<seq<CustomerRecord>>)
    ensures r.Raised? <==> ExecResult(run).Raised?
    ensures r.Raised? ==> r.error == ExecResult(run).error
    ensures r.Returned? && !run.first.Succeeds? ==> r.value == []
  {
    match ExecResult(run)
    case Raised(e) => Raised(e)
    case Returned(_) =>
      Returned(if run.first.Succeeds? then Listed(codec, SelectRows(t.rows, limit)) else [])
  }

  /** A listing holds at most `limit` records, each the mapping of a row of
      the table. */
  lemma ListingBounded(codec: Codec, t: Table, limit: nat, run: Attempts)
    requires Listing(codec, t, limit, run).Returned?
    ensures |Listing(codec, t, limit, run).value| <= limit
    ensures forall r :: r in Listing(codec, t, limit, run).value ==>
      exists i :: 0 <= i < |t.rows| && MapRow(codec, t.rows[i]) == Returned(r)
  {
    if run.first.Succeeds? {
      var fetched := SelectRows(t.rows, limit);
      ListedBounded(codec, fetched);
      forall r | r in Listing(codec, t, limit, run).value
        ensures exists i :: 0 <= i < |t.rows| && MapRow(codec, t.rows[i]) == Returned(r)
      {
        var i :| 0 <= i < |fetched| && MapRow(codec, fetched[i]) == Returned(r);
        assert fetched[i] == t.rows[i];
      }
    }
  }

  /** Over a valid table a successful listing holds one record per row of
      the first `limit` rows, in table order: no row is dropped. */
  lemma ListingOfValidTable(codec: Codec, t: Table, limit: nat, run: Attempts)
    requires TableValid(t) && run.first.Succeeds?
    ensures Listing(codec, t, limit, run).Returned?
    ensures |Listing(codec, t, limit, run).value| == if limit < |t.rows| then limit else |t.rows|
    ensures forall i :: 0 <= i < |Listing(codec, t, limit, run).value| ==>
      Returned(Listing(codec, t, limit, run).value[i]) == MapRow(codec, t.rows[i])
  {
    var fetched := SelectRows(t.rows, limit);
    assert forall i :: 0 <= i < |fetched| ==> fetched[i] == t.rows[i];
    ListedConforming(codec, fetched);
  }

  /** The confirmation listing after an insert that took effect shows the
      new record, read back as the caller gave it, when the table had fewer
      than `limit` rows before; with more rows it is not shown. */
  lemma InsertedRecordIsListed(codec: Codec, t: Table, record: CustomerFields, limit: nat, run: Attempts)
    requires TableValid(t) && run.first.Succeeds?
    requires codec.client.Some? ==> WellBehaved(codec.service) && EncryptsAll(codec, record)
    ensures var listed := Listing(codec, Run(t, InsertStatement(codec, record)), limit, run).value;
      (|t.rows| < limit ==> |listed| == |t.rows| + 1 && listed[|t.rows|] == RecordOf(t.nextCustNo, record)) &&
      (|t.rows| >= limit ==> RecordOf(t.nextCustNo, record) !in listed)
  {
    var stmt := InsertStatement(codec, record);
    var t' := Run(t, stmt);
    var row := NewRow(t.nextCustNo, stmt.values);
    assert t'.rows == t.rows + [row];
    ListingOfValidTable(codec, t', limit, run);
    InsertedRowReadsBack(codec, record, t.nextCustNo);
    var listed := Listing(codec, t', limit, run).value;
    if |t.rows| < limit {
      assert t'.rows[|t.rows|] == row;
    } else {
      InsertKeepsTableValid(t, stmt.values);
    }
  }

  /** `not x` in Python for an optional string: None or the empty string. */
  predicate Falsy(x: Option<string>) {
    x.None? || x.value == ""
  }

  /** The connection settings `init_db` keeps for reconnecting. */
  datatype Credentials = Credentials(uri: string, port: int, username: string, password: string, db: string)

  /** A MySQL cursor: the rows of the last statement executed on it. */
  class Cursor {
    var rows: seq<Row>

    constructor ()
      ensures rows == []
    {
      rows := [];
    }
  }

  class DbClient {
    /** The `customers` table on the server. */
    var table: Table
    /** How many times `conn` has been opened; a reconnect opens a new one. */
    var connection: nat
    var vaultClient: Option<VaultClient>
    var keyName: Option<string>
    var mountPoint: Option<string>
    const credentials: Credentials
    /** The Vault server's transit endpoints. */
    const service: TransitService

    ghost predicate Valid()
      reads this
    {
      TableValid(table)
    }

    /** The codec as the fields now configure it. */
    function CurrentCodec(): (codec: Codec)
      reads this
      ensures codec.client == vaultClient && codec.service == service
    {
      Codec(vaultClient, mountPoint, keyName, service)
    }

    /** `__init__`: connect and prepare the database and table, which may
        already hold rows; no Vault client yet, so plaintext mode. */
    constructor (credentials: Credentials, service: TransitService, existing: Table)
      requires TableValid(existing)
      ensures Valid()
      ensures table == existing && connection == 1
      ensures vaultClient.None? && keyName.None? && mountPoint.None?
      ensures this.credentials == credentials && this.service == service
    {
      table := existing;
      connection := 1;
      vaultClient, keyName, mountPoint := None, None, None;
      this.credentials := credentials;
      this.service := service;
    }

    /** `init_vault`: with an empty or missing address or token nothing
        changes; otherwise the client, key name and mount point are set. */
    method InitVault(addr: Option<string>, token: Option<string>, path: Option<string>, name: Option<string>)
      modifies this
      ensures table == old(table) && connection == old(connection)
      ensures Falsy(addr) || Falsy(token) ==>
        vaultClient == old(vaultClient) && keyName == old(keyName) && mountPoint == old(mountPoint)
      ensures !Falsy(addr) && !Falsy(token) ==>
        vaultClient == Some(VaultClient(addr.value, token.value)) && keyName == name && mountPoint == path
    {
      if Falsy(addr) || Falsy(token) {
        return;
      }
      vaultClient := Some(VaultClient(addr.value, token.value));
      keyName := name;
      mountPoint := path;
    }

    /** `init_db` run again: a new connection; `CREATE ... IF NOT EXISTS`
        leaves the existing database and table as they are. */
    method Reconnect()
      modifies this
      ensures connection == old(connection) + 1
      ensures table == old(table) && vaultClient == old(vaultClient)
      ensures keyName == old(keyName) && mountPoint == old(mountPoint)
    {
      connection := connection + 1;
    }

    /** One successful `cursor.execute`: the statement takes effect and the
        cursor holds its rows. */
    method RunOn(cursor: Cursor, stmt: Statement)
      requires Valid() && WellFormed(stmt)
      modifies this, cursor
      ensures Valid()
      ensures cursor.rows == ResultSet(old(table), stmt)
      ensures table == Run(old(table), stmt)
      ensures connection == old(connection) && vaultClient == old(vaultClient)
      ensures keyName == old(keyName) && mountPoint == old(mountPoint)
    {
      cursor.rows := ResultSet(table, stmt);
      table := Run(table, stmt);
    }

    /** `_execute_sql`: the statement takes effect at most once, on the
        first attempt or, when that lost the connection, on the single retry
        after a reconnect; `execute` clears the caller's cursor before it
        runs, and the retry runs on a fresh cursor, so the caller's cursor
        holds rows only after a first-attempt success. */
    method ExecuteSql(stmt: Statement, cursor: Cursor, run: Attempts) returns (r: Outcome<Option<int>>)
      requires Valid() && WellFormed(stmt)
      modifies this, cursor
      ensures Valid()
      ensures r == ExecResult(run)
      ensures table == if Applied(run) then Run(old(table), stmt) else old(table)
      ensures connection == if Reconnects(run) then old(connection) + 1 else old(connection)
      ensures cursor.rows == if run.first.Succeeds? then ResultSet(old(table), stmt) else []
      ensures vaultClient == old(vaultClient) && keyName == old(keyName) && mountPoint == old(mountPoint)
    {
      match run.first {
        case Succeeds =>
          RunOn(cursor, stmt);
          r := Returned(Some(1));
        case Fails(e) =>
          cursor.rows := [];
          if e == OperationalError(ServerGone) {
            Reconnect();
            var retryCursor := new Cursor();
            match run.retry {
              case Succeeds =>
                RunOn(retryCursor, stmt);
                r := Returned(Some(0));
              case Fails(e') =>
                r := Raised(e');
            }
          } else if e.OperationalError? {
            r := Returned(None);
          } else {
            r := Raised(e);
          }
      }
    }

    /** `get_customer_records`: a SELECT limited to `num` rows (10 when
        None), each fetched row mapped and, in vault mode, decrypted; a row
        whose mapping raises is skipped. */
    method GetCustomerRecords(num: Option<nat>, run: Attempts) returns (out: Outcome<seq<CustomerRecord>>)
      requires Valid()
      modifies this
      ensures Valid() && table == old(table)
      ensures out == Listing(CurrentCodec(), table, if num.None? then DefaultLimit else num.value, run)
      ensures connection == if Reconnects(run) then old(connection) + 1 else old(connection)
      ensures vaultClient == old(vaultClient) && keyName == old(keyName) && mountPoint == old(mountPoint)
    {
      var limit := if num.None? then DefaultLimit else num.value;
      var cursor := new Cursor();
      var r := ExecuteSql(Select(limit), cursor, run);
      if r.Raised? {
        out := Raised(r.error);
        return;
      }
      var results := CollectRecords(CurrentCodec(), cursor.rows);
      out := Returned(results);
    }

    /** `insert_customer_record`: an INSERT of the caller's seven fields,
        the sensitive ones encrypted in vault mode, then the default listing. */
    method InsertCustomerRecord(record: CustomerFields, insertRun: Attempts, listRun: Attempts)
      returns (out: Outcome<seq<CustomerRecord>>)
      requires Valid()
      modifies this
      ensures Valid()
      ensures table == if Applied(insertRun)
        then Table(old(table.rows) + [NewRow(old(table.nextCustNo), InsertStatement(old(CurrentCodec()), record).values)],
                   old(table.nextCustNo) + 1)
        else old(table)
      ensures out == if ExecResult(insertRun).Raised? then Raised(ExecResult(insertRun).error)
                     else Listing(CurrentCodec(), table, DefaultLimit, listRun)
      ensures connection == old(connection) + (if Reconnects(insertRun) then 1 else 0)
                            + (if !ExecResult(insertRun).Raised? && Reconnects(listRun) then 1 else 0)
      ensures vaultClient == old(vaultClient) && keyName == old(keyName) && mountPoint == old(mountPoint)
    {
      var stmt := InsertStatement(CurrentCodec(), record);
      var cursor := new Cursor();
      var r := ExecuteSql(stmt, cursor, insertRun);
      if r.Raised? {
        out := Raised(r.error);
        return;
      }
      out := GetCustomerRecords(None, listRun);
    }

    /** `update_customer_record`: an UPDATE of every field but `create_date`
        in the row keyed by `custNo`, the sensitive ones encrypted in vault
        mode, then the default listing. */
    method UpdateCustomerRecord(record: CustomerFields, custNo: int, updateRun: Attempts, listRun: Attempts)
      returns (out: Outcome<seq<CustomerRecord>>)
      requires Valid()
      modifies this
      ensures Valid()
      ensures table == if Applied(updateRun)
        then Table(UpdateRows(old(table.rows), UpdateStatement(old(CurrentCodec()), record, custNo).values, custNo),
                   old(table.nextCustNo))
        else old(table)
      ensures out == if ExecResult(updateRun).Raised? then Raised(ExecResult(updateRun).error)
                     else Listing(CurrentCodec(), table, DefaultLimit, listRun)
      ensures connection == old(connection) + (if Reconnects(updateRun) then 1 else 0)
                            + (if !ExecResult(updateRun).Raised? && Reconnects(listRun) then 1 else 0)
      ensures vaultClient == old(vaultClient) && keyName == old(keyName) && mountPoint == old(mountPoint)
    {
      var stmt := UpdateStatement(CurrentCodec(), record, custNo);
      var cursor := new Cursor();
      var r := ExecuteSql(stmt, cursor, updateRun);
      if r.Raised? {
        out := Raised(r.error);
        return;
      }
      out := GetCustomerRecords(None, listRun);
    }
  }
}
