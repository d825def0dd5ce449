/** The customer-record mapping of `DbClient`: the `customers` table as rows
    of eight columns, the statements the store issues as structured values
    (column to value, never text), what each statement does to the table, and
    how fetched rows become record dictionaries. */
module Records {
  import opened Values
  import opened Transit

  /** A row as the cursor yields it. */
  type Row = seq<Value>

  /** The columns a caller supplies, in table order after `cust_no`. */
  datatype Column = BirthDate | FirstName | LastName | CreateDate | Ssn | Address | Salary

  /** Position of a column in a `SELECT *` row; position 0 is `cust_no`. */
  function ColumnIndex(c: Column): (i: int)
    ensures 1 <= i <= 7
  {
    match c
    case BirthDate => 1
    case FirstName => 2
    case LastName => 3
    case CreateDate => 4
    case Ssn => 5
    case Address => 6
    case Salary => 7
  }

  /** The fields routed through the transit codec when a client is configured. */
  predicate IsSensitive(c: Column) {
    c == BirthDate || c == Ssn || c == Address || c == Salary
  }

  const InsertColumns: set<Column> :=
    {BirthDate, FirstName, LastName, CreateDate, Ssn, Address, Salary}

  /** An update sets every column except `create_date`. */
  const UpdateColumns: set<Column> := InsertColumns - {CreateDate}

  /** The record dictionary a caller passes to insert or update. */
  datatype CustomerFields = CustomerFields(
    birthDate: string, firstName: string, lastName: string, createDate: string,
    ssn: string, address: string, salary: string)
  {
    function Get(c: Column): string {
      match c
      case BirthDate => birthDate
      case FirstName => firstName
      case LastName => lastName
      case CreateDate => createDate
      case Ssn => ssn
      case Address => address
      case Salary => salary
    }
  }

  /** The record dictionary `get_customer_records` returns for one row. */
  datatype CustomerRecord = CustomerRecord(
    customerNumber: Value, birthDate: Value, firstName: Value, lastName: Value,
    createDate: Value, ssn: Value, address: Value, salary: Value)
  {
    function Get(c: Column): Value {
      match c
      case BirthDate => birthDate
      case FirstName => firstName
      case LastName => lastName
      case CreateDate => createDate
      case Ssn => ssn
      case Address => address
      case Salary => salary
    }
  }

  /** A statement the store issues. */
  datatype Statement =
    | Select(limit: nat)                                    // SELECT * ... LIMIT limit
    | Insert(values: map<Column, string>)                   // INSERT without cust_no
    | Update(values: map<Column, string>, custNo: int)      // UPDATE ... WHERE cust_no = custNo

  predicate WellFormed(stmt: Statement) {
    match stmt
    case Select(_) => true
    case Insert(values) => values.Keys == InsertColumns
    case Update(values, _) => values.Keys == UpdateColumns
  }

  /** What `"{}".format(x)` writes for the result of `encrypt`: the
      ciphertext, or the text `None` when encryption failed. */
  function Formatted(x: Option<string>): string {
    match x
    case Some(s) => s
    case None => "None"
  }

  /** The text the store writes into column `c` for the caller's field. */
  function StoredText(codec: Codec, record: CustomerFields, c: Column): (t: string)
    ensures codec.client.None? || !IsSensitive(c) ==> t == record.Get(c)
    ensures codec.client.Some? && IsSensitive(c) ==> t == Formatted(Encrypt(codec, record.Get(c)))
    ensures codec.client.Some? && IsSensitive(c) && WellBehaved(codec.service)
            && Encrypt(codec, record.Get(c)).Some?
            ==> IsTagged(t)
  {
    if codec.client.Some? && IsSensitive(c) then Formatted(Encrypt(codec, record.Get(c)))
    else record.Get(c)
  }

  /** `insert_customer_record`'s statement: every caller column, sensitive
      ones encrypted when a client is configured; `cust_no` is never given. */
  function InsertStatement(codec: Codec, record: CustomerFields): (stmt: Statement)
    ensures stmt.Insert? && WellFormed(stmt)
    ensures forall c :: c in InsertColumns ==> stmt.values[c] == StoredText(codec, record, c)
  {
    Insert(map c | c in InsertColumns :: StoredText(codec, record, c))
  }

  /** `update_customer_record`'s statement: every column but `create_date`,
      keyed by `cust_no`. */
  function UpdateStatement(codec: Codec, record: CustomerFields, custNo: int): (stmt: Statement)
    ensures stmt.Update? && WellFormed(stmt) && stmt.custNo == custNo
    ensures forall c :: c in UpdateColumns ==> stmt.values[c] == StoredText(codec, record, c)
  {
    Update(map c | c in UpdateColumns :: StoredText(codec, record, c), custNo)
  }

  /** Without a vault client the statements carry the caller's fields
      verbatim and do not depend on the key service at all. */
  lemma PlaintextPolicy(codec: Codec, other: Codec, record: CustomerFields, custNo: int)
    requires codec.client.None? && other.client.None?
    ensures forall c :: c in InsertColumns ==> InsertStatement(codec, record).values[c] == record.Get(c)
    ensures forall c :: c in UpdateColumns ==> UpdateStatement(codec, record, custNo).values[c] == record.Get(c)
    ensures InsertStatement(codec, record) == InsertStatement(other, record)
    ensures UpdateStatement(codec, record, custNo) == UpdateStatement(other, record, custNo)
  {
  }

  /** The table's schema: `cust_no` an integer, the seven other columns text. */
  predicate ConformsToSchema(row: Row) {
    |row| == 8 && row[0].Int? && forall i :: 1 <= i < 8 ==> row[i].Text?
  }

  /** The `customers` table: its rows in storage order and the next
      AUTO_INCREMENT value. */
  datatype Table = Table(rows: seq<Row>, nextCustNo: int)

  /** The table as the DDL (column types, not widths) and AUTO_INCREMENT
      keep it: every row conforms, every `cust_no` is below the next one to
      assign, and no two rows share one. */
  ghost predicate TableValid(t: Table) {
    (forall i :: 0 <= i < |t.rows| ==> ConformsToSchema(t.rows[i]) && t.rows[i][0].i < t.nextCustNo) &&
    (forall i, j ::
       0 <= i < j < |t.rows| && ConformsToSchema(t.rows[i]) && ConformsToSchema(t.rows[j]) ==>
       t.rows[i][0] != t.rows[j][0])
  }

  /** The row an INSERT adds under the auto-increment number `custNo`. */
  function NewRow(custNo: int, values: map<Column, string>): (row: Row)
    requires values.Keys == InsertColumns
    ensures ConformsToSchema(row) && row[0] == Int(custNo)
    ensures forall c :: c in InsertColumns ==> row[ColumnIndex(c)] == Text(values[c])
  {
    [Int(custNo), Text(values[BirthDate]), Text(values[FirstName]), Text(values[LastName]),
     Text(values[CreateDate]), Text(values[Ssn]), Text(values[Address]), Text(values[Salary])]
  }

  /** A row after the UPDATE's SET list: `cust_no` and `create_date` kept. */
  function UpdatedRow(row: Row, values: map<Column, string>): (r: Row)
    requires ConformsToSchema(row) && values.Keys == UpdateColumns
    ensures ConformsToSchema(r)
    ensures r[0] == row[0] && r[ColumnIndex(CreateDate)] == row[ColumnIndex(CreateDate)]
    ensures forall c :: c in UpdateColumns ==> r[ColumnIndex(c)] == Text(values[c])
  {
    [row[0], Text(values[BirthDate]), Text(values[FirstName]), Text(values[LastName]),
     row[4], Text(values[Ssn]), Text(values[Address]), Text(values[Salary])]
  }

  /** The table after `UPDATE ... WHERE cust_no = custNo`. */
  function UpdateRows(rows: seq<Row>, values: map<Column, string>, custNo: int): (r: seq<Row>)
    requires forall i :: 0 <= i < |rows| ==> ConformsToSchema(rows[i])
    requires values.Keys == UpdateColumns
    ensures |r| == |rows|
    ensures forall i :: 0 <= i < |rows| ==>
      ConformsToSchema(rows[i]) &&
      r[i] == if rows[i][0] == Int(custNo) then UpdatedRow(rows[i], values) else rows[i]
  {
    seq(|rows|, i requires 0 <= i < |rows| =>
      assert ConformsToSchema(rows[i]);
      if rows[i][0] == Int(custNo) then UpdatedRow(rows[i], values) else rows[i])
  }

  /** The rows `SELECT * ... LIMIT limit` returns: the first `limit` rows of
      the table sequence, taken to be the server's order. */
  function SelectRows(rows: seq<Row>, limit: nat): (r: seq<Row>)
    ensures |r| <= limit && r <= rows
    ensures |r| == if limit < |rows| then limit else |rows|
  {
    if limit < |rows| then rows[..limit] else rows
  }

  /** An insert keeps the table valid and adds one row whose `cust_no` no
      other row has. */
  lemma InsertKeepsTableValid(t: Table, values: map<Column, string>)
    requires TableValid(t) && values.Keys == InsertColumns
    ensures TableValid(Table(t.rows + [NewRow(t.nextCustNo, values)], t.nextCustNo + 1))
    ensures forall i :: 0 <= i < |t.rows| ==> t.rows[i][0] != Int(t.nextCustNo)
  {
  }

  /** An update keeps the table valid; since `cust_no` is unique, at most
      one row carries the key it rewrites. */
  lemma UpdateKeepsTableValid(t: Table, values: map<Column, string>, custNo: int)
    requires TableValid(t) && values.Keys == UpdateColumns
    ensures TableValid(Table(UpdateRows(t.rows, values, custNo), t.nextCustNo))
    ensures forall i, j :: 0 <= i < j < |t.rows| && t.rows[i][0] == Int(custNo) ==> t.rows[j][0] != Int(custNo)
  {
  }

  /** The table after a statement takes effect. */
  function Run(t: Table, stmt: Statement): (t': Table)
    requires TableValid(t) && WellFormed(stmt)
    ensures TableValid(t')
  {
    match stmt
    case Select(_) => t
    case Insert(values) =>
      InsertKeepsTableValid(t, values);
      Table(t.rows + [NewRow(t.nextCustNo, values)], t.nextCustNo + 1)
    case Update(values, custNo) =>
      UpdateKeepsTableValid(t, values, custNo);
      Table(UpdateRows(t.rows, values, custNo), t.nextCustNo)
  }

  /** The rows a cursor holds after executing a statement: those of a
      SELECT, none for an INSERT or UPDATE. */
  function ResultSet(t: Table, stmt: Statement): seq<Row> {
    match stmt
    case Select(limit) => SelectRows(t.rows, limit)
    case _ => []
  }

  /** `get_customer_records`'s mapping of one row: columns 0..7 by position,
      and in vault mode the four sensitive ones through `decrypt`. A row
      too short for an index, or a sensitive cell that is not a `str` in
      vault mode, raises. */
  function MapRow(codec: Codec, row: Row): (r: Outcome<CustomerRecord>)
    ensures r.Raised? <==>
      |row| < 8 ||
      (codec.client.Some? && exists c :: IsSensitive(c) && !row[ColumnIndex(c)].Text?)
    ensures r.Returned? ==> r.value.customerNumber == row[0]
    ensures r.Returned? ==> forall c :: !IsSensitive(c) || codec.client.None? ==>
      r.value.Get(c) == row[ColumnIndex(c)]
    ensures r.Returned? ==> forall c :: IsSensitive(c) && codec.client.Some? ==>
      Returned(r.value.Get(c)) == Decrypt(codec, row[ColumnIndex(c)])
  {
    if |row| < 8 then Raised(IndexError)
    else
      var plain := CustomerRecord(row[0], row[1], row[2], row[3], row[4], row[5], row[6], row[7]);
      if codec.client.None? then Returned(plain)
      else
        var birthDate, ssn := Decrypt(codec, row[1]), Decrypt(codec, row[5]);
        var address, salary := Decrypt(codec, row[6]), Decrypt(codec, row[7]);
        if birthDate.Raised? || ssn.Raised? || address.Raised? || salary.Raised? then
          assert !row[ColumnIndex(BirthDate)].Text? || !row[ColumnIndex(Ssn)].Text?
              || !row[ColumnIndex(Address)].Text? || !row[ColumnIndex(Salary)].Text?;
          Raised(AttributeError)
        else
          Returned(plain.(birthDate := birthDate.value, ssn := ssn.value,
                          address := address.value, salary := salary.value))
  }

  /** The records the listing returns for the fetched rows: every row whose
      mapping raises is left out, the others are kept in order. */
  function Listed(codec: Codec, rows: seq<Row>): seq<CustomerRecord>
  {
    if rows == [] then [] else Kept(codec, rows[0]) + Listed(codec, rows[1..])
  }

  /** What one row contributes to the listing: its record, or nothing. */
  function Kept(codec: Codec, row: Row): seq<CustomerRecord> {
    match MapRow(codec, row)
    case Returned(r) => [r]
    case Raised(_) => []
  }

  /** The listing of a concatenation is the concatenation of the listings. */
  lemma {:induction false} ListedAppend(codec: Codec, a: seq<Row>, b: seq<Row>)
    ensures Listed(codec, a + b) == Listed(codec, a) + Listed(codec, b)
    decreases |a|
  {
    if a == [] {
      assert a + b == b;
    } else {
      assert (a + b)[0] == a[0] && (a + b)[1..] == a[1..] + b;
      ListedAppend(codec, a[1..], b);
      calc {
        Listed(codec, a + b);
        Kept(codec, a[0]) + Listed(codec, a[1..] + b);
        Kept(codec, a[0]) + (Listed(codec, a[1..]) + Listed(codec, b));
        Listed(codec, a) + Listed(codec, b);
      }
    }
  }

  /** A row whose mapping raises is the only one missing: removing it
      from the fetched rows does not change the listing. */
  lemma SkipsOnlyFailingRow(codec: Codec, before: seq<Row>, bad: Row, after: seq<Row>)
    requires MapRow(codec, bad).Raised?
    ensures Listed(codec, before + [bad] + after) == Listed(codec, before + after)
  {
    assert [bad][1..] == [];
    calc {
      Listed(codec, before + [bad] + after);
      { ListedAppend(codec, before + [bad], after); }
      Listed(codec, before + [bad]) + Listed(codec, after);
      { ListedAppend(codec, before, [bad]); }
      Listed(codec, before) + Listed(codec, [bad]) + Listed(codec, after);
      Listed(codec, before) + Listed(codec, after);
      { ListedAppend(codec, before, after); }
      Listed(codec, before + after);
    }
  }

  /** The listing never holds more records than rows were fetched, and every
      record it holds is the mapping of one of them. */
  lemma {:induction false} ListedBounded(codec: Codec, rows: seq<Row>)
    ensures |Listed(codec, rows)| <= |rows|
    ensures forall r :: r in Listed(codec, rows) ==>
      exists i :: 0 <= i < |rows| && MapRow(codec, rows[i]) == Returned(r)
  {
    if rows != [] {
      ListedBounded(codec, rows[1..]);
      forall r | r in Listed(codec, rows)
        ensures exists i :: 0 <= i < |rows| && MapRow(codec, rows[i]) == Returned(r)
      {
        if MapRow(codec, rows[0]) != Returned(r) {
          var i :| 0 <= i < |rows[1..]| && MapRow(codec, rows[1..][i]) == Returned(r);
          assert rows[i + 1] == rows[1..][i];
        }
      }
    }
  }

  /** Over rows that conform to the schema no mapping raises, so the listing
      has one record per row, in row order. */
  lemma {:induction false} ListedConforming(codec: Codec, rows: seq<Row>)
    requires forall i :: 0 <= i < |rows| ==> ConformsToSchema(rows[i])
    ensures |Listed(codec, rows)| == |rows|
    ensures forall i :: 0 <= i < |rows| ==> Returned(Listed(codec, rows)[i]) == MapRow(codec, rows[i])
  {
    if rows != [] {
      var row := rows[0];
      assert ConformsToSchema(row);
      assert forall c :: row[ColumnIndex(c)].Text?;
      ListedConforming(codec, rows[1..]);
      assert forall i :: 1 <= i < |rows| ==> rows[i] == rows[1..][i - 1];
    }
  }

  /** `get_customer_records`'s loop over the cursor: each row mapped inside a
      try-block, appended on success and skipped when the mapping raises. */
  method CollectRecords(codec: Codec, cursorRows: seq<Row>) returns (results: seq<CustomerRecord>)
    ensures results == Listed(codec, cursorRows)
  {
    results := [];
    for i := 0 to |cursorRows|
      invariant results == Listed(codec, cursorRows[..i])
    {
      var row := cursorRows[i];
      match MapRow(codec, row) {
        case Returned(r) => results := results + [r];
        case Raised(_) =>
      }
      ListedAppend(codec, cursorRows[..i], [row]);
      assert cursorRows[..i + 1] == cursorRows[..i] + [row];
    }
    assert cursorRows[..|cursorRows|] == cursorRows;
  }

  /** The record a row written from `record` under `custNo` should read back as. */
  function RecordOf(custNo: int, record: CustomerFields): (r: CustomerRecord)
    ensures r.customerNumber == Int(custNo)
    ensures forall c :: r.Get(c) == Text(record.Get(c))
  {
    CustomerRecord(Int(custNo), Text(record.birthDate), Text(record.firstName),
                   Text(record.lastName), Text(record.createDate), Text(record.ssn),
                   Text(record.address), Text(record.salary))
  }

  /** Encryption succeeded for every sensitive field of `record`. */
  predicate EncryptsAll(codec: Codec, record: CustomerFields) {
    forall c :: IsSensitive(c) ==> Encrypt(codec, record.Get(c)).Some?
  }

  /** In vault mode a sensitive column written from `record` decrypts back
      to the caller's text. */
  lemma SensitiveReadsBack(codec: Codec, record: CustomerFields, c: Column)
    requires IsSensitive(c) && codec.client.Some?
    requires WellBehaved(codec.service) && Encrypt(codec, record.Get(c)).Some?
    ensures Decrypt(codec, Text(StoredText(codec, record, c))) == Returned(Text(record.Get(c)))
  {
    Transit.RoundTrip(codec, record.Get(c));
  }

  /** A row reads back as `expected` when its cells are the expected
      fields: verbatim where no decryption happens, and decrypting to them
      where it does. */
  lemma ReadsBackAs(codec: Codec, row: Row, expected: CustomerRecord)
    requires |row| == 8 && row[0] == expected.customerNumber
    requires forall c :: !IsSensitive(c) || codec.client.None? ==> row[ColumnIndex(c)] == expected.Get(c)
    requires forall c :: IsSensitive(c) && codec.client.Some? ==>
      Decrypt(codec, row[ColumnIndex(c)]) == Returned(expected.Get(c))
    ensures MapRow(codec, row) == Returned(expected)
  {
    if codec.client.Some? {
      assert forall c :: IsSensitive(c) ==> row[ColumnIndex(c)].Text?;
    }
    var r := MapRow(codec, row).value;
    forall c
      ensures r.Get(c) == expected.Get(c)
    {
      if IsSensitive(c) && codec.client.Some? {
        assert Returned(r.Get(c)) == Decrypt(codec, row[ColumnIndex(c)]);
      } else {
        assert r.Get(c) == row[ColumnIndex(c)];
      }
    }
    assert r.Get(BirthDate) == expected.Get(BirthDate) && r.Get(FirstName) == expected.Get(FirstName)
      && r.Get(LastName) == expected.Get(LastName) && r.Get(CreateDate) == expected.Get(CreateDate)
      && r.Get(Ssn) == expected.Get(Ssn) && r.Get(Address) == expected.Get(Address)
      && r.Get(Salary) == expected.Get(Salary);
  }

  /** A row inserted from `record` is listed as `record` itself under its new
      `cust_no`: verbatim in plaintext mode, and in vault mode through the
      encrypt/decrypt round trip when the key service is well behaved and
      every encryption succeeded. */
  lemma InsertedRowReadsBack(codec: Codec, record: CustomerFields, custNo: int)
    requires codec.client.Some? ==> WellBehaved(codec.service) && EncryptsAll(codec, record)
    ensures MapRow(codec, NewRow(custNo, InsertStatement(codec, record).values))
            == Returned(RecordOf(custNo, record))
  {
    var row := NewRow(custNo, InsertStatement(codec, record).values);
    if codec.client.Some? {
      forall c | IsSensitive(c) {
        InsertedSensitiveCell(codec, record, custNo, c);
      }
    }
    ReadsBackAs(codec, row, RecordOf(custNo, record));
  }

  /** One sensitive cell of an inserted row decrypts to the caller's field. */
  lemma InsertedSensitiveCell(codec: Codec, record: CustomerFields, custNo: int, c: Column)
    requires codec.client.Some? && IsSensitive(c)
    requires WellBehaved(codec.service) && EncryptsAll(codec, record)
    ensures Decrypt(codec, NewRow(custNo, InsertStatement(codec, record).values)[ColumnIndex(c)])
            == Returned(Text(record.Get(c)))
  {
    var values := InsertStatement(codec, record).values;
    assert NewRow(custNo, values)[ColumnIndex(c)] == Text(StoredText(codec, record, c));
    SensitiveReadsBack(codec, record, c);
  }

  /** What an updated row should read back as: the caller's fields, but
      the stored `cust_no` and `create_date`. */
  function UpdatedRecord(row: Row, record: CustomerFields): (r: CustomerRecord)
    requires ConformsToSchema(row)
    ensures r.customerNumber == row[0] && r.createDate == row[ColumnIndex(CreateDate)]
    ensures forall c :: c != CreateDate ==> r.Get(c) == Text(record.Get(c))
  {
    RecordOf(row[0].i, record.(createDate := row[ColumnIndex(CreateDate)].s))
  }

  /** The cells of an updated row that are read without decryption. */
  lemma UpdatedPlainCells(codec: Codec, row: Row, record: CustomerFields, custNo: int)
    requires ConformsToSchema(row)
    ensures var row' := UpdatedRow(row, UpdateStatement(codec, record, custNo).values);
      forall c :: !IsSensitive(c) || codec.client.None? ==> row'[ColumnIndex(c)] == UpdatedRecord(row, record).Get(c)
  {
    var row' := UpdatedRow(row, UpdateStatement(codec, record, custNo).values);
    forall c | c != CreateDate && (!IsSensitive(c) || codec.client.None?)
      ensures row'[ColumnIndex(c)] == Text(record.Get(c))
    {
      assert row'[ColumnIndex(c)] == Text(StoredText(codec, record, c));
    }
  }

  /** The sensitive cells of an updated row decrypt to the caller's fields. */
  lemma UpdatedSensitiveCells(codec: Codec, row: Row, record: CustomerFields, custNo: int)
    requires ConformsToSchema(row) && codec.client.Some?
    requires WellBehaved(codec.service) && EncryptsAll(codec, record)
    ensures var row' := UpdatedRow(row, UpdateStatement(codec, record, custNo).values);
      forall c :: IsSensitive(c) ==>
        Decrypt(codec, row'[ColumnIndex(c)]) == Returned(UpdatedRecord(row, record).Get(c))
  {
    forall c | IsSensitive(c) {
      UpdatedSensitiveCell(codec, row, record, custNo, c);
    }
  }

  /** One sensitive cell of an updated row decrypts to the caller's field. */
  lemma UpdatedSensitiveCell(codec: Codec, row: Row, record: CustomerFields, custNo: int, c: Column)
    requires ConformsToSchema(row) && codec.client.Some? && IsSensitive(c)
    requires WellBehaved(codec.service) && EncryptsAll(codec, record)
    ensures Decrypt(codec, UpdatedRow(row, UpdateStatement(codec, record, custNo).values)[ColumnIndex(c)])
            == Returned(Text(record.Get(c)))
  {
    var values := UpdateStatement(codec, record, custNo).values;
    assert UpdatedRow(row, values)[ColumnIndex(c)] == Text(StoredText(codec, record, c));
    SensitiveReadsBack(codec, record, c);
  }

  /** An updated row is listed with the caller's fields except `create_date`,
      which keeps the stored value, under the same `cust_no`. */
  lemma UpdatedRowReadsBack(codec: Codec, row: Row, record: CustomerFields, custNo: int)
    requires ConformsToSchema(row)
    requires codec.client.Some? ==> WellBehaved(codec.service) && EncryptsAll(codec, record)
    ensures MapRow(codec, UpdatedRow(row, UpdateStatement(codec, record, custNo).values))
            == Returned(UpdatedRecord(row, record))
  {
    UpdatedPlainCells(codec, row, record, custNo);
    if codec.client.Some? {
      UpdatedSensitiveCells(codec, row, record, custNo);
    }
    ReadsBackAs(codec, UpdatedRow(row, UpdateStatement(codec, record, custNo).values), UpdatedRecord(row, record));
  }
}
