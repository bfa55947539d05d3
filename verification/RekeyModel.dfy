/** What a key rotation means for one cell, one row, one table and one database: which
    cells are left alone, which are re-encrypted, which make the table fail, and how the
    state after a committed table is related to the state before it.  The relations say
    nothing about the order in which rows are visited nor about which nonces are drawn,
    so everything proved from them holds for every order and every nonce. */
module RekeyModel {
  import opened Prelude
  import opened Aes
  import Hex

  const MAX_VERSION := 32767

  /** The range of a generation stamp, a two's-complement 16-bit integer. */
  type SmallInt = v: int | -MAX_VERSION - 1 <= v <= MAX_VERSION

  datatype Encoding = Bytea | HexText

  datatype Column = Column(name: string, encoding: Encoding)

  datatype TableSpec = TableSpec(table: string, versionColumn: string, columns: seq<Column>, optional: bool)

  /** A stored cell.  For a text column the bytes are the characters of the text. */
  datatype Cell = Null | Value(bytes: Bytes)

  /** One row: its cells by column name (an absent name is NULL) and its generation
      stamps by version column (an absent name is NULL). */
  datatype Row = Row(cells: map<string, Cell>, versions: map<string, SmallInt>)

  /** A table: the columns it has and its rows by primary key. */
  datatype Table = Table(columns: set<string>, rows: map<string, Row>)

  type Database = map<string, Table>

  datatype Crypto = Crypto(gcm: Gcm, oldKey: Bytes, newKey: Bytes)

  function CellAt(row: Row, name: string): Cell {
    if name in row.cells then row.cells[name] else Null
  }

  predicate WellFormed(spec: TableSpec) {
    && (forall i, j :: 0 <= i < j < |spec.columns| ==> spec.columns[i].name != spec.columns[j].name)
    && (forall i :: 0 <= i < |spec.columns| ==> spec.columns[i].name != spec.versionColumn)
  }

  ghost function Names(spec: TableSpec): set<string> {
    set i | 0 <= i < |spec.columns| :: spec.columns[i].name
  }

  /** The candidate query names at least one column and only columns the table has. */
  predicate Selectable(t: Table, spec: TableSpec) {
    spec.columns != [] && forall i :: 0 <= i < |spec.columns| ==> spec.columns[i].name in t.columns
  }

  /** The candidate query keeps the rows where some cipher column is not NULL. */
  predicate Candidate(row: Row, spec: TableSpec) {
    exists i :: 0 <= i < |spec.columns| && CellAt(row, spec.columns[i].name).Value?
  }

  // ----- One cell -----

  /** How a cell reads after the scan: a NULL text cell cannot be scanned into a string,
      an empty cell holds nothing, a text cell must be hexadecimal. */
  datatype Reading = Nothing | Unscannable | NotHex | Cipher(blob: Bytes)

  function Read(encoding: Encoding, cell: Cell): Reading {
    match (encoding, cell)
    case (Bytea, Null) => Nothing
    case (Bytea, Value(b)) => if b == [] then Nothing else Cipher(b)
    case (HexText, Null) => Unscannable
    case (HexText, Value(s)) =>
      if s == [] then Nothing
      else if Hex.Decode(s).None? then NotHex
      else Cipher(Hex.Decode(s).value)
  }

  predicate OnNewKey(c: Crypto, blob: Bytes) {
    Decrypt(c.gcm, blob, c.newKey).Some?
  }

  /** Rekey one ciphertext. */
  function Rekey(c: Crypto, blob: Bytes, random: Option<Nonce>): Option<Bytes> {
    var plain := Decrypt(c.gcm, blob, c.oldKey);
    if plain.None? then None else Encrypt(c.gcm, plain.value, c.newKey, random)
  }

  datatype Defect = NullText | BadHex | OldKeyRefuses | NewKeyUnusable

  datatype Plan = Keep | Renew(plain: Bytes) | Reject(defect: Defect)

  function PlanCell(c: Crypto, encoding: Encoding, cell: Cell): Plan {
    match Read(encoding, cell)
    case Nothing => Keep
    case Unscannable => Reject(NullText)
    case NotHex => Reject(BadHex)
    case Cipher(b) =>
      if OnNewKey(c, b) then Keep
      else if Decrypt(c.gcm, b, c.oldKey).None? then Reject(OldKeyRefuses)
      else if |c.newKey| != KEY_SIZE then Reject(NewKeyUnusable)
      else Renew(Decrypt(c.gcm, b, c.oldKey).value)
  }

  function Written(encoding: Encoding, blob: Bytes): Cell {
    Value(if encoding.HexText? then Hex.Encode(blob) else blob)
  }

  /** The cell holds this plaintext, freshly encrypted under the new key. */
  ghost predicate Sealed(c: Crypto, encoding: Encoding, plain: Bytes, cell: Cell) {
    exists n: Nonce :: cell == Written(encoding, V1Blob(c.gcm, c.newKey, n, plain))
  }

  /** What rotating a table does to one of its cells. */
  ghost predicate CellRotated(c: Crypto, encoding: Encoding, cell: Cell, cell': Cell) {
    match PlanCell(c, encoding, cell)
    case Renew(p) => Sealed(c, encoding, p, cell')
    case _ => cell' == cell
  }

  // ----- One row -----

  predicate RowRejected(c: Crypto, row: Row, spec: TableSpec) {
    Candidate(row, spec) &&
    exists i :: 0 <= i < |spec.columns| &&
                PlanCell(c, spec.columns[i].encoding, CellAt(row, spec.columns[i].name)).Reject?
  }

  /** The row has a cell to re-encrypt.  Such a row is always a candidate. */
  predicate RowStale(c: Crypto, row: Row, spec: TableSpec) {
    exists i :: 0 <= i < |spec.columns| &&
                PlanCell(c, spec.columns[i].encoding, CellAt(row, spec.columns[i].name)).Renew?
  }

  ghost predicate RowRotated(c: Crypto, row: Row, spec: TableSpec, version: SmallInt, row': Row) {
    && row'.versions == row.versions[spec.versionColumn := version]
    && (forall i :: 0 <= i < |spec.columns| ==>
          CellRotated(c, spec.columns[i].encoding,
                      CellAt(row, spec.columns[i].name), CellAt(row', spec.columns[i].name)))
    && (forall name :: name !in Names(spec) ==> CellAt(row', name) == CellAt(row, name))
  }

  // ----- One table -----

  function StaleRows(c: Crypto, t: Table, spec: TableSpec): set<string> {
    set pk | pk in t.rows && RowStale(c, t.rows[pk], spec)
  }

  predicate NoRejection(c: Crypto, t: Table, spec: TableSpec) {
    forall pk :: pk in t.rows ==> !RowRejected(c, t.rows[pk], spec)
  }

  /** The rows to update can be stamped. */
  predicate Stampable(c: Crypto, t: Table, spec: TableSpec) {
    StaleRows(c, t, spec) == {} || spec.versionColumn in t.columns
  }

  ghost predicate TableRotated(c: Crypto, t: Table, spec: TableSpec, version: SmallInt, t': Table) {
    && t'.columns == t.columns
    && t'.rows.Keys == t.rows.Keys
    && (forall pk :: pk in t.rows ==>
          if pk in StaleRows(c, t, spec)
          then RowRotated(c, t.rows[pk], spec, version, t'.rows[pk])
          else t'.rows[pk] == t.rows[pk])
  }

  /** Verify's verdict on a cell: not on the new key. */
  predicate CellBehind(c: Crypto, encoding: Encoding, cell: Cell) {
    match Read(encoding, cell)
    case NotHex => true
    case Cipher(b) => !OnNewKey(c, b)
    case _ => false
  }

  predicate RowBehind(c: Crypto, row: Row, spec: TableSpec) {
    exists i :: 0 <= i < |spec.columns| &&
                CellBehind(c, spec.columns[i].encoding, CellAt(row, spec.columns[i].name))
  }

  function RowsBehind(c: Crypto, t: Table, spec: TableSpec): set<string> {
    set pk | pk in t.rows && RowBehind(c, t.rows[pk], spec)
  }

  predicate RowUnscannable(row: Row, spec: TableSpec) {
    Candidate(row, spec) &&
    exists i :: 0 <= i < |spec.columns| &&
                Read(spec.columns[i].encoding, CellAt(row, spec.columns[i].name)).Unscannable?
  }

  predicate Scannable(t: Table, spec: TableSpec) {
    forall pk :: pk in t.rows ==> !RowUnscannable(t.rows[pk], spec)
  }

  // ----- One database -----

  /** The data admits rotating this spec: nothing in it makes the rotation fail. */
  predicate Healthy(c: Crypto, db: Database, spec: TableSpec) {
    if spec.table in db then Selectable(db[spec.table], spec) && NoRejection(c, db[spec.table], spec)
    else spec.optional
  }

  /** One spec has been swept and its transaction committed (or the table is optional and
      absent); no other table has changed. */
  ghost predicate Committed(c: Crypto, db: Database, spec: TableSpec, version: SmallInt, db': Database) {
    && Healthy(c, db, spec)
    && db'.Keys == db.Keys
    && (forall name :: name in db && name != spec.table ==> db'[name] == db[name])
    && (spec.table in db ==> TableRotated(c, db[spec.table], spec, version, db'[spec.table]))
  }

  function Last(specs: seq<TableSpec>): TableSpec
    requires specs != []
  {
    specs[|specs| - 1]
  }

  /** The specs have been swept and committed one after the other. */
  ghost predicate Swept(c: Crypto, db: Database, specs: seq<TableSpec>, version: SmallInt, db': Database) {
    if specs == [] then db' == db
    else exists mid ::
      && Swept(c, db, specs[..|specs| - 1], version, mid)
      && Committed(c, mid, Last(specs), version, db')
  }
}
