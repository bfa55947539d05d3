/** What a rotation guarantees over whole runs: secrets survive any number of interrupted
    attempts, a completed rotation is a fixed point, and the three modes tell one story. */
module RekeyTheorems {
  import opened Prelude
  import opened Aes
  import opened RekeyModel
  import opened RekeySweep
  import Hex

  /** Which encoding each column of each table uses. */
  type Schema = map<(string, string), Encoding>

  predicate Conforms(spec: TableSpec, schema: Schema) {
    && WellFormed(spec)
    && (forall i :: 0 <= i < |spec.columns| ==>
          (spec.table, spec.columns[i].name) in schema &&
          schema[(spec.table, spec.columns[i].name)] == spec.columns[i].encoding)
  }

  predicate AllConform(specs: seq<TableSpec>, schema: Schema) {
    forall i :: 0 <= i < |specs| ==> Conforms(specs[i], schema)
  }

  // ----- Cells -----

  /** What the cell yields to a service that only has the new key. */
  function NewSecret(c: Crypto, encoding: Encoding, cell: Cell): Option<Bytes> {
    match Read(encoding, cell)
    case Cipher(b) => Decrypt(c.gcm, b, c.newKey)
    case _ => None
  }

  /** What the cell is worth before the rotation is complete: the new key is tried first. */
  function Secret(c: Crypto, encoding: Encoding, cell: Cell): Option<Bytes> {
    match Read(encoding, cell)
    case Cipher(b) => if OnNewKey(c, b) then Decrypt(c.gcm, b, c.newKey) else Decrypt(c.gcm, b, c.oldKey)
    case _ => None
  }

  lemma SealedReads(c: Crypto, encoding: Encoding, plain: Bytes, cell: Cell)
    requires Lawful(c.gcm) && |c.newKey| == KEY_SIZE && Sealed(c, encoding, plain, cell)
    ensures NewSecret(c, encoding, cell) == Some(plain) && PlanCell(c, encoding, cell) == Keep
  {
    var n: Nonce :| cell == Written(encoding, V1Blob(c.gcm, c.newKey, n, plain));
    var blob := V1Blob(c.gcm, c.newKey, n, plain);
    DecryptInvertsEncrypt(c.gcm, plain, c.newKey, n);
    Hex.DecodeInvertsEncode(blob);
    assert |Hex.Encode(blob)| == 2 * |blob| > 0;
  }

  /** A cell is untouched, or it was on the old key and now holds the same text under the
      new one. */
  ghost predicate CellEvolves(c: Crypto, encoding: Encoding, cell: Cell, cell': Cell) {
    || cell' == cell
    || (PlanCell(c, encoding, cell).Renew? && Sealed(c, encoding, PlanCell(c, encoding, cell).plain, cell'))
  }

  lemma CellEvolvesFurther(c: Crypto, encoding: Encoding, cell: Cell, mid: Cell, cell': Cell)
    requires Lawful(c.gcm) && CellEvolves(c, encoding, cell, mid) && CellEvolves(c, encoding, mid, cell')
    ensures CellEvolves(c, encoding, cell, cell')
  {
    if mid != cell {
      SealedReads(c, encoding, PlanCell(c, encoding, cell).plain, mid);
    }
  }

  /** The secret of a cell never changes while it evolves, and a cell on the new key stays
      as it is, byte for byte. */
  lemma CellEvolvesKeepsSecret(c: Crypto, encoding: Encoding, cell: Cell, cell': Cell)
    requires Lawful(c.gcm) && CellEvolves(c, encoding, cell, cell')
    ensures Secret(c, encoding, cell') == Secret(c, encoding, cell)
    ensures NewSecret(c, encoding, cell).Some? ==> cell' == cell
    ensures PlanCell(c, encoding, cell').Reject? ==> cell' == cell
    ensures PlanCell(c, encoding, cell').Renew? ==> cell' == cell
    ensures cell'.Value? == cell.Value?
  {
    if cell' != cell {
      SealedReads(c, encoding, PlanCell(c, encoding, cell).plain, cell');
    }
  }

  // ----- Databases -----

  ghost predicate SameShape(db: Database, db': Database) {
    && db'.Keys == db.Keys
    && (forall table :: table in db ==>
          db'[table].columns == db[table].columns && db'[table].rows.Keys == db[table].rows.Keys)
  }

  /** Every declared cell has evolved, and no other cell has changed. */
  ghost predicate Evolves(c: Crypto, schema: Schema, db: Database, db': Database) {
    && SameShape(db, db')
    && (forall table, pk, name :: table in db && pk in db[table].rows ==>
          EvolvesAt(c, schema, table, name, CellAt(db[table].rows[pk], name), CellAt(db'[table].rows[pk], name)))
  }

  ghost predicate EvolvesAt(c: Crypto, schema: Schema, table: string, name: string, cell: Cell, cell': Cell) {
    if (table, name) in schema then CellEvolves(c, schema[(table, name)], cell, cell') else cell' == cell
  }

  lemma CommittedEvolves(c: Crypto, schema: Schema, db: Database, spec: TableSpec, version: SmallInt, db': Database)
    requires Conforms(spec, schema) && Committed(c, db, spec, version, db')
    ensures Evolves(c, schema, db, db')
  {
    forall table, pk, name | table in db && pk in db[table].rows
      ensures EvolvesAt(c, schema, table, name, CellAt(db[table].rows[pk], name), CellAt(db'[table].rows[pk], name))
    {
      if table == spec.table && pk in StaleRows(c, db[table], spec) && name in Names(spec) {
        var i :| 0 <= i < |spec.columns| && spec.columns[i].name == name;
        assert CellRotated(c, spec.columns[i].encoding,
                           CellAt(db[table].rows[pk], name), CellAt(db'[table].rows[pk], name));
      }
    }
  }

  lemma EvolvesFurther(c: Crypto, schema: Schema, db: Database, mid: Database, db': Database)
    requires Lawful(c.gcm) && Evolves(c, schema, db, mid) && Evolves(c, schema, mid, db')
    ensures Evolves(c, schema, db, db')
  {
    forall table, pk, name | table in db && pk in db[table].rows
      ensures EvolvesAt(c, schema, table, name, CellAt(db[table].rows[pk], name), CellAt(db'[table].rows[pk], name))
    {
      var cell, cell1, cell2 := CellAt(db[table].rows[pk], name), CellAt(mid[table].rows[pk], name), CellAt(db'[table].rows[pk], name);
      assert EvolvesAt(c, schema, table, name, cell, cell1) && EvolvesAt(c, schema, table, name, cell1, cell2);
      if (table, name) in schema {
        CellEvolvesFurther(c, schema[(table, name)], cell, cell1, cell2);
      }
    }
  }

  lemma {:induction false} SweptEvolves(c: Crypto, schema: Schema, db: Database, specs: seq<TableSpec>, version: SmallInt, db': Database)
    requires Lawful(c.gcm) && AllConform(specs, schema) && Swept(c, db, specs, version, db')
    ensures Evolves(c, schema, db, db')
  {
    if specs != [] {
      var front := specs[..|specs| - 1];
      var mid :| Swept(c, db, front, version, mid) && Committed(c, mid, Last(specs), version, db');
      SweptEvolves(c, schema, db, front, version, mid);
      CommittedEvolves(c, schema, mid, Last(specs), version, db');
      EvolvesFurther(c, schema, db, mid, db');
    }
  }

  // ----- Completion -----

  /** Every cell of the row is empty or on the new key. */
  predicate RowSettled(c: Crypto, row: Row, spec: TableSpec) {
    Candidate(row, spec) ==>
      forall i :: 0 <= i < |spec.columns| ==>
        PlanCell(c, spec.columns[i].encoding, CellAt(row, spec.columns[i].name)) == Keep
  }

  predicate Settled(c: Crypto, db: Database, spec: TableSpec) {
    spec.table in db ==> forall pk :: pk in db[spec.table].rows ==> RowSettled(c, db[spec.table].rows[pk], spec)
  }

  lemma RowRotatedSettles(c: Crypto, row: Row, spec: TableSpec, version: SmallInt, row': Row)
    requires Lawful(c.gcm) && RowRotated(c, row, spec, version, row')
    requires Candidate(row, spec) && !RowRejected(c, row, spec)
    ensures RowSettled(c, row', spec)
  {
    forall i | 0 <= i < |spec.columns|
      ensures PlanCell(c, spec.columns[i].encoding, CellAt(row', spec.columns[i].name)) == Keep
    {
      var encoding, cell := spec.columns[i].encoding, CellAt(row, spec.columns[i].name);
      assert CellRotated(c, encoding, cell, CellAt(row', spec.columns[i].name));
      if PlanCell(c, encoding, cell).Renew? {
        SealedReads(c, encoding, PlanCell(c, encoding, cell).plain, CellAt(row', spec.columns[i].name));
      }
    }
  }

  lemma CommittedSettles(c: Crypto, db: Database, spec: TableSpec, version: SmallInt, db': Database)
    requires Lawful(c.gcm) && Committed(c, db, spec, version, db')
    ensures Settled(c, db', spec)
  {
    if spec.table in db {
      var t := db[spec.table];
      forall pk | pk in t.rows
        ensures RowSettled(c, db'[spec.table].rows[pk], spec)
      {
        StaleIsCandidate(c, t.rows[pk], spec);
        if pk in StaleRows(c, t, spec) {
          RowRotatedSettles(c, t.rows[pk], spec, version, db'[spec.table].rows[pk]);
        }
      }
    }
  }

  /** An evolution keeps what is settled, and turns no acceptable row into a rejected one. */
  lemma RowEvolves(c: Crypto, schema: Schema, db: Database, db': Database, spec: TableSpec, pk: string)
    requires Lawful(c.gcm) && Conforms(spec, schema) && Evolves(c, schema, db, db')
    requires spec.table in db && pk in db[spec.table].rows
    ensures var row, row' := db[spec.table].rows[pk], db'[spec.table].rows[pk];
            && (Candidate(row', spec) <==> Candidate(row, spec))
            && (RowSettled(c, row, spec) ==> RowSettled(c, row', spec))
            && (RowRejected(c, row', spec) ==> RowRejected(c, row, spec))
            && (RowStale(c, row', spec) ==> RowStale(c, row, spec))
  {
    var row, row' := db[spec.table].rows[pk], db'[spec.table].rows[pk];
    forall i | 0 <= i < |spec.columns|
      ensures CellAt(row', spec.columns[i].name).Value? == CellAt(row, spec.columns[i].name).Value?
      ensures var plan := PlanCell(c, spec.columns[i].encoding, CellAt(row', spec.columns[i].name));
              plan != Keep ==> CellAt(row', spec.columns[i].name) == CellAt(row, spec.columns[i].name)
    {
      var name := spec.columns[i].name;
      assert EvolvesAt(c, schema, spec.table, name, CellAt(row, name), CellAt(row', name));
      CellEvolvesKeepsSecret(c, spec.columns[i].encoding, CellAt(row, name), CellAt(row', name));
    }
  }

  lemma SettledStays(c: Crypto, schema: Schema, db: Database, db': Database, spec: TableSpec)
    requires Lawful(c.gcm) && Conforms(spec, schema) && Evolves(c, schema, db, db') && Settled(c, db, spec)
    ensures Settled(c, db', spec)
  {
    if spec.table in db {
      forall pk | pk in db[spec.table].rows { RowEvolves(c, schema, db, db', spec, pk); }
    }
  }

  lemma SettledThroughCommit(c: Crypto, schema: Schema, db: Database, spec: TableSpec, version: SmallInt,
                             db': Database, earlier: TableSpec)
    requires Lawful(c.gcm) && Conforms(spec, schema) && Conforms(earlier, schema)
    requires Committed(c, db, spec, version, db') && Settled(c, db, earlier)
    ensures Settled(c, db', earlier)
  {
    CommittedEvolves(c, schema, db, spec, version, db');
    SettledStays(c, schema, db, db', earlier);
  }

  /** After a complete sweep every spec is settled, the early ones included. */
  lemma {:induction false} SweptSettles(c: Crypto, schema: Schema, db: Database, specs: seq<TableSpec>, version: SmallInt,
                                        db': Database, i: nat)
    requires Lawful(c.gcm) && AllConform(specs, schema) && Swept(c, db, specs, version, db') && i < |specs|
    ensures Settled(c, db', specs[i])
  {
    var front := specs[..|specs| - 1];
    var mid :| Swept(c, db, front, version, mid) && Committed(c, mid, Last(specs), version, db');
    if i < |front| {
      SweptSettles(c, schema, db, front, version, mid, i);
    }
    SettledStep(c, schema, mid, specs, version, db', i);
  }

  lemma SettledStep(c: Crypto, schema: Schema, db: Database, specs: seq<TableSpec>, version: SmallInt, db': Database, i: nat)
    requires Lawful(c.gcm) && AllConform(specs, schema) && i < |specs| && Committed(c, db, Last(specs), version, db')
    requires i < |specs| - 1 ==> Settled(c, db, specs[i])
    ensures Settled(c, db', specs[i])
  {
    if i == |specs| - 1 {
      CommittedSettles(c, db, Last(specs), version, db');
    } else {
      SettledThroughCommit(c, schema, db, Last(specs), version, db', specs[i]);
    }
  }

  // ----- Resuming -----

  /** Any number of attempts, each cut short after some prefix of the specs, each with its
      own version stamp. */
  ghost predicate Attempted(c: Crypto, db: Database, specs: seq<TableSpec>, attempts: seq<(nat, SmallInt)>, db': Database) {
    if attempts == [] then db' == db
    else exists mid :: Attempted(c, db, specs, attempts[1..], mid) && Cut(c, mid, specs, attempts[0], db')
  }

  ghost predicate Cut(c: Crypto, db: Database, specs: seq<TableSpec>, attempt: (nat, SmallInt), db': Database) {
    attempt.0 <= |specs| && Swept(c, db, specs[..attempt.0], attempt.1, db')
  }

  /** However a rotation ends, what it leaves behind is one cut: of as many specs as it
      completed, and of one more when the acknowledgement of a commit was lost. */
  lemma StoppedSweepIsCut(c: Crypto, db: Database, specs: seq<TableSpec>, version: SmallInt, done: nat, db': Database, rep: Report)
    returns (cut: nat)
    requires Underway(c, Rotate, db, specs, version, done, db', rep) || AckWasLost(c, db, specs, version, done, db', rep)
    ensures Cut(c, db, specs, (cut, version), db') && done <= cut <= done + 1
    ensures !AckWasLost(c, db, specs, version, done, db', rep) ==> cut == done
  {
    if Underway(c, Rotate, db, specs, version, done, db', rep) {
      cut := done;
    } else {
      LostCommitIsSwept(c, db, specs, version, done, db', rep);
      cut := done + 1;
    }
  }

  lemma LostCommitIsSwept(c: Crypto, db: Database, specs: seq<TableSpec>, version: SmallInt, done: nat, db': Database, rep: Report)
    requires AckWasLost(c, db, specs, version, done, db', rep)
    ensures Swept(c, db, specs[..done + 1], version, db')
  {
    var mid :| Underway(c, Rotate, db, specs, version, done, mid, rep) && Committed(c, mid, specs[done], version, db');
    OneMoreSwept(c, db, specs, version, done, mid, db');
  }

  lemma OneMoreSwept(c: Crypto, db: Database, specs: seq<TableSpec>, version: SmallInt, done: nat, mid: Database, db': Database)
    requires done < |specs| && Swept(c, db, specs[..done], version, mid) && Committed(c, mid, specs[done], version, db')
    ensures Swept(c, db, specs[..done + 1], version, db')
  {
    assert specs[..done + 1] == specs[..done] + [specs[done]];
    SweptAppend(c, db, specs[..done], specs[done], version, mid, db');
  }

  /** Attempts can be added one at a time. */
  lemma AttemptedFurther(c: Crypto, db: Database, specs: seq<TableSpec>, attempts: seq<(nat, SmallInt)>, mid: Database,
                         attempt: (nat, SmallInt), db': Database)
    requires Attempted(c, db, specs, attempts, mid) && Cut(c, mid, specs, attempt, db')
    ensures Attempted(c, db, specs, [attempt] + attempts, db')
  {
    assert ([attempt] + attempts)[1..] == attempts;
  }

  /** Data that passes at the start passes at every cut: a rotation never gets stuck on its own
      earlier work. */
  lemma PassingDataStaysPassing(c: Crypto, schema: Schema, db: Database, specs: seq<TableSpec>,
                                attempt: (nat, SmallInt), db': Database, i: nat)
    requires Lawful(c.gcm) && AllConform(specs, schema) && Cut(c, db, specs, attempt, db')
    requires i < |specs| && Passes(c, Rotate, db, specs[i])
    ensures Passes(c, Rotate, db', specs[i])
  {
    assert Attempted(c, db, specs, [], db);
    AttemptedFurther(c, db, specs, [], db, attempt, db');
    RetryStaysPossible(c, schema, db, specs, [attempt] + [], db', specs[i]);
  }

  lemma {:induction false} AttemptedEvolves(c: Crypto, schema: Schema, db: Database, specs: seq<TableSpec>,
                                            attempts: seq<(nat, SmallInt)>, db': Database)
    requires Lawful(c.gcm) && AllConform(specs, schema) && Attempted(c, db, specs, attempts, db')
    ensures Evolves(c, schema, db, db')
  {
    if attempts != [] {
      var mid :| Attempted(c, db, specs, attempts[1..], mid) && Cut(c, mid, specs, attempts[0], db');
      AttemptedEvolves(c, schema, db, specs, attempts[1..], mid);
      SweptEvolves(c, schema, mid, specs[..attempts[0].0], attempts[0].1, db');
      EvolvesFurther(c, schema, db, mid, db');
    }
  }

  /** A rotation that fails on no data cannot start to fail on data because earlier attempts
      were cut short. */
  lemma RetryStaysPossible(c: Crypto, schema: Schema, db: Database, specs: seq<TableSpec>,
                           attempts: seq<(nat, SmallInt)>, db': Database, spec: TableSpec)
    requires Lawful(c.gcm) && AllConform(specs, schema) && Attempted(c, db, specs, attempts, db')
    requires Conforms(spec, schema) && Passes(c, Rotate, db, spec)
    ensures Passes(c, Rotate, db', spec)
  {
    AttemptedEvolves(c, schema, db, specs, attempts, db');
    if spec.table in db {
      forall pk | pk in db[spec.table].rows { RowEvolves(c, schema, db, db', spec, pk); }
      assert StaleRows(c, db'[spec.table], spec) <= StaleRows(c, db[spec.table], spec);
    }
  }

  /** The rotation of one cell is complete and faithful: what a service now reads with the
      new key is what the cell was worth before, a cell that was on the new key is the same
      bytes, and an empty cell is still that empty cell. */
  predicate FaithfullyRotated(c: Crypto, encoding: Encoding, cell: Cell, cell': Cell) {
    && NewSecret(c, encoding, cell') == Secret(c, encoding, cell)
    && (NewSecret(c, encoding, cell).Some? || Read(encoding, cell).Nothing? ==> cell' == cell)
    && (Read(encoding, cell).Cipher? <==> NewSecret(c, encoding, cell').Some?)
  }

  /** Resuming is as good as never having been interrupted: after any number of cut-short
      attempts followed by one complete sweep, every cell reads under the new key exactly as
      it would have after a single uninterrupted sweep. */
  lemma ResumingIsFaithful(c: Crypto, schema: Schema, db: Database, specs: seq<TableSpec>,
                           attempts: seq<(nat, SmallInt)>, mid: Database, version: SmallInt, resumed: Database,
                           version': SmallInt, straight: Database, i: nat, pk: string, j: nat)
    requires Lawful(c.gcm) && AllConform(specs, schema)
    requires Attempted(c, db, specs, attempts, mid) && Swept(c, mid, specs, version, resumed)
    requires Swept(c, db, specs, version', straight)
    requires i < |specs| && j < |specs[i].columns| && specs[i].table in db
    requires pk in db[specs[i].table].rows && Candidate(db[specs[i].table].rows[pk], specs[i])
    ensures SameShape(db, resumed) && SameShape(db, straight)
    ensures var col := specs[i].columns[j];
            var cell := CellAt(db[specs[i].table].rows[pk], col.name);
            var a := CellAt(resumed[specs[i].table].rows[pk], col.name);
            var b := CellAt(straight[specs[i].table].rows[pk], col.name);
            && FaithfullyRotated(c, col.encoding, cell, a)
            && FaithfullyRotated(c, col.encoding, cell, b)
            && NewSecret(c, col.encoding, a) == NewSecret(c, col.encoding, b)
  {
    AttemptedEvolves(c, schema, db, specs, attempts, mid);
    SweptEvolves(c, schema, mid, specs, version, resumed);
    EvolvesFurther(c, schema, db, mid, resumed);
    SweptSettles(c, schema, mid, specs, version, resumed, i);
    SweptEvolves(c, schema, db, specs, version', straight);
    SweptSettles(c, schema, db, specs, version', straight, i);
    SettledIsFaithful(c, schema, db, resumed, specs[i], pk, j);
    SettledIsFaithful(c, schema, db, straight, specs[i], pk, j);
  }

  lemma SettledIsFaithful(c: Crypto, schema: Schema, db: Database, db': Database, spec: TableSpec, pk: string, j: nat)
    requires Lawful(c.gcm) && Conforms(spec, schema) && Evolves(c, schema, db, db') && Settled(c, db', spec)
    requires j < |spec.columns| && spec.table in db && pk in db[spec.table].rows
    requires Candidate(db[spec.table].rows[pk], spec)
    ensures FaithfullyRotated(c, spec.columns[j].encoding, CellAt(db[spec.table].rows[pk], spec.columns[j].name),
                              CellAt(db'[spec.table].rows[pk], spec.columns[j].name))
  {
    var col := spec.columns[j];
    var cell, cell' := CellAt(db[spec.table].rows[pk], col.name), CellAt(db'[spec.table].rows[pk], col.name);
    RowEvolves(c, schema, db, db', spec, pk);
    assert EvolvesAt(c, schema, spec.table, col.name, cell, cell');
    CellEvolvesKeepsSecret(c, col.encoding, cell, cell');
    assert PlanCell(c, col.encoding, cell') == Keep;
    if cell' != cell {
      SealedReads(c, col.encoding, PlanCell(c, col.encoding, cell).plain, cell');
    }
  }

  // ----- A completed rotation is a fixed point -----

  lemma SettledIsQuiet(c: Crypto, db: Database, spec: TableSpec)
    requires Settled(c, db, spec) && spec.table in db
    ensures StaleRows(c, db[spec.table], spec) == {} && RowsBehind(c, db[spec.table], spec) == {}
    ensures Scannable(db[spec.table], spec)
  {
    var t := db[spec.table];
    forall pk | pk in t.rows
      ensures !RowStale(c, t.rows[pk], spec) && !RowBehind(c, t.rows[pk], spec) && !RowUnscannable(t.rows[pk], spec)
    {
      assert RowSettled(c, t.rows[pk], spec);
      StaleIsCandidate(c, t.rows[pk], spec);
    }
  }

  lemma SettledCommitsNothing(c: Crypto, db: Database, spec: TableSpec, version: SmallInt, db': Database)
    requires Settled(c, db, spec) && Committed(c, db, spec, version, db')
    ensures db' == db
  {
    if spec.table in db {
      SettledIsQuiet(c, db, spec);
      assert db'[spec.table].rows == db[spec.table].rows;
    }
  }

  lemma {:induction false} SettledSweepsNothing(c: Crypto, db: Database, specs: seq<TableSpec>, version: SmallInt, db': Database)
    requires forall i :: 0 <= i < |specs| ==> Settled(c, db, specs[i])
    requires Swept(c, db, specs, version, db')
    ensures db' == db
  {
    if specs != [] {
      var front := specs[..|specs| - 1];
      var mid :| Swept(c, db, front, version, mid) && Committed(c, mid, Last(specs), version, db');
      assert forall i :: 0 <= i < |front| ==> front[i] == specs[i];
      SettledSweepsNothing(c, db, front, version, mid);
      SettledCommitsNothing(c, db, Last(specs), version, db');
    }
  }

  lemma {:induction false} SettledReportsZero(c: Crypto, mode: Mode, db: Database, specs: seq<TableSpec>)
    requires forall i :: 0 <= i < |specs| ==> Settled(c, db, specs[i])
    ensures var rep := Expected(c, mode, db, specs);
            rep.rowsRotated == 0 && rep.rowsOnOldKey == 0
  {
    if specs != [] {
      var front := specs[..|specs| - 1];
      assert forall i :: 0 <= i < |front| ==> front[i] == specs[i];
      SettledReportsZero(c, mode, db, front);
      if Last(specs).table in db {
        SettledIsQuiet(c, db, Last(specs));
      }
    }
  }

  /** A successful rotation followed by verify reports zero, and a second rotation changes
      nothing and reports zero. */
  lemma RotationIsFinal(c: Crypto, schema: Schema, db: Database, specs: seq<TableSpec>, version: SmallInt, db': Database)
    requires Lawful(c.gcm) && AllConform(specs, schema) && Swept(c, db, specs, version, db')
    ensures Expected(c, Verify, db', specs).rowsOnOldKey == 0
    ensures Expected(c, Rotate, db', specs).rowsRotated == 0
    ensures forall version', db'' :: Swept(c, db', specs, version', db'') ==> db'' == db'
  {
    forall i | 0 <= i < |specs|
      ensures Settled(c, db', specs[i])
    {
      SweptSettles(c, schema, db, specs, version, db', i);
    }
    SettledReportsZero(c, Verify, db', specs);
    SettledReportsZero(c, Rotate, db', specs);
    forall version': SmallInt, db'' | Swept(c, db', specs, version', db'')
      ensures db'' == db'
    {
      SettledSweepsNothing(c, db', specs, version', db'');
    }
  }

  /** Where verify does not fail, it reports zero exactly when every cell of every candidate
      row is empty or decrypts under the new key. */
  lemma {:induction false} VerifyZeroMeansSettled(c: Crypto, db: Database, specs: seq<TableSpec>)
    requires forall i :: 0 <= i < |specs| ==> Acceptable(c, Verify, db, specs[i])
    ensures Expected(c, Verify, db, specs).rowsOnOldKey == 0 <==>
            forall i :: 0 <= i < |specs| ==> Settled(c, db, specs[i])
  {
    if specs != [] {
      var front, spec := specs[..|specs| - 1], Last(specs);
      assert forall i :: 0 <= i < |front| ==> front[i] == specs[i];
      VerifyZeroMeansSettled(c, db, front);
      assert specs[|front|] == spec;
      NoneBehindMeansSettled(c, db, spec);
    }
  }

  lemma NoneBehindMeansSettled(c: Crypto, db: Database, spec: TableSpec)
    requires Acceptable(c, Verify, db, spec)
    ensures Settled(c, db, spec) <==> (spec.table in db ==> |RowsBehind(c, db[spec.table], spec)| == 0)
  {
    if Settled(c, db, spec) && spec.table in db {
      SettledIsQuiet(c, db, spec);
    } else if spec.table in db && RowsBehind(c, db[spec.table], spec) == {} {
      forall pk | pk in db[spec.table].rows
        ensures RowSettled(c, db[spec.table].rows[pk], spec)
      {
        var row := db[spec.table].rows[pk];
        assert pk !in RowsBehind(c, db[spec.table], spec) && !RowUnscannable(row, spec);
      }
    }
  }

  // ----- The modes agree -----

  lemma HealthyStaleIsBehind(c: Crypto, t: Table, spec: TableSpec)
    requires NoRejection(c, t, spec)
    ensures StaleRows(c, t, spec) == RowsBehind(c, t, spec)
  {
    forall pk | pk in t.rows
      ensures RowStale(c, t.rows[pk], spec) <==> RowBehind(c, t.rows[pk], spec)
    {
      var row := t.rows[pk];
      StaleIsCandidate(c, row, spec);
      assert !RowRejected(c, row, spec);
      if RowBehind(c, row, spec) {
        var i :| 0 <= i < |spec.columns| && CellBehind(c, spec.columns[i].encoding, CellAt(row, spec.columns[i].name));
        assert PlanCell(c, spec.columns[i].encoding, CellAt(row, spec.columns[i].name)).Renew?;
      }
      if RowStale(c, row, spec) {
        var i :| 0 <= i < |spec.columns| &&
                 PlanCell(c, spec.columns[i].encoding, CellAt(row, spec.columns[i].name)).Renew?;
        assert CellBehind(c, spec.columns[i].encoding, CellAt(row, spec.columns[i].name));
      }
    }
  }

  /** On data that a dry run accepts, the dry run, verify and rotate report the same numbers,
      table by table and in total. */
  lemma {:induction false} ModesAgree(c: Crypto, db: Database, specs: seq<TableSpec>)
    requires forall i :: 0 <= i < |specs| ==> Healthy(c, db, specs[i])
    ensures Expected(c, DryRun, db, specs) == Expected(c, Rotate, db, specs)
    ensures Expected(c, DryRun, db, specs).rowsRotated == Expected(c, Verify, db, specs).rowsOnOldKey
    ensures Expected(c, DryRun, db, specs).perTable == Expected(c, Verify, db, specs).perTable
  {
    if specs != [] {
      var front, spec := specs[..|specs| - 1], Last(specs);
      assert forall i :: 0 <= i < |front| ==> front[i] == specs[i];
      ModesAgree(c, db, front);
      assert spec == specs[|front|];
      if spec.table in db {
        HealthyStaleIsBehind(c, db[spec.table], spec);
      }
    }
  }

  // ----- Reports and prefixes -----

  ghost function TableTotal(specs: seq<TableSpec>, perTable: map<string, nat>): nat {
    if specs == [] then 0
    else TableTotal(specs[..|specs| - 1], perTable) + (if Last(specs).table in perTable then perTable[Last(specs).table] else 0)
  }

  lemma {:induction false} TableTotalFrame(specs: seq<TableSpec>, perTable: map<string, nat>, table: string, n: nat)
    requires forall i :: 0 <= i < |specs| ==> specs[i].table != table
    ensures TableTotal(specs, perTable[table := n]) == TableTotal(specs, perTable)
  {
    if specs != [] {
      assert Last(specs) == specs[|specs| - 1];
      TableTotalFrame(specs[..|specs| - 1], perTable, table, n);
    }
  }

  /** With distinct table names the total is the sum of the per-table counts. */
  lemma {:induction false} ReportAddsUp(c: Crypto, db: Database, specs: seq<TableSpec>)
    requires DistinctTables(specs)
    ensures var rep := Expected(c, Rotate, db, specs);
            && rep.rowsRotated == TableTotal(specs, rep.perTable)
            && (forall table :: table in rep.perTable ==> exists i :: 0 <= i < |specs| && specs[i].table == table)
  {
    if specs != [] {
      var front, spec := specs[..|specs| - 1], Last(specs);
      assert forall i :: 0 <= i < |front| ==> front[i] == specs[i];
      ReportAddsUp(c, db, front);
      var rep := Expected(c, Rotate, db, front);
      assert spec == specs[|front|];
      forall i | 0 <= i < |front|
        ensures front[i].table != spec.table
      {
        assert specs[i].table != specs[|front|].table;
      }
      if spec.table in db {
        TableTotalFrame(front, rep.perTable, spec.table, Owed(c, Rotate, db[spec.table], spec));
      }
    }
  }

  /** A rotation that stops early leaves an exact prefix: what it committed is settled, the
      later tables are untouched. */
  lemma CutIsExactPrefix(c: Crypto, schema: Schema, db: Database, specs: seq<TableSpec>, version: SmallInt,
                                   done: nat, db': Database, i: nat)
    requires Lawful(c.gcm) && AllConform(specs, schema) && DistinctTables(specs)
    requires done <= |specs| && Swept(c, db, specs[..done], version, db') && i < |specs| && specs[i].table in db
    ensures db'.Keys == db.Keys
    ensures if i < done then Settled(c, db', specs[i]) else db'[specs[i].table] == db[specs[i].table]
  {
    SweptFrame(c, db, specs[..done], version, db');
    if i < done {
      SweptSettles(c, schema, db, specs[..done], version, db', i);
    }
  }

  /** The same, of whatever way a rotation may stop: the table it stopped at is untouched, or
      finished when the acknowledgement of its commit was lost. */
  lemma StoppedRotateIsExactPrefix(c: Crypto, schema: Schema, db: Database, specs: seq<TableSpec>, version: SmallInt,
                                   done: nat, db': Database, rep: Report, i: nat)
    requires Lawful(c.gcm) && AllConform(specs, schema) && DistinctTables(specs)
    requires Underway(c, Rotate, db, specs, version, done, db', rep) || AckWasLost(c, db, specs, version, done, db', rep)
    requires i < |specs| && specs[i].table in db
    ensures db'.Keys == db.Keys && rep == Expected(c, Rotate, db, specs[..done])
    ensures i < done ==> Settled(c, db', specs[i])
    ensures i > done ==> db'[specs[i].table] == db[specs[i].table]
    ensures i == done ==>
              || db'[specs[i].table] == db[specs[i].table]
              || (Settled(c, db', specs[i]) && AckWasLost(c, db, specs, version, done, db', rep))
  {
    var cut := StoppedSweepIsCut(c, db, specs, version, done, db', rep);
    CutIsExactPrefix(c, schema, db, specs, version, cut, db', i);
  }

  // ----- Generation stamps -----

  ghost predicate StampsFor(specs: seq<TableSpec>, table: string, version: SmallInt, row: Row) {
    exists i :: && 0 <= i < |specs|
                && specs[i].table == table
                && specs[i].versionColumn in row.versions
                && row.versions[specs[i].versionColumn] == version
  }

  /** The row is unchanged or carries the run's version, and every stamp is that version or
      the one it was. */
  ghost predicate StampedBy(specs: seq<TableSpec>, table: string, version: SmallInt, row: Row, row': Row) {
    && (row' == row || StampsFor(specs, table, version, row'))
    && (forall col :: col in row'.versions ==>
          row'.versions[col] == version || (col in row.versions && row'.versions[col] == row.versions[col]))
  }

  /** One run stamps every row it changes, with the run's version, and leaves the stamps of
      the others alone; no stamp of any row is anything but its old value or that version. */
  lemma {:induction false} ChangedRowsAreStamped(c: Crypto, db: Database, specs: seq<TableSpec>, version: SmallInt,
                                                 db': Database, table: string, pk: string)
    requires Swept(c, db, specs, version, db') && table in db && pk in db[table].rows
    ensures table in db' && pk in db'[table].rows
    ensures StampedBy(specs, table, version, db[table].rows[pk], db'[table].rows[pk])
  {
    if specs != [] {
      var front, spec := specs[..|specs| - 1], Last(specs);
      var mid: Database :| Swept(c, db, front, version, mid) && Committed(c, mid, spec, version, db');
      ChangedRowsAreStamped(c, db, front, version, mid, table, pk);
      CommitStamps(c, mid, spec, version, db', table, pk);
      StampedByMore(specs, table, version, db[table].rows[pk], mid[table].rows[pk], db'[table].rows[pk]);
    }
  }

  lemma StampedByMore(specs: seq<TableSpec>, table: string, version: SmallInt, row: Row, mid: Row, row': Row)
    requires specs != [] && StampedBy(specs[..|specs| - 1], table, version, row, mid)
    requires row' == mid ||
             (table == Last(specs).table && row'.versions == mid.versions[Last(specs).versionColumn := version])
    ensures StampedBy(specs, table, version, row, row')
  {
    StampsForMore(specs, table, version, row');
  }

  lemma CommitStamps(c: Crypto, db: Database, spec: TableSpec, version: SmallInt, db': Database, table: string, pk: string)
    requires Committed(c, db, spec, version, db') && table in db && pk in db[table].rows
    ensures table in db' && pk in db'[table].rows
    ensures var row, row' := db[table].rows[pk], db'[table].rows[pk];
            row' == row || (table == spec.table && row'.versions == row.versions[spec.versionColumn := version])
  {
  }

  lemma StampsForMore(specs: seq<TableSpec>, table: string, version: SmallInt, row: Row)
    requires specs != []
    ensures StampsFor(specs[..|specs| - 1], table, version, row) ==> StampsFor(specs, table, version, row)
    ensures (&& Last(specs).table == table && Last(specs).versionColumn in row.versions
             && row.versions[Last(specs).versionColumn] == version) ==> StampsFor(specs, table, version, row)
  {
    assert forall i :: 0 <= i < |specs| - 1 ==> specs[..|specs| - 1][i] == specs[i];
  }

  /** In auto mode, below the top of the range, the run's version is above every stamp that
      was stored, so after the run the stamps it wrote are told apart from all older ones. */
  lemma FreshVersionMarksExactlyTheChangedRows(c: Crypto, db: Database, specs: seq<TableSpec>, top: SmallInt,
                                               db': Database, i: nat, pk: string)
    requires TopStamp(db, specs, top) && top < MAX_VERSION
    requires Swept(c, db, specs, Narrow(top + 1), db')
    requires i < |specs| && specs[i].table in db && pk in db[specs[i].table].rows
    requires forall j :: 0 <= j < |specs| && specs[j].table == specs[i].table ==>
               specs[j].versionColumn == specs[i].versionColumn
    ensures specs[i].table in db' && pk in db'[specs[i].table].rows
    ensures var row, row' := db[specs[i].table].rows[pk], db'[specs[i].table].rows[pk];
            var col := specs[i].versionColumn;
            && (row' != row <==> col in row'.versions && row'.versions[col] > top)
            && (row' != row ==> row'.versions[col] == top + 1)
  {
    ChangedRowsAreStamped(c, db, specs, Narrow(top + 1), db', specs[i].table, pk);
    assert AtMost(db[specs[i].table], specs[i].versionColumn, top);
  }

  // ----- Nonces -----

  /** The nonce of a ciphertext in the current layout. */
  function NonceIn(encoding: Encoding, cell: Cell): Bytes {
    match Read(encoding, cell)
    case Cipher(b) => if |b| >= 13 then b[1..13] else []
    case _ => []
  }

  lemma WrittenNonce(c: Crypto, random: nat -> Option<Nonce>, o: Origin)
    requires random(o.draw).Some?
    ensures NonceIn(o.encoding, Written(o.encoding, Drawn(c, random, o))) == random(o.draw).value
  {
    var blob := Drawn(c, random, o);
    Hex.DecodeInvertsEncode(blob);
    assert |Hex.Encode(blob)| == 2 * |blob| > 0;
    assert blob[1..13] == random(o.draw).value;
  }

  /** Two cells that one sweep has changed carry the nonces of two different draws of it, so
      they carry the same nonce exactly when the random source has repeated itself. */
  lemma NoncesRepeatExactlyWhenDrawsDo(c: Crypto, random: nat -> Option<Nonce>, db: Database, db': Database,
                                       origins: Origins, from: nat, to: nat, p: Place, q: Place)
    requires Sourced(c, random, db, db', origins, from, to) && p != q
    requires CellIn(db', p) != CellIn(db, p) && CellIn(db', q) != CellIn(db, q)
    ensures p in origins && q in origins
    ensures var i, j := origins[p].draw, origins[q].draw;
            && from <= i < to && from <= j < to && i != j
            && random(i).Some? && random(j).Some?
            && NonceIn(origins[p].encoding, CellIn(db', p)) == random(i).value
            && (NonceIn(origins[p].encoding, CellIn(db', p)) == NonceIn(origins[q].encoding, CellIn(db', q))
                <==> random(i) == random(j))
  {
    WrittenNonce(c, random, origins[p]);
    WrittenNonce(c, random, origins[q]);
  }

  // ----- What a row's cells decide -----

  /** The ciphertext a non-empty value holds, if it can be decoded. */
  function Held(encoding: Encoding, bytes: Bytes): Option<Bytes> {
    if encoding.Bytea? then Some(bytes) else Hex.Decode(bytes)
  }

  /** In terms of the stored bytes: a non-empty value is kept exactly when it decrypts under the
      new key, renewed when it only decrypts under the old one and the new one can be used,
      and otherwise stops the table; verify counts it exactly when it is not kept.  An empty
      value is kept and not counted; so is a NULL, which stops the scan in a text column. */
  lemma WhatACellDecides(c: Crypto, encoding: Encoding, bytes: Bytes)
    ensures bytes == [] ==> PlanCell(c, encoding, Value(bytes)) == Keep && !CellBehind(c, encoding, Value(bytes))
    ensures bytes != [] ==>
              var held := Held(encoding, bytes);
              var onNew := held.Some? && Decrypt(c.gcm, held.value, c.newKey).Some?;
              var onOld := held.Some? && Decrypt(c.gcm, held.value, c.oldKey).Some?;
              var plan := PlanCell(c, encoding, Value(bytes));
              && (plan == Keep <==> onNew)
              && (plan.Renew? <==> !onNew && onOld && |c.newKey| == 32)
              && (plan.Renew? ==> Some(plan.plain) == Decrypt(c.gcm, held.value, c.oldKey))
              && (CellBehind(c, encoding, Value(bytes)) <==> !onNew)
    ensures PlanCell(c, Bytea, Null) == Keep && PlanCell(c, HexText, Null) == Reject(NullText)
    ensures !CellBehind(c, encoding, Null)
  {
  }

  /** A row none of whose cipher columns holds a value is left alone and stops nothing, NULL
      text columns included; with any value in it, a NULL text column stops the table. */
  lemma RowsWithoutValuesAreSkipped(c: Crypto, row: Row, spec: TableSpec)
    ensures (forall i :: 0 <= i < |spec.columns| ==> CellAt(row, spec.columns[i].name) == Null) ==>
              !RowRejected(c, row, spec) && !RowStale(c, row, spec) && !RowUnscannable(row, spec)
    ensures forall i, j :: 0 <= i < |spec.columns| && 0 <= j < |spec.columns|
                           && CellAt(row, spec.columns[i].name).Value?
                           && CellAt(row, spec.columns[j].name) == Null && spec.columns[j].encoding == HexText ==>
              RowRejected(c, row, spec) && RowUnscannable(row, spec)
  {
    if forall i :: 0 <= i < |spec.columns| ==> CellAt(row, spec.columns[i].name) == Null {
      assert !Candidate(row, spec);
    }
    forall i, j | 0 <= i < |spec.columns| && 0 <= j < |spec.columns|
                  && CellAt(row, spec.columns[i].name).Value?
                  && CellAt(row, spec.columns[j].name) == Null && spec.columns[j].encoding == HexText
      ensures RowRejected(c, row, spec) && RowUnscannable(row, spec)
    {
      assert Candidate(row, spec);
      assert PlanCell(c, spec.columns[j].encoding, CellAt(row, spec.columns[j].name)).Reject?;
      assert Read(spec.columns[j].encoding, CellAt(row, spec.columns[j].name)).Unscannable?;
    }
  }
}
