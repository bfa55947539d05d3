/** The sweep engine over a mutable database: one transaction per table, three modes, and
    an environment in which any database call may fail and the random source may dry up. */
module RekeySweep {
  import opened Prelude
  import opened Aes
  import opened RekeyModel
  import Hex

  datatype Mode = Rotate | DryRun | Verify

  /** How a database call ends.  A commit whose acknowledgement is lost has taken effect
      although the caller sees an error. */
  datatype Outcome = Fine | Refused | AckLost

  datatype Error =
    | Environment
    | BadQuery(table: string)
    | BadCell(table: string, column: string, pk: string, defect: Defect)

  datatype Report = Report(rowsRotated: nat, rowsOnOldKey: nat, perTable: map<string, nat>)

  datatype Update = Update(pk: string, newVals: seq<Option<Bytes>>)

  /** The re-encrypted values fit the row: one for each cell to renew, none elsewhere. */
  ghost predicate Fits(c: Crypto, row: Row, spec: TableSpec, newVals: seq<Option<Bytes>>) {
    && |newVals| == |spec.columns|
    && (forall i :: 0 <= i < |newVals| ==>
          FitsCell(c, PlanCell(c, spec.columns[i].encoding, CellAt(row, spec.columns[i].name)), newVals[i]))
  }

  ghost predicate FitsCell(c: Crypto, plan: Plan, newVal: Option<Bytes>) {
    match plan
    case Keep => newVal == None
    case Renew(p) => exists n: Nonce :: newVal == Some(V1Blob(c.gcm, c.newKey, n, p))
    case Reject(_) => false
  }

  lemma FitsDecides(c: Crypto, row: Row, spec: TableSpec, newVals: seq<Option<Bytes>>)
    requires Fits(c, row, spec, newVals)
    ensures !RowRejected(c, row, spec)
    ensures RowStale(c, row, spec) <==> exists i :: 0 <= i < |newVals| && newVals[i].Some?
  {
    forall i | 0 <= i < |newVals|
      ensures var plan := PlanCell(c, spec.columns[i].encoding, CellAt(row, spec.columns[i].name));
              !plan.Reject? && (plan.Renew? <==> newVals[i].Some?)
    {
      assert FitsCell(c, PlanCell(c, spec.columns[i].encoding, CellAt(row, spec.columns[i].name)), newVals[i]);
    }
  }

  // ----- Where each written cell comes from -----

  datatype Place = Place(table: string, pk: string, column: string)

  /** A cell was written from this plaintext, in this encoding, under the nonce of this draw. */
  datatype Origin = Origin(draw: nat, encoding: Encoding, plain: Bytes)

  type Origins = map<Place, Origin>

  function CellIn(db: Database, p: Place): Cell {
    if p.table in db && p.pk in db[p.table].rows then CellAt(db[p.table].rows[p.pk], p.column) else Null
  }

  /** Every cell has a draw of its own, between two readings of the counter. */
  ghost predicate OwnDraws(random: nat -> Option<Nonce>, origins: Origins, from: nat, to: nat) {
    && (forall p :: p in origins ==> from <= origins[p].draw < to && random(origins[p].draw).Some?)
    && (forall p, q :: p in origins && q in origins && p != q ==> origins[p].draw != origins[q].draw)
  }

  lemma DrawsAppend(random: nat -> Option<Nonce>, a: Origins, from: nat, mid: nat, b: Origins, to: nat)
    requires from <= mid <= to && OwnDraws(random, a, from, mid) && OwnDraws(random, b, mid, to)
    ensures OwnDraws(random, a + b, from, to)
  {
    var all := a + b;
    forall p, q | p in all && q in all && p != q
      ensures all[p].draw != all[q].draw
    {
      assert all[p] == if p in b then b[p] else a[p];
      assert all[q] == if q in b then b[q] else a[q];
    }
  }

  ghost function Drawn(c: Crypto, random: nat -> Option<Nonce>, o: Origin): Bytes
    requires random(o.draw).Some?
  {
    V1Blob(c.gcm, c.newKey, random(o.draw).value, o.plain)
  }

  /** The new values of a row are those of its origins. */
  ghost predicate RowDrawn(c: Crypto, random: nat -> Option<Nonce>, spec: TableSpec, pk: string,
                           newVals: seq<Option<Bytes>>, origins: Origins) {
    && |newVals| == |spec.columns|
    && forall i :: 0 <= i < |newVals| ==>
         ColumnDrawn(c, random, Place(spec.table, pk, spec.columns[i].name), spec.columns[i].encoding, newVals[i], origins)
  }

  ghost predicate ColumnDrawn(c: Crypto, random: nat -> Option<Nonce>, p: Place, encoding: Encoding,
                              newVal: Option<Bytes>, origins: Origins) {
    && (newVal.Some? <==> p in origins)
    && (newVal.Some? ==>
          && origins[p].encoding == encoding && random(origins[p].draw).Some?
          && newVal.value == Drawn(c, random, origins[p]))
  }

  /** All the origins are of columns of the spec, in these rows. */
  ghost predicate Within(origins: Origins, spec: TableSpec, pks: set<string>) {
    forall p :: p in origins ==> p.table == spec.table && p.pk in pks && p.column in Names(spec)
  }

  /** The database is the one before with exactly the cells of the origins written, each from
      its origin. */
  ghost predicate WrittenFrom(c: Crypto, random: nat -> Option<Nonce>, db: Database, db': Database, origins: Origins) {
    forall p: Place ::
      if p in origins
      then random(origins[p].draw).Some? && CellIn(db', p) == Written(origins[p].encoding, Drawn(c, random, origins[p]))
      else CellIn(db', p) == CellIn(db, p)
  }

  lemma WrittenFurther(c: Crypto, random: nat -> Option<Nonce>, db: Database, mid: Database, db': Database, a: Origins, b: Origins)
    requires WrittenFrom(c, random, db, mid, a) && WrittenFrom(c, random, mid, db', b)
    ensures WrittenFrom(c, random, db, db', a + b)
  {
    forall p: Place
      ensures if p in a + b
              then random((a + b)[p].draw).Some? &&
                   CellIn(db', p) == Written((a + b)[p].encoding, Drawn(c, random, (a + b)[p]))
              else CellIn(db', p) == CellIn(db, p)
    {
      if p in b {
        assert (a + b)[p] == b[p];
      } else {
        assert CellIn(db', p) == CellIn(mid, p);
      }
    }
  }

  /** The row with the new values written over it, each in its column's encoding. */
  ghost predicate RowWritten(row: Row, spec: TableSpec, newVals: seq<Option<Bytes>>, row': Row) {
    && |newVals| == |spec.columns|
    && (forall i :: 0 <= i < |newVals| ==>
          CellAt(row', spec.columns[i].name) ==
          if newVals[i].Some? then Written(spec.columns[i].encoding, newVals[i].value) else CellAt(row, spec.columns[i].name))
    && (forall name :: name !in Names(spec) ==> CellAt(row', name) == CellAt(row, name))
  }

  lemma RowFromOrigins(c: Crypto, random: nat -> Option<Nonce>, spec: TableSpec, pk: string, row: Row,
                       newVals: seq<Option<Bytes>>, row': Row, origins: Origins, column: string)
    requires RowDrawn(c, random, spec, pk, newVals, origins) && RowWritten(row, spec, newVals, row')
    requires forall p :: p in origins ==> p.column in Names(spec)
    ensures var p := Place(spec.table, pk, column);
            if p in origins
            then random(origins[p].draw).Some? && CellAt(row', column) == Written(origins[p].encoding, Drawn(c, random, origins[p]))
            else CellAt(row', column) == CellAt(row, column)
  {
    if column in Names(spec) {
      var i :| 0 <= i < |spec.columns| && spec.columns[i].name == column;
      assert ColumnDrawn(c, random, Place(spec.table, pk, spec.columns[i].name), spec.columns[i].encoding, newVals[i], origins);
    }
  }

  /** The SET list of an UPDATE, column by column, then the version stamp. */
  method ApplyUpdate(row: Row, spec: TableSpec, newVals: seq<Option<Bytes>>, version: SmallInt, ghost c: Crypto)
    returns (row': Row)
    requires WellFormed(spec) && Fits(c, row, spec, newVals)
    ensures RowRotated(c, row, spec, version, row') && RowWritten(row, spec, newVals, row')
  {
    var cells := SetList(row, spec, newVals);
    row' := Row(cells, row.versions[spec.versionColumn := version]);
    assert forall name :: CellAt(row', name) == CellAt(Row(cells, row.versions), name);
    forall i | 0 <= i < |spec.columns|
      ensures CellRotated(c, spec.columns[i].encoding, CellAt(row, spec.columns[i].name), CellAt(row', spec.columns[i].name))
    {
      assert FitsCell(c, PlanCell(c, spec.columns[i].encoding, CellAt(row, spec.columns[i].name)), newVals[i]);
    }
  }

  method SetList(row: Row, spec: TableSpec, newVals: seq<Option<Bytes>>) returns (cells: map<string, Cell>)
    requires WellFormed(spec) && |newVals| == |spec.columns|
    ensures RowWritten(row, spec, newVals, Row(cells, row.versions))
  {
    cells := row.cells;
    for i := 0 to |spec.columns|
      invariant forall j :: i <= j < |spec.columns| ==>
                  CellAt(Row(cells, row.versions), spec.columns[j].name) == CellAt(row, spec.columns[j].name)
      invariant forall j :: 0 <= j < i ==>
                  CellAt(Row(cells, row.versions), spec.columns[j].name) ==
                  if newVals[j].Some? then Written(spec.columns[j].encoding, newVals[j].value)
                  else CellAt(row, spec.columns[j].name)
      invariant forall name :: name !in Names(spec) ==> CellAt(Row(cells, row.versions), name) == CellAt(row, name)
    {
      var col := spec.columns[i];
      if newVals[i].Some? {
        cells := cells[col.name := Written(col.encoding, newVals[i].value)];
      }
    }
  }

  /** The updates name each primary key of the set once, and no other key. */
  ghost predicate Lists(updates: seq<Update>, pks: set<string>) {
    && |pks| == |updates|
    && (forall k :: 0 <= k < |updates| ==> updates[k].pk in pks)
    && (forall k, l :: 0 <= k < l < |updates| ==> updates[k].pk != updates[l].pk)
    && (forall pk :: pk in pks ==> exists k :: 0 <= k < |updates| && updates[k].pk == pk)
  }

  lemma ListsAppend(updates: seq<Update>, pks: set<string>, u: Update)
    requires Lists(updates, pks) && u.pk !in pks
    ensures Lists(updates + [u], pks + {u.pk})
  {
    var all := updates + [u];
    assert all[|updates|] == u;
    assert forall k :: 0 <= k < |updates| ==> all[k] == updates[k];
  }

  /** The keys of the first k updates are done, those of the others are not. */
  ghost predicate DoneUpTo(updates: seq<Update>, done: set<string>, k: nat) {
    forall l :: 0 <= l < |updates| ==> (updates[l].pk in done <==> l < k)
  }

  lemma DoneNext(updates: seq<Update>, stale: set<string>, done: set<string>, k: nat)
    requires Lists(updates, stale) && DoneUpTo(updates, done, k) && k < |updates|
    ensures updates[k].pk in stale && updates[k].pk !in done
    ensures DoneUpTo(updates, done + {updates[k].pk}, k + 1)
  {
  }

  lemma DoneAll(updates: seq<Update>, stale: set<string>, done: set<string>)
    requires Lists(updates, stale) && DoneUpTo(updates, done, |updates|) && done <= stale
    ensures done == stale
  {
  }

  ghost predicate Ready(c: Crypto, t: Table, spec: TableSpec, updates: seq<Update>) {
    forall k :: 0 <= k < |updates| ==>
      updates[k].pk in t.rows && Fits(c, t.rows[updates[k].pk], spec, updates[k].newVals)
  }

  lemma ReadyAppend(c: Crypto, t: Table, spec: TableSpec, updates: seq<Update>, u: Update)
    requires Ready(c, t, spec, updates)
    requires u.pk in t.rows && Fits(c, t.rows[u.pk], spec, u.newVals)
    ensures Ready(c, t, spec, updates + [u])
  {
    var all := updates + [u];
    forall k | 0 <= k < |all|
      ensures all[k].pk in t.rows && Fits(c, t.rows[all[k].pk], spec, all[k].newVals)
    {
      assert all[k] == if k < |updates| then updates[k] else u;
    }
  }

  /** The rows of the set have been rotated, the others are as before. */
  ghost predicate RowsReplaced(c: Crypto, rows: map<string, Row>, spec: TableSpec, version: SmallInt,
                               done: set<string>, rows': map<string, Row>) {
    && rows'.Keys == rows.Keys
    && (forall pk :: pk in rows ==> if pk in done then RowRotated(c, rows[pk], spec, version, rows'[pk])
                                    else rows'[pk] == rows[pk])
  }

  lemma Install(c: Crypto, db: Database, spec: TableSpec, version: SmallInt, rows: map<string, Row>)
    requires spec.table in db && Healthy(c, db, spec)
    requires RowsReplaced(c, db[spec.table].rows, spec, version, StaleRows(c, db[spec.table], spec), rows)
    ensures Committed(c, db, spec, version, db[spec.table := Table(db[spec.table].columns, rows)])
  {
  }

  lemma StaleIsCandidate(c: Crypto, row: Row, spec: TableSpec)
    ensures RowStale(c, row, spec) || RowBehind(c, row, spec) ==> Candidate(row, spec)
  {
    if RowStale(c, row, spec) {
      var i :| 0 <= i < |spec.columns| &&
               PlanCell(c, spec.columns[i].encoding, CellAt(row, spec.columns[i].name)).Renew?;
      assert CellAt(row, spec.columns[i].name).Value?;
    } else if RowBehind(c, row, spec) {
      var i :| 0 <= i < |spec.columns| &&
               CellBehind(c, spec.columns[i].encoding, CellAt(row, spec.columns[i].name));
      assert CellAt(row, spec.columns[i].name).Value?;
    }
  }

  /** Verify's inner loop: stop at the first cell that is not on the new key. */
  method InspectRow(c: Crypto, spec: TableSpec, row: Row) returns (onOld: bool)
    ensures onOld <==> RowBehind(c, row, spec)
  {
    for i := 0 to |spec.columns|
      invariant forall j :: 0 <= j < i ==>
                  !CellBehind(c, spec.columns[j].encoding, CellAt(row, spec.columns[j].name))
    {
      if CellBehind(c, spec.columns[i].encoding, CellAt(row, spec.columns[i].name)) {
        return true;
      }
    }
    return false;
  }

  predicate DistinctTables(specs: seq<TableSpec>) {
    forall i, j :: 0 <= i < j < |specs| ==> specs[i].table != specs[j].table
  }

  function Count(rep: Report, mode: Mode, table: string, n: nat): Report {
    if mode == Verify
    then Report(rep.rowsRotated, rep.rowsOnOldKey + n, rep.perTable[table := n])
    else Report(rep.rowsRotated + n, rep.rowsOnOldKey, rep.perTable[table := n])
  }

  /** The report that a mode owes on a database. */
  ghost function Expected(c: Crypto, mode: Mode, db: Database, specs: seq<TableSpec>): Report {
    if specs == [] then Report(0, 0, map[])
    else
      var rep, spec := Expected(c, mode, db, specs[..|specs| - 1]), Last(specs);
      if spec.table in db then Count(rep, mode, spec.table, Owed(c, mode, db[spec.table], spec)) else rep
  }

  ghost function Owed(c: Crypto, mode: Mode, t: Table, spec: TableSpec): nat {
    if mode == Verify then |RowsBehind(c, t, spec)| else |StaleRows(c, t, spec)|
  }

  lemma ExpectedAppend(c: Crypto, mode: Mode, db: Database, specs: seq<TableSpec>, i: nat)
    requires i < |specs|
    ensures Expected(c, mode, db, specs[..i + 1]) ==
            var rep := Expected(c, mode, db, specs[..i]);
            if specs[i].table in db
            then Count(rep, mode, specs[i].table, Owed(c, mode, db[specs[i].table], specs[i])) else rep
  {
    assert specs[..i + 1][..i] == specs[..i] && Last(specs[..i + 1]) == specs[i];
  }

  /** The data lets the mode through this spec. */
  predicate Acceptable(c: Crypto, mode: Mode, db: Database, spec: TableSpec) {
    if mode == Verify
    then if spec.table in db then Selectable(db[spec.table], spec) && Scannable(db[spec.table], spec) else spec.optional
    else Healthy(c, db, spec)
  }

  /** The data lets the mode through this spec, stamping included. */
  predicate Passes(c: Crypto, mode: Mode, db: Database, spec: TableSpec) {
    && Acceptable(c, mode, db, spec)
    && (mode == Rotate && spec.table in db ==> Stampable(c, db[spec.table], spec))
  }

  lemma SweptAppend(c: Crypto, db: Database, specs: seq<TableSpec>, spec: TableSpec, version: SmallInt,
                    mid: Database, db': Database)
    requires Swept(c, db, specs, version, mid) && Committed(c, mid, spec, version, db')
    ensures Swept(c, db, specs + [spec], version, db')
  {
    var all := specs + [spec];
    assert all[..|all| - 1] == specs && Last(all) == spec;
  }

  /** A sweep leaves the tables it does not name alone. */
  lemma {:induction false} SweptFrame(c: Crypto, db: Database, specs: seq<TableSpec>, version: SmallInt, db': Database)
    requires Swept(c, db, specs, version, db')
    ensures db'.Keys == db.Keys
    ensures forall name :: name in db && (forall i :: 0 <= i < |specs| ==> specs[i].table != name) ==>
              db'[name] == db[name]
  {
    if specs != [] {
      var front := specs[..|specs| - 1];
      var mid :| Swept(c, db, front, version, mid) && Committed(c, mid, Last(specs), version, db');
      SweptFrame(c, db, front, version, mid);
      forall name | name in db && (forall i :: 0 <= i < |specs| ==> specs[i].table != name)
        ensures db'[name] == db[name]
      {
        assert forall i :: 0 <= i < |front| ==> front[i] == specs[i];
      }
    }
  }

  /** One spec has been completed in the given mode. */
  ghost predicate Stepped(c: Crypto, mode: Mode, db: Database, spec: TableSpec, version: SmallInt,
                          db': Database, n: Option<nat>) {
    && (if mode == Rotate then Committed(c, db, spec, version, db') else db' == db && Acceptable(c, mode, db, spec))
    && n == if spec.table in db then Some(Owed(c, mode, db[spec.table], spec)) else None
  }

  function Counted(rep: Report, mode: Mode, table: string, n: Option<nat>): Report {
    if n.Some? then Count(rep, mode, table, n.value) else rep
  }

  /** The first `done` specs have been completed in the given mode, and reported: an exact
      prefix has been rotated, or nothing has changed. */
  ghost predicate Underway(c: Crypto, mode: Mode, db: Database, specs: seq<TableSpec>, version: SmallInt,
                           done: nat, db': Database, rep: Report) {
    && done <= |specs|
    && (if mode == Rotate
        then Swept(c, db, specs[..done], version, db') && SweptAs(c, db, specs[..done], version, db', rep)
        else db' == db && forall i :: 0 <= i < done ==> Acceptable(c, mode, db, specs[i]))
    && (mode != Rotate || DistinctTables(specs) ==> rep == Expected(c, mode, db, specs[..done]))
  }

  /** The specs have been swept one after the other, each counted in the state it found: the
      report is determined also when several specs name one table. */
  ghost predicate SweptAs(c: Crypto, db: Database, specs: seq<TableSpec>, version: SmallInt, db': Database, rep: Report) {
    if specs == [] then db' == db && rep == Report(0, 0, map[])
    else exists mid, before ::
      && SweptAs(c, db, specs[..|specs| - 1], version, mid, before)
      && CommittedAs(c, mid, Last(specs), version, db', before, rep)
  }

  ghost predicate CommittedAs(c: Crypto, db: Database, spec: TableSpec, version: SmallInt, db': Database,
                              before: Report, rep: Report) {
    && Committed(c, db, spec, version, db')
    && rep == Counted(before, Rotate, spec.table,
                      if spec.table in db then Some(Owed(c, Rotate, db[spec.table], spec)) else None)
  }

  lemma SweptAsAppend(c: Crypto, db: Database, specs: seq<TableSpec>, i: nat, version: SmallInt,
                      mid: Database, before: Report, db': Database, rep: Report)
    requires i < |specs| && SweptAs(c, db, specs[..i], version, mid, before)
    requires CommittedAs(c, mid, specs[i], version, db', before, rep)
    ensures SweptAs(c, db, specs[..i + 1], version, db', rep)
  {
    assert specs[..i + 1][..i] == specs[..i] && Last(specs[..i + 1]) == specs[i];
  }

  /** The commit of spec number `done` took effect, but its acknowledgement was lost. */
  ghost predicate AckWasLost(c: Crypto, db: Database, specs: seq<TableSpec>, version: SmallInt,
                             done: nat, db': Database, rep: Report) {
    && done < |specs|
    && exists mid :: Underway(c, Rotate, db, specs, version, done, mid, rep) &&
                     Committed(c, mid, specs[done], version, db')
  }

  lemma Advance(c: Crypto, mode: Mode, db: Database, specs: seq<TableSpec>, version: SmallInt, i: nat,
                mid: Database, rep: Report, db': Database, n: Option<nat>)
    requires i < |specs| && Underway(c, mode, db, specs, version, i, mid, rep)
    requires Stepped(c, mode, mid, specs[i], version, db', n)
    ensures Underway(c, mode, db, specs, version, i + 1, db', Counted(rep, mode, specs[i].table, n))
  {
    if mode == Rotate {
      AdvanceRotate(c, db, specs, version, i, mid, rep, db', n);
    } else {
      ExpectedAppend(c, mode, db, specs, i);
    }
  }

  lemma AdvanceRotate(c: Crypto, db: Database, specs: seq<TableSpec>, version: SmallInt, i: nat,
                      mid: Database, rep: Report, db': Database, n: Option<nat>)
    requires i < |specs| && Underway(c, Rotate, db, specs, version, i, mid, rep)
    requires Stepped(c, Rotate, mid, specs[i], version, db', n)
    ensures Underway(c, Rotate, db, specs, version, i + 1, db', Counted(rep, Rotate, specs[i].table, n))
  {
    var rep' := Counted(rep, Rotate, specs[i].table, n);
    assert specs[..i + 1] == specs[..i] + [specs[i]];
    SweptAppend(c, db, specs[..i], specs[i], version, mid, db');
    SweptAsAppend(c, db, specs, i, version, mid, rep, db', rep');
    if DistinctTables(specs) {
      StillOwed(c, db, specs, version, i, mid);
      ExpectedAppend(c, Rotate, db, specs, i);
    }
  }

  /** With distinct tables, a spec not yet swept is owed what it was owed at the start. */
  lemma StillOwed(c: Crypto, db: Database, specs: seq<TableSpec>, version: SmallInt, i: nat, mid: Database)
    requires i < |specs| && DistinctTables(specs) && Swept(c, db, specs[..i], version, mid)
    ensures specs[i].table in mid <==> specs[i].table in db
    ensures specs[i].table in db ==> mid[specs[i].table] == db[specs[i].table]
  {
    SweptFrame(c, db, specs[..i], version, mid);
  }

  lemma UnderwayStarts(c: Crypto, mode: Mode, db: Database, specs: seq<TableSpec>, version: SmallInt)
    ensures Underway(c, mode, db, specs, version, 0, db, Report(0, 0, map[]))
  {
  }

  /** How a sweep that stops has stopped. */
  ghost predicate Stopped(c: Crypto, mode: Mode, db: Database, specs: seq<TableSpec>, version: SmallInt, done: nat,
                          db': Database, rep: Report, err: Option<Error>) {
    || Underway(c, mode, db, specs, version, done, db', rep)
    || (err == Some(Environment) && mode == Rotate && AckWasLost(c, db, specs, version, done, db', rep))
  }

  lemma StopsHere(c: Crypto, mode: Mode, db: Database, specs: seq<TableSpec>, version: SmallInt, i: nat,
                  mid: Database, rep: Report, db': Database, e: Error)
    requires i < |specs| && Underway(c, mode, db, specs, version, i, mid, rep) && (mode != Rotate ==> db' == mid)
    requires db' == mid || (Committed(c, mid, specs[i], version, db') && e == Environment)
    ensures Stopped(c, mode, db, specs, version, i, db', rep, Some(e))
  {
  }

  /** The one database came from the other by writing the cells of the origins, each with a
      draw of its own. */
  ghost predicate Sourced(c: Crypto, random: nat -> Option<Nonce>, db: Database, db': Database, origins: Origins,
                          from: nat, to: nat) {
    from <= to && OwnDraws(random, origins, from, to) && WrittenFrom(c, random, db, db', origins)
  }

  lemma SourcedNothing(c: Crypto, random: nat -> Option<Nonce>, db: Database, from: nat, to: nat)
    requires from <= to
    ensures Sourced(c, random, db, db, map[], from, to)
  {
  }

  lemma SourcedFurther(c: Crypto, random: nat -> Option<Nonce>, db: Database, mid: Database, db': Database,
                       a: Origins, b: Origins, from: nat, at: nat, to: nat)
    requires Sourced(c, random, db, mid, a, from, at) && Sourced(c, random, mid, db', b, at, to)
    ensures Sourced(c, random, db, db', a + b, from, to)
  {
    DrawsAppend(random, a, from, at, b, to);
    WrittenFurther(c, random, db, mid, db', a, b);
  }

  /** The new values so far are those of the origins so far. */
  ghost predicate DrawnUpTo(c: Crypto, random: nat -> Option<Nonce>, spec: TableSpec, pk: string,
                            newVals: seq<Option<Bytes>>, origins: Origins) {
    && |newVals| <= |spec.columns|
    && (forall i :: 0 <= i < |newVals| ==>
          ColumnDrawn(c, random, Place(spec.table, pk, spec.columns[i].name), spec.columns[i].encoding, newVals[i], origins))
    && (forall i :: |newVals| <= i < |spec.columns| ==> Place(spec.table, pk, spec.columns[i].name) !in origins)
  }

  /** One more cell of a row: it joins the origins if it was renewed. */
  lemma NextOrigins(c: Crypto, random: nat -> Option<Nonce>, spec: TableSpec, pk: string, newVals: seq<Option<Bytes>>,
                    origins: Origins, newVal: Option<Bytes>, o: Origin, from: nat, at: nat, to: nat)
    returns (origins': Origins)
    requires WellFormed(spec) && |newVals| < |spec.columns| && from <= at <= to
    requires OwnDraws(random, origins, from, at) && Within(origins, spec, {pk}) && DrawnUpTo(c, random, spec, pk, newVals, origins)
    requires newVal.Some? ==>
               && o.draw == at < to && random(at).Some?
               && o.encoding == spec.columns[|newVals|].encoding && newVal.value == Drawn(c, random, o)
    ensures OwnDraws(random, origins', from, to) && Within(origins', spec, {pk})
    ensures DrawnUpTo(c, random, spec, pk, newVals + [newVal], origins')
  {
    var p := Place(spec.table, pk, spec.columns[|newVals|].name);
    assert spec.columns[|newVals|].name in Names(spec);
    origins' := if newVal.Some? then origins[p := o] else origins;
    var all := newVals + [newVal];
    forall i | 0 <= i < |all|
      ensures ColumnDrawn(c, random, Place(spec.table, pk, spec.columns[i].name), spec.columns[i].encoding, all[i], origins')
    {
      if i < |newVals| {
        assert spec.columns[i].name != spec.columns[|newVals|].name;
        assert ColumnDrawn(c, random, Place(spec.table, pk, spec.columns[i].name), spec.columns[i].encoding, newVals[i], origins);
      }
    }
  }

  ghost predicate FitsUpTo(c: Crypto, row: Row, spec: TableSpec, newVals: seq<Option<Bytes>>) {
    && |newVals| <= |spec.columns|
    && forall i :: 0 <= i < |newVals| ==>
         FitsCell(c, PlanCell(c, spec.columns[i].encoding, CellAt(row, spec.columns[i].name)), newVals[i])
  }

  /** What is known of a row while its cells are re-encrypted. */
  ghost predicate RowUnderway(c: Crypto, random: nat -> Option<Nonce>, spec: TableSpec, pk: string,
                              newVals: seq<Option<Bytes>>, origins: Origins, from: nat, to: nat) {
    && from <= to && OwnDraws(random, origins, from, to) && Within(origins, spec, {pk})
    && DrawnUpTo(c, random, spec, pk, newVals, origins)
  }

  lemma NextCell(c: Crypto, random: nat -> Option<Nonce>, row: Row, spec: TableSpec, pk: string, newVals: seq<Option<Bytes>>,
                 origins: Origins, newVal: Option<Bytes>, from: nat, at: nat, to: nat)
    returns (origins': Origins)
    requires WellFormed(spec) && |newVals| < |spec.columns| && at <= to
    requires FitsUpTo(c, row, spec, newVals) && RowUnderway(c, random, spec, pk, newVals, origins, from, at)
    requires var col := spec.columns[|newVals|];
             var plan := PlanCell(c, col.encoding, CellAt(row, col.name));
             && FitsCell(c, plan, newVal)
             && (newVal.Some? ==> plan.Renew? && at < to && random(at).Some?
                                  && newVal.value == V1Blob(c.gcm, c.newKey, random(at).value, plan.plain))
    ensures FitsUpTo(c, row, spec, newVals + [newVal])
    ensures RowUnderway(c, random, spec, pk, newVals + [newVal], origins', from, to)
  {
    var col := spec.columns[|newVals|];
    var plan := PlanCell(c, col.encoding, CellAt(row, col.name));
    var o := Origin(at, col.encoding, if newVal.Some? then plan.plain else []);
    origins' := NextOrigins(c, random, spec, pk, newVals, origins, newVal, o, from, at, to);
  }

  ghost predicate UpdatesDrawn(c: Crypto, random: nat -> Option<Nonce>, spec: TableSpec, updates: seq<Update>, origins: Origins) {
    forall k :: 0 <= k < |updates| ==> RowDrawn(c, random, spec, updates[k].pk, updates[k].newVals, origins)
  }

  /** A row's origins do not depend on those of other rows. */
  lemma RowDrawnFrame(c: Crypto, random: nat -> Option<Nonce>, spec: TableSpec, pk: string, newVals: seq<Option<Bytes>>,
                      origins: Origins, origins': Origins)
    requires RowDrawn(c, random, spec, pk, newVals, origins)
    requires forall p: Place :: p.pk == pk ==> (p in origins' <==> p in origins) && (p in origins ==> origins'[p] == origins[p])
    ensures RowDrawn(c, random, spec, pk, newVals, origins')
  {
    forall i | 0 <= i < |newVals|
      ensures ColumnDrawn(c, random, Place(spec.table, pk, spec.columns[i].name), spec.columns[i].encoding, newVals[i], origins')
    {
      var p := Place(spec.table, pk, spec.columns[i].name);
      assert ColumnDrawn(c, random, p, spec.columns[i].encoding, newVals[i], origins);
      assert p.pk == pk;
    }
  }

  lemma OriginsAppend(c: Crypto, random: nat -> Option<Nonce>, spec: TableSpec, updates: seq<Update>, found: set<string>,
                      origins: Origins, u: Update, own: Origins)
    requires Lists(updates, found) && u.pk !in found
    requires UpdatesDrawn(c, random, spec, updates, origins) && Within(origins, spec, found)
    requires RowDrawn(c, random, spec, u.pk, u.newVals, own) && Within(own, spec, {u.pk})
    ensures UpdatesDrawn(c, random, spec, updates + [u], origins + own) && Within(origins + own, spec, found + {u.pk})
  {
    var all := updates + [u];
    forall k | 0 <= k < |all|
      ensures RowDrawn(c, random, spec, all[k].pk, all[k].newVals, origins + own)
    {
      if k < |updates| {
        assert all[k] == updates[k] && updates[k].pk in found;
        RowDrawnFrame(c, random, spec, updates[k].pk, updates[k].newVals, origins, origins + own);
      } else {
        RowDrawnFrame(c, random, spec, u.pk, u.newVals, own, origins + own);
      }
    }
  }

  /** The new values of one row, and where they come from. */
  ghost predicate RowPrepared(c: Crypto, random: nat -> Option<Nonce>, spec: TableSpec, row: Row, pk: string,
                              newVals: seq<Option<Bytes>>, origins: Origins, from: nat, to: nat) {
    && from <= to && OwnDraws(random, origins, from, to) && Within(origins, spec, {pk})
    && Fits(c, row, spec, newVals) && RowDrawn(c, random, spec, pk, newVals, origins)
  }

  lemma RowComplete(c: Crypto, random: nat -> Option<Nonce>, row: Row, spec: TableSpec, pk: string,
                    newVals: seq<Option<Bytes>>, origins: Origins, from: nat, to: nat)
    requires |newVals| == |spec.columns| && FitsUpTo(c, row, spec, newVals)
    requires RowUnderway(c, random, spec, pk, newVals, origins, from, to)
    ensures RowPrepared(c, random, spec, row, pk, newVals, origins, from, to) && !RowRejected(c, row, spec)
    ensures RowStale(c, row, spec) <==> exists i :: 0 <= i < |newVals| && newVals[i].Some?
  {
    FitsDecides(c, row, spec, newVals);
  }

  /** The updates of these rows, and where their values come from. */
  ghost predicate Prepared(c: Crypto, random: nat -> Option<Nonce>, t: Table, spec: TableSpec, updates: seq<Update>,
                           pks: set<string>, origins: Origins, from: nat, to: nat) {
    && from <= to && OwnDraws(random, origins, from, to) && Within(origins, spec, pks)
    && Lists(updates, pks) && Ready(c, t, spec, updates) && UpdatesDrawn(c, random, spec, updates, origins)
  }

  lemma PreparedAppend(c: Crypto, random: nat -> Option<Nonce>, t: Table, spec: TableSpec, updates: seq<Update>,
                       pks: set<string>, origins: Origins, from: nat, mid: nat, u: Update, own: Origins, to: nat)
    requires Prepared(c, random, t, spec, updates, pks, origins, from, mid) && u.pk !in pks && u.pk in t.rows
    requires RowPrepared(c, random, spec, t.rows[u.pk], u.pk, u.newVals, own, mid, to)
    ensures Prepared(c, random, t, spec, updates + [u], pks + {u.pk}, origins + own, from, to)
  {
    DrawsAppend(random, origins, from, mid, own, to);
    OriginsAppend(c, random, spec, updates, pks, origins, u, own);
    ListsAppend(updates, pks, u);
    ReadyAppend(c, t, spec, updates, u);
  }

  lemma PreparedLater(c: Crypto, random: nat -> Option<Nonce>, t: Table, spec: TableSpec, updates: seq<Update>,
                      pks: set<string>, origins: Origins, from: nat, mid: nat, to: nat)
    requires Prepared(c, random, t, spec, updates, pks, origins, from, mid) && mid <= to
    ensures Prepared(c, random, t, spec, updates, pks, origins, from, to)
  {
  }

  /** The rows after the updates: each one written over its own row, the others as before. */
  ghost predicate RowsWritten(rows: map<string, Row>, spec: TableSpec, updates: seq<Update>, stale: set<string>,
                              rows': map<string, Row>) {
    && rows'.Keys == rows.Keys
    && (forall k :: 0 <= k < |updates| ==>
          updates[k].pk in rows && RowWritten(rows[updates[k].pk], spec, updates[k].newVals, rows'[updates[k].pk]))
    && (forall pk :: pk in rows && pk !in stale ==> rows'[pk] == rows[pk])
  }

  /** Installing the rows of a table writes exactly the cells of the origins. */
  lemma InstalledFrom(c: Crypto, random: nat -> Option<Nonce>, db: Database, spec: TableSpec, updates: seq<Update>,
                      stale: set<string>, rows: map<string, Row>, origins: Origins)
    requires spec.table in db && Lists(updates, stale) && stale <= db[spec.table].rows.Keys
    requires UpdatesDrawn(c, random, spec, updates, origins) && Within(origins, spec, stale)
    requires RowsWritten(db[spec.table].rows, spec, updates, stale, rows)
    ensures WrittenFrom(c, random, db, db[spec.table := Table(db[spec.table].columns, rows)], origins)
  {
    var db' := db[spec.table := Table(db[spec.table].columns, rows)];
    forall p: Place
      ensures if p in origins
              then random(origins[p].draw).Some? && CellIn(db', p) == Written(origins[p].encoding, Drawn(c, random, origins[p]))
              else CellIn(db', p) == CellIn(db, p)
    {
      if p.table == spec.table && p.pk in stale {
        var k :| 0 <= k < |updates| && updates[k].pk == p.pk;
        RowFromOrigins(c, random, spec, p.pk, db[p.table].rows[p.pk], updates[k].newVals, rows[p.pk], origins, p.column);
        assert p == Place(spec.table, p.pk, p.column);
      }
    }
  }

  /** What is known of a sweep that goes on: the first `i` specs are done, none of their tables
      was missing unless it is optional, and every cell written has its origin. */
  ghost predicate Going(c: Crypto, random: nat -> Option<Nonce>, mode: Mode, db: Database, specs: seq<TableSpec>,
                        version: SmallInt, i: nat, db': Database, rep: Report, origins: Origins, from: nat, to: nat) {
    && Underway(c, mode, db, specs, version, i, db', rep)
    && Sourced(c, random, db, db', origins, from, to)
    && db'.Keys == db.Keys && (mode != Rotate ==> db' == db)
    && forall j :: 0 <= j < i ==> specs[j].table in db || specs[j].optional
  }

  lemma Starts(c: Crypto, random: nat -> Option<Nonce>, mode: Mode, db: Database, specs: seq<TableSpec>, version: SmallInt, at: nat)
    ensures Going(c, random, mode, db, specs, version, 0, db, Report(0, 0, map[]), map[], at, at)
  {
    SourcedNothing(c, random, db, at, at);
    UnderwayStarts(c, mode, db, specs, version);
  }

  lemma GoesOn(c: Crypto, random: nat -> Option<Nonce>, mode: Mode, db: Database, specs: seq<TableSpec>, version: SmallInt,
               i: nat, mid: Database, rep: Report, db': Database, n: Option<nat>, origins: Origins, from: nat, to: nat)
    requires i < |specs| && Underway(c, mode, db, specs, version, i, mid, rep)
    requires mid.Keys == db.Keys && (forall j :: 0 <= j < i ==> specs[j].table in db || specs[j].optional)
    requires Stepped(c, mode, mid, specs[i], version, db', n) && Sourced(c, random, db, db', origins, from, to)
    requires db'.Keys == db.Keys && (mode != Rotate ==> db' == db) && (specs[i].table in db || specs[i].optional)
    ensures Going(c, random, mode, db, specs, version, i + 1, db', Counted(rep, mode, specs[i].table, n), origins, from, to)
  {
    Advance(c, mode, db, specs, version, i, mid, rep, db', n);
  }

  lemma InstallPrepared(c: Crypto, random: nat -> Option<Nonce>, db: Database, spec: TableSpec, updates: seq<Update>,
                        version: SmallInt, stale: set<string>, rows: map<string, Row>, written: Origins, from: nat, to: nat)
    requires spec.table in db && Healthy(c, db, spec) && stale == StaleRows(c, db[spec.table], spec)
    requires Prepared(c, random, db[spec.table], spec, updates, stale, written, from, to)
    requires RowsReplaced(c, db[spec.table].rows, spec, version, stale, rows)
    requires RowsWritten(db[spec.table].rows, spec, updates, stale, rows)
    ensures var db' := db[spec.table := Table(db[spec.table].columns, rows)];
            Committed(c, db, spec, version, db') && Sourced(c, random, db, db', written, from, to)
  {
    Install(c, db, spec, version, rows);
    InstalledFrom(c, random, db, spec, updates, stale, rows, written);
  }

  class Store {
    var tables: Database
    var calls: nat
    var draws: nat
    const environment: nat -> Outcome
    const random: nat -> Option<Nonce>

    constructor (tables: Database, environment: nat -> Outcome, random: nat -> Option<Nonce>)
      ensures this.tables == tables && this.environment == environment && this.random == random
    {
      this.tables, this.calls, this.draws := tables, 0, 0;
      this.environment, this.random := environment, random;
    }

    /** No database call fails and the random source never dries up. */
    ghost predicate Quiet() {
      forall i: nat :: environment(i) == Fine && random(i).Some?
    }

    method Call() returns (o: Outcome)
      modifies this`calls
      ensures Quiet() ==> o == Fine
    {
      o := environment(calls);
      calls := calls + 1;
    }

    method Draw() returns (n: Option<Nonce>)
      modifies this`draws
      ensures n == random(old(draws)) && draws == old(draws) + 1
    {
      n := random(draws);
      draws := draws + 1;
    }

    /** The error is the environment's, or it names a cell that really has that defect. */
    ghost predicate Blames(c: Crypto, t: Table, spec: TableSpec, e: Error) {
      match e
      case Environment => !Quiet()
      case BadQuery(table) => table == spec.table && !(Selectable(t, spec) && Stampable(c, t, spec))
      case BadCell(table, column, pk, defect) =>
        && table == spec.table
        && pk in t.rows
        && Candidate(t.rows[pk], spec)
        && exists i :: && 0 <= i < |spec.columns|
                       && spec.columns[i].name == column
                       && PlanCell(c, spec.columns[i].encoding, CellAt(t.rows[pk], column)) == Reject(defect)
    }

    lemma BlamesCell(c: Crypto, t: Table, spec: TableSpec, pk: string, i: nat, defect: Defect)
      requires pk in t.rows && Candidate(t.rows[pk], spec) && i < |spec.columns|
      requires PlanCell(c, spec.columns[i].encoding, CellAt(t.rows[pk], spec.columns[i].name)) == Reject(defect)
      ensures Blames(c, t, spec, BadCell(spec.table, spec.columns[i].name, pk, defect))
    {
    }

    lemma BlamedCell(c: Crypto, t: Table, spec: TableSpec, e: Error)
      requires Blames(c, t, spec, e) && e.BadCell?
      ensures RowRejected(c, t.rows[e.pk], spec)
    {
      var i :| && 0 <= i < |spec.columns|
               && spec.columns[i].name == e.column
               && PlanCell(c, spec.columns[i].encoding, CellAt(t.rows[e.pk], e.column)) == Reject(e.defect);
    }

    /** One cell: left alone, re-encrypted, or the reason the table cannot be rotated. */
    method RekeyCell(c: Crypto, encoding: Encoding, cell: Cell) returns (r: Result<Option<Bytes>, Option<Defect>>)
      requires !Read(encoding, cell).Unscannable?
      modifies this`draws
      ensures draws == if PlanCell(c, encoding, cell).Renew? then old(draws) + 1 else old(draws)
      ensures r.Success? && r.value.Some? ==>
                && PlanCell(c, encoding, cell).Renew? && random(old(draws)).Some?
                && r.value.value == V1Blob(c.gcm, c.newKey, random(old(draws)).value, PlanCell(c, encoding, cell).plain)
      ensures r.Success? ==> FitsCell(c, PlanCell(c, encoding, cell), r.value)
      ensures r.Failure? ==> if r.error.None? then !Quiet()
                             else PlanCell(c, encoding, cell) == Reject(r.error.value)
    {
      var reading := Read(encoding, cell);
      if reading.NotHex? {
        return Failure(Some(BadHex));
      }
      if reading.Nothing? || OnNewKey(c, reading.blob) {
        return Success(None);
      }
      if Decrypt(c.gcm, reading.blob, c.oldKey).None? {
        return Failure(Some(OldKeyRefuses));
      }
      if |c.newKey| != KEY_SIZE {
        return Failure(Some(NewKeyUnusable));
      }
      var nonce := Draw();
      var blob := Rekey(c, reading.blob, nonce);
      if blob.None? {
        return Failure(None);
      }
      r := Success(blob);
    }

    /** The scan of one candidate row: a NULL text cell cannot be read into a string. */
    method ScanRow(c: Crypto, spec: TableSpec, t: Table, pk: string) returns (r: Option<Error>)
      requires pk in t.rows && Candidate(t.rows[pk], spec)
      ensures r.Some? ==> Blames(c, t, spec, r.value) && r.value.BadCell?
      ensures r.None? ==> forall i :: 0 <= i < |spec.columns| ==>
                            !Read(spec.columns[i].encoding, CellAt(t.rows[pk], spec.columns[i].name)).Unscannable?
    {
      var row := t.rows[pk];
      for i := 0 to |spec.columns|
        invariant forall j :: 0 <= j < i ==>
                    !Read(spec.columns[j].encoding, CellAt(row, spec.columns[j].name)).Unscannable?
      {
        if Read(spec.columns[i].encoding, CellAt(row, spec.columns[i].name)).Unscannable? {
          BlamesCell(c, t, spec, pk, i, NullText);
          return Some(BadCell(spec.table, spec.columns[i].name, pk, NullText));
        }
      }
      return None;
    }

    /** The cells of one candidate row: scanned first, then re-encrypted one by one. */
    method RekeyRow(c: Crypto, spec: TableSpec, t: Table, pk: string)
      returns (r: Result<seq<Option<Bytes>>, Error>, changed: bool, ghost origins: Origins)
      requires WellFormed(spec) && pk in t.rows && Candidate(t.rows[pk], spec)
      modifies this`draws
      ensures old(draws) <= draws
      ensures r.Failure? ==> Blames(c, t, spec, r.error) && !r.error.BadQuery?
      ensures r.Success? ==> RowPrepared(c, random, spec, t.rows[pk], pk, r.value, origins, old(draws), draws)
      ensures r.Success? ==> !RowRejected(c, t.rows[pk], spec)
      ensures r.Success? ==> (changed <==> RowStale(c, t.rows[pk], spec))
    {
      var unscannable := ScanRow(c, spec, t, pk);
      if unscannable.Some? {
        return Failure(unscannable.value), false, map[];
      }
      r, changed, origins := RekeyCells(c, spec, t, pk);
      if r.Success? {
        RowComplete(c, random, t.rows[pk], spec, pk, r.value, origins, old(draws), draws);
      }
    }

    method RekeyCells(c: Crypto, spec: TableSpec, t: Table, pk: string)
      returns (r: Result<seq<Option<Bytes>>, Error>, changed: bool, ghost origins: Origins)
      requires WellFormed(spec) && pk in t.rows && Candidate(t.rows[pk], spec)
      requires forall i :: 0 <= i < |spec.columns| ==>
                 !Read(spec.columns[i].encoding, CellAt(t.rows[pk], spec.columns[i].name)).Unscannable?
      modifies this`draws
      ensures old(draws) <= draws
      ensures r.Failure? ==> Blames(c, t, spec, r.error) && !r.error.BadQuery?
      ensures r.Success? ==>
                && |r.value| == |spec.columns| && FitsUpTo(c, t.rows[pk], spec, r.value)
                && RowUnderway(c, random, spec, pk, r.value, origins, old(draws), draws)
                && (changed <==> exists j :: 0 <= j < |r.value| && r.value[j].Some?)
    {
      var row := t.rows[pk];
      var newVals: seq<Option<Bytes>> := [];
      changed, origins := false, map[];
      for i := 0 to |spec.columns|
        invariant |newVals| == i && FitsUpTo(c, row, spec, newVals)
        invariant changed <==> exists j :: 0 <= j < i && newVals[j].Some?
        invariant RowUnderway(c, random, spec, pk, newVals, origins, old(draws), draws)
      {
        var col := spec.columns[i];
        ghost var at := draws;
        var newVal := RekeyCell(c, col.encoding, CellAt(row, col.name));
        if newVal.Failure? {
          if newVal.error.None? {
            return Failure(Environment), changed, origins;
          }
          BlamesCell(c, t, spec, pk, i, newVal.error.value);
          return Failure(BadCell(spec.table, col.name, pk, newVal.error.value)), changed, origins;
        }
        origins := NextCell(c, random, row, spec, pk, newVals, origins, newVal.value, old(draws), at, draws);
        newVals := newVals + [newVal.value];
        changed := changed || newVal.value.Some?;
      }
      r := Success(newVals);
    }

    /** Visit the candidate rows in whatever order the database returns them. */
    method CollectUpdates(c: Crypto, spec: TableSpec, t: Table, candidates: set<string>, ghost stale: set<string>)
      returns (r: Result<seq<Update>, Error>, ghost origins: Origins)
      requires WellFormed(spec)
      requires forall pk :: pk in candidates ==>
                 pk in t.rows && Candidate(t.rows[pk], spec) && (pk in stale <==> RowStale(c, t.rows[pk], spec))
      requires stale <= candidates
      modifies this`calls, this`draws
      ensures old(draws) <= draws
      ensures r.Failure? ==> Blames(c, t, spec, r.error) && !r.error.BadQuery?
      ensures r.Success? ==> Prepared(c, random, t, spec, r.value, stale, origins, old(draws), draws)
      ensures r.Success? ==> forall pk :: pk in candidates ==> !RowRejected(c, t.rows[pk], spec)
    {
      var pending := candidates;
      ghost var found: set<string> := {};
      var updates: seq<Update> := [];
      origins := map[];
      while pending != {}
        invariant pending <= candidates && found <= stale && found !! pending
        invariant forall pk :: pk in candidates && pk !in pending ==> (pk in found <==> pk in stale)
        invariant forall pk :: pk in candidates && pk !in pending ==> !RowRejected(c, t.rows[pk], spec)
        invariant Prepared(c, random, t, spec, updates, found, origins, old(draws), draws)
        decreases pending
      {
        var pk :| pk in pending;
        ghost var mid := draws;
        var newVals, changed, own := RekeyRow(c, spec, t, pk);
        if newVals.Failure? {
          return Failure(newVals.error), origins;
        }
        if changed {
          var u := Update(pk, newVals.value);
          PreparedAppend(c, random, t, spec, updates, found, origins, old(draws), mid, u, own, draws);
          updates, found, origins := updates + [u], found + {pk}, origins + own;
        } else {
          PreparedLater(c, random, t, spec, updates, found, origins, old(draws), mid, draws);
        }
        pending := pending - {pk};
      }
      var o := Call();
      if o != Fine {
        return Failure(Environment), origins;
      }
      assert found == stale;
      r := Success(updates);
    }

    /** Begin a transaction and run the candidate query. */
    method OpenTable(spec: TableSpec) returns (r: Result<Table, Error>)
      modifies this`calls
      ensures r.Success? ==> spec.table in tables && r.value == tables[spec.table] && Selectable(r.value, spec)
      ensures r.Failure? ==>
                || (r.error == Environment && !Quiet())
                || (r.error == BadQuery(spec.table) && (spec.table in tables ==> !Selectable(tables[spec.table], spec)))
    {
      var o := Call();
      if o != Fine {
        return Failure(Environment);
      }
      o := Call();
      if o != Fine {
        return Failure(Environment);
      }
      if spec.table !in tables || !Selectable(tables[spec.table], spec) {
        return Failure(BadQuery(spec.table));
      }
      return Success(tables[spec.table]);
    }

    /** Rotate one table in one transaction: nothing of it is visible before the commit. */
    method RotateTable(c: Crypto, spec: TableSpec, mode: Mode, version: SmallInt)
      returns (r: Result<nat, Error>, ghost origins: Origins)
      requires WellFormed(spec) && mode != Verify
      modifies this
      ensures Sourced(c, random, old(tables), tables, origins, old(draws), draws)
      ensures tables.Keys == old(tables).Keys
      ensures forall name :: name in tables && name != spec.table ==> tables[name] == old(tables)[name]
      ensures r.Success? ==>
                && spec.table in tables
                && Healthy(c, old(tables), spec)
                && r.value == |StaleRows(c, old(tables)[spec.table], spec)|
      ensures r.Success? && mode.Rotate? ==>
                && Committed(c, old(tables), spec, version, tables)
                && Stampable(c, old(tables)[spec.table], spec)
      ensures mode.DryRun? ==> tables == old(tables)
      ensures r.Failure? && spec.table in tables ==> Blames(c, old(tables)[spec.table], spec, r.error)
      ensures r.Failure? && Quiet() && spec.table in tables ==>
                || !Healthy(c, old(tables), spec)
                || (mode.Rotate? && !Stampable(c, old(tables)[spec.table], spec))
      ensures r.Failure? ==>
                || tables == old(tables)
                || (Committed(c, old(tables), spec, version, tables) && r.error == Environment && !Quiet())
    {
      var query := OpenTable(spec);
      SourcedNothing(c, random, tables, old(draws), draws);
      if query.Failure? {
        return Failure(query.error), map[];
      }
      var t := query.value;
      var candidates := set pk | pk in t.rows && Candidate(t.rows[pk], spec);
      ghost var stale := StaleRows(c, t, spec);
      forall pk | pk in t.rows { StaleIsCandidate(c, t.rows[pk], spec); }
      var updates, written := CollectUpdates(c, spec, t, candidates, stale);
      SourcedNothing(c, random, tables, old(draws), draws);
      if updates.Failure? {
        if updates.error.BadCell? {
          BlamedCell(c, t, spec, updates.error);
        }
        return Failure(updates.error), map[];
      }
      if mode.DryRun? {
        return Success(|updates.value|), map[];
      }
      r, origins := CommitUpdates(c, spec, t, updates.value, version, stale, written, old(draws));
    }

    /** The second half of the transaction: the UPDATE statements and the commit. */
    method CommitUpdates(c: Crypto, spec: TableSpec, t: Table, updates: seq<Update>, version: SmallInt,
                         ghost stale: set<string>, ghost written: Origins, ghost from: nat)
      returns (r: Result<nat, Error>, ghost origins: Origins)
      requires WellFormed(spec) && spec.table in tables && t == tables[spec.table] && Healthy(c, tables, spec)
      requires stale == StaleRows(c, t, spec) && Prepared(c, random, t, spec, updates, stale, written, from, draws)
      modifies this`tables, this`calls
      ensures Sourced(c, random, old(tables), tables, origins, from, draws)
      ensures r.Success? ==>
                && r.value == |stale| && Committed(c, old(tables), spec, version, tables)
                && Stampable(c, t, spec)
      ensures r.Failure? ==> Blames(c, t, spec, r.error)
      ensures r.Failure? && Quiet() ==> !Stampable(c, t, spec)
      ensures r.Failure? ==>
                || tables == old(tables)
                || (Committed(c, old(tables), spec, version, tables) && r.error == Environment && !Quiet())
    {
      var work := ApplyAll(c, spec, t, updates, version, stale);
      SourcedNothing(c, random, tables, from, draws);
      if work.Failure? {
        return Failure(work.error), map[];
      }
      var db := tables[spec.table := Table(t.columns, work.value)];
      InstallPrepared(c, random, tables, spec, updates, version, stale, work.value, written, from, draws);
      var o := Call();
      origins := map[];
      if o != Refused {
        tables, origins := db, written;
      }
      if o != Fine {
        return Failure(Environment), origins;
      }
      r := Success(|updates|);
    }

    /** The UPDATE statements, on the transaction's private version of the rows. */
    method ApplyAll(c: Crypto, spec: TableSpec, t: Table, updates: seq<Update>, version: SmallInt, ghost stale: set<string>)
      returns (r: Result<map<string, Row>, Error>)
      requires WellFormed(spec) && Lists(updates, stale) && Ready(c, t, spec, updates)
      modifies this`calls
      ensures r.Failure? ==> || (r.error == Environment && !Quiet())
                             || (r.error == BadQuery(spec.table) && stale != {} && spec.versionColumn !in t.columns)
      ensures r.Success? ==> RowsReplaced(c, t.rows, spec, version, stale, r.value)
      ensures r.Success? ==> RowsWritten(t.rows, spec, updates, stale, r.value)
      ensures r.Success? ==> stale == {} || spec.versionColumn in t.columns
    {
      var rows := t.rows;
      ghost var done: set<string> := {};
      for k := 0 to |updates|
        invariant k > 0 ==> spec.versionColumn in t.columns
        invariant done <= stale && DoneUpTo(updates, done, k)
        invariant RowsReplaced(c, t.rows, spec, version, done, rows)
        invariant forall l :: 0 <= l < k ==>
                    updates[l].pk in t.rows && RowWritten(t.rows[updates[l].pk], spec, updates[l].newVals, rows[updates[l].pk])
      {
        var u := updates[k];
        var o := Call();
        if o != Fine {
          return Failure(Environment);
        }
        DoneNext(updates, stale, done, k);
        if spec.versionColumn !in t.columns {
          return Failure(BadQuery(spec.table));
        }
        var row' := ApplyUpdate(rows[u.pk], spec, u.newVals, version, c);
        rows := rows[u.pk := row'];
        done := done + {u.pk};
      }
      DoneAll(updates, stale, done);
      r := Success(rows);
    }

    /** Count the rows of a table that are not on the new key, without touching anything. */
    method VerifyTable(c: Crypto, spec: TableSpec) returns (r: Result<nat, Error>)
      modifies this`calls
      ensures r.Success? ==>
                && spec.table in tables
                && Selectable(tables[spec.table], spec)
                && Scannable(tables[spec.table], spec)
                && r.value == |RowsBehind(c, tables[spec.table], spec)|
      ensures r.Failure? && spec.table in tables && Quiet() ==>
                !Selectable(tables[spec.table], spec) || !Scannable(tables[spec.table], spec)
    {
      var o := Call();
      if o != Fine {
        return Failure(Environment);
      }
      if spec.table !in tables || !Selectable(tables[spec.table], spec) {
        return Failure(BadQuery(spec.table));
      }
      var t := tables[spec.table];
      var candidates := set pk | pk in t.rows && Candidate(t.rows[pk], spec);
      forall pk | pk in t.rows { StaleIsCandidate(c, t.rows[pk], spec); }
      ghost var broken := set pk | pk in candidates && RowUnscannable(t.rows[pk], spec);
      r := CountBehind(c, spec, t, candidates, RowsBehind(c, t, spec), broken);
      if r.Success? {
        o := Call();
        if o != Fine {
          r := Failure(Environment);
        }
      }
    }

    method CountBehind(c: Crypto, spec: TableSpec, t: Table, candidates: set<string>,
                       ghost behind: set<string>, ghost broken: set<string>)
      returns (r: Result<nat, Error>)
      requires forall pk :: pk in candidates ==> pk in t.rows && (pk in behind <==> RowBehind(c, t.rows[pk], spec))
      requires forall pk :: pk in candidates ==> (pk in broken <==> RowUnscannable(t.rows[pk], spec))
      requires behind <= candidates && broken <= candidates
      ensures r.Success? ==> r.value == |behind|
      ensures r.Success? <==> broken == {}
    {
      var pending := candidates;
      ghost var found: set<string> := {};
      var remaining: nat := 0;
      while pending != {}
        invariant pending <= candidates && found <= behind && found !! pending
        invariant forall pk :: pk in candidates && pk !in pending ==> pk !in broken && (pk in found <==> pk in behind)
        invariant remaining == |found|
        decreases pending
      {
        var pk :| pk in pending;
        if RowUnscannable(t.rows[pk], spec) {
          return Failure(BadCell(spec.table, "", pk, NullText));
        }
        var onOld := InspectRow(c, spec, t.rows[pk]);
        if onOld {
          remaining, found := remaining + 1, found + {pk};
        }
        pending := pending - {pk};
      }
      assert found == behind;
      r := Success(remaining);
    }

    /** One spec: an optional table that is absent is skipped, a required one is an error. */
    method SweepOne(c: Crypto, spec: TableSpec, mode: Mode, version: SmallInt)
      returns (r: Result<Option<nat>, Error>, ghost origins: Origins)
      requires WellFormed(spec)
      modifies this
      ensures Sourced(c, random, old(tables), tables, origins, old(draws), draws)
      ensures tables.Keys == old(tables).Keys
      ensures r.Success? ==> spec.table in tables || spec.optional
      ensures r.Success? && spec.table in tables ==>
                spec.columns != [] && forall i :: 0 <= i < |spec.columns| ==> spec.columns[i].name in old(tables)[spec.table].columns
      ensures r.Success? && mode == Rotate && r.value.Some? && r.value.value > 0 ==>
                spec.table in tables && spec.versionColumn in old(tables)[spec.table].columns
      ensures r.Success? ==> Stepped(c, mode, old(tables), spec, version, tables, r.value)
      ensures mode != Rotate ==> tables == old(tables)
      ensures r.Failure? ==>
                || tables == old(tables)
                || (Committed(c, old(tables), spec, version, tables) && r.error == Environment)
      ensures r.Failure? && Quiet() ==>
                tables == old(tables) && !Passes(c, mode, tables, spec)
    {
      origins := map[];
      SourcedNothing(c, random, tables, draws, draws);
      if spec.optional {
        var o := Call();
        if o != Fine {
          return Failure(Environment), origins;
        }
        if spec.table !in tables {
          return Success(None), origins;
        }
      }
      var n: Result<nat, Error>;
      if mode == Verify {
        n := VerifyTable(c, spec);
      } else {
        n, origins := RotateTable(c, spec, mode, version);
      }
      r := if n.Failure? then Failure(n.error) else Success(Some(n.value));
    }

    /** Run one mode over every spec, stopping at the first error.  `done` is the number of
        specs completed, and `origins` tells for each cell written which draw it was sealed
        with. */
    method Sweep(c: Crypto, specs: seq<TableSpec>, mode: Mode, version: SmallInt)
      returns (rep: Report, err: Option<Error>, ghost done: nat, ghost origins: Origins)
      requires forall i :: 0 <= i < |specs| ==> WellFormed(specs[i])
      modifies this
      ensures err.None? <==> done == |specs|
      ensures err.None? ==> forall i :: 0 <= i < |specs| ==> specs[i].table in old(tables) || specs[i].optional
      ensures mode != Rotate ==> tables == old(tables)
      ensures Stopped(c, mode, old(tables), specs, version, done, tables, rep, err)
      ensures err.Some? && Quiet() ==> done < |specs| && !Passes(c, mode, tables, specs[done])
      ensures Sourced(c, random, old(tables), tables, origins, old(draws), draws)
    {
      rep, err, done, origins := Report(0, 0, map[]), None, 0, map[];
      Starts(c, random, mode, tables, specs, version, draws);
      for i := 0 to |specs|
        invariant done == i && err == None
        invariant Going(c, random, mode, old(tables), specs, version, i, tables, rep, origins, old(draws), draws)
      {
        var next;
        next, origins := SweepNext(c, specs, mode, version, i, rep, old(tables), origins, old(draws));
        if next.Failure? {
          return rep, Some(next.error), i, origins;
        }
        rep, done := next.value, i + 1;
      }
    }

    /** One round of the loop: the spec is done and counted, or the sweep stops here. */
    method SweepNext(c: Crypto, specs: seq<TableSpec>, mode: Mode, version: SmallInt, i: nat, rep: Report,
                     ghost db: Database, ghost origins: Origins, ghost from: nat)
      returns (r: Result<Report, Error>, ghost origins': Origins)
      requires i < |specs| && WellFormed(specs[i])
      requires Going(c, random, mode, db, specs, version, i, tables, rep, origins, from, draws)
      modifies this
      ensures r.Success? ==> Going(c, random, mode, db, specs, version, i + 1, tables, r.value, origins', from, draws)
      ensures r.Failure? ==>
                && Stopped(c, mode, db, specs, version, i, tables, rep, Some(r.error))
                && Sourced(c, random, db, tables, origins', from, draws)
                && (mode != Rotate ==> tables == db)
      ensures r.Failure? && Quiet() ==> !Passes(c, mode, tables, specs[i])
    {
      ghost var at := draws;
      var n, own := SweepOne(c, specs[i], mode, version);
      SourcedFurther(c, random, db, old(tables), tables, origins, own, from, at, draws);
      origins' := origins + own;
      if n.Failure? {
        StopsHere(c, mode, db, specs, version, i, old(tables), rep, tables, n.error);
        return Failure(n.error), origins';
      }
      GoesOn(c, random, mode, db, specs, version, i, old(tables), rep, tables, n.value, origins', from, draws);
      r := Success(Counted(rep, mode, specs[i].table, n.value));
    }

    /** The generation to stamp: one more than the largest stored in any existing table, in
        16-bit arithmetic.  It is new exactly while that largest stamp is below the top of the
        range; `top` is that stamp, or zero. */
    method NextVersion(specs: seq<TableSpec>) returns (r: Result<SmallInt, Error>, ghost top: SmallInt)
      modifies this`calls
      ensures r.Success? ==> TopStamp(tables, specs, top)
      ensures r.Success? ==> r.value == Narrow(top + 1)
      ensures r.Success? ==> (r.value > top <==> top < MAX_VERSION)
      ensures r.Failure? && Quiet() ==> exists i :: 0 <= i < |specs| && !Stamped(tables, specs[i])
    {
      var maxVer: SmallInt := 0;
      top := 0;
      for i := 0 to |specs|
        invariant top == maxVer && TopStamp(tables, specs[..i], maxVer)
      {
        var spec := specs[i];
        if spec.optional {
          var o := Call();
          if o != Fine {
            return Failure(Environment), top;
          }
        }
        if !(spec.optional && spec.table !in tables) {
          var o := Call();
          if o != Fine {
            return Failure(Environment), top;
          }
          if spec.table !in tables || spec.versionColumn !in tables[spec.table].columns {
            assert !Stamped(tables, spec);
            return Failure(BadQuery(spec.table)), top;
          }
          var v := MaxStamp(tables[spec.table], spec.versionColumn);
          if v > maxVer {
            maxVer := v;
          }
        }
        top := maxVer;
        assert forall j :: 0 <= j < i + 1 ==> specs[..i + 1][j] == specs[j];
        assert forall j :: 0 <= j < i ==> specs[..i][j] == specs[j];
      }
      assert specs[..|specs|] == specs;
      r := Success(Narrow(maxVer + 1));
    }
  }

  /** Narrowing to 16 bits, with wrap-around. */
  function Narrow(v: int): SmallInt {
    (v + MAX_VERSION + 1) % (2 * (MAX_VERSION + 1)) - MAX_VERSION - 1
  }

  predicate Stamped(db: Database, spec: TableSpec) {
    if spec.table in db then spec.versionColumn in db[spec.table].columns else spec.optional
  }

  /** No stamp of any existing swept table, optional ones included, is above `top`, and `top`
      is one of the stamps or zero. */
  ghost predicate TopStamp(db: Database, specs: seq<TableSpec>, top: int) {
    && top >= 0
    && (forall i :: 0 <= i < |specs| && specs[i].table in db ==> AtMost(db[specs[i].table], specs[i].versionColumn, top))
    && (top == 0 || exists i :: 0 <= i < |specs| && specs[i].table in db && Holds(db[specs[i].table], specs[i].versionColumn, top))
  }

  ghost predicate AtMost(t: Table, versionColumn: string, top: int) {
    forall pk :: pk in t.rows && versionColumn in t.rows[pk].versions ==> t.rows[pk].versions[versionColumn] <= top
  }

  ghost predicate Holds(t: Table, versionColumn: string, v: int) {
    exists pk :: pk in t.rows && versionColumn in t.rows[pk].versions && t.rows[pk].versions[versionColumn] == v
  }

  /** The largest stamp of a table, zero when every row's stamp is NULL. */
  method MaxStamp(t: Table, versionColumn: string) returns (v: SmallInt)
    ensures AtMost(t, versionColumn, v)
    ensures Holds(t, versionColumn, v) || v == 0
  {
    var pending := t.rows.Keys;
    var best: Option<SmallInt> := None;
    while pending != {}
      invariant pending <= t.rows.Keys
      invariant forall pk :: pk in t.rows && pk !in pending && versionColumn in t.rows[pk].versions ==>
                  best.Some? && t.rows[pk].versions[versionColumn] <= best.value
      invariant best.Some? ==> Holds(t, versionColumn, best.value)
      decreases pending
    {
      var pk :| pk in pending;
      pending := pending - {pk};
      if versionColumn in t.rows[pk].versions {
        var stamp := t.rows[pk].versions[versionColumn];
        if best.None? || stamp > best.value {
          best := Some(stamp);
        }
      }
    }
    v := if best.Some? then best.value else 0;
  }
}
