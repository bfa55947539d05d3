/** The rotation of one table interleaved with writers.  The rotation reads rows one by one,
    then commits its updates at once; with locking, a row it has read stays write-locked
    until the commit.  Writers replace, delete and insert rows in between. */
module RowLocks {
  import opened Prelude
  import opened Aes
  import opened RekeyModel
  import RekeyTheorems

  /** The rows, and the copies the rotation has read so far. */
  datatype State = State(rows: map<string, Row>, read: map<string, Row>)

  datatype Event =
    | Select(pk: string)
    | Write(pk: string, row: Row)
    | Delete(pk: string)
    | Insert(pk: string, row: Row)

  predicate Enabled(lock: bool, s: State, e: Event) {
    match e
    case Select(pk) => pk in s.rows && pk !in s.read
    case Write(pk, _) => pk in s.rows && (lock ==> pk !in s.read)
    case Delete(pk) => pk in s.rows && (lock ==> pk !in s.read)
    case Insert(pk, _) => pk !in s.rows
  }

  function Next(s: State, e: Event): State {
    match e
    case Select(pk) => if pk in s.rows then s.(read := s.read[pk := s.rows[pk]]) else s
    case Write(pk, row) => if pk in s.rows then s.(rows := s.rows[pk := row]) else s
    case Delete(pk) => s.(rows := s.rows - {pk})
    case Insert(pk, row) => s.(rows := s.rows[pk := row])
  }

  /** Every interleaving of the rotation's reads with the writers' steps. */
  predicate Run(lock: bool, s: State, events: seq<Event>, s': State)
    decreases events
  {
    if events == [] then s' == s
    else Enabled(lock, s, events[0]) && Run(lock, Next(s, events[0]), events[1..], s')
  }

  /** The UPDATE of one row: the renewed cells are computed from the copy that was read, and
      written over the row as it is now. */
  ghost predicate Overwritten(c: Crypto, copy: Row, row: Row, spec: TableSpec, version: SmallInt, row': Row) {
    && row'.versions == row.versions[spec.versionColumn := version]
    && (forall i :: 0 <= i < |spec.columns| ==>
          var encoding, name := spec.columns[i].encoding, spec.columns[i].name;
          var plan := PlanCell(c, encoding, CellAt(copy, name));
          if plan.Renew? then Sealed(c, encoding, plan.plain, CellAt(row', name))
          else CellAt(row', name) == CellAt(row, name))
    && (forall name :: name !in Names(spec) ==> CellAt(row', name) == CellAt(row, name))
  }

  /** The commit: every stale row that was read and still exists is updated. */
  ghost predicate Commit(c: Crypto, spec: TableSpec, version: SmallInt, s: State, rows': map<string, Row>) {
    && rows'.Keys == s.rows.Keys
    && (forall pk :: pk in s.rows ==>
          if pk in s.read && RowStale(c, s.read[pk], spec)
          then Overwritten(c, s.read[pk], s.rows[pk], spec, version, rows'[pk])
          else rows'[pk] == s.rows[pk])
  }

  ghost predicate CopiesCurrent(s: State) {
    forall pk :: pk in s.read ==> pk in s.rows && s.rows[pk] == s.read[pk]
  }

  lemma {:induction false} LocksKeepCopiesCurrent(s: State, events: seq<Event>, s': State)
    requires CopiesCurrent(s) && Run(true, s, events, s')
    ensures CopiesCurrent(s')
    decreases events
  {
    if events != [] {
      assert CopiesCurrent(Next(s, events[0]));
      LocksKeepCopiesCurrent(Next(s, events[0]), events[1..], s');
    }
  }

  /** With locking there is no lost update: in every interleaving, each row that the commit
      changes is the rotation of the row as it stands at the moment of the commit. */
  lemma LockedCommitRotatesCurrentRows(c: Crypto, spec: TableSpec, version: SmallInt, rows: map<string, Row>,
                                       events: seq<Event>, s: State, rows': map<string, Row>, pk: string)
    requires Run(true, State(rows, map[]), events, s) && Commit(c, spec, version, s, rows')
    requires pk in s.rows
    ensures pk in rows'
    ensures if pk in s.read && RowStale(c, s.rows[pk], spec)
            then RowRotated(c, s.rows[pk], spec, version, rows'[pk])
            else rows'[pk] == s.rows[pk]
  {
    LocksKeepCopiesCurrent(State(rows, map[]), events, s);
    if pk in s.read && RowStale(c, s.rows[pk], spec) {
      forall i | 0 <= i < |spec.columns|
        ensures CellRotated(c, spec.columns[i].encoding, CellAt(s.rows[pk], spec.columns[i].name),
                            CellAt(rows'[pk], spec.columns[i].name))
      {
        assert s.read[pk] == s.rows[pk];
      }
    }
  }

  /** Without locking the property fails, whatever the cipher: between the read and the
      commit a writer stores another secret, and every commit overwrites it with the first. */
  lemma UnlockedCommitLosesUpdate(c: Crypto, encoding: Encoding, a: Cell, b: Cell, version: SmallInt)
    requires Lawful(c.gcm)
    requires PlanCell(c, encoding, a).Renew? && PlanCell(c, encoding, b).Renew?
    requires PlanCell(c, encoding, a) != PlanCell(c, encoding, b)
    ensures var spec := TableSpec("t", "v", [Column("x", encoding)], false);
            var s := State(map["k" := Row(map["x" := b], map[])], map["k" := Row(map["x" := a], map[])]);
            && (exists events :: Run(false, State(map["k" := Row(map["x" := a], map[])], map[]), events, s))
            && (forall rows' :: Commit(c, spec, version, s, rows') ==>
                  !RowRotated(c, s.rows["k"], spec, version, rows'["k"]))
  {
    var spec := TableSpec("t", "v", [Column("x", encoding)], false);
    var s0 := State(map["k" := Row(map["x" := a], map[])], map[]);
    var s := State(map["k" := Row(map["x" := b], map[])], map["k" := Row(map["x" := a], map[])]);
    var events := [Select("k"), Write("k", Row(map["x" := b], map[]))];
    var s1 := Next(s0, events[0]);
    assert s1.rows == s0.rows && s1.read == map["k" := s0.rows["k"]];
    assert Next(s1, events[1]) == s;
    assert events[1..] == [events[1]] && events[1..][1..] == [];
    assert Run(false, s, [], s);
    assert Run(false, s1, events[1..], s);
    assert Run(false, s0, events, s);
    forall rows' | Commit(c, spec, version, s, rows')
      ensures !RowRotated(c, s.rows["k"], spec, version, rows'["k"])
    {
      var cell := CellAt(rows'["k"], "x");
      assert spec.columns[0].name == "x";
      assert PlanCell(c, spec.columns[0].encoding, CellAt(s.read["k"], spec.columns[0].name)).Renew?;
      assert RowStale(c, s.read["k"], spec);
      assert Sealed(c, encoding, PlanCell(c, encoding, a).plain, cell);
      RekeyTheorems.SealedReads(c, encoding, PlanCell(c, encoding, a).plain, cell);
      if RowRotated(c, s.rows["k"], spec, version, rows'["k"]) {
        assert CellRotated(c, spec.columns[0].encoding, CellAt(s.rows["k"], spec.columns[0].name), cell);
        RekeyTheorems.SealedReads(c, encoding, PlanCell(c, encoding, b).plain, cell);
        assert false;
      }
    }
  }
}
