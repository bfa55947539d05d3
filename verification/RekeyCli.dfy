/** The rotate-kek command: key parsing, flag validation, the choice of the generation, and
    the run of one mode against the database. */
module RekeyCli {
  import opened Prelude
  import opened Aes
  import opened RekeyModel
  import opened RekeySweep
  import opened RekeyTheorems
  import Hex
  import Trim

  predicate Space(ch: byte) {
    9 <= ch <= 13 || ch == 32
  }

  /** A key is 32 bytes of hexadecimal text; blanks around it do not matter. */
  function ParseKeyHex(s: Bytes): Option<Bytes> {
    var key := Hex.Decode(Trim.Both(s, Space));
    if key.Some? && |key.value| == KEY_SIZE then key else None
  }

  lemma {:induction false} HexHasNoBlanks(b: Bytes, i: nat)
    requires i < 2 * |b|
    ensures !Space(Hex.Encode(b)[i])
  {
    if i >= 2 {
      HexHasNoBlanks(b[1..], i - 2);
    }
  }

  /** A generated key, pasted with any blanks around it, parses back to the same key. */
  lemma GeneratedKeyParses(key: Bytes, before: Bytes, after: Bytes)
    requires |key| == KEY_SIZE
    requires forall i :: 0 <= i < |before| ==> Space(before[i])
    requires forall i :: 0 <= i < |after| ==> Space(after[i])
    ensures ParseKeyHex(before + Hex.Encode(key) + after) == Some(key)
  {
    var text := Hex.Encode(key);
    HexHasNoBlanks(key, 0);
    HexHasNoBlanks(key, |text| - 1);
    Trim.DropsBlanks(before, text, after, Space);
    Hex.DecodeInvertsEncode(key);
  }

  /** A key parses exactly when the text between the blanks is sixty-four hexadecimal digits. */
  lemma KeysAreSixtyFourDigits(s: Bytes)
    ensures var text := Trim.Both(s, Space);
            ParseKeyHex(s).Some? <==> |text| == 64 && forall i :: 0 <= i < |text| ==> Hex.IsDigit(text[i])
  {
    Hex.DecodesExactlyHexText(Trim.Both(s, Space));
  }

  datatype Flags = Flags(dryRun: bool, verify: bool, generate: bool, toVersion: Option<int>)

  datatype Settings = Settings(newHex: Bytes, oldHex: Bytes, dsnSet: bool)

  datatype Exit =
    | Generated(keyHex: Bytes)
    | Invalid
    | Unreachable
    | Failed(error: Error)
    | RowsRemain(rep: Report)
    | Completed(rep: Report, version: SmallInt)

  /** The keys a run would use; verify leaves the old one unset. */
  function Keys(gcm: Gcm, flags: Flags, settings: Settings): Option<Crypto> {
    var newKey, oldKey := ParseKeyHex(settings.newHex), ParseKeyHex(settings.oldHex);
    if newKey.None? then None
    else if flags.verify then Some(Crypto(gcm, [], newKey.value))
    else if oldKey.None? || oldKey == newKey then None
    else Some(Crypto(gcm, oldKey.value, newKey.value))
  }

  /** What the command accepts from its operator. */
  predicate WellAsked(gcm: Gcm, flags: Flags, settings: Settings) {
    && !(flags.dryRun && flags.verify)
    && (flags.toVersion.Some? ==> 1 <= flags.toVersion.value <= MAX_VERSION)
    && Keys(gcm, flags, settings).Some?
    && settings.dsnSet
  }

  function ModeOf(flags: Flags): Mode {
    if flags.verify then Verify else if flags.dryRun then DryRun else Rotate
  }

  /** What can stop a run when nothing fails around it: no stamp to count from, or a spec that
      the data does not let through. */
  ghost predicate Stuck(c: Crypto, flags: Flags, db: Database, specs: seq<TableSpec>) {
    || (flags.toVersion.None? && !flags.verify && exists i :: 0 <= i < |specs| && !Stamped(db, specs[i]))
    || exists i :: 0 <= i < |specs| && !Passes(c, ModeOf(flags), db, specs[i])
  }

  /** The command.  Bad input is refused before the database is touched, an explicit version
      is stamped as given, an omitted one becomes the next generation, and only a rotation
      writes.  However a rotation ends, an exact prefix of the specs (`done` of them) has been
      swept; and when nothing fails around it, it ends early only where it is stuck. */
  method RunCli(store: Store, gcm: Gcm, flags: Flags, settings: Settings, specs: seq<TableSpec>, entropy: Option<Bytes>)
    returns (exit: Exit, ghost version: SmallInt, ghost done: nat)
    requires forall i :: 0 <= i < |specs| ==> WellFormed(specs[i])
    requires entropy.Some? ==> |entropy.value| == KEY_SIZE
    modifies store
    ensures exit.Generated? ==> flags.generate && ParseKeyHex(exit.keyHex) == entropy
    ensures exit.Invalid? <==> !flags.generate && !WellAsked(gcm, flags, settings)
    ensures !flags.generate ==>
              (exit.Invalid? <==>
                 || (flags.dryRun && flags.verify)
                 || (flags.toVersion.Some? && !(1 <= flags.toVersion.value <= 32767))
                 || ParseKeyHex(settings.newHex).None?
                 || (!flags.verify && ParseKeyHex(settings.oldHex).None?)
                 || (!flags.verify && ParseKeyHex(settings.oldHex) == ParseKeyHex(settings.newHex))
                 || !settings.dsnSet)
    ensures flags.generate || exit.Invalid? || ModeOf(flags) != Rotate ==> store.tables == old(store.tables)
    ensures store.tables != old(store.tables) ==>
              && Keys(gcm, flags, settings).Some?
              && Cut(Keys(gcm, flags, settings).value, old(store.tables), specs, (done, version), store.tables)
              && ChosenVersion(flags, old(store.tables), specs, version)
    ensures exit.Completed? && ModeOf(flags) == Rotate ==>
              && Keys(gcm, flags, settings).Some?
              && Swept(Keys(gcm, flags, settings).value, old(store.tables), specs, exit.version, store.tables)
    ensures exit.Completed? && ModeOf(flags) != Verify ==> ChosenVersion(flags, old(store.tables), specs, exit.version)
    ensures ModeOf(flags) == Verify && (exit.Completed? || exit.RowsRemain?) ==>
              && Keys(gcm, flags, settings).Some?
              && (exit.Completed? <==> forall i :: 0 <= i < |specs| ==>
                    Settled(Keys(gcm, flags, settings).value, store.tables, specs[i]))
    ensures store.Quiet() && !flags.generate && WellAsked(gcm, flags, settings) && !exit.Completed? && !exit.RowsRemain? ==>
              Stuck(Keys(gcm, flags, settings).value, flags, store.tables, specs)
  {
    version, done := 0, 0;
    if flags.generate {
      if entropy.None? {
        return Failed(Environment), version, done;
      }
      Hex.DecodeInvertsEncode(entropy.value);
      GeneratedKeyParses(entropy.value, [], []);
      assert [] + Hex.Encode(entropy.value) + [] == Hex.Encode(entropy.value);
      return Generated(Hex.Encode(entropy.value)), version, done;
    }
    if flags.dryRun && flags.verify {
      return Invalid, version, done;
    }
    if flags.toVersion.Some? && (flags.toVersion.value <= 0 || flags.toVersion.value > MAX_VERSION) {
      return Invalid, version, done;
    }
    var newKey := ParseKeyHex(settings.newHex);
    if newKey.None? {
      return Invalid, version, done;
    }
    var oldKey: Bytes := [];
    if !flags.verify {
      var parsed := ParseKeyHex(settings.oldHex);
      if parsed.None? {
        return Invalid, version, done;
      }
      oldKey := parsed.value;
      if oldKey == newKey.value {
        return Invalid, version, done;
      }
    }
    if !settings.dsnSet {
      return Invalid, version, done;
    }
    var c := Crypto(gcm, oldKey, newKey.value);
    var ping := store.Call();
    if ping != Fine {
      return Unreachable, version, done;
    }
    if flags.verify {
      exit := RunVerify(store, c, specs);
    } else {
      exit, version, done := RunRotate(store, c, specs, flags);
      assert specs[..|specs|] == specs;
    }
  }

  method RunVerify(store: Store, c: Crypto, specs: seq<TableSpec>) returns (exit: Exit)
    requires forall i :: 0 <= i < |specs| ==> WellFormed(specs[i])
    modifies store
    ensures store.tables == old(store.tables)
    ensures exit.Failed? || exit.Completed? || exit.RowsRemain?
    ensures exit.Completed? ==> forall i :: 0 <= i < |specs| ==> Settled(c, store.tables, specs[i])
    ensures exit.RowsRemain? ==> exists i :: 0 <= i < |specs| && !Settled(c, store.tables, specs[i])
    ensures exit.Failed? && store.Quiet() ==> exists i :: 0 <= i < |specs| && !Passes(c, Verify, store.tables, specs[i])
  {
    var rep, err, done, origins := store.Sweep(c, specs, Verify, 0);
    if err.Some? {
      return Failed(err.value);
    }
    assert specs[..|specs|] == specs;
    VerifyZeroMeansSettled(c, store.tables, specs);
    exit := if rep.rowsOnOldKey > 0 then RowsRemain(rep) else Completed(rep, 0);
  }

  /** The version asked for, or one above the largest stored. */
  ghost predicate ChosenVersion(flags: Flags, db: Database, specs: seq<TableSpec>, version: SmallInt) {
    if flags.toVersion.Some? then version == flags.toVersion.value
    else exists top: SmallInt :: TopStamp(db, specs, top) && version == Narrow(top + 1)
  }

  method ChooseVersion(store: Store, specs: seq<TableSpec>, flags: Flags) returns (r: Result<SmallInt, Error>)
    requires flags.toVersion.Some? ==> 1 <= flags.toVersion.value <= MAX_VERSION
    modifies store`calls
    ensures r.Success? ==> ChosenVersion(flags, store.tables, specs, r.value)
    ensures r.Failure? && store.Quiet() ==>
              flags.toVersion.None? && exists i :: 0 <= i < |specs| && !Stamped(store.tables, specs[i])
  {
    var ver := Narrow(if flags.toVersion.Some? then flags.toVersion.value else 0);
    if ver == 0 {
      var next, top := store.NextVersion(specs);
      return next;
    }
    return Success(ver);
  }

  /** Rotate or dry-run.  Whatever happens, what is left behind is one cut. */
  method RunRotate(store: Store, c: Crypto, specs: seq<TableSpec>, flags: Flags)
    returns (exit: Exit, ghost version: SmallInt, ghost done: nat)
    requires forall i :: 0 <= i < |specs| ==> WellFormed(specs[i])
    requires flags.toVersion.Some? ==> 1 <= flags.toVersion.value <= MAX_VERSION
    modifies store
    ensures exit.Failed? || exit.Completed?
    ensures flags.dryRun ==> store.tables == old(store.tables)
    ensures !flags.dryRun ==> Cut(c, old(store.tables), specs, (done, version), store.tables)
    ensures exit.Completed? || store.tables != old(store.tables) ==>
              ChosenVersion(flags, old(store.tables), specs, version)
    ensures exit.Completed? ==> exit.version == version && done == |specs|
    ensures exit.Failed? && store.Quiet() ==>
              Stuck(c, flags.(verify := false), store.tables, specs)
  {
    var ver := ChooseVersion(store, specs, flags);
    if ver.Failure? {
      assert Swept(c, store.tables, specs[..0], 0, store.tables);
      return Failed(ver.error), 0, 0;
    }
    version := ver.value;
    var mode := if flags.dryRun then DryRun else Rotate;
    var rep, err, completed, origins := store.Sweep(c, specs, mode, ver.value);
    done := completed;
    if !flags.dryRun {
      done := StoppedSweepIsCut(c, old(store.tables), specs, ver.value, completed, store.tables, rep);
    }
    exit := if err.Some? then Failed(err.value) else Completed(rep, ver.value);
  }
}
