/** The persistent update store (`crates/abora-update/src/store.rs`): an edited copy replaces the file by an atomic
    rename, and memory afterwards; history is bounded. */
module Store {
  import opened Prelude
  import opened UpdateTypes

  const SCHEMA_VERSION: nat := 1
  const MAX_HISTORY: nat := 500

  /** The persistent record; the newest history entry is its last. */
  datatype StoreData = StoreData(schema: nat, lastCheck: Option<string>, reboot: RebootStatus,
                                 history: seq<HistoryEntry>)

  const NO_REBOOT := RebootStatus(false, None, None)
  const DEFAULT_DATA := StoreData(SCHEMA_VERSION, None, NO_REBOOT, [])

  /** A store that starts empty knows of no check, no pending reboot and no update. */
  lemma DefaultIsEmpty()
    ensures !DEFAULT_DATA.reboot.required && DEFAULT_DATA.lastCheck == None && DEFAULT_DATA.history == []
    ensures DEFAULT_DATA.reboot.reason == None && DEFAULT_DATA.reboot.pendingSince == None
    ensures LoadContent(None) == Ok(DEFAULT_DATA) && LoadContent(Some(Unparseable)) == Ok(DEFAULT_DATA)
  {}

  /** What a file's bytes parse to. */
  datatype Content = Encoded(data: StoreData) | Unparseable

  datatype Opened = Fresh | Loaded | Recovered

  datatype StoreError = Io | NewerSchema(found: nat)

  datatype Edit = RecordCheck(when: string) | RecordUpdate(entry: HistoryEntry) | SetReboot(status: RebootStatus)

  function ApplyEdit(data: StoreData, edit: Edit): StoreData {
    match edit
    case RecordCheck(when) => data.(lastCheck := Some(when))
    case RecordUpdate(entry) => data.(history := data.history + [entry])
    case SetReboot(status) => data.(reboot := status)
  }

  function TrimData(data: StoreData): StoreData {
    data.(history := LastN(data.history, MAX_HISTORY))
  }

  /** What opening a file makes of its content. */
  function LoadContent(file: Option<Content>): Result<StoreData, StoreError> {
    match file
    case None => Ok(DEFAULT_DATA)
    case Some(Unparseable) => Ok(DEFAULT_DATA)
    case Some(Encoded(data)) => if data.schema > SCHEMA_VERSION then Err(NewerSchema(data.schema))
      else Ok(TrimData(data))
  }

  // ----- Saving -----

  /** Where a save is interrupted, if it is: by an error that is reported, or by the end of the process. */
  datatype Fault = Healthy | DirectoryFails | WriteFails | RenameFails | CrashInWrite | CrashBeforeRename
    | CrashAfterRename

  datatype Outcome = Saved | Failed | Crashed

  function OutcomeOf(fault: Fault): Outcome {
    match fault
    case Healthy => Saved
    case DirectoryFails => Failed
    case WriteFails => Failed
    case RenameFails => Failed
    case _ => Crashed
  }

  /** The rename, the one step after which the change is permanent, was reached. */
  predicate Commits(fault: Fault) { fault.Healthy? || fault.CrashAfterRename? }

  /** The store file, the temporary file next to it, and the place damaged files are moved to. */
  class Disk {
    var file: Option<Content>
    var tmp: Option<Content>
    var backup: Option<Content>

    constructor (file: Option<Content>)
      ensures this.file == file && tmp == None && backup == None
    {
      this.file, tmp, backup := file, None, None;
    }

    /** Write a temporary file, then rename it over the store file. */
    method Save(data: StoreData, fault: Fault) returns (outcome: Outcome)
      modifies this
      ensures outcome == OutcomeOf(fault)
      ensures file == if Commits(fault) then Some(Encoded(data)) else old(file)
      ensures backup == old(backup)
      ensures outcome.Saved? ==> tmp == None
      ensures outcome.Failed? && !fault.DirectoryFails? ==> tmp == None
    {
      if fault.DirectoryFails? { return Failed; }
      tmp := Some(Unparseable);
      if fault.CrashInWrite? { return Crashed; }
      if fault.WriteFails? {
        tmp := None;
        return Failed;
      }
      tmp := Some(Encoded(data));
      if fault.CrashBeforeRename? { return Crashed; }
      if fault.RenameFails? {
        tmp := None;
        return Failed;
      }
      file, tmp := tmp, None;
      if fault.CrashAfterRename? { return Crashed; }
      outcome := Saved;
    }
  }

  /** The state of a running store and its file after one change. */
  function ChangedFile(file: Option<Content>, data: StoreData, edit: Edit, fault: Fault): Option<Content> {
    if Commits(fault) then Some(Encoded(TrimData(ApplyEdit(data, edit)))) else file
  }

  class UpdateStore {
    /** `null` for a store in memory only. */
    const disk: Disk?
    var data: StoreData

    /** Reopening the file would load exactly what is in memory. */
    ghost predicate Valid()
      reads this, disk
    {
      data.schema <= SCHEMA_VERSION && |data.history| <= MAX_HISTORY
      && (disk != null ==> LoadContent(disk.file) == Ok(data))
    }

    constructor InMemory()
      ensures Valid() && disk == null && data == DEFAULT_DATA
    {
      disk, data := null, DEFAULT_DATA;
    }

    constructor On(disk: Disk, data: StoreData)
      requires LoadContent(disk.file) == Ok(data)
      ensures Valid() && this.disk == disk && this.data == data
    {
      this.disk, this.data := disk, data;
    }

    /** Load the record. Damaged files are set aside, and those of a later schema stay where they are. */
    static method Open(disk: Disk, readFails: bool, moveFails: bool)
      returns (r: Result<(UpdateStore, Opened), StoreError>)
      modifies disk
      ensures r.Ok? ==> r.value.0.Valid() && fresh(r.value.0) && r.value.0.disk == disk
      ensures r.Ok? ==> Ok(r.value.0.data) == LoadContent(old(disk.file))
      ensures r.Ok? ==>
        r.value.1 == if old(disk.file).None? then Fresh else if old(disk.file).value.Encoded? then Loaded else Recovered
      ensures r.Ok? && r.value.1.Recovered? ==> disk.backup == old(disk.file) && disk.file == None
      ensures r.Ok? && !r.value.1.Recovered? ==> disk.file == old(disk.file) && disk.backup == old(disk.backup)
      ensures r.Err? ==> disk.file == old(disk.file) && disk.backup == old(disk.backup)
      ensures r.Err? <==>
        readFails || LoadContent(old(disk.file)).Err? || (old(disk.file) == Some(Unparseable) && moveFails)
    {
      if readFails { return Err(Io); }
      var found, how := DEFAULT_DATA, Fresh;
      if disk.file.Some? {
        if disk.file.value.Encoded? {
          found, how := disk.file.value.data, Loaded;
          if found.schema > SCHEMA_VERSION { return Err(NewerSchema(found.schema)); }
        } else {
          if moveFails { return Err(Io); }
          disk.backup, disk.file := disk.file, None;
          how := Recovered;
        }
      }
      var store := new UpdateStore.On(disk, TrimData(found));
      r := Ok((store, how));
    }

    /** Memory follows the disk: the edited record takes effect here after it has been written there. */
    method Change(edit: Edit, fault: Fault) returns (outcome: Outcome)
      requires Valid()
      modifies this, disk
      ensures outcome == if disk == null then Saved else OutcomeOf(fault)
      ensures data == if outcome.Saved? then TrimData(ApplyEdit(old(data), edit)) else old(data)
      ensures disk != null ==> disk.file == ChangedFile(old(disk.file), old(data), edit, fault)
      ensures !outcome.Crashed? ==> Valid()
      ensures outcome.Crashed? ==>
        LoadContent(disk.file) == Ok(old(data)) || LoadContent(disk.file) == Ok(TrimData(ApplyEdit(old(data), edit)))
    {
      var next := TrimData(ApplyEdit(data, edit));
      if disk != null {
        outcome := disk.Save(next, fault);
        if !outcome.Saved? { return; }
      }
      data := next;
      outcome := Saved;
    }

    method RecordUpdate(entry: HistoryEntry, fault: Fault) returns (outcome: Outcome)
      requires Valid()
      modifies this, disk
      ensures outcome == if disk == null then Saved else OutcomeOf(fault)
      ensures data == if outcome.Saved? then old(data).(history := LastN(old(data).history + [entry], MAX_HISTORY))
        else old(data)
      ensures disk != null ==> disk.file == ChangedFile(old(disk.file), old(data), Edit.RecordUpdate(entry), fault)
      ensures !outcome.Crashed? ==> Valid()
    {
      outcome := Change(Edit.RecordUpdate(entry), fault);
    }

    /** History, newest first. */
    method History() returns (h: seq<HistoryEntry>)
      ensures |h| == |data.history| && forall i :: 0 <= i < |h| ==> h[i] == data.history[|h| - 1 - i]
    {
      var oldest := data.history;
      h := seq(|oldest|, i requires 0 <= i < |oldest| => oldest[|oldest| - 1 - i]);
    }
  }

  // ----- Whole lifetimes -----

  /** The store file and the live state of one daemon after another. */
  datatype State = State(file: Option<Content>, data: StoreData)

  predicate Consistent(s: State) {
    LoadContent(s.file) == Ok(s.data)
  }

  /** One attempted change, or a restart. A crash is followed by a restart, which reopens the file. */
  datatype Op = Attempt(edit: Edit, fault: Fault) | Restart

  function Reopen(file: Option<Content>): (s: State)
    requires LoadContent(file).Ok?
    ensures LoadContent(s.file) == LoadContent(file)
  {
    State(if file == Some(Unparseable) then None else file, LoadContent(file).value)
  }

  lemma ChangedFileLoads(s: State, edit: Edit, fault: Fault)
    requires Consistent(s)
    ensures LoadContent(ChangedFile(s.file, s.data, edit, fault)) ==
      if Commits(fault) then Ok(TrimData(ApplyEdit(s.data, edit))) else Ok(s.data)
  {}

  function Step(s: State, op: Op): (next: State)
    requires Consistent(s)
    ensures Consistent(next)
  {
    match op
    case Restart => Reopen(s.file)
    case Attempt(edit, fault) =>
      ChangedFileLoads(s, edit, fault);
      var file := ChangedFile(s.file, s.data, edit, fault);
      match OutcomeOf(fault)
      case Saved => State(file, TrimData(ApplyEdit(s.data, edit)))
      case Failed => State(file, s.data)
      case Crashed => Reopen(file)
  }

  function Run(s: State, ops: seq<Op>): (last: State)
    requires Consistent(s)
    ensures Consistent(last)
    decreases |ops|
  {
    if ops == [] then s else Run(Step(s, ops[0]), ops[1..])
  }

  /** The edits whose rename was reached, in order: the append-only log that the store implements. */
  function Committed(ops: seq<Op>): seq<Edit> {
    if ops == [] then []
    else (if IsCommitted(ops[0]) then [ops[0].edit] else []) + Committed(ops[1..])
  }

  function ApplyAll(data: StoreData, edits: seq<Edit>): StoreData
    decreases |edits|
  {
    if edits == [] then data else ApplyAll(ApplyEdit(data, edits[0]), edits[1..])
  }

  function Entries(edits: seq<Edit>): seq<HistoryEntry> {
    if edits == [] then []
    else (if edits[0].RecordUpdate? then [edits[0].entry] else []) + Entries(edits[1..])
  }

  lemma {:induction false} TrimEarlyOrLate(data: StoreData, edits: seq<Edit>)
    ensures TrimData(ApplyAll(TrimData(data), edits)) == TrimData(ApplyAll(data, edits))
    decreases |edits|
  {
    if edits != [] {
      var (edited, trimmed) := (ApplyEdit(data, edits[0]), ApplyEdit(TrimData(data), edits[0]));
      if edits[0].RecordUpdate? {
        LastNAppend(data.history, [edits[0].entry], MAX_HISTORY);
      }
      assert TrimData(edited) == TrimData(trimmed);
      TrimEarlyOrLate(edited, edits[1..]);
      TrimEarlyOrLate(trimmed, edits[1..]);
    }
  }

  lemma {:induction false} ApplyAllHistory(data: StoreData, edits: seq<Edit>)
    ensures ApplyAll(data, edits).history == data.history + Entries(edits)
    decreases |edits|
  {
    if edits == [] {
      assert data.history + [] == data.history;
    } else {
      var edited, rest := ApplyEdit(data, edits[0]), Entries(edits[1..]);
      ApplyAllHistory(edited, edits[1..]);
      if edits[0].RecordUpdate? {
        assert data.history + [edits[0].entry] + rest == data.history + ([edits[0].entry] + rest);
      } else {
        assert [] + rest == rest;
      }
    }
  }

  /** Over every sequence of changes, failed saves, crashes at any point of a save, and restarts, the store is
      the initial record with exactly the committed edits applied, its history cut to the newest 500; and
      reopening the file would load just that. */
  lemma {:induction false} StoreRefinesLog(s: State, ops: seq<Op>)
    requires Consistent(s)
    ensures Run(s, ops).data == TrimData(ApplyAll(s.data, Committed(ops)))
    ensures Consistent(Run(s, ops))
    decreases |ops|
  {
    if ops != [] {
      var rest := Committed(ops[1..]);
      StepAppliesCommitted(s, ops[0]);
      StoreRefinesLog(Step(s, ops[0]), ops[1..]);
      if IsCommitted(ops[0]) {
        TrimEarlyOrLate(ApplyEdit(s.data, ops[0].edit), rest);
        CommittedFirst(s.data, ops[0].edit, rest);
      } else {
        assert [] + rest == rest;
      }
    }
  }

  lemma CommittedFirst(data: StoreData, edit: Edit, rest: seq<Edit>)
    ensures ApplyAll(data, [edit] + rest) == ApplyAll(ApplyEdit(data, edit), rest)
  {
    assert ([edit] + rest)[1..] == rest;
  }

  predicate IsCommitted(op: Op) { op.Attempt? && Commits(op.fault) }

  lemma StepAppliesCommitted(s: State, op: Op)
    requires Consistent(s)
    ensures Step(s, op).data == if IsCommitted(op) then TrimData(ApplyEdit(s.data, op.edit)) else s.data
  {
    if op.Attempt? {
      ChangedFileLoads(s, op.edit, op.fault);
    }
  }

  /** In particular history is the last 500 of the initial entries followed by the committed ones. */
  lemma HistoryIsLastEntries(s: State, ops: seq<Op>)
    requires Consistent(s)
    ensures Run(s, ops).data.history == LastN(s.data.history + Entries(Committed(ops)), 500)
  {
    StoreRefinesLog(s, ops);
    ApplyAllHistory(s.data, Committed(ops));
  }
}
