/** The daemon's object takes the protocol's steps: each of its methods, called in a state of the protocol, leads to
    the state the protocol's step computes; and if the process ends inside a save, so does reopening the store. */
module DaemonSteps {
  import opened Prelude
  import opened UpdateTypes
  import opened ApplyRules
  import opened Schedule
  import opened Protocol
  import Daemon = UpdatesState
  import Store

  /** The object's fields, its files and its disk are the protocol's. */
  ghost predicate Matches(d: Daemon.UpdatesState, w: World)
    reads d, d.files, d.store, d.store.disk
  {
    && d.Valid() && d.store.disk != null
    && w.request == d.files.request && w.result == d.files.result && w.available == d.available
    && w.store == Store.State(d.store.disk.file, d.store.data)
  }

  /** What a new process finds after the old one ended inside a save. */
  ghost predicate RestartMatches(d: Daemon.UpdatesState, w: World)
    reads d, d.files, d.store, d.store.disk
  {
    && d.store.disk != null && Store.LoadContent(d.store.disk.file).Ok?
    && w.request == d.files.request && w.result == d.files.result && w.available == []
    && w.store == Store.Reopen(d.store.disk.file)
  }

  method Check(d: Daemon.UpdatesState, ghost w: World, channel: Channel, output: Result<string, string>, when: string,
               fault: Store.Fault)
    returns (crashed: bool)
    requires Matches(d, w)
    modifies d, d.store, d.store.disk
    ensures if crashed then RestartMatches(d, CheckStep(w, channel, output, when, fault))
            else Matches(d, CheckStep(w, channel, output, when, fault))
  {
    var count;
    count, crashed := d.Refresh(channel, output, when, fault);
  }

  method Ask(d: Daemon.UpdatesState, ghost w: World, config: Config, caller: string, localTime: Option<LocalTime>,
             hash: nat, at: string, size: nat, modified: int, writeOk: bool)
    returns (r: Result<Daemon.ApplyResponse, Daemon.ApplyRefusal>)
    requires Matches(d, w) && Daemon.NewRequestId(hash) !in w.issued
    modifies d.files
    ensures Matches(d, AskStep(w, Action.Ask(config, caller, localTime, hash, at, size, modified, writeOk)))
  {
    r := d.RequestApply(config, caller, false, localTime, hash, at, size, modified, writeOk);
  }

  method Ingest(d: Daemon.UpdatesState, ghost w: World, channel: Channel, readable: bool, fault: Store.Fault)
    returns (recorded: bool, crashed: bool)
    requires Matches(d, w)
    modifies d, d.store, d.store.disk
    ensures if crashed then RestartMatches(d, IngestStep(w, channel, readable, fault))
            else Matches(d, IngestStep(w, channel, readable, fault))
    ensures recorded <==> !crashed && IngestStep(w, channel, readable, fault).ids != w.ids
  {
    recorded, crashed := d.IngestApplyResult(channel, readable, fault);
  }

  /** Nothing, where nothing is new about a pending reboot. */
  function NoteRebootStep(w: World, news: Option<RebootStatus>, fault: Store.Fault): World
    requires Store.Consistent(w.store)
  {
    if news.None? then w else Change(w, Store.SetReboot(news.value), fault)
  }

  method NoteReboot(d: Daemon.UpdatesState, ghost w: World, marker: bool, listed: Option<string>, now: string,
                    fault: Store.Fault)
    returns (status: Option<RebootStatus>, crashed: bool)
    requires Matches(d, w)
    modifies d.store, d.store.disk
    ensures var next := NoteRebootStep(w, Daemon.RebootNews(w.store.data.reboot, marker, listed, now), fault);
      if crashed then RestartMatches(d, next) else Matches(d, next)
  {
    status, crashed := d.RebootRequired(marker, listed, now, fault);
  }

  /** A new process opens the store and starts with nothing listed. */
  method Restart(disk: Store.Disk, files: ApplyFiles, ghost w: World) returns (d: Daemon.UpdatesState)
    requires Store.Consistent(w.store) && w.store.file == disk.file
    requires w.request == files.request && w.result == files.result
    modifies disk
    ensures Matches(d, Step(w, RestartDaemon)) && d.files == files && d.store.disk == disk
  {
    var opening := Store.UpdateStore.Open(disk, false, false);
    d := new Daemon.UpdatesState(opening.value.0, files);
  }
}
