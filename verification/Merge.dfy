// The global actual-state merge of the central node (app.go:204-272).
module Merge {
  import opened Text
  import opened Deployment

  // The latches: stopping survives running reports, starting survives
  // stopped ones.
  function Latch(prev: NodeState, node: NodeConfig): NodeConfig {
    if prev == Stopping && node.state == Running then node.(state := Stopping)
    else if prev == Starting && node.state == Stopped then node.(state := Starting)
    else node
  }

  function StateOf(file: DeploymentConfig, h: string): NodeState {
    if h in file then file[h].state else Other("")
  }

  predicate Reports(cfg: DeploymentConfig, h: string) {
    h in cfg && (cfg[h].state == Running || cfg[h].state == Stopped)
  }

  // The last running or stopped report of every host.
  function Noted(reported: DeploymentConfig, cfg: DeploymentConfig): DeploymentConfig {
    map h | h in reported.Keys + cfg.Keys && (h in reported || Reports(cfg, h)) :: if Reports(cfg, h) then cfg[h] else reported[h]
  }

  // Every known report applied to the state file again.
  function Merged(file: DeploymentConfig, reported: DeploymentConfig): DeploymentConfig {
    map h | h in file.Keys + reported.Keys :: if h in reported then Latch(StateOf(file, h), reported[h]) else file[h]
  }

  datatype Message = Message(actual: bool, cfg: Option<DeploymentConfig>)

  // What the text of the state file decodes to. Text that is no JSON, no JSON
  // object or `null` gives Go a nil map, which may be read but not written.
  datatype File = Holds(cfg: DeploymentConfig) | NilMap

  class GlobalMerge {
    // globalActualDplmCfg, and the content of the state file
    var reported: DeploymentConfig
    var file: File

    constructor (file: File)
      ensures reported == map[] && this.file == file
    {
      reported, this.file := map[], file;
    }

    // The first loop: keep running and stopped reports.
    method NoteReports(dplmCfg: DeploymentConfig)
      modifies this`reported
      ensures reported == Noted(old(reported), dplmCfg)
    {
      var todo := dplmCfg.Keys;
      while todo != {}
        invariant todo <= dplmCfg.Keys
        invariant forall h :: h in reported <==> h in old(reported) || (h !in todo && Reports(dplmCfg, h))
        invariant forall h :: h in reported ==>
          reported[h] == if h !in todo && Reports(dplmCfg, h) then dplmCfg[h] else old(reported)[h]
        decreases todo
      {
        var hostname :| hostname in todo;
        todo := todo - {hostname};
        var node := dplmCfg[hostname];
        if node.state == Running || node.state == Stopped {
          reported := reported[hostname := node];
        }
      }
    }

    // The second loop: apply every known report to what the file says.
    method ApplyReports(read: DeploymentConfig) returns (prev: DeploymentConfig)
      ensures prev == Merged(read, reported)
    {
      prev := read;
      var todo := reported.Keys;
      while todo != {}
        invariant todo <= reported.Keys
        invariant prev.Keys == read.Keys + (reported.Keys - todo)
        invariant forall h :: h in prev ==>
          prev[h] == if h in reported && h !in todo then Latch(StateOf(read, h), reported[h]) else read[h]
        decreases todo
      {
        var hostname :| hostname in todo;
        todo := todo - {hostname};
        var node := reported[hostname];
        var was := StateOf(prev, hostname);
        if was == Stopping && node.state == Running {
          node := node.(state := Stopping);
        }
        if was == Starting && node.state == Stopped {
          node := node.(state := Starting);
        }
        prev := prev[hostname := node];
      }
    }

    // One message. A config that does not parse is None; reading or writing
    // the state file may fail. A file that was read and holds no map makes the
    // merge panic as soon as there is a report to apply, and is written back
    // as `null` before that.
    method OnMessage(msg: Message, readOk: bool, writeOk: bool) returns (panics: bool)
      modifies this
      ensures !msg.actual || msg.cfg.None? ==> !panics && reported == old(reported) && file == old(file)
      ensures msg.actual && msg.cfg.Some? ==>
        && reported == Noted(old(reported), msg.cfg.value)
        && (panics <==> readOk && old(file).NilMap? && reported != map[])
        && file == if !writeOk || (readOk && old(file).NilMap?) then old(file)
                   else Holds(Merged(if readOk then old(file).cfg else map[], reported))
    {
      if !msg.actual || msg.cfg.None? {
        return false;
      }
      NoteReports(msg.cfg.value);
      if readOk && file.NilMap? {
        return reported != map[];
      }
      var prev := ApplyReports(if readOk then file.cfg else map[]);
      if writeOk {
        file := Holds(prev);
      }
      panics := false;
    }
  }

  // ------------------------------------------------------- runs

  datatype State = State(reported: DeploymentConfig, file: DeploymentConfig)

  // One config that arrives, and how reading and writing the file goes.
  datatype Event = Event(cfg: DeploymentConfig, readOk: bool, writeOk: bool)

  // Successive configs while nobody else edits the file; once it holds a map
  // it always does.
  function After(s: State, events: seq<Event>): State {
    if events == [] then s
    else
      var t, e := After(s, events[..|events| - 1]), events[|events| - 1];
      var reported := Noted(t.reported, e.cfg);
      State(reported, if e.writeOk then Merged(if e.readOk then t.file else map[], reported) else t.file)
  }

  // The object follows this step by step.
  method OneEvent(merge: GlobalMerge, e: Event)
    requires merge.file.Holds?
    modifies merge
    ensures merge.file.Holds?
    ensures State(merge.reported, merge.file.cfg) == After(State(old(merge.reported), old(merge.file).cfg), [e])
  {
    assert [e][..0] == [];
    ghost var s := State(merge.reported, merge.file.cfg);
    assert After(s, []) == s;
    var panics := merge.OnMessage(Message(true, Some(e.cfg)), e.readOk, e.writeOk);
  }

  // Reads and writes succeed, ...
  ghost predicate Reliable(events: seq<Event>) {
    forall k :: 0 <= k < |events| ==> events[k].readOk && events[k].writeOk
  }

  // ... or at least no write follows a failed read.
  ghost predicate Lossless(events: seq<Event>) {
    forall k :: 0 <= k < |events| && events[k].writeOk ==> events[k].readOk
  }

  function EntryOf(file: DeploymentConfig, h: string): Option<NodeConfig> {
    if h in file then Some(file[h]) else None
  }

  // Host h's own running and stopped reports.
  function OwnReports(events: seq<Event>, h: string): seq<NodeConfig> {
    if events == [] then []
    else
      var last := events[|events| - 1].cfg;
      OwnReports(events[..|events| - 1], h) + if Reports(last, h) then [last[h]] else []
  }

  function FoldReports(entry: Option<NodeConfig>, reports: seq<NodeConfig>): Option<NodeConfig> {
    if reports == [] then entry
    else
      var before := FoldReports(entry, reports[..|reports| - 1]);
      Some(Latch(if before.Some? then before.value.state else Other(""), reports[|reports| - 1]))
  }

  // The latch step is idempotent: re-applying a report changes nothing.
  lemma LatchIdempotent(prev: NodeState, node: NodeConfig)
    ensures Latch(Latch(prev, node).state, node) == Latch(prev, node)
  {
  }

  // Non-interference: what the file says about a host is a fold of that
  // host's own reports over its initial entry, although every message
  // re-applies the last report of every host.
  lemma {:induction false} NonInterference(file: DeploymentConfig, events: seq<Event>, h: string)
    requires Reliable(events)
    ensures Tells(After(State(map[], file), events), EntryOf(file, h), OwnReports(events, h), h)
  {
    if events != [] {
      var before, last := events[..|events| - 1], events[|events| - 1];
      NonInterference(file, before, h);
      assert last.readOk && last.writeOk;
      OneMessage(After(State(map[], file), before), last, EntryOf(file, h), OwnReports(before, h), h);
    }
  }

  // What the state has to say about a host that has sent these reports.
  ghost predicate Tells(s: State, entry: Option<NodeConfig>, own: seq<NodeConfig>, h: string) {
    && EntryOf(s.file, h) == FoldReports(entry, own)
    && (h in s.reported <==> own != [])
    && (own != [] ==> s.reported[h] == own[|own| - 1])
  }

  lemma OneMessage(s: State, e: Event, entry: Option<NodeConfig>, own: seq<NodeConfig>, h: string)
    requires Tells(s, entry, own, h)
    ensures var reported := Noted(s.reported, e.cfg);
      Tells(State(reported, Merged(s.file, reported)), entry, own + if Reports(e.cfg, h) then [e.cfg[h]] else [], h)
  {
    if Reports(e.cfg, h) {
      assert (own + [e.cfg[h]])[..|own|] == own;
    } else {
      assert own + [] == own;
      if own != [] {
        var prior := FoldReports(entry, own[..|own| - 1]);
        LatchIdempotent(if prior.Some? then prior.value.state else Other(""), own[|own| - 1]);
      }
    }
  }

  // The i-th event brings a running, or a stopped, report of h.
  ghost predicate RunningAt(events: seq<Event>, i: nat, h: string) {
    i < |events| && h in events[i].cfg && events[i].cfg[h].state == Running
  }

  ghost predicate StoppedAt(events: seq<Event>, i: nat, h: string) {
    i < |events| && h in events[i].cfg && events[i].cfg[h].state == Stopped
  }

  // What the file says about h after a run without failures, by position. With
  // no report of h nothing changes. Otherwise it has the images of the last
  // report, and its state, unless the entry was stopping and no stopped report
  // has come, or starting and no running report has.
  ghost predicate EntryAfter(file: DeploymentConfig, events: seq<Event>, h: string, after: DeploymentConfig) {
    if !exists i: nat :: RunningAt(events, i, h) || StoppedAt(events, i, h) then
      (h in after <==> h in file) && (h in file ==> after[h] == file[h])
    else
      exists l: nat :: LastReportAt(events, l, h) && h in after
        && after[h].images == events[l].cfg[h].images
        && after[h].state ==
          if h in file && file[h].state == Stopping && (forall i: nat :: !StoppedAt(events, i, h)) then Stopping
          else if h in file && file[h].state == Starting && (forall i: nat :: !RunningAt(events, i, h)) then Starting
          else events[l].cfg[h].state
  }

  ghost predicate LastReportAt(events: seq<Event>, l: nat, h: string) {
    && (RunningAt(events, l, h) || StoppedAt(events, l, h))
    && forall i: nat :: i > l ==> !RunningAt(events, i, h) && !StoppedAt(events, i, h)
  }

  // The reports of h are at the positions of its running and stopped reports.
  lemma {:induction false} OwnInOrder(events: seq<Event>, h: string) returns (at: seq<nat>)
    ensures var own := OwnReports(events, h);
      && |at| == |own|
      && (forall i, j :: 0 <= i < j < |at| ==> at[i] < at[j])
      && forall k :: 0 <= k < |at| ==> at[k] < |events| && h in events[at[k]].cfg && own[k] == events[at[k]].cfg[h]
    ensures forall t: nat :: t in at <==> RunningAt(events, t, h) || StoppedAt(events, t, h)
  {
    at := [];
    if events != [] {
      var n := |events| - 1;
      at := OwnInOrder(events[..n], h);
      assert forall t: nat :: t < n ==> events[..n][t] == events[t];
      at := at + if Reports(events[n].cfg, h) then [n] else [];
      forall t: nat ensures t in at <==> RunningAt(events, t, h) || StoppedAt(events, t, h) {
        assert t < n ==> (RunningAt(events[..n], t, h) <==> RunningAt(events, t, h));
        assert t < n ==> (StoppedAt(events[..n], t, h) <==> StoppedAt(events, t, h));
      }
    }
  }

  // What a fold of running and stopped reports comes to.
  lemma {:induction false} FoldIs(entry: Option<NodeConfig>, own: seq<NodeConfig>)
    requires forall k :: 0 <= k < |own| ==> own[k].state == Running || own[k].state == Stopped
    ensures own == [] ==> FoldReports(entry, own) == entry
    ensures own != [] ==> FoldReports(entry, own) == Some(NodeConfig(
      if entry.Some? && entry.value.state == Stopping && (forall k :: 0 <= k < |own| ==> own[k].state != Stopped) then Stopping
      else if entry.Some? && entry.value.state == Starting && (forall k :: 0 <= k < |own| ==> own[k].state != Running) then Starting
      else own[|own| - 1].state,
      own[|own| - 1].images))
  {
    if own != [] {
      var before := own[..|own| - 1];
      assert forall k :: 0 <= k < |before| ==> before[k] == own[k];
      FoldIs(entry, before);
    }
  }

  lemma {:induction false} RunIsExact(file: DeploymentConfig, events: seq<Event>, h: string)
    requires forall k :: 0 <= k < |events| ==> events[k].readOk && events[k].writeOk
    ensures EntryAfter(file, events, h, After(State(map[], file), events).file)
  {
    var own := OwnReports(events, h);
    var at := OwnInOrder(events, h);
    NonInterference(file, events, h);
    forall k | 0 <= k < |own|
      ensures own[k].state == Running <==> RunningAt(events, at[k], h)
      ensures own[k].state == Stopped <==> StoppedAt(events, at[k], h)
    {
      assert at[k] in at;
    }
    FoldIs(EntryOf(file, h), own);
    if own != [] {
      var l := at[|at| - 1];
      assert l in at && LastReportAt(events, l, h);
    } else {
      assert forall i: nat :: i !in at;
    }
  }

  // A write after a failed read forgets every host that has not reported.
  ghost predicate Forgets(s: State, e: Event, h: string) {
    e.writeOk && !e.readOk && h !in s.reported && !Reports(e.cfg, h)
  }

  lemma {:induction false} HostsStayUpTo(s: State, events: seq<Event>, h: string, n: nat)
    requires h in s.file && n <= |events|
    requires forall k :: 0 <= k < n ==> !Forgets(After(s, events[..k]), events[k], h)
    ensures h in After(s, events[..n]).file
  {
    if n == 0 {
      assert events[..0] == [];
    } else {
      HostsStayUpTo(s, events, h, n - 1);
      assert events[..n][..n - 1] == events[..n - 1];
    }
  }

  // A host stays in the file throughout exactly if nothing forgets it; while
  // reads succeed it always stays, whatever the writes do.
  lemma {:induction false} HostsStay(s: State, events: seq<Event>, h: string)
    requires h in s.file
    ensures (forall n :: 0 <= n <= |events| ==> h in After(s, events[..n]).file)
      <==> forall k :: 0 <= k < |events| ==> !Forgets(After(s, events[..k]), events[k], h)
    ensures Lossless(events) ==> h in After(s, events).file
  {
    if forall k :: 0 <= k < |events| ==> !Forgets(After(s, events[..k]), events[k], h) {
      forall n | 0 <= n <= |events| ensures h in After(s, events[..n]).file {
        HostsStayUpTo(s, events, h, n);
      }
      assert events[..|events|] == events;
    } else {
      var k :| 0 <= k < |events| && Forgets(After(s, events[..k]), events[k], h);
      HostForgotten(s, events, h, k);
    }
  }

  lemma HostForgotten(s: State, events: seq<Event>, h: string, k: nat)
    requires k < |events| && Forgets(After(s, events[..k]), events[k], h)
    ensures h !in After(s, events[..k + 1]).file
  {
    assert events[..k + 1][..k] == events[..k];
  }

  // ------------------------------------------------------- latches

  // A latched state and the report that releases it.
  predicate Latches(held: NodeState, release: NodeState) {
    (held == Stopping && release == Stopped) || (held == Starting && release == Running)
  }

  ghost predicate NeverReports(events: seq<Event>, h: string, state: NodeState) {
    forall i :: 0 <= i < |events| && Reports(events[i].cfg, h) ==> events[i].cfg[h].state != state
  }

  ghost predicate OnlyReports(reported: DeploymentConfig) {
    forall h :: h in reported ==> reported[h].state == Running || reported[h].state == Stopped
  }

  lemma {:induction false} ReportsOnly(s: State, events: seq<Event>)
    requires OnlyReports(s.reported)
    ensures OnlyReports(After(s, events).reported)
  {
    if events != [] {
      ReportsOnly(s, events[..|events| - 1]);
    }
  }

  // The known report of h is the releasing one.
  predicate Knows(s: State, h: string, release: NodeState) {
    h in s.reported && s.reported[h].state == release
  }

  // The file is written before any report of h arrives.
  ghost predicate WritesFirst(events: seq<Event>, h: string) {
    exists k :: 0 <= k < |events| && events[k].writeOk && forall j :: 0 <= j <= k ==> !Reports(events[j].cfg, h)
  }

  ghost predicate Silent(events: seq<Event>, h: string) {
    forall j :: 0 <= j < |events| ==> !Reports(events[j].cfg, h)
  }

  lemma WritesFirstStep(events: seq<Event>, h: string)
    requires events != []
    ensures var before, e := events[..|events| - 1], events[|events| - 1];
      WritesFirst(events, h) <==> WritesFirst(before, h) || (e.writeOk && Silent(events, h))
  {
    var before, e := events[..|events| - 1], events[|events| - 1];
    if WritesFirst(before, h) {
      var k :| 0 <= k < |before| && before[k].writeOk && forall j :: 0 <= j <= k ==> !Reports(before[j].cfg, h);
      assert events[k].writeOk && forall j :: 0 <= j <= k ==> events[j] == before[j];
    }
    if k :| 0 <= k < |events| && events[k].writeOk && (forall j :: 0 <= j <= k ==> !Reports(events[j].cfg, h)) && k < |before| {
      assert before[k].writeOk && forall j :: 0 <= j <= k ==> before[j] == events[j];
    }
  }

  lemma {:induction false} KnownReport(s: State, events: seq<Event>, h: string, release: NodeState)
    requires NeverReports(events, h, release)
    ensures Knows(After(s, events), h, release) <==> Knows(s, h, release) && Silent(events, h)
  {
    if events != [] {
      var before, e := events[..|events| - 1], events[|events| - 1];
      assert forall j :: 0 <= j < |before| ==> before[j] == events[j];
      KnownReport(s, before, h, release);
      assert Silent(events, h) <==> Silent(before, h) && !Reports(e.cfg, h);
    }
  }

  // From any state, with the file saying held for h - an operator's edit
  // included - and under any traffic without a releasing report of h: the file
  // goes on saying held if and only if no write follows a failed read and it
  // is not so that the known report of h is already the releasing one and the
  // file is written before h reports again.
  lemma {:induction false} LatchIsExact(s: State, events: seq<Event>, h: string, held: NodeState, release: NodeState)
    requires Latches(held, release) && OnlyReports(s.reported)
    requires StateOf(s.file, h) == held && NeverReports(events, h, release)
    ensures StateOf(After(s, events).file, h) == held <==> Lossless(events) && !(Knows(s, h, release) && WritesFirst(events, h))
  {
    if events != [] {
      var before, e := events[..|events| - 1], events[|events| - 1];
      assert forall j :: 0 <= j < |before| ==> before[j] == events[j];
      LatchIsExact(s, before, h, held, release);
      WritesFirstStep(events, h);
      KnownReport(s, before, h, release);
      ReportsOnly(s, before);
      assert Silent(events, h) <==> Silent(before, h) && !Reports(e.cfg, h);
      assert Lossless(events) <==> Lossless(before) && (e.writeOk ==> e.readOk);
      LatchStep(After(s, before), e, h, held, release);
    }
  }

  // One event: the file keeps saying held unless it is written from nothing
  // or with the releasing report.
  lemma LatchStep(s: State, e: Event, h: string, held: NodeState, release: NodeState)
    requires Latches(held, release) && OnlyReports(s.reported)
    ensures var reported := Noted(s.reported, e.cfg);
      var written := Merged(if e.readOk then s.file else map[], reported);
      StateOf(written, h) == held <==>
        e.readOk && StateOf(s.file, h) == held && !(h in reported && reported[h].state == release)
  {
  }

  // After a run without outside edits in which reads and writes succeed, a
  // latched entry stays until a releasing report of its own host, exactly as
  // long as no write follows a failed read: in every state such a run reaches,
  // the last report of a host in a latched state is not the releasing one.
  lemma LatchedInRuns(file: DeploymentConfig, events: seq<Event>, more: seq<Event>, h: string, held: NodeState, release: NodeState)
    requires Latches(held, release) && Reliable(events) && NeverReports(more, h, release)
    requires StateOf(After(State(map[], file), events).file, h) == held
    ensures StateOf(After(After(State(map[], file), events), more).file, h) == held <==> Lossless(more)
  {
    NonInterference(file, events, h);
    ReportsOnly(State(map[], file), events);
    LatchIsExact(After(State(map[], file), events), more, h, held, release);
  }
}
