/**
 What a client that replays the frames of a whole run sees, and that it stays in step with the
 ledger.
 */
module LedgerProtocol {
  import opened Wrappers
  import opened Utf8
  import opened ToolCallLedger
  import opened Terminal
  import opened OverlapSearch

  // ------------------------------------------------------------------------ the client

  /** A row of the client: all that frames say of a call, and for a terminal its pane and its exit. */
  datatype Row = Row(
    title: string, kind: ToolKind, status: AcpStatus, locations: seq<string>, rawInput: Option<string>,
    rawOutput: Option<string>, content: seq<Content>, terminal: Option<TerminalInfo>, pane: Bytes,
    exit: Option<TerminalExit>)

  type Client = map<ToolCallId, Row>

  /**
   How a client takes one frame. An update for a row it never saw is dropped; content that comes
   with an update replaces the content of the row.
   */
  function Apply(client: Client, frame: SessionUpdate): Client {
    match frame
    case ToolCall(id, title, kind, status, locations, rawInput, content, meta) =>
      client[id := Row(title, kind, status, locations, rawInput, None, content, meta.info, [], None)]
    case ToolCallUpdate(id, status, patch, meta) =>
      if id !in client then client
      else
        var row := client[id];
        client[id := Patched(row, patch).(
                 status := status,
                 pane := row.pane + (if meta.output.Some? then meta.output.value.data else []),
                 exit := if meta.exit.Some? then meta.exit else row.exit)]
  }

  /** The row with the fields that a patch names. */
  function Patched(row: Row, patch: UpdatePatch): Row {
    row.(title := if patch.title.Some? then patch.title.value else row.title,
         locations := if patch.locations.Some? then patch.locations.value else row.locations,
         rawInput := if patch.rawInput.Some? then patch.rawInput else row.rawInput,
         rawOutput := if patch.rawOutput.Some? then patch.rawOutput else row.rawOutput,
         content := if patch.content.Some? then patch.content.value else row.content)
  }

  function ClientOf(frames: seq<SessionUpdate>): Client {
    if frames == [] then map[]
    else Apply(ClientOf(frames[..|frames| - 1]), frames[|frames| - 1])
  }

  function Rank(status: AcpStatus): nat {
    match status
    case AcpPending => 0
    case AcpInProgress => 1
    case _ => 2
  }

  predicate Finished(status: AcpStatus) {
    Rank(status) == 2
  }

  predicate Live(client: Client, id: ToolCallId) {
    id in client && !Finished(client[id].status)
  }

  /**
   What may come next: an announce is unfinished and names its own terminal or none; an update
   needs a live row, moves its status forward only, and carries terminal data only for a row
   announced as a terminal, under that row's own id.
   */
  predicate InOrder(client: Client, frame: SessionUpdate) {
    var meta := frame.meta;
    match frame
    case ToolCall(id, _, _, status, _, _, content, _) =>
      && !Finished(status) && meta.output.None? && meta.exit.None?
      && (meta.info.None? ==> content == [])
      && (meta.info.Some? ==> meta.info.value.terminalId == id && content == [TerminalContent(id)])
    case ToolCallUpdate(id, status, _, _) =>
      && Live(client, id) && Rank(client[id].status) <= Rank(status)
      && meta.info.None?
      && (meta.output.Some? ==> client[id].terminal.Some? && meta.output.value.terminalId == id)
      && (meta.exit.Some? ==> client[id].terminal.Some? && meta.exit.value.terminalId == id && Finished(status))
  }

  /** The content of a patch shows a terminal. */
  predicate ShowsTerminal(patch: UpdatePatch) {
    patch.content.Some? && exists i :: 0 <= i < |patch.content.value| && patch.content.value[i].TerminalContent?
  }

  predicate OpensTerminalLate(frame: SessionUpdate) {
    frame.ToolCallUpdate? && ShowsTerminal(frame.patch)
  }

  /** The whole protocol: in order, and only an announce opens a terminal. */
  predicate Legal(client: Client, frame: SessionUpdate) {
    InOrder(client, frame) && !OpensTerminalLate(frame)
  }

  /** Each frame is in order for the client that replayed those before it. */
  predicate AllInOrder(frames: seq<SessionUpdate>) {
    frames != [] ==>
      var early := frames[..|frames| - 1];
      AllInOrder(early) && InOrder(ClientOf(early), frames[|frames| - 1])
  }

  /** Each frame follows the whole protocol for the client that replayed those before it. */
  predicate AllLegal(frames: seq<SessionUpdate>) {
    frames != [] ==>
      var early := frames[..|frames| - 1];
      AllLegal(early) && Legal(ClientOf(early), frames[|frames| - 1])
  }

  // ------------------------------------------------------------------------- whole runs

  datatype World = World(ledger: State, frames: seq<SessionUpdate>)

  /** The ledger and the frames sent after a run of calls. */
  function After(cwd: string, ops: seq<Op>): World {
    if ops == [] then World(map[], [])
    else
      var before := After(cwd, ops[..|ops| - 1]);
      var (ledger, frame) := Step(cwd, before.ledger, ops[|ops| - 1]);
      World(ledger, before.frames + if frame.Some? then [frame.value] else [])
  }

  /** The snapshots offered to `id` since it was last announced. */
  function Offered(ops: seq<Op>, id: ToolCallId): seq<Bytes> {
    if ops == [] then []
    else
      var before := Offered(ops[..|ops| - 1], id);
      match ops[|ops| - 1]
      case Announce(req) => if req.id == id then [] else before
      case TerminalProgress(i, output) => if i == id then before + [output] else before
      case TerminalFinish(i, output, _, _) => if i == id then before + [output] else before
      case _ => before
  }

  /** One open call and its row agree. */
  predicate InStep(call: Call, row: Row) {
    && row.status == call.status.AcpStatus()
    && (row.terminal.Some? <==> call.body.TerminalBody?)
  }

  /** The row of an open terminal holds what its snapshots appended, and the appender the last one. */
  predicate PaneInStep(call: Call, row: Row, offered: seq<Bytes>) {
    call.body.TerminalBody? ==> row.pane == Pane(offered) && call.body.emitted == Latest(offered)
  }

  ghost predicate Coupled(ledger: State, client: Client) {
    forall id | id in ledger :: id in client && InStep(ledger[id], client[id])
  }

  ghost predicate PanesCoupled(ledger: State, client: Client, ops: seq<Op>) {
    forall id | id in ledger :: id in client && PaneInStep(ledger[id], client[id], Offered(ops, id))
  }

  lemma ClientAfterFrame(frames: seq<SessionUpdate>, frame: SessionUpdate)
    ensures ClientOf(frames + [frame]) == Apply(ClientOf(frames), frame)
  {
    assert (frames + [frame])[..|frames|] == frames;
  }

  /** One call keeps ledger and client in step, and what it sends is in order. */
  lemma StepKeepsCoupled(cwd: string, ledger: State, client: Client, op: Op)
    requires Coupled(ledger, client)
    ensures var (next, frame) := Step(cwd, ledger, op);
            && (frame.None? ==> Coupled(next, client))
            && (frame.Some? ==> InOrder(client, frame.value) && Coupled(next, Apply(client, frame.value)))
  {
  }

  /** One call keeps every open terminal's pane in step with what was offered to it. */
  lemma StepKeepsPanes(cwd: string, ledger: State, client: Client, ops: seq<Op>, op: Op)
    requires PanesCoupled(ledger, client, ops)
    ensures var (next, frame) := Step(cwd, ledger, op);
            PanesCoupled(next, if frame.Some? then Apply(client, frame.value) else client, ops + [op])
  {
    var (next, frame) := Step(cwd, ledger, op);
    var after := if frame.Some? then Apply(client, frame.value) else client;
    forall id | id in next
      ensures id in after && PaneInStep(next[id], after[id], Offered(ops + [op], id))
    {
      StepKeepsPane(cwd, ledger, client, ops, op, id, next, frame);
    }
  }

  lemma StepKeepsPane(
    cwd: string, ledger: State, client: Client, ops: seq<Op>, op: Op, id: ToolCallId,
    next: State, frame: Option<SessionUpdate>)
    requires (next, frame) == Step(cwd, ledger, op) && id in next
    requires id in ledger ==> id in client && PaneInStep(ledger[id], client[id], Offered(ops, id))
    ensures var after := if frame.Some? then Apply(client, frame.value) else client;
            id in after && PaneInStep(next[id], after[id], Offered(ops + [op], id))
  {
    if op.TerminalProgress? && op.id == id {
      ProgressKeepsPane(cwd, ledger, client, ops, id, op.output);
    } else {
      assert (ops + [op])[..|ops|] == ops;
    }
  }

  lemma ProgressKeepsPane(cwd: string, ledger: State, client: Client, ops: seq<Op>, id: ToolCallId, output: Bytes)
    requires id in ledger && id in client && PaneInStep(ledger[id], client[id], Offered(ops, id))
    ensures var (next, frame) := Step(cwd, ledger, Op.TerminalProgress(id, output));
            var after := if frame.Some? then Apply(client, frame.value) else client;
            && id in next && id in after
            && PaneInStep(next[id], after[id], Offered(ops + [Op.TerminalProgress(id, output)], id))
  {
    assert (ops + [Op.TerminalProgress(id, output)])[..|ops|] == ops;
    PaneAfterPush(Offered(ops, id), output);
  }

  lemma PaneAfterPush(offered: seq<Bytes>, output: Bytes)
    ensures Pane(offered + [output]) == Pane(offered) + PushOf(Latest(offered), output).Emitted()
    ensures Latest(offered + [output]) == output
  {
    assert (offered + [output])[..|offered|] == offered;
  }

  /** What one more call adds to a run. */
  lemma AfterOneMore(cwd: string, ops: seq<Op>, op: Op)
    ensures var (ledger, frame) := Step(cwd, After(cwd, ops).ledger, op);
            var after := After(cwd, ops + [op]);
            && after.ledger == ledger
            && after.frames == After(cwd, ops).frames + (if frame.Some? then [frame.value] else [])
            && ClientOf(after.frames)
               == if frame.Some? then Apply(ClientOf(After(cwd, ops).frames), frame.value)
                  else ClientOf(After(cwd, ops).frames)
  {
    assert (ops + [op])[..|ops|] == ops;
    var frames := After(cwd, ops).frames;
    var frame := Step(cwd, After(cwd, ops).ledger, op).1;
    if frame.Some? {
      ClientAfterFrame(frames, frame.value);
    } else {
      assert frames + [] == frames;
    }
  }

  /** What every run keeps. */
  ghost predicate Good(w: World, ops: seq<Op>) {
    && AllInOrder(w.frames)
    && Coupled(w.ledger, ClientOf(w.frames))
    && PanesCoupled(w.ledger, ClientOf(w.frames), ops)
  }

  lemma StepKeepsGood(cwd: string, w: World, ops: seq<Op>, op: Op, next: State, frame: Option<SessionUpdate>)
    requires Good(w, ops) && (next, frame) == Step(cwd, w.ledger, op)
    ensures Good(World(next, w.frames + if frame.Some? then [frame.value] else []), ops + [op])
  {
    StepKeepsCoupled(cwd, w.ledger, ClientOf(w.frames), op);
    StepKeepsPanes(cwd, w.ledger, ClientOf(w.frames), ops, op);
    if frame.Some? {
      ClientAfterFrame(w.frames, frame.value);
      InOrderExtends(w.frames, frame.value);
    } else {
      assert w.frames + [] == w.frames;
    }
  }

  /**
   The protocol, over every run: each frame is in order for the client that replayed the frames
   before it, and at the end every open call and its row agree, pane included.
   */
  lemma {:induction false} RunsAreInOrder(cwd: string, ops: seq<Op>)
    ensures Good(After(cwd, ops), ops)
  {
    if ops != [] {
      var early, op := ops[..|ops| - 1], ops[|ops| - 1];
      RunsAreInOrder(cwd, early);
      var before := After(cwd, early);
      var (next, frame) := Step(cwd, before.ledger, op);
      StepKeepsGood(cwd, before, early, op, next, frame);
      assert early + [op] == ops;
    }
  }

  lemma InOrderExtends(frames: seq<SessionUpdate>, frame: SessionUpdate)
    requires AllInOrder(frames) && InOrder(ClientOf(frames), frame)
    ensures AllInOrder(frames + [frame])
  {
    assert (frames + [frame])[..|frames|] == frames;
  }

  /** The call sends a patch that shows a terminal. */
  predicate PatchesTerminal(ledger: State, op: Op) {
    (op.Update? || op.Finish?) && op.id in ledger && ShowsTerminal(op.patch)
  }

  /** No caller hands a patch that shows a terminal to an open call. */
  predicate NeverPatchesTerminal(cwd: string, ops: seq<Op>) {
    ops != [] ==>
      var early, op := ops[..|ops| - 1], ops[|ops| - 1];
      NeverPatchesTerminal(cwd, early) && !PatchesTerminal(After(cwd, early).ledger, op)
  }

  ghost predicate NoneOpensLate(frames: seq<SessionUpdate>) {
    forall i | 0 <= i < |frames| :: !OpensTerminalLate(frames[i])
  }

  lemma StepOpensLateIff(cwd: string, ledger: State, op: Op)
    ensures var frame := Step(cwd, ledger, op).1;
            frame.Some? && OpensTerminalLate(frame.value) <==> PatchesTerminal(ledger, op)
  {
    if op.TerminalFinish? && op.id in ledger && ledger[op.id].body.TerminalBody? {
      var push := PushOf(ledger[op.id].body.emitted, op.output);
      assert !ShowsTerminal(FinishFrame(op.id, push, op.output, op.isError, op.exitCode).patch);
    }
  }

  lemma {:induction false} NoneOpensLateIff(cwd: string, ops: seq<Op>)
    ensures NoneOpensLate(After(cwd, ops).frames) <==> NeverPatchesTerminal(cwd, ops)
  {
    if ops != [] {
      var early, op := ops[..|ops| - 1], ops[|ops| - 1];
      NoneOpensLateIff(cwd, early);
      var w := After(cwd, early);
      StepOpensLateIff(cwd, w.ledger, op);
      AppendOpensLateIff(w.frames, Step(cwd, w.ledger, op).1);
    }
  }

  lemma AppendOpensLateIff(frames: seq<SessionUpdate>, frame: Option<SessionUpdate>)
    ensures NoneOpensLate(frames + if frame.Some? then [frame.value] else [])
            <==> NoneOpensLate(frames) && !(frame.Some? && OpensTerminalLate(frame.value))
  {
    var longer := frames + if frame.Some? then [frame.value] else [];
    assert forall i | 0 <= i < |frames| :: longer[i] == frames[i];
    assert frame.Some? ==> longer[|frames|] == frame.value;
  }

  /**
   One terminal for one announce is the caller's to keep too: a run follows the whole protocol
   exactly when no patch that shows a terminal is handed to an open call.
   */
  lemma RunsAreLegalIff(cwd: string, ops: seq<Op>)
    ensures AllLegal(After(cwd, ops).frames) <==> NeverPatchesTerminal(cwd, ops)
  {
    RunsAreInOrder(cwd, ops);
    NoneOpensLateIff(cwd, ops);
    LegalIff(After(cwd, ops).frames);
  }

  lemma {:induction false} LegalIff(frames: seq<SessionUpdate>)
    requires AllInOrder(frames)
    ensures AllLegal(frames) <==> NoneOpensLate(frames)
  {
    if frames != [] {
      var n := |frames| - 1;
      LegalIff(frames[..n]);
      assert frames == frames[..n] + [frames[n]];
      AppendOpensLateIff(frames[..n], Some(frames[n]));
    }
  }

  /** The rank of a row, below all others when there is none. */
  function RankOf(client: Client, id: ToolCallId): int {
    if id in client then Rank(client[id].status) else -1
  }

  /** Updates in order carry the status of a frame forward until the id is announced again. */
  lemma {:induction false} RankIsCarried(frames: seq<SessionUpdate>, i: nat)
    requires AllInOrder(frames) && i < |frames|
    requires forall k | i < k < |frames| :: frames[k].id == frames[i].id ==> frames[k].ToolCallUpdate?
    ensures Rank(frames[i].status) <= RankOf(ClientOf(frames), frames[i].id)
  {
    var n := |frames| - 1;
    if i < n {
      assert frames[..n][i] == frames[i];
      RankIsCarried(frames[..n], i);
      InOrderKeepsRank(ClientOf(frames[..n]), frames[n], frames[i].id);
    } else {
      InOrderSetsRow(ClientOf(frames[..n]), frames[n]);
    }
  }

  lemma {:induction false} PrefixIsInOrder(frames: seq<SessionUpdate>, n: nat)
    requires AllInOrder(frames) && n <= |frames|
    ensures AllInOrder(frames[..n])
    ensures n < |frames| ==> InOrder(ClientOf(frames[..n]), frames[n])
  {
    if n == |frames| {
      assert frames[..n] == frames;
    } else {
      var early := frames[..|frames| - 1];
      PrefixIsInOrder(early, n);
      assert early[..n] == frames[..n];
    }
  }

  lemma InOrderSetsRow(client: Client, frame: SessionUpdate)
    requires InOrder(client, frame)
    ensures RankOf(Apply(client, frame), frame.id) == Rank(frame.status)
  {
  }

  lemma InOrderKeepsRank(client: Client, frame: SessionUpdate, id: ToolCallId)
    requires InOrder(client, frame) && (frame.id == id ==> frame.ToolCallUpdate?)
    ensures RankOf(client, id) <= RankOf(Apply(client, frame), id)
  {
  }

  lemma {:induction false} RowWasAnnounced(frames: seq<SessionUpdate>, id: ToolCallId)
    requires id in ClientOf(frames)
    ensures exists i :: 0 <= i < |frames| && frames[i].ToolCall? && frames[i].id == id
  {
    var last := |frames| - 1;
    if !(frames[last].ToolCall? && frames[last].id == id) {
      RowWasAnnounced(frames[..last], id);
      var i :| 0 <= i < last && frames[..last][i].ToolCall? && frames[..last][i].id == id;
      assert frames[i].ToolCall? && frames[i].id == id;
    }
  }

  /**
   The same read off the frames alone: between two frames of one id with no announce in between,
   the status never goes back, and nothing follows completed or failed.
   */
  lemma FramesNeverRegress(cwd: string, ops: seq<Op>, i: nat, j: nat)
    requires i < j < |After(cwd, ops).frames|
    requires forall k | i < k <= j ::
               After(cwd, ops).frames[k].id == After(cwd, ops).frames[i].id
               ==> After(cwd, ops).frames[k].ToolCallUpdate?
    requires After(cwd, ops).frames[i].id == After(cwd, ops).frames[j].id
    ensures !Finished(After(cwd, ops).frames[i].status)
    ensures Rank(After(cwd, ops).frames[i].status) <= Rank(After(cwd, ops).frames[j].status)
  {
    RunsAreInOrder(cwd, ops);
    var frames := After(cwd, ops).frames;
    PrefixIsInOrder(frames, j);
    RankIsCarried(frames[..j], i);
  }

  /** No update comes before the announce of its id. */
  lemma AnnounceComesFirst(cwd: string, ops: seq<Op>, j: nat)
    requires j < |After(cwd, ops).frames| && After(cwd, ops).frames[j].ToolCallUpdate?
    ensures exists i :: 0 <= i < j && After(cwd, ops).frames[i].ToolCall?
                        && After(cwd, ops).frames[i].id == After(cwd, ops).frames[j].id
  {
    RunsAreInOrder(cwd, ops);
    var frames := After(cwd, ops).frames;
    PrefixIsInOrder(frames, j);
    RowWasAnnounced(frames[..j], frames[j].id);
    var i :| 0 <= i < j && frames[..j][i].ToolCall? && frames[..j][i].id == frames[j].id;
    assert frames[i].ToolCall?;
  }

  // --------------------------------------------------------------- announcing a shown id

  /** The calls announced and not finished since, dropped or not, with the status last reached. */
  function Statuses(cwd: string, ops: seq<Op>): map<ToolCallId, ToolStatus> {
    if ops == [] then map[]
    else StatusesAfter(Statuses(cwd, ops[..|ops| - 1]), After(cwd, ops[..|ops| - 1]).ledger, ops[|ops| - 1])
  }

  function StatusesAfter(statuses: map<ToolCallId, ToolStatus>, ledger: State, op: Op): map<ToolCallId, ToolStatus> {
    match op
    case Announce(req) => statuses[req.id := req.status]
    case Update(id, atLeast, _) =>
      if id in ledger && id in statuses then statuses[id := statuses[id].Max(atLeast)] else statuses
    case TerminalProgress(id, _) =>
      if id in ledger && ledger[id].body.TerminalBody? then statuses[id := InProgress] else statuses
    case Finish(id, _, _) => if id in ledger then statuses - {id} else statuses
    case TerminalFinish(id, _, _, _) =>
      if id in ledger && ledger[id].body.TerminalBody? then statuses - {id} else statuses
    case _ => statuses
  }

  function Shown(cwd: string, ops: seq<Op>): set<ToolCallId> {
    Statuses(cwd, ops).Keys
  }

  /** One id is shown as running exactly when it has a status, at that status; so is every open call. */
  predicate ShownRow(statuses: map<ToolCallId, ToolStatus>, ledger: State, client: Client, id: ToolCallId) {
    && (id in ledger ==> id in statuses)
    && (id in statuses <==> Live(client, id))
    && (id in statuses ==> client[id].status == statuses[id].AcpStatus())
  }

  ghost predicate ShownIsLive(statuses: map<ToolCallId, ToolStatus>, ledger: State, client: Client) {
    && ledger.Keys <= statuses.Keys
    && (forall id :: id in statuses <==> Live(client, id))
    && (forall id | id in statuses :: client[id].status == statuses[id].AcpStatus())
  }

  lemma StepKeepsShownRow(
    cwd: string, ledger: State, client: Client, statuses: map<ToolCallId, ToolStatus>, op: Op, id: ToolCallId,
    next: State, frame: Option<SessionUpdate>)
    requires Coupled(ledger, client) && ShownIsLive(statuses, ledger, client)
    requires (next, frame) == Step(cwd, ledger, op)
    ensures ShownRow(StatusesAfter(statuses, ledger, op), next,
                     if frame.Some? then Apply(client, frame.value) else client, id)
  {
    if IsAbout(op, id) {
      StepKeepsOwnRow(cwd, ledger, client, statuses, op, id, next, frame);
    } else {
      assert id in statuses <==> Live(client, id);
    }
  }

  lemma StepKeepsOwnRow(
    cwd: string, ledger: State, client: Client, statuses: map<ToolCallId, ToolStatus>, op: Op, id: ToolCallId,
    next: State, frame: Option<SessionUpdate>)
    requires Coupled(ledger, client) && ShownIsLive(statuses, ledger, client) && IsAbout(op, id)
    requires (next, frame) == Step(cwd, ledger, op)
    ensures ShownRow(StatusesAfter(statuses, ledger, op), next,
                     if frame.Some? then Apply(client, frame.value) else client, id)
  {
    assert id in statuses <==> Live(client, id);
  }

  lemma StepKeepsShown(cwd: string, ledger: State, client: Client, statuses: map<ToolCallId, ToolStatus>, op: Op)
    requires Coupled(ledger, client) && ShownIsLive(statuses, ledger, client)
    ensures var (next, frame) := Step(cwd, ledger, op);
            ShownIsLive(StatusesAfter(statuses, ledger, op), next,
                        if frame.Some? then Apply(client, frame.value) else client)
  {
    var (next, frame) := Step(cwd, ledger, op);
    var after := if frame.Some? then Apply(client, frame.value) else client;
    forall id: ToolCallId
      ensures ShownRow(StatusesAfter(statuses, ledger, op), next, after, id)
    {
      StepKeepsShownRow(cwd, ledger, client, statuses, op, id, next, frame);
    }
    RowsAreShown(StatusesAfter(statuses, ledger, op), next, after);
  }

  lemma RowsAreShown(statuses: map<ToolCallId, ToolStatus>, ledger: State, client: Client)
    requires forall id :: ShownRow(statuses, ledger, client, id)
    ensures ShownIsLive(statuses, ledger, client)
  {
    forall id: ToolCallId
      ensures (id in ledger ==> id in statuses) && (id in statuses <==> Live(client, id))
              && (id in statuses ==> client[id].status == statuses[id].AcpStatus())
    {
      assert ShownRow(statuses, ledger, client, id);
    }
  }

  /** Over every run: the client shows as running exactly the shown calls, and they include the open ones. */
  lemma {:induction false} RunningRowsAreShown(cwd: string, ops: seq<Op>)
    ensures ShownIsLive(Statuses(cwd, ops), After(cwd, ops).ledger, ClientOf(After(cwd, ops).frames))
  {
    if ops != [] {
      var early, op := ops[..|ops| - 1], ops[|ops| - 1];
      RunningRowsAreShown(cwd, early);
      RunsAreInOrder(cwd, early);
      assert early + [op] == ops;
      AfterOneMore(cwd, early, op);
      StepKeepsShown(cwd, After(cwd, early).ledger, ClientOf(After(cwd, early).frames), Statuses(cwd, early), op);
    }
  }

  /** The frame does not take the status of a running row back. */
  predicate KeepsStatus(client: Client, frame: SessionUpdate) {
    Live(client, frame.id) ==> Rank(client[frame.id].status) <= Rank(frame.status)
  }

  /** No frame, announces included, takes the status of a running row back. */
  predicate NeverRegresses(frames: seq<SessionUpdate>) {
    frames != [] ==>
      var early := frames[..|frames| - 1];
      NeverRegresses(early) && KeepsStatus(ClientOf(early), frames[|frames| - 1])
  }

  /** The call announces as pending a shown call that is in progress. */
  predicate TakesBack(statuses: map<ToolCallId, ToolStatus>, op: Op) {
    op.Announce? && op.req.status.Pending? && op.req.id in statuses && statuses[op.req.id].InProgress?
  }

  predicate NeverTakesBack(cwd: string, ops: seq<Op>) {
    ops != [] ==>
      var early, op := ops[..|ops| - 1], ops[|ops| - 1];
      NeverTakesBack(cwd, early) && !TakesBack(Statuses(cwd, early), op)
  }

  lemma StepKeepsStatusIff(
    cwd: string, ledger: State, client: Client, statuses: map<ToolCallId, ToolStatus>, op: Op)
    requires Coupled(ledger, client) && ShownIsLive(statuses, ledger, client)
    ensures var frame := Step(cwd, ledger, op).1;
            (frame.Some? ==> KeepsStatus(client, frame.value)) <==> !TakesBack(statuses, op)
  {
    if !op.Announce? {
      StepKeepsCoupled(cwd, ledger, client, op);
    }
  }

  lemma AppendRegresses(frames: seq<SessionUpdate>, frame: Option<SessionUpdate>)
    ensures NeverRegresses(frames + if frame.Some? then [frame.value] else [])
            <==> NeverRegresses(frames) && (frame.Some? ==> KeepsStatus(ClientOf(frames), frame.value))
  {
    if frame.Some? {
      assert (frames + [frame.value])[..|frames|] == frames;
    } else {
      assert frames + [] == frames;
    }
  }

  /**
   Over every run: no running row's status goes back, exactly when no call announces as pending an
   id that was announced, is not finished since, and is in progress.
   */
  lemma {:induction false} StatusNeverRegressesIff(cwd: string, ops: seq<Op>)
    ensures NeverRegresses(After(cwd, ops).frames) <==> NeverTakesBack(cwd, ops)
  {
    if ops != [] {
      var early, op := ops[..|ops| - 1], ops[|ops| - 1];
      StatusNeverRegressesIff(cwd, early);
      RunningRowsAreShown(cwd, early);
      RunsAreInOrder(cwd, early);
      var w := After(cwd, early);
      StepKeepsStatusIff(cwd, w.ledger, ClientOf(w.frames), Statuses(cwd, early), op);
      AppendRegresses(w.frames, Step(cwd, w.ledger, op).1);
    }
  }

  /** No frame announces a row the client still shows as running. */
  ghost predicate NoSecondAnnounce(frames: seq<SessionUpdate>) {
    forall i | 0 <= i < |frames| && frames[i].ToolCall? :: !Live(ClientOf(frames[..i]), frames[i].id)
  }

  /** No call announces an id that was announced and not finished since. */
  predicate NeverAnnouncesShown(cwd: string, ops: seq<Op>) {
    ops != [] ==>
      var early, op := ops[..|ops| - 1], ops[|ops| - 1];
      NeverAnnouncesShown(cwd, early) && (op.Announce? ==> op.req.id !in Shown(cwd, early))
  }

  /** Over every run: a running row is announced a second time exactly when a shown id is announced. */
  lemma {:induction false} SecondAnnounceIffShown(cwd: string, ops: seq<Op>)
    ensures NoSecondAnnounce(After(cwd, ops).frames) <==> NeverAnnouncesShown(cwd, ops)
  {
    if ops != [] {
      var early, op := ops[..|ops| - 1], ops[|ops| - 1];
      SecondAnnounceIffShown(cwd, early);
      RunningRowsAreShown(cwd, early);
      var before := After(cwd, early);
      var (next, frame) := Step(cwd, before.ledger, op);
      StepAnnounces(cwd, before, Statuses(cwd, early), op, next, frame);
    }
  }

  lemma StepAnnounces(
    cwd: string, w: World, statuses: map<ToolCallId, ToolStatus>, op: Op, next: State, frame: Option<SessionUpdate>)
    requires ShownIsLive(statuses, w.ledger, ClientOf(w.frames)) && (next, frame) == Step(cwd, w.ledger, op)
    ensures NoSecondAnnounce(w.frames + if frame.Some? then [frame.value] else [])
            <==> NoSecondAnnounce(w.frames) && (op.Announce? ==> op.req.id !in statuses)
  {
    if frame.Some? {
      SecondAnnounceSplit(w.frames, frame.value);
    } else {
      assert w.frames + [] == w.frames;
    }
  }

  /** The call takes an open call out of the ledger without a frame. */
  predicate Drops(ledger: State, op: Op) {
    (op.Close? && op.id in ledger) || (op.Clear? && ledger != map[])
  }

  predicate NeverDrops(cwd: string, ops: seq<Op>) {
    ops != [] ==>
      var early, op := ops[..|ops| - 1], ops[|ops| - 1];
      NeverDrops(cwd, early) && !Drops(After(cwd, early).ledger, op)
  }

  predicate ShowsOpenOnly(cwd: string, ops: seq<Op>) {
    Shown(cwd, ops) == After(cwd, ops).ledger.Keys
  }

  /** At every moment of the run the shown calls are the open ones. */
  predicate OnlyOpenShown(cwd: string, ops: seq<Op>) {
    ShowsOpenOnly(cwd, ops) && (ops != [] ==> OnlyOpenShown(cwd, ops[..|ops| - 1]))
  }

  lemma StepShowsOpenOnlyIff(cwd: string, ledger: State, statuses: map<ToolCallId, ToolStatus>, op: Op)
    requires statuses.Keys == ledger.Keys
    ensures StatusesAfter(statuses, ledger, op).Keys == Step(cwd, ledger, op).0.Keys <==> !Drops(ledger, op)
  {
    if op.Clear? && ledger != map[] {
      var id :| id in ledger;
      assert id in StatusesAfter(statuses, ledger, op).Keys;
    }
  }

  /** The client shows as running exactly the open calls, at every moment, as long as none is dropped. */
  lemma {:induction false} OnlyOpenShownIff(cwd: string, ops: seq<Op>)
    ensures OnlyOpenShown(cwd, ops) <==> NeverDrops(cwd, ops)
  {
    if ops != [] {
      var early := ops[..|ops| - 1];
      OnlyOpenShownIff(cwd, early);
      if ShowsOpenOnly(cwd, early) {
        StepShowsOpenOnlyIff(cwd, After(cwd, early).ledger, Statuses(cwd, early), ops[|ops| - 1]);
      }
    }
  }

  /** As long as none is dropped, the rows the client shows as running are exactly the open calls. */
  lemma RunningRowsAreOpenCalls(cwd: string, ops: seq<Op>)
    requires NeverDrops(cwd, ops)
    ensures forall id :: id in After(cwd, ops).ledger <==> Live(ClientOf(After(cwd, ops).frames), id)
  {
    OnlyOpenShownIff(cwd, ops);
    RunningRowsAreShown(cwd, ops);
  }

  /** No call announces an id that is open. */
  predicate NeverReannounces(cwd: string, ops: seq<Op>) {
    ops != [] ==>
      var early, op := ops[..|ops| - 1], ops[|ops| - 1];
      NeverReannounces(cwd, early) && (op.Announce? ==> op.req.id !in After(cwd, early).ledger)
  }

  /** As long as no open call is dropped, asking whether the id is open is enough. */
  lemma SecondAnnounceIffOpenId(cwd: string, ops: seq<Op>)
    requires NeverDrops(cwd, ops)
    ensures NoSecondAnnounce(After(cwd, ops).frames) <==> NeverReannounces(cwd, ops)
  {
    SecondAnnounceIffShown(cwd, ops);
    OnlyOpenShownIff(cwd, ops);
    ShownIsOpen(cwd, ops);
  }

  lemma {:induction false} ShownIsOpen(cwd: string, ops: seq<Op>)
    requires OnlyOpenShown(cwd, ops)
    ensures NeverAnnouncesShown(cwd, ops) <==> NeverReannounces(cwd, ops)
  {
    if ops != [] {
      ShownIsOpen(cwd, ops[..|ops| - 1]);
    }
  }

  /** The id is announced, the ledger is cleared, and the id is announced again. */
  function AnnouncedTwice(ops: seq<Op>, first: Request, second: Request): seq<Op> {
    AnnouncedAndCleared(ops, first) + [Op.Announce(second)]
  }

  function AnnouncedAndCleared(ops: seq<Op>, first: Request): seq<Op> {
    (ops + [Op.Announce(first)]) + [Op.Clear]
  }

  lemma ClearedStaysShown(cwd: string, ops: seq<Op>, first: Request)
    requires NeverReannounces(cwd, ops) && first.id !in After(cwd, ops).ledger
    ensures NeverReannounces(cwd, AnnouncedAndCleared(ops, first))
    ensures var w := After(cwd, AnnouncedAndCleared(ops, first));
            && w.ledger == map[]
            && first.id in ClientOf(w.frames) && ClientOf(w.frames)[first.id].status == first.status.AcpStatus()
  {
    AfterOneMore(cwd, ops, Op.Announce(first));
    AfterOneMore(cwd, ops + [Op.Announce(first)], Op.Clear);
    ReannouncesSplit(cwd, ops, Op.Announce(first));
    ReannouncesSplit(cwd, ops + [Op.Announce(first)], Op.Clear);
  }

  /**
   Once an open call is dropped it is not: after any run, an id that is announced, cleared and
   announced again was never open when announced, and yet its running row is announced twice, and
   goes back to pending if it was in progress.
   */
  lemma ClearedCallIsAnnouncedTwice(cwd: string, ops: seq<Op>, first: Request, second: Request)
    requires NeverReannounces(cwd, ops) && first.id !in After(cwd, ops).ledger && first.id == second.id
    ensures NeverReannounces(cwd, AnnouncedTwice(ops, first, second))
    ensures !NoSecondAnnounce(After(cwd, AnnouncedTwice(ops, first, second)).frames)
    ensures var before := ClientOf(After(cwd, AnnouncedAndCleared(ops, first)).frames);
            var after := ClientOf(After(cwd, AnnouncedTwice(ops, first, second)).frames);
            && first.id in before && before[first.id].status == first.status.AcpStatus()
            && first.id in after && after[first.id].status == second.status.AcpStatus()
    ensures first.status.InProgress? && second.status.Pending?
            ==> !NeverRegresses(After(cwd, AnnouncedTwice(ops, first, second)).frames)
  {
    var two := AnnouncedAndCleared(ops, first);
    ClearedStaysShown(cwd, ops, first);
    AfterOneMore(cwd, two, Op.Announce(second));
    ReannouncesSplit(cwd, two, Op.Announce(second));
    SecondAnnounceSplit(After(cwd, two).frames, AnnounceFrame(cwd, second));
    AppendRegresses(After(cwd, two).frames, Some(AnnounceFrame(cwd, second)));
  }

  lemma ReannouncesSplit(cwd: string, ops: seq<Op>, op: Op)
    ensures NeverReannounces(cwd, ops + [op])
            <==> NeverReannounces(cwd, ops) && (op.Announce? ==> op.req.id !in After(cwd, ops).ledger)
  {
    assert (ops + [op])[..|ops|] == ops;
  }

  lemma SecondAnnounceSplit(frames: seq<SessionUpdate>, frame: SessionUpdate)
    ensures NoSecondAnnounce(frames + [frame])
            <==> NoSecondAnnounce(frames) && (frame.ToolCall? ==> !Live(ClientOf(frames), frame.id))
  {
    var longer := frames + [frame];
    assert longer[..|frames|] == frames;
    assert forall i | 0 <= i < |frames| :: longer[i] == frames[i] && longer[..i] == frames[..i];
  }

  // ------------------------------------------------------------- what each call shows

  function RowOf(cwd: string, ops: seq<Op>, id: ToolCallId): Option<Row> {
    var client := ClientOf(After(cwd, ops).frames);
    if id in client then Some(client[id]) else None
  }

  /** After any run an announce shows the request, and for a shell a terminal under its own id. */
  lemma AnnounceShows(cwd: string, ops: seq<Op>, req: Request)
    ensures RowOf(cwd, ops + [Op.Announce(req)], req.id)
            == Some(Row(req.title,
                        match req.toolClass
                        case Shell => Execute
                        case Mutation => Edit
                        case Read => ReadKind
                        case Search => SearchKind
                        case Other => OtherKind,
                        if req.status.Pending? then AcpPending else AcpInProgress,
                        req.locations, req.rawInput, None,
                        if req.toolClass.Shell? then [TerminalContent(req.id)] else [],
                        if req.toolClass.Shell? then Some(TerminalInfo(req.id, cwd)) else None,
                        [], None))
  {
    AfterOneMore(cwd, ops, Op.Announce(req));
  }

  /** After any run an update of an open call shows the fields of its patch, and the later status. */
  lemma UpdateShows(cwd: string, ops: seq<Op>, id: ToolCallId, atLeast: ToolStatus, patch: UpdatePatch)
    requires id in After(cwd, ops).ledger
    ensures RowOf(cwd, ops, id).Some?
    ensures var row := RowOf(cwd, ops, id).value;
            RowOf(cwd, ops + [Op.Update(id, atLeast, patch)], id)
            == Some(Patched(row, patch).(
                      status := if row.status == AcpPending && atLeast.Pending? then AcpPending else AcpInProgress))
  {
    OpenRowIsInStep(cwd, ops, id);
    var status := After(cwd, ops).ledger[id].status.Max(atLeast).AcpStatus();
    AfterOneMore(cwd, ops, Op.Update(id, atLeast, patch));
    PatchFrameOnRow(ClientOf(After(cwd, ops).frames), id, status, patch);
  }

  lemma OpenRowIsInStep(cwd: string, ops: seq<Op>, id: ToolCallId)
    requires id in After(cwd, ops).ledger
    ensures RowOf(cwd, ops, id).Some?
    ensures RowOf(cwd, ops, id).value.status == After(cwd, ops).ledger[id].status.AcpStatus()
  {
    RunsAreInOrder(cwd, ops);
  }

  lemma PatchFrameOnRow(client: Client, id: ToolCallId, status: AcpStatus, patch: UpdatePatch)
    requires id in client
    ensures var after := Apply(client, ToolCallUpdate(id, status, patch, NO_META));
            id in after && after[id] == Patched(client[id], patch).(status := status)
  {
    assert client[id].pane + [] == client[id].pane;
  }

  /** After any run a finish of an open call shows the fields of its patch, and the outcome. */
  lemma FinishShows(cwd: string, ops: seq<Op>, id: ToolCallId, isError: bool, patch: UpdatePatch)
    requires id in After(cwd, ops).ledger
    ensures RowOf(cwd, ops, id).Some?
    ensures RowOf(cwd, ops + [Op.Finish(id, isError, patch)], id)
            == Some(Patched(RowOf(cwd, ops, id).value, patch).(status := if isError then Failed else Completed))
  {
    OpenRowIsInStep(cwd, ops, id);
    AfterOneMore(cwd, ops, Op.Finish(id, isError, patch));
    PatchFrameOnRow(ClientOf(After(cwd, ops).frames), id, FinalStatus(isError), patch);
  }

  /** After any run a progress of an open terminal shows it in progress, and what its push emits. */
  lemma ProgressShows(cwd: string, ops: seq<Op>, id: ToolCallId, output: Bytes)
    requires id in After(cwd, ops).ledger && After(cwd, ops).ledger[id].body.TerminalBody?
    ensures RowOf(cwd, ops, id).Some?
    ensures var row := RowOf(cwd, ops, id).value;
            RowOf(cwd, ops + [Op.TerminalProgress(id, output)], id)
            == Some(row.(status := AcpInProgress,
                         pane := row.pane + PushOf(Latest(Offered(ops, id)), output).Emitted()))
  {
    PaneIsOwnSnapshots(cwd, ops, id);
    OpenRowIsInStep(cwd, ops, id);
    AfterOneMore(cwd, ops, Op.TerminalProgress(id, output));
    ProgressFrameOnRow(ClientOf(After(cwd, ops).frames), id, PushOf(Latest(Offered(ops, id)), output));
  }

  lemma ProgressFrameOnRow(client: Client, id: ToolCallId, push: Push)
    requires id in client
    ensures var after := Apply(client, ProgressFrame(id, push));
            id in after
            && after[id] == client[id].(status := AcpInProgress, pane := client[id].pane + push.Emitted())
    ensures DeltaMeta(id, push) == NO_META ==> client[id].pane + push.Emitted() == client[id].pane
  {
  }

  /** The call is about the id, or about all of them. */
  predicate IsAbout(op: Op, id: ToolCallId) {
    match op
    case Announce(req) => req.id == id
    case Update(i, _, _) => i == id
    case Finish(i, _, _) => i == id
    case TerminalProgress(i, _) => i == id
    case TerminalFinish(i, _, _, _) => i == id
    case _ => false
  }

  /** No call touches the row of another id; nor does any but an announce when the id is not open. */
  lemma OtherRowsStay(cwd: string, ops: seq<Op>, op: Op, id: ToolCallId)
    requires !IsAbout(op, id) || (!op.Announce? && id !in After(cwd, ops).ledger)
    ensures RowOf(cwd, ops + [op], id) == RowOf(cwd, ops, id)
  {
    AfterOneMore(cwd, ops, op);
  }

  /** Terminal output for a call that is no terminal is dropped. */
  lemma OnlyTerminalsTakeOutput(cwd: string, ops: seq<Op>, op: Op)
    requires op.TerminalProgress? || op.TerminalFinish?
    requires op.id in After(cwd, ops).ledger ==> !After(cwd, ops).ledger[op.id].body.TerminalBody?
    ensures After(cwd, ops + [op]) == After(cwd, ops)
  {
    AfterOneMore(cwd, ops, op);
    assert After(cwd, ops).frames + [] == After(cwd, ops).frames;
  }

  /** The request of the last announce of an id. */
  function LastRequest(ops: seq<Op>, id: ToolCallId): Option<Request> {
    if ops == [] then None
    else if ops[|ops| - 1].Announce? && ops[|ops| - 1].req.id == id then Some(ops[|ops| - 1].req)
    else LastRequest(ops[..|ops| - 1], id)
  }

  /** Every open call is of the class it was announced with. */
  lemma {:induction false} OpenCallsKeepClass(cwd: string, ops: seq<Op>)
    ensures forall id | id in After(cwd, ops).ledger :: KeepsClass(After(cwd, ops).ledger[id], LastRequest(ops, id))
  {
    if ops != [] {
      OpenCallsKeepClass(cwd, ops[..|ops| - 1]);
    }
  }

  predicate KeepsClass(call: Call, req: Option<Request>) {
    req.Some? && call.toolClass == req.value.toolClass
  }

  /** The last file snapshot of a call since it was announced, the announced one included. */
  function LastSnapshot(ops: seq<Op>, id: ToolCallId): Option<FileSnapshot> {
    if ops == [] then None
    else
      var before := LastSnapshot(ops[..|ops| - 1], id);
      match ops[|ops| - 1]
      case Announce(req) => if req.id == id then req.snapshot else before
      case AttachSnapshot(i, snapshot) => if i == id then Some(snapshot) else before
      case _ => before
  }

  /** An open mutation holds the last snapshot it was handed, and only a mutation holds one. */
  lemma {:induction false} MutationsHoldLastSnapshot(cwd: string, ops: seq<Op>)
    ensures forall id | id in After(cwd, ops).ledger :: HoldsSnapshot(After(cwd, ops).ledger[id], LastSnapshot(ops, id))
  {
    if ops != [] {
      MutationsHoldLastSnapshot(cwd, ops[..|ops| - 1]);
    }
  }

  predicate HoldsSnapshot(call: Call, snapshot: Option<FileSnapshot>) {
    && (call.body.MutationBody? <==> call.toolClass.Mutation?)
    && (call.body.TerminalBody? <==> call.toolClass.Shell?)
    && (call.body.MutationBody? ==> call.body.snapshot == snapshot)
  }

  // ------------------------------------------------------------------ suppressed frames

  /**
   The progress frame that is not sent is exactly the one that would leave the client's view as it
   is.
   */
  lemma SuppressedIffNothingToSay(cwd: string, ledger: State, client: Client, id: ToolCallId, output: Bytes)
    requires Coupled(ledger, client) && id in ledger && ledger[id].body.TerminalBody?
    ensures Step(cwd, ledger, Op.TerminalProgress(id, output)).1.None?
            <==> Apply(client, ProgressFrame(id, PushOf(ledger[id].body.emitted, output))) == client
  {
    ProgressSaysNothingIff(client, id, PushOf(ledger[id].body.emitted, output));
  }

  lemma ProgressSaysNothingIff(client: Client, id: ToolCallId, push: Push)
    requires id in client && (push.Append? || push.Resync? ==> push.data != [])
    ensures Apply(client, ProgressFrame(id, push)) == client
            <==> DeltaMeta(id, push) == NO_META && client[id].status == AcpInProgress
  {
    var after := Apply(client, ProgressFrame(id, push));
    assert after[id].status == AcpInProgress;
    if push.Append? || push.Resync? {
      assert |after[id].pane| > |client[id].pane|;
    } else {
      assert after[id].pane == client[id].pane;
      assert after == client[id := client[id].(status := AcpInProgress)];
    }
  }

  // --------------------------------------------------------- terminals over whole runs

  /** The pane of an open terminal is what its own snapshots append, whatever the other calls do. */
  lemma PaneIsOwnSnapshots(cwd: string, ops: seq<Op>, id: ToolCallId)
    requires id in After(cwd, ops).ledger && After(cwd, ops).ledger[id].body.TerminalBody?
    ensures id in ClientOf(After(cwd, ops).frames)
    ensures ClientOf(After(cwd, ops).frames)[id].pane == Pane(Offered(ops, id))
    ensures After(cwd, ops).ledger[id].body.emitted == Latest(Offered(ops, id))
  {
    RunsAreInOrder(cwd, ops);
  }

  /**
   The whole-command property at the ledger: among any interleaved calls, if the snapshots of one
   terminal are the windows of an output in which no block of the minimum length repeats, the
   client's pane holds the output produced so far, every byte once.
   */
  lemma WholeCommandIsExact(cwd: string, ops: seq<Op>, id: ToolCallId, output: Bytes, windows: seq<Window>)
    requires id in After(cwd, ops).ledger && After(cwd, ops).ledger[id].body.TerminalBody?
    requires Offered(ops, id) == Previews(output, windows)
    requires Schedule(output, windows) && NoBlockRepeats(output)
    requires windows != [] ==> windows[0].start == 0
    ensures id in ClientOf(After(cwd, ops).frames)
    ensures ClientOf(After(cwd, ops).frames)[id].pane == Produced(output, windows)
  {
    PaneIsOwnSnapshots(cwd, ops, id);
    WholePaneIsExact(output, windows);
  }

  lemma WholePaneIsExact(output: Bytes, windows: seq<Window>)
    requires Schedule(output, windows) && NoBlockRepeats(output)
    requires windows != [] ==> windows[0].start == 0
    ensures Pane(Previews(output, windows)) == Produced(output, windows)
    ensures windows != [] ==> Last(windows).end <= |output|
  {
    UniqueBlocksMakeRunsExact(output, windows);
    assert windows[..|windows|] == windows;
  }

  /** The row a terminal leaves behind when it finishes. */
  function FinishedRow(cwd: string, ops: seq<Op>, id: ToolCallId, output: Bytes, isError: bool, exitCode: int)
    : Option<Row>
  {
    var client := ClientOf(After(cwd, ops + [Op.TerminalFinish(id, output, isError, exitCode)]).frames);
    if id in client then Some(client[id]) else None
  }

  ghost predicate Delivered(row: Option<Row>, output: Bytes) {
    && row.Some?
    && (TextContent(output) in row.value.content || EndsWith(row.value.pane, output))
  }

  /** The content of the row of `id`. */
  function ContentBeside(cwd: string, ops: seq<Op>, id: ToolCallId): seq<Content> {
    var client := ClientOf(After(cwd, ops).frames);
    if id in client then client[id].content else []
  }

  /** What a finish adds to the row of an open terminal. */
  lemma FinishAddsLastPush(cwd: string, ops: seq<Op>, id: ToolCallId, output: Bytes, isError: bool, exitCode: int)
    requires id in After(cwd, ops).ledger && After(cwd, ops).ledger[id].body.TerminalBody?
    ensures var push := PushOf(Latest(Offered(ops, id)), output);
            var row := FinishedRow(cwd, ops, id, output, isError, exitCode);
            && row.Some? && row.value.status == (if isError then Failed else Completed)
            && row.value.exit == Some(TerminalExit(id, exitCode))
            && row.value.pane == Pane(Offered(ops, id)) + push.Emitted()
            && row.value.content
               == if push.Desynced? && output != [] then [TextContent(output)] else ContentBeside(cwd, ops, id)
  {
    PaneIsOwnSnapshots(cwd, ops, id);
    var push, client := PushOf(Latest(Offered(ops, id)), output), ClientOf(After(cwd, ops).frames);
    FinishSendsLastPush(cwd, ops, id, output, isError, exitCode, push);
    FinishFrameOnRow(client, id, push, output, isError, exitCode);
  }

  lemma FinishSendsLastPush(
    cwd: string, ops: seq<Op>, id: ToolCallId, output: Bytes, isError: bool, exitCode: int, push: Push)
    requires id in After(cwd, ops).ledger && After(cwd, ops).ledger[id].body.TerminalBody?
    requires push == PushOf(After(cwd, ops).ledger[id].body.emitted, output)
    ensures ClientOf(After(cwd, ops + [Op.TerminalFinish(id, output, isError, exitCode)]).frames)
            == Apply(ClientOf(After(cwd, ops).frames), FinishFrame(id, push, output, isError, exitCode))
  {
    AfterOneMore(cwd, ops, Op.TerminalFinish(id, output, isError, exitCode));
  }

  lemma FinishFrameOnRow(
    client: Client, id: ToolCallId, push: Push, output: Bytes, isError: bool, exitCode: int)
    requires id in client
    ensures var after := Apply(client, FinishFrame(id, push, output, isError, exitCode));
            && id in after && after[id].status == (if isError then Failed else Completed)
            && after[id].exit == Some(TerminalExit(id, exitCode))
            && after[id].pane == client[id].pane + push.Emitted()
            && after[id].content
               == if push.Desynced? && output != [] then [TextContent(output)] else client[id].content
  {
  }

  /** The whole command, its finish included: the pane holds all the output up to the last window, every byte once. */
  lemma FinishedCommandIsExact(
    cwd: string, ops: seq<Op>, id: ToolCallId, output: Bytes, windows: seq<Window>, last: Window,
    isError: bool, exitCode: int)
    requires id in After(cwd, ops).ledger && After(cwd, ops).ledger[id].body.TerminalBody?
    requires Offered(ops, id) == Previews(output, windows)
    requires Schedule(output, windows + [last]) && NoBlockRepeats(output) && (windows + [last])[0].start == 0
    ensures var row := FinishedRow(cwd, ops, id, Preview(output, last), isError, exitCode);
            && last.end <= |output|
            && row.Some? && row.value.status == (if isError then Failed else Completed) && row.value.pane == output[..last.end]
  {
    FinishAddsLastPush(cwd, ops, id, Preview(output, last), isError, exitCode);
    LastPushIsExact(output, windows, last);
  }

  lemma LastPushIsExact(output: Bytes, windows: seq<Window>, last: Window)
    requires Schedule(output, windows + [last]) && NoBlockRepeats(output) && (windows + [last])[0].start == 0
    ensures last.end <= |output|
    ensures Pane(Previews(output, windows)) + PushOf(Latest(Previews(output, windows)), Preview(output, last)).Emitted()
            == output[..last.end]
  {
    WholePaneIsExact(output, windows + [last]);
    PreviewsOneMore(output, windows, last);
    PaneAfterPush(Previews(output, windows), Preview(output, last));
  }

  lemma PreviewsOneMore(output: Bytes, windows: seq<Window>, last: Window)
    ensures Previews(output, windows + [last]) == Previews(output, windows) + [Preview(output, last)]
  {
  }

  /**
   The tail of a command is never lost: if no earlier push desynced, a finish leaves its output at
   the end of the pane or, when its own push desyncs, in the text beside it.
   */
  lemma FinishDeliversOutput(cwd: string, ops: seq<Op>, id: ToolCallId, output: Bytes, isError: bool, exitCode: int)
    requires id in After(cwd, ops).ledger && After(cwd, ops).ledger[id].body.TerminalBody?
    requires InSync(Offered(ops, id))
    ensures Delivered(FinishedRow(cwd, ops, id, output, isError, exitCode), output)
  {
    FinishAddsLastPush(cwd, ops, id, output, isError, exitCode);
    if !PushOf(Latest(Offered(ops, id)), output).Desynced? {
      PaneEndsWithLatest(Offered(ops, id));
      PaneKeepsSnapshot(Pane(Offered(ops, id)), Latest(Offered(ops, id)), output);
    }
  }

  lemma ProgressOffers(cwd: string, ops: seq<Op>, id: ToolCallId, output: Bytes)
    requires id in After(cwd, ops).ledger && After(cwd, ops).ledger[id].body.TerminalBody?
    ensures var longer := ops + [Op.TerminalProgress(id, output)];
            && id in After(cwd, longer).ledger && After(cwd, longer).ledger[id].body.TerminalBody?
            && Offered(longer, id) == Offered(ops, id) + [output]
            && ContentBeside(cwd, longer, id) == ContentBeside(cwd, ops, id)
  {
    assert (ops + [Op.TerminalProgress(id, output)])[..|ops|] == ops;
    AfterOneMore(cwd, ops, Op.TerminalProgress(id, output));
  }

  /** A shell is announced and offers two snapshots. */
  function TwoSnapshots(req: Request, first: Bytes, second: Bytes): seq<Op> {
    [Op.Announce(req)] + [Op.TerminalProgress(req.id, first)] + [Op.TerminalProgress(req.id, second)]
  }

  /**
   Exactly when a finish delivers its output: its push desyncs, or the text beside the pane is that
   output already, or enough was emitted since the last desync to fill it, or the pane then ended
   with what the output still holds of the snapshot that was lost.
   */
  lemma FinishDeliversIff(cwd: string, ops: seq<Op>, id: ToolCallId, output: Bytes, isError: bool, exitCode: int)
    requires id in After(cwd, ops).ledger && After(cwd, ops).ledger[id].body.TerminalBody?
    ensures var pushes := Offered(ops, id) + [output];
            Delivered(FinishedRow(cwd, ops, id, output, isError, exitCode), output)
            <==> || LastDesyncs(pushes)
                 || TextContent(output) in ContentBeside(cwd, ops, id)
                 || |Since(pushes)| >= |output|
                 || EndsWith(PaneAtBase(pushes), StillShown(pushes))
  {
    FinishAddsLastPush(cwd, ops, id, output, isError, exitCode);
    var offered := Offered(ops, id);
    var pushes := offered + [output];
    assert pushes[..|offered|] == offered;
    PaneAfterPush(offered, output);
    if !LastDesyncs(pushes) {
      PaneRecoversIff(pushes);
    }
  }

  lemma TwoSnapshotsAreOpen(cwd: string, req: Request, first: Bytes, second: Bytes)
    requires req.toolClass.Shell?
    ensures var w := After(cwd, TwoSnapshots(req, first, second));
            req.id in w.ledger && w.ledger[req.id].body.TerminalBody?
    ensures Offered(TwoSnapshots(req, first, second), req.id) == [] + [first] + [second]
    ensures ContentBeside(cwd, TwoSnapshots(req, first, second), req.id) == [TerminalContent(req.id)]
  {
    var ops := [Op.Announce(req)];
    assert [] + ops == ops && ops[..0] == [];
    AfterOneMore(cwd, [], Op.Announce(req));
    ProgressOffers(cwd, ops, req.id, first);
    ProgressOffers(cwd, ops + [Op.TerminalProgress(req.id, first)], req.id, second);
  }

  /**
   The hypothesis of `FinishDeliversOutput` is needed: when a second snapshot desyncs, here one
   byte after another one, a finish that repeats it leaves its output in neither place.
   */
  lemma RepeatedDesyncIsLost(cwd: string, req: Request, first: Byte, second: Byte)
    requires req.toolClass.Shell? && first != second
    ensures var w := After(cwd, TwoSnapshots(req, [first], [second]));
            req.id in w.ledger && w.ledger[req.id].body.TerminalBody?
    ensures !Delivered(FinishedRow(cwd, TwoSnapshots(req, [first], [second]), req.id, [second], false, 0), [second])
  {
    TwoSnapshotsAreOpen(cwd, req, [first], [second]);
    LostTwice([first], [second]);
    FinishDeliversIff(cwd, TwoSnapshots(req, [first], [second]), req.id, [second], false, 0);
  }

  lemma LostTwice(a: Bytes, z: Bytes)
    requires |a| == |z| == 1 && a != z
    ensures var pushes := [] + [a] + [z] + [z];
            && !LastDesyncs(pushes) && Since(pushes) == []
            && !EndsWith(PaneAtBase(pushes), StillShown(pushes))
  {
    FirstSnapshotIsShown(a);
    ShortSnapshotDesyncs(a, z);
    RepeatOfDesync([] + [a], z);
  }

  lemma FirstSnapshotIsShown(first: Bytes)
    ensures Pane([] + [first]) == first && Latest([] + [first]) == first
  {
    PaneAfterPush([], first);
    PrefixIsLongestOverlap([], first);
    PushEmitsPastLongestOverlap([], first);
  }

  lemma ShortSnapshotDesyncs(emitted: Bytes, next: Bytes)
    requires |next| < MIN_RESYNC_OVERLAP && !(emitted <= next)
    ensures PushOf(emitted, next) == Desynced
  {
    LongestOverlapIsLongest(emitted, next);
  }
}
