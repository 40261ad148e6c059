/**
 The ledger of live tool calls: every frame that names a tool-call id is built here, after the map
 of open calls has been asked.
 */
module ToolCallLedger {
  import opened Wrappers
  import opened Utf8
  import Terminal

  type ToolCallId = string

  datatype ToolClass = Shell | Mutation | Read | Search | Other {
    predicate IsTerminal() { Shell? }

    function AcpKind(): ToolKind {
      match this
      case Shell => Execute
      case Mutation => Edit
      case Read => ReadKind
      case Search => SearchKind
      case Other => OtherKind
    }
  }

  datatype ToolKind = Execute | Edit | ReadKind | SearchKind | OtherKind

  /** A live call's status. There is no value for a finished call. */
  datatype ToolStatus = Pending | InProgress {
    function Max(other: ToolStatus): ToolStatus {
      if Pending? then other else this
    }

    function AcpStatus(): AcpStatus {
      if Pending? then AcpPending else AcpInProgress
    }
  }

  datatype AcpStatus = AcpPending | AcpInProgress | Completed | Failed

  datatype FileSnapshot = FileSnapshot(path: string, before: Option<string>, unreadable: bool)

  // ------------------------------------------------------------------------------ frames

  datatype Content = TerminalContent(terminalId: ToolCallId) | TextContent(text: Bytes) | DiffContent(path: string)

  datatype TerminalInfo = TerminalInfo(terminalId: ToolCallId, cwd: string)

  datatype TerminalOutput = TerminalOutput(terminalId: ToolCallId, data: Bytes)

  /** The signal is always null, so it is no field here. */
  datatype TerminalExit = TerminalExit(terminalId: ToolCallId, exitCode: int)

  datatype Meta = Meta(info: Option<TerminalInfo>, output: Option<TerminalOutput>, exit: Option<TerminalExit>)

  const NO_META := Meta(None, None, None)

  /** The changed fields of an update; the status is a separate argument everywhere. */
  datatype UpdatePatch = UpdatePatch(
    title: Option<string>, content: Option<seq<Content>>, locations: Option<seq<string>>,
    rawInput: Option<string>, rawOutput: Option<string>)

  const NO_PATCH := UpdatePatch(None, None, None, None, None)

  datatype Request = Request(
    id: ToolCallId, toolClass: ToolClass, title: string, status: ToolStatus,
    locations: seq<string>, rawInput: Option<string>, snapshot: Option<FileSnapshot>)

  datatype SessionUpdate =
    | ToolCall(id: ToolCallId, title: string, kind: ToolKind, status: AcpStatus, locations: seq<string>,
               rawInput: Option<string>, content: seq<Content>, meta: Meta)
    | ToolCallUpdate(id: ToolCallId, status: AcpStatus, patch: UpdatePatch, meta: Meta)

  /** `terminal_output`, or nothing when the push emitted nothing. */
  function DeltaMeta(id: ToolCallId, push: Terminal.Push): Meta {
    if push.Append? || push.Resync? then NO_META.(output := Some(TerminalOutput(id, push.data))) else NO_META
  }

  // ------------------------------------------------------------- the ledger as a value

  datatype Body = TerminalBody(emitted: Bytes) | MutationBody(snapshot: Option<FileSnapshot>) | PlainBody

  datatype Call = Call(status: ToolStatus, toolClass: ToolClass, body: Body)

  type State = map<ToolCallId, Call>

  /** The calls a client of the ledger can make. */
  datatype Op =
    | Announce(req: Request)
    | Update(id: ToolCallId, atLeast: ToolStatus, patch: UpdatePatch)
    | Finish(id: ToolCallId, isError: bool, patch: UpdatePatch)
    | TerminalProgress(id: ToolCallId, output: Bytes)
    | TerminalFinish(id: ToolCallId, output: Bytes, isError: bool, exitCode: int)
    | AttachSnapshot(id: ToolCallId, snapshot: FileSnapshot)
    | Close(id: ToolCallId)
    | Clear

  function FreshBody(req: Request): Body {
    match req.toolClass
    case Shell => TerminalBody([])
    case Mutation => MutationBody(req.snapshot)
    case _ => PlainBody
  }

  function AnnounceFrame(cwd: string, req: Request): SessionUpdate {
    var terminal := req.toolClass.IsTerminal();
    ToolCall(req.id, req.title, req.toolClass.AcpKind(), req.status.AcpStatus(), req.locations, req.rawInput,
             if terminal then [TerminalContent(req.id)] else [],
             if terminal then NO_META.(info := Some(TerminalInfo(req.id, cwd))) else NO_META)
  }

  function FinalStatus(isError: bool): AcpStatus {
    if isError then Failed else Completed
  }

  /** What an op does to the map of open calls, and the frame it sends. */
  function Step(cwd: string, st: State, op: Op): (State, Option<SessionUpdate>) {
    match op
    case Announce(req) =>
      (st[req.id := Call(req.status, req.toolClass, FreshBody(req))], Some(AnnounceFrame(cwd, req)))
    case Update(id, atLeast, patch) =>
      if id !in st then (st, None)
      else
        var call := st[id].(status := st[id].status.Max(atLeast));
        (st[id := call], Some(ToolCallUpdate(id, call.status.AcpStatus(), patch, NO_META)))
    case Finish(id, isError, patch) =>
      if id !in st then (st, None)
      else (st - {id}, Some(ToolCallUpdate(id, FinalStatus(isError), patch, NO_META)))
    case TerminalProgress(id, output) =>
      if id !in st || !st[id].body.TerminalBody? then (st, None)
      else
        var push := Terminal.PushOf(st[id].body.emitted, output);
        var call := st[id].(status := InProgress, body := TerminalBody(output));
        (st[id := call],
         if DeltaMeta(id, push) == NO_META && st[id].status == InProgress then None
         else Some(ProgressFrame(id, push)))
    case TerminalFinish(id, output, isError, exitCode) =>
      if id !in st || !st[id].body.TerminalBody? then (st, None)
      else
        (st - {id},
         Some(FinishFrame(id, Terminal.PushOf(st[id].body.emitted, output), output, isError, exitCode)))
    case AttachSnapshot(id, snapshot) =>
      if id !in st || !st[id].body.MutationBody? then (st, None)
      else (st[id := st[id].(body := MutationBody(Some(snapshot)))], None)
    case Close(id) => (st - {id}, None)
    case Clear => (map[], None)
  }

  function ProgressFrame(id: ToolCallId, push: Terminal.Push): SessionUpdate {
    ToolCallUpdate(id, AcpInProgress, NO_PATCH, DeltaMeta(id, push))
  }

  /** The close of a terminal: a desynced last push falls back to a text content block. */
  function FinishFrame(id: ToolCallId, push: Terminal.Push, output: Bytes, isError: bool, exitCode: int)
    : SessionUpdate
  {
    var patch := if push.Desynced? && output != [] then NO_PATCH.(content := Some([TextContent(output)])) else NO_PATCH;
    ToolCallUpdate(id, FinalStatus(isError), patch, DeltaMeta(id, push).(exit := Some(TerminalExit(id, exitCode))))
  }

  // ------------------------------------------------------------------------- the class

  datatype StreamBody =
    | TerminalStream(appender: Terminal.TerminalAppender)
    | MutationStream(snapshot: Option<FileSnapshot>)
    | PlainStream
  {
    function View(): Body
      reads if TerminalStream? then {appender} else {}
    {
      match this
      case TerminalStream(appender) => TerminalBody(appender.emitted)
      case MutationStream(snapshot) => MutationBody(snapshot)
      case PlainStream => PlainBody
    }
  }

  datatype ToolCallStream = ToolCallStream(status: ToolStatus, toolClass: ToolClass, body: StreamBody)

  class ToolCallLedger {
    const cwd: string
    var open: map<ToolCallId, ToolCallStream>

    constructor (cwd: string)
      ensures this.cwd == cwd && Valid() && View() == map[] && Appenders() == {}
    {
      this.cwd := cwd;
      open := map[];
    }

    /** The appenders the open terminals own. */
    ghost function Appenders(): set<Terminal.TerminalAppender>
      reads this
    {
      set id | id in open && open[id].body.TerminalStream? :: open[id].body.appender
    }

    /** No two open calls share an appender. */
    ghost predicate Valid()
      reads this
    {
      forall i, j | i in open && j in open && i != j && open[i].body.TerminalStream? && open[j].body.TerminalStream? ::
        open[i].body.appender != open[j].body.appender
    }

    ghost function View(): State
      reads this, Appenders()
    {
      map id | id in open :: Call(open[id].status, open[id].toolClass, open[id].body.View())
    }

    method Announce(req: Request) returns (frame: SessionUpdate)
      requires Valid()
      modifies this
      ensures Valid() && fresh(Appenders() - old(Appenders()))
      ensures (View(), Some(frame)) == Step(cwd, old(View()), Op.Announce(req))
    {
      var body := PlainStream;
      if req.toolClass.IsTerminal() {
        var appender := new Terminal.TerminalAppender();
        body := TerminalStream(appender);
      } else if req.toolClass.Mutation? {
        body := MutationStream(req.snapshot);
      }
      open := open[req.id := ToolCallStream(req.status, req.toolClass, body)];
      frame := AnnounceFrame(cwd, req);
      assert View() == Step(cwd, old(View()), Op.Announce(req)).0;
    }

    method Update(id: ToolCallId, atLeast: ToolStatus, patch: UpdatePatch) returns (frame: Option<SessionUpdate>)
      requires Valid()
      modifies this
      ensures Valid() && Appenders() <= old(Appenders())
      ensures (View(), frame) == Step(cwd, old(View()), Op.Update(id, atLeast, patch))
    {
      if id !in open {
        return None;
      }
      var stream := open[id].(status := open[id].status.Max(atLeast));
      open := open[id := stream];
      frame := Some(ToolCallUpdate(id, stream.status.AcpStatus(), patch, NO_META));
      assert View() == Step(cwd, old(View()), Op.Update(id, atLeast, patch)).0;
    }

    method Finish(id: ToolCallId, isError: bool, patch: UpdatePatch) returns (frame: Option<SessionUpdate>)
      requires Valid()
      modifies this
      ensures Valid() && Appenders() <= old(Appenders())
      ensures (View(), frame) == Step(cwd, old(View()), Op.Finish(id, isError, patch))
    {
      if id !in open {
        return None;
      }
      open := open - {id};
      frame := Some(ToolCallUpdate(id, FinalStatus(isError), patch, NO_META));
      assert View() == Step(cwd, old(View()), Op.Finish(id, isError, patch)).0;
    }

    method TerminalProgress(id: ToolCallId, output: Bytes) returns (frame: Option<SessionUpdate>)
      requires Valid()
      modifies this, Appenders()
      ensures Valid() && Appenders() <= old(Appenders())
      ensures (View(), frame) == Step(cwd, old(View()), Op.TerminalProgress(id, output))
    {
      if id !in open || !open[id].body.TerminalStream? {
        return None;
      }
      ghost var was := View();
      var stream := open[id];
      var push := stream.body.appender.Push(output);
      var meta := DeltaMeta(id, push);
      open := open[id := stream.(status := InProgress)];
      assert View() == was[id := was[id].(status := InProgress, body := TerminalBody(output))];
      if meta == NO_META && stream.status == InProgress {
        return None;
      }
      frame := Some(ToolCallUpdate(id, AcpInProgress, NO_PATCH, meta));
    }

    method TerminalFinish(id: ToolCallId, output: Bytes, isError: bool, exitCode: int)
      returns (frame: Option<SessionUpdate>)
      requires Valid()
      modifies this, Appenders()
      ensures Valid() && Appenders() <= old(Appenders())
      ensures (View(), frame) == Step(cwd, old(View()), Op.TerminalFinish(id, output, isError, exitCode))
    {
      if id !in open || !open[id].body.TerminalStream? {
        return None;
      }
      var push := open[id].body.appender.Push(output);
      var lost := push.Desynced?;
      var meta := DeltaMeta(id, push).(exit := Some(TerminalExit(id, exitCode)));
      open := open - {id};
      var patch := NO_PATCH;
      if lost && output != [] {
        patch := patch.(content := Some([TextContent(output)]));
      }
      frame := Some(ToolCallUpdate(id, FinalStatus(isError), patch, meta));
      assert View() == Step(cwd, old(View()), Op.TerminalFinish(id, output, isError, exitCode)).0;
    }

    method AttachSnapshot(id: ToolCallId, snapshot: FileSnapshot) returns (attached: bool)
      requires Valid()
      modifies this
      ensures Valid() && Appenders() <= old(Appenders())
      ensures View() == Step(cwd, old(View()), Op.AttachSnapshot(id, snapshot)).0
      ensures attached <==> id in View() && View()[id].body == MutationBody(Some(snapshot))
                            && id in old(View()) && old(View())[id].body.MutationBody?
    {
      if id in open && open[id].body.MutationStream? {
        open := open[id := open[id].(body := MutationStream(Some(snapshot)))];
        return true;
      }
      return false;
    }

    method Close(id: ToolCallId) returns (closed: bool)
      requires Valid()
      modifies this
      ensures Valid() && Appenders() <= old(Appenders())
      ensures View() == Step(cwd, old(View()), Op.Close(id)).0
      ensures closed <==> id in old(View())
    {
      closed := id in open;
      open := open - {id};
    }

    method Clear()
      requires Valid()
      modifies this
      ensures Valid() && Appenders() == {}
      ensures View() == Step(cwd, old(View()), Op.Clear).0
    {
      open := map[];
    }
  }
}
