/** The protocol between a GPU session, its cooperative worker task and the DRM driver.

    An RPC hands one request to the worker and runs it until it finishes or blocks inside
    a DRM call; a blocked worker is resumed by later interrupts. What DRM answers is not
    determined here: every run of the worker comes with the outcomes of the DRM calls that
    return during it, and the worker blocks where they are used up. */
module GpuProtocol {

  datatype Option<+T> = None | Some(value: T)

  type Id = nat
  type Handle = nat
  type Cap = nat  // a valid dataspace capability

  datatype Op = Invalid | Alloc | Free | Map | Unmap | Exec | Wait

  datatype Request = Request(op: Op, id: Id, size: nat, seqno: nat, success: bool, tag: nat) {
    predicate Valid() {
      op != Invalid
    }
  }

  /** 'Gpu::Request()' */
  const BLANK := Request(Invalid, 0, 0, 0, false, 0)

  /** A managed buffer. 'slots' are the buffer-object entries of the submit structure that
      the client has put into it. */
  datatype Buffer = Buffer(handle: Handle, cap: Cap, slots: seq<nat>)

  type Buffers = map<Id, Buffer>

  /** The session's DRM file: open handles, and the calls made so far. */
  datatype Drm = Drm(open: set<Handle>, submits: seq<seq<Handle>>, closes: seq<Handle>)

  /** Where a request can block: inside the DRM call named here. */
  datatype Point =
    | GemNew
    | GemInfo(handle: Handle)
    | GemUndo(handle: Handle)  // gem_close after a failed gem_info
    | GemClose(handle: Handle)
    | Submit(bos: seq<Handle>)
    | WaitFence
    | CpuPrep(handle: Handle)
    | CpuFini(handle: Handle)

  /** Why adding a buffer throws: its id is in use, or there is nothing to attach. */
  datatype Cause = IdTaken | NoDataspace

  /** 'Crashed': an exception escaped from the worker and took the driver down. */
  datatype Worker = Idle | Inside(r: Request, at: Point) | Crashed(cause: Cause)

  datatype State = State(
    buffers: Buffers,
    pending: Request,
    completed: Request,
    wired: bool,          // the worker's request pointers have been set
    pendingMap: bool,
    tags: nat,            // 'tag_counter', shared by all sessions
    worker: Worker,
    drm: Drm,
    flushed: seq<Id>,     // cache maintenance done for EXEC
    notifications: nat)   // completion signals raised

  const INIT := State(map[], BLANK, BLANK, false, false, 0, Idle, Drm({}, [], []), [], 0)

  /** The answer of one DRM call: its error state, a number (handle or fence), and the
      capability that its offset leads to. */
  datatype Outcome = Outcome(ok: bool, value: nat, cap: Option<Cap>)

  function Handles(b: Buffers): set<Handle> {
    set i | i in b :: b[i].handle
  }

  // ---- the worker ----

  /** Publishing a result, in the order of 'with_pending_request', and going idle. */
  function Finish(s: State, r: Request, notify: bool): State {
    s.(completed := r, pending := BLANK, worker := Idle,
       notifications := s.notifications + if notify then 1 else 0)
  }

  /** Position of the first id that is not managed, or the number of slots. */
  function FirstUnknown(b: Buffers, slots: seq<nat>): (n: nat)
    ensures n <= |slots|
    ensures forall k :: 0 <= k < n ==> slots[k] in b
    ensures n < |slots| ==> slots[n] !in b
  {
    if slots == [] || slots[0] !in b then 0 else 1 + FirstUnknown(b, slots[1..])
  }

  /** The slots after the translation loop of EXEC has visited the first 'n'. */
  function Translated(b: Buffers, slots: seq<nat>, n: nat): seq<nat>
    requires n <= |slots|
    requires forall k :: 0 <= k < n ==> slots[k] in b
  {
    seq(|slots|, k requires 0 <= k < |slots| => if k < n then b[slots[k]].handle else slots[k])
  }

  function StartExec(s: State, r: Request): State {
    if r.id !in s.buffers then Finish(s, r, false)
    else
      var slots := s.buffers[r.id].slots;
      var n := FirstUnknown(s.buffers, slots);
      var bos := Translated(s.buffers, slots, n);
      var s' := s.(buffers := s.buffers[r.id := s.buffers[r.id].(slots := bos)],
                   flushed := s.flushed + slots[..n]);
      if n < |slots| then Finish(s', r, false)
      else s'.(worker := Inside(r, Submit(bos)), drm := s'.drm.(submits := s'.drm.submits + [bos]))
  }

  /** An idle worker that is unblocked: it resets the completed slot and runs up to the
      first DRM call of the pending request. */
  function Start(s: State): State {
    if !s.wired || !s.pending.Valid() then s
    else
      var r := s.pending.(success := false);
      var s' := s.(completed := BLANK);
      match r.op
      case Alloc => s'.(worker := Inside(r, GemNew))
      case Free =>
        if r.id in s.buffers then s'.(worker := Inside(r, GemClose(s.buffers[r.id].handle)))
        else Finish(s', r, false)
      case Exec => StartExec(s', r)
      case Wait => s'.(worker := Inside(r, WaitFence))
      case Map =>
        if r.id in s.buffers then s'.(worker := Inside(r, CpuPrep(s.buffers[r.id].handle)))
        else Finish(s', r, false)
      case Unmap =>
        if r.id in s.buffers then s'.(worker := Inside(r, CpuFini(s.buffers[r.id].handle)))
        else Finish(s', r, false)
  }

  function Close(d: Drm, h: Handle): Drm {
    d.(open := d.open - {h}, closes := d.closes + [h])
  }

  /** The DRM call in which the worker is blocked returns, and the worker runs up to the
      next one. DRM hands out only handles that are not open: an outcome that names an
      open one is read as a failure. Adding a buffer throws if the id is taken or the
      capability is invalid, and nothing catches that in the worker. */
  function Step(s: State, o: Outcome): State {
    match s.worker
    case Idle => s
    case Crashed(_) => s
    case Inside(r, at) =>
      match at
      case GemNew =>
        if o.ok && o.value !in s.drm.open
        then s.(worker := Inside(r, GemInfo(o.value)), drm := s.drm.(open := s.drm.open + {o.value}))
        else Finish(s, r, false)
      case GemInfo(h) =>
        if !o.ok then s.(worker := Inside(r, GemUndo(h)))
        else if r.id in s.buffers then s.(worker := Crashed(IdTaken))
        else if o.cap.None? then s.(worker := Crashed(NoDataspace))
        else Finish(s.(buffers := s.buffers[r.id := Buffer(h, o.cap.value, [])]),
                    r.(success := true), false)
      case GemUndo(h) => Finish(s.(drm := Close(s.drm, h)), r, false)
      case GemClose(h) =>
        Finish(s.(drm := Close(s.drm, h), buffers := s.buffers - {r.id}), r.(success := true), false)
      case Submit(bos) =>
        if o.ok then Finish(s, r.(seqno := o.value, success := true), false) else Finish(s, r, false)
      case WaitFence => Finish(s, r.(success := o.ok), true)
      case CpuPrep(h) => Finish(s, r.(success := o.ok), true)
      case CpuFini(h) => Finish(s, r.(success := true), false)
  }

  /** One execution of the scheduler: the worker runs until it is done or blocked. */
  function RunWorker(s: State, outs: seq<Outcome>): State
    decreases outs
  {
    if !s.worker.Inside? || outs == [] then s
    else RunWorker(Step(s, outs[0]), outs[1..])
  }

  // ---- the session ----

  predicate Managed(s: State, req: Request) {
    req.op in {Free, Map, Unmap, Exec} ==> req.id in s.buffers
  }

  /** '_schedule_request'; 'Some' is the request passed to the success callback. */
  function Schedule(s: State, req: Request, outs: seq<Outcome>): (State, Option<Request>) {
    if s.pending.Valid() || !Managed(s, req) then (s, None)
    else
      var t := RunWorker(Start(s.(pending := req, wired := true)), outs);
      (t, if t.completed.success then Some(t.completed) else None)
  }

  datatype Event =
    | Execute(id: Id, outs: seq<Outcome>)
    | Complete(seqno: nat, outs: seq<Outcome>)
    | AllocVram(id: Id, size: nat, outs: seq<Outcome>)
    | FreeVram(id: Id, outs: seq<Outcome>)
    | MapCpu(id: Id, outs: seq<Outcome>)
    | UnmapCpu(id: Id, outs: seq<Outcome>)
    | Resume(outs: seq<Outcome>, otherTags: nat)  // an interrupt; other sessions drew tags
    | ClientWrite(id: Id, slots: seq<nat>)        // the client fills a submit buffer

  datatype Reply =
    | Nothing
    | InvalidState  // the exception
    | SequenceNumber(value: nat)
    | Completed(done: bool)
    | Capability(cap: Option<Cap>)

  /** '~0U' */
  const MAX_SIZE: nat := 0xffff_ffff

  /** 'map_cpu' finds a MAP still pending. */
  predicate MapBusy(s: State) {
    s.pendingMap && s.wired && s.pending.op == Map
  }

  /** 'map_cpu' takes the result of an earlier MAP from the completed slot. */
  predicate MapHandOver(s: State) {
    s.pendingMap && !MapBusy(s) && s.wired && s.completed.op == Map
  }

  /** 'Request::create', drawing the next tag. */
  function Create(s: State, op: Op, id: Id): Request {
    Request(op, id, 0, 0, false, s.tags + 1)
  }

  /** The request that an RPC passes to '_schedule_request', if it gets that far. */
  function RequestOf(s: State, e: Event): Option<Request> {
    match e
    case Execute(id, _) => Some(Create(s, Exec, id))
    case Complete(seqno, _) => Some(Create(s, Wait, 0).(seqno := seqno))
    case AllocVram(id, size, _) =>
      if size > MAX_SIZE then None else Some(Create(s, Alloc, id).(size := size))
    case FreeVram(id, _) => Some(Create(s, Free, id))
    case MapCpu(id, _) => if MapBusy(s) || MapHandOver(s) then None else Some(Create(s, Map, id))
    case UnmapCpu(id, _) => Some(Create(s, Unmap, id))
    case Resume(_, _) => None
    case ClientWrite(_, _) => None
  }

  function Lookup(b: Buffers, id: Id): Option<Cap> {
    if id in b then Some(b[id].cap) else None
  }

  /** The callbacks of the RPCs: what they change and what they return. */
  function Callback(t: State, e: Event, d: Option<Request>): (State, Reply) {
    match e
    case Execute(_, _) => (t, if d.Some? then SequenceNumber(d.value.seqno) else InvalidState)
    case Complete(_, _) => (t, Completed(d.Some? && d.value.success))
    case AllocVram(_, _, _) =>
      (t, Capability(if d.Some? then Lookup(t.buffers, d.value.id) else None))
    case MapCpu(_, _) =>
      if d.Some? then (t, Capability(Lookup(t.buffers, d.value.id)))
      else (t.(pendingMap := true), Capability(None))
    case _ => (t, Nothing)
  }

  /** An RPC or another event of a session; a crashed driver reacts to nothing. */
  function Apply(s: State, e: Event): (State, Reply) {
    if s.worker.Crashed? then (s, Nothing)
    else match e
      case Resume(outs, otherTags) =>
        (RunWorker(s.(tags := s.tags + otherTags), outs), Nothing)
      case ClientWrite(id, slots) =>
        if id in s.buffers
        then (s.(buffers := s.buffers[id := s.buffers[id].(slots := slots)]), Nothing)
        else (s, Nothing)
      case _ => Rpc(s, e)
  }

  function Rpc(s: State, e: Event): (State, Reply)
    requires !e.Resume? && !e.ClientWrite?
  {
    match RequestOf(s, e)
    case Some(req) =>
      var (t, d) := Schedule(s.(tags := s.tags + 1), req, e.outs);
      Callback(t, e, d)
    case None =>
      if e.MapCpu? && MapHandOver(s)
      then (s.(pendingMap := false), Capability(Lookup(s.buffers, s.completed.id)))
      else (s, Capability(None))
  }

  /** State after a sequence of events. */
  function Run(s: State, es: seq<Event>): State
    decreases es
  {
    if es == [] then s else Run(Apply(s, es[0]).0, es[1..])
  }
}
