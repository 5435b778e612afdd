/** The globalfifo driver: readers, writers and FIFO_CLEAR, interleaved statement by statement. */
module GlobalFifo {
  import opened Basics

  const SIZE: nat := 0x1000

  type Task = nat

  datatype TaskState = RUNNING | INTERRUPTIBLE | KILLABLE

  /** The next statement of a task; the numbers are those of the calls' own steps. */
  datatype Pc =
    | Idle
    // globalfifo_read
    | RLock | RAddWait | RTest | RSetState | RUnlock | RSchedule | RSignal
    | RClip | RCopy | RShift | RShrink | RWake | ROut | ROut2
    // globalfifo_write
    | WLock | WAddWait | WTest | WSetState | WUnlock | WSchedule | WSignal
    | WClip | WCopy | WGrow | WWake | WOut | WOut2
    // globalfifo_ioctl(FIFO_CLEAR)
    | CLock | CZero | CMemset | CUnlock

  /** What a call will return, once that is decided. */
  datatype Ret = Unset | Moved(n: nat) | EAGAIN | ERESTARTSYS | EFAULT

  /** `queued` is set between add_wait_queue and remove_wait_queue; `buf` and `count` are the caller's. */
  datatype Thread = Thread(pc: Pc, state: TaskState, queued: bool, nonblock: bool, count: nat, buf: seq<Octet>,
                           signal: bool, fatal: bool, ret: Ret)

  datatype Removed = Delivered(b: Octet, to: Task) | Discarded(b: Octet)

  /**
   * The device and its tasks. `accepted` and `removed` record every byte taken from a writer and every
   * byte handed to a reader or cleared; `stale` is set by a clear until the next wake-up of writers.
   */
  datatype State = State(len: nat, mem: seq<Octet>, owner: Option<Task>, threads: map<Task, Thread>,
                         accepted: seq<Octet>, removed: seq<Removed>, stale: bool)

  datatype Call = Read(count: nat, nonblock: bool) | Write(data: seq<Octet>, nonblock: bool) | Clear

  /** One step: a call begins, a task executes its next statement, or a signal arrives. */
  datatype Act =
    | Begin(t: Task, call: Call)
    | Run(t: Task, fault: bool, junk: seq<Octet>)
    | Signal(t: Task, fatal: bool)

  predicate IsInit(s: State) {
    s.len == 0 && |s.mem| == SIZE && s.owner.None? && s.threads == map[] && s.accepted == [] && s.removed == [] && !s.stale
  }

  function With(s: State, t: Task, th: Thread): State {
    s.(threads := s.threads[t := th])
  }

  function Deliver(bytes: seq<Octet>, t: Task): (r: seq<Removed>)
    ensures |r| == |bytes| && forall i | 0 <= i < |bytes| :: r[i] == Delivered(bytes[i], t)
  {
    seq(|bytes|, i requires 0 <= i < |bytes| => Delivered(bytes[i], t))
  }

  function Discard(bytes: seq<Octet>): (r: seq<Removed>)
    ensures |r| == |bytes| && forall i | 0 <= i < |bytes| :: r[i] == Discarded(bytes[i])
  {
    seq(|bytes|, i requires 0 <= i < |bytes| => Discarded(bytes[i]))
  }

  function Bytes(log: seq<Removed>): (r: seq<Octet>)
    ensures |r| == |log| && forall i | 0 <= i < |log| :: r[i] == log[i].b
  {
    seq(|log|, i requires 0 <= i < |log| => log[i].b)
  }

  /** memcpy(mem, mem + n, len - n): the bytes behind the first n move to the front. */
  function Shifted(mem: seq<Octet>, len: nat, n: nat): (r: seq<Octet>)
    requires n <= len <= |mem|
    ensures |r| == |mem|
  {
    mem[n..len] + mem[len - n..]
  }

  /** wake_up_interruptible(&w_wait): queued writers that sleep interruptibly run again. */
  function WakeWriters(threads: map<Task, Thread>): (r: map<Task, Thread>)
    ensures r.Keys == threads.Keys
    ensures forall t | t in threads ::
              r[t] == if IsWriter(threads[t].pc) && threads[t].queued && threads[t].state.INTERRUPTIBLE?
                      then threads[t].(state := RUNNING) else threads[t]
  {
    map t | t in threads ::
      if IsWriter(threads[t].pc) && threads[t].queued && threads[t].state.INTERRUPTIBLE?
      then threads[t].(state := RUNNING) else threads[t]
  }

  /** wake_up_interruptible(&r_wait): the same for readers, which sleep killably and so are not woken. */
  function WakeReaders(threads: map<Task, Thread>): (r: map<Task, Thread>)
    ensures r.Keys == threads.Keys
    ensures forall t | t in threads ::
              r[t] == if IsReader(threads[t].pc) && threads[t].queued && threads[t].state.INTERRUPTIBLE?
                      then threads[t].(state := RUNNING) else threads[t]
  {
    map t | t in threads ::
      if IsReader(threads[t].pc) && threads[t].queued && threads[t].state.INTERRUPTIBLE?
      then threads[t].(state := RUNNING) else threads[t]
  }

  predicate IsReader(pc: Pc) {
    match pc
    case RLock | RAddWait | RTest | RSetState | RUnlock | RSchedule | RSignal
      | RClip | RCopy | RShift | RShrink | RWake | ROut | ROut2 => true
    case _ => false
  }

  predicate IsWriter(pc: Pc) {
    match pc
    case WLock | WAddWait | WTest | WSetState | WUnlock | WSchedule | WSignal
      | WClip | WCopy | WGrow | WWake | WOut | WOut2 => true
    case _ => false
  }

  /** The statements executed while holding the mutex. */
  predicate Holds(pc: Pc) {
    match pc
    case RAddWait | RTest | RSetState | RUnlock | RClip | RCopy | RShift | RShrink | RWake | ROut => true
    case WAddWait | WTest | WSetState | WUnlock | WClip | WCopy | WGrow | WWake | WOut => true
    case CZero | CMemset | CUnlock => true
    case _ => false
  }

  /** The next statement of a reader; None if the task cannot run now. */
  function DoRead(s: State, t: Task, fault: bool): Option<State>
    requires t in s.threads && IsReader(s.threads[t].pc)
    requires s.len <= |s.mem|
  {
    var th := s.threads[t];
    match th.pc
    case RLock =>
      // Taken on entry and again after a wake-up; in the latter case the task is queued already.
      if s.owner.Some? then None
      else Some(With(s, t, th.(pc := if th.queued then RTest else RAddWait)).(owner := Some(t)))
    case RAddWait => Some(With(s, t, th.(pc := RTest, queued := true)))
    case RTest =>
      if s.len != 0 then Some(With(s, t, th.(pc := RClip)))
      else if th.nonblock then Some(With(s, t, th.(pc := ROut, ret := EAGAIN)))
      else Some(With(s, t, th.(pc := RSetState)))
    case RSetState => Some(With(s, t, th.(pc := RUnlock, state := KILLABLE)))
    case RUnlock => Some(With(s, t, th.(pc := RSchedule)).(owner := None))
    case RSchedule =>
      // A killable task is not taken off the run queue while a fatal signal is pending.
      if th.state.RUNNING? || th.fatal then Some(With(s, t, th.(pc := RSignal, state := RUNNING))) else None
    case RSignal => Some(With(s, t, if th.fatal then th.(pc := ROut2, ret := ERESTARTSYS) else th.(pc := RLock)))
    case RClip => Some(With(s, t, th.(pc := RCopy, count := Min(th.count, s.len))))
    case RCopy =>
      if th.count > s.len then None
      else if fault then Some(With(s, t, th.(pc := ROut, ret := EFAULT)))
      else Some(With(s, t, th.(pc := RShift, buf := s.mem[..th.count])))
    case RShift =>
      if th.count > s.len then None
      else Some(With(s, t, th.(pc := RShrink)).(mem := Shifted(s.mem, s.len, th.count)))
    case RShrink =>
      if th.count > s.len then None
      else Some(With(s, t, th.(pc := RWake)).(len := s.len - th.count, removed := s.removed + Deliver(th.buf, t)))
    case RWake =>
      Some(With(s.(threads := WakeWriters(s.threads), stale := false), t, th.(pc := ROut, ret := Moved(th.count))))
    case ROut => Some(With(s, t, th.(pc := ROut2)).(owner := None))
    case ROut2 => Some(With(s, t, th.(pc := Idle, queued := false, state := RUNNING)))
  }

  /** The next statement of a writer. A failing copy may leave junk behind the stored bytes. */
  function DoWrite(s: State, t: Task, fault: bool, junk: seq<Octet>): Option<State>
    requires t in s.threads && IsWriter(s.threads[t].pc)
    requires s.len <= |s.mem|
  {
    var th := s.threads[t];
    match th.pc
    case WLock =>
      if s.owner.Some? then None
      else Some(With(s, t, th.(pc := if th.queued then WTest else WAddWait)).(owner := Some(t)))
    case WAddWait => Some(With(s, t, th.(pc := WTest, queued := true)))
    case WTest =>
      if s.len != SIZE then Some(With(s, t, th.(pc := WClip)))
      else if th.nonblock then Some(With(s, t, th.(pc := WOut, ret := EAGAIN)))
      else Some(With(s, t, th.(pc := WSetState)))
    case WSetState => Some(With(s, t, th.(pc := WUnlock, state := INTERRUPTIBLE)))
    case WUnlock => Some(With(s, t, th.(pc := WSchedule)).(owner := None))
    case WSchedule =>
      // Nor is an interruptible one while any signal is.
      if th.state.RUNNING? || th.signal then Some(With(s, t, th.(pc := WSignal, state := RUNNING))) else None
    case WSignal => Some(With(s, t, if th.signal then th.(pc := WOut2, ret := ERESTARTSYS) else th.(pc := WLock)))
    case WClip => Some(With(s, t, th.(pc := WCopy, count := Min(Min(th.count, |th.buf|), |s.mem| - s.len))))
    case WCopy =>
      if s.len + th.count > |s.mem| || th.count > |th.buf| then None
      else if fault then
        if |junk| != |s.mem| - s.len then None
        else Some(With(s, t, th.(pc := WOut, ret := EFAULT)).(mem := s.mem[..s.len] + junk))
      else Some(With(s, t, th.(pc := WGrow)).(mem := s.mem[..s.len] + th.buf[..th.count] + s.mem[s.len + th.count..]))
    case WGrow =>
      if th.count > |th.buf| then None
      else Some(With(s, t, th.(pc := WWake)).(len := s.len + th.count, accepted := s.accepted + th.buf[..th.count]))
    case WWake => Some(With(s.(threads := WakeReaders(s.threads)), t, th.(pc := WOut, ret := Moved(th.count))))
    case WOut => Some(With(s, t, th.(pc := WOut2)).(owner := None))
    case WOut2 => Some(With(s, t, th.(pc := Idle, queued := false, state := RUNNING)))
  }

  function DoClear(s: State, t: Task): Option<State>
    requires t in s.threads
    requires s.len <= |s.mem|
  {
    var th := s.threads[t];
    match th.pc
    case CLock => if s.owner.Some? then None else Some(With(s, t, th.(pc := CZero)).(owner := Some(t)))
    case CZero =>
      Some(With(s, t, th.(pc := CMemset)).(len := 0, removed := s.removed + Discard(s.mem[..s.len]), stale := true))
    case CMemset => Some(With(s, t, th.(pc := CUnlock)).(mem := seq(|s.mem|, _ => 0)))
    case CUnlock => Some(With(s, t, th.(pc := Idle)).(owner := None))
    case _ => None
  }

  function Start(call: Call): Thread {
    match call
    case Read(count, nonblock) => Thread(RLock, RUNNING, false, nonblock, count, [], false, false, Unset)
    case Write(data, nonblock) => Thread(WLock, RUNNING, false, nonblock, |data|, data, false, false, Unset)
    case Clear => Thread(CLock, RUNNING, false, false, 0, [], false, false, Unset)
  }

  /** A signal wakes an interruptible sleeper, a fatal one also a killable sleeper. */
  function Signalled(th: Thread, fatal: bool): Thread {
    th.(signal := true, fatal := th.fatal || fatal,
        state := if th.state.INTERRUPTIBLE? || (th.state.KILLABLE? && fatal) then RUNNING else th.state)
  }

  /** One step of the whole system; None if it is not possible in this state. */
  function Do(s: State, a: Act): Option<State>
    requires s.len <= |s.mem|
  {
    match a
    case Begin(t, call) =>
      if t in s.threads && !s.threads[t].pc.Idle? then None else Some(With(s, t, Start(call)))
    case Signal(t, fatal) =>
      if t !in s.threads then None else Some(With(s, t, Signalled(s.threads[t], fatal)))
    case Run(t, fault, junk) =>
      if t !in s.threads then None
      else if IsReader(s.threads[t].pc) then DoRead(s, t, fault)
      else if IsWriter(s.threads[t].pc) then DoWrite(s, t, fault, junk)
      else DoClear(s, t)
  }

  // ---------------------------------------------------------------- the invariant

  /** Which tasks sleep how, and which are queued. */
  predicate LocalOK(th: Thread) {
    && (th.state.KILLABLE? ==> th.pc.RUnlock? || th.pc.RSchedule?)
    && (th.state.INTERRUPTIBLE? ==> th.pc.WUnlock? || th.pc.WSchedule?)
    && (IsWriter(th.pc) && !th.pc.WLock? && !th.pc.WAddWait? ==> th.queued)
  }

  /** What the owner of the mutex knows about the buffer. */
  predicate DataOK(len: nat, mem: seq<Octet>, th: Thread) {
    match th.pc
    case RClip => len > 0
    case RCopy => th.count <= len
    case RShift => th.count <= len <= |mem| && th.buf == mem[..th.count]
    case RShrink => th.count <= len && |th.buf| == th.count
    case WSetState | WUnlock => len == SIZE && th.count == |th.buf|
    case WClip => len < SIZE && th.count == |th.buf|
    case WCopy => th.count <= |th.buf| && len + th.count <= SIZE
    case WGrow =>
      th.count <= |th.buf| && len + th.count <= SIZE == |mem| && mem[len..len + th.count] == th.buf[..th.count]
    case CMemset => len == 0
    case WLock | WAddWait | WTest => th.count == |th.buf|
    case WSchedule | WSignal => th.count == |th.buf|
    case _ => true
  }

  /** A reader has taken bytes out and is about to wake the writers. */
  predicate Waking(s: State) {
    s.owner.Some? && s.owner.value in s.threads && s.threads[s.owner.value].pc.RWake?
  }

  predicate SleepOK(s: State, th: Thread) {
    th.pc.WSchedule? && th.state.INTERRUPTIBLE? ==> s.len == SIZE || s.stale || Waking(s)
  }

  predicate ThreadOK(s: State, t: Task)
    requires t in s.threads
  {
    var th := s.threads[t];
    (Holds(th.pc) <==> s.owner == Some(t)) && LocalOK(th) && DataOK(s.len, s.mem, th) && SleepOK(s, th)
  }

  /** The bytes accepted and not yet removed, also while a reader is moving them. */
  function Stored(s: State): seq<Octet>
    requires s.len <= |s.mem|
  {
    if s.owner.Some? && s.owner.value in s.threads
       && s.threads[s.owner.value].pc.RShrink? && s.threads[s.owner.value].count <= s.len
    then s.threads[s.owner.value].buf + s.mem[..s.len - s.threads[s.owner.value].count]
    else s.mem[..s.len]
  }

  predicate Inv(s: State) {
    && |s.mem| == SIZE && s.len <= SIZE
    && (s.owner.Some? ==> s.owner.value in s.threads && Holds(s.threads[s.owner.value].pc))
    && (forall t | t in s.threads :: ThreadOK(s, t))
    && s.accepted == Bytes(s.removed) + Stored(s)
  }

  lemma InvInit(s: State)
    requires IsInit(s)
    ensures Inv(s)
  {}

  lemma InvBegin(s: State, t: Task, call: Call)
    requires Inv(s) && Do(s, Begin(t, call)).Some?
    ensures Inv(Do(s, Begin(t, call)).value)
  {
    var s' := Do(s, Begin(t, call)).value;
    assert t in s.threads ==> ThreadOK(s, t);
    assert Stored(s') == Stored(s) && Waking(s') == Waking(s);
    StartOK(s', t, call);
    hide DataOK, Holds, IsWriter, Waking, Stored;
    forall u | u in s'.threads ensures ThreadOK(s', u) {
      assert u != t ==> ThreadOK(s, u);
    }
  }

  lemma StartOK(s: State, t: Task, call: Call)
    requires t in s.threads && s.threads[t] == Start(call) && s.owner != Some(t)
    ensures ThreadOK(s, t)
  {}

  /** What a task knows about the buffer does not depend on signals and sleeping. */
  lemma DataSame(len: nat, mem: seq<Octet>, th: Thread, th': Thread)
    requires th'.pc == th.pc && th'.count == th.count && th'.buf == th.buf
    ensures DataOK(len, mem, th') == DataOK(len, mem, th)
  {}

  lemma InvSignal(s: State, t: Task, fatal: bool)
    requires Inv(s) && Do(s, Signal(t, fatal)).Some?
    ensures Inv(Do(s, Signal(t, fatal)).value)
  {
    var s' := Do(s, Signal(t, fatal)).value;
    assert Stored(s') == Stored(s) && Waking(s') == Waking(s);
    hide DataOK, Holds, IsWriter, Waking, Stored;
    forall u | u in s'.threads ensures ThreadOK(s', u) {
      assert ThreadOK(s, u);
      DataSame(s.len, s.mem, s.threads[u], s'.threads[u]);
    }
  }

  /** A step that changes only the running task and, if it gets or gives up the mutex, the owner. */
  lemma InvOwnStep(s: State, t: Task, th: Thread, owner: Option<Task>)
    requires Inv(s) && t in s.threads
    requires Holds(th.pc) <==> owner == Some(t)
    requires owner == s.owner || (s.owner.None? && owner == Some(t)) || (s.owner == Some(t) && owner.None?)
    requires LocalOK(th) && DataOK(s.len, s.mem, th)
    requires th.pc.WSchedule? && th.state.INTERRUPTIBLE? ==> s.len == SIZE
    requires !s.threads[t].pc.RShrink? && !th.pc.RShrink? && !s.threads[t].pc.RWake?
    ensures Inv(With(s, t, th).(owner := owner))
  {
    var s' := With(s, t, th).(owner := owner);
    assert ThreadOK(s, t);
    forall u | u in s'.threads ensures ThreadOK(s', u) {
      assert ThreadOK(s, u);
    }
    assert Stored(s') == Stored(s);
  }

  /** A task outside the mutex knows nothing about the buffer. */
  lemma DataFrame(len: nat, mem: seq<Octet>, len': nat, mem': seq<Octet>, th: Thread)
    requires !Holds(th.pc)
    ensures DataOK(len, mem, th) == DataOK(len', mem', th)
  {}

  /** The owner changes the buffer; a sleeping writer still sees it full, or a wake-up is due. */
  lemma InvOwnerStep(s: State, t: Task, s': State)
    requires Inv(s) && t in s.threads && s.owner == Some(t) && s'.owner == s.owner
    requires t in s'.threads && s'.threads.Keys == s.threads.Keys
    requires forall u | u in s.threads && u != t :: s'.threads[u] == s.threads[u]
    requires |s'.mem| == SIZE && s'.len <= SIZE
    requires Holds(s'.threads[t].pc) && LocalOK(s'.threads[t]) && DataOK(s'.len, s'.mem, s'.threads[t])
    requires s'.len == SIZE || s'.stale || Waking(s')
             || (s'.len >= s.len && s'.stale == s.stale && Waking(s') == Waking(s))
    requires s'.accepted == Bytes(s'.removed) + Stored(s')
    ensures Inv(s')
  {
    forall u | u in s'.threads ensures ThreadOK(s', u) {
      assert ThreadOK(s, u);
      if u != t {
        DataFrame(s.len, s.mem, s'.len, s'.mem, s.threads[u]);
      }
    }
  }

  lemma BytesOfConcat(a: seq<Removed>, b: seq<Removed>)
    ensures Bytes(a + b) == Bytes(a) + Bytes(b)
  {}

  lemma BytesOfLogs(bytes: seq<Octet>, t: Task)
    ensures Bytes(Deliver(bytes, t)) == bytes && Bytes(Discard(bytes)) == bytes
  {}

  lemma InvShift(s: State, t: Task, fault: bool)
    requires Inv(s) && t in s.threads && s.threads[t].pc.RShift?
    ensures DoRead(s, t, fault).Some? && Inv(DoRead(s, t, fault).value)
  {
    var th := s.threads[t];
    assert ThreadOK(s, t);
    var s' := DoRead(s, t, fault).value;
    assert Stored(s') == Stored(s) by {
      assert s'.mem[..s.len - th.count] == s.mem[th.count..s.len];
      assert s.mem[..s.len] == s.mem[..th.count] + s.mem[th.count..s.len];
    }
    hide Stored;
    InvOwnerStep(s, t, s');
  }

  lemma InvShrink(s: State, t: Task, fault: bool)
    requires Inv(s) && t in s.threads && s.threads[t].pc.RShrink?
    ensures DoRead(s, t, fault).Some? && Inv(DoRead(s, t, fault).value)
  {
    var th := s.threads[t];
    assert ThreadOK(s, t);
    var s' := DoRead(s, t, fault).value;
    assert s'.accepted == Bytes(s'.removed) + Stored(s') by {
      BytesOfConcat(s.removed, Deliver(th.buf, t));
      BytesOfLogs(th.buf, t);
      Regroup(Bytes(s.removed), th.buf, s.mem[..s'.len]);
    }
    hide Stored;
    InvOwnerStep(s, t, s');
  }

  lemma InvWake(s: State, t: Task, fault: bool)
    requires Inv(s) && t in s.threads && s.threads[t].pc.RWake?
    ensures DoRead(s, t, fault).Some? && Inv(DoRead(s, t, fault).value)
  {
    assert ThreadOK(s, t);
    var s' := With(s.(threads := WakeWriters(s.threads), stale := false), t, s.threads[t].(pc := ROut, ret := Moved(s.threads[t].count)));
    assert DoRead(s, t, fault) == Some(s');
    assert Stored(s') == Stored(s);
    hide DoRead, Stored;
    forall u | u in s'.threads ensures ThreadOK(s', u) {
      assert ThreadOK(s, u);
      if u != t {
        WokenOK(s, s', u);
      }
    }
  }

  /** After the wake-up no writer is asleep. */
  lemma WokenOK(s: State, s': State, u: Task)
    requires u in s.threads && u in s'.threads && ThreadOK(s, u)
    requires s'.threads[u] == WakeWriters(s.threads)[u] && s'.owner == s.owner && s'.len == s.len && s'.mem == s.mem
    ensures ThreadOK(s', u)
  {
    hide DataOK;
    DataSame(s.len, s.mem, s.threads[u], s'.threads[u]);
  }

  predicate Locks(pc: Pc) { pc.RLock? || pc.WLock? }

  /** Queueing and testing. */
  predicate Enters(pc: Pc) { pc.RAddWait? || pc.RTest? || pc.WAddWait? || pc.WTest? }

  /** Going to sleep. */
  predicate Sleeps(pc: Pc) { pc.RSetState? || pc.RUnlock? || pc.WSetState? || pc.WUnlock? }

  /** Waking up. */
  predicate Wakes(pc: Pc) { pc.RSchedule? || pc.RSignal? || pc.WSchedule? || pc.WSignal? }

  lemma InvReadLocks(s: State, t: Task, fault: bool)
    requires Inv(s) && t in s.threads && Locks(s.threads[t].pc) && IsReader(s.threads[t].pc)
    requires DoRead(s, t, fault).Some?
    ensures Inv(DoRead(s, t, fault).value)
  {
    hide Inv;
    InvThread(s, t);
    var s' := DoRead(s, t, fault).value;
    InvOwnStep(s, t, s'.threads[t], s'.owner);
  }

  lemma InvReadEnters(s: State, t: Task, fault: bool)
    requires Inv(s) && t in s.threads && Enters(s.threads[t].pc) && IsReader(s.threads[t].pc)
    requires DoRead(s, t, fault).Some?
    ensures Inv(DoRead(s, t, fault).value)
  {
    hide Inv;
    InvThread(s, t);
    var s' := DoRead(s, t, fault).value;
    InvOwnStep(s, t, s'.threads[t], s'.owner);
  }

  lemma InvReadSleeps(s: State, t: Task, fault: bool)
    requires Inv(s) && t in s.threads && Sleeps(s.threads[t].pc) && IsReader(s.threads[t].pc)
    requires DoRead(s, t, fault).Some?
    ensures Inv(DoRead(s, t, fault).value)
  {
    hide Inv;
    InvThread(s, t);
    var s' := DoRead(s, t, fault).value;
    InvOwnStep(s, t, s'.threads[t], s'.owner);
  }

  lemma InvReadWakes(s: State, t: Task, fault: bool)
    requires Inv(s) && t in s.threads && Wakes(s.threads[t].pc) && IsReader(s.threads[t].pc)
    requires DoRead(s, t, fault).Some?
    ensures Inv(DoRead(s, t, fault).value)
  {
    hide Inv;
    InvThread(s, t);
    var s' := DoRead(s, t, fault).value;
    InvOwnStep(s, t, s'.threads[t], s'.owner);
  }

  lemma InvReadRest(s: State, t: Task, fault: bool)
    requires Inv(s) && t in s.threads
    requires var pc := s.threads[t].pc; pc.RClip? || pc.RCopy? || pc.ROut? || pc.ROut2?
    requires DoRead(s, t, fault).Some?
    ensures Inv(DoRead(s, t, fault).value)
  {
    hide Inv;
    InvThread(s, t);
    var s' := DoRead(s, t, fault).value;
    InvOwnStep(s, t, s'.threads[t], s'.owner);
  }

  lemma InvRead(s: State, t: Task, fault: bool)
    requires Inv(s) && t in s.threads && IsReader(s.threads[t].pc) && DoRead(s, t, fault).Some?
    ensures Inv(DoRead(s, t, fault).value)
  {
    InvThread(s, t);
    hide Inv, DoRead, ThreadOK;
    var pc := s.threads[t].pc;
    if Locks(pc) {
      InvReadLocks(s, t, fault);
    } else if Enters(pc) {
      InvReadEnters(s, t, fault);
    } else if Sleeps(pc) {
      InvReadSleeps(s, t, fault);
    } else if Wakes(pc) {
      InvReadWakes(s, t, fault);
    } else if pc.RShift? {
      InvShift(s, t, fault);
    } else if pc.RShrink? {
      InvShrink(s, t, fault);
    } else if pc.RWake? {
      InvWake(s, t, fault);
    } else {
      InvReadRest(s, t, fault);
    }
  }

  lemma InvThread(s: State, t: Task)
    requires Inv(s) && t in s.threads
    ensures s.len <= SIZE == |s.mem| && ThreadOK(s, t)
  {}

  lemma InvCopyIn(s: State, t: Task, fault: bool, junk: seq<Octet>)
    requires Inv(s) && t in s.threads && s.threads[t].pc.WCopy? && DoWrite(s, t, fault, junk).Some?
    ensures Inv(DoWrite(s, t, fault, junk).value)
  {
    var th := s.threads[t];
    assert ThreadOK(s, t);
    var s' := DoWrite(s, t, fault, junk).value;
    assert s'.mem[..s.len] == s.mem[..s.len];
    assert !fault ==> s'.mem[s.len..s.len + th.count] == th.buf[..th.count];
    assert Stored(s') == Stored(s);
    hide Stored;
    InvOwnerStep(s, t, s');
  }

  lemma InvGrow(s: State, t: Task, fault: bool, junk: seq<Octet>)
    requires Inv(s) && t in s.threads && s.threads[t].pc.WGrow?
    ensures DoWrite(s, t, fault, junk).Some? && Inv(DoWrite(s, t, fault, junk).value)
  {
    var th := s.threads[t];
    assert ThreadOK(s, t);
    var s' := DoWrite(s, t, fault, junk).value;
    assert s'.accepted == Bytes(s'.removed) + Stored(s') by {
      assert s.mem[..s'.len] == s.mem[..s.len] + th.buf[..th.count];
      Regroup(Bytes(s.removed), s.mem[..s.len], th.buf[..th.count]);
    }
    hide Stored;
    InvOwnerStep(s, t, s');
  }

  /** Readers never sleep interruptibly: waking the interruptible ones of them wakes nobody. */
  lemma WakeReadersWakesNobody(s: State)
    requires Inv(s)
    ensures WakeReaders(s.threads) == s.threads
  {
    hide DataOK, Waking, Stored, Holds;
    forall u | u in s.threads ensures WakeReaders(s.threads)[u] == s.threads[u] {
      assert ThreadOK(s, u);
    }
  }

  lemma InvWakeReaders(s: State, t: Task, fault: bool, junk: seq<Octet>)
    requires Inv(s) && t in s.threads && s.threads[t].pc.WWake?
    ensures DoWrite(s, t, fault, junk).Some? && Inv(DoWrite(s, t, fault, junk).value)
  {
    hide Inv;
    InvThread(s, t);
    WakeReadersWakesNobody(s);
    InvOwnStep(s, t, s.threads[t].(pc := WOut, ret := Moved(s.threads[t].count)), s.owner);
  }

  lemma InvWriteLocks(s: State, t: Task, fault: bool, junk: seq<Octet>)
    requires Inv(s) && t in s.threads && Locks(s.threads[t].pc) && IsWriter(s.threads[t].pc)
    requires DoWrite(s, t, fault, junk).Some?
    ensures Inv(DoWrite(s, t, fault, junk).value)
  {
    hide Inv;
    InvThread(s, t);
    var s' := DoWrite(s, t, fault, junk).value;
    InvOwnStep(s, t, s'.threads[t], s'.owner);
  }

  lemma InvWriteEnters(s: State, t: Task, fault: bool, junk: seq<Octet>)
    requires Inv(s) && t in s.threads && Enters(s.threads[t].pc) && IsWriter(s.threads[t].pc)
    requires DoWrite(s, t, fault, junk).Some?
    ensures Inv(DoWrite(s, t, fault, junk).value)
  {
    hide Inv;
    InvThread(s, t);
    var s' := DoWrite(s, t, fault, junk).value;
    InvOwnStep(s, t, s'.threads[t], s'.owner);
  }

  lemma InvWriteSleeps(s: State, t: Task, fault: bool, junk: seq<Octet>)
    requires Inv(s) && t in s.threads && Sleeps(s.threads[t].pc) && IsWriter(s.threads[t].pc)
    requires DoWrite(s, t, fault, junk).Some?
    ensures Inv(DoWrite(s, t, fault, junk).value)
  {
    hide Inv;
    InvThread(s, t);
    var s' := DoWrite(s, t, fault, junk).value;
    InvOwnStep(s, t, s'.threads[t], s'.owner);
  }

  lemma InvWriteWakes(s: State, t: Task, fault: bool, junk: seq<Octet>)
    requires Inv(s) && t in s.threads && Wakes(s.threads[t].pc) && IsWriter(s.threads[t].pc)
    requires DoWrite(s, t, fault, junk).Some?
    ensures Inv(DoWrite(s, t, fault, junk).value)
  {
    hide Inv;
    InvThread(s, t);
    var s' := DoWrite(s, t, fault, junk).value;
    InvOwnStep(s, t, s'.threads[t], s'.owner);
  }

  lemma InvWriteRest(s: State, t: Task, fault: bool, junk: seq<Octet>)
    requires Inv(s) && t in s.threads
    requires var pc := s.threads[t].pc; pc.WClip? || pc.WOut? || pc.WOut2?
    requires DoWrite(s, t, fault, junk).Some?
    ensures Inv(DoWrite(s, t, fault, junk).value)
  {
    hide Inv;
    InvThread(s, t);
    var s' := DoWrite(s, t, fault, junk).value;
    InvOwnStep(s, t, s'.threads[t], s'.owner);
  }

  lemma InvWrite(s: State, t: Task, fault: bool, junk: seq<Octet>)
    requires Inv(s) && t in s.threads && IsWriter(s.threads[t].pc) && DoWrite(s, t, fault, junk).Some?
    ensures Inv(DoWrite(s, t, fault, junk).value)
  {
    InvThread(s, t);
    hide Inv, DoWrite, ThreadOK;
    var pc := s.threads[t].pc;
    if Locks(pc) {
      InvWriteLocks(s, t, fault, junk);
    } else if Enters(pc) {
      InvWriteEnters(s, t, fault, junk);
    } else if Sleeps(pc) {
      InvWriteSleeps(s, t, fault, junk);
    } else if Wakes(pc) {
      InvWriteWakes(s, t, fault, junk);
    } else if pc.WCopy? {
      InvCopyIn(s, t, fault, junk);
    } else if pc.WGrow? {
      InvGrow(s, t, fault, junk);
    } else if pc.WWake? {
      InvWakeReaders(s, t, fault, junk);
    } else {
      InvWriteRest(s, t, fault, junk);
    }
  }

  lemma InvZero(s: State, t: Task)
    requires Inv(s) && t in s.threads && s.threads[t].pc.CZero?
    ensures Inv(DoClear(s, t).value)
  {
    assert ThreadOK(s, t);
    var s' := DoClear(s, t).value;
    assert s'.accepted == Bytes(s'.removed) + Stored(s') by {
      BytesOfConcat(s.removed, Discard(s.mem[..s.len]));
      BytesOfLogs(s.mem[..s.len], t);
      assert Stored(s') == [];
    }
    hide Stored;
    InvOwnerStep(s, t, s');
  }

  lemma InvMemset(s: State, t: Task)
    requires Inv(s) && t in s.threads && s.threads[t].pc.CMemset? && s.len == 0
    ensures Inv(DoClear(s, t).value)
  {
    assert ThreadOK(s, t);
    var s' := DoClear(s, t).value;
    assert Stored(s') == Stored(s);
    hide Stored;
    InvOwnerStep(s, t, s');
  }

  lemma InvClear(s: State, t: Task)
    requires Inv(s) && t in s.threads && !IsReader(s.threads[t].pc) && !IsWriter(s.threads[t].pc)
    requires DoClear(s, t).Some?
    ensures Inv(DoClear(s, t).value)
  {
    hide Inv;
    InvThread(s, t);
    var th := s.threads[t];
    if th.pc.CZero? {
      InvZero(s, t);
    } else if th.pc.CMemset? {
      InvMemset(s, t);
    } else {
      var s' := DoClear(s, t).value;
      assert s' == With(s, t, s'.threads[t]).(owner := s'.owner);
      InvOwnStep(s, t, s'.threads[t], s'.owner);
    }
  }

  // ---------------------------------------------------------------- every interleaving

  /** Executing a schedule; None if some step of it is not possible. */
  function Execute(s: State, acts: seq<Act>): Option<State>
    decreases |acts|
  {
    if acts == [] then Some(s)
    else if s.len > |s.mem| then None
    else
      var next := Do(s, acts[0]);
      if next.None? then None else Execute(next.value, acts[1..])
  }

  lemma InvStep(s: State, a: Act)
    requires Inv(s) && s.len <= |s.mem| && Do(s, a).Some?
    ensures Inv(Do(s, a).value)
  {
    hide Inv;
    match a
    case Begin(t, call) => InvBegin(s, t, call);
    case Signal(t, fatal) => InvSignal(s, t, fatal);
    case Run(t, fault, junk) =>
      if IsReader(s.threads[t].pc) {
        InvRead(s, t, fault);
      } else if IsWriter(s.threads[t].pc) {
        InvWrite(s, t, fault, junk);
      } else {
        InvClear(s, t);
      }
  }

  lemma {:induction false} InvAlways(s: State, acts: seq<Act>)
    requires Inv(s) && Execute(s, acts).Some?
    ensures Inv(Execute(s, acts).value)
    decreases |acts|
  {
    hide Inv, Do;
    if acts != [] {
      InvStep(s, acts[0]);
      InvAlways(Do(s, acts[0]).value, acts[1..]);
    }
  }

  /**
   * In every interleaving of reads, writes and clears the length stays within the buffer, and the
   * bytes accepted are those removed, by delivery or by a clear, followed by those stored, in order.
   */
  lemma BytesAreConserved(init: State, acts: seq<Act>)
    requires IsInit(init) && Execute(init, acts).Some?
    ensures var s := Execute(init, acts).value;
            && s.len <= SIZE == |s.mem|
            && s.accepted == Bytes(s.removed) + Stored(s)
            && (s.owner.None? ==> Stored(s) == s.mem[..s.len])
  {
    InvInit(init);
    InvAlways(init, acts);
  }

  /** Mutual exclusion: only the owner is between mutex_lock and mutex_unlock. */
  lemma MutualExclusion(init: State, acts: seq<Act>, t: Task, u: Task)
    requires IsInit(init) && Execute(init, acts).Some?
    requires var s := Execute(init, acts).value;
             t in s.threads && u in s.threads && Holds(s.threads[t].pc) && Holds(s.threads[u].pc)
    ensures t == u
  {
    InvInit(init);
    InvAlways(init, acts);
    var s := Execute(init, acts).value;
    hide Holds, DataOK;
    assert ThreadOK(s, t) && ThreadOK(s, u);
  }

  /** The task is inside schedule() and off the run queue. */
  predicate Asleep(s: State, t: Task) {
    && t in s.threads && !s.threads[t].state.RUNNING?
    && var th := s.threads[t]; (th.pc.RSchedule? && !th.fatal) || (th.pc.WSchedule? && !th.signal)
  }

  predicate NoClear(acts: seq<Act>) {
    forall i | 0 <= i < |acts| :: !(acts[i].Begin? && acts[i].call.Clear?)
  }

  predicate NothingCleared(s: State) {
    !s.stale && forall t | t in s.threads :: s.threads[t].pc.Idle? || IsReader(s.threads[t].pc) || IsWriter(s.threads[t].pc)
  }

  /** A statement of a read or write changes only that task's place and never marks the buffer as cleared. */
  predicate KeepsKinds(s: State, t: Task, s': State) {
    && s'.threads.Keys == s.threads.Keys && t in s'.threads
    && (s'.threads[t].pc.Idle? || IsReader(s'.threads[t].pc) || IsWriter(s'.threads[t].pc))
    && (forall u | u in s.threads && u != t :: s'.threads[u].pc == s.threads[u].pc)
    && (s'.stale ==> s.stale)
  }

  lemma PlaceKeepsKinds(s: State, t: Task, th: Thread, s': State)
    requires t in s.threads && s'.threads == s.threads[t := th] && (s'.stale ==> s.stale)
    requires th.pc.Idle? || IsReader(th.pc) || IsWriter(th.pc)
    ensures KeepsKinds(s, t, s')
  {
    hide IsReader, IsWriter;
  }

  lemma ReadWakeKeepsKinds(s: State, t: Task, s': State)
    requires s.len <= |s.mem| && t in s.threads && s.threads[t].pc.RWake? && DoRead(s, t, false) == Some(s')
    ensures KeepsKinds(s, t, s')
  {}

  lemma WriteWakeKeepsKinds(s: State, t: Task, s': State)
    requires s.len <= |s.mem| && t in s.threads && s.threads[t].pc.WWake? && DoWrite(s, t, false, []) == Some(s')
    ensures KeepsKinds(s, t, s')
  {}

  lemma ReadKeepsKinds(s: State, t: Task, fault: bool)
    requires s.len <= |s.mem| && t in s.threads && IsReader(s.threads[t].pc) && DoRead(s, t, fault).Some?
    ensures KeepsKinds(s, t, DoRead(s, t, fault).value)
  {
    hide KeepsKinds;
    var s' := DoRead(s, t, fault).value;
    if s.threads[t].pc.RWake? {
      ReadWakeKeepsKinds(s, t, s');
    } else {
      PlaceKeepsKinds(s, t, s'.threads[t], s');
    }
  }

  lemma WriteKeepsKinds(s: State, t: Task, fault: bool, junk: seq<Octet>)
    requires s.len <= |s.mem| && t in s.threads && IsWriter(s.threads[t].pc) && DoWrite(s, t, fault, junk).Some?
    ensures KeepsKinds(s, t, DoWrite(s, t, fault, junk).value)
  {
    hide KeepsKinds;
    var s' := DoWrite(s, t, fault, junk).value;
    if s.threads[t].pc.WWake? {
      WriteWakeKeepsKinds(s, t, s');
    } else {
      PlaceKeepsKinds(s, t, s'.threads[t], s');
    }
  }

  lemma NothingClearedStep(s: State, a: Act)
    requires NothingCleared(s) && s.len <= |s.mem| && Do(s, a).Some? && !(a.Begin? && a.call.Clear?)
    ensures NothingCleared(Do(s, a).value)
  {
    hide DoRead, DoWrite, IsReader, IsWriter;
    match a
    case Begin(t, call) =>
      assert IsReader(RLock) && IsWriter(WLock) by { Kinds(); }
    case Signal(t, fatal) =>
    case Run(t, fault, junk) =>
      if IsReader(s.threads[t].pc) {
        ReadKeepsKinds(s, t, fault);
      } else if IsWriter(s.threads[t].pc) {
        WriteKeepsKinds(s, t, fault, junk);
      }
  }

  lemma Kinds()
    ensures IsReader(RLock) && IsWriter(WLock)
  {}

  lemma {:induction false} NothingClearedAlways(s: State, acts: seq<Act>)
    requires NothingCleared(s) && NoClear(acts) && Execute(s, acts).Some?
    ensures NothingCleared(Execute(s, acts).value)
    decreases |acts|
  {
    hide Do, NothingCleared;
    if acts != [] {
      NothingClearedStep(s, acts[0]);
      NothingClearedAlways(Do(s, acts[0]).value, acts[1..]);
    }
  }

  /**
   * No writer's wake-up is lost: whenever the mutex is free, a writer asleep means a full buffer.
   * With FIFO_CLEAR, which wakes nobody, the buffer may instead have been cleared since writers were
   * last woken.
   */
  lemma NoLostWriterWakeup(init: State, acts: seq<Act>, t: Task)
    requires IsInit(init) && Execute(init, acts).Some?
    requires var s := Execute(init, acts).value;
             s.owner.None? && Asleep(s, t) && IsWriter(s.threads[t].pc)
    ensures var s := Execute(init, acts).value;
            && s.threads[t].queued
            && (s.len == SIZE || s.stale)
            && (NoClear(acts) ==> s.len == SIZE)
  {
    InvInit(init);
    InvAlways(init, acts);
    var s := Execute(init, acts).value;
    assert ThreadOK(s, t);
    if NoClear(acts) {
      NothingClearedAlways(init, acts);
    }
  }

  predicate ReaderAsleep(s: State, t: Task) {
    t in s.threads && s.threads[t].pc.RSchedule? && s.threads[t].state.KILLABLE? && !s.threads[t].fatal
  }

  /** A sleeping reader stays asleep whatever happens, except for a fatal signal to itself. */
  lemma OnlyFatalSignalWakesReader(s: State, a: Act, t: Task)
    requires s.len <= |s.mem| && Do(s, a).Some?
    requires ReaderAsleep(s, t)
    ensures ReaderAsleep(Do(s, a).value, t) <==> a != Signal(t, true)
  {
    match a
    case Begin(u, call) =>
    case Signal(u, fatal) =>
    case Run(u, fault, junk) =>
      hide DoRead, DoWrite, DoClear, IsReader, IsWriter;
      if IsReader(s.threads[u].pc) {
        ReaderKeepsSleeper(s, u, fault, t);
      } else if IsWriter(s.threads[u].pc) {
        WriterKeepsSleeper(s, u, fault, junk, t);
      } else {
        ClearKeepsSleeper(s, u, t);
      }
  }

  /** So, without a fatal signal to itself, it sleeps through every run, however many bytes are written. */
  lemma {:induction false} ReaderSleepsOn(s: State, acts: seq<Act>, t: Task)
    requires Inv(s) && Execute(s, acts).Some? && ReaderAsleep(s, t) && Signal(t, true) !in acts
    ensures ReaderAsleep(Execute(s, acts).value, t)
    decreases |acts|
  {
    hide Inv, Do, ReaderAsleep;
    if acts != [] {
      InvStep(s, acts[0]);
      assert acts[0] in acts;
      OnlyFatalSignalWakesReader(s, acts[0], t);
      ReaderSleepsOn(Do(s, acts[0]).value, acts[1..], t);
    }
  }

  lemma ReaderKeepsSleeper(s: State, u: Task, fault: bool, t: Task)
    requires s.len <= |s.mem| && u in s.threads && IsReader(s.threads[u].pc) && DoRead(s, u, fault).Some?
    requires ReaderAsleep(s, t)
    ensures ReaderAsleep(DoRead(s, u, fault).value, t)
  {}

  lemma WriterKeepsSleeper(s: State, u: Task, fault: bool, junk: seq<Octet>, t: Task)
    requires s.len <= |s.mem| && u in s.threads && IsWriter(s.threads[u].pc) && DoWrite(s, u, fault, junk).Some?
    requires ReaderAsleep(s, t)
    ensures ReaderAsleep(DoWrite(s, u, fault, junk).value, t)
  {}

  lemma ClearKeepsSleeper(s: State, u: Task, t: Task)
    requires s.len <= |s.mem| && u in s.threads && DoClear(s, u).Some?
    requires ReaderAsleep(s, t)
    ensures ReaderAsleep(DoClear(s, u).value, t)
  {}

  /** A task that is neither waiting for the mutex nor asleep can always execute its next statement. */
  lemma NeverStuck(s: State, t: Task)
    requires Inv(s) && t in s.threads && !s.threads[t].pc.Idle?
    requires !Asleep(s, t)
    requires var pc := s.threads[t].pc; (pc.RLock? || pc.WLock? || pc.CLock?) ==> s.owner.None?
    ensures s.len <= |s.mem| && Do(s, Run(t, false, [])).Some?
  {
    assert ThreadOK(s, t);
  }

  // ---------------------------------------------------------------- what is lost

  ghost predicate Reaches(s: State, s': State) {
    exists acts :: Execute(s, acts) == Some(s')
  }

  lemma ReachStep(s: State, a: Act, s': State, s'': State)
    requires s.len <= |s.mem| && Do(s, a) == Some(s') && Reaches(s', s'')
    ensures Reaches(s, s'')
  {
    var acts :| Execute(s', acts) == Some(s'');
    assert ([a] + acts)[1..] == acts;
    assert Execute(s, [a] + acts) == Some(s'');
  }

  lemma {:induction false} ExecuteConcat(s: State, a: seq<Act>, b: seq<Act>)
    requires Execute(s, a).Some?
    ensures Execute(s, a + b) == Execute(Execute(s, a).value, b)
    decreases |a|
  {
    hide Do;
    if a == [] {
      assert a + b == b;
    } else {
      assert (a + b)[1..] == a[1..] + b;
      ExecuteConcat(Do(s, a[0]).value, a[1..], b);
    }
  }

  lemma ReachTrans(s: State, s': State, s'': State)
    requires Reaches(s, s') && Reaches(s', s'')
    ensures Reaches(s, s'')
  {
    var a :| Execute(s, a) == Some(s');
    var b :| Execute(s', b) == Some(s'');
    ExecuteConcat(s, a, b);
  }

  lemma ReachSelf(s: State)
    ensures Reaches(s, s)
  {
    assert Execute(s, []) == Some(s);
  }

  lemma SetTwice(m: map<Task, Thread>, t: Task, a: Thread, b: Thread)
    ensures m[t := a][t := b] == m[t := b]
  {}

  /** A statement that changes only the task itself and the owner, in a state where the task alone differs from s. */
  lemma SoloStep(s: State, t: Task, th: Thread, owner: Option<Task>, th': Thread, owner': Option<Task>, goal: State)
    requires s.len <= |s.mem|
    requires Do(With(s, t, th).(owner := owner), Run(t, false, []))
          == Some(With(With(s, t, th).(owner := owner), t, th').(owner := owner'))
    requires Reaches(With(s, t, th').(owner := owner'), goal)
    ensures Reaches(With(s, t, th).(owner := owner), goal)
  {
    hide Do, Reaches;
    SetTwice(s.threads, t, th, th');
    ReachStep(With(s, t, th).(owner := owner), Run(t, false, []), With(s, t, th').(owner := owner'), goal);
  }

  function AsleepReader(count: nat): Thread {
    Thread(RSchedule, KILLABLE, true, false, count, [], false, false, Unset)
  }

  /** A blocking read of an empty buffer goes to sleep. */
  lemma ReaderFallsAsleep(s: State, t: Task, count: nat)
    requires s.owner.None? && s.len == 0 <= |s.mem| && t !in s.threads
    ensures Reaches(s, With(s, t, AsleepReader(count)))
  {
    hide Reaches;
    var th := Start(Read(count, false));
    var goal := With(s, t, AsleepReader(count));
    var me := Some(t);
    ReachSelf(goal);
    assert goal.(owner := None) == goal;
    SoloStep(s, t, th.(pc := RUnlock, queued := true, state := KILLABLE), me, AsleepReader(count), None, goal);
    SoloStep(s, t, th.(pc := RSetState, queued := true), me, th.(pc := RUnlock, queued := true, state := KILLABLE), me, goal);
    SoloStep(s, t, th.(pc := RTest, queued := true), me, th.(pc := RSetState, queued := true), me, goal);
    SoloStep(s, t, th.(pc := RAddWait), me, th.(pc := RTest, queued := true), me, goal);
    SoloStep(s, t, th, None, th.(pc := RAddWait), me, goal);
    assert With(s, t, th).(owner := None) == With(s, t, th);
    ReachStep(s, Begin(t, Read(count, false)), With(s, t, th), goal);
  }

  /** One statement of writer u while reader t sleeps. */
  lemma WriterRuns(s: State, t: Task, u: Task) returns (s': State)
    requires t != u && t in s.threads && u in s.threads && s.threads[t] == AsleepReader(1)
    requires s.len <= |s.mem| == SIZE && IsWriter(s.threads[u].pc) && Do(s, Run(u, false, [])).Some?
    ensures Do(s, Run(u, false, [])) == Some(s') == DoWrite(s, u, false, [])
    ensures t in s'.threads && u in s'.threads && s'.threads[t] == AsleepReader(1)
  {
    s' := DoWrite(s, u, false, []).value;
  }

  /** A writer that holds the mutex and has room for its byte stores it and leaves. */
  lemma WriterStores(s: State, t: Task, u: Task, b: Octet) returns (s': State)
    requires t != u && t in s.threads && u in s.threads && s.threads[t] == AsleepReader(1)
    requires s.len == 0 && |s.mem| == SIZE && s.owner == Some(u)
    requires s.threads[u] == Thread(WClip, RUNNING, true, false, 1, [b], false, false, Unset)
    ensures Reaches(s, s') && s'.owner.None? && s'.len == 1 && Asleep(s', t)
  {
    hide Reaches;
    var s1 := WriterRuns(s, t, u);
    var s2 := WriterRuns(s1, t, u);
    var s3 := WriterRuns(s2, t, u);
    s' := WriterLeaves(s3, t, u);
    var go := Run(u, false, []);
    ReachStep(s2, go, s3, s');
    ReachStep(s1, go, s2, s');
    ReachStep(s, go, s1, s');
  }

  lemma WriterLeaves(s: State, t: Task, u: Task) returns (s': State)
    requires t != u && t in s.threads && u in s.threads && s.threads[t] == AsleepReader(1)
    requires s.len == 1 && |s.mem| == SIZE && s.owner == Some(u) && s.threads[u].pc.WWake?
    ensures Reaches(s, s') && s'.owner.None? && s'.len == 1 && Asleep(s', t)
  {
    hide Reaches;
    var s1 := WriterRuns(s, t, u);
    s' := WriterRuns(s1, t, u);
    ReachSelf(s');
    ReachStep(s1, Run(u, false, []), s', s');
    ReachStep(s, Run(u, false, []), s1, s');
  }

  /** A writer finds the mutex free and the buffer not full. */
  lemma WriterEnters(s: State, t: Task, u: Task, b: Octet) returns (s': State)
    requires t != u && t in s.threads && u !in s.threads && s.threads[t] == AsleepReader(1)
    requires s.len == 0 && |s.mem| == SIZE && s.owner.None?
    ensures Reaches(s, s') && s'.owner == Some(u) && s'.len == 0 && |s'.mem| == SIZE
    ensures t in s'.threads && u in s'.threads && s'.threads[t] == AsleepReader(1)
    ensures s'.threads[u] == Thread(WClip, RUNNING, true, false, 1, [b], false, false, Unset)
  {
    hide Reaches;
    var s1 := Do(s, Begin(u, Write([b], false))).value;
    var s2 := WriterRuns(s1, t, u);
    var s3 := WriterRuns(s2, t, u);
    s' := WriterRuns(s3, t, u);
    var go := Run(u, false, []);
    ReachSelf(s');
    ReachStep(s3, go, s', s');
    ReachStep(s2, go, s3, s');
    ReachStep(s1, go, s2, s');
    ReachStep(s, Begin(u, Write([b], false)), s1, s');
  }

  /**
   * Readers have no such guarantee: they sleep killably while writers wake interruptible sleepers, so
   * a reader can be left asleep beside a byte it waits for, with the mutex free.
   */
  lemma ReaderWakeupIsLost(init: State, t: Task, u: Task, b: Octet)
    requires IsInit(init) && t != u
    ensures exists s :: Reaches(init, s) && s.owner.None? && s.len == 1 && Asleep(s, t)
  {
    hide Reaches;
    ReaderFallsAsleep(init, t, 1);
    var s0 := With(init, t, AsleepReader(1));
    var s1 := WriterEnters(s0, t, u, b);
    var s2 := WriterStores(s1, t, u, b);
    ReachTrans(s0, s1, s2);
    ReachTrans(init, s0, s2);
  }

  lemma ClearRuns(s: State, c: Task, t: Task) returns (s': State)
    requires t != c && t in s.threads && c in s.threads && s.len <= |s.mem|
    requires (s.threads[c].pc.CLock? && s.owner.None?) || s.threads[c].pc in {CZero, CMemset, CUnlock}
    ensures Do(s, Run(c, false, [])) == Some(s')
    ensures t in s'.threads && c in s'.threads && s'.threads[t] == s.threads[t] && s'.len <= |s'.mem|
    ensures s.threads[c].pc.CLock? ==> s'.threads[c].pc.CZero?
    ensures s.threads[c].pc.CZero? ==> s'.threads[c].pc.CMemset? && s'.len == 0
    ensures s.threads[c].pc.CMemset? ==> s'.threads[c].pc.CUnlock? && s'.len == s.len
    ensures s.threads[c].pc.CUnlock? ==> s'.owner.None? && s'.len == s.len
  {
    s' := DoClear(s, c).value;
  }

  lemma ClearFinishes(s: State, c: Task, t: Task) returns (s': State)
    requires t != c && t in s.threads && c in s.threads && s.len <= |s.mem|
    requires s.owner.None? && s.threads[c].pc.CLock?
    ensures Reaches(s, s') && s'.owner.None? && s'.len == 0 && t in s'.threads && s'.threads[t] == s.threads[t]
  {
    hide Reaches, Do, DoClear;
    var s1 := ClearRuns(s, c, t);
    var s2 := ClearRuns(s1, c, t);
    var s3 := ClearRuns(s2, c, t);
    s' := ClearRuns(s3, c, t);
    var go := Run(c, false, []);
    ReachSelf(s');
    ReachStep(s3, go, s', s');
    ReachStep(s2, go, s3, s');
    ReachStep(s1, go, s2, s');
    ReachStep(s, go, s1, s');
  }

  /** Nor do writers after FIFO_CLEAR: it empties the buffer and wakes nobody. */
  lemma ClearLosesWakeup(s: State, t: Task, c: Task)
    requires s.len <= |s.mem| && s.owner.None? && Asleep(s, t) && IsWriter(s.threads[t].pc) && c !in s.threads
    ensures exists s' :: Reaches(s, s') && s'.owner.None? && s'.len == 0 && Asleep(s', t) && IsWriter(s'.threads[t].pc)
  {
    hide Reaches;
    var s1 := Do(s, Begin(c, Clear)).value;
    var s5 := ClearFinishes(s1, c, t);
    ReachStep(s, Begin(c, Clear), s1, s5);
  }

  function AsleepWriter(data: seq<Octet>): Thread {
    Thread(WSchedule, INTERRUPTIBLE, true, false, |data|, data, false, false, Unset)
  }

  /** A write gets the free mutex and queues itself. */
  lemma WriterQueues(s: State, t: Task, data: seq<Octet>)
    requires s.owner.None? && s.len <= |s.mem| && t !in s.threads
    ensures Reaches(s, With(s, t, Start(Write(data, false)).(pc := WTest, queued := true)).(owner := Some(t)))
  {
    hide Reaches;
    var th := Start(Write(data, false));
    var me := Some(t);
    var goal := With(s, t, th.(pc := WTest, queued := true)).(owner := me);
    ReachSelf(goal);
    SoloStep(s, t, th.(pc := WAddWait), me, th.(pc := WTest, queued := true), me, goal);
    SoloStep(s, t, th, None, th.(pc := WAddWait), me, goal);
    assert With(s, t, th).(owner := None) == With(s, t, th);
    ReachStep(s, Begin(t, Write(data, false)), With(s, t, th), goal);
  }

  /** Having set its state the writer leaves the mutex and sleeps. */
  lemma WriterSleeps(s: State, t: Task, data: seq<Octet>)
    requires s.owner.None? && s.len <= |s.mem|
    ensures Reaches(With(s, t, AsleepWriter(data).(pc := WSetState, state := RUNNING)).(owner := Some(t)),
                    With(s, t, AsleepWriter(data)))
  {
    hide Reaches;
    var th := AsleepWriter(data);
    var goal := With(s, t, th);
    ReachSelf(goal);
    assert goal.(owner := None) == goal;
    SoloStep(s, t, th.(pc := WUnlock), Some(t), th, None, goal);
    SoloStep(s, t, th.(pc := WSetState, state := RUNNING), Some(t), th.(pc := WUnlock), Some(t), goal);
  }

  /** A blocking write to a full buffer goes to sleep. */
  lemma WriterFallsAsleep(s: State, t: Task, data: seq<Octet>)
    requires s.owner.None? && s.len == SIZE == |s.mem| && t !in s.threads
    ensures Reaches(s, With(s, t, AsleepWriter(data)))
  {
    hide Reaches;
    var th := Start(Write(data, false)).(pc := WTest, queued := true);
    var goal := With(s, t, AsleepWriter(data));
    var me := Some(t);
    WriterSleeps(s, t, data);
    SoloStep(s, t, th, me, th.(pc := WSetState), me, goal);
    WriterQueues(s, t, data);
    ReachTrans(s, With(s, t, th).(owner := me), goal);
  }

  /** A write of a whole buffer to the empty one gets as far as the copy. */
  lemma FillerEnters(s: State, u: Task, data: seq<Octet>)
    requires s.owner.None? && s.len == 0 && |s.mem| == SIZE == |data| && u !in s.threads
    ensures Reaches(s, With(s, u, Start(Write(data, false)).(pc := WCopy, queued := true)).(owner := Some(u)))
  {
    hide Reaches;
    var th := Start(Write(data, false)).(pc := WTest, queued := true);
    var me := Some(u);
    var goal := With(s, u, th.(pc := WCopy)).(owner := me);
    ReachSelf(goal);
    SoloStep(s, u, th.(pc := WClip), me, th.(pc := WCopy), me, goal);
    SoloStep(s, u, th, me, th.(pc := WClip), me, goal);
    WriterQueues(s, u, data);
    ReachTrans(s, With(s, u, th).(owner := me), goal);
  }

  /** One statement of the only task, a writer past its copy. */
  lemma FillerRuns(s: State, u: Task) returns (s': State)
    requires s.threads.Keys == {u} && s.owner == Some(u) && s.len <= |s.mem| == SIZE
    requires var th := s.threads[u]; |th.buf| == th.count == SIZE && th.queued && th.pc in {WCopy, WGrow, WWake, WOut}
    requires s.threads[u].pc in {WCopy, WGrow} ==> s.len == 0
    ensures Do(s, Run(u, false, [])) == Some(s') && s'.threads.Keys == {u} && |s'.mem| == SIZE
    ensures s'.threads[u].buf == s.threads[u].buf && s'.threads[u].count == SIZE && s'.threads[u].queued
    ensures s.threads[u].pc.WCopy? ==> s'.threads[u].pc.WGrow? && s'.len == 0 && s'.owner == Some(u)
    ensures s.threads[u].pc.WGrow? ==> s'.threads[u].pc.WWake? && s'.len == SIZE && s'.owner == Some(u)
    ensures s.threads[u].pc.WWake? ==> s'.threads[u].pc.WOut? && s'.len == s.len && s'.owner == Some(u)
    ensures s.threads[u].pc.WOut? ==> s'.owner.None? && s'.len == s.len
  {
    s' := DoWrite(s, u, false, []).value;
  }

  /** And then fills the buffer. */
  lemma FillerStores(s: State, u: Task) returns (s': State)
    requires s.threads.Keys == {u} && s.owner == Some(u) && s.len == 0 && |s.mem| == SIZE
    requires var th := s.threads[u]; |th.buf| == th.count == SIZE && th.queued && th.pc.WCopy?
    ensures Reaches(s, s') && s'.owner.None? && s'.len == SIZE == |s'.mem| && s'.threads.Keys == {u}
  {
    hide Reaches, Do;
    var s1 := FillerRuns(s, u);
    var s2 := FillerRuns(s1, u);
    var s3 := FillerRuns(s2, u);
    s' := FillerRuns(s3, u);
    var go := Run(u, false, []);
    ReachSelf(s');
    ReachStep(s3, go, s', s');
    ReachStep(s2, go, s3, s');
    ReachStep(s1, go, s2, s');
    ReachStep(s, go, s1, s');
  }

  /** Writers do sleep: one that finds the buffer full, with the mutex free again. */
  lemma SleepingWriterIsReached(init: State, u: Task, t: Task, data: seq<Octet>, more: seq<Octet>) returns (s: State)
    requires IsInit(init) && u != t && |data| == SIZE
    ensures Reaches(init, s) && s.threads.Keys == {u, t}
    ensures s.owner.None? && s.len == SIZE == |s.mem| && Asleep(s, t) && IsWriter(s.threads[t].pc)
  {
    hide Reaches;
    FillerEnters(init, u, data);
    var s1 := With(init, u, Start(Write(data, false)).(pc := WCopy, queued := true)).(owner := Some(u));
    var s2 := FillerStores(s1, u);
    WriterFallsAsleep(s2, t, more);
    s := With(s2, t, AsleepWriter(more));
    ReachTrans(s1, s2, s);
    ReachTrans(init, s1, s);
  }

  /** So with FIFO_CLEAR the guarantee fails: a run from the start ends with a writer asleep at an empty buffer. */
  lemma WriterWakeupIsLost(init: State, u: Task, t: Task, c: Task)
    requires IsInit(init) && u != t && c != u && c != t
    ensures exists s :: Reaches(init, s) && s.owner.None? && s.len == 0 && Asleep(s, t) && IsWriter(s.threads[t].pc)
  {
    hide Reaches;
    var full := SleepingWriterIsReached(init, u, t, seq(SIZE, _ => 0), [0]);
    ClearLosesWakeup(full, t, c);
    var s :| Reaches(full, s) && s.owner.None? && s.len == 0 && Asleep(s, t) && IsWriter(s.threads[t].pc);
    ReachTrans(init, full, s);
  }

  // ---------------------------------------------------------------- the buffer in place

  /** The memory of the device, as the critical sections of the driver change it. */
  class Device {
    const mem: array<Octet>
    var currentLen: nat

    ghost predicate Valid()
      reads this
    {
      mem.Length == SIZE && currentLen <= SIZE
    }

    ghost function Contents(): seq<Octet>
      requires Valid()
      reads this, mem
    {
      mem[..currentLen]
    }

    constructor ()
      ensures Valid() && Contents() == [] && fresh(mem)
    {
      mem := new Octet[SIZE](_ => 0);
      currentLen := 0;
    }

    /** memcpy of the bytes from n on to the front, upwards. */
    method CopyDown(n: nat, count: nat)
      requires n + count <= mem.Length
      modifies mem
      ensures forall k | 0 <= k < count :: mem[k] == old(mem[n + k])
      ensures forall k | count <= k < mem.Length :: mem[k] == old(mem[k])
    {
      for i := 0 to count
        invariant forall k | 0 <= k < i :: mem[k] == old(mem[n + k])
        invariant forall k | i <= k < mem.Length :: mem[k] == old(mem[k])
      {
        mem[i] := mem[n + i];
      }
    }

    /** globalfifo_read between the wait loop and the wake-up, the copy succeeding. */
    method TakeOut(count: nat) returns (out: seq<Octet>)
      requires Valid()
      modifies this, mem
      ensures Valid() && |out| == Min(count, |old(Contents())|)
      ensures old(Contents()) == out + Contents()
      ensures mem[..] == Shifted(old(mem[..]), old(currentLen), |out|)
    {
      var n := if count > currentLen then currentLen else count;
      out := mem[..n];
      CopyDown(n, currentLen - n);
      currentLen := currentLen - n;
      assert mem[..currentLen] == old(mem[n..currentLen]);
    }

    /** globalfifo_write between the wait loop and the wake-up, the copy succeeding. */
    method PutIn(buf: seq<Octet>) returns (n: nat)
      requires Valid()
      modifies this, mem
      ensures Valid() && n == Min(|buf|, SIZE - |old(Contents())|)
      ensures Contents() == old(Contents()) + buf[..n]
    {
      n := if |buf| > SIZE - currentLen then SIZE - currentLen else |buf|;
      var i := 0;
      while i < n
        modifies mem
        invariant 0 <= i <= n
        invariant mem[..currentLen + i] == old(mem[..currentLen]) + buf[..i]
      {
        mem[currentLen + i] := buf[i];
        i := i + 1;
      }
      currentLen := currentLen + n;
    }
  }
}
