/** What each call on the FIFO does for its caller: which bytes it moves and what it returns. */
module FifoCalls {
  import opened Basics
  import opened GlobalFifo

  // ---------------------------------------------------------------- the calls of a run

  /** The call each task is in or was last in. */
  function Calls(m: map<Task, Call>, acts: seq<Act>): map<Task, Call>
    decreases |acts|
  {
    if acts == [] then m
    else Calls(if acts[0].Begin? then m[acts[0].t := acts[0].call] else m, acts[1..])
  }

  /** The tasks one of whose copies to or from user memory failed. */
  function Faulted(f: set<Task>, acts: seq<Act>): set<Task>
    decreases |acts|
  {
    if acts == [] then f
    else Faulted(if acts[0].Run? && acts[0].fault then f + {acts[0].t} else f, acts[1..])
  }

  /** Before the length of the transfer is cut to what fits. */
  predicate Before(pc: Pc) {
    || pc.RLock? || pc.RAddWait? || pc.RTest? || pc.RSetState? || pc.RUnlock? || pc.RSchedule? || pc.RSignal? || pc.RClip?
    || pc.WLock? || pc.WAddWait? || pc.WTest? || pc.WSetState? || pc.WUnlock? || pc.WSchedule? || pc.WSignal? || pc.WClip?
  }

  /** In the part of the wait loop that only a blocking call enters. */
  predicate Waits(pc: Pc) {
    || pc.RSetState? || pc.RUnlock? || pc.RSchedule? || pc.RSignal?
    || pc.WSetState? || pc.WUnlock? || pc.WSchedule? || pc.WSignal?
  }

  predicate Leaves(pc: Pc) {
    pc.Idle? || pc.ROut? || pc.ROut2? || pc.WOut? || pc.WOut2?
  }

  /** The result, and why: would block, a signal, a fault, or at most as many bytes as asked for. */
  predicate ResultOK(th: Thread, asked: nat, nonblock: bool, signalled: bool, faulted: bool) {
    && (Leaves(th.pc) <==> th.ret != Unset)
    && (th.ret == EAGAIN ==> nonblock)
    && (th.ret == ERESTARTSYS ==> signalled)
    && (th.ret == EFAULT ==> faulted)
    && (th.ret.Moved? ==> th.ret.n <= asked)
  }

  /** A task is where its call may be, with what it was called with. */
  predicate CallOK(th: Thread, call: Call, faulted: bool) {
    match call
    case Read(n, nonblock) =>
      && (th.pc.Idle? || IsReader(th.pc)) && th.nonblock == nonblock && (Waits(th.pc) ==> !nonblock)
      && (if Before(th.pc) then th.count == n else th.count <= n)
      && ResultOK(th, n, nonblock, th.fatal, faulted)
    case Write(data, nonblock) =>
      && (th.pc.Idle? || IsWriter(th.pc)) && th.nonblock == nonblock && (Waits(th.pc) ==> !nonblock)
      && th.buf == data && (if Before(th.pc) then th.count == |data| else th.count <= |data|)
      && ResultOK(th, |data|, nonblock, th.signal, faulted)
    case Clear => !IsReader(th.pc) && !IsWriter(th.pc)
  }

  predicate AllCallsOK(s: State, m: map<Task, Call>, f: set<Task>) {
    forall t | t in s.threads :: t in m && CallOK(s.threads[t], m[t], t in f)
  }

  // ---------------------------------------------------------------- every step keeps to its call

  /** Being woken or signalled does not change a call. */
  lemma SameCall(th: Thread, th': Thread, call: Call, faulted: bool)
    requires CallOK(th, call, faulted)
    requires th' == th.(state := th'.state, signal := th'.signal, fatal := th'.fatal)
    requires (th.signal ==> th'.signal) && (th.fatal ==> th'.fatal)
    ensures CallOK(th', call, faulted)
  {
    hide IsReader, IsWriter, Before, Waits, Leaves;
  }

  lemma MoreFaults(th: Thread, call: Call, faulted: bool, faulted': bool)
    requires CallOK(th, call, faulted) && (faulted ==> faulted')
    ensures CallOK(th, call, faulted')
  {
    hide IsReader, IsWriter, Before, Waits, Leaves;
  }

  lemma BeginsOK(call: Call, faulted: bool)
    ensures CallOK(Start(call), call, faulted)
  {}

  lemma ReadEntersOK(s: State, t: Task, fault: bool, call: Call, faulted: bool)
    requires s.len <= |s.mem| && t in s.threads && call.Read? && CallOK(s.threads[t], call, faulted)
    requires var pc := s.threads[t].pc; pc.RLock? || pc.RAddWait?
    requires DoRead(s, t, fault).Some?
    ensures var s' := DoRead(s, t, fault).value; t in s'.threads && CallOK(s'.threads[t], call, faulted || fault)
  {}

  lemma ReadTestsOK(s: State, t: Task, fault: bool, call: Call, faulted: bool)
    requires s.len <= |s.mem| && t in s.threads && call.Read? && CallOK(s.threads[t], call, faulted)
    requires var pc := s.threads[t].pc; pc.RTest?
    requires DoRead(s, t, fault).Some?
    ensures var s' := DoRead(s, t, fault).value; t in s'.threads && CallOK(s'.threads[t], call, faulted || fault)
  {}

  lemma ReadSleepsOK(s: State, t: Task, fault: bool, call: Call, faulted: bool)
    requires s.len <= |s.mem| && t in s.threads && call.Read? && CallOK(s.threads[t], call, faulted)
    requires var pc := s.threads[t].pc; pc.RSetState? || pc.RUnlock? || pc.RSchedule?
    requires DoRead(s, t, fault).Some?
    ensures var s' := DoRead(s, t, fault).value; t in s'.threads && CallOK(s'.threads[t], call, faulted || fault)
  {}

  lemma ReadWakesOK(s: State, t: Task, fault: bool, call: Call, faulted: bool)
    requires s.len <= |s.mem| && t in s.threads && call.Read? && CallOK(s.threads[t], call, faulted)
    requires var pc := s.threads[t].pc; pc.RSignal? || pc.RClip?
    requires DoRead(s, t, fault).Some?
    ensures var s' := DoRead(s, t, fault).value; t in s'.threads && CallOK(s'.threads[t], call, faulted || fault)
  {}

  lemma ReadCopiesOK(s: State, t: Task, fault: bool, call: Call, faulted: bool)
    requires s.len <= |s.mem| && t in s.threads && call.Read? && CallOK(s.threads[t], call, faulted)
    requires s.threads[t].pc.RCopy?
    requires DoRead(s, t, fault).Some?
    ensures var s' := DoRead(s, t, fault).value; t in s'.threads && CallOK(s'.threads[t], call, faulted || fault)
  {}

  lemma ReadShiftsOK(s: State, t: Task, fault: bool, call: Call, faulted: bool)
    requires s.len <= |s.mem| && t in s.threads && call.Read? && CallOK(s.threads[t], call, faulted)
    requires var pc := s.threads[t].pc; pc.RShift? || pc.RShrink?
    requires DoRead(s, t, fault).Some?
    ensures var s' := DoRead(s, t, fault).value; t in s'.threads && CallOK(s'.threads[t], call, faulted || fault)
  {}

  lemma ReadLeavesOK(s: State, t: Task, fault: bool, call: Call, faulted: bool)
    requires s.len <= |s.mem| && t in s.threads && call.Read? && CallOK(s.threads[t], call, faulted)
    requires var pc := s.threads[t].pc; pc.RWake? || pc.ROut? || pc.ROut2?
    requires DoRead(s, t, fault).Some?
    ensures var s' := DoRead(s, t, fault).value; t in s'.threads && CallOK(s'.threads[t], call, faulted || fault)
  {}

  lemma ReadStepOK(s: State, t: Task, fault: bool, call: Call, faulted: bool)
    requires s.len <= |s.mem| && t in s.threads && IsReader(s.threads[t].pc) && DoRead(s, t, fault).Some?
    requires CallOK(s.threads[t], call, faulted)
    ensures var s' := DoRead(s, t, fault).value; t in s'.threads && CallOK(s'.threads[t], call, faulted || fault)
  {
    assert call.Read? by { OneKind(s.threads[t].pc); }
    hide CallOK, DoRead;
    var pc := s.threads[t].pc;
    if pc.RLock? || pc.RAddWait? {
      ReadEntersOK(s, t, fault, call, faulted);
    } else if pc.RTest? {
      ReadTestsOK(s, t, fault, call, faulted);
    } else if pc.RSetState? || pc.RUnlock? || pc.RSchedule? {
      ReadSleepsOK(s, t, fault, call, faulted);
    } else if pc.RSignal? || pc.RClip? {
      ReadWakesOK(s, t, fault, call, faulted);
    } else if pc.RCopy? {
      ReadCopiesOK(s, t, fault, call, faulted);
    } else if pc.RShift? || pc.RShrink? {
      ReadShiftsOK(s, t, fault, call, faulted);
    } else {
      ReadLeavesOK(s, t, fault, call, faulted);
    }
  }

  lemma WriteEntersOK(s: State, t: Task, fault: bool, junk: seq<Octet>, call: Call, faulted: bool)
    requires s.len <= |s.mem| && t in s.threads && call.Write? && CallOK(s.threads[t], call, faulted)
    requires var pc := s.threads[t].pc; pc.WLock? || pc.WAddWait?
    requires DoWrite(s, t, fault, junk).Some?
    ensures var s' := DoWrite(s, t, fault, junk).value; t in s'.threads && CallOK(s'.threads[t], call, faulted || fault)
  {}

  lemma WriteTestsOK(s: State, t: Task, fault: bool, junk: seq<Octet>, call: Call, faulted: bool)
    requires s.len <= |s.mem| && t in s.threads && call.Write? && CallOK(s.threads[t], call, faulted)
    requires var pc := s.threads[t].pc; pc.WTest?
    requires DoWrite(s, t, fault, junk).Some?
    ensures var s' := DoWrite(s, t, fault, junk).value; t in s'.threads && CallOK(s'.threads[t], call, faulted || fault)
  {
    var th, th' := s.threads[t], DoWrite(s, t, fault, junk).value.threads[t];
    assert th' == if th'.pc.WOut? then th.(pc := WOut, ret := EAGAIN) else th.(pc := th'.pc);
    assert (th'.pc.WOut? && th.nonblock) || (th'.pc.WSetState? && !th.nonblock) || th'.pc.WClip?;
    hide DoWrite;
  }

  lemma WriteSleepsOK(s: State, t: Task, fault: bool, junk: seq<Octet>, call: Call, faulted: bool)
    requires s.len <= |s.mem| && t in s.threads && call.Write? && CallOK(s.threads[t], call, faulted)
    requires var pc := s.threads[t].pc; pc.WSetState? || pc.WUnlock? || pc.WSchedule?
    requires DoWrite(s, t, fault, junk).Some?
    ensures var s' := DoWrite(s, t, fault, junk).value; t in s'.threads && CallOK(s'.threads[t], call, faulted || fault)
  {}

  lemma WriteWakesOK(s: State, t: Task, fault: bool, junk: seq<Octet>, call: Call, faulted: bool)
    requires s.len <= |s.mem| && t in s.threads && call.Write? && CallOK(s.threads[t], call, faulted)
    requires var pc := s.threads[t].pc; pc.WSignal? || pc.WClip?
    requires DoWrite(s, t, fault, junk).Some?
    ensures var s' := DoWrite(s, t, fault, junk).value; t in s'.threads && CallOK(s'.threads[t], call, faulted || fault)
  {}

  lemma WriteMovesOK(s: State, t: Task, fault: bool, junk: seq<Octet>, call: Call, faulted: bool)
    requires s.len <= |s.mem| && t in s.threads && call.Write? && CallOK(s.threads[t], call, faulted)
    requires var pc := s.threads[t].pc; pc.WCopy? || pc.WGrow?
    requires DoWrite(s, t, fault, junk).Some?
    ensures var s' := DoWrite(s, t, fault, junk).value; t in s'.threads && CallOK(s'.threads[t], call, faulted || fault)
  {}

  lemma WriteEndsOK(s: State, t: Task, fault: bool, junk: seq<Octet>, call: Call, faulted: bool)
    requires s.len <= |s.mem| && t in s.threads && call.Write? && CallOK(s.threads[t], call, faulted)
    requires s.threads[t].pc.WWake?
    requires DoWrite(s, t, fault, junk).Some?
    ensures var s' := DoWrite(s, t, fault, junk).value; t in s'.threads && CallOK(s'.threads[t], call, faulted || fault)
  {}

  lemma WriteLeavesOK(s: State, t: Task, fault: bool, junk: seq<Octet>, call: Call, faulted: bool)
    requires s.len <= |s.mem| && t in s.threads && call.Write? && CallOK(s.threads[t], call, faulted)
    requires var pc := s.threads[t].pc; pc.WOut? || pc.WOut2?
    requires DoWrite(s, t, fault, junk).Some?
    ensures var s' := DoWrite(s, t, fault, junk).value; t in s'.threads && CallOK(s'.threads[t], call, faulted || fault)
  {}

  lemma WriteStepOK(s: State, t: Task, fault: bool, junk: seq<Octet>, call: Call, faulted: bool)
    requires s.len <= |s.mem| && t in s.threads && IsWriter(s.threads[t].pc) && DoWrite(s, t, fault, junk).Some?
    requires CallOK(s.threads[t], call, faulted)
    ensures var s' := DoWrite(s, t, fault, junk).value; t in s'.threads && CallOK(s'.threads[t], call, faulted || fault)
  {
    assert call.Write? by { OneKind(s.threads[t].pc); }
    hide CallOK, DoWrite;
    var pc := s.threads[t].pc;
    if pc.WLock? || pc.WAddWait? {
      WriteEntersOK(s, t, fault, junk, call, faulted);
    } else if pc.WTest? {
      WriteTestsOK(s, t, fault, junk, call, faulted);
    } else if pc.WSetState? || pc.WUnlock? || pc.WSchedule? {
      WriteSleepsOK(s, t, fault, junk, call, faulted);
    } else if pc.WSignal? || pc.WClip? {
      WriteWakesOK(s, t, fault, junk, call, faulted);
    } else if pc.WCopy? || pc.WGrow? {
      WriteMovesOK(s, t, fault, junk, call, faulted);
    } else if pc.WWake? {
      WriteEndsOK(s, t, fault, junk, call, faulted);
    } else {
      WriteLeavesOK(s, t, fault, junk, call, faulted);
    }
  }

  lemma OneKind(pc: Pc)
    ensures !(IsReader(pc) && IsWriter(pc)) && (pc.Idle? ==> !IsReader(pc) && !IsWriter(pc))
  {}

  lemma ClearStepOK(s: State, t: Task, call: Call, faulted: bool)
    requires s.len <= |s.mem| && t in s.threads && !IsReader(s.threads[t].pc) && !IsWriter(s.threads[t].pc)
    requires DoClear(s, t).Some? && CallOK(s.threads[t], call, faulted)
    ensures var s' := DoClear(s, t).value; t in s'.threads && CallOK(s'.threads[t], call, faulted)
  {
    assert call.Clear?;
    hide CallOK;
    var s' := DoClear(s, t).value;
    var pc := s'.threads[t].pc;
    assert pc.CZero? || pc.CMemset? || pc.CUnlock? || pc.Idle?;
    hide DoClear;
    ClearOK(s'.threads[t], call, faulted);
  }

  lemma ClearOK(th: Thread, call: Call, faulted: bool)
    requires call.Clear? && (th.pc.CZero? || th.pc.CMemset? || th.pc.CUnlock? || th.pc.Idle?)
    ensures CallOK(th, call, faulted)
  {}

  /** A statement of one task at most wakes the others. */
  lemma OthersAtMostWoken(s: State, t: Task, fault: bool, junk: seq<Octet>, u: Task)
    requires s.len <= |s.mem| && Do(s, Run(t, fault, junk)).Some? && u in s.threads && u != t
    ensures var s' := Do(s, Run(t, fault, junk)).value;
            && s'.threads.Keys == s.threads.Keys
            && s'.threads[u] == s.threads[u].(state := s'.threads[u].state)
  {
    if IsReader(s.threads[t].pc) {
      ReaderWakes(s, t, fault, u);
    } else if IsWriter(s.threads[t].pc) {
      WriterWakes(s, t, fault, junk, u);
    }
    hide DoRead, DoWrite, IsReader, IsWriter;
  }

  lemma ReaderWakes(s: State, t: Task, fault: bool, u: Task)
    requires s.len <= |s.mem| && t in s.threads && IsReader(s.threads[t].pc) && DoRead(s, t, fault).Some?
    requires u in s.threads && u != t
    ensures var s' := DoRead(s, t, fault).value;
            s'.threads.Keys == s.threads.Keys && s'.threads[u] == s.threads[u].(state := s'.threads[u].state)
  {}

  lemma WriterWakes(s: State, t: Task, fault: bool, junk: seq<Octet>, u: Task)
    requires s.len <= |s.mem| && t in s.threads && IsWriter(s.threads[t].pc) && DoWrite(s, t, fault, junk).Some?
    requires u in s.threads && u != t
    ensures var s' := DoWrite(s, t, fault, junk).value;
            s'.threads.Keys == s.threads.Keys && s'.threads[u] == s.threads[u].(state := s'.threads[u].state)
  {}

  lemma RunKeepsCalls(s: State, t: Task, fault: bool, junk: seq<Octet>, m: map<Task, Call>, f: set<Task>)
    requires s.len <= |s.mem| && Do(s, Run(t, fault, junk)).Some? && AllCallsOK(s, m, f)
    ensures AllCallsOK(Do(s, Run(t, fault, junk)).value, m, if fault then f + {t} else f)
  {
    hide CallOK, DoRead, DoWrite, DoClear, IsReader, IsWriter;
    var s' := Do(s, Run(t, fault, junk)).value;
    var f' := if fault then f + {t} else f;
    assert CallOK(s.threads[t], m[t], t in f);
    if IsReader(s.threads[t].pc) {
      ReadStepOK(s, t, fault, m[t], t in f);
    } else if IsWriter(s.threads[t].pc) {
      WriteStepOK(s, t, fault, junk, m[t], t in f);
    } else {
      ClearStepOK(s, t, m[t], t in f);
      MoreFaults(s'.threads[t], m[t], t in f, t in f || fault);
    }
    RunKeepsKeys(s, t, fault, junk);
    forall u | u in s'.threads ensures u in m && CallOK(s'.threads[u], m[u], u in f') {
      if u != t {
        OthersAtMostWoken(s, t, fault, junk, u);
        SameCall(s.threads[u], s'.threads[u], m[u], u in f);
      }
    }
  }

  lemma RunKeepsKeys(s: State, t: Task, fault: bool, junk: seq<Octet>)
    requires s.len <= |s.mem| && Do(s, Run(t, fault, junk)).Some?
    ensures Do(s, Run(t, fault, junk)).value.threads.Keys == s.threads.Keys
  {
    if IsReader(s.threads[t].pc) {
      ReadKeepsKeys(s, t, fault);
    } else if IsWriter(s.threads[t].pc) {
      WriteKeepsKeys(s, t, fault, junk);
    }
    hide DoRead, DoWrite, IsReader, IsWriter;
  }

  lemma ReadKeepsKeys(s: State, t: Task, fault: bool)
    requires s.len <= |s.mem| && t in s.threads && IsReader(s.threads[t].pc) && DoRead(s, t, fault).Some?
    ensures DoRead(s, t, fault).value.threads.Keys == s.threads.Keys
  {
    ReadKeepsKinds(s, t, fault);
  }

  lemma WriteKeepsKeys(s: State, t: Task, fault: bool, junk: seq<Octet>)
    requires s.len <= |s.mem| && t in s.threads && IsWriter(s.threads[t].pc) && DoWrite(s, t, fault, junk).Some?
    ensures DoWrite(s, t, fault, junk).value.threads.Keys == s.threads.Keys
  {
    WriteKeepsKinds(s, t, fault, junk);
  }

  lemma StepKeepsCalls(s: State, a: Act, m: map<Task, Call>, f: set<Task>)
    requires s.len <= |s.mem| && Do(s, a).Some? && AllCallsOK(s, m, f)
    ensures AllCallsOK(Do(s, a).value, Calls(m, [a]), Faulted(f, [a]))
  {
    assert [a][1..] == [];
    match a
    case Begin(t, call) =>
      BeginsOK(call, t in f);
      hide CallOK;
    case Signal(t, fatal) =>
      SameCall(s.threads[t], Signalled(s.threads[t], fatal), m[t], t in f);
      hide CallOK;
    case Run(t, fault, junk) =>
      RunKeepsCalls(s, t, fault, junk, m, f);
  }

  lemma {:induction false} CallsAlwaysOK(s: State, acts: seq<Act>, m: map<Task, Call>, f: set<Task>)
    requires Execute(s, acts).Some? && AllCallsOK(s, m, f)
    ensures AllCallsOK(Execute(s, acts).value, Calls(m, acts), Faulted(f, acts))
    decreases |acts|
  {
    hide AllCallsOK, Do;
    if acts != [] {
      StepKeepsCalls(s, acts[0], m, f);
      assert [acts[0]][1..] == [];
      CallsAlwaysOK(Do(s, acts[0]).value, acts[1..], Calls(m, [acts[0]]), Faulted(f, [acts[0]]));
    }
  }

  /**
    * In every run each task is in the call it last began, with the count, data and flag it passed. It
    * returns EAGAIN only from a non-blocking call, ERESTARTSYS only with a signal pending, EFAULT only
    * after a failed copy, and otherwise the number of bytes moved, never more than asked for.
    */
  lemma ResultsAreExplained(init: State, acts: seq<Act>, t: Task)
    requires IsInit(init) && Execute(init, acts).Some? && t in Execute(init, acts).value.threads
    ensures t in Calls(map[], acts)
    ensures CallOK(Execute(init, acts).value.threads[t], Calls(map[], acts)[t], t in Faulted({}, acts))
  {
    hide CallOK;
    CallsAlwaysOK(init, acts, map[], {});
  }

  /** A non-blocking call never sleeps. */
  lemma NonblockingNeverSleeps(init: State, acts: seq<Act>, t: Task)
    requires IsInit(init) && Execute(init, acts).Some? && t in Calls(map[], acts)
    requires var call := Calls(map[], acts)[t]; !call.Clear? && call.nonblock
    ensures !Asleep(Execute(init, acts).value, t)
  {
    var s := Execute(init, acts).value;
    if t in s.threads {
      ResultsAreExplained(init, acts, t);
    }
  }

  // ---------------------------------------------------------------- the bytes moved

  /** The same task running on, without faults. */
  function OnAndOn(t: Task, k: nat): seq<Act> {
    if k == 0 then [] else [Run(t, false, [])] + OnAndOn(t, k - 1)
  }

  lemma {:induction false} OneOn(s: State, t: Task, k: nat, s': State)
    requires s.len <= |s.mem| && Do(s, Run(t, false, [])) == Some(s')
    ensures Execute(s, OnAndOn(t, k + 1)) == Execute(s', OnAndOn(t, k))
  {
    hide Do;
    assert OnAndOn(t, k + 1)[1..] == OnAndOn(t, k);
  }

  /** What a reader has done between the test of the length and the wake-up of writers. */
  predicate Took(s: State, t: Task, n: nat, s': State)
    requires s.len <= |s.mem|
  {
    var k := Min(n, s.len);
    && s'.len == s.len - k && s'.mem == Shifted(s.mem, s.len, k)
    && s'.removed == s.removed + Deliver(s.mem[..k], t) && s'.accepted == s.accepted
    && s'.owner == s.owner && s'.stale == s.stale
    && s'.threads.Keys == s.threads.Keys && t in s'.threads
    && (forall u | u in s.threads && u != t :: s'.threads[u] == s.threads[u])
    && s'.threads[t].pc.RWake? && s'.threads[t].count == k && s'.threads[t].buf == s.mem[..k]
  }

  lemma ClipStep(s: State, t: Task)
    requires t in s.threads && s.threads[t].pc.RClip? && s.len <= |s.mem|
    ensures Do(s, Run(t, false, [])) == Some(With(s, t, s.threads[t].(pc := RCopy, count := Min(s.threads[t].count, s.len))))
  {}

  lemma CopyStep(s: State, t: Task)
    requires t in s.threads && s.threads[t].pc.RCopy? && s.threads[t].count <= s.len <= |s.mem|
    ensures Do(s, Run(t, false, [])) == Some(With(s, t, s.threads[t].(pc := RShift, buf := s.mem[..s.threads[t].count])))
  {}

  lemma ShiftStep(s: State, t: Task)
    requires t in s.threads && s.threads[t].pc.RShift? && s.threads[t].count <= s.len <= |s.mem|
    ensures Do(s, Run(t, false, []))
         == Some(With(s, t, s.threads[t].(pc := RShrink)).(mem := Shifted(s.mem, s.len, s.threads[t].count)))
  {}

  lemma ShrinkStep(s: State, t: Task)
    requires t in s.threads && s.threads[t].pc.RShrink? && s.threads[t].count <= s.len <= |s.mem|
    ensures Do(s, Run(t, false, []))
         == Some(With(s, t, s.threads[t].(pc := RWake))
                 .(len := s.len - s.threads[t].count, removed := s.removed + Deliver(s.threads[t].buf, t)))
  {}

  lemma ReaderTakes(s: State, t: Task)
    requires s.len <= |s.mem| && t in s.threads && s.threads[t].pc.RClip?
    ensures Execute(s, OnAndOn(t, 4)).Some? && Took(s, t, s.threads[t].count, Execute(s, OnAndOn(t, 4)).value)
  {
    hide Do, Deliver, Execute, Shifted;
    var th := s.threads[t];
    var k := Min(th.count, s.len);
    ClipStep(s, t);
    var s1 := With(s, t, th.(pc := RCopy, count := k));
    CopyStep(s1, t);
    var s2 := With(s1, t, s1.threads[t].(pc := RShift, buf := s.mem[..k]));
    ShiftStep(s2, t);
    var s3 := With(s2, t, s2.threads[t].(pc := RShrink)).(mem := Shifted(s.mem, s.len, k));
    ShrinkStep(s3, t);
    var s4 := With(s3, t, s3.threads[t].(pc := RWake)).(len := s.len - k, removed := s.removed + Deliver(s.mem[..k], t));
    OneOn(s, t, 3, s1);
    OneOn(s1, t, 2, s2);
    OneOn(s2, t, 1, s3);
    OneOn(s3, t, 0, s4);
    NoneOn(s4, t);
  }

  lemma NoneOn(s: State, t: Task)
    ensures Execute(s, OnAndOn(t, 0)) == Some(s)
  {}

  /** What a writer has done between the test of the length and the wake-up of readers. */
  predicate Put(s: State, t: Task, data: seq<Octet>, s': State)
    requires s.len <= |s.mem|
  {
    var k := Min(|data|, |s.mem| - s.len);
    && s'.len == s.len + k && s'.mem == s.mem[..s.len] + data[..k] + s.mem[s.len + k..]
    && s'.accepted == s.accepted + data[..k] && s'.removed == s.removed
    && s'.owner == s.owner && s'.stale == s.stale
    && s'.threads.Keys == s.threads.Keys && t in s'.threads
    && (forall u | u in s.threads && u != t :: s'.threads[u] == s.threads[u])
    && s'.threads[t].pc.WWake? && s'.threads[t].count == k
  }

  lemma ClipIn(s: State, t: Task)
    requires t in s.threads && s.threads[t].pc.WClip? && s.len <= |s.mem| && s.threads[t].count == |s.threads[t].buf|
    ensures Do(s, Run(t, false, []))
         == Some(With(s, t, s.threads[t].(pc := WCopy, count := Min(|s.threads[t].buf|, |s.mem| - s.len))))
  {}

  lemma CopyIn(s: State, t: Task)
    requires t in s.threads && s.threads[t].pc.WCopy?
    requires var th := s.threads[t]; s.len + th.count <= |s.mem| && th.count <= |th.buf|
    ensures var th := s.threads[t];
            Do(s, Run(t, false, [])) == Some(
              With(s, t, th.(pc := WGrow)).(mem := s.mem[..s.len] + th.buf[..th.count] + s.mem[s.len + th.count..]))
  {}

  lemma GrowStep(s: State, t: Task)
    requires t in s.threads && s.threads[t].pc.WGrow? && s.len <= |s.mem| && s.threads[t].count <= |s.threads[t].buf|
    ensures var th := s.threads[t];
            Do(s, Run(t, false, [])) == Some(
              With(s, t, th.(pc := WWake)).(len := s.len + th.count, accepted := s.accepted + th.buf[..th.count]))
  {}

  lemma WriterPuts(s: State, t: Task)
    requires s.len <= |s.mem| && t in s.threads && s.threads[t].pc.WClip? && s.threads[t].count == |s.threads[t].buf|
    ensures Execute(s, OnAndOn(t, 3)).Some? && Put(s, t, s.threads[t].buf, Execute(s, OnAndOn(t, 3)).value)
  {
    hide Do, Execute;
    var th := s.threads[t];
    var k := Min(|th.buf|, |s.mem| - s.len);
    ClipIn(s, t);
    var s1 := With(s, t, th.(pc := WCopy, count := k));
    CopyIn(s1, t);
    var s2 := With(s1, t, s1.threads[t].(pc := WGrow)).(mem := s.mem[..s.len] + th.buf[..k] + s.mem[s.len + k..]);
    GrowStep(s2, t);
    var s3 := With(s2, t, s2.threads[t].(pc := WWake)).(len := s.len + k, accepted := s.accepted + th.buf[..k]);
    OneOn(s, t, 2, s1);
    OneOn(s1, t, 1, s2);
    OneOn(s2, t, 0, s3);
    NoneOn(s3, t);
  }

  /**
    * From any point of any run at which a read has found the buffer filled, its next statements deliver
    * the first bytes of the buffer, as many as were asked for in the call or are there, and at least one
    * if any were asked for.
    */
  lemma ReadDelivers(init: State, acts: seq<Act>, t: Task)
    requires IsInit(init) && Execute(init, acts).Some?
    requires var s := Execute(init, acts).value; t in s.threads && s.threads[t].pc.RClip?
    ensures var s := Execute(init, acts).value;
            && 0 < s.len <= |s.mem| && t in Calls(map[], acts) && Calls(map[], acts)[t].Read?
            && Execute(s, OnAndOn(t, 4)).Some?
            && Took(s, t, Calls(map[], acts)[t].count, Execute(s, OnAndOn(t, 4)).value)
  {
    var s := Execute(init, acts).value;
    InvInit(init);
    InvAlways(init, acts);
    InvThread(s, t);
    ResultsAreExplained(init, acts, t);
    assert s.threads[t].count == Calls(map[], acts)[t].count && s.len > 0;
    ReaderTakes(s, t);
    hide Took, Inv, CallOK;
  }

  /** And a write that has found room stores the first bytes of its data, as many as fit, and at least one if there are any. */
  lemma WriteStores(init: State, acts: seq<Act>, t: Task)
    requires IsInit(init) && Execute(init, acts).Some?
    requires var s := Execute(init, acts).value; t in s.threads && s.threads[t].pc.WClip?
    ensures var s := Execute(init, acts).value;
            && s.len < SIZE == |s.mem| && t in Calls(map[], acts) && Calls(map[], acts)[t].Write?
            && Execute(s, OnAndOn(t, 3)).Some?
            && Put(s, t, Calls(map[], acts)[t].data, Execute(s, OnAndOn(t, 3)).value)
  {
    var s := Execute(init, acts).value;
    InvInit(init);
    InvAlways(init, acts);
    InvThread(s, t);
    ResultsAreExplained(init, acts, t);
    assert s.threads[t].buf == Calls(map[], acts)[t].data;
    WriterPuts(s, t);
    hide Put, Inv, CallOK;
  }
}
