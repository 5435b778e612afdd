/**
  * The copy loop of copy.c: bytes move from one descriptor to another by copy_file_range, sendfile,
  * splice or read and write, each of which may move fewer bytes than asked or fail.
  */
module CopyBytes {
  import opened Basics

  type Errno = e: nat | e > 0 witness 1

  const UINT64_MAX: nat := 0xFFFF_FFFF_FFFF_FFFF
  const SSIZE_MAX: nat := 0x7FFF_FFFF_FFFF_FFFF
  const COPY_BUFFER_SIZE: nat := 16 * 1024

  const EINTR: Errno := 4
  const EIO: Errno := 5
  const EBADF: Errno := 9
  const EXDEV: Errno := 18
  const EINVAL: Errno := 22
  const ENOSYS: Errno := 38

  datatype Pipe = NoPipe | BlockingPipe | NonblockingPipe | Unknown(errno: Errno)

  /** What a system call will do: fail, or handle about this many bytes. */
  datatype Outcome = Fail(errno: Errno) | Move(count: nat)

  /** The outcome of the next call. */
  function Coming(script: seq<Outcome>): Outcome {
    if script == [] then Fail(EIO) else script[0]
  }

  function After(script: seq<Outcome>): seq<Outcome> {
    if script == [] then [] else script[1..]
  }

  // ---------------------------------------------------------------- the calls made

  datatype Mechanism = Cfr | Sendfile | Splice | ReadCall | WriteCall

  /** One call and the error it ended with, 0 for none. */
  datatype Attempt = Attempt(mech: Mechanism, errno: nat)

  /** Errors of a mechanism that say to use the next one. */
  const CFR_FALLBACK: set<nat> := {EINVAL, ENOSYS, EXDEV, EBADF}
  const FALLBACK: set<nat> := {EINVAL, ENOSYS}

  function FallbackOf(mech: Mechanism): set<nat> {
    match mech
    case Cfr => CFR_FALLBACK
    case Sendfile => FALLBACK
    case Splice => FALLBACK
    case _ => {}
  }

  predicate Fine(a: Attempt) {
    a.errno == 0 || a.errno in FallbackOf(a.mech)
  }

  predicate AllFine(log: seq<Attempt>) {
    forall i | 0 <= i < |log| :: Fine(log[i])
  }

  /** All went well up to the last call, which failed with this error for good. */
  predicate StoppedBy(log: seq<Attempt>, errno: nat) {
    log != [] && AllFine(log[..|log| - 1]) && !Fine(log[|log| - 1]) && log[|log| - 1].errno == errno
  }

  /** The mechanism was found unusable. */
  predicate FellBack(log: seq<Attempt>, mech: Mechanism) {
    exists i :: 0 <= i < |log| && log[i].mech == mech && log[i].errno != 0 && log[i].errno in FallbackOf(mech)
  }

  predicate NoSplice(a: Pipe, b: Pipe) {
    || (a.NoPipe? && b.NoPipe?)
    || (a.BlockingPipe? && b.NonblockingPipe?)
    || (a.NonblockingPipe? && b.BlockingPipe?)
  }

  /** Each mechanism is used only after those before it were given up, and not again once it was itself. */
  predicate MayUse(log: seq<Attempt>, mech: Mechanism, from: Pipe, to: Pipe) {
    && !FellBack(log, mech)
    && (!mech.Cfr? ==> FellBack(log, Cfr))
    && (!mech.Cfr? && !mech.Sendfile? ==> FellBack(log, Sendfile))
    && (mech.Splice? ==> !NoSplice(from, to))
    && (mech.ReadCall? || mech.WriteCall? ==> FellBack(log, Splice) || NoSplice(from, to))
  }

  predicate InOrder(log: seq<Attempt>, from: Pipe, to: Pipe) {
    forall i | 0 <= i < |log| :: MayUse(log[..i], log[i].mech, from, to)
  }

  lemma OneMore(log: seq<Attempt>, a: Attempt, from: Pipe, to: Pipe)
    requires InOrder(log, from, to) && MayUse(log, a.mech, from, to) && AllFine(log)
    ensures InOrder(log + [a], from, to)
    ensures if Fine(a) then AllFine(log + [a]) else StoppedBy(log + [a], a.errno)
    ensures forall mech :: FellBack(log + [a], mech) <==> FellBack(log, mech) || (mech == a.mech && a.errno != 0 && Fine(a))
  {
    var log' := log + [a];
    assert log'[..|log|] == log;
    forall i | 0 <= i < |log'| ensures MayUse(log'[..i], log'[i].mech, from, to) {
      assert log'[..i] == log[..i];
    }
    forall mech ensures FellBack(log', mech) <==> FellBack(log, mech) || (mech == a.mech && a.errno != 0 && Fine(a)) {
      assert log'[|log|] == a;
      if FellBack(log, mech) {
        var i :| 0 <= i < |log| && log[i].mech == mech && log[i].errno != 0 && log[i].errno in FallbackOf(mech);
        assert log'[i] == log[i];
      }
      if FellBack(log', mech) {
        var i :| 0 <= i < |log'| && log'[i].mech == mech && log'[i].errno != 0 && log'[i].errno in FallbackOf(mech);
        assert i < |log| ==> log[i] == log'[i];
      }
    }
  }

  lemma NothingTried(from: Pipe, to: Pipe)
    ensures InOrder([], from, to) && AllFine([]) && forall mech :: !FellBack([], mech)
  {}

  // ---------------------------------------------------------------- the descriptors

  /** Both descriptors, and the outcomes of the calls to come: any finite list, then failures. */
  class Streams {
    const source: seq<Octet>
    const from: Pipe
    const to: Pipe
    var pos: nat
    var written: seq<Octet>
    var script: seq<Outcome>
    /** The calls of the copy that is going on. */
    ghost var log: seq<Attempt>

    constructor (source: seq<Octet>, from: Pipe, to: Pipe, script: seq<Outcome>)
      ensures Valid() && pos == 0 && written == [] && this.source == source
    {
      this.source, this.from, this.to, this.script := source, from, to, script;
      pos, written, log := 0, [], [];
    }

    predicate Valid()
      reads this
    {
      pos <= |source|
    }

    method Next() returns (o: Outcome)
      modifies this`script
      ensures o == Coming(old(script))
      ensures script == After(old(script))
    {
      if script == [] {
        return Fail(EIO);
      }
      o := script[0];
      script := script[1..];
    }

    /** copy_file_range, sendfile and splice: zero exactly at the end of the source. */
    method Transfer(mech: Mechanism, len: nat) returns (n: int)
      requires Valid() && len > 0
      modifies this
      ensures log == old(log) + [Attempt(mech, if n < 0 then -n else 0)]
      ensures Valid() && n <= len
      ensures n <= 0 ==> pos == old(pos) && written == old(written)
      ensures n > 0 ==> pos == old(pos) + n && written == old(written) + source[old(pos)..pos]
      ensures n == 0 ==> pos == |source|
      ensures script == After(old(script))
      ensures n < 0 <==> Coming(old(script)).Fail?
      ensures n < 0 ==> -n == Coming(old(script)).errno
    {
      var o := Next();
      log := log + [Attempt(mech, if o.Fail? then o.errno else 0)];
      if o.Fail? {
        return -(o.errno as int);
      }
      n := Min(Max(o.count, 1), Min(len, |source| - pos));
      written := written + source[pos..pos + n];
      pos := pos + n;
    }

    method Read(len: nat) returns (n: int, buf: seq<Octet>)
      requires Valid() && len > 0
      modifies this`script, this`pos, this`log
      ensures log == old(log) + [Attempt(ReadCall, if n < 0 then -n else 0)]
      ensures Valid() && n <= len
      ensures n < 0 ==> pos == old(pos) && buf == []
      ensures n >= 0 ==> |buf| == n && pos == old(pos) + n && buf == source[old(pos)..pos]
      ensures n == 0 ==> pos == |source|
    {
      var o := Next();
      log := log + [Attempt(ReadCall, if o.Fail? then o.errno else 0)];
      if o.Fail? {
        return -(o.errno as int), [];
      }
      n := Min(Max(o.count, 1), Min(len, |source| - pos));
      buf := source[pos..pos + n];
      pos := pos + n;
    }

    /** Takes any part of the buffer, also none of it. */
    method Write(buf: seq<Octet>) returns (k: int)
      modifies this`script, this`written, this`log
      ensures log == old(log) + [Attempt(WriteCall, if k < 0 then -k else 0)]
      ensures k <= |buf|
      ensures k < 0 ==> written == old(written)
      ensures k >= 0 ==> written == old(written) + buf[..k] && |script| < |old(script)|
    {
      var o := Next();
      log := log + [Attempt(WriteCall, if o.Fail? then o.errno else 0)];
      if o.Fail? {
        return -(o.errno as int);
      }
      k := Min(o.count, |buf|);
      written := written + buf[..k];
    }
  }

  /** Which mechanisms are still worth a try, and whether splice must not block. */
  datatype Tries = Tries(cfr: bool, sendfile: bool, splice: bool, nonblockPipe: int)

  /** One round of the loop: an error to return, the end of the source, bytes moved, or nothing yet. */
  datatype Step = Failed(errno: Errno) | Eof | Moved(n: nat) | Nothing

  // ---------------------------------------------------------------- one round

  /** What one call decides: bytes or the end of file, an error to return, or that the next mechanism is due. */
  datatype Verdict = Moves | Fails(errno: Errno) | Next

  function Judge(o: Outcome, fallback: set<nat>): Verdict {
    if o.Move? then Moves else if o.errno in fallback then Next else Fails(o.errno)
  }

  predicate Agrees(step: Step, v: Verdict) {
    match v
    case Moves => step.Moved? || step.Eof?
    case Fails(e) => step == Failed(e)
    case Next => step.Nothing?
  }

  /** The first mechanism still tried that does not pass on to the next decides. */
  function Decide(script: seq<Outcome>, tries: Tries, from: Pipe, to: Pipe): Verdict {
    if !tries.cfr then DecideSendfile(script, tries, from, to)
    else
      var v := Judge(Coming(script), CFR_FALLBACK);
      if v.Next? then DecideSendfile(After(script), tries, from, to) else v
  }

  function DecideSendfile(script: seq<Outcome>, tries: Tries, from: Pipe, to: Pipe): Verdict {
    if !tries.sendfile then DecideSplice(script, tries, from, to)
    else
      var v := Judge(Coming(script), FALLBACK);
      if v.Next? then DecideSplice(After(script), tries, from, to) else v
  }

  function DecideSplice(script: seq<Outcome>, tries: Tries, from: Pipe, to: Pipe): Verdict {
    if !tries.splice then Next
    else if tries.nonblockPipe >= 0 then Judge(Coming(script), FALLBACK)
    else if from.Unknown? then Fails(from.errno)
    else if to.Unknown? then Fails(to.errno)
    else if NoSplice(from, to) then Next
    else Judge(Coming(script), FALLBACK)
  }

  /** The flags say which mechanisms were given up. */
  predicate Tracks(tries: Tries, log: seq<Attempt>, from: Pipe, to: Pipe) {
    && (tries.cfr <==> !FellBack(log, Cfr))
    && (tries.sendfile <==> !FellBack(log, Sendfile))
    && (if tries.splice then !FellBack(log, Splice) else FellBack(log, Splice) || NoSplice(from, to))
    && (tries.splice && tries.nonblockPipe >= 0 ==> !NoSplice(from, to))
    && (tries.cfr ==> tries.sendfile) && (tries.sendfile ==> tries.splice && tries.nonblockPipe < 0)
    && !FellBack(log, ReadCall) && !FellBack(log, WriteCall)
  }

  /** So far all calls were fine and in order. */
  predicate GoingWell(tries: Tries, log: seq<Attempt>, from: Pipe, to: Pipe) {
    AllFine(log) && InOrder(log, from, to) && Tracks(tries, log, from, to)
  }

  function PipeError(from: Pipe, to: Pipe): Option<nat> {
    if from.Unknown? then Some(from.errno) else if to.Unknown? then Some(to.errno) else None
  }

  /** How a round may end: well, by a call that failed for good, or by descriptors that cannot be examined. */
  predicate EndsAs(step: Step, tries: Tries, log: seq<Attempt>, from: Pipe, to: Pipe) {
    && InOrder(log, from, to)
    && (!step.Failed? ==> GoingWell(tries, log, from, to))
    && (step.Failed? ==> StoppedBy(log, step.errno) || (AllFine(log) && PipeError(from, to) == Some(step.errno)))
  }

  /** What a round did: the next bytes of the source went to the destination, or nothing did. */
  predicate Did(source: seq<Octet>, pos: nat, pos': nat, written: seq<Octet>, written': seq<Octet>, m: nat, step: Step) {
    && pos <= pos' <= |source|
    && pos' == pos + (if step.Moved? then step.n else 0)
    && (if step.Moved? then written' == written + source[pos..pos'] else written' == written)
    && (step.Moved? ==> 0 < step.n <= m)
    && (step.Eof? ==> pos' == |source|)
  }

  /** One mechanism: its result, or Nothing if the next one is to be used instead. */
  method TryOne(f: Streams, m: nat, mech: Mechanism) returns (step: Step)
    requires f.Valid() && m > 0 && !mech.ReadCall? && !mech.WriteCall?
    requires AllFine(f.log) && InOrder(f.log, f.from, f.to) && MayUse(f.log, mech, f.from, f.to)
    modifies f
    ensures Agrees(step, Judge(Coming(old(f.script)), FallbackOf(mech))) && f.script == After(old(f.script))
    ensures Did(f.source, old(f.pos), f.pos, old(f.written), f.written, m, step)
    ensures InOrder(f.log, f.from, f.to) && (if step.Failed? then StoppedBy(f.log, step.errno) else AllFine(f.log))
    ensures forall x :: FellBack(f.log, x) <==> old(FellBack(f.log, x)) || (x == mech && step.Nothing?)
  {
    hide AllFine, InOrder, StoppedBy, FellBack, MayUse;
    ghost var log := f.log;
    var n := f.Transfer(mech, m);
    OneMore(log, Attempt(mech, if n < 0 then -n else 0), f.from, f.to);
    if n < 0 {
      return if -n in FallbackOf(mech) then Nothing else Failed(-n);
    } else if n == 0 {
      return Eof;
    }
    return Moved(n);
  }

  /** The descriptors checked once for the use of splice. */
  method CheckPipes(f: Streams, tries: Tries) returns (err: int, tries': Tries)
    ensures err < 0 || tries'.splice == (tries.splice && (tries.nonblockPipe >= 0 || !NoSplice(f.from, f.to)))
    ensures err < 0 <==> tries.splice && tries.nonblockPipe < 0 && (f.from.Unknown? || f.to.Unknown?)
    ensures err < 0 ==> -err == if f.from.Unknown? then f.from.errno else f.to.errno
    ensures err >= 0 && tries'.splice && tries.nonblockPipe < 0 ==>
      (tries'.nonblockPipe == 1 <==> f.from.NonblockingPipe? || f.to.NonblockingPipe?)
    ensures tries'.cfr == tries.cfr && tries'.sendfile == tries.sendfile
    ensures err >= 0 && tries'.splice ==> tries'.nonblockPipe >= 0
    ensures !tries.splice ==> tries' == tries
  {
    tries' := tries;
    err := 0;
    if tries.splice && tries.nonblockPipe < 0 {
      if f.from.Unknown? {
        return -(f.from.errno as int), tries';
      } else if f.to.Unknown? {
        return -(f.to.errno as int), tries';
      } else if NoSplice(f.from, f.to) {
        tries' := tries.(splice := false);
      } else {
        tries' := tries.(nonblockPipe := if f.from.NonblockingPipe? || f.to.NonblockingPipe? then 1 else 0);
      }
    }
  }

  /** The three mechanisms that move bytes inside the kernel, in their order. */
  method Accelerated(f: Streams, m: nat, tries: Tries) returns (step: Step, tries': Tries)
    requires f.Valid() && m > 0 && GoingWell(tries, f.log, f.from, f.to)
    modifies f
    ensures Did(f.source, old(f.pos), f.pos, old(f.written), f.written, m, step)
    ensures Agrees(step, Decide(old(f.script), tries, f.from, f.to))
    ensures EndsAs(step, tries', f.log, f.from, f.to)
    ensures step.Nothing? ==> !tries'.cfr && !tries'.sendfile && !tries'.splice
    ensures (tries'.cfr ==> tries.cfr) && (tries'.sendfile ==> tries.sendfile) && (tries'.splice ==> tries.splice)
  {
    hide AllFine, InOrder, StoppedBy, FellBack, NoSplice;
    tries' := tries;
    step := Nothing;
    if tries'.cfr {
      step := TryOne(f, m, Cfr);
      if !step.Nothing? {
        return;
      }
      tries' := tries'.(cfr := false);
    }
    if tries'.sendfile {
      step := TryOne(f, m, Sendfile);
      if !step.Nothing? {
        return;
      }
      tries' := tries'.(sendfile := false);
    }
    var err;
    err, tries' := CheckPipes(f, tries');
    if err < 0 {
      return Failed(-err), tries';
    }
    if tries'.splice {
      step := TryOne(f, m, Splice);
      if !step.Nothing? {
        return;
      }
      tries' := tries'.(splice := false);
    }
  }

  /** Only reading and writing is left. */
  predicate ByHandOnly(tries: Tries, log: seq<Attempt>, from: Pipe, to: Pipe) {
    GoingWell(tries, log, from, to) && !tries.cfr && !tries.sendfile && !tries.splice
  }

  lemma HandCall(tries: Tries, log: seq<Attempt>, a: Attempt, from: Pipe, to: Pipe)
    requires ByHandOnly(tries, log, from, to) && (a.mech.ReadCall? || a.mech.WriteCall?)
    ensures InOrder(log + [a], from, to)
    ensures if a.errno == 0 then ByHandOnly(tries, log + [a], from, to) else StoppedBy(log + [a], a.errno)
  {
    hide AllFine, InOrder, StoppedBy, FellBack, NoSplice;
    OneMore(log, a, from, to);
  }

  /** Writes all of the buffer or reports what of it is left. */
  method WriteAll(f: Streams, buf: seq<Octet>, ghost tries: Tries) returns (r: int, left: seq<Octet>)
    requires buf != [] && ByHandOnly(tries, f.log, f.from, f.to)
    modifies f`script, f`written, f`log
    ensures f.written + left == old(f.written) + buf
    ensures r <= 0 && (r == 0 <==> left == [])
    ensures InOrder(f.log, f.from, f.to)
    ensures if r < 0 then StoppedBy(f.log, -r) else ByHandOnly(tries, f.log, f.from, f.to)
  {
    hide InOrder, StoppedBy, ByHandOnly;
    left := buf;
    while true
      invariant left != [] && f.written + left == old(f.written) + buf && ByHandOnly(tries, f.log, f.from, f.to)
      decreases |f.script|
    {
      ghost var w, log := f.written, f.log;
      var k := f.Write(left);
      HandCall(tries, log, Attempt(WriteCall, if k < 0 then -k else 0), f.from, f.to);
      if k < 0 {
        return k, left;
      }
      assert w + left == w + left[..k] + left[k..];
      left := left[k..];
      if |left| == 0 {
        assert f.written + left == f.written;
        return 0, left;
      }
    }
  }

  /** The fallback: one read into the buffer, then writes until it is empty. */
  method ByHand(f: Streams, m: nat, ghost tries: Tries) returns (step: Step, left: seq<Octet>)
    requires f.Valid() && m > 0 && ByHandOnly(tries, f.log, f.from, f.to)
    modifies f
    ensures f.Valid() && !step.Nothing? && (left != [] ==> step.Failed?)
    ensures left == [] ==> Did(f.source, old(f.pos), f.pos, old(f.written), f.written, m, step)
    ensures left != [] ==> old(f.pos) < f.pos <= old(f.pos) + m
                           && f.written + left == old(f.written) + f.source[old(f.pos)..f.pos]
    ensures EndsAs(step, tries, f.log, f.from, f.to)
  {
    hide InOrder, StoppedBy, AllFine, Tracks;
    ghost var log := f.log;
    var n, buf := f.Read(Min(m, COPY_BUFFER_SIZE));
    HandCall(tries, log, Attempt(ReadCall, if n < 0 then -n else 0), f.from, f.to);
    left := [];
    if n < 0 {
      return Failed(-n), left;
    } else if n == 0 {
      return Eof, left;
    }
    var r;
    r, left := WriteAll(f, buf, tries);
    if r < 0 {
      return Failed(-r), left;
    }
    assert f.written + left == f.written;
    return Moved(n), left;
  }

  /** One round: the accelerated mechanisms, then the copy by hand. */
  method Round(f: Streams, m: nat, tries: Tries) returns (step: Step, tries': Tries, left: seq<Octet>)
    requires f.Valid() && m > 0 && GoingWell(tries, f.log, f.from, f.to)
    modifies f
    ensures f.Valid() && !step.Nothing? && (left != [] ==> step.Failed?)
    ensures left == [] ==> Did(f.source, old(f.pos), f.pos, old(f.written), f.written, m, step)
    ensures left != [] ==> old(f.pos) < f.pos <= old(f.pos) + m
                           && f.written + left == old(f.written) + f.source[old(f.pos)..f.pos]
    ensures EndsAs(step, tries', f.log, f.from, f.to)
  {
    hide InOrder, StoppedBy, AllFine, Tracks;
    left := [];
    step, tries' := Accelerated(f, m, tries);
    if step.Nothing? {
      step, left := ByHand(f, m, tries');
    }
  }

  /** Bytes the copy may still move: none beyond the limit, if there is one. */
  function Goal(maxBytes: nat, rest: nat): nat {
    if maxBytes == UINT64_MAX then rest else Min(maxBytes, rest)
  }

  lemma JoinMoved(a: seq<Octet>, source: seq<Octet>, i: nat, j: nat, k: nat)
    requires i <= j <= k <= |source|
    ensures a + source[i..j] + source[j..k] == a + source[i..k]
  {
    assert source[i..k] == source[i..j] + source[j..k];
  }

  /** The answer to a pending interrupt: the error of looking for one, or EINTR. */
  predicate Interrupts(interrupted: seq<int>, r: int) {
    exists i :: 0 <= i < |interrupted| && interrupted[i] != 0 && r == if interrupted[i] < 0 then interrupted[i] else -(EINTR as int)
  }

  /** The progress callback asked to stop. */
  predicate Refuses(progress: seq<int>, r: int) {
    exists i :: 0 <= i < |progress| && progress[i] < 0 && r == progress[i]
  }

  /**
    * What was written is, in order, exactly the bytes taken from the source, up to those handed back
    * after a failed write. Zero means the source ended below the limit, one that the limit was met. An
    * error is that of a call made that is no reason to fall back, of the pipe check, of an interrupt or of
    * the callback; so when all calls move bytes or fall back and nothing intervenes, the copy succeeds.
    */
  method CopyBytesFull(f: Streams, maxBytes: nat, interrupted: seq<int>, progress: seq<int>, wantRemains: bool)
    returns (r: int, remains: seq<Octet>, ghost left: seq<Octet>)
    requires f.Valid() && maxBytes <= UINT64_MAX
    modifies f
    ensures InOrder(f.log, f.from, f.to)
    ensures r >= 0 ==> AllFine(f.log)
    ensures r < 0 && !StoppedBy(f.log, -r) ==>
      AllFine(f.log) && (PipeError(f.from, f.to) == Some(-r) || Interrupts(interrupted, r) || Refuses(progress, r))
    ensures f.Valid() && old(f.pos) <= f.pos
    ensures f.written + left == old(f.written) + f.source[old(f.pos)..f.pos]
    ensures remains == if wantRemains then left else []
    ensures left != [] ==> r < 0
    ensures f.pos - old(f.pos) <= Goal(maxBytes, |f.source| - old(f.pos))
    ensures r >= 0 ==> f.pos - old(f.pos) == Goal(maxBytes, |f.source| - old(f.pos))
    ensures r >= 0 ==> r == if maxBytes != UINT64_MAX && maxBytes <= |f.source| - old(f.pos) then 1 else 0
  {
    var tries := Tries(true, true, true, -1);
    var m, max := SSIZE_MAX, maxBytes;
    var i := 0;
    remains, left := [], [];
    assert f.source[f.pos..f.pos] == [];
    f.log := [];
    NothingTried(f.from, f.to);
    hide InOrder, StoppedBy, AllFine, FellBack;
    while true
      invariant f.Valid() && old(f.pos) <= f.pos
      invariant f.written == old(f.written) + f.source[old(f.pos)..f.pos]
      invariant max > 0 ==> m > 0
      invariant max == if maxBytes == UINT64_MAX then UINT64_MAX else maxBytes - (f.pos - old(f.pos))
      invariant maxBytes != UINT64_MAX ==> f.pos - old(f.pos) <= maxBytes
      invariant GoingWell(tries, f.log, f.from, f.to)
      decreases |f.source| - f.pos
    {
      assert f.written + [] == f.written;
      if max <= 0 {
        return 1, [], [];
      }
      if i < |interrupted| && interrupted[i] != 0 {
        return if interrupted[i] < 0 then interrupted[i] else -(EINTR as int), [], [];
      }
      if max != UINT64_MAX && m > max {
        m := max;
      }
      ghost var p, w := f.pos, f.written;
      var step, rest;
      step, tries, rest := Round(f, m, tries);
      JoinMoved(old(f.written), f.source, old(f.pos), p, f.pos);
      match step
      case Failed(errno) =>
        left := rest;
        remains := if wantRemains then rest else [];
        return -(errno as int), remains, left;
      case Eof =>
        return 0, [], [];
      case Moved(n) =>
        if i < |progress| && progress[i] < 0 {
          return progress[i], [], [];
        }
        if max != UINT64_MAX {
          assert max >= n;
          max := max - n;
        }
        m := Max(Min(COPY_BUFFER_SIZE, max), m - n);
        i := i + 1;
    }
  }
}
