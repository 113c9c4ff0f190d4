/** The stream lifecycle (stream/stream.py): bit-mask states, the graph of
    legal transitions, the state machine that enforces it, the read/write
    flag scopes, the init scope, and `copy_to`. */
module Streams {
  import opened Common
  import opened InnerStream

  const FLAG_READ: StateBits := 0x01
  const FLAG_WRITE: StateBits := 0x02
  const FLAG_IDLE: StateBits := 0x04

  const STATE_NONE: StateBits := 0x00
  const STATE_READ: StateBits := FLAG_READ | FLAG_IDLE
  const STATE_WRITE: StateBits := FLAG_WRITE | FLAG_IDLE
  const STATE_READ_WRITE: StateBits := FLAG_READ | FLAG_WRITE | FLAG_IDLE
  const STATE_IDLE: StateBits := FLAG_IDLE
  const STATE_INIT: StateBits := 0x08
  const STATE_DISPOSED: StateBits := 0x10

  /** The states of `Stream.STATE_GRAPH`. */
  const STATES: set<StateBits> :=
    {STATE_NONE, STATE_READ, STATE_WRITE, STATE_READ_WRITE, STATE_INIT, STATE_IDLE, STATE_DISPOSED}

  /** `Stream.STATE_GRAPH[s]`: the states `s` may move to. */
  function Successors(s: StateBits): set<StateBits>
  {
    if s == STATE_NONE then {STATE_INIT, STATE_DISPOSED}
    else if s == STATE_READ then {STATE_IDLE, STATE_READ_WRITE, STATE_DISPOSED}
    else if s == STATE_WRITE then {STATE_IDLE, STATE_READ_WRITE, STATE_DISPOSED}
    else if s == STATE_READ_WRITE then {STATE_READ, STATE_WRITE, STATE_DISPOSED}
    else if s == STATE_INIT then {STATE_NONE, STATE_IDLE, STATE_DISPOSED}
    else if s == STATE_IDLE then {STATE_READ, STATE_WRITE, STATE_DISPOSED}
    else if s == STATE_DISPOSED then {STATE_DISPOSED}
    else {}
  }

  predicate Edge(s: StateBits, t: StateBits)
  {
    s in STATES && t in Successors(s)
  }

  /** One request to the state machine: move to `t` if that is an edge,
      otherwise fail and stay. */
  function Transition(s: StateBits, t: StateBits): Result<StateBits>
  {
    if Edge(s, t) then Ok(t) else Err(InvalidTransition(s, t))
  }

  /** `StateFlagScope.__enter__`: BrokenPipeError('stream is disposed') when
      a `disp` bit is set, otherwise the transition to `s | flag`. */
  function FlagEnter(s: StateBits, flag: StateBits, disp: StateBits): Result<StateBits>
  {
    if s & disp != 0 then Err(BrokenPipe(true)) else Transition(s, s | flag)
  }

  /** `StateFlagScope.__exit__`: the transition to `s & ~flag`. */
  function FlagExit(s: StateBits, flag: StateBits): Result<StateBits>
  {
    Transition(s, s & !flag)
  }

  /** How the body of a `with` block ended. */
  datatype ExitKind =
    | Clean                 // no exception
    | RaisedException       // an instance of Exception
    | RaisedBaseException   // a BaseException that is not an Exception (e.g. GeneratorExit)

  /** `StateTransScope.__exit__`: the success state unless an Exception is
      propagating. */
  function TransExitTarget(kind: ExitKind, succ: StateBits, fail: StateBits): StateBits
  {
    if kind.RaisedException? then fail else succ
  }

  // ---------------------------------------------------------------------
  // Properties of the graph

  /** Every target is itself a state of the graph, so a machine that starts
      in the graph stays in it. */
  lemma GraphClosed(s: StateBits, t: StateBits)
    requires Edge(s, t)
    ensures t in STATES
  {
  }

  /** The edges listed are the only ones: some examples either way. */
  lemma EdgeExamples()
    ensures !Edge(STATE_READ, STATE_WRITE) && !Edge(STATE_IDLE, STATE_READ_WRITE)
    ensures Edge(STATE_READ, STATE_READ_WRITE) && Edge(STATE_READ_WRITE, STATE_WRITE)
    ensures !Edge(STATE_NONE, STATE_IDLE) && !Edge(STATE_IDLE, STATE_INIT)
  {
  }

  /** `dispose` is legal from every state, and DISPOSED is absorbing: its one
      edge is to itself. */
  lemma DisposedAbsorbing(s: StateBits, t: StateBits)
    ensures s in STATES ==> Transition(s, STATE_DISPOSED) == Ok(STATE_DISPOSED)
    ensures Edge(STATE_DISPOSED, t) <==> t == STATE_DISPOSED
  {
  }

  /** Entering the read scope succeeds exactly from IDLE (giving READ) and
      from WRITE (giving READ_WRITE); it fails with 'stream is disposed' once
      disposed, and by a refused transition otherwise. */
  lemma EnterReadExactly(s: StateBits)
    ensures FlagEnter(s, FLAG_READ, STATE_DISPOSED).Ok? <==> s == STATE_IDLE || s == STATE_WRITE
    ensures s == STATE_IDLE ==> FlagEnter(s, FLAG_READ, STATE_DISPOSED) == Ok(STATE_READ)
    ensures s == STATE_WRITE ==> FlagEnter(s, FLAG_READ, STATE_DISPOSED) == Ok(STATE_READ_WRITE)
    ensures s == STATE_DISPOSED ==> FlagEnter(s, FLAG_READ, STATE_DISPOSED) == Err(BrokenPipe(true))
  {
  }

  /** The same for the write scope: from IDLE and from READ only. */
  lemma EnterWriteExactly(s: StateBits)
    ensures FlagEnter(s, FLAG_WRITE, STATE_DISPOSED).Ok? <==> s == STATE_IDLE || s == STATE_READ
    ensures s == STATE_IDLE ==> FlagEnter(s, FLAG_WRITE, STATE_DISPOSED) == Ok(STATE_WRITE)
    ensures s == STATE_READ ==> FlagEnter(s, FLAG_WRITE, STATE_DISPOSED) == Ok(STATE_READ_WRITE)
    ensures s == STATE_DISPOSED ==> FlagEnter(s, FLAG_WRITE, STATE_DISPOSED) == Err(BrokenPipe(true))
  {
  }

  /** No flag scope before initialisation: NONE|flag and INIT|flag are not
      edges. */
  lemma NoScopeBeforeInit(flag: StateBits)
    requires flag == FLAG_READ || flag == FLAG_WRITE
    ensures FlagEnter(STATE_NONE, flag, STATE_DISPOSED) == Err(InvalidTransition(STATE_NONE, flag))
    ensures FlagEnter(STATE_INIT, flag, STATE_DISPOSED) == Err(InvalidTransition(STATE_INIT, STATE_INIT | flag))
  {
  }

  /** A scope cannot be re-entered while it is held: the state it leads to
      already has the flag, and the self-transition is not an edge. */
  lemma NoReentry(s: StateBits, flag: StateBits)
    requires flag == FLAG_READ || flag == FLAG_WRITE
    requires FlagEnter(s, flag, STATE_DISPOSED).Ok?
    ensures FlagEnter(s, flag, STATE_DISPOSED).value & flag != 0
    ensures FlagEnter(FlagEnter(s, flag, STATE_DISPOSED).value, flag, STATE_DISPOSED).Err?
  {
  }

  /** Leaving a scope undoes entering it, and leaving it after `dispose`
      stays DISPOSED; after either exit the flag is clear. */
  lemma EnterExitRestores(s: StateBits, flag: StateBits)
    requires flag == FLAG_READ || flag == FLAG_WRITE
    ensures FlagEnter(s, flag, STATE_DISPOSED).Ok? ==>
              FlagExit(FlagEnter(s, flag, STATE_DISPOSED).value, flag) == Ok(s) && s & flag == 0
    ensures FlagExit(STATE_DISPOSED, flag) == Ok(STATE_DISPOSED)
  {
  }

  /** The init scope of a stream: enter is legal only from NONE; exit from
      INIT reaches IDLE, or NONE when an Exception propagates. */
  lemma InitScope(s: StateBits, kind: ExitKind)
    ensures Transition(s, STATE_INIT).Ok? <==> s == STATE_NONE
    ensures var t := TransExitTarget(kind, STATE_IDLE, STATE_NONE);
            Transition(STATE_INIT, t) == Ok(if kind.RaisedException? then STATE_NONE else STATE_IDLE)
  {
  }

  // ---------------------------------------------------------------------
  // Safety over any sequence of scope operations

  /** The scopes a stream's code can open. */
  datatype Scope = Reading | Writing

  function FlagOf(sc: Scope): StateBits
  {
    if sc.Reading? then FLAG_READ else FLAG_WRITE
  }

  /** One thing a stream's users can do: a `with` on a flag scope or on the
      init scope (enter, or the exit that closes it), `initing()`, or
      `dispose()`. */
  datatype Op = EnterFlag(sc: Scope) | ExitFlag(sc: Scope) | EnterInit | ExitInit(kind: ExitKind) | CallInit | Dispose

  /** The machine's state and how many of each scope are open. */
  datatype Run = Run(state: StateBits, openReads: nat, openWrites: nat, openInits: nat)

  function Opened(r: Run, sc: Scope): nat
  {
    if sc.Reading? then r.openReads else r.openWrites
  }

  function WithOpened(r: Run, sc: Scope, n: nat): Run
  {
    if sc.Reading? then r.(openReads := n) else r.(openWrites := n)
  }

  function After(s: StateBits, t: Result<StateBits>): StateBits
  {
    if t.Ok? then t.value else s
  }

  /** A failed `__enter__` opens nothing; an `__exit__` always closes its
      scope, even when its transition is refused; an exit with no open scope
      cannot be written with `with` and changes nothing. */
  function Step(r: Run, op: Op): Run
  {
    match op
    case EnterFlag(sc) =>
      var t := FlagEnter(r.state, FlagOf(sc), STATE_DISPOSED);
      if t.Ok? then WithOpened(r.(state := t.value), sc, Opened(r, sc) + 1) else r
    case ExitFlag(sc) =>
      if Opened(r, sc) == 0 then r
      else WithOpened(r.(state := After(r.state, FlagExit(r.state, FlagOf(sc)))), sc, Opened(r, sc) - 1)
    case EnterInit =>
      var t := Transition(r.state, STATE_INIT);
      if t.Ok? then r.(state := t.value, openInits := r.openInits + 1) else r
    case ExitInit(kind) =>
      if r.openInits == 0 then r
      else r.(state := After(r.state, Transition(r.state, TransExitTarget(kind, STATE_IDLE, STATE_NONE))),
              openInits := r.openInits - 1)
    case CallInit =>
      var t := Transition(r.state, STATE_INIT);
      if t.Err? then r else r.(state := After(t.value, Transition(t.value, STATE_IDLE)))
    case Dispose =>
      r.(state := After(r.state, Transition(r.state, STATE_DISPOSED)))
  }

  function Steps(r: Run, ops: seq<Op>): Run
    decreases |ops|
  {
    if ops == [] then r else Steps(Step(r, ops[0]), ops[1..])
  }

  function Bit(s: StateBits, flag: StateBits): nat
  {
    if s & flag != 0 then 1 else 0
  }

  /** The machine is in the graph; at most one read, one write and one init
      scope is open; and until disposal the open scopes are exactly the
      state's flags. */
  ghost predicate Safe(r: Run)
  {
    r.state in STATES && r.openReads <= 1 && r.openWrites <= 1 && r.openInits <= 1 &&
    (r.state != STATE_DISPOSED ==>
       r.openReads == Bit(r.state, FLAG_READ) && r.openWrites == Bit(r.state, FLAG_WRITE) &&
       r.openInits == (if r.state == STATE_INIT then 1 else 0))
  }

  /** Closing an open flag scope never meets a refused transition. */
  lemma ExitNeverRefused(r: Run, sc: Scope)
    requires Safe(r) && Opened(r, sc) > 0
    ensures FlagExit(r.state, FlagOf(sc)).Ok?
  {
  }

  /** Leaving an open init scope is refused exactly when the stream was
      disposed inside it: `initing`'s exit then asks for idle or none from
      disposed, which the graph does not allow. */
  lemma InitExitRefusedAfterDispose(r: Run, kind: ExitKind)
    requires Safe(r) && r.openInits > 0
    ensures Transition(r.state, TransExitTarget(kind, STATE_IDLE, STATE_NONE)).Err? <==> r.state == STATE_DISPOSED
  {
    assert r.state == STATE_INIT || r.state == STATE_DISPOSED;
  }

  /** A fresh stream disposed inside `with initing:` reaches disposed with
      the init scope open, and its exit is refused. */
  lemma DisposeInsideInit(kind: ExitKind)
    ensures var r := Steps(Run(STATE_NONE, 0, 0, 0), [EnterInit, Dispose]);
            r == Run(STATE_DISPOSED, 0, 0, 1) &&
            Transition(r.state, TransExitTarget(kind, STATE_IDLE, STATE_NONE)).Err?
  {
    var r1 := Step(Run(STATE_NONE, 0, 0, 0), EnterInit);
    assert Transition(STATE_NONE, STATE_INIT) == Ok(STATE_INIT);
    assert r1 == Run(STATE_INIT, 0, 0, 1);
    assert Transition(STATE_INIT, STATE_DISPOSED) == Ok(STATE_DISPOSED);
    assert Step(r1, Dispose) == Run(STATE_DISPOSED, 0, 0, 1);
    assert [EnterInit, Dispose][1..] == [Dispose];
    assert [Dispose][1..] == [];
  }

  lemma StepSafe(r: Run, op: Op)
    requires Safe(r)
    ensures Safe(Step(r, op))
  {
    match op
    case EnterFlag(sc) => EnterFlagSafe(r, sc);
    case ExitFlag(sc) => ExitFlagSafe(r, sc);
    case EnterInit =>
    case ExitInit(kind) => ExitInitSafe(r, kind);
    case CallInit =>
    case Dispose =>
  }

  lemma EnterFlagSafe(r: Run, sc: Scope)
    requires Safe(r)
    ensures Safe(Step(r, EnterFlag(sc)))
  {
    if sc.Reading? {
      EnterReadExactly(r.state);
    } else {
      EnterWriteExactly(r.state);
    }
  }

  lemma ExitFlagSafe(r: Run, sc: Scope)
    requires Safe(r)
    ensures Safe(Step(r, ExitFlag(sc)))
  {
    if Opened(r, sc) > 0 {
      ExitNeverRefused(r, sc);
    }
  }

  lemma ExitInitSafe(r: Run, kind: ExitKind)
    requires Safe(r)
    ensures Safe(Step(r, ExitInit(kind)))
  {
    if r.openInits > 0 {
      var t := TransExitTarget(kind, STATE_IDLE, STATE_NONE);
      if r.state == STATE_INIT {
        assert r.openReads == 0 && r.openWrites == 0;
        assert Transition(STATE_INIT, t) == Ok(t);
        assert t & FLAG_READ == 0 && t & FLAG_WRITE == 0;
      } else {
        assert r.state == STATE_DISPOSED;
        assert After(r.state, Transition(r.state, t)) == STATE_DISPOSED;
      }
    }
  }

  /** From a well-formed run, over any sequence of operations, the run stays
      well-formed: at most one read and at most one write are ever in
      progress, and (`ExitNeverRefused`) no read or write exit is refused. */
  lemma {:induction false} RunSafe(r: Run, ops: seq<Op>)
    requires Safe(r)
    ensures Safe(Steps(r, ops))
    decreases |ops|
  {
    if ops != [] {
      StepSafe(r, ops[0]);
      RunSafe(Step(r, ops[0]), ops[1..]);
    }
  }

  lemma FreshStreamSafe(ops: seq<Op>)
    ensures var r := Steps(Run(STATE_NONE, 0, 0, 0), ops);
            r.openReads <= 1 && r.openWrites <= 1 && r.state in STATES
  {
    RunSafe(Run(STATE_NONE, 0, 0, 0), ops);
  }

  // ---------------------------------------------------------------------
  // The objects

  /** The state machine a stream owns (its code is not part of this model):
      it holds the current state and refuses a target that is not an edge. */
  class StateMachine {
    var state: StateBits

    ghost predicate Valid()
      reads this
    {
      state in STATES
    }

    constructor ()
      ensures Valid() && state == STATE_NONE
    {
      state := STATE_NONE;
    }

    /** `machine(target)`. */
    method Call(target: StateBits) returns (o: Outcome)
      requires Valid()
      modifies this
      ensures Valid()
      ensures o.Pass? <==> Edge(old(state), target)
      ensures o.Pass? ==> state == target
      ensures o.Fail? ==> o.error == InvalidTransition(old(state), target) && state == old(state)
    {
      if Edge(state, target) {
        GraphClosed(state, target);
        state := target;
        o := Pass;
      } else {
        o := Fail(InvalidTransition(state, target));
      }
    }
  }

  /** `StateFlagScope`: holds `flag` in the machine's state for the duration
      of a `with` block, unless a `disp` bit is set. */
  class StateFlagScope {
    const machine: StateMachine
    const flag: StateBits
    const disp: StateBits

    constructor (machine: StateMachine, flag: StateBits, disp: StateBits)
      ensures this.machine == machine && this.flag == flag && this.disp == disp
    {
      this.machine, this.flag, this.disp := machine, flag, disp;
    }

    method Enter() returns (o: Outcome)
      requires machine.Valid()
      modifies machine
      ensures machine.Valid()
      ensures var e := FlagEnter(old(machine.state), flag, disp);
              o == (if e.Ok? then Pass else Fail(e.error)) && machine.state == After(old(machine.state), e)
    {
      if machine.state & disp != 0 {
        return Fail(BrokenPipe(true));
      }
      o := machine.Call(machine.state | flag);
    }

    method Exit() returns (o: Outcome)
      requires machine.Valid()
      modifies machine
      ensures machine.Valid()
      ensures var e := FlagExit(old(machine.state), flag);
              o == (if e.Ok? then Pass else Fail(e.error)) && machine.state == After(old(machine.state), e)
    {
      o := machine.Call(machine.state & !flag);
    }

    /** `bool(scope)`: whether the flag is held. */
    function IsSet(): (b: bool)
      reads machine
      ensures b ==> machine.state != STATE_NONE
    {
      machine.state & flag != 0
    }
  }

  /** `StateTransScope`: moves to `scopeSt` for a `with` block, then to
      `succSt`, or to `failSt` when an Exception ends the block. */
  class StateTransScope {
    const machine: StateMachine
    const scopeSt: StateBits
    const succSt: StateBits
    const failSt: StateBits

    constructor (machine: StateMachine, scopeSt: StateBits, succSt: StateBits, failSt: StateBits)
      ensures this.machine == machine && this.scopeSt == scopeSt && this.succSt == succSt && this.failSt == failSt
    {
      this.machine, this.scopeSt, this.succSt, this.failSt := machine, scopeSt, succSt, failSt;
    }

    /** `scope()`: both transitions at once; the second is not tried when
      the first is refused. */
    method Call() returns (o: Outcome)
      requires machine.Valid()
      modifies machine
      ensures machine.Valid()
      ensures var first := Transition(old(machine.state), scopeSt);
              if first.Err? then o == Fail(first.error) && machine.state == old(machine.state)
              else var second := Transition(scopeSt, succSt);
                   o == (if second.Ok? then Pass else Fail(second.error)) && machine.state == After(scopeSt, second)
    {
      o := machine.Call(scopeSt);
      if o.Pass? {
        o := machine.Call(succSt);
      }
    }

    method Enter() returns (o: Outcome)
      requires machine.Valid()
      modifies machine
      ensures machine.Valid()
      ensures var e := Transition(old(machine.state), scopeSt);
              o == (if e.Ok? then Pass else Fail(e.error)) && machine.state == After(old(machine.state), e)
      ensures o.Pass? ==> IsActive()
      ensures o.Fail? ==> IsActive() == old(IsActive())
    {
      o := machine.Call(scopeSt);
    }

    method Exit(kind: ExitKind) returns (o: Outcome)
      requires machine.Valid()
      modifies machine
      ensures machine.Valid()
      ensures var e := Transition(old(machine.state), TransExitTarget(kind, succSt, failSt));
              o == (if e.Ok? then Pass else Fail(e.error)) && machine.state == After(old(machine.state), e)
      ensures o.Pass? && succSt != scopeSt && failSt != scopeSt ==> !IsActive()
      ensures o.Fail? ==> IsActive() == old(IsActive())
    {
      o := machine.Call(TransExitTarget(kind, succSt, failSt));
    }

    /** `bool(scope)`: whether the machine is in the scope state. */
    function IsActive(): (b: bool)
      reads machine
    {
      machine.state == scopeSt
    }
  }

  /** `Stream`: the machine and its three scopes. */
  class Stream {
    const machine: StateMachine
    const reading: StateFlagScope
    const writing: StateFlagScope
    const initing: StateTransScope

    ghost predicate Valid()
      reads this, machine
    {
      machine.Valid() &&
      reading.machine == machine && reading.flag == FLAG_READ && reading.disp == STATE_DISPOSED &&
      writing.machine == machine && writing.flag == FLAG_WRITE && writing.disp == STATE_DISPOSED &&
      initing.machine == machine && initing.scopeSt == STATE_INIT &&
      initing.succSt == STATE_IDLE && initing.failSt == STATE_NONE
    }

    constructor ()
      ensures Valid() && machine.state == STATE_NONE && fresh(machine)
    {
      var m := new StateMachine();
      machine := m;
      reading := new StateFlagScope(m, FLAG_READ, STATE_DISPOSED);
      writing := new StateFlagScope(m, FLAG_WRITE, STATE_DISPOSED);
      initing := new StateTransScope(m, STATE_INIT, STATE_IDLE, STATE_NONE);
    }

    /** `disposed`. */
    function Disposed(): (b: bool)
      reads this, machine
      requires Valid()
      ensures b ==> FlagEnter(machine.state, FLAG_READ, STATE_DISPOSED) == Err(BrokenPipe(true)) &&
                    FlagEnter(machine.state, FLAG_WRITE, STATE_DISPOSED) == Err(BrokenPipe(true))
      ensures !b ==> machine.state & STATE_DISPOSED == 0
    {
      machine.state == STATE_DISPOSED
    }

    /** `dispose()` (and `__exit__`): always legal, and idempotent. */
    method Dispose() returns (o: Outcome)
      requires Valid()
      modifies machine
      ensures Valid() && o == Pass && machine.state == STATE_DISPOSED && Disposed()
    {
      DisposedAbsorbing(machine.state, STATE_DISPOSED);
      o := machine.Call(STATE_DISPOSED);
    }
  }

  /** Every write of the script takes at least `n` bytes. */
  ghost predicate TakesAtLeast(accepts: seq<nat>, n: nat)
  {
    forall i :: 0 <= i < |accepts| ==> accepts[i] >= n
  }

  /** Every chunk still to be read is at most `n` bytes. */
  ghost predicate ChunksAtMost(pending: seq<Bytes>, n: nat)
  {
    forall i :: 0 <= i < |pending| ==> |pending[i]| <= n
  }

  /** The loop of `copy_to`: `copied` is everything read; `lost` is the
      chunk read but refused when `dest` broke. */
  method CopyLoop(src: Inner, dest: Inner, size: nat) returns (ghost copied: Bytes, ghost lost: Bytes)
    requires src != dest && src.Valid() && dest.Valid() && size >= 1
    modifies src, dest
    ensures src.Valid() && dest.Valid()
    ensures old(src.Content()) == copied + src.Content()
    ensures src.pending == [] || dest.accepts == []
    ensures lost == [] || dest.accepts == []
    ensures dest.flushes == old(dest.flushes)
    ensures ChunksAtMost(old(src.pending), size) && |old(dest.accepts)| > |old(src.pending)| ==> src.pending == [] && lost == []
    ensures TakesAtLeast(old(dest.accepts), size) ==> dest.written + lost == old(dest.written) + copied
  {
    ghost var content0, written0, accepts0, pending0 := src.Content(), dest.written, dest.accepts, src.pending;
    ghost var whole, small := TakesAtLeast(accepts0, size), ChunksAtMost(pending0, size);
    copied, lost := [], [];
    var go := true;
    while go
      invariant src.Valid() && dest.Valid()
      invariant content0 == copied + src.Content()
      invariant dest.flushes == old(dest.flushes)
      invariant go ==> lost == []
      invariant !go ==> src.pending == [] || dest.accepts == []
      invariant lost == [] || dest.accepts == []
      invariant whole ==> TakesAtLeast(dest.accepts, size) && dest.written + lost == written0 + copied
      invariant small ==> ChunksAtMost(src.pending, size) && |accepts0| - |dest.accepts| + |src.pending| <= |pending0|
      invariant small && !go && lost == [] ==> src.pending == [] || dest.accepts == []
      invariant |dest.accepts| <= |accepts0|
      decreases |src.Content()|, go
    {
      ghost var pendingBefore, acceptsBefore, writtenBefore := src.pending, dest.accepts, dest.written;
      ghost var chunk, refused;
      go, chunk, refused := CopyStep(src, dest, size);
      if small && pendingBefore != [] {
        assert |pendingBefore[0]| <= size;
      }
      if whole && pendingBefore != [] && acceptsBefore != [] {
        assert acceptsBefore[0] >= size;
        assert chunk[..|chunk|] == chunk;
      }
      if whole {
        assert writtenBefore == written0 + copied by {
          assert writtenBefore + lost == writtenBefore;
        }
        Assoc(written0, copied, chunk);
      }
      copied, lost := copied + chunk, refused;
    }
  }

  /** One round of the loop of `copy_to`: read a chunk of at most `size`,
      then write it; `go` is false once either raises BrokenPipeError, and
      `refused` is the chunk when the write raised. */
  method CopyStep(src: Inner, dest: Inner, size: nat) returns (go: bool, ghost chunk: Bytes, ghost refused: Bytes)
    requires src != dest && src.Valid() && dest.Valid() && size >= 1
    modifies src, dest
    ensures src.Valid() && dest.Valid()
    ensures old(src.Content()) == chunk + src.Content() && dest.flushes == old(dest.flushes)
    ensures old(src.pending) == [] ==>
              !go && chunk == [] && refused == [] && src.pending == [] &&
              dest.accepts == old(dest.accepts) && dest.written == old(dest.written)
    ensures old(src.pending) != [] ==>
              |src.Content()| < |old(src.Content())| &&
              chunk == old(src.pending)[0][..Min(size, |old(src.pending)[0]|)] &&
              (|old(src.pending)[0]| <= size ==> src.pending == old(src.pending)[1..]) &&
              |src.pending| <= |old(src.pending)|
    ensures old(src.pending) != [] && old(dest.accepts) == [] ==>
              !go && refused == chunk && dest.accepts == [] && dest.written == old(dest.written)
    ensures old(src.pending) != [] && old(dest.accepts) != [] ==>
              go && refused == [] && dest.accepts == old(dest.accepts)[1..] &&
              dest.written == old(dest.written) + chunk[..Min(old(dest.accepts)[0], |chunk|)]
  {
    var r := src.Read(size);
    if r.Err? {
      assert old(src.Content()) == [] + src.Content();
      return false, [], [];
    }
    var data := r.value;
    chunk := data;
    var n := dest.Write(data);
    if n.Err? {
      return false, chunk, chunk;
    }
    go, refused := true, [];
  }

  /** `copy_to(dest, bufsize)`: read chunks of at most `bufsize` (or the
      default when it is 0/None) and write each to `dest` until a read or a
      write raises BrokenPipeError, which ends the copy normally; then flush
      `dest` once. The count a write returns is not looked at, so with a
      destination that accepts short counts the untaken tails are dropped; a
      destination that takes every chunk whole receives what was read, all
      of it when its script outlasts the source's chunks. */
  method CopyTo(src: Inner, dest: Inner, bufsize: nat, defaultBufsize: nat)
    returns (o: Outcome, ghost copied: Bytes, ghost lost: Bytes)
    requires src != dest && src.Valid() && dest.Valid() && defaultBufsize >= 1
    modifies src, dest
    ensures src.Valid() && dest.Valid()
    ensures o.Pass? <==> !dest.flushFails
    ensures o.Fail? ==> o.error == BrokenPipe(false)
    ensures old(src.Content()) == copied + src.Content()
    ensures src.pending == [] || dest.accepts == []
    ensures lost == [] || dest.accepts == []
    ensures dest.flushes == old(dest.flushes) + 1
    ensures bufsize > 0 && ChunksAtMost(old(src.pending), bufsize) && |old(dest.accepts)| > |old(src.pending)| ==>
              src.pending == [] && copied == old(src.Content()) && lost == []
    ensures TakesAtLeast(old(dest.accepts), Max(bufsize, defaultBufsize)) ==>
              dest.written + lost == old(dest.written) + copied
  {
    var size := if bufsize == 0 then defaultBufsize else bufsize;
    assert TakesAtLeast(dest.accepts, Max(bufsize, defaultBufsize)) ==> TakesAtLeast(dest.accepts, size);
    copied, lost := CopyLoop(src, dest, size);
    o := dest.Flush();
  }

  /** The reader loop of the file test, `received.write(reader.read(1024))`
      until broken pipe, taken as `CopyTo`, which adds one final flush of
      the sink that does not change what it received. With the writes
      'one', ', two' and ', three' arriving as three chunks, the sink
      receives 'one, two, three'. */
  method CopyExample() returns (received: Bytes)
    ensures received == [111, 110, 101, 44, 32, 116, 119, 111, 44, 32, 116, 104, 114, 101, 101]  // b'one, two, three'
  {
    var one: Bytes := [111, 110, 101];
    var two: Bytes := [44, 32, 116, 119, 111];
    var three: Bytes := [44, 32, 116, 104, 114, 101, 101];
    var src := new Inner([one, two, three], [], false);
    var dest := new Inner([], [1024, 1024, 1024, 1024], false);
    FlattenThree(one, two, three);
    assert ChunksAtMost(src.pending, 1024);
    assert TakesAtLeast(dest.accepts, Max(1024, 1024));
    var o, copied, lost := CopyTo(src, dest, 1024, 1024);
    assert copied == one + two + three && lost == [];
    assert dest.written + [] == [] + copied;
    assert dest.written + [] == dest.written && [] + copied == copied;
    received := dest.written;
  }

  /** Three chunks join into their concatenation. */
  lemma FlattenThree(a: Bytes, b: Bytes, c: Bytes)
    ensures Flatten([a, b, c]) == a + b + c
  {
    assert [a, b, c] == [a] + [b] + [c];
    FlattenSnoc([a, b], c);
    FlattenSnoc([a], b);
    FlattenSingle(a);
  }
}
