/** The daemon's two threads: the check loop, which frees, rebuilds and publishes the text, and the
    HTTP server, which copies it. Every action below is one step of one thread; the threads' steps
    interleave in any way. The signal handlers are taken to run on the main thread, and `reload` not to
    be entered again while it runs. */
module Publish {
  import opened Bytes

  /** Who holds the mutex of `srv_buff`. */
  datatype Lock = Unlocked | ByMain | ByServer

  /** What `srv_buff->data` points to. */
  datatype Data = Unset | Constant | Buffer(id: nat)

  /** Where `main` is: starting up, in `ST_check_loop` with `ST_check_mtab`, or shutting down. */
  datatype MainPc =
    | InitChecker | InitServer | SetData | StartServer | InitLoop
    | LoopHead | TryLock | FreeText | MakeText | SetPointer | Unlock
    | StopServer | JoinServer | DestroyServer | DestroyChecker | Done

  /** The signal handler `reload`, which runs on top of the main thread. */
  datatype ReloadPc = NoReload | ReloadStop | ReloadJoin | ReloadStart

  /** Where the server thread is, in `serve`. */
  datatype ServerPc =
    | NoThread
    | Quit | Accept | TakeLock | LoadPointer
    | Copy(src: Data, got: bytes)
    | Release(copy: nat) | Respond(copy: nat) | FreeCopy(copy: nat)
    | Ended

  /** The text buffers that are allocated, the two structs, the locks, the three programs, the texts
      that have been made and sent so far, and whether anything has ever been read, freed or destroyed
      that must not have been. */
  datatype State = State(
    heap: map<nat, bytes>, entries: bool, srvBuff: bool,
    textural: nat, data: Data, lock: Lock, mxq: bool, stopped: bool, active: bool,
    main: MainPc, reload: ReloadPc, server: ServerPc, made: seq<bytes>, sent: seq<bytes>, fault: bool)

  /** What is left open by the program: whether HTTP is enabled, what `json_stringify` prints about the
      file systems, which address `malloc` returns, and what happens on the socket. */
  datatype Action =
    | Main(enabled: bool, print_: bytes, id: nat)
    | StopSignal
    | ReloadSignal
    | Reload(enabled: bool)
    | Server(outcome: Outcome, id: nat)

  datatype Outcome = Failed | NotGet | Get

  /** The two texts that are there from the beginning: what `srv_buff->data` is set to, and the print
      of no file systems. */
  const EMPTY_OBJECT: bytes := [0x7B, 0x7D]
  const EMPTY_ARRAY: bytes := [0x5B, 0x5D]

  function Init(): State {
    State(map[], false, false, 0, Unset, Unlocked, false, true, false, InitChecker, NoReload, NoThread, [], [], false)
  }

  predicate InLoop(pc: MainPc) {
    pc == LoopHead || pc == TryLock || pc == FreeText || pc == MakeText || pc == SetPointer || pc == Unlock
  }

  function Faulty(s: State): State {
    s.(fault := true)
  }

  /** `free` of a text buffer. */
  function Freed(s: State, id: nat): State {
    if id in s.heap then s.(heap := s.heap - {id}) else Faulty(s)
  }

  /** `ST_start_srv`. */
  function Started(s: State, enabled: bool): State {
    if s.stopped && enabled then
      (if s.server == NoThread then s else Faulty(s)).(mxq := true, server := Quit, stopped := false)
    else s
  }

  /** One step of `main`, of the functions it calls, or None where it has to wait. */
  function MainStep(s: State, enabled: bool, print_: bytes, id: nat): Option<State> {
    if s.reload != NoReload then None else
    match s.main
    case InitChecker =>
      if id in s.heap then None
      else Some(s.(entries := true, textural := id, heap := s.heap[id := EMPTY_ARRAY], main := InitServer))
    case InitServer => Some(s.(srvBuff := true, main := SetData))
    case SetData => Some(s.(data := Constant, main := StartServer))
    case StartServer => Some(Started(s, enabled).(main := InitLoop))
    case InitLoop => Some(s.(active := true, main := LoopHead))
    case LoopHead => Some(s.(main := if s.active then TryLock else StopServer))
    case TryLock => Some(if s.lock == Unlocked then s.(lock := ByMain, main := FreeText) else s.(main := LoopHead))
    case FreeText => Some(Freed(s, s.textural).(main := MakeText))
    case MakeText =>
      if id in s.heap then None
      else Some(s.(textural := id, heap := s.heap[id := print_], made := s.made + [print_], main := SetPointer))
    case SetPointer => Some(s.(data := Buffer(s.textural), main := Unlock))
    case Unlock => Some(s.(lock := Unlocked, main := LoopHead))
    case StopServer => Some(if s.stopped then s.(main := DestroyServer) else s.(mxq := false, main := JoinServer))
    case JoinServer => if s.server == Ended then Some(s.(server := NoThread, stopped := true, main := DestroyServer)) else None
    case DestroyServer =>
      Some((if s.srvBuff && s.lock == Unlocked then s else Faulty(s)).(srvBuff := false, main := DestroyChecker))
    case DestroyChecker =>
      Some((if s.entries then Freed(s, s.textural) else Faulty(s)).(entries := false, main := Done))
    case Done => None
  }

  /** One step of the handler `reload`. */
  function ReloadStep(s: State, enabled: bool): Option<State> {
    match s.reload
    case NoReload => None
    case ReloadStop => Some(if s.stopped then s.(reload := ReloadStart) else s.(mxq := false, reload := ReloadJoin))
    case ReloadJoin => if s.server == Ended then Some(s.(server := NoThread, stopped := true, reload := ReloadStart)) else None
    case ReloadStart => Some(Started(s, enabled).(reload := NoReload))
  }

  /** What a pointer leads to, or None if that is no longer, or not yet, allocated. */
  function TextOf(s: State, d: Data): Option<bytes> {
    match d
    case Unset => None
    case Constant => Some(EMPTY_OBJECT)
    case Buffer(id) => if id in s.heap then Some(s.heap[id]) else None
  }

  /** One step of `serve`. The copy is made byte by byte. */
  function ServerStep(s: State, outcome: Outcome, id: nat): Option<State> {
    match s.server
    case NoThread => None
    case Quit => Some(s.(server := if s.mxq then Accept else Ended))
    case Accept =>
      Some(s.(server := match outcome case Failed => Ended case NotGet => Quit case Get => TakeLock))
    case TakeLock =>
      if s.lock != Unlocked then None
      else Some((if s.srvBuff then s else Faulty(s)).(lock := ByServer, server := LoadPointer))
    case LoadPointer =>
      Some((if s.srvBuff && s.data != Unset then s else Faulty(s)).(server := Copy(s.data, [])))
    case Copy(src, got) =>
      if TextOf(s, src).None? || |got| > |TextOf(s, src).value| then
        Some(Faulty(s).(server := Ended))
      else if |got| < |TextOf(s, src).value| then
        Some(s.(server := Copy(src, got + [TextOf(s, src).value[|got|]])))
      else if id in s.heap then
        None
      else
        Some(s.(heap := s.heap[id := got], server := Release(id)))
    case Release(copy) =>
      Some((if s.srvBuff then s else Faulty(s)).(lock := Unlocked, server := Respond(copy)))
    case Respond(copy) =>
      if copy in s.heap then Some(s.(sent := s.sent + [s.heap[copy]], server := FreeCopy(copy)))
      else Some(Faulty(s).(server := Ended))
    case FreeCopy(copy) => Some(Freed(s, copy).(server := Quit))
    case Ended => None
  }

  function Step(s: State, a: Action): Option<State> {
    match a
    case Main(enabled, print_, id) => MainStep(s, enabled, print_, id)
    case StopSignal => Some(s.(active := false))
    case ReloadSignal => if InLoop(s.main) && s.reload == NoReload then Some(s.(reload := ReloadStop)) else None
    case Reload(enabled) => ReloadStep(s, enabled)
    case Server(outcome, id) => ServerStep(s, outcome, id)
  }

  /** A whole run, in any interleaving; an action that is not possible makes it none. */
  function Run(s: State, actions: seq<Action>): Option<State>
    decreases |actions|
  {
    if actions == [] then Some(s)
    else
      var t := Step(s, actions[0]);
      if t.None? then None else Run(t.value, actions[1..])
  }

  // What every step keeps

  predicate IsStarting(pc: MainPc) {
    pc == InitChecker || pc == InitServer || pc == SetData || pc == StartServer || pc == InitLoop
  }

  predicate IsOver(pc: MainPc) {
    pc == DestroyServer || pc == DestroyChecker || pc == Done
  }

  /** The texts that may be served: the two from the beginning, and those made since. */
  predicate Good(s: State, t: bytes) {
    t == EMPTY_OBJECT || t == EMPTY_ARRAY || t in s.made
  }

  predicate HasText(pc: MainPc) {
    pc != InitChecker && pc != MakeText && pc != Done
  }

  function Owned(s: State): set<nat> {
    (if HasText(s.main) then {s.textural} else {}) +
    (if s.server.Release? || s.server.Respond? || s.server.FreeCopy? then {s.server.copy} else {})
  }

  ghost predicate Locks(s: State) {
    && (s.lock == ByMain <==> s.main == FreeText || s.main == MakeText || s.main == SetPointer || s.main == Unlock)
    && (s.lock == ByServer <==> s.server == LoadPointer || s.server.Copy? || s.server.Release?)
    && (s.stopped <==> s.server == NoThread)
    && (s.reload != NoReload ==> InLoop(s.main))
  }

  ghost predicate Structs(s: State) {
    && (s.entries <==> s.main != InitChecker && s.main != Done)
    && (s.srvBuff <==> s.main != InitChecker && s.main != InitServer && s.main != DestroyChecker && s.main != Done)
    && (s.main == InitChecker || s.main == InitServer || s.main == SetData || s.main == StartServer || IsOver(s.main)
        ==> s.server == NoThread)
    && (s.srvBuff && s.main != SetData && s.lock != ByMain ==> s.data == Constant || s.data == Buffer(s.textural))
    && (s.main == Unlock ==> s.data == Buffer(s.textural))
    && (s.main == InitChecker || s.main == InitServer || s.main == SetData ==> s.data == Unset)
  }

  ghost predicate Texts(s: State) {
    && s.heap.Keys == Owned(s)
    && ((s.server.Release? || s.server.Respond? || s.server.FreeCopy?) && HasText(s.main) ==> s.server.copy != s.textural)
    && (forall id <- s.heap :: Good(s, s.heap[id]))
    && (forall k | 0 <= k < |s.sent| :: Good(s, s.sent[k]))
    && (s.server.Copy? ==> s.server.src == s.data && TextOf(s, s.data).Some? && s.server.got <= TextOf(s, s.data).value)
  }

  ghost predicate Inv(s: State) {
    !s.fault && Locks(s) && Structs(s) && Texts(s)
  }

  lemma InitIsSafe()
    ensures Inv(Init())
  {
  }

  /** Starting up. */
  lemma StartingIsSafe(s: State, enabled: bool, print_: bytes, id: nat)
    requires Inv(s) && (IsStarting(s.main)) && MainStep(s, enabled, print_, id).Some?
    ensures Inv(MainStep(s, enabled, print_, id).value)
  {
  }

  /** The check loop while it does not hold the mutex, */
  lemma LoopHeadIsSafe(s: State, enabled: bool, print_: bytes, id: nat)
    requires Inv(s) && s.main == LoopHead && MainStep(s, enabled, print_, id).Some?
    ensures Inv(MainStep(s, enabled, print_, id).value)
  {
  }

  /** and its attempt to get it, which does not wait. */
  lemma TryLockIsSafe(s: State, enabled: bool, print_: bytes, id: nat)
    requires Inv(s) && s.main == TryLock && MainStep(s, enabled, print_, id).Some?
    ensures Inv(MainStep(s, enabled, print_, id).value)
  {
  }

  /** `ST_check_mtab`: the old text is freed and a new one made. */
  lemma FreeingIsSafe(s: State, enabled: bool, print_: bytes, id: nat)
    requires Inv(s) && (s.main == FreeText || s.main == MakeText) && MainStep(s, enabled, print_, id).Some?
    ensures Inv(MainStep(s, enabled, print_, id).value)
  {
  }

  /** The new text is published. */
  lemma PublishingIsSafe(s: State, enabled: bool, print_: bytes, id: nat)
    requires Inv(s) && (s.main == SetPointer || s.main == Unlock) && MainStep(s, enabled, print_, id).Some?
    ensures Inv(MainStep(s, enabled, print_, id).value)
  {
  }

  /** The server is stopped and waited for. */
  lemma StoppingIsSafe(s: State, enabled: bool, print_: bytes, id: nat)
    requires Inv(s) && (s.main == StopServer || s.main == JoinServer) && MainStep(s, enabled, print_, id).Some?
    ensures Inv(MainStep(s, enabled, print_, id).value)
  {
  }

  /** Everything is given back. */
  lemma DestroyingIsSafe(s: State, enabled: bool, print_: bytes, id: nat)
    requires Inv(s) && (s.main == DestroyServer || s.main == DestroyChecker) && MainStep(s, enabled, print_, id).Some?
    ensures Inv(MainStep(s, enabled, print_, id).value)
  {
  }

  /** The server while it does not use the text. */
  lemma IdleIsSafe(s: State, outcome: Outcome, id: nat)
    requires Inv(s) && (s.server == Quit || s.server == Accept) && ServerStep(s, outcome, id).Some?
    ensures Inv(ServerStep(s, outcome, id).value)
  {
  }

  /** It takes the mutex and follows the pointer. */
  lemma LoadingIsSafe(s: State, outcome: Outcome, id: nat)
    requires Inv(s) && (s.server == TakeLock || s.server == LoadPointer) && ServerStep(s, outcome, id).Some?
    ensures Inv(ServerStep(s, outcome, id).value)
  {
  }

  /** It copies the text byte by byte, */
  lemma CopyingIsSafe(s: State, outcome: Outcome, id: nat)
    requires Inv(s) && s.server.Copy? && |s.server.got| < |TextOf(s, s.data).value|
    ensures ServerStep(s, outcome, id).Some? && Inv(ServerStep(s, outcome, id).value)
  {
    var got, text := s.server.got, TextOf(s, s.data).value;
    assert got + [text[|got|]] <= text;
  }

  /** until there is nothing left of it. */
  lemma CopiedIsSafe(s: State, outcome: Outcome, id: nat)
    requires Inv(s) && s.server.Copy? && |s.server.got| == |TextOf(s, s.data).value|
    requires ServerStep(s, outcome, id).Some?
    ensures Inv(ServerStep(s, outcome, id).value)
    ensures ServerStep(s, outcome, id) == Some(s.(heap := s.heap[id := TextOf(s, s.data).value], server := Release(id)))
  {
    assert s.server.got == TextOf(s, s.data).value;
  }

  /** It lets go of the mutex, sends its copy and frees it. */
  lemma SendingIsSafe(s: State, outcome: Outcome, id: nat)
    requires Inv(s) && (s.server.Release? || s.server.Respond? || s.server.FreeCopy?) && ServerStep(s, outcome, id).Some?
    ensures Inv(ServerStep(s, outcome, id).value)
  {
  }

  /** The handler stops the server and waits for it, wherever the loop has been interrupted, */
  lemma ReloadStopIsSafe(s: State, enabled: bool)
    requires Inv(s) && (s.reload == ReloadStop || s.reload == ReloadJoin) && ReloadStep(s, enabled).Some?
    ensures Inv(ReloadStep(s, enabled).value)
  {
  }

  /** and starts it again. */
  lemma ReloadStartIsSafe(s: State, enabled: bool)
    requires Inv(s) && s.reload == ReloadStart && ReloadStep(s, enabled).Some?
    ensures Inv(ReloadStep(s, enabled).value)
  {
  }

  lemma StepIsSafe(s: State, a: Action)
    requires Inv(s) && Step(s, a).Some?
    ensures Inv(Step(s, a).value) == true
  {
    match a
    case Main(enabled, print_, id) =>
      if IsStarting(s.main) {
        StartingIsSafe(s, enabled, print_, id);
      } else if s.main == LoopHead {
        LoopHeadIsSafe(s, enabled, print_, id);
      } else if s.main == TryLock {
        TryLockIsSafe(s, enabled, print_, id);
      } else if s.main == FreeText || s.main == MakeText {
        FreeingIsSafe(s, enabled, print_, id);
      } else if s.main == SetPointer || s.main == Unlock {
        PublishingIsSafe(s, enabled, print_, id);
      } else if s.main == StopServer || s.main == JoinServer {
        StoppingIsSafe(s, enabled, print_, id);
      } else {
        DestroyingIsSafe(s, enabled, print_, id);
      }
    case StopSignal =>
    case ReloadSignal =>
    case Reload(enabled) =>
      if s.reload == ReloadStart {
        ReloadStartIsSafe(s, enabled);
      } else {
        ReloadStopIsSafe(s, enabled);
      }
    case Server(outcome, id) =>
      if s.server == Quit || s.server == Accept {
        IdleIsSafe(s, outcome, id);
      } else if s.server == TakeLock || s.server == LoadPointer {
        LoadingIsSafe(s, outcome, id);
      } else if s.server.Copy? {
        if |s.server.got| < |TextOf(s, s.data).value| {
          CopyingIsSafe(s, outcome, id);
        } else {
          CopiedIsSafe(s, outcome, id);
        }
      } else {
        SendingIsSafe(s, outcome, id);
      }
  }

  lemma {:induction false} RunIsSafe(s: State, actions: seq<Action>)
    requires Inv(s) && Run(s, actions).Some?
    ensures Inv(Run(s, actions).value) == true
    decreases |actions|
  {
    if actions != [] {
      StepIsSafe(s, actions[0]);
      RunIsSafe(Step(s, actions[0]).value, actions[1..]);
    }
  }

  // The main results

  /** Whenever the check loop does not hold the mutex, the published pointer leads to the constant or
      to the current text. */
  ghost predicate Published(s: State) {
    s.srvBuff && s.data != Unset && s.lock != ByMain ==>
      TextOf(s, s.data).Some? && (s.data == Constant || s.data == Buffer(s.textural))
  }

  lemma InvIsPublished(s: State)
    requires Inv(s)
    ensures Published(s)
  {
  }

  /** In every interleaving, whatever signals the main thread handles, one at a time, while the check
      loop runs: nothing that has been freed is read, freed again or destroyed, the published pointer
      leads to a text that is there, and only whole texts are sent. */
  lemma PublicationIsSafe(actions: seq<Action>)
    requires Run(Init(), actions).Some?
    ensures var s := Run(Init(), actions).value;
      !s.fault && Published(s) == true && forall k | 0 <= k < |s.sent| :: Good(s, s.sent[k])
  {
    InitIsSafe();
    RunIsSafe(Init(), actions);
    InvIsPublished(Run(Init(), actions).value);
  }

  /** When `main` is through, no text and neither struct is left, and no thread. */
  lemma NothingIsLeft(actions: seq<Action>)
    requires Run(Init(), actions).Some? && Run(Init(), actions).value.main == Done
    ensures var s := Run(Init(), actions).value;
      s.heap == map[] && !s.entries && !s.srvBuff && s.server == NoThread && s.lock == Unlocked
  {
    InitIsSafe();
    RunIsSafe(Init(), actions);
  }

  /** The server leaves its loop over the text only with a copy of what is published at that moment. */
  lemma CopyIsCurrent(actions: seq<Action>, s: State, outcome: Outcome, id: nat, t: State)
    requires Run(Init(), actions) == Some(s) && s.server.Copy?
    requires ServerStep(s, outcome, id) == Some(t) && !t.server.Copy?
    ensures TextOf(s, s.data).Some? && t == s.(heap := s.heap[id := TextOf(s, s.data).value], server := Release(id))
  {
    InitIsSafe();
    RunIsSafe(Init(), actions);
    CopiedIsSafe(s, outcome, id);
  }

  /** Every text that has been made is what some step of the main thread has printed. */
  lemma {:induction false} MadeIsPrinted(s: State, actions: seq<Action>, t: bytes)
    requires Run(s, actions).Some? && t in Run(s, actions).value.made
    ensures t in s.made || exists i | 0 <= i < |actions| :: actions[i].Main? && actions[i].print_ == t
    decreases |actions|
  {
    if actions != [] {
      var next, rest := Step(s, actions[0]).value, actions[1..];
      MadeIsPrinted(next, rest, t);
      MadeInStep(s, actions[0], t);
      if t !in next.made {
        var i :| 0 <= i < |rest| && rest[i].Main? && rest[i].print_ == t;
        assert actions[i + 1] == rest[i];
      }
    }
  }

  lemma MadeInStep(s: State, a: Action, t: bytes)
    requires Step(s, a).Some?
    ensures t in Step(s, a).value.made ==> t in s.made || (a.Main? && a.print_ == t)
  {
    match a
    case Main(enabled, print_, id) =>
      if s.main == MakeText {
        assert MainStep(s, enabled, print_, id).value.made == s.made + [print_];
      } else {
        MainMakesNothing(s, enabled, print_, id);
      }
    case StopSignal =>
    case ReloadSignal =>
    case Reload(enabled) => ReloadMakesNothing(s, enabled);
    case Server(outcome, id) => ServerMakesNothing(s, outcome, id);
  }

  lemma MainMakesNothing(s: State, enabled: bool, print_: bytes, id: nat)
    requires s.main != MakeText && MainStep(s, enabled, print_, id).Some?
    ensures MainStep(s, enabled, print_, id).value.made == s.made
  {
    var t := MainStep(s, enabled, print_, id).value;
    match s.main
    case InitChecker => assert t.made == s.made;
    case InitServer => assert t.made == s.made;
    case SetData => assert t.made == s.made;
    case StartServer => assert t.made == s.made;
    case InitLoop => assert t.made == s.made;
    case LoopHead => assert t.made == s.made;
    case TryLock => assert t.made == s.made;
    case FreeText => assert t.made == s.made;
    case SetPointer => assert t.made == s.made;
    case Unlock => assert t.made == s.made;
    case StopServer => assert t.made == s.made;
    case JoinServer => assert t.made == s.made;
    case DestroyServer => assert t.made == s.made;
    case DestroyChecker => assert t.made == s.made;
  }

  lemma ReloadMakesNothing(s: State, enabled: bool)
    requires ReloadStep(s, enabled).Some?
    ensures ReloadStep(s, enabled).value.made == s.made
  {
  }

  /** The server leaves everything alone but the heap, the mutex and what it has sent. */
  ghost predicate ServerOnly(s: State, t: State) {
    t == s.(heap := t.heap, lock := t.lock, server := t.server, sent := t.sent, fault := t.fault)
  }

  lemma ServerMakesNothing(s: State, outcome: Outcome, id: nat)
    requires ServerStep(s, outcome, id).Some?
    ensures ServerOnly(s, ServerStep(s, outcome, id).value) == true
  {
    match s.server
    case Quit =>
    case Accept =>
    case TakeLock =>
    case LoadPointer =>
    case Copy(_, _) => CopyMakesNothing(s, outcome, id);
    case Release(_) => ReleaseMakesNothing(s, outcome, id);
    case Respond(_) => RespondMakesNothing(s, outcome, id);
    case FreeCopy(_) => FreeMakesNothing(s, outcome, id);
  }

  lemma CopyMakesNothing(s: State, outcome: Outcome, id: nat)
    requires s.server.Copy? && ServerStep(s, outcome, id).Some?
    ensures ServerOnly(s, ServerStep(s, outcome, id).value) == true
  {
    var t, text, got := ServerStep(s, outcome, id).value, TextOf(s, s.server.src), s.server.got;
    if text.None? || |got| > |text.value| {
      assert t == s.(fault := true, server := Ended);
    } else if |got| < |text.value| {
      assert t == s.(server := t.server);
    } else {
      assert t == s.(heap := t.heap, server := t.server);
    }
  }

  lemma ReleaseMakesNothing(s: State, outcome: Outcome, id: nat)
    requires s.server.Release? && ServerStep(s, outcome, id).Some?
    ensures ServerOnly(s, ServerStep(s, outcome, id).value)
  {
  }

  lemma RespondMakesNothing(s: State, outcome: Outcome, id: nat)
    requires s.server.Respond? && ServerStep(s, outcome, id).Some?
    ensures ServerOnly(s, ServerStep(s, outcome, id).value)
  {
  }

  lemma FreeMakesNothing(s: State, outcome: Outcome, id: nat)
    requires s.server.FreeCopy? && ServerStep(s, outcome, id).Some?
    ensures ServerOnly(s, ServerStep(s, outcome, id).value)
  {
  }

  // That there is something to keep

  ghost predicate Leads(s: State, t: State) {
    exists actions :: Run(s, actions) == Some(t)
  }

  lemma {:induction false} RunBoth(s: State, a: seq<Action>, b: seq<Action>)
    requires Run(s, a).Some?
    ensures Run(s, a + b) == Run(Run(s, a).value, b)
    decreases |a|
  {
    if a == [] {
      assert a + b == b;
    } else {
      assert (a + b)[1..] == a[1..] + b;
      RunBoth(Step(s, a[0]).value, a[1..], b);
    }
  }

  lemma Follow(s: State, r: State, a: Action, t: State)
    requires Leads(s, r) && Step(r, a) == Some(t)
    ensures Leads(s, t) == true
  {
    var actions :| Run(s, actions) == Some(r);
    RunBoth(s, actions, [a]);
    assert [a][1..] == [];
  }

  /** Started up, with the server running, and at the head of the check loop. */
  function Running(): State {
    Init().(entries := true, textural := 1, heap := map[1 := EMPTY_ARRAY], srvBuff := true, data := Constant,
            mxq := true, server := Quit, stopped := false, active := true, main := LoopHead)
  }

  lemma CanStart()
    ensures Leads(Init(), Running())
  {
    var a := Main(true, [], 1);
    assert Run(Init(), []) == Some(Init());
    var s1 := Init().(entries := true, textural := 1, heap := map[1 := EMPTY_ARRAY], main := InitServer);
    Follow(Init(), Init(), a, s1);
    var s2 := s1.(srvBuff := true, main := SetData);
    Follow(Init(), s1, a, s2);
    var s3 := s2.(data := Constant, main := StartServer);
    Follow(Init(), s2, a, s3);
    var s4 := s3.(mxq := true, server := Quit, stopped := false, main := InitLoop);
    Follow(Init(), s3, a, s4);
    Follow(Init(), s4, a, Running());
  }

  /** One text has been made and published since. */
  function Fresh(text: bytes): State {
    Running().(textural := 2, heap := map[2 := text], made := [text], data := Buffer(2))
  }

  /** The check loop has the mutex, and the old text is gone. */
  function Emptied(): State {
    Running().(lock := ByMain, heap := map[], main := MakeText)
  }

  lemma CanFree()
    ensures Leads(Init(), Emptied())
  {
    CanStart();
    var a, s0 := Main(true, [], 2), Running();
    var s1 := s0.(main := TryLock);
    Follow(Init(), s0, a, s1);
    var s2 := s1.(lock := ByMain, main := FreeText);
    Follow(Init(), s1, a, s2);
    assert s2.heap - {1} == map[];
    Follow(Init(), s2, a, Emptied());
  }

  lemma CanPublish(text: bytes)
    ensures Leads(Init(), Fresh(text))
  {
    CanFree();
    var a, s3 := Main(true, text, 2), Emptied();
    assert s3.heap[2 := text] == map[2 := text] && s3.made + [text] == [text];
    var s4 := s3.(textural := 2, heap := map[2 := text], made := [text], main := SetPointer);
    Follow(Init(), s3, a, s4);
    var s5 := s4.(data := Buffer(2), main := Unlock);
    Follow(Init(), s4, a, s5);
    Follow(Init(), s5, a, Fresh(text));
  }

  /** The server has copied `k` bytes. */
  function Copying(text: bytes, k: nat): State
    requires k <= |text|
  {
    Fresh(text).(lock := ByServer, server := Copy(Buffer(2), text[..k]))
  }

  lemma {:induction false} CanCopy(text: bytes, k: nat)
    requires k <= |text|
    ensures Leads(Fresh(text), Copying(text, k))
  {
    var a, s0 := Server(Get, 3), Fresh(text);
    if k == 0 {
      assert Run(s0, []) == Some(s0);
      var s1 := s0.(server := Accept);
      Follow(Fresh(text), s0, a, s1);
      var s2 := s1.(server := TakeLock);
      Follow(Fresh(text), s1, a, s2);
      var s3 := s2.(lock := ByServer, server := LoadPointer);
      Follow(Fresh(text), s2, a, s3);
      Follow(Fresh(text), s3, a, Copying(text, 0));
    } else {
      CanCopy(text, k - 1);
      assert text[..k] == text[..k - 1] + [text[k - 1]];
      Follow(Fresh(text), Copying(text, k - 1), a, Copying(text, k));
    }
  }

  lemma CanRespond(text: bytes)
    ensures Leads(Fresh(text), Fresh(text).(heap := map[2 := text, 3 := text], server := Respond(3)))
  {
    var a, s0 := Server(Get, 3), Copying(text, |text|);
    CanCopy(text, |text|);
    assert text[..|text|] == text;
    var s1 := s0.(heap := map[2 := text, 3 := text], server := Release(3));
    Follow(Fresh(text), s0, a, s1);
    Follow(Fresh(text), s1, a, s1.(lock := Unlocked, server := Respond(3)));
  }

  lemma CanServe(text: bytes)
    ensures Leads(Fresh(text), Fresh(text).(sent := [text]))
  {
    var a, s2 := Server(Get, 3), Fresh(text).(heap := map[2 := text, 3 := text], server := Respond(3));
    CanRespond(text);
    assert s2.heap[3] == text && s2.sent + [text] == [text];
    var s3 := s2.(sent := [text], server := FreeCopy(3));
    Follow(Fresh(text), s2, a, s3);
    assert s3.heap - {3} == map[2 := text];
    Follow(Fresh(text), s3, a, Fresh(text).(sent := [text]));
  }

  /** Told to stop, with the server running until then. */
  lemma CanStop(text: bytes) returns (s: State)
    ensures Leads(Fresh(text), s) && s == Fresh(text).(sent := [text], active := false, mxq := false, stopped := true,
                                              server := NoThread, main := DestroyServer)
  {
    CanServe(text);
    var m, s0 := Main(true, text, 2), Fresh(text).(sent := [text]);
    var s1 := s0.(active := false);
    Follow(Fresh(text), s0, StopSignal, s1);
    var s2 := s1.(main := StopServer);
    Follow(Fresh(text), s1, m, s2);
    var s3 := s2.(mxq := false, main := JoinServer);
    Follow(Fresh(text), s2, m, s3);
    var s4 := s3.(server := Ended);
    Follow(Fresh(text), s3, Server(Get, 3), s4);
    s := s4.(server := NoThread, stopped := true, main := DestroyServer);
    Follow(Fresh(text), s4, m, s);
  }

  /** From then on, the text can be sent, and the daemon can shut down after that. */
  lemma CanFinish(text: bytes) returns (actions: seq<Action>)
    ensures var r := Run(Fresh(text), actions);
      r.Some? && r.value.main == Done && r.value.sent == [text]
  {
    var m := Main(true, text, 2);
    var s5 := CanStop(text);
    var s6 := s5.(srvBuff := false, main := DestroyChecker);
    Follow(Fresh(text), s5, m, s6);
    assert s6.heap - {2} == map[];
    var s7 := s6.(entries := false, heap := map[], main := Done);
    Follow(Fresh(text), s6, m, s7);
    actions :| Run(Fresh(text), actions) == Some(s7);
  }

  /** Every text can be made, published and sent. */
  lemma CanGetThrough(text: bytes) returns (actions: seq<Action>)
    ensures var r := Run(Init(), actions);
      r.Some? && r.value.main == Done && r.value.sent == [text]
  {
    CanPublish(text);
    var before :| Run(Init(), before) == Some(Fresh(text));
    var after := CanFinish(text);
    RunBoth(Init(), before, after);
    actions := before + after;
  }
}
