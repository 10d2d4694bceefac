/** What the runs of the daemon do, besides being safe: which texts are sent and to whom, and what
    stopping, starting and reloading come to. */
module PublishRuns {
  import opened Bytes
  import opened Publish

  // The text that is published is the newest one

  /** The last text that has been made, or else the one that `srv_buff` is set to in the beginning. */
  function Newest(s: State): bytes {
    if s.made == [] then EMPTY_OBJECT else s.made[|s.made| - 1]
  }

  /** While the check loop does not hold the mutex, the newest text is published. */
  ghost predicate NewestIsOut(s: State) {
    && (s.srvBuff && s.data != Unset && s.lock != ByMain ==> TextOf(s, s.data) == Some(Newest(s)))
    && (s.main == SetPointer || s.main == Unlock ==> s.made != [] && TextOf(s, Buffer(s.textural)) == Some(Newest(s)))
    && (IsStarting(s.main) ==> s.made == [])
  }

  lemma StartingKeepsNewest(s: State, enabled: bool, print_: bytes, id: nat)
    requires Inv(s) && NewestIsOut(s) && IsStarting(s.main) && MainStep(s, enabled, print_, id).Some?
    ensures NewestIsOut(MainStep(s, enabled, print_, id).value)
  {
  }

  lemma MakingKeepsNewest(s: State, enabled: bool, print_: bytes, id: nat)
    requires Inv(s) && NewestIsOut(s) && (s.main == MakeText || s.main == SetPointer || s.main == Unlock)
    requires MainStep(s, enabled, print_, id).Some?
    ensures NewestIsOut(MainStep(s, enabled, print_, id).value)
  {
  }

  lemma HeadKeepsNewest(s: State, enabled: bool, print_: bytes, id: nat)
    requires Inv(s) && NewestIsOut(s) && (s.main == LoopHead || s.main == TryLock)
    requires MainStep(s, enabled, print_, id).Some?
    ensures NewestIsOut(MainStep(s, enabled, print_, id).value)
  {
  }

  lemma FreeingKeepsNewest(s: State, enabled: bool, print_: bytes, id: nat)
    requires Inv(s) && NewestIsOut(s) && s.main == FreeText && MainStep(s, enabled, print_, id).Some?
    ensures NewestIsOut(MainStep(s, enabled, print_, id).value)
  {
  }

  lemma EndingKeepsNewest(s: State, enabled: bool, print_: bytes, id: nat)
    requires Inv(s) && NewestIsOut(s) && !IsStarting(s.main) && !InLoop(s.main) && MainStep(s, enabled, print_, id).Some?
    ensures NewestIsOut(MainStep(s, enabled, print_, id).value)
  {
  }

  lemma MainKeepsNewest(s: State, enabled: bool, print_: bytes, id: nat)
    requires Inv(s) && NewestIsOut(s) && MainStep(s, enabled, print_, id).Some?
    ensures NewestIsOut(MainStep(s, enabled, print_, id).value) == true
  {
    if IsStarting(s.main) {
      StartingKeepsNewest(s, enabled, print_, id);
    } else if s.main == MakeText || s.main == SetPointer || s.main == Unlock {
      MakingKeepsNewest(s, enabled, print_, id);
    } else if s.main == FreeText {
      FreeingKeepsNewest(s, enabled, print_, id);
    } else if InLoop(s.main) {
      HeadKeepsNewest(s, enabled, print_, id);
    } else {
      EndingKeepsNewest(s, enabled, print_, id);
    }
  }

  lemma HeapKeepsNewest(s: State, t: State)
    requires Inv(s) && NewestIsOut(s)
    requires t.made == s.made && t.data == s.data && t.main == s.main && t.srvBuff == s.srvBuff && t.textural == s.textural
    requires t.lock == ByMain <==> s.lock == ByMain
    requires HasText(s.main) ==> s.textural in t.heap && t.heap[s.textural] == s.heap[s.textural]
    ensures NewestIsOut(t) == true
  {
  }

  lemma ServerKeepsNewest(s: State, outcome: Outcome, id: nat)
    requires Inv(s) && NewestIsOut(s) && ServerStep(s, outcome, id).Some?
    ensures NewestIsOut(ServerStep(s, outcome, id).value) == true
  {
    var t := ServerStep(s, outcome, id).value;
    ServerLeavesMain(s, outcome, id);
    HeapKeepsNewest(s, t);
  }

  ghost predicate MainUntouched(s: State, t: State) {
    && t.made == s.made && t.data == s.data && t.main == s.main && t.srvBuff == s.srvBuff && t.textural == s.textural
    && (t.lock == ByMain <==> s.lock == ByMain)
    && (HasText(s.main) && s.textural in s.heap ==> s.textural in t.heap && t.heap[s.textural] == s.heap[s.textural])
  }

  lemma ServerLeavesMain(s: State, outcome: Outcome, id: nat)
    requires Inv(s) && ServerStep(s, outcome, id).Some?
    ensures MainUntouched(s, ServerStep(s, outcome, id).value) == true
  {
    if s.server.Copy? {
      CopyLeavesMain(s, outcome, id);
    } else if s.server.FreeCopy? {
      FreeLeavesMain(s, outcome, id);
    } else {
      OtherLeavesMain(s, outcome, id);
    }
  }

  lemma CopyLeavesMain(s: State, outcome: Outcome, id: nat)
    requires Inv(s) && s.server.Copy? && ServerStep(s, outcome, id).Some?
    ensures MainUntouched(s, ServerStep(s, outcome, id).value)
  {
  }

  lemma FreeLeavesMain(s: State, outcome: Outcome, id: nat)
    requires Inv(s) && s.server.FreeCopy? && ServerStep(s, outcome, id).Some?
    ensures MainUntouched(s, ServerStep(s, outcome, id).value)
  {
  }

  lemma OtherLeavesMain(s: State, outcome: Outcome, id: nat)
    requires Inv(s) && !s.server.Copy? && !s.server.FreeCopy? && ServerStep(s, outcome, id).Some?
    ensures MainUntouched(s, ServerStep(s, outcome, id).value)
  {
  }

  lemma ReloadKeepsNewest(s: State, enabled: bool)
    requires Inv(s) && NewestIsOut(s) && ReloadStep(s, enabled).Some?
    ensures NewestIsOut(ReloadStep(s, enabled).value)
  {
  }

  // Stopping and starting

  /** The server has been asked to stop, and is waited for. */
  predicate Stopping(s: State) {
    s.reload == ReloadJoin || s.main == JoinServer
  }

  /** The mutex that keeps the server running is held exactly while there is a server that has not been
      asked to stop. Once the handler comes to start a server, there is none. */
  ghost predicate Lives(s: State) {
    && (s.mxq <==> s.server != NoThread && !Stopping(s))
    && (Stopping(s) ==> s.server != NoThread)
    && (s.reload == ReloadStart ==> s.server == NoThread)
    && (s.reload != NoReload ==> InLoop(s.main))
  }

  lemma StartKeepsLives(s: State, enabled: bool, print_: bytes, id: nat)
    requires Inv(s) && Lives(s) && IsStarting(s.main) && MainStep(s, enabled, print_, id).Some?
    ensures Lives(MainStep(s, enabled, print_, id).value)
  {
  }

  lemma LoopKeepsLives(s: State, enabled: bool, print_: bytes, id: nat)
    requires Inv(s) && Lives(s) && InLoop(s.main) && MainStep(s, enabled, print_, id).Some?
    ensures Lives(MainStep(s, enabled, print_, id).value)
  {
  }

  lemma EndKeepsLives(s: State, enabled: bool, print_: bytes, id: nat)
    requires Inv(s) && Lives(s) && !IsStarting(s.main) && !InLoop(s.main) && MainStep(s, enabled, print_, id).Some?
    ensures Lives(MainStep(s, enabled, print_, id).value)
  {
  }

  lemma MainKeepsLives(s: State, enabled: bool, print_: bytes, id: nat)
    requires Inv(s) && Lives(s) && MainStep(s, enabled, print_, id).Some?
    ensures Lives(MainStep(s, enabled, print_, id).value) == true
  {
    if IsStarting(s.main) {
      StartKeepsLives(s, enabled, print_, id);
    } else if InLoop(s.main) {
      LoopKeepsLives(s, enabled, print_, id);
    } else {
      EndKeepsLives(s, enabled, print_, id);
    }
  }

  lemma ServerIsThere(s: State, outcome: Outcome, id: nat)
    requires ServerStep(s, outcome, id).Some?
    ensures s.server != NoThread && ServerStep(s, outcome, id).value.server != NoThread
  {
  }

  lemma ServerKeepsLives(s: State, outcome: Outcome, id: nat)
    requires Inv(s) && Lives(s) && ServerStep(s, outcome, id).Some?
    ensures Lives(ServerStep(s, outcome, id).value)
  {
    ServerIsThere(s, outcome, id);
    ServerMakesNothing(s, outcome, id);
  }

  lemma ReloadKeepsLives(s: State, enabled: bool)
    requires Inv(s) && Lives(s) && ReloadStep(s, enabled).Some?
    ensures Lives(ReloadStep(s, enabled).value)
  {
  }

  // What is sent

  /** The text that the server has finished copying in this step: the one that is the newest then. */
  function Copied(s: State, a: Action): seq<bytes>
    requires Step(s, a).Some?
  {
    if s.server.Copy? && Step(s, a).value.server.Release? then [Newest(s)] else []
  }

  function Copies(s: State, actions: seq<Action>): seq<bytes>
    requires Run(s, actions).Some?
    decreases |actions|
  {
    if actions == [] then [] else Copied(s, actions[0]) + Copies(Step(s, actions[0]).value, actions[1..])
  }

  /** The copy that is still to be sent. */
  function Pending(s: State): seq<bytes> {
    if (s.server.Release? || s.server.Respond?) && s.server.copy in s.heap then [s.heap[s.server.copy]] else []
  }

  /** The requests that the server has accepted, as far as they are for a text. */
  function Gets(s: State, actions: seq<Action>): nat
    requires Run(s, actions).Some?
    decreases |actions|
  {
    if actions == [] then 0
    else IsGet(s, actions[0]) + Gets(Step(s, actions[0]).value, actions[1..])
  }

  function IsGet(s: State, a: Action): nat {
    if a.Server? && a.outcome == Get && s.server == Accept then 1 else 0
  }

  /** The one that is being served. */
  function Serving(s: State): nat {
    if s.server == TakeLock || s.server == LoadPointer || s.server.Copy? || s.server.Release? || s.server.Respond? then 1 else 0
  }

  ghost predicate Accounts(s: State, a: Action, t: State)
    requires Step(s, a).Some?
  {
    && t.sent + Pending(t) == s.sent + Pending(s) + Copied(s, a)
    && |t.sent| + Serving(t) == |s.sent| + Serving(s) + IsGet(s, a)
  }

  /** A server that is at work is left alone, and so is its copy. */
  ghost predicate ServerUntouched(s: State, t: State) {
    && t.sent == s.sent && Serving(t) == Serving(s)
    && (s.server.Release? || s.server.Respond? ==> t.server == s.server)
    && (t.server.Release? || t.server.Respond? ==> s.server == t.server)
    && ((s.server.Release? || s.server.Respond?) && s.server.copy in s.heap ==>
          s.server.copy in t.heap && t.heap[s.server.copy] == s.heap[s.server.copy])
  }

  lemma UntouchedAccounts(s: State, a: Action, t: State)
    requires Inv(s) && Step(s, a) == Some(t) && !a.Server? && ServerUntouched(s, t)
    ensures Accounts(s, a, t) == true
  {
  }

  lemma LoopLeavesServer(s: State, enabled: bool, print_: bytes, id: nat)
    requires Inv(s) && InLoop(s.main) && MainStep(s, enabled, print_, id).Some?
    ensures ServerUntouched(s, MainStep(s, enabled, print_, id).value)
  {
  }

  lemma StartLeavesServer(s: State, enabled: bool, print_: bytes, id: nat)
    requires Inv(s) && IsStarting(s.main) && MainStep(s, enabled, print_, id).Some?
    ensures ServerUntouched(s, MainStep(s, enabled, print_, id).value)
  {
  }

  lemma EndLeavesServer(s: State, enabled: bool, print_: bytes, id: nat)
    requires Inv(s) && !IsStarting(s.main) && !InLoop(s.main) && MainStep(s, enabled, print_, id).Some?
    ensures ServerUntouched(s, MainStep(s, enabled, print_, id).value)
  {
  }

  lemma StopLeavesServer(s: State, enabled: bool)
    requires Inv(s) && s.reload == ReloadStop && ReloadStep(s, enabled).Some?
    ensures ServerUntouched(s, ReloadStep(s, enabled).value)
  {
  }

  lemma JoinLeavesServer(s: State, enabled: bool)
    requires Inv(s) && s.reload == ReloadJoin && ReloadStep(s, enabled).Some?
    ensures ServerUntouched(s, ReloadStep(s, enabled).value)
  {
  }

  lemma RestartLeavesServer(s: State, enabled: bool)
    requires Inv(s) && s.reload == ReloadStart && ReloadStep(s, enabled).Some?
    ensures ServerUntouched(s, ReloadStep(s, enabled).value)
  {
  }

  lemma CopyingAccounts(s: State, outcome: Outcome, id: nat)
    requires Inv(s) && NewestIsOut(s) && s.server.Copy? && ServerStep(s, outcome, id).Some?
    ensures Accounts(s, Server(outcome, id), ServerStep(s, outcome, id).value)
  {
    if |s.server.got| == |TextOf(s, s.data).value| {
      CopiedIsSafe(s, outcome, id);
    }
  }

  lemma RespondingAccounts(s: State, outcome: Outcome, id: nat)
    requires Inv(s) && (s.server.Release? || s.server.Respond?) && ServerStep(s, outcome, id).Some?
    ensures Accounts(s, Server(outcome, id), ServerStep(s, outcome, id).value)
  {
  }

  lemma FreeingAccounts(s: State, outcome: Outcome, id: nat)
    requires Inv(s) && s.server.FreeCopy? && ServerStep(s, outcome, id).Some?
    ensures Accounts(s, Server(outcome, id), ServerStep(s, outcome, id).value)
  {
  }

  lemma AcceptingAccounts(s: State, outcome: Outcome, id: nat)
    requires Inv(s) && (s.server == Quit || s.server == Accept) && ServerStep(s, outcome, id).Some?
    ensures Accounts(s, Server(outcome, id), ServerStep(s, outcome, id).value)
  {
  }

  lemma LoadingAccounts(s: State, outcome: Outcome, id: nat)
    requires Inv(s) && (s.server == TakeLock || s.server == LoadPointer) && ServerStep(s, outcome, id).Some?
    ensures Accounts(s, Server(outcome, id), ServerStep(s, outcome, id).value)
  {
  }

  lemma StepAccounts(s: State, a: Action)
    requires Inv(s) && NewestIsOut(s) && Step(s, a).Some?
    ensures Accounts(s, a, Step(s, a).value) == true
  {
    match a
    case Main(enabled, print_, id) =>
      if InLoop(s.main) {
        LoopLeavesServer(s, enabled, print_, id);
      } else if IsStarting(s.main) {
        StartLeavesServer(s, enabled, print_, id);
      } else {
        EndLeavesServer(s, enabled, print_, id);
      }
      UntouchedAccounts(s, a, Step(s, a).value);
    case StopSignal => UntouchedAccounts(s, a, Step(s, a).value);
    case ReloadSignal => UntouchedAccounts(s, a, Step(s, a).value);
    case Reload(enabled) =>
      if s.reload == ReloadStop {
        StopLeavesServer(s, enabled);
      } else if s.reload == ReloadJoin {
        JoinLeavesServer(s, enabled);
      } else {
        RestartLeavesServer(s, enabled);
      }
      UntouchedAccounts(s, a, Step(s, a).value);
    case Server(outcome, id) =>
      if s.server.Copy? {
        CopyingAccounts(s, outcome, id);
      } else if s.server.Release? || s.server.Respond? {
        RespondingAccounts(s, outcome, id);
      } else if s.server.FreeCopy? {
        FreeingAccounts(s, outcome, id);
      } else if s.server == Quit || s.server == Accept {
        AcceptingAccounts(s, outcome, id);
      } else {
        LoadingAccounts(s, outcome, id);
      }
  }

  // Whole runs

  ghost predicate Kept(s: State) {
    Inv(s) && NewestIsOut(s) && Lives(s)
  }

  lemma StepKeeps(s: State, a: Action)
    requires Kept(s) && Step(s, a).Some?
    ensures Kept(Step(s, a).value) == true
  {
    StepIsSafe(s, a);
    StepKeepsNewest(s, a);
    StepKeepsLives(s, a);
  }

  lemma StepKeepsNewest(s: State, a: Action)
    requires Inv(s) && NewestIsOut(s) && Step(s, a).Some?
    ensures NewestIsOut(Step(s, a).value) == true
  {
    match a
    case Main(enabled, print_, id) => MainKeepsNewest(s, enabled, print_, id);
    case StopSignal =>
    case ReloadSignal =>
    case Reload(enabled) => ReloadKeepsNewest(s, enabled);
    case Server(outcome, id) => ServerKeepsNewest(s, outcome, id);
  }

  lemma StepKeepsLives(s: State, a: Action)
    requires Inv(s) && Lives(s) && Step(s, a).Some?
    ensures Lives(Step(s, a).value) == true
  {
    match a
    case Main(enabled, print_, id) => MainKeepsLives(s, enabled, print_, id);
    case StopSignal =>
    case ReloadSignal =>
    case Reload(enabled) => ReloadKeepsLives(s, enabled);
    case Server(outcome, id) => ServerKeepsLives(s, outcome, id);
  }

  lemma {:induction false} RunKeeps(s: State, actions: seq<Action>)
    requires Kept(s) && Run(s, actions).Some?
    ensures var t := Run(s, actions).value;
      && Kept(t) == true && t.sent + Pending(t) == s.sent + Pending(s) + Copies(s, actions)
      && |t.sent| + Serving(t) == |s.sent| + Serving(s) + Gets(s, actions)
    decreases |actions|
  {
    if actions == [] {
      assert s.sent + Pending(s) + [] == s.sent + Pending(s);
    } else {
      var a, rest := actions[0], actions[1..];
      var next := Step(s, a).value;
      StepKeeps(s, a);
      StepAccounts(s, a);
      RunKeeps(next, rest);
      Longer(s.sent + Pending(s), Copied(s, a), Copies(next, rest));
    }
  }

  lemma Longer(a: seq<bytes>, b: seq<bytes>, c: seq<bytes>)
    ensures a + b + c == a + (b + c)
  {
  }

  lemma InitKeeps(actions: seq<Action>)
    requires Run(Init(), actions).Some?
    ensures var t := Run(Init(), actions).value;
      Kept(t) == true && t.sent + Pending(t) == Copies(Init(), actions) && |t.sent| + Serving(t) == Gets(Init(), actions)
  {
    RunKeeps(Init(), actions);
    assert [] + Copies(Init(), actions) == Copies(Init(), actions);
  }

  // The main results

  /** Whenever the check loop does not hold the mutex, what is published is the text made last. */
  lemma PublishedIsNewest(actions: seq<Action>)
    requires Run(Init(), actions).Some?
    ensures var s := Run(Init(), actions).value;
      s.srvBuff && s.data != Unset && s.lock != ByMain ==> TextOf(s, s.data) == Some(Newest(s))
  {
    InitKeeps(actions);
  }

  /** The responses are, one after the other, the texts that were the newest when they were copied, but
      for the last one, which may still have to be sent. */
  lemma ResponsesAreNewest(actions: seq<Action>)
    requires Run(Init(), actions).Some?
    ensures var s := Run(Init(), actions).value;
      s.sent + Pending(s) == Copies(Init(), actions)
  {
    InitKeeps(actions);
  }

  /** Every GET that is accepted is answered with one text, but for the one that is being served, and
      nothing else is. */
  lemma OnlyGetsAreAnswered(actions: seq<Action>)
    requires Run(Init(), actions).Some?
    ensures var s := Run(Init(), actions).value;
      |s.sent| + Serving(s) == Gets(Init(), actions)
  {
    InitKeeps(actions);
  }

  /** While HTTP is disabled, there is no server and no response. */
  lemma {:induction false} DisabledStaysDown(s: State, actions: seq<Action>)
    requires s.server == NoThread && Run(s, actions).Some?
    requires forall a <- actions :: (a.Main? || a.Reload?) ==> !a.enabled
    ensures Run(s, actions).value.server == NoThread && Run(s, actions).value.sent == s.sent
    decreases |actions|
  {
    if actions != [] {
      DisabledStep(s, actions[0]);
      DisabledStaysDown(Step(s, actions[0]).value, actions[1..]);
    }
  }

  predicate IsDown(s: State, t: State) {
    t.server == NoThread && t.sent == s.sent
  }

  lemma DisabledStep(s: State, a: Action)
    requires s.server == NoThread && Step(s, a).Some? && ((a.Main? || a.Reload?) ==> !a.enabled)
    ensures IsDown(s, Step(s, a).value) == true
  {
    if a.Main? {
      if IsStarting(s.main) {
        DisabledStart(s, a.print_, a.id);
      } else if s.main == LoopHead || s.main == TryLock {
        DisabledHead(s, a.print_, a.id);
      } else if InLoop(s.main) {
        DisabledRound(s, a.print_, a.id);
      } else if s.main == StopServer || s.main == JoinServer {
        DisabledStop(s, a.print_, a.id);
      } else {
        DisabledEnd(s, a.print_, a.id);
      }
    }
  }

  lemma DisabledStart(s: State, print_: bytes, id: nat)
    requires s.server == NoThread && IsStarting(s.main) && MainStep(s, false, print_, id).Some?
    ensures IsDown(s, MainStep(s, false, print_, id).value) == true
  {
  }

  lemma DisabledHead(s: State, print_: bytes, id: nat)
    requires s.server == NoThread && (s.main == LoopHead || s.main == TryLock) && MainStep(s, false, print_, id).Some?
    ensures IsDown(s, MainStep(s, false, print_, id).value) == true
  {
  }

  lemma DisabledRound(s: State, print_: bytes, id: nat)
    requires s.server == NoThread && (s.main == FreeText || s.main == MakeText || s.main == SetPointer || s.main == Unlock)
    requires MainStep(s, false, print_, id).Some?
    ensures IsDown(s, MainStep(s, false, print_, id).value) == true
  {
  }

  lemma DisabledStop(s: State, print_: bytes, id: nat)
    requires s.server == NoThread && (s.main == StopServer || s.main == JoinServer) && MainStep(s, false, print_, id).Some?
    ensures IsDown(s, MainStep(s, false, print_, id).value) == true
  {
  }

  lemma DisabledEnd(s: State, print_: bytes, id: nat)
    requires s.server == NoThread && (s.main == DestroyServer || s.main == DestroyChecker)
    requires MainStep(s, false, print_, id).Some?
    ensures IsDown(s, MainStep(s, false, print_, id).value) == true
  {
  }

  /** However the handler has got there: its last step leaves a server that takes requests exactly if
      HTTP is enabled, and none otherwise; and nothing else changes. */
  lemma ReloadRestarts(actions: seq<Action>, s: State, enabled: bool)
    requires Run(Init(), actions) == Some(s) && s.reload == ReloadStart
    ensures Step(s, Reload(enabled)) ==
      Some(s.(reload := NoReload, server := if enabled then Quit else NoThread, mxq := enabled, stopped := !enabled))
  {
    InitKeeps(actions);
  }

  /** No other step of the handler ends it, so that every reload comes to that one: at once if there is no
      server, and else as soon as the server, which it asks to stop, has ended. */
  lemma ReloadComesToRestart(actions: seq<Action>, s: State, enabled: bool)
    requires Run(Init(), actions) == Some(s) && (s.reload == ReloadStop || s.reload == ReloadJoin)
    ensures var t := Step(s, Reload(enabled));
      && (s.server == NoThread ==> t == Some(s.(reload := ReloadStart)))
      && (s.reload == ReloadStop && s.server != NoThread ==> t == Some(s.(reload := ReloadJoin, mxq := false)))
      && (s.reload == ReloadJoin && s.server == Ended ==>
            t == Some(s.(reload := ReloadStart, server := NoThread, stopped := true)))
  {
    InitKeeps(actions);
  }

  lemma OnlyHandlerReloads(actions: seq<Action>, s: State, a: Action)
    requires Run(Init(), actions) == Some(s) && Step(s, a).Some? && s.reload != NoReload && !a.Reload?
    ensures Step(s, a).value.reload == s.reload && Step(s, a).value.main == s.main
  {
    if a.Server? {
      ServerMakesNothing(s, a.outcome, a.id);
    }
  }

  /** A server ends where it is asked to stop, or where a request cannot be accepted, and nowhere else. */
  lemma ServerEnds(actions: seq<Action>, s: State, outcome: Outcome, id: nat)
    requires Run(Init(), actions) == Some(s) && Step(s, Server(outcome, id)).Some?
    ensures Step(s, Server(outcome, id)).value.server == Ended <==>
      (s.server == Quit && Stopping(s)) || (s.server == Accept && outcome == Failed)
  {
    InitKeeps(actions);
    if s.server.Copy? {
      CopyGoesOn(s, outcome, id);
    }
  }

  lemma CopyGoesOn(s: State, outcome: Outcome, id: nat)
    requires Inv(s) && s.server.Copy? && ServerStep(s, outcome, id).Some?
    ensures ServerStep(s, outcome, id).value.server != Ended
  {
  }

  /** A server that runs takes requests until it is asked to stop: at the head of its loop it goes on
      exactly if neither the handler nor the main thread waits for it. */
  lemma ServerRunsUntilStopped(actions: seq<Action>, s: State, outcome: Outcome, id: nat)
    requires Run(Init(), actions) == Some(s) && s.server == Quit
    ensures Step(s, Server(outcome, id)) == Some(s.(server := if Stopping(s) then Ended else Accept))
  {
    InitKeeps(actions);
  }

  /** A whole reload, with HTTP enabled and the server between two requests, */
  const RELOAD: seq<Action> := [ReloadSignal, Reload(true), Server(Failed, 0), Reload(true), Reload(true)]

  /** ends where it began. */
  lemma ReloadGoesRound(s: State)
    requires s.main == LoopHead && s.reload == NoReload && s.server == Quit && s.mxq && !s.stopped
    ensures Run(s, RELOAD) == Some(s)
  {
    var s1 := s.(reload := ReloadStop);
    var s2 := s1.(mxq := false, reload := ReloadJoin);
    var s3 := s2.(server := Ended);
    var s4 := s3.(server := NoThread, stopped := true, reload := ReloadStart);
    assert Run(s, RELOAD[5..]) == Some(s);
    OneStep(s4, 4, s, s);
    OneStep(s3, 3, s4, s);
    OneStep(s2, 2, s3, s);
    OneStep(s1, 1, s2, s);
    OneStep(s, 0, s1, s);
    assert RELOAD[0..] == RELOAD;
  }

  lemma OneStep(s: State, k: nat, t: State, end: State)
    requires k < |RELOAD| && Step(s, RELOAD[k]) == Some(t) && Run(t, RELOAD[k + 1..]) == Some(end)
    ensures Run(s, RELOAD[k..]) == Some(end)
  {
    assert RELOAD[k..][1..] == RELOAD[k + 1..];
  }

  /** Every text that has been made and published can be sent after a reload, too. */
  lemma CanReload(text: bytes) returns (before: seq<Action>, after: seq<Action>)
    ensures var r := Run(Init(), before + RELOAD + after);
      && Run(Init(), before).Some? && Run(Init(), before).value.sent == []
      && r.Some? && r.value.main == Done && r.value.sent == [text]
  {
    CanPublish(text);
    before :| Run(Init(), before) == Some(Fresh(text));
    after := CanFinish(text);
    ReloadGoesRound(Fresh(text));
    RunBoth(Init(), before, RELOAD);
    RunBoth(Init(), before + RELOAD, after);
  }

  // The check loop

  predicate Told(s: State) {
    !s.active && !IsStarting(s.main)
  }

  /** A text may still be made before the loop is left. */
  function OneMore(s: State): nat {
    if s.main == TryLock || s.main == FreeText || s.main == MakeText then 1 else 0
  }

  ghost predicate Winding(s: State, t: State) {
    Told(t) && |t.made| + OneMore(t) <= |s.made| + OneMore(s)
  }

  lemma ToldAtHead(s: State, enabled: bool, print_: bytes, id: nat)
    requires Told(s) && (s.main == LoopHead || s.main == TryLock) && MainStep(s, enabled, print_, id).Some?
    ensures Winding(s, MainStep(s, enabled, print_, id).value)
  {
  }

  lemma ToldInRound(s: State, enabled: bool, print_: bytes, id: nat)
    requires Told(s) && (s.main == FreeText || s.main == MakeText || s.main == SetPointer || s.main == Unlock)
    requires MainStep(s, enabled, print_, id).Some?
    ensures Winding(s, MainStep(s, enabled, print_, id).value)
  {
  }

  lemma ToldAtEnd(s: State, enabled: bool, print_: bytes, id: nat)
    requires Told(s) && !InLoop(s.main) && MainStep(s, enabled, print_, id).Some?
    ensures Winding(s, MainStep(s, enabled, print_, id).value)
  {
  }

  lemma ServerWinds(s: State, outcome: Outcome, id: nat)
    requires Told(s) && ServerStep(s, outcome, id).Some?
    ensures Winding(s, ServerStep(s, outcome, id).value)
  {
    ServerMakesNothing(s, outcome, id);
  }

  lemma ToldStep(s: State, a: Action)
    requires Told(s) && Step(s, a).Some?
    ensures Winding(s, Step(s, a).value) == true
  {
    match a
    case Main(enabled, print_, id) =>
      if s.main == LoopHead || s.main == TryLock {
        ToldAtHead(s, enabled, print_, id);
      } else if InLoop(s.main) {
        ToldInRound(s, enabled, print_, id);
      } else {
        ToldAtEnd(s, enabled, print_, id);
      }
    case StopSignal =>
    case ReloadSignal =>
    case Reload(_) =>
    case Server(outcome, id) => ServerWinds(s, outcome, id);
  }

  /** Once the loop has been told to stop, at most one more text is made, and only if the round had
      begun before. */
  lemma {:induction false} StoppedMakesOneMore(s: State, actions: seq<Action>)
    requires Told(s) && Run(s, actions).Some?
    ensures Winding(s, Run(s, actions).value)
    decreases |actions|
  {
    if actions != [] {
      ToldStep(s, actions[0]);
      StoppedMakesOneMore(Step(s, actions[0]).value, actions[1..]);
    }
  }

  /** Until then it goes on. */
  predicate GoesOn(s: State) {
    IsStarting(s.main) || (s.active && InLoop(s.main))
  }

  lemma StartGoesOn(s: State, enabled: bool, print_: bytes, id: nat)
    requires IsStarting(s.main) && MainStep(s, enabled, print_, id).Some?
    ensures GoesOn(MainStep(s, enabled, print_, id).value)
  {
  }

  lemma RoundGoesOn(s: State, enabled: bool, print_: bytes, id: nat)
    requires s.active && InLoop(s.main) && MainStep(s, enabled, print_, id).Some?
    ensures GoesOn(MainStep(s, enabled, print_, id).value)
  {
  }

  lemma ServerGoesOn(s: State, outcome: Outcome, id: nat)
    requires GoesOn(s) && ServerStep(s, outcome, id).Some?
    ensures GoesOn(ServerStep(s, outcome, id).value)
  {
    ServerMakesNothing(s, outcome, id);
  }

  lemma GoesOnStep(s: State, a: Action)
    requires GoesOn(s) && Step(s, a).Some? && a != StopSignal
    ensures GoesOn(Step(s, a).value) == true
  {
    match a
    case Main(enabled, print_, id) =>
      if IsStarting(s.main) {
        StartGoesOn(s, enabled, print_, id);
      } else {
        RoundGoesOn(s, enabled, print_, id);
      }
    case ReloadSignal =>
    case Reload(_) =>
    case Server(outcome, id) => ServerGoesOn(s, outcome, id);
  }

  lemma {:induction false} LoopGoesOn(s: State, actions: seq<Action>)
    requires GoesOn(s) && Run(s, actions).Some? && StopSignal !in actions
    ensures GoesOn(Run(s, actions).value)
    decreases |actions|
  {
    if actions != [] {
      var a := actions[0];
      GoesOnStep(s, a);
      LoopGoesOn(Step(s, a).value, actions[1..]);
    }
  }

  // Who waits for whom

  /** No thread can make a step, whatever addresses, texts and requests there are. */
  ghost predicate Stuck(s: State) {
    && (forall enabled, print_, id | id !in s.heap :: MainStep(s, enabled, print_, id).None?)
    && (forall enabled :: ReloadStep(s, enabled).None?)
    && (forall outcome, id | id !in s.heap :: ServerStep(s, outcome, id).None?)
  }

  lemma MainWaits(s: State, enabled: bool, print_: bytes, id: nat)
    requires Inv(s) && id !in s.heap
    ensures MainStep(s, enabled, print_, id).None? <==>
      s.reload != NoReload || s.main == Done || (s.main == JoinServer && s.server != Ended)
  {
  }

  lemma ReloadWaits(s: State, enabled: bool)
    ensures ReloadStep(s, enabled).None? <==> s.reload == NoReload || (s.reload == ReloadJoin && s.server != Ended)
  {
  }

  lemma ServerWaits(s: State, outcome: Outcome, id: nat)
    requires Inv(s) && id !in s.heap
    ensures ServerStep(s, outcome, id).None? <==>
      s.server == NoThread || s.server == Ended || (s.server == TakeLock && s.lock != Unlocked)
  {
  }

  /** The handler waits for the server, which waits for the mutex, which the loop holds that the handler
      has interrupted. */
  predicate Crossed(s: State) {
    s.reload == ReloadJoin && s.server == TakeLock && s.lock == ByMain
  }

  /** In no run do the threads come to a halt before the end in any other way. */
  lemma StuckExactly(actions: seq<Action>, s: State)
    requires Run(Init(), actions) == Some(s)
    ensures Stuck(s) <==> s.main == Done || Crossed(s)
  {
    InitKeeps(actions);
    var id := Unused(s.heap.Keys);
    MainWaits(s, true, [], id);
    ReloadWaits(s, true);
    ServerWaits(s, Get, id);
    if s.main == Done || Crossed(s) {
      StaysStuck(s);
    }
  }

  lemma StaysStuck(s: State)
    requires Inv(s) && Lives(s) && (s.main == Done || Crossed(s))
    ensures Stuck(s)
  {
    forall enabled, print_, id | id !in s.heap
      ensures MainStep(s, enabled, print_, id).None?
    {
      MainWaits(s, enabled, print_, id);
    }
    forall enabled
      ensures ReloadStep(s, enabled).None?
    {
      ReloadWaits(s, enabled);
    }
    forall outcome, id | id !in s.heap
      ensures ServerStep(s, outcome, id).None?
    {
      ServerWaits(s, outcome, id);
    }
  }

  lemma {:induction false} Unused(s: set<nat>) returns (n: nat)
    ensures forall i <- s :: i < n
  {
    if s == {} {
      n := 0;
    } else {
      var i :| i in s;
      var m := Unused(s - {i});
      n := if m <= i then i + 1 else m;
      assert forall j <- s :: j == i || j in s - {i};
    }
  }

  /** The loop holds the mutex, and the server waits for it. */
  function Waiting(): State {
    Emptied().(server := TakeLock)
  }

  lemma CanWait()
    ensures Leads(Init(), Waiting())
  {
    CanFree();
    var s0, a := Emptied(), Server(Get, 3);
    var s1 := s0.(server := Accept);
    Follow(Init(), s0, a, s1);
    Follow(Init(), s1, a, Waiting());
  }

  /** That one way there is. */
  lemma CanCross() returns (actions: seq<Action>)
    ensures Run(Init(), actions).Some? && Crossed(Run(Init(), actions).value)
  {
    CanWait();
    var s3 := Waiting().(reload := ReloadStop);
    Follow(Init(), Waiting(), ReloadSignal, s3);
    var s4 := s3.(mxq := false, reload := ReloadJoin);
    Follow(Init(), s3, Reload(true), s4);
    actions :| Run(Init(), actions) == Some(s4);
  }
}
