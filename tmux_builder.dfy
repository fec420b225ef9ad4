/**
 * `TmuxCommandBuilder`: builds one tmux invocation whose arguments are a
 * `;`-separated list of commands.  Every method appends the commands that the
 * matching function of module TmuxCommand lists, and leaves the remembered
 * session, window count and active window as the matching state function says.
 */
module TmuxBuilder {
  import opened Wrappers
  import opened Seqs
  import opened Text
  import opened Paths
  import opened ConfigModel
  import opened TmuxCommand

  /** Pushing `done` and then `next` is pushing `done + next`. */
  lemma EmitChain(a0: seq<string>, f0: bool, done: seq<Cmd>, next: seq<Cmd>)
    ensures a0 + Emit(f0, done) + Emit(f0 && done == [], next) == a0 + Emit(f0, done + next)
    ensures (f0 && done == [] && next == []) == (f0 && done + next == [])
  {
    EmitAppend(f0, done, next);
  }

  /** The first of the ascending indices of the active panes is the first active pane. */
  lemma FirstOfCollected(ps: seq<Pane>, actives: seq<nat>)
    requires forall k :: k in actives <==> 0 <= k < |ps| && ps[k].active
    requires forall a, b :: 0 <= a < b < |actives| ==> actives[a] < actives[b]
    ensures FirstSet(PaneFlags(ps)) == if actives == [] then None else Some(actives[0])
  {
    var first := FirstSet(PaneFlags(ps));
    if actives == [] {
      assert forall k :: 0 <= k < |ps| ==> !ps[k].active by {
        forall k | 0 <= k < |ps| ensures !ps[k].active {
          assert k !in actives;
        }
      }
    } else {
      assert actives[0] in actives;
      assert first.Some?;
      var f := first.value;
      assert f in actives;
    }
  }

  /** The indices of the active panes, in ascending order. */
  method ActivePanes(panes: seq<Pane>) returns (actives: seq<nat>)
    ensures forall k :: k in actives <==> 0 <= k < |panes| && panes[k].active
    ensures forall a, b :: 0 <= a < b < |actives| ==> actives[a] < actives[b]
  {
    actives := [];
    for i := 0 to |panes|
      invariant forall k :: k in actives <==> 0 <= k < i && panes[k].active
      invariant forall a, b :: 0 <= a < b < |actives| ==> actives[a] < actives[b]
      invariant forall a :: 0 <= a < |actives| ==> actives[a] < i
    {
      if panes[i].active {
        actives := actives + [i];
      }
    }
  }

  class TmuxCommandBuilder {
    /** The program to run and its arguments so far (`std::process::Command`). */
    const program: string
    var args: seq<string>
    /** No command has been pushed yet. */
    var firstCommand: bool
    var currentSessionName: Option<string>
    var windowCount: nat
    var activeWindowIndex: Option<nat>

    ghost function St(): State
      reads this
    {
      State(currentSessionName, windowCount, activeWindowIndex)
    }

    /** The remembered active window is one of the windows made so far. */
    ghost predicate Valid()
      reads this
    {
      ValidState(St())
    }

    /** The arguments grew by `cmds`, separators included. */
    twostate predicate Appended(cmds: seq<Cmd>)
      reads this
    {
      args == old(args) + Emit(old(firstCommand), cmds) && firstCommand == (old(firstCommand) && cmds == [])
    }

    /** `TmuxCommandBuilder::new`: the tmux program and its own arguments, no command yet. */
    constructor (tmuxPath: string, tmuxArgs: seq<string>)
      ensures program == tmuxPath && args == tmuxArgs && firstCommand
      ensures St() == State(None, 0, None) && Valid()
    {
      program := tmuxPath;
      args := tmuxArgs;
      firstCommand := true;
      currentSessionName := None;
      windowCount := 0;
      activeWindowIndex := None;
    }

    /** `into_command`: the program and the arguments built. */
    method IntoCommand() returns (prog: string, argv: seq<string>)
      ensures prog == program && argv == args
    {
      prog, argv := program, args;
    }

    /** `session_target`: the current session, or the client's current one. */
    function SessionTarget(): (t: Target)
      reads this
      ensures t == SessionScope(currentSessionName)
    {
      if currentSessionName.Some? then SessionScope(Some(currentSessionName.value)) else SessionScope(None)
    }

    // -------------------------------------------------------------------------
    // Primitives

    method Push(arg: string)
      modifies this
      ensures args == old(args) + [arg]
      ensures firstCommand == old(firstCommand) && St() == old(St())
    {
      args := args + [arg];
    }

    method PushArg(arg: Option<string>)
      modifies this
      ensures args == old(args) + OptToSeq(arg)
      ensures firstCommand == old(firstCommand) && St() == old(St())
    {
      if arg.Some? {
        Push(arg.value);
      }
    }

    method PushFlagArg(flag: string, arg: Option<string>)
      modifies this
      ensures args == old(args) + FlagArg(flag, arg)
      ensures firstCommand == old(firstCommand) && St() == old(St())
    {
      if arg.Some? {
        Push(flag);
        Push(arg.value);
      }
    }

    /** `push_new_command`: a `";"` before every command but the first. */
    method PushNewCommand(name: string)
      modifies this
      ensures args == old(args) + Sep(old(firstCommand)) + [name]
      ensures !firstCommand && St() == old(St())
    {
      if firstCommand {
        firstCommand := false;
      } else {
        Push(";");
      }
      Push(name);
    }

    method PushCwdArg(c: Cwd)
      modifies this
      ensures args == old(args) + CwdArg(c)
      ensures firstCommand == old(firstCommand) && St() == old(St())
    {
      PushFlagArg("-c", ToPath(c));
    }

    method PushTargetArg(t: Target)
      modifies this
      ensures args == old(args) + TargetArg(t)
      ensures firstCommand == old(firstCommand) && St() == old(St())
    {
      PushFlagArg("-t", Some(Display(t)));
    }

    method PushAxisArg(axis: Axis)
      modifies this
      ensures args == old(args) + AxisArg(axis)
      ensures firstCommand == old(firstCommand) && St() == old(St())
    {
      match axis
      case Horizontal => Push("-h");
      case Vertical => Push("-v");
    }

    method PushDirectionArg(d: Direction)
      modifies this
      ensures args == old(args) + DirectionArg(d)
      ensures firstCommand == old(firstCommand) && St() == old(St())
    {
      match d
      case Left => Push("-L");
      case Right => Push("-R");
      case Up => Push("-U");
      case Down => Push("-D");
    }

    method PushNextPrevArg(d: Direction)
      modifies this
      ensures args == old(args) + NextPrevArg(d)
      ensures firstCommand == old(firstCommand) && St() == old(St())
    {
      match d
      case Left => Push("-p");
      case Right => Push("-n");
      case Up => Push("-p");
      case Down => Push("-n");
    }

    method PushFlowArg(f: SplitFlow)
      modifies this
      ensures args == old(args) + FlowArg(f)
      ensures firstCommand == old(firstCommand) && St() == old(St())
    {
      if f == Inverted {
        PushArg(Some("-b"));
      }
    }

    method PushQueryScopeArg(scope: QueryScope)
      modifies this
      ensures args == old(args) + ScopeArg(scope)
      ensures firstCommand == old(firstCommand) && St() == old(St())
    {
      match scope
      case AllSessions => Push("-a");
      case CurrentSession => Push("-s");
      case CurrentWindowScope =>
    }

    // -------------------------------------------------------------------------
    // Single commands

    method SplitPane(axis: Axis, flow: SplitFlow, cwd: Cwd, shellCommand: Option<string>, size: Option<string>)
      modifies this
      ensures Appended([SplitPaneCmd(old(currentSessionName), axis, flow, cwd, shellCommand, size)])
      ensures St() == old(St())
    {
      var target := SessionTarget();
      ghost var base := args + Sep(firstCommand);
      PushNewCommand("split-window");
      ghost var c: seq<string> := ["split-window"];
      PushTargetArg(target);
      Assoc(base, c, TargetArg(target));
      c := c + TargetArg(target);
      PushAxisArg(axis);
      Assoc(base, c, AxisArg(axis));
      c := c + AxisArg(axis);
      PushFlowArg(flow);
      Assoc(base, c, FlowArg(flow));
      c := c + FlowArg(flow);
      PushCwdArg(cwd);
      Assoc(base, c, CwdArg(cwd));
      c := c + CwdArg(cwd);
      PushFlagArg("-l", size);
      Assoc(base, c, FlagArg("-l", size));
      c := c + FlagArg("-l", size);
      PushArg(shellCommand);
      Assoc(base, c, OptToSeq(shellCommand));
      c := c + OptToSeq(shellCommand);
      assert c == SplitPaneCmd(currentSessionName, axis, flow, cwd, shellCommand, size);
      EmitOne(old(firstCommand), c);
      Assoc(old(args), Sep(old(firstCommand)), c);
    }

    method SelectPaneAt(d: Direction)
      modifies this
      ensures Appended([SelectPaneAtCmd(old(currentSessionName), d)])
      ensures St() == old(St())
    {
      var target := SessionTarget();
      PushNewCommand("select-pane");
      PushTargetArg(target);
      PushDirectionArg(d);
      EmitOne(old(firstCommand), SelectPaneAtCmd(currentSessionName, d));
    }

    method SelectWindowAt(d: Direction)
      modifies this
      ensures Appended([SelectWindowAtCmd(old(currentSessionName), d)])
      ensures St() == old(St())
    {
      var target := SessionTarget();
      PushNewCommand("select-window");
      PushTargetArg(target);
      PushNextPrevArg(d);
      EmitOne(old(firstCommand), SelectWindowAtCmd(currentSessionName, d));
    }

    /** A command made of a name and a target: `select-window`, `switch-client`,
        `attach-session`, `kill-pane` and `kill-window`. */
    method TargetCommand(name: string, t: Target)
      modifies this
      ensures Appended([[name] + TargetArg(t)])
      ensures St() == old(St())
    {
      PushNewCommand(name);
      PushTargetArg(t);
      EmitOne(old(firstCommand), [name] + TargetArg(t));
    }

    /** `send_keys`: one `send-keys` with every key as its own argument. */
    method SendKeys(keys: seq<string>)
      modifies this
      ensures Appended([SendKeysCmd(old(currentSessionName), keys)])
      ensures St() == old(St())
    {
      var target := SessionTarget();
      PushNewCommand("send-keys");
      PushTargetArg(target);
      ghost var start := args;
      for i := 0 to |keys|
        invariant args == start + keys[..i]
        invariant !firstCommand && St() == old(St())
      {
        PushArg(Some(keys[i]));
        assert keys[..i + 1] == keys[..i] + [keys[i]];
      }
      assert keys[..|keys|] == keys;
      EmitOne(old(firstCommand), SendKeysCmd(currentSessionName, keys));
    }

    method QueryPanes(format: string, scope: QueryScope)
      modifies this
      ensures Appended([QueryPanesCmd(format, scope)])
      ensures St() == old(St())
    {
      PushNewCommand("list-panes");
      Push("-F");
      Push(format);
      PushQueryScopeArg(scope);
      EmitOne(old(firstCommand), QueryPanesCmd(format, scope));
    }

    method QueryClients()
      modifies this
      ensures Appended([["list-clients"]])
      ensures St() == old(St())
    {
      PushNewCommand("list-clients");
      EmitOne(old(firstCommand), ["list-clients"]);
    }

    /** `select_session`: nothing when detached; otherwise switch the client to,
        or attach to, the named session. */
    method SelectSession(name: Option<string>, mode: SessionSelectMode)
      modifies this
      ensures Appended(SelectSessionCmds(name, mode))
      ensures St() == old(St())
    {
      match mode
      case Detached =>
      case Switch => TargetCommand("switch-client", SessionScope(name));
      case Attach => TargetCommand("attach-session", SessionScope(name));
    }

    // -------------------------------------------------------------------------
    // Split trees

    /** `apply_split`. */
    method ApplySplit(s: Split, parentCwd: Cwd)
      modifies this
      ensures Appended(ApplySplitCmds(old(currentSessionName), s, parentCwd))
      ensures St() == old(St())
      decreases s
    {
      var flow := FlowOf(s);
      if s.Leaf? {
        if s.pane.sendKeys.Some? {
          SendKeys(s.pane.sendKeys.value);
        }
        return;
      }
      var session := currentSessionName;
      var sides := SidesOf(s);
      var axis := if s.H? then Horizontal else Vertical;
      var childPane := RootPane(sides.child);
      ghost var a0, f0 := args, firstCommand;
      var split := SplitPaneCmd(session, axis, flow, Joined(parentCwd, childPane.cwd), childPane.shellCommand, sides.childSize);
      var select := SelectPaneAtCmd(session, Opposite(FlowDirection(flow, axis)));
      SplitPane(axis, flow, Joined(parentCwd, childPane.cwd), childPane.shellCommand, sides.childSize);
      ApplySplit(sides.child, parentCwd);
      EmitChain(a0, f0, [split], ApplySplitCmds(session, sides.child, parentCwd));
      ghost var done := [split] + ApplySplitCmds(session, sides.child, parentCwd);
      SelectPaneAt(Opposite(FlowDirection(flow, axis)));
      EmitChain(a0, f0, done, [select]);
      ApplySplit(sides.parent, parentCwd);
      EmitChain(a0, f0, done + [select], ApplySplitCmds(session, sides.parent, parentCwd));
      SplitNodeCmds(session, s, parentCwd);
    }

    /** `apply_root_split`. */
    method ApplyRootSplit(root: RootSplit, parentCwd: Cwd)
      modifies this
      ensures Appended(ApplyRootSplitCmds(old(currentSessionName), root, parentCwd))
      ensures St() == old(St())
    {
      var session := currentSessionName;
      ghost var a0, f0 := args, firstCommand;
      var first := RootPane(root.split);
      var split := SplitPaneCmd(session, Horizontal, Regular, Joined(parentCwd, first.cwd), first.shellCommand, None);
      SplitPane(Horizontal, Regular, Joined(parentCwd, first.cwd), first.shellCommand, None);
      var target := InPane(CurrentWindow(SessionTarget()), "0");
      TargetCommand("kill-pane", target);
      EmitChain(a0, f0, [split], [KillPaneCmd(session)]);
      ApplySplit(root.split, parentCwd);
      EmitChain(a0, f0, [split, KillPaneCmd(session)], ApplySplitCmds(session, root.split, parentCwd));
    }

    /** `select_active_pane`: the panes in tmux index order, the indices of the
        active ones, and a `select-pane` of the first of them. */
    method SelectActivePane(w: Window)
      modifies this
      ensures Appended(SelectActivePaneCmds(old(currentSessionName), w))
      ensures St() == old(St())
    {
      var panes := CollectPanes(w.rootSplit.split);
      var actives := ActivePanes(panes);
      // More than one active pane only produces a warning.
      FirstOfCollected(panes, actives);
      if |actives| > 0 {
        var target := InPane(CurrentWindow(SessionTarget()), NatToString(actives[0]));
        TargetCommand("select-pane", target);
      }
    }

    // -------------------------------------------------------------------------
    // Windows and sessions

    /** `select_active_window`. */
    method SelectActiveWindow()
      requires Valid()
      modifies this
      ensures Appended(SelectActiveWindowCmds(old(St())))
      ensures St() == old(St())
    {
      if activeWindowIndex.None? {
        return;
      }
      var index := activeWindowIndex.value;
      if currentSessionName.Some? {
        var target := InWindow(SessionScope(currentSessionName), NatToString(index));
        TargetCommand("select-window", target);
      } else {
        var steps := windowCount - index - 1;
        var step := SelectWindowAtCmd(None, Left);
        ghost var a0, f0 := args, firstCommand;
        for k := 0 to steps
          invariant args == a0 + Emit(f0, Repeat(k, step))
          invariant firstCommand == (f0 && k == 0) && St() == old(St())
        {
          SelectWindowAt(Left);
          EmitChain(a0, f0, Repeat(k, step), [step]);
        }
      }
    }

    /** The `new-window` command of `new_window`: name, cwd, and where it goes. */
    method NewWindowCommand(w: Window, parentCwd: Cwd, before: Option<string>)
      modifies this
      ensures Appended([NewWindowCmd(old(currentSessionName), w, parentCwd, before)])
      ensures St() == old(St())
    {
      var windowCwd := Joined(parentCwd, w.cwd);
      ghost var base := args + Sep(firstCommand);
      PushNewCommand("new-window");
      ghost var c: seq<string> := ["new-window"];
      PushFlagArg("-n", w.name);
      Assoc(base, c, FlagArg("-n", w.name));
      c := c + FlagArg("-n", w.name);
      PushCwdArg(windowCwd);
      Assoc(base, c, CwdArg(windowCwd));
      c := c + CwdArg(windowCwd);
      if before.Some? {
        var target := InWindow(SessionTarget(), before.value);
        Push("-b");
        PushTargetArg(target);
        Assoc(base + c, ["-b"], TargetArg(target));
        Assoc(base, c, ["-b"] + TargetArg(target));
        c := c + (["-b"] + TargetArg(target));
      } else {
        PushTargetArg(SessionTarget());
        Assoc(base, c, TargetArg(SessionTarget()));
        c := c + TargetArg(SessionTarget());
      }
      assert c == NewWindowCmd(currentSessionName, w, parentCwd, before);
      EmitOne(old(firstCommand), c);
      Assoc(old(args), Sep(old(firstCommand)), c);
    }

    /** `new_window`. */
    method NewWindow(w: Window, parentCwd: Cwd, before: Option<string>)
      modifies this
      ensures Appended(NewWindowCmds(old(currentSessionName), w, parentCwd, before))
      ensures St() == RecordWindow(old(St()), w)
      ensures old(Valid()) ==> Valid()
    {
      CountWindow(w);
      var session := currentSessionName;
      ghost var a0, f0 := args, firstCommand;
      var windowCwd := Joined(parentCwd, w.cwd);
      NewWindowCommand(w, parentCwd, before);
      var head := NewWindowCmd(session, w, parentCwd, before);
      ApplyRootSplit(w.rootSplit, windowCwd);
      EmitChain(a0, f0, [head], ApplyRootSplitCmds(session, w.rootSplit, windowCwd));
      SelectActivePane(w);
      EmitChain(a0, f0, [head] + ApplyRootSplitCmds(session, w.rootSplit, windowCwd), SelectActivePaneCmds(session, w));
      assert NewWindowCmds(session, w, parentCwd, before)
          == [head] + ApplyRootSplitCmds(session, w.rootSplit, windowCwd) + SelectActivePaneCmds(session, w);
    }

    /** The window bookkeeping at the start of `new_window`. */
    method CountWindow(w: Window)
      modifies this
      ensures St() == RecordWindow(old(St()), w)
      ensures args == old(args) && firstCommand == old(firstCommand)
    {
      if w.active {
        if activeWindowIndex.None? {
          activeWindowIndex := Some(windowCount);
        }
        // A second active window only produces a warning.
      }
      windowCount := windowCount + 1;
    }

    /** `create_initial_window`. */
    method CreateInitialWindow(w: Window, parentCwd: Cwd)
      modifies this
      ensures Appended(InitialWindowCmds(old(currentSessionName), w, parentCwd))
      ensures St() == InitialWindowState(old(currentSessionName), w)
      ensures Valid()
    {
      var session := currentSessionName;
      ghost var a0, f0 := args, firstCommand;
      activeWindowIndex := None;
      windowCount := 0;
      NewWindow(w, parentCwd, Some("0"));
      var target := InWindow(SessionTarget(), "1");
      TargetCommand("kill-window", target);
      EmitChain(a0, f0, NewWindowCmds(session, w, parentCwd, Some("0")), [KillWindowCmd(session)]);
    }

    /** `new_windows`: each window in turn, then select the active one. */
    method NewWindows(ws: seq<Window>, parentCwd: Cwd)
      requires Valid()
      modifies this
      ensures Appended(NewWindowsCmds(old(St()), ws, parentCwd))
      ensures St() == RecordWindows(old(St()), ws) && Valid()
    {
      ghost var a0, f0, st0 := args, firstCommand, St();
      MakeWindows(ws, parentCwd);
      RecordWindowsActive(st0, ws);
      ghost var done := WindowsCmds(st0, ws, parentCwd);
      SelectActiveWindow();
      EmitChain(a0, f0, done, SelectActiveWindowCmds(RecordWindows(st0, ws)));
    }

    /** The loop of `new_windows`: each window in turn, none placed before another. */
    method MakeWindows(ws: seq<Window>, parentCwd: Cwd)
      requires Valid()
      modifies this
      ensures Appended(WindowsCmds(old(St()), ws, parentCwd))
      ensures St() == RecordWindows(old(St()), ws) && Valid()
    {
      ghost var a0, f0, st0 := args, firstCommand, St();
      for i := 0 to |ws|
        invariant args == a0 + Emit(f0, WindowsCmds(st0, ws[..i], parentCwd))
        invariant firstCommand == (f0 && WindowsCmds(st0, ws[..i], parentCwd) == [])
        invariant St() == RecordWindows(st0, ws[..i]) && Valid()
      {
        ghost var done := WindowsCmds(st0, ws[..i], parentCwd);
        NewWindow(ws[i], parentCwd, None);
        WindowsSnoc(st0, ws, i, parentCwd);
        EmitChain(a0, f0, done, NewWindowCmds(st0.session, ws[i], parentCwd, None));
      }
      assert ws[..|ws|] == ws;
    }

    /** `new_session`. */
    method NewSession(s: Session)
      modifies this
      ensures Appended(NewSessionCmds(old(St()), s))
      ensures St() == NewSessionState(old(St()), s)
      ensures old(Valid()) ==> Valid()
    {
      if s.windows == [] {
        return;
      }
      ghost var a0, f0 := args, firstCommand;
      currentSessionName := Some(s.name);
      ghost var base := args + Sep(firstCommand);
      PushNewCommand("new-session");
      ghost var c: seq<string> := ["new-session"];
      PushFlagArg("-s", Some(s.name));
      Assoc(base, c, FlagArg("-s", Some(s.name)));
      c := c + FlagArg("-s", Some(s.name));
      PushCwdArg(s.cwd);
      Assoc(base, c, CwdArg(s.cwd));
      c := c + CwdArg(s.cwd);
      Push("-d");
      Assoc(base, c, ["-d"]);
      c := c + ["-d"];
      assert c == NewSessionCmd(s);
      EmitOne(f0, c);
      Assoc(a0, Sep(f0), c);
      CreateInitialWindow(s.windows[0], s.cwd);
      var first := InitialWindowCmds(Some(s.name), s.windows[0], s.cwd);
      EmitChain(a0, f0, [NewSessionCmd(s)], first);
      ghost var st1 := St();
      assert st1 == InitialWindowState(Some(s.name), s.windows[0]);
      NewWindows(s.windows[1..], s.cwd);
      EmitChain(a0, f0, [NewSessionCmd(s)] + first, NewWindowsCmds(st1, s.windows[1..], s.cwd));
    }

    /** `new_sessions`: each session in turn. */
    method NewSessions(ss: seq<Session>)
      modifies this
      ensures Appended(SessionsCmds(old(St()), ss))
      ensures St() == SessionsState(old(St()), ss)
      ensures old(Valid()) ==> Valid()
    {
      ghost var a0, f0, st0 := args, firstCommand, St();
      for i := 0 to |ss|
        invariant args == a0 + Emit(f0, SessionsCmds(st0, ss[..i]))
        invariant firstCommand == (f0 && SessionsCmds(st0, ss[..i]) == [])
        invariant St() == SessionsState(st0, ss[..i])
      {
        ghost var done := SessionsCmds(st0, ss[..i]);
        ghost var stI := St();
        ghost var next := NewSessionCmds(stI, ss[i]);
        NewSession(ss[i]);
        assert args == a0 + Emit(f0, done) + Emit(f0 && done == [], next);
        EmitChain(a0, f0, done, next);
        SessionsSnoc(st0, ss, i);
      }
      assert ss[..|ss|] == ss;
    }
  }
}
