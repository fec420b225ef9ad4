/**
 * What the tmux command builder writes, as values: split flows, root panes,
 * directions, targets, the `;`-separated argument list and, for every builder
 * operation, the list of tmux commands it appends.  The builder class itself
 * (module TmuxBuilder) is proved to append exactly these lists.
 */
module TmuxCommand {
  import opened Wrappers
  import opened Seqs
  import opened Text
  import opened Paths
  import opened ConfigModel

  /** One tmux command: its name followed by its arguments. */
  type Cmd = seq<string>

  // ---------------------------------------------------------------------------
  // Split flow, root pane, directions

  datatype Axis = Horizontal | Vertical
  datatype Direction = Left | Right | Up | Down

  /** `Regular` makes the new pane to the right/bottom, `Inverted` to the left/top. */
  datatype SplitFlow = Regular | Inverted

  /** `SplitFlow::from`: a split is inverted exactly when its first part carries the size. */
  function FlowOf(s: Split): (f: SplitFlow)
    ensures f == Inverted <==> (s.H? && s.left.width.Some?) || (s.V? && s.top.height.Some?)
  {
    match s
    case Leaf(_) => Regular
    case H(l, _) => if l.width.Some? then Inverted else Regular
    case V(t, _) => if t.height.Some? then Inverted else Regular
  }

  /** The two sides of a split as the builder sees them: the parent side that
      already exists and the child side that `split-window` creates with the
      child's size. */
  datatype Sides = Sides(parent: Split, childSize: Option<string>, child: Split)

  function SidesOf(s: Split): (r: Sides)
    requires !s.Leaf?
    ensures r.parent < s && r.child < s
  {
    match s
    case H(l, r) => if FlowOf(s) == Regular then Sides(l.split, r.width, r.split) else Sides(r.split, l.width, l.split)
    case V(t, b) => if FlowOf(s) == Regular then Sides(t.split, b.height, b.split) else Sides(b.split, t.height, t.split)
  }

  /** The size handed to `-l` is the first part's size when it has one and the
      second part's otherwise, so a size written on either part is never lost. */
  lemma SizeGoesToChild(s: Split)
    requires !s.Leaf?
    ensures s.H? ==> SidesOf(s).childSize == (if s.left.width.Some? then s.left.width else s.right.width)
    ensures s.V? ==> SidesOf(s).childSize == (if s.top.height.Some? then s.top.height else s.bottom.height)
    ensures s.H? ==> {SidesOf(s).parent, SidesOf(s).child} == {s.left.split, s.right.split}
    ensures s.V? ==> {SidesOf(s).parent, SidesOf(s).child} == {s.top.split, s.bottom.split}
  {
  }

  /** `root_pane`: the pane all the splits of a tree are made from, found by
      descending into the parent side of every split. */
  function RootPane(s: Split): (p: Pane)
    ensures p in Leaves(s)
  {
    match s
    case Leaf(p) => p
    case H(l, r) => if FlowOf(s) == Regular then RootPane(l.split) else RootPane(r.split)
    case V(t, b) => if FlowOf(s) == Regular then RootPane(t.split) else RootPane(b.split)
  }

  /** The root pane is the parent side's root pane. */
  lemma RootPaneOfParent(s: Split)
    requires !s.Leaf?
    ensures RootPane(s) == RootPane(SidesOf(s).parent)
  {
  }

  /** A tree where no left or top part carries a size. */
  predicate AllRegular(s: Split)
  {
    match s
    case Leaf(_) => true
    case H(l, r) => l.width.None? && AllRegular(l.split) && AllRegular(r.split)
    case V(t, b) => t.height.None? && AllRegular(t.split) && AllRegular(b.split)
  }

  /** In a tree of regular splits the root pane is the first pane in tmux index order. */
  lemma {:induction false} RootPaneOfRegular(s: Split)
    requires AllRegular(s)
    ensures RootPane(s) == Leaves(s)[0]
  {
    LeavesNonEmpty(s);
    match s
    case Leaf(_) =>
    case H(l, r) =>
      RootPaneOfRegular(l.split);
      LeavesNonEmpty(l.split);
    case V(t, b) =>
      RootPaneOfRegular(t.split);
      LeavesNonEmpty(t.split);
  }

  function AxisOf(d: Direction): Axis
  {
    if d == Left || d == Right then Horizontal else Vertical
  }

  /** `Direction::inverted`: the opposite direction on the same axis. */
  function Opposite(d: Direction): (r: Direction)
    ensures AxisOf(r) == AxisOf(d) && r != d
  {
    match d
    case Left => Right
    case Right => Left
    case Up => Down
    case Down => Up
  }

  lemma OppositeInvolution(d: Direction)
    ensures Opposite(Opposite(d)) == d
  {
  }

  /** `SplitFlow::direction`: where the new pane goes. */
  function FlowDirection(f: SplitFlow, axis: Axis): (d: Direction)
    ensures AxisOf(d) == axis
    ensures f == Regular <==> d == Right || d == Down
  {
    match (f, axis)
    case (Regular, Horizontal) => Right
    case (Regular, Vertical) => Down
    case (Inverted, Horizontal) => Left
    case (Inverted, Vertical) => Up
  }

  // ---------------------------------------------------------------------------
  // Targets

  /** `Target<Session>`, `Target<Window>` and `Target<Pane>`. */
  datatype Target =
    | SessionScope(session: Option<string>)
    | WindowScope(session: Option<string>, window: Option<string>)
    | PaneScope(session: Option<string>, window: Option<string>, pane: Option<string>)

  /** `Display` for the three scopes: `s:`, `s:w.` and `s:w.p`, absent parts empty. */
  function Display(t: Target): string
  {
    match t
    case SessionScope(s) => s.GetOr("") + ":"
    case WindowScope(s, w) => s.GetOr("") + ":" + w.GetOr("") + "."
    case PaneScope(s, w, p) => s.GetOr("") + ":" + w.GetOr("") + "." + p.GetOr("")
  }

  /** `Target::window`, `Target::current_window` and `Target::pane`. */
  function InWindow(t: Target, window: string): Target
    requires t.SessionScope?
  {
    WindowScope(t.session, Some(window))
  }

  function CurrentWindow(t: Target): Target
    requires t.SessionScope?
  {
    WindowScope(t.session, None)
  }

  function InPane(t: Target, pane: string): Target
    requires t.WindowScope?
  {
    PaneScope(t.session, t.window, Some(pane))
  }

  /** Narrowing a target extends its text: a session target's text starts the text
      of each of its windows, and a window target's text starts its panes' texts. */
  lemma TargetTextNests(t: Target, window: string, pane: string)
    requires t.SessionScope?
    ensures Display(InWindow(t, window)) == Display(t) + window + "."
    ensures Display(InPane(InWindow(t, window), pane)) == Display(InWindow(t, window)) + pane
    ensures Display(InPane(CurrentWindow(t), pane)) == Display(t) + "." + pane
  {
  }

  /** The first position of `c` in `s`, or `|s|`. */
  function IndexOfChar(s: string, c: char): (i: nat)
    ensures i <= |s| && c !in s[..i] && (i < |s| ==> s[i] == c)
  {
    if s == [] then 0
    else if s[0] == c then 0
    else
      var j := IndexOfChar(s[1..], c);
      assert s[1..][..j] == s[1..j + 1];
      1 + j
  }

  /** Reading a pane target's text back: the session up to the first `:`, the
      window up to the next `.`, and the pane after it. */
  function PaneTargetParts(text: string): (string, string, string)
  {
    var i := IndexOfChar(text, ':');
    var rest := if i < |text| then text[i + 1..] else [];
    var j := IndexOfChar(rest, '.');
    (text[..i], rest[..j], if j < |rest| then rest[j + 1..] else [])
  }

  lemma IndexOfCharAfter(a: string, c: char, b: string)
    requires c !in a
    ensures IndexOfChar(a + [c] + b, c) == |a|
  {
    var i := IndexOfChar(a + [c] + b, c);
    assert (a + [c] + b)[|a|] == c;
    assert forall k :: 0 <= k < |a| ==> (a + [c] + b)[k] == a[k];
  }

  /** A pane target's text determines its parts, as long as the session name has
      no `:` and the window name no `.`. */
  lemma PaneTargetRoundTrip(s: Option<string>, w: Option<string>, p: Option<string>)
    requires ':' !in s.GetOr("") && '.' !in w.GetOr("")
    ensures PaneTargetParts(Display(PaneScope(s, w, p))) == (s.GetOr(""), w.GetOr(""), p.GetOr(""))
  {
    var ss, ws, ps := s.GetOr(""), w.GetOr(""), p.GetOr("");
    var text := Display(PaneScope(s, w, p));
    assert text == ss + [':'] + (ws + "." + ps);
    IndexOfCharAfter(ss, ':', ws + "." + ps);
    assert text[..|ss|] == ss;
    var rest := text[|ss| + 1..];
    assert rest == ws + ['.'] + ps;
    IndexOfCharAfter(ws, '.', ps);
    assert rest[..|ws|] == ws;
    assert rest[|ws| + 1..] == ps;
  }

  // ---------------------------------------------------------------------------
  // The argument list: commands separated by ";"

  function Sep(first: bool): seq<string>
  {
    if first then [] else [";"]
  }

  /** The arguments that pushing `cmds` appends, when `first` says whether no
      command has been pushed yet: every command after the very first is
      preceded by a separate `";"` argument. */
  function Emit(first: bool, cmds: seq<Cmd>): (r: seq<string>)
    ensures cmds == [] ==> r == []
  {
    if cmds == [] then [] else Sep(first) + cmds[0] + Emit(false, cmds[1..])
  }

  lemma EmitOne(first: bool, c: Cmd)
    ensures Emit(first, [c]) == Sep(first) + c
  {
    assert [c][1..] == [];
  }

  /** Pushing two lists of commands one after the other is pushing their concatenation. */
  lemma {:induction false} EmitAppend(first: bool, a: seq<Cmd>, b: seq<Cmd>)
    ensures Emit(first, a + b) == Emit(first, a) + Emit(first && a == [], b)
    decreases |a|
  {
    if a == [] {
      assert a + b == b;
    } else {
      assert (a + b)[0] == a[0];
      assert (a + b)[1..] == a[1..] + b;
      EmitAppend(false, a[1..], b);
    }
  }

  /** A command with a name and no `";"` argument of its own. */
  predicate Plain(c: Cmd)
  {
    c != [] && ";" !in c
  }

  /** The first position of `x` in `args`, or `|args|`. */
  function IndexOf(args: seq<string>, x: string): (i: nat)
    ensures i <= |args| && x !in args[..i] && (i < |args| ==> args[i] == x)
  {
    if args == [] then 0
    else if args[0] == x then 0
    else
      var j := IndexOf(args[1..], x);
      assert args[1..][..j] == args[1..j + 1];
      1 + j
  }

  /** Cutting an argument list at its `";"` arguments. */
  function Commands(args: seq<string>): seq<Cmd>
    decreases |args|
  {
    var i := IndexOf(args, ";");
    if i == |args| then [args] else [args[..i]] + Commands(args[i + 1..])
  }

  lemma IndexOfAfter(a: seq<string>, x: string, b: seq<string>)
    requires x !in a
    ensures IndexOf(a + [x] + b, x) == |a|
  {
    var i := IndexOf(a + [x] + b, x);
    assert (a + [x] + b)[|a|] == x;
    assert forall k :: 0 <= k < |a| ==> (a + [x] + b)[k] == a[k];
  }

  /** The separators are unambiguous: cutting the emitted arguments at `";"`
      gives back the commands, when no command has a `";"` argument itself. */
  lemma {:induction false} CommandsOfEmit(cmds: seq<Cmd>)
    requires cmds != [] && forall i :: 0 <= i < |cmds| ==> Plain(cmds[i])
    ensures Commands(Emit(true, cmds)) == cmds
    decreases |cmds|
  {
    var rest := cmds[1..];
    if rest == [] {
      EmitOne(true, cmds[0]);
      assert Emit(true, cmds) == cmds[0];
      assert IndexOf(cmds[0], ";") == |cmds[0]|;
      assert cmds == [cmds[0]];
    } else {
      EmitCons(cmds);
      CommandsSplit(cmds[0], Emit(true, rest));
      CommandsOfEmit(rest);
      assert cmds == [cmds[0]] + rest;
    }
  }

  /** With more than one command, the first one and a separator come first. */
  lemma EmitCons(cmds: seq<Cmd>)
    requires |cmds| > 1
    ensures Emit(true, cmds) == cmds[0] + [";"] + Emit(true, cmds[1..])
  {
    var rest := cmds[1..];
    EmitAfterFirst(rest);
    EmitUnfold(true, cmds);
    EmptyConcat(cmds[0] + Emit(false, rest));
    Assoc([], cmds[0], Emit(false, rest));
    Assoc(cmds[0], [";"], Emit(true, rest));
  }

  lemma EmitUnfold(first: bool, cmds: seq<Cmd>)
    requires cmds != []
    ensures Emit(first, cmds) == Sep(first) + cmds[0] + Emit(false, cmds[1..])
  {
  }

  /** Once a command has been pushed, a separator precedes the next. */
  lemma EmitAfterFirst(cmds: seq<Cmd>)
    requires cmds != []
    ensures Emit(false, cmds) == [";"] + Emit(true, cmds)
  {
    EmitUnfold(false, cmds);
    EmitUnfold(true, cmds);
    var e := Emit(false, cmds[1..]);
    Assoc([], cmds[0], e);
    EmptyConcat(cmds[0] + e);
    Assoc([";"], cmds[0], e);
  }

  /** A command without separators, then one separator: the first command read back. */
  lemma CommandsSplit(c: Cmd, rest: seq<string>)
    requires ";" !in c
    ensures Commands(c + [";"] + rest) == [c] + Commands(rest)
  {
    var args := c + [";"] + rest;
    IndexOfAfter(c, ";", rest);
    assert args[..|c|] == c;
    assert args[|c| + 1..] == rest;
  }

  // ---------------------------------------------------------------------------
  // Argument pieces

  /** `push_flag_arg`: the flag and its value, or nothing when there is no value. */
  function FlagArg(flag: string, arg: Option<string>): (r: seq<string>)
    ensures arg.None? ==> r == []
    ensures arg.Some? ==> r == [flag, arg.value]
  {
    if arg.Some? then [flag, arg.value] else []
  }

  function CwdArg(c: Cwd): seq<string>
  {
    FlagArg("-c", ToPath(c))
  }

  /** `push_target_arg`: the target is always present, so it is always written. */
  function TargetArg(t: Target): (r: seq<string>)
    ensures r == FlagArg("-t", Some(Display(t)))
  {
    ["-t", Display(t)]
  }

  function AxisArg(axis: Axis): seq<string>
  {
    if axis == Horizontal then ["-h"] else ["-v"]
  }

  function DirectionArg(d: Direction): seq<string>
  {
    match d
    case Left => ["-L"]
    case Right => ["-R"]
    case Up => ["-U"]
    case Down => ["-D"]
  }

  function NextPrevArg(d: Direction): seq<string>
  {
    if d == Left || d == Up then ["-p"] else ["-n"]
  }

  /** An inverted split makes its pane before (`-b`) the one it splits. */
  function FlowArg(f: SplitFlow): seq<string>
  {
    if f == Inverted then ["-b"] else []
  }

  datatype QueryScope = AllSessions | CurrentSession | CurrentWindowScope

  function ScopeArg(scope: QueryScope): seq<string>
  {
    match scope
    case AllSessions => ["-a"]
    case CurrentSession => ["-s"]
    case CurrentWindowScope => []
  }

  // ---------------------------------------------------------------------------
  // Single commands; `session` is the builder's current session name

  function SplitPaneCmd(session: Option<string>, axis: Axis, flow: SplitFlow, cwd: Cwd,
                        shellCommand: Option<string>, size: Option<string>): Cmd
  {
    ["split-window"] + TargetArg(SessionScope(session)) + AxisArg(axis) + FlowArg(flow)
      + CwdArg(cwd) + FlagArg("-l", size) + OptToSeq(shellCommand)
  }

  function SelectPaneAtCmd(session: Option<string>, d: Direction): Cmd
  {
    ["select-pane"] + TargetArg(SessionScope(session)) + DirectionArg(d)
  }

  function SelectWindowAtCmd(session: Option<string>, d: Direction): Cmd
  {
    ["select-window"] + TargetArg(SessionScope(session)) + NextPrevArg(d)
  }

  function SendKeysCmd(session: Option<string>, keys: seq<string>): Cmd
  {
    ["send-keys"] + TargetArg(SessionScope(session)) + keys
  }

  /** Kills the placeholder pane 0 of the current window. */
  function KillPaneCmd(session: Option<string>): Cmd
  {
    ["kill-pane"] + TargetArg(InPane(CurrentWindow(SessionScope(session)), "0"))
  }

  /** Kills window 1, the window tmux made with the session. */
  function KillWindowCmd(session: Option<string>): Cmd
  {
    ["kill-window"] + TargetArg(InWindow(SessionScope(session), "1"))
  }

  function NewSessionCmd(s: Session): Cmd
  {
    ["new-session"] + FlagArg("-s", Some(s.name)) + CwdArg(s.cwd) + ["-d"]
  }

  /** `new-window`, either at the end of the session or before window `before`. */
  function NewWindowCmd(session: Option<string>, w: Window, parentCwd: Cwd, before: Option<string>): Cmd
  {
    ["new-window"] + FlagArg("-n", w.name) + CwdArg(Joined(parentCwd, w.cwd))
      + (if before.Some? then ["-b"] + TargetArg(InWindow(SessionScope(session), before.value))
         else TargetArg(SessionScope(session)))
  }

  /** Name of a command, or "" for the empty list. */
  function NameOf(c: Cmd): string
  {
    if c == [] then "" else c[0]
  }

  /** How many of `cmds` are named `name`. */
  function CountNamed(cmds: seq<Cmd>, name: string): nat
  {
    if cmds == [] then 0 else (if NameOf(cmds[0]) == name then 1 else 0) + CountNamed(cmds[1..], name)
  }

  lemma {:induction false} CountNamedAppend(a: seq<Cmd>, b: seq<Cmd>, name: string)
    ensures CountNamed(a + b, name) == CountNamed(a, name) + CountNamed(b, name)
    decreases |a|
  {
    if a == [] {
      assert a + b == b;
    } else {
      assert (a + b)[0] == a[0];
      assert (a + b)[1..] == a[1..] + b;
      CountNamedAppend(a[1..], b, name);
    }
  }

  // ---------------------------------------------------------------------------
  // Split trees

  /** `apply_split`: a pane sends its keys, if it has any; a split makes the child
      side (with its size), builds the child's subtree, moves back to the parent
      side and builds the parent's subtree. */
  function ApplySplitCmds(session: Option<string>, s: Split, parentCwd: Cwd): seq<Cmd>
    decreases s
  {
    match s
    case Leaf(p) => if p.sendKeys.Some? then [SendKeysCmd(session, p.sendKeys.value)] else []
    case _ =>
      var sides := SidesOf(s);
      var flow := FlowOf(s);
      var axis := if s.H? then Horizontal else Vertical;
      var childPane := RootPane(sides.child);
      [SplitPaneCmd(session, axis, flow, Joined(parentCwd, childPane.cwd), childPane.shellCommand, sides.childSize)]
        + ApplySplitCmds(session, sides.child, parentCwd)
        + [SelectPaneAtCmd(session, Opposite(FlowDirection(flow, axis)))]
        + ApplySplitCmds(session, sides.parent, parentCwd)
  }

  /** The panes with keys to send. */
  function KeyedCount(ps: seq<Pane>): nat
  {
    if ps == [] then 0 else (if ps[0].sendKeys.Some? then 1 else 0) + KeyedCount(ps[1..])
  }

  lemma {:induction false} KeyedCountAppend(a: seq<Pane>, b: seq<Pane>)
    ensures KeyedCount(a + b) == KeyedCount(a) + KeyedCount(b)
    decreases |a|
  {
    if a == [] {
      assert a + b == b;
    } else {
      assert (a + b)[0] == a[0];
      assert (a + b)[1..] == a[1..] + b;
      KeyedCountAppend(a[1..], b);
    }
  }

  /** Every command of `cmds` has one of `names`. */
  predicate AllNamed(cmds: seq<Cmd>, names: set<string>)
  {
    forall i :: 0 <= i < |cmds| ==> NameOf(cmds[i]) in names
  }

  lemma {:induction false} CountNamedNone(cmds: seq<Cmd>, names: set<string>, name: string)
    requires AllNamed(cmds, names) && name !in names
    ensures CountNamed(cmds, name) == 0
    decreases |cmds|
  {
    if cmds != [] {
      CountNamedNone(cmds[1..], names, name);
    }
  }

  /** The commands of a split node: its split, the child's subtree, the selection
      of the parent side and the parent's subtree. */
  lemma SplitNodeCmds(session: Option<string>, s: Split, parentCwd: Cwd)
    requires !s.Leaf?
    ensures var sides := SidesOf(s);
      var flow := FlowOf(s);
      var axis := if s.H? then Horizontal else Vertical;
      var childPane := RootPane(sides.child);
      ApplySplitCmds(session, s, parentCwd) ==
        [SplitPaneCmd(session, axis, flow, Joined(parentCwd, childPane.cwd), childPane.shellCommand, sides.childSize)]
        + ApplySplitCmds(session, sides.child, parentCwd)
        + [SelectPaneAtCmd(session, Opposite(FlowDirection(flow, axis)))]
        + ApplySplitCmds(session, sides.parent, parentCwd)
  {
  }

  /** Counting the commands of a split node. */
  lemma SplitNodeCount(session: Option<string>, s: Split, parentCwd: Cwd, name: string)
    requires !s.Leaf?
    ensures CountNamed(ApplySplitCmds(session, s, parentCwd), name) ==
      (if name == "split-window" then 1 else 0) + CountNamed(ApplySplitCmds(session, SidesOf(s).child, parentCwd), name)
      + (if name == "select-pane" then 1 else 0) + CountNamed(ApplySplitCmds(session, SidesOf(s).parent, parentCwd), name)
  {
    var sides := SidesOf(s);
    var flow := FlowOf(s);
    var axis := if s.H? then Horizontal else Vertical;
    var childPane := RootPane(sides.child);
    var split := [SplitPaneCmd(session, axis, flow, Joined(parentCwd, childPane.cwd), childPane.shellCommand, sides.childSize)];
    var select := [SelectPaneAtCmd(session, Opposite(FlowDirection(flow, axis)))];
    var c := ApplySplitCmds(session, sides.child, parentCwd);
    var p := ApplySplitCmds(session, sides.parent, parentCwd);
    SplitNodeCmds(session, s, parentCwd);
    CountNamedAppend(split, c, name);
    CountNamedAppend(split + c, select, name);
    CountNamedAppend(split + c + select, p, name);
    assert split[1..] == [] && select[1..] == [];
  }

  /** The panes of a split are those of its two sides. */
  lemma SidesLeaves(s: Split)
    requires !s.Leaf?
    ensures Leaves(s) == Leaves(SidesOf(s).parent) + Leaves(SidesOf(s).child)
         || Leaves(s) == Leaves(SidesOf(s).child) + Leaves(SidesOf(s).parent)
  {
  }

  /** `apply_split` writes only `split-window`, `select-pane` and `send-keys`. */
  lemma {:induction false} ApplySplitNames(session: Option<string>, s: Split, parentCwd: Cwd)
    ensures AllNamed(ApplySplitCmds(session, s, parentCwd), {"split-window", "select-pane", "send-keys"})
    decreases s
  {
    if !s.Leaf? {
      ApplySplitNames(session, SidesOf(s).child, parentCwd);
      ApplySplitNames(session, SidesOf(s).parent, parentCwd);
      SplitNodeCmds(session, s, parentCwd);
    }
  }

  /** A tree of n panes takes n - 1 splits. */
  lemma {:induction false} ApplySplitSplits(session: Option<string>, s: Split, parentCwd: Cwd)
    ensures CountNamed(ApplySplitCmds(session, s, parentCwd), "split-window") == |Leaves(s)| - 1
    decreases s
  {
    LeavesNonEmpty(s);
    if s.Leaf? {
      ApplySplitNames(session, s, parentCwd);
      CountNamedNone(ApplySplitCmds(session, s, parentCwd), {"send-keys"}, "split-window");
    } else {
      SplitNodeCount(session, s, parentCwd, "split-window");
      ApplySplitSplits(session, SidesOf(s).child, parentCwd);
      ApplySplitSplits(session, SidesOf(s).parent, parentCwd);
      LeavesNonEmpty(SidesOf(s).child);
      LeavesNonEmpty(SidesOf(s).parent);
      SidesLeaves(s);
    }
  }

  /** ... and n - 1 moves back to a parent side. */
  lemma {:induction false} ApplySplitSelects(session: Option<string>, s: Split, parentCwd: Cwd)
    ensures CountNamed(ApplySplitCmds(session, s, parentCwd), "select-pane") == |Leaves(s)| - 1
    decreases s
  {
    LeavesNonEmpty(s);
    if s.Leaf? {
      CountNamedNone(ApplySplitCmds(session, s, parentCwd), {"send-keys"}, "select-pane");
    } else {
      SplitNodeCount(session, s, parentCwd, "select-pane");
      ApplySplitSelects(session, SidesOf(s).child, parentCwd);
      ApplySplitSelects(session, SidesOf(s).parent, parentCwd);
      LeavesNonEmpty(SidesOf(s).child);
      LeavesNonEmpty(SidesOf(s).parent);
      SidesLeaves(s);
    }
  }

  /** ... and one `send-keys` per pane that has keys. */
  lemma {:induction false} ApplySplitSendKeys(session: Option<string>, s: Split, parentCwd: Cwd)
    ensures CountNamed(ApplySplitCmds(session, s, parentCwd), "send-keys") == KeyedCount(Leaves(s))
    decreases s
  {
    if s.Leaf? {
      var cmds := ApplySplitCmds(session, s, parentCwd);
      assert [s.pane][1..] == [];
      if s.pane.sendKeys.Some? {
        assert cmds[1..] == [];
      }
    } else {
      var sides := SidesOf(s);
      SplitNodeCount(session, s, parentCwd, "send-keys");
      ApplySplitSendKeys(session, sides.child, parentCwd);
      ApplySplitSendKeys(session, sides.parent, parentCwd);
      SidesLeaves(s);
      KeyedCountAppend(Leaves(sides.parent), Leaves(sides.child));
      KeyedCountAppend(Leaves(sides.child), Leaves(sides.parent));
    }
  }

  /** `apply_root_split`: the fresh window's only pane is split horizontally to make
      the root pane, the placeholder pane 0 is killed, then the tree is built. */
  function ApplyRootSplitCmds(session: Option<string>, root: RootSplit, parentCwd: Cwd): seq<Cmd>
  {
    var first := RootPane(root.split);
    [SplitPaneCmd(session, Horizontal, Regular, Joined(parentCwd, first.cwd), first.shellCommand, None),
     KillPaneCmd(session)]
      + ApplySplitCmds(session, root.split, parentCwd)
  }

  /** A window of n panes takes n splits in all, and one pane is killed. */
  lemma RootSplitCounts(session: Option<string>, root: RootSplit, parentCwd: Cwd)
    ensures CountNamed(ApplyRootSplitCmds(session, root, parentCwd), "split-window") == |Leaves(root.split)|
    ensures CountNamed(ApplyRootSplitCmds(session, root, parentCwd), "kill-pane") == 1
  {
    var first := RootPane(root.split);
    var head := [SplitPaneCmd(session, Horizontal, Regular, Joined(parentCwd, first.cwd), first.shellCommand, None),
                 KillPaneCmd(session)];
    var tree := ApplySplitCmds(session, root.split, parentCwd);
    ApplySplitSplits(session, root.split, parentCwd);
    ApplySplitNames(session, root.split, parentCwd);
    CountNamedNone(tree, {"split-window", "select-pane", "send-keys"}, "kill-pane");
    LeavesNonEmpty(root.split);
    CountNamedAppend(head, tree, "split-window");
    CountNamedAppend(head, tree, "kill-pane");
    assert head[1..][1..] == [];
  }

  // ---------------------------------------------------------------------------
  // Active pane

  /** The index of the first set flag: the first active pane or window. */
  function FirstSet(flags: seq<bool>): (r: Option<nat>)
    ensures r.None? <==> forall i :: 0 <= i < |flags| ==> !flags[i]
    ensures r.Some? ==> r.value < |flags| && flags[r.value]
    ensures r.Some? ==> forall j :: 0 <= j < r.value ==> !flags[j]
  {
    if flags == [] then None
    else if flags[0] then Some(0)
    else match FirstSet(flags[1..])
      case None => None
      case Some(i) => Some(i + 1)
  }

  /** The `active` flags of panes, in order. */
  function PaneFlags(ps: seq<Pane>): (f: seq<bool>)
    ensures |f| == |ps| && forall i :: 0 <= i < |ps| ==> f[i] == ps[i].active
  {
    seq(|ps|, i requires 0 <= i < |ps| => ps[i].active)
  }

  /** `select_active_pane`: one `select-pane` of the first active pane, or nothing. */
  function SelectActivePaneCmds(session: Option<string>, w: Window): (r: seq<Cmd>)
    ensures |r| <= 1
    ensures r == [] <==> forall i :: 0 <= i < |Leaves(w.rootSplit.split)| ==> !Leaves(w.rootSplit.split)[i].active
  {
    match FirstSet(PaneFlags(Leaves(w.rootSplit.split)))
    case None => []
    case Some(i) => [["select-pane"] + TargetArg(InPane(CurrentWindow(SessionScope(session)), NatToString(i)))]
  }

  /** The pane selected is the first active pane in tmux index order: with the
      session name and the index, the target text names that pane. */
  lemma SelectActivePaneTarget(session: Option<string>, w: Window)
    requires SelectActivePaneCmds(session, w) != []
    ensures var i := FirstSet(PaneFlags(Leaves(w.rootSplit.split))).value;
      SelectActivePaneCmds(session, w)[0] == ["select-pane", "-t", session.GetOr("") + ":." + NatToString(i)]
      && (forall j :: 0 <= j < i ==> !Leaves(w.rootSplit.split)[j].active) && Leaves(w.rootSplit.split)[i].active
  {
    var i := FirstSet(PaneFlags(Leaves(w.rootSplit.split))).value;
    var ss := session.GetOr("");
    assert ss + ":" + "" + "." + NatToString(i) == ss + ":." + NatToString(i);
  }

  // ---------------------------------------------------------------------------
  // Windows and sessions

  /** What the builder remembers between commands. */
  datatype State = State(session: Option<string>, windowCount: nat, activeWindow: Option<nat>)

  /** The remembered active window is one of the windows made so far. */
  predicate ValidState(st: State)
  {
    st.activeWindow.Some? ==> st.activeWindow.value < st.windowCount
  }

  /** `new_window`'s bookkeeping: count the window, and remember it as the active
      one only when it is active and no window was remembered before. */
  function RecordWindow(st: State, w: Window): (r: State)
    ensures r.session == st.session && r.windowCount == st.windowCount + 1
    ensures ValidState(st) ==> ValidState(r)
    ensures st.activeWindow.Some? ==> r.activeWindow == st.activeWindow
  {
    State(st.session, st.windowCount + 1,
          if w.active && st.activeWindow.None? then Some(st.windowCount) else st.activeWindow)
  }

  /** `new_window`. */
  function NewWindowCmds(session: Option<string>, w: Window, parentCwd: Cwd, before: Option<string>): seq<Cmd>
  {
    var windowCwd := Joined(parentCwd, w.cwd);
    [NewWindowCmd(session, w, parentCwd, before)]
      + ApplyRootSplitCmds(session, w.rootSplit, windowCwd)
      + SelectActivePaneCmds(session, w)
  }

  /** The state after recording each window of `ws` in turn. */
  function RecordWindows(st: State, ws: seq<Window>): (r: State)
    ensures r.session == st.session && r.windowCount == st.windowCount + |ws|
    decreases |ws|
  {
    if ws == [] then st else RecordWindow(RecordWindows(st, ws[..|ws| - 1]), ws[|ws| - 1])
  }

  /** The `active` flags of windows, in order. */
  function WindowFlags(ws: seq<Window>): (f: seq<bool>)
    ensures |f| == |ws| && forall i :: 0 <= i < |ws| ==> f[i] == ws[i].active
  {
    seq(|ws|, i requires 0 <= i < |ws| => ws[i].active)
  }

  /** Adding a flag at the end keeps an earlier set flag, and otherwise finds the new one if set. */
  lemma {:induction false} FirstSetSnoc(flags: seq<bool>, b: bool)
    ensures FirstSet(flags + [b]) ==
      if FirstSet(flags).Some? then FirstSet(flags)
      else if b then Some(|flags|) else None
    decreases |flags|
  {
    if flags == [] {
      assert [] + [b] == [b] && [b][1..] == [];
    } else {
      assert (flags + [b])[0] == flags[0];
      assert (flags + [b])[1..] == flags[1..] + [b];
      FirstSetSnoc(flags[1..], b);
    }
  }

  /** Only the first active window is remembered: recording windows keeps an
      earlier choice, and otherwise picks the first active one among them. */
  lemma {:induction false} RecordWindowsActive(st: State, ws: seq<Window>)
    ensures RecordWindows(st, ws).activeWindow ==
      if st.activeWindow.Some? then st.activeWindow
      else match FirstSet(WindowFlags(ws))
        case None => None
        case Some(i) => Some(st.windowCount + i)
    ensures ValidState(st) ==> ValidState(RecordWindows(st, ws))
    decreases |ws|
  {
    if ws != [] {
      var init := ws[..|ws| - 1];
      RecordWindowsActive(st, init);
      FirstSetSnoc(WindowFlags(init), ws[|ws| - 1].active);
      WindowFlagsSnoc(ws);
    }
  }

  lemma WindowFlagsSnoc(ws: seq<Window>)
    requires ws != []
    ensures WindowFlags(ws) == WindowFlags(ws[..|ws| - 1]) + [ws[|ws| - 1].active]
  {
    var f, g := WindowFlags(ws), WindowFlags(ws[..|ws| - 1]) + [ws[|ws| - 1].active];
    assert |f| == |g|;
    forall i | 0 <= i < |f| ensures f[i] == g[i] {
      if i < |ws| - 1 {
        assert g[i] == WindowFlags(ws[..|ws| - 1])[i];
      }
    }
  }

  /** `new_window` over each window of `ws` in turn. */
  function WindowsCmds(st: State, ws: seq<Window>, parentCwd: Cwd): seq<Cmd>
    decreases |ws|
  {
    if ws == [] then []
    else WindowsCmds(st, ws[..|ws| - 1], parentCwd) + NewWindowCmds(st.session, ws[|ws| - 1], parentCwd, None)
  }

  lemma WindowsSnoc(st: State, ws: seq<Window>, i: nat, parentCwd: Cwd)
    requires i < |ws|
    ensures WindowsCmds(st, ws[..i + 1], parentCwd) == WindowsCmds(st, ws[..i], parentCwd) + NewWindowCmds(st.session, ws[i], parentCwd, None)
    ensures RecordWindows(st, ws[..i + 1]) == RecordWindow(RecordWindows(st, ws[..i]), ws[i])
  {
    assert ws[..i + 1][..i] == ws[..i];
  }

  /** n copies of `c`. */
  function Repeat(n: nat, c: Cmd): (r: seq<Cmd>)
    ensures |r| == n && forall i :: 0 <= i < n ==> r[i] == c
  {
    if n == 0 then [] else Repeat(n - 1, c) + [c]
  }

  /** `select_active_window`: with a session name, select the remembered window by
      index; without, step to it from the last window with `select-window -p`. */
  function SelectActiveWindowCmds(st: State): (r: seq<Cmd>)
    requires ValidState(st)
    ensures st.activeWindow.None? ==> r == []
    ensures st.activeWindow.Some? && st.session.Some? ==>
      |r| == 1 && r[0] == ["select-window", "-t", st.session.value + ":" + NatToString(st.activeWindow.value) + "."]
    ensures st.activeWindow.Some? && st.session.None? ==>
      |r| == st.windowCount - st.activeWindow.value - 1 &&
      forall i :: 0 <= i < |r| ==> r[i] == ["select-window", "-t", ":", "-p"]
  {
    match st.activeWindow
    case None => []
    case Some(i) =>
      if st.session.Some? then [["select-window"] + TargetArg(InWindow(SessionScope(st.session), NatToString(i)))]
      else
        assert Display(SessionScope(None)) == ":" by { assert "" + ":" == ":"; }
        assert SelectWindowAtCmd(None, Left) == ["select-window", "-t", ":", "-p"];
        Repeat(st.windowCount - i - 1, SelectWindowAtCmd(None, Left))
  }

  /** `new_windows`: the windows, then the selection of the active one. */
  function NewWindowsCmds(st: State, ws: seq<Window>, parentCwd: Cwd): seq<Cmd>
    requires ValidState(st)
  {
    RecordWindowsActive(st, ws);
    WindowsCmds(st, ws, parentCwd) + SelectActiveWindowCmds(RecordWindows(st, ws))
  }

  /** `create_initial_window`: start counting afresh, make the first window before
      window 0 and kill window 1, the one tmux made along with the session. */
  function InitialWindowCmds(session: Option<string>, w: Window, parentCwd: Cwd): seq<Cmd>
  {
    NewWindowCmds(session, w, parentCwd, Some("0")) + [KillWindowCmd(session)]
  }

  function InitialWindowState(session: Option<string>, w: Window): (r: State)
    ensures ValidState(r) && r.windowCount == 1
  {
    RecordWindow(State(session, 0, None), w)
  }

  /** `new_session`: nothing for a session without windows; otherwise the session,
      its first window in place of tmux's own, the others, and the active one. */
  function NewSessionCmds(st: State, s: Session): seq<Cmd>
  {
    if s.windows == [] then []
    else
      var session := Some(s.name);
      var afterFirst := InitialWindowState(session, s.windows[0]);
      [NewSessionCmd(s)]
        + InitialWindowCmds(session, s.windows[0], s.cwd)
        + NewWindowsCmds(afterFirst, s.windows[1..], s.cwd)
  }

  function NewSessionState(st: State, s: Session): (r: State)
    ensures ValidState(r) || r == st
  {
    if s.windows == [] then st
    else
      RecordWindowsActive(InitialWindowState(Some(s.name), s.windows[0]), s.windows[1..]);
      RecordWindows(InitialWindowState(Some(s.name), s.windows[0]), s.windows[1..])
  }

  /** A session with windows starts with `new-session -s name [-c cwd] -d`, then
      makes its first window before window 0 and kills window 1. */
  lemma NewSessionShape(st: State, s: Session)
    requires s.windows != []
    ensures NewSessionCmds(st, s)[0] == ["new-session", "-s", s.name] + CwdArg(s.cwd) + ["-d"]
    ensures NewSessionCmds(st, s)[1..1 + |NewWindowCmds(Some(s.name), s.windows[0], s.cwd, Some("0"))|]
         == NewWindowCmds(Some(s.name), s.windows[0], s.cwd, Some("0"))
    ensures NewSessionCmds(st, s)[1] == ["new-window"] + FlagArg("-n", s.windows[0].name)
         + CwdArg(Joined(s.cwd, s.windows[0].cwd)) + ["-b", "-t", s.name + ":0."]
    ensures NewSessionCmds(st, s)[1 + |NewWindowCmds(Some(s.name), s.windows[0], s.cwd, Some("0"))|]
         == ["kill-window", "-t", s.name + ":1."]
  {
    var first := NewWindowCmds(Some(s.name), s.windows[0], s.cwd, Some("0"));
    var rest := NewWindowsCmds(InitialWindowState(Some(s.name), s.windows[0]), s.windows[1..], s.cwd);
    NewSessionParts(st, s);
    FramedIndices(NewSessionCmd(s), first, KillWindowCmd(Some(s.name)), rest);
    FirstWindowShape(s);
    SessionAndKillText(s);
  }

  lemma NewSessionParts(st: State, s: Session)
    requires s.windows != []
    ensures NewSessionCmds(st, s) == [NewSessionCmd(s)] + NewWindowCmds(Some(s.name), s.windows[0], s.cwd, Some("0"))
      + [KillWindowCmd(Some(s.name))] + NewWindowsCmds(InitialWindowState(Some(s.name), s.windows[0]), s.windows[1..], s.cwd)
  {
  }

  lemma SessionAndKillText(s: Session)
    ensures NewSessionCmd(s) == ["new-session", "-s", s.name] + CwdArg(s.cwd) + ["-d"]
    ensures KillWindowCmd(Some(s.name)) == ["kill-window", "-t", s.name + ":1."]
  {
    assert Display(InWindow(SessionScope(Some(s.name)), "1")) == s.name + ":1.";
  }

  lemma FirstWindowShape(s: Session)
    requires s.windows != []
    ensures NewWindowCmds(Some(s.name), s.windows[0], s.cwd, Some("0"))[0] == ["new-window"] + FlagArg("-n", s.windows[0].name)
         + CwdArg(Joined(s.cwd, s.windows[0].cwd)) + ["-b", "-t", s.name + ":0."]
  {
    assert Display(InWindow(SessionScope(Some(s.name)), "0")) == s.name + ":0.";
  }

  /** Where the parts of `[a] + f + [k] + r` sit. */
  lemma FramedIndices<T>(a: T, f: seq<T>, k: T, r: seq<T>)
    ensures ([a] + f + [k] + r)[0] == a
    ensures ([a] + f + [k] + r)[1..1 + |f|] == f
    ensures f != [] ==> ([a] + f + [k] + r)[1] == f[0]
    ensures ([a] + f + [k] + r)[1 + |f|] == k
  {
  }

  /** `new_sessions`: each session in turn. */
  function SessionsCmds(st: State, ss: seq<Session>): seq<Cmd>
    decreases |ss|
  {
    if ss == [] then []
    else SessionsCmds(st, ss[..|ss| - 1]) + NewSessionCmds(SessionsState(st, ss[..|ss| - 1]), ss[|ss| - 1])
  }

  function SessionsState(st: State, ss: seq<Session>): (r: State)
    ensures ValidState(st) ==> ValidState(r)
    decreases |ss|
  {
    if ss == [] then st else NewSessionState(SessionsState(st, ss[..|ss| - 1]), ss[|ss| - 1])
  }

  lemma SessionsSnoc(st: State, ss: seq<Session>, i: nat)
    requires i < |ss|
    ensures SessionsCmds(st, ss[..i + 1]) == SessionsCmds(st, ss[..i]) + NewSessionCmds(SessionsState(st, ss[..i]), ss[i])
    ensures SessionsState(st, ss[..i + 1]) == NewSessionState(SessionsState(st, ss[..i]), ss[i])
  {
    assert ss[..i + 1][..i] == ss[..i];
  }

  /** The sessions with at least one window. */
  function NonEmptyCount(ss: seq<Session>): nat
    decreases |ss|
  {
    if ss == [] then 0 else NonEmptyCount(ss[..|ss| - 1]) + (if ss[|ss| - 1].windows != [] then 1 else 0)
  }

  /** One `new-session` per session with windows; sessions without windows are skipped. */
  lemma {:induction false} SessionsCount(st: State, ss: seq<Session>)
    ensures CountNamed(SessionsCmds(st, ss), "new-session") == NonEmptyCount(ss)
    decreases |ss|
  {
    if ss != [] {
      var init := ss[..|ss| - 1];
      var s := ss[|ss| - 1];
      SessionsCount(st, init);
      CountNamedAppend(SessionsCmds(st, init), NewSessionCmds(SessionsState(st, init), s), "new-session");
      NewSessionCount(SessionsState(st, init), s);
    }
  }

  lemma NewSessionCount(st: State, s: Session)
    ensures CountNamed(NewSessionCmds(st, s), "new-session") == if s.windows == [] then 0 else 1
  {
    if s.windows != [] {
      var session := Some(s.name);
      var tail := InitialWindowCmds(session, s.windows[0], s.cwd)
        + NewWindowsCmds(InitialWindowState(session, s.windows[0]), s.windows[1..], s.cwd);
      assert NewSessionCmds(st, s) == [NewSessionCmd(s)] + tail;
      CountNamedAppend([NewSessionCmd(s)], tail, "new-session");
      assert [NewSessionCmd(s)][1..] == [];
      SessionTailNames(session, s.windows, s.cwd);
      CountNamedNone(tail, WindowCommandNames, "new-session");
    }
  }

  /** The commands that `new_window`, `create_initial_window` and `new_windows` write. */
  const WindowCommandNames: set<string> :=
    {"new-window", "split-window", "kill-pane", "select-pane", "send-keys", "kill-window", "select-window"}

  lemma AllNamedAppend(a: seq<Cmd>, b: seq<Cmd>, names: set<string>)
    requires AllNamed(a, names) && AllNamed(b, names)
    ensures AllNamed(a + b, names)
  {
    assert forall i :: |a| <= i < |a + b| ==> (a + b)[i] == b[i - |a|];
  }

  lemma NewWindowNames(session: Option<string>, w: Window, parentCwd: Cwd, before: Option<string>)
    ensures AllNamed(NewWindowCmds(session, w, parentCwd, before), WindowCommandNames)
  {
    var windowCwd := Joined(parentCwd, w.cwd);
    var root := w.rootSplit;
    var first := RootPane(root.split);
    var head := [SplitPaneCmd(session, Horizontal, Regular, Joined(windowCwd, first.cwd), first.shellCommand, None),
                 KillPaneCmd(session)];
    ApplySplitNames(session, root.split, windowCwd);
    AllNamedAppend(head, ApplySplitCmds(session, root.split, windowCwd), WindowCommandNames);
    AllNamedAppend([NewWindowCmd(session, w, parentCwd, before)], ApplyRootSplitCmds(session, root, windowCwd), WindowCommandNames);
    AllNamedAppend([NewWindowCmd(session, w, parentCwd, before)] + ApplyRootSplitCmds(session, root, windowCwd),
                   SelectActivePaneCmds(session, w), WindowCommandNames);
  }

  lemma {:induction false} WindowsNames(st: State, ws: seq<Window>, parentCwd: Cwd)
    ensures AllNamed(WindowsCmds(st, ws, parentCwd), WindowCommandNames)
    decreases |ws|
  {
    if ws != [] {
      WindowsNames(st, ws[..|ws| - 1], parentCwd);
      NewWindowNames(st.session, ws[|ws| - 1], parentCwd, None);
      AllNamedAppend(WindowsCmds(st, ws[..|ws| - 1], parentCwd),
                     NewWindowCmds(st.session, ws[|ws| - 1], parentCwd, None), WindowCommandNames);
    }
  }

  /** Window commands only ever make and arrange windows and panes. */
  lemma SessionTailNames(session: Option<string>, ws: seq<Window>, cwd: Cwd)
    requires ws != []
    ensures AllNamed(InitialWindowCmds(session, ws[0], cwd)
                     + NewWindowsCmds(InitialWindowState(session, ws[0]), ws[1..], cwd), WindowCommandNames)
  {
    var st := InitialWindowState(session, ws[0]);
    NewWindowNames(session, ws[0], cwd, Some("0"));
    AllNamedAppend(NewWindowCmds(session, ws[0], cwd, Some("0")), [KillWindowCmd(session)], WindowCommandNames);
    WindowsNames(st, ws[1..], cwd);
    RecordWindowsActive(st, ws[1..]);
    AllNamedAppend(WindowsCmds(st, ws[1..], cwd), SelectActiveWindowCmds(RecordWindows(st, ws[1..])), WindowCommandNames);
    AllNamedAppend(InitialWindowCmds(session, ws[0], cwd), NewWindowsCmds(st, ws[1..], cwd), WindowCommandNames);
  }

  datatype SessionSelectMode = Attach | Switch | Detached

  /** `select_session`: nothing when detached, else one `switch-client` or
      `attach-session` aimed at the named session (or the current one). */
  function SelectSessionCmds(name: Option<string>, mode: SessionSelectMode): (r: seq<Cmd>)
    ensures mode == Detached <==> r == []
    ensures mode == Switch ==> |r| == 1 && r[0] == ["switch-client", "-t", name.GetOr("") + ":"]
    ensures mode == Attach ==> |r| == 1 && r[0] == ["attach-session", "-t", name.GetOr("") + ":"]
  {
    match mode
    case Detached => []
    case Switch => [["switch-client"] + TargetArg(SessionScope(name))]
    case Attach => [["attach-session"] + TargetArg(SessionScope(name))]
  }

  /** `query_panes`: `list-panes -F format` with the scope's flag. */
  function QueryPanesCmd(format: string, scope: QueryScope): Cmd
  {
    ["list-panes", "-F", format] + ScopeArg(scope)
  }
}
