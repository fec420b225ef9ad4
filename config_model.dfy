/** The declarative configuration: sessions, windows and their split trees,
    the flat `SplitMap` form the trees are (de)serialized through, and the
    stack-based iterator that visits panes in tmux index order. */
module ConfigModel {
  import opened Wrappers
  import opened Seqs
  import opened Paths

  datatype Pane = Pane(cwd: Cwd, active: bool, shellCommand: Option<string>, sendKeys: Option<seq<string>>)

  /** `Split`: a single pane (`Split::Pane`), a left/right split or a top/bottom split. */
  datatype Split =
    | Leaf(pane: Pane)
    | H(left: HSplitPart, right: HSplitPart)
    | V(top: VSplitPart, bottom: VSplitPart)

  datatype HSplitPart = HSplitPart(width: Option<string>, split: Split)
  datatype VSplitPart = VSplitPart(height: Option<string>, split: Split)

  /** The split tree directly under a window. */
  datatype RootSplit = RootSplit(split: Split)

  datatype Window = Window(name: Option<string>, cwd: Cwd, active: bool, rootSplit: RootSplit)
  datatype Session = Session(name: string, cwd: Cwd, windows: seq<Window>)

  /** A configuration as loaded, with the include paths not yet resolved. */
  datatype PartialConfig = PartialConfig(
    includes: seq<string>, selectedSession: Option<string>, sessions: seq<Session>, windows: seq<Window>)

  /** A configuration without includes. */
  datatype Config = Config(selectedSession: Option<string>, sessions: seq<Session>, windows: seq<Window>)

  datatype UnresolvedIncludes = UnresolvedIncludes

  const DefaultPane: Pane := Pane(Paths.Default, false, None, None)
  const DefaultSplit: Split := Leaf(DefaultPane)
  const DefaultHPart: HSplitPart := HSplitPart(None, DefaultSplit)
  const DefaultVPart: VSplitPart := VSplitPart(None, DefaultSplit)

  /** `Split::single_pane`. */
  function SinglePane(s: Split): (r: Option<Pane>)
    ensures r.Some? <==> s.Leaf?
    ensures r.Some? ==> Leaves(s) == [r.value]
  {
    if s.Leaf? then Some(s.pane) else None
  }

  /** The panes of a tree in tmux index order: left before right, top before bottom. */
  function Leaves(s: Split): seq<Pane>
  {
    match s
    case Leaf(p) => [p]
    case H(l, r) => Leaves(l.split) + Leaves(r.split)
    case V(t, b) => Leaves(t.split) + Leaves(b.split)
  }

  lemma {:induction false} LeavesNonEmpty(s: Split)
    ensures |Leaves(s)| >= 1
  {
    match s
    case Leaf(_) =>
    case H(l, r) => LeavesNonEmpty(l.split);
    case V(t, b) => LeavesNonEmpty(t.split);
  }

  /** The number of nodes of a tree. */
  function NodeCount(s: Split): nat
  {
    match s
    case Leaf(_) => 1
    case H(l, r) => 1 + NodeCount(l.split) + NodeCount(r.split)
    case V(t, b) => 1 + NodeCount(t.split) + NodeCount(b.split)
  }

  function StackNodeCount(st: seq<Split>): nat
  {
    if st == [] then 0 else NodeCount(st[|st| - 1]) + StackNodeCount(st[..|st| - 1])
  }

  /** The panes still to come from an iterator stack: the top of the stack (its last element) first. */
  function StackLeaves(st: seq<Split>): seq<Pane>
  {
    if st == [] then [] else Leaves(st[|st| - 1]) + StackLeaves(st[..|st| - 1])
  }

  lemma StackLeavesEmpty(st: seq<Split>)
    ensures StackLeaves(st) == [] <==> st == []
  {
    if st != [] { LeavesNonEmpty(st[|st| - 1]); }
  }

  /** Pushing a node puts its panes in front of those already on the stack. */
  lemma StackPush(below: seq<Split>, x: Split)
    ensures StackLeaves(below + [x]) == Leaves(x) + StackLeaves(below)
    ensures StackNodeCount(below + [x]) == NodeCount(x) + StackNodeCount(below)
  {
    assert (below + [x])[..|below|] == below;
  }

  /** `Panes`: iterates the panes of a tree in tmux index order with an explicit stack. */
  class Panes {
    var stack: seq<Split>

    /** The panes the iterator has still to yield. */
    ghost function Remaining(): seq<Pane>
      reads this
    {
      StackLeaves(stack)
    }

    /** `Panes::new`. */
    constructor (root: Split)
      ensures stack == [root] && Remaining() == Leaves(root)
    {
      stack := [root];
      new;
      StackPush([], root);
      assert [] + [root] == [root];
    }

    /** `Panes::next`: pop a node; yield a pane, or push the two halves of a split
        (second half first) and carry on. */
    method Next() returns (p: Option<Pane>)
      modifies this
      ensures old(Remaining()) == [] ==> p.None? && Remaining() == []
      ensures old(Remaining()) != [] ==> p == Some(old(Remaining())[0]) && Remaining() == old(Remaining())[1..]
      decreases StackNodeCount(stack)
    {
      StackLeavesEmpty(stack);
      if stack == [] {
        return None;
      }
      var top := stack[|stack| - 1];
      var below := stack[..|stack| - 1];
      assert stack == below + [top];
      StackPush(below, top);
      if top.Leaf? {
        stack := below;
        return Some(top.pane);
      }
      var (first, second) := HalvesOf(top);
      PushHalves(below, top, first, second);
      stack := below + [second, first];
      p := Next();
    }
  }

  /** The two halves of a split in the order they are visited. */
  function HalvesOf(s: Split): (Split, Split)
    requires !s.Leaf?
  {
    if s.H? then (s.left.split, s.right.split) else (s.top.split, s.bottom.split)
  }

  /** Replacing a split on top of the stack by its two halves keeps the panes to come
      and shrinks the stack. */
  lemma PushHalves(below: seq<Split>, top: Split, first: Split, second: Split)
    requires !top.Leaf? && (first, second) == HalvesOf(top)
    ensures StackLeaves(below + [second, first]) == StackLeaves(below + [top])
    ensures StackNodeCount(below + [second, first]) < StackNodeCount(below + [top])
    ensures StackLeaves(below + [second, first]) != []
  {
    var rest := StackLeaves(below);
    assert Leaves(top) == Leaves(first) + Leaves(second);
    assert NodeCount(top) == 1 + NodeCount(first) + NodeCount(second);
    StackPush(below, top);
    StackPush(below, second);
    StackPush(below + [second], first);
    assert below + [second] + [first] == below + [second, first];
    assert Leaves(first) + (Leaves(second) + rest) == Leaves(first) + Leaves(second) + rest;
    LeavesNonEmpty(first);
  }

  /** Running the `Panes` iterator to the end yields exactly the panes of the tree, in order. */
  method CollectPanes(root: Split) returns (ps: seq<Pane>)
    ensures ps == Leaves(root)
  {
    var it := new Panes(root);
    ps := [];
    var p := it.Next();
    while p.Some?
      invariant p.Some? ==> ps + [p.value] + it.Remaining() == Leaves(root)
      invariant p.None? ==> ps == Leaves(root)
      decreases |it.Remaining()| + (if p.Some? then 1 else 0)
    {
      ps := ps + [p.value];
      p := it.Next();
    }
  }

  /** Two trees with the same splits and sizes, whatever their panes. */
  predicate SameShape(a: Split, b: Split)
  {
    match a
    case Leaf(_) => b.Leaf?
    case H(l, r) => b.H? && l.width == b.left.width && r.width == b.right.width
                    && SameShape(l.split, b.left.split) && SameShape(r.split, b.right.split)
    case V(t, u) => b.V? && t.height == b.top.height && u.height == b.bottom.height
                    && SameShape(t.split, b.top.split) && SameShape(u.split, b.bottom.split)
  }

  /** What the import writes into a pane through `PanesMut`. */
  datatype PaneUpdate = PaneUpdate(active: bool, cwd: Cwd)

  function ApplyUpdate(p: Pane, u: PaneUpdate): Pane
  {
    p.(active := u.active, cwd := u.cwd)
  }

  /** The panes `ps` zipped with the updates `us`: the first pairs updated, the surplus on
      either side left as it is or dropped. */
  function ZipPanes(ps: seq<Pane>, us: seq<PaneUpdate>): seq<Pane>
  {
    if ps == [] then []
    else if us == [] then ps
    else [ApplyUpdate(ps[0], us[0])] + ZipPanes(ps[1..], us[1..])
  }

  function Min(a: nat, b: nat): nat { if a < b then a else b }

  /** Element by element: the first pairs are updated, everything after untouched. */
  lemma {:induction false} ZipPanesAt(ps: seq<Pane>, us: seq<PaneUpdate>)
    ensures |ZipPanes(ps, us)| == |ps|
    ensures forall i :: 0 <= i < Min(|ps|, |us|) ==> ZipPanes(ps, us)[i] == ApplyUpdate(ps[i], us[i])
    ensures forall i :: Min(|ps|, |us|) <= i < |ps| ==> ZipPanes(ps, us)[i] == ps[i]
  {
    if ps != [] && us != [] {
      ZipPanesAt(ps[1..], us[1..]);
    }
  }

  lemma {:induction false} ZipPanesAppend(a: seq<Pane>, b: seq<Pane>, us: seq<PaneUpdate>)
    ensures ZipPanes(a + b, us) == ZipPanes(a, us) + ZipPanes(b, us[Min(|a|, |us|)..])
  {
    if a == [] {
      assert a + b == b;
    } else if us == [] {
      assert ZipPanes(a + b, us) == a + b;
      assert ZipPanes(b, us[Min(|a|, |us|)..]) == b;
    } else {
      ZipPanesAppend(a[1..], b, us[1..]);
      ZipPanesAppendStep(a, b, us);
    }
  }

  lemma DropAfterFirst<T>(us: seq<T>, n: nat)
    requires n > 0 && us != []
    ensures us[1..][Min(n - 1, |us| - 1)..] == us[Min(n, |us|)..]
  {
  }

  lemma ZipPanesCons(ps: seq<Pane>, us: seq<PaneUpdate>)
    requires ps != [] && us != []
    ensures ZipPanes(ps, us) == [ApplyUpdate(ps[0], us[0])] + ZipPanes(ps[1..], us[1..])
  {
  }

  /** The inductive step of `ZipPanesAppend`: one pair updated in front. */
  lemma ZipPanesAppendStep(a: seq<Pane>, b: seq<Pane>, us: seq<PaneUpdate>)
    requires a != [] && us != []
    requires ZipPanes(a[1..] + b, us[1..]) == ZipPanes(a[1..], us[1..]) + ZipPanes(b, us[1..][Min(|a| - 1, |us| - 1)..])
    ensures ZipPanes(a + b, us) == ZipPanes(a, us) + ZipPanes(b, us[Min(|a|, |us|)..])
  {
    ConsOfConcat(a, b);
    ZipPanesCons(a + b, us);
    ZipPanesCons(a, us);
    DropAfterFirst(us, |a|);
    Assoc([ApplyUpdate(a[0], us[0])], ZipPanes(a[1..], us[1..]), ZipPanes(b, us[Min(|a|, |us|)..]));
  }

  /** Walking `PanesMut` zipped with `us`: the panes, in the order `Panes` visits them,
      receive the updates pairwise (`ZipPanes`) while the splits stay as they are.
      Also returns how many updates were used. */
  function ZipLeaves(s: Split, us: seq<PaneUpdate>): (r: (Split, nat))
    ensures r.1 == Min(|Leaves(s)|, |us|)
    ensures SameShape(s, r.0)
    ensures Leaves(r.0) == ZipPanes(Leaves(s), us)
  {
    match s
    case Leaf(p) =>
      if us == [] then (s, 0) else (Leaf(ApplyUpdate(p, us[0])), 1)
    case H(l, r) =>
      var (l', k) := ZipLeaves(l.split, us);
      var (r', k') := ZipLeaves(r.split, us[k..]);
      ZipPanesAppend(Leaves(l.split), Leaves(r.split), us);
      (H(l.(split := l'), r.(split := r')), k + k')
    case V(tp, b) =>
      var (t', k) := ZipLeaves(tp.split, us);
      var (b', k') := ZipLeaves(b.split, us[k..]);
      ZipPanesAppend(Leaves(tp.split), Leaves(b.split), us);
      (V(tp.(split := t'), b.(split := b')), k + k')
  }

  /** The flat map form of a split node, as it appears in the configuration file. */
  datatype SplitMap = SplitMap(
    left: Option<HSplitPart>, right: Option<HSplitPart>,
    top: Option<VSplitPart>, bottom: Option<VSplitPart>,
    cwd: Cwd, active: bool, shellCommand: Option<string>, sendKeys: Option<seq<string>>)

  const DefaultSplitMap: SplitMap := SplitMap(None, None, None, None, Paths.Default, false, None, None)

  /** `From<SplitMap> for Split`: a horizontal pair wins over a vertical one; a missing
      half of a pair is the default part; with neither pair the map is a pane. */
  function FromSplitMap(m: SplitMap): (s: Split)
    ensures (m.left.Some? || m.right.Some?) ==> s == H(m.left.GetOr(DefaultHPart), m.right.GetOr(DefaultHPart))
    ensures m.left.None? && m.right.None? && (m.top.Some? || m.bottom.Some?) ==>
              s == V(m.top.GetOr(DefaultVPart), m.bottom.GetOr(DefaultVPart))
    ensures m.left.None? && m.right.None? && m.top.None? && m.bottom.None? ==>
              s == Leaf(Pane(m.cwd, m.active, m.shellCommand, m.sendKeys))
  {
    if m.left.Some? || m.right.Some? then
      H(m.left.GetOr(DefaultHPart), m.right.GetOr(DefaultHPart))
    else if m.top.Some? || m.bottom.Some? then
      V(m.top.GetOr(DefaultVPart), m.bottom.GetOr(DefaultVPart))
    else
      Leaf(Pane(m.cwd, m.active, m.shellCommand, m.sendKeys))
  }

  /** `From<Split> for SplitMap`: only the fields of the node's own kind are set. */
  function ToSplitMap(s: Split): (m: SplitMap)
  {
    match s
    case Leaf(p) => DefaultSplitMap.(cwd := p.cwd, active := p.active, shellCommand := p.shellCommand, sendKeys := p.sendKeys)
    case H(l, r) => DefaultSplitMap.(left := Some(l), right := Some(r))
    case V(t, b) => DefaultSplitMap.(top := Some(t), bottom := Some(b))
  }

  /** A map in the form `ToSplitMap` writes: one full pair and every other field default,
      or no pair at all. */
  predicate Canonical(m: SplitMap)
  {
    var paneFieldsDefault := m.cwd == Paths.Default && !m.active && m.shellCommand.None? && m.sendKeys.None?;
    || (m.left.Some? && m.right.Some? && m.top.None? && m.bottom.None? && paneFieldsDefault)
    || (m.left.None? && m.right.None? && m.top.Some? && m.bottom.Some? && paneFieldsDefault)
    || (m.left.None? && m.right.None? && m.top.None? && m.bottom.None?)
  }

  /** Serializing a tree node and reading it back gives the node again. */
  lemma SplitMapRoundTrip(s: Split)
    ensures Canonical(ToSplitMap(s))
    ensures FromSplitMap(ToSplitMap(s)) == s
  {
  }

  /** Reading a map and writing it back is the identity exactly on canonical maps. */
  lemma SplitMapNormalizes(m: SplitMap)
    ensures ToSplitMap(FromSplitMap(m)) == m <==> Canonical(m)
  {
  }

  /** `From<RootSplit> for SplitMap`: a root that is a single pane loses its `active`
      flag (the window carries that), then the tree is converted. */
  method RootToSplitMap(root: RootSplit) returns (m: SplitMap)
    ensures root.split.Leaf? ==> m == ToSplitMap(Leaf(root.split.pane.(active := false)))
    ensures !root.split.Leaf? ==> m == ToSplitMap(root.split)
    ensures !m.active
  {
    var split := root.split;
    if split.Leaf? {
      split := Leaf(split.pane.(active := false));
    }
    m := ToSplitMap(split);
  }

  /** `From<SplitMap> for RootSplit`. */
  function RootFromSplitMap(m: SplitMap): RootSplit
  {
    RootSplit(FromSplitMap(m))
  }

  /** A window's tree survives serialization, except the `active` flag of a single root pane. */
  method RootRoundTrip(root: RootSplit) returns (back: RootSplit)
    ensures root.split.Leaf? ==> back == RootSplit(Leaf(root.split.pane.(active := false)))
    ensures !root.split.Leaf? ==> back == root
  {
    var m := RootToSplitMap(root);
    back := RootFromSplitMap(m);
  }

  /** `is_default_size`: no size, or exactly `50%`, is left out when serializing. */
  predicate IsDefaultSize(size: Option<string>)
  {
    match size
    case None => true
    case Some(s) => s == "50%"
  }

  /** The size a split part carries after being written out and read back: the field is
      skipped when it is a default size, and a skipped field reads back as no size. */
  function WrittenSize(size: Option<string>): (r: Option<string>)
    ensures r.None? <==> IsDefaultSize(size)
    ensures r.Some? ==> r == size
  {
    if IsDefaultSize(size) then None else size
  }

  /** Writing a size out a second time changes nothing more, and what it drops is
      exactly a `50%` or a missing size. */
  lemma WrittenSizeStable(size: Option<string>)
    ensures WrittenSize(WrittenSize(size)) == WrittenSize(size)
    ensures WrittenSize(size) != size <==> size == Some("50%")
  {
  }

  /** `PartialConfig::into_config`: succeeds exactly when there are no includes left,
      and then keeps everything else. */
  function IntoConfig(c: PartialConfig): (r: Result<Config, UnresolvedIncludes>)
    ensures r.Ok? <==> c.includes == []
    ensures r.Ok? ==> (r.value.selectedSession == c.selectedSession
                       && r.value.sessions == c.sessions && r.value.windows == c.windows)
  {
    if c.includes == [] then Ok(Config(c.selectedSession, c.sessions, c.windows))
    else Err(UnresolvedIncludes)
  }

  /** A configuration written out without includes and read back converts to itself. */
  lemma IntoConfigRoundTrip(c: Config)
    ensures IntoConfig(PartialConfig([], c.selectedSession, c.sessions, c.windows)) == Ok(c)
  {
  }
}
