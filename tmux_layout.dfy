/** tmux's `window_layout` descriptor: its parser (recursive descent, as pure functions
    returning the remaining input) and its conversion into a configuration split tree. */
module TmuxLayout {
  import opened Wrappers
  import opened Seqs
  import opened Text
  import ConfigModel

  datatype Size = Size(width: nat, height: nat)
  datatype PaneGeom = PaneGeom(size: Size, xOffset: nat, yOffset: nat)

  /** A layout node: a pane, or a left-to-right (`{…}`) or top-to-bottom (`[…]`) split. */
  datatype Layout =
    | Pane(geom: PaneGeom)
    | H(geom: PaneGeom, children: seq<Layout>)
    | V(geom: PaneGeom, children: seq<Layout>)

  /** `Layout::geom`, `Layout::width`, `Layout::height`: the node's own geometry. */
  function Geom(l: Layout): PaneGeom { l.geom }
  function Width(l: Layout): nat { Geom(l).size.width }
  function Height(l: Layout): nat { Geom(l).size.height }

  // ---------------------------------------------------------------------------
  // Parser

  /** The index of the first `,` in `s`, or `|s|` when there is none. */
  function FirstComma(s: string): (i: nat)
    ensures i <= |s| && ',' !in s[..i]
    ensures i < |s| ==> s[i] == ','
  {
    if s == [] then 0
    else if s[0] == ',' then 0
    else
      var k := FirstComma(s[1..]);
      assert s[..k + 1] == [s[0]] + s[1..][..k];
      1 + k
  }

  /** `checksum`: everything up to and including the first `,`; never checked. */
  function Checksum(s: string): (r: Parsed<()>)
    ensures r.Done? <==> ',' in s
    ensures r.Done? ==> ProperSuffix(r.rest, s)
    ensures r.Done? ==> exists i :: 0 <= i < |s| && s[i] == ',' && ',' !in s[..i] && r.rest == s[i + 1..]
  {
    var i := FirstComma(s);
    if i == |s| then
      assert s[..i] == s;
      Fail
    else Done((), s[i + 1..])
  }

  /** `size`: `WxH`. */
  function SizeP(s: string): (r: Parsed<Size>)
    ensures r.Done? ==> ProperSuffix(r.rest, s)
  {
    match NomU32(s)
    case Fail => Fail
    case Done(w, s1) =>
      match Tag('x', s1)
      case Fail => Fail
      case Done(_, s2) =>
        match NomU32(s2)
        case Fail => Fail
        case Done(h, s3) =>
          ProperSuffixTrans(s2, s1, s);
          ProperSuffixTrans(s3, s2, s);
          Done(Size(w, h), s3)
  }

  /** A `,` followed by a 32-bit number. */
  function CommaU32P(s: string): (r: Parsed<nat>)
    ensures r.Done? ==> ProperSuffix(r.rest, s) && r.value <= U32_MAX
  {
    match Tag(',', s)
    case Fail => Fail
    case Done(_, s1) =>
      match NomU32(s1)
      case Fail => Fail
      case Done(n, s2) =>
        ProperSuffixTrans(s2, s1, s);
        Done(n, s2)
  }

  /** `pane_geom`: `WxH,X,Y`. */
  function GeomP(s: string): (r: Parsed<PaneGeom>)
    ensures r.Done? ==> ProperSuffix(r.rest, s)
  {
    match SizeP(s)
    case Fail => Fail
    case Done(size, s1) =>
      match CommaU32P(s1)
      case Fail => Fail
      case Done(x, s2) =>
        match CommaU32P(s2)
        case Fail => Fail
        case Done(y, s3) =>
          ProperSuffixTrans(s2, s1, s);
          ProperSuffixTrans(s3, s2, s);
          Done(PaneGeom(size, x, y), s3)
  }

  /** `pane_split`: a geometry, a `,` and the pane id digits, which are discarded. */
  function PaneSplitP(s: string): (r: Parsed<Layout>)
    ensures r.Done? ==> ProperSuffix(r.rest, s) && r.value.Pane?
  {
    match GeomP(s)
    case Fail => Fail
    case Done(g, s1) =>
      match Tag(',', s1)
      case Fail => Fail
      case Done(_, s2) =>
        match Digit1(s2)
        case Fail => Fail
        case Done(_, s3) =>
          ProperSuffixTrans(s2, s1, s);
          ProperSuffixTrans(s3, s2, s);
          Done(Pane(g), s3)
  }

  /** `split`: `pane_split`, else `h_split`, else `v_split`. */
  function SplitP(s: string): (r: Parsed<Layout>)
    ensures r.Done? ==> ProperSuffix(r.rest, s)
    decreases |s|, 2
  {
    match PaneSplitP(s)
    case Done(l, rest) => Done(l, rest)
    case Fail =>
      match BracketedP(s, '{', '}')
      case Done((g, cs), rest) => Done(H(g, cs), rest)
      case Fail =>
        match BracketedP(s, '[', ']')
        case Done((g, cs), rest) => Done(V(g, cs), rest)
        case Fail => Fail
  }

  /** `h_split` (with `{` and `}`) and `v_split` (with `[` and `]`): a geometry and a
      bracketed, comma-separated, non-empty list of nodes. */
  function BracketedP(s: string, open: char, close: char): (r: Parsed<(PaneGeom, seq<Layout>)>)
    ensures r.Done? ==> ProperSuffix(r.rest, s) && |r.value.1| >= 1
    decreases |s|, 1
  {
    match GeomP(s)
    case Fail => Fail
    case Done(g, s1) =>
      match Tag(open, s1)
      case Fail => Fail
      case Done(_, s2) =>
        match SeparatedListP(s2)
        case Fail => Fail
        case Done(cs, s3) =>
          match Tag(close, s3)
          case Fail => Fail
          case Done(_, s4) =>
            ProperSuffixTrans(s2, s1, s);
            ProperSuffixTrans(s3, s2, s);
            ProperSuffixTrans(s4, s3, s);
            Done((g, cs), s4)
  }

  /** `separated_list1(tag(","), split)`: one node, then as many `,` node pairs as parse. */
  function SeparatedListP(s: string): (r: Parsed<seq<Layout>>)
    ensures r.Done? ==> ProperSuffix(r.rest, s) && |r.value| >= 1
    decreases |s|, 3
  {
    match SplitP(s)
    case Fail => Fail
    case Done(l, s1) =>
      var more := MoreItemsP(s1);
      SuffixOrSameTrans(more.rest, s1, s);
      Done([l] + more.value, more.rest)
  }

  /** The loop of `separated_list1`: stops, before the `,`, when either the `,` or the
      node after it does not parse. */
  function MoreItemsP(s: string): (r: Parsed<seq<Layout>>)
    ensures r.Done?
    ensures r.rest == s || ProperSuffix(r.rest, s)
    decreases |s|, 3
  {
    match Tag(',', s)
    case Fail => Done([], s)
    case Done(_, s1) =>
      match SplitP(s1)
      case Fail => Done([], s)
      case Done(l, s2) =>
        ProperSuffixTrans(s2, s1, s);
        var more := MoreItemsP(s2);
        SuffixOrSameTrans(more.rest, s2, s);
        Done([l] + more.value, more.rest)
  }

  lemma SuffixOrSameTrans(a: string, b: string, c: string)
    requires a == b || ProperSuffix(a, b)
    requires ProperSuffix(b, c)
    ensures ProperSuffix(a, c)
  {
    if a != b { ProperSuffixTrans(a, b, c); }
  }

  /** `layout`: a checksum field and a node. */
  function LayoutP(s: string): (r: Parsed<Layout>)
  {
    match Checksum(s)
    case Fail => Fail
    case Done(_, s1) => SplitP(s1)
  }

  /** `Layout::parse`: `layout`, and it must consume the whole input. */
  function Parse(s: string): Option<Layout>
  {
    match LayoutP(s)
    case Done(l, rest) => if rest == [] then Some(l) else None
    case Fail => None
  }

  // ---------------------------------------------------------------------------
  // A reference rendering of descriptors, used only to state what the parser accepts

  /** A layout node together with the pane ids its text carries. */
  datatype Descriptor =
    | DPane(geom: PaneGeom, id: nat)
    | DH(geom: PaneGeom, children: seq<Descriptor>)
    | DV(geom: PaneGeom, children: seq<Descriptor>)

  /** The layout a descriptor stands for: the pane ids are forgotten. */
  function Erase(d: Descriptor): Layout
  {
    match d
    case DPane(g, _) => Pane(g)
    case DH(g, cs) => H(g, EraseAll(cs))
    case DV(g, cs) => V(g, EraseAll(cs))
  }

  function EraseAll(ds: seq<Descriptor>): (ls: seq<Layout>)
    ensures |ls| == |ds|
  {
    if ds == [] then [] else [Erase(ds[0])] + EraseAll(ds[1..])
  }

  predicate GeomInRange(g: PaneGeom)
  {
    g.size.width <= U32_MAX && g.size.height <= U32_MAX && g.xOffset <= U32_MAX && g.yOffset <= U32_MAX
  }

  /** Numbers within 32 bits and no empty bracket list: what tmux writes. */
  predicate WellFormed(d: Descriptor)
  {
    GeomInRange(d.geom) &&
    match d
    case DPane(_, _) => true
    case DH(_, cs) => |cs| >= 1 && forall i :: 0 <= i < |cs| ==> WellFormed(cs[i])
    case DV(_, cs) => |cs| >= 1 && forall i :: 0 <= i < |cs| ==> WellFormed(cs[i])
  }

  ghost function RenderSize(sz: Size): string
  {
    NatToString(sz.width) + "x" + NatToString(sz.height)
  }

  ghost function RenderGeom(g: PaneGeom): string
  {
    RenderSize(g.size) + "," + NatToString(g.xOffset) + "," + NatToString(g.yOffset)
  }

  ghost function Render(d: Descriptor): string
  {
    match d
    case DPane(g, id) => RenderGeom(g) + "," + NatToString(id)
    case DH(g, cs) => RenderGeom(g) + "{" + RenderList(cs) + "}"
    case DV(g, cs) => RenderGeom(g) + "[" + RenderList(cs) + "]"
  }

  ghost function RenderList(ds: seq<Descriptor>): string
  {
    if ds == [] then []
    else if |ds| == 1 then Render(ds[0])
    else Render(ds[0]) + "," + RenderList(ds[1..])
  }

  /** What may follow a node in a descriptor. */
  predicate Follows(rest: string)
  {
    rest == [] || rest[0] == ',' || rest[0] == '}' || rest[0] == ']'
  }

  lemma SizeParses(sz: Size, rest: string)
    requires sz.width <= U32_MAX && sz.height <= U32_MAX
    requires |rest| > 0 && rest[0] == ','
    ensures SizeP(RenderSize(sz) + rest) == Done(sz, rest)
  {
    var w, h := NatToString(sz.width), NatToString(sz.height);
    var r1 := h + rest;
    assert RenderSize(sz) + rest == w + ("x" + r1);
    NomU32OfNatToString(sz.width, "x" + r1);
    assert Tag('x', "x" + r1) == Done((), r1);
    NomU32OfNatToString(sz.height, rest);
  }

  lemma CommaU32Parses(n: nat, rest: string)
    requires n <= U32_MAX
    requires rest == [] || !IsDigit(rest[0])
    ensures CommaU32P("," + NatToString(n) + rest) == Done(n, rest)
  {
    var r1 := NatToString(n) + rest;
    assert "," + NatToString(n) + rest == "," + r1;
    assert Tag(',', "," + r1) == Done((), r1);
    NomU32OfNatToString(n, rest);
  }

  lemma GeomParses(g: PaneGeom, rest: string)
    requires GeomInRange(g)
    requires |rest| > 0 && !IsDigit(rest[0])
    ensures GeomP(RenderGeom(g) + rest) == Done(g, rest)
  {
    var x, y := NatToString(g.xOffset), NatToString(g.yOffset);
    var r2 := "," + y + rest;
    var r1 := "," + x + r2;
    assert RenderGeom(g) + rest == RenderSize(g.size) + r1;
    SizeParses(g.size, r1);
    CommaU32Parses(g.xOffset, r2);
    CommaU32Parses(g.yOffset, rest);
  }

  /** A rendered pane leaf reads back as that pane. */
  lemma PaneRenderParses(g: PaneGeom, id: nat, rest: string)
    requires GeomInRange(g) && Follows(rest)
    ensures SplitP(Render(DPane(g, id)) + rest) == Done(Pane(g), rest)
  {
    var ids := NatToString(id);
    var r1 := "," + (ids + rest);
    Nest4(RenderGeom(g), ",", ids, rest);
    GeomParses(g, r1);
    assert Tag(',', r1) == Done((), ids + rest);
    LeadingDigitsOfConcat(ids, rest);
    SplitAtJoin(ids, rest);
    assert Digit1(ids + rest) == Done(ids, rest);
  }

  /** A geometry followed by a bracket is not a pane leaf. */
  lemma BracketNotPane(g: PaneGeom, open: char, body: string)
    requires GeomInRange(g) && (open == '{' || open == '[')
    ensures PaneSplitP(RenderGeom(g) + ([open] + body)) == Fail
  {
    GeomParses(g, [open] + body);
  }

  /** A geometry followed by `[` is not a horizontal split. */
  lemma BracketNotH(g: PaneGeom, body: string)
    requires GeomInRange(g)
    ensures BracketedP(RenderGeom(g) + (['['] + body), '{', '}') == Fail
  {
    GeomParses(g, ['['] + body);
  }

  /** A rendered bracketed split reads back as that split, provided its children do. */
  lemma BracketRenderParses(g: PaneGeom, body: string, open: char, close: char, cs: seq<Layout>, rest: string)
    requires GeomInRange(g) && (open == '{' || open == '[')
    requires SeparatedListP(body + ([close] + rest)) == Done(cs, [close] + rest)
    ensures BracketedP(RenderGeom(g) + ([open] + (body + ([close] + rest))), open, close) == Done((g, cs), rest)
  {
    var r2 := body + ([close] + rest);
    GeomParses(g, [open] + r2);
    assert Tag(open, [open] + r2) == Done((), r2);
    assert Tag(close, [close] + rest) == Done((), rest);
  }

  /** The parser reads a rendered node back, whatever follows it. */
  lemma {:induction false} RenderParses(d: Descriptor, rest: string)
    requires WellFormed(d) && Follows(rest)
    ensures SplitP(Render(d) + rest) == Done(Erase(d), rest)
    decreases d, 1
  {
    match d
    case DPane(g, id) =>
      PaneRenderParses(g, id, rest);
    case DH(g, cs) =>
      HRenderParses(g, cs, rest);
    case DV(g, cs) =>
      VRenderParses(g, cs, rest);
  }

  lemma {:induction false} HRenderParses(g: PaneGeom, cs: seq<Descriptor>, rest: string)
    requires WellFormed(DH(g, cs)) && Follows(rest)
    ensures SplitP(Render(DH(g, cs)) + rest) == Done(H(g, EraseAll(cs)), rest)
    decreases cs, 2
  {
    Nest5(RenderGeom(g), "{", RenderList(cs), "}", rest);
    ListParses(cs, '}', rest);
    HSplitParses(g, RenderList(cs), EraseAll(cs), rest);
  }

  lemma {:induction false} VRenderParses(g: PaneGeom, cs: seq<Descriptor>, rest: string)
    requires WellFormed(DV(g, cs)) && Follows(rest)
    ensures SplitP(Render(DV(g, cs)) + rest) == Done(V(g, EraseAll(cs)), rest)
    decreases cs, 2
  {
    Nest5(RenderGeom(g), "[", RenderList(cs), "]", rest);
    ListParses(cs, ']', rest);
    VSplitParses(g, RenderList(cs), EraseAll(cs), rest);
  }

  lemma HSplitParses(g: PaneGeom, body: string, cs: seq<Layout>, rest: string)
    requires GeomInRange(g)
    requires SeparatedListP(body + ("}" + rest)) == Done(cs, "}" + rest)
    ensures SplitP(RenderGeom(g) + ("{" + (body + ("}" + rest)))) == Done(H(g, cs), rest)
  {
    BracketNotPane(g, '{', body + ("}" + rest));
    BracketRenderParses(g, body, '{', '}', cs, rest);
  }

  lemma VSplitParses(g: PaneGeom, body: string, cs: seq<Layout>, rest: string)
    requires GeomInRange(g)
    requires SeparatedListP(body + ("]" + rest)) == Done(cs, "]" + rest)
    ensures SplitP(RenderGeom(g) + ("[" + (body + ("]" + rest)))) == Done(V(g, cs), rest)
  {
    BracketNotPane(g, '[', body + ("]" + rest));
    BracketNotH(g, body + ("]" + rest));
    BracketRenderParses(g, body, '[', ']', cs, rest);
  }

  /** `RenderList(ds)` followed by a closer reads back as the list of nodes. */
  lemma {:induction false} ListParses(ds: seq<Descriptor>, close: char, rest: string)
    requires |ds| >= 1 && forall i :: 0 <= i < |ds| ==> WellFormed(ds[i])
    requires close == '}' || close == ']'
    ensures SeparatedListP(RenderList(ds) + ([close] + rest)) == Done(EraseAll(ds), [close] + rest)
    decreases ds, 0
  {
    var tail := [close] + rest;
    if |ds| == 1 {
      assert RenderList(ds) == Render(ds[0]);
      RenderParses(ds[0], tail);
      assert MoreItemsP(tail) == Done([], tail);
      assert EraseAll(ds) == [Erase(ds[0])];
    } else {
      var after := "," + (RenderList(ds[1..]) + tail);
      assert RenderList(ds) + tail == Render(ds[0]) + after;
      RenderParses(ds[0], after);
      ListParses(ds[1..], close, rest);
      assert MoreItemsP(after) == Done(EraseAll(ds[1..]), tail);
      assert [Erase(ds[0])] + EraseAll(ds[1..]) == EraseAll(ds);
    }
  }

  /** A well-formed descriptor behind any checksum field without a comma parses to its layout. */
  lemma ParseRendered(checksum: string, d: Descriptor)
    requires ',' !in checksum && WellFormed(d)
    ensures Parse(checksum + "," + Render(d)) == Some(Erase(d))
  {
    var s := checksum + "," + Render(d);
    assert s[|checksum|] == ',' && s[..|checksum|] == checksum;
    assert FirstComma(s) == |checksum|;
    assert s[|checksum| + 1..] == Render(d) + [];
    RenderParses(d, []);
  }

  // ---------------------------------------------------------------------------
  // Conversion into a configuration split tree

  /** The extent of a node along a split axis. */
  function Extent(l: Layout, horizontal: bool): nat
  {
    if horizontal then Width(l) else Height(l)
  }

  /** `f32::round` of `a / b` for `a >= 0`, `b > 0`: halves round up. */
  function RoundDiv(a: nat, b: nat): nat
    requires b > 0
  {
    (2 * a + b) / (2 * b)
  }

  /** `format!("{:.0}%", (acc * 100 / ext).round())`, for a non-negative `acc` and positive `ext`. */
  function PercentText(acc: int, ext: int): string
  {
    if acc >= 0 && ext > 0 then NatToString(RoundDiv(acc * 100, ext)) + "%" else "NaN%"
  }

  /** A binary split with the given first half, second half and size of the second half. */
  function Node(horizontal: bool, first: ConfigModel.Split, size: string, second: ConfigModel.Split): ConfigModel.Split
  {
    if horizontal then
      ConfigModel.H(ConfigModel.HSplitPart(None, first), ConfigModel.HSplitPart(Some(size), second))
    else
      ConfigModel.V(ConfigModel.VSplitPart(None, first), ConfigModel.VSplitPart(Some(size), second))
  }

  /** `From<Layout> for Split`, as a specification. */
  function ToSplit(l: Layout): ConfigModel.Split
    decreases l
  {
    match l
    case Pane(_) => ConfigModel.DefaultSplit
    case H(_, cs) => if cs == [] then ConfigModel.DefaultSplit else Fold(cs, true).0
    case V(_, cs) => if cs == [] then ConfigModel.DefaultSplit else Fold(cs, false).0
  }

  /** The fold over the children from right to left: the split built so far and its
      accumulated extent, which grows by each new child's extent less one. */
  function Fold(cs: seq<Layout>, horizontal: bool): (ConfigModel.Split, int)
    requires |cs| >= 1
    decreases cs
  {
    if |cs| == 1 then (ToSplit(cs[0]), Extent(cs[0], horizontal))
    else
      var (rest, acc) := Fold(cs[1..], horizontal);
      var ext := acc + Extent(cs[0], horizontal) - 1;
      (Node(horizontal, ToSplit(cs[0]), PercentText(acc, ext), rest), ext)
  }

  lemma FoldLast(cs: seq<Layout>, horizontal: bool)
    requires |cs| >= 1
    ensures Fold(cs[|cs| - 1..], horizontal) == (ToSplit(cs[|cs| - 1]), Extent(cs[|cs| - 1], horizontal))
  {
    assert cs[|cs| - 1..] == [cs[|cs| - 1]];
  }

  lemma FoldWhole(cs: seq<Layout>, horizontal: bool)
    requires |cs| >= 1
    ensures Fold(cs[0..], horizontal) == Fold(cs, horizontal)
  {
    assert cs[0..] == cs;
  }

  /** One step of `Fold` read at position `j - 1`, with the fold of the children from `j`
      on and the converted child before them at hand. */
  lemma FoldStep(cs: seq<Layout>, j: nat, horizontal: bool, acc: ConfigModel.Split, ext: int, first: ConfigModel.Split)
    requires 0 < j < |cs|
    requires (acc, ext) == Fold(cs[j..], horizontal) && first == ToSplit(cs[j - 1])
    ensures Fold(cs[j - 1..], horizontal)
         == (Node(horizontal, first, PercentText(ext, ext + Extent(cs[j - 1], horizontal) - 1), acc),
             ext + Extent(cs[j - 1], horizontal) - 1)
  {
    var k := j - 1;
    assert cs[k..][1..] == cs[j..];
  }

  /** `From<Layout> for Split`: pops the last child, then folds the others in from the
      right, each time making the tree so far the second half of a new split. */
  method IntoSplit(l: Layout) returns (s: ConfigModel.Split)
    ensures s == ToSplit(l)
    decreases l, 2
  {
    if l.Pane? || |l.children| == 0 {
      return ConfigModel.DefaultSplit;
    }
    var extent;
    s, extent := FoldChildren(l.children, l.H?);
  }

  /** The loop of `From<Layout> for Split` over the children of one split. */
  method FoldChildren(cs: seq<Layout>, horizontal: bool) returns (accSplit: ConfigModel.Split, accExtent: int)
    requires |cs| >= 1
    ensures (accSplit, accExtent) == Fold(cs, horizontal)
    decreases cs, 1
  {
    var last := cs[|cs| - 1];
    accExtent := Extent(last, horizontal);
    accSplit := IntoSplit(last);
    var i := |cs| - 1;
    FoldLast(cs, horizontal);
    while i > 0
      invariant 0 <= i < |cs|
      invariant (accSplit, accExtent) == Fold(cs[i..], horizontal)
    {
      accSplit, accExtent := FoldChild(cs, i, horizontal, accSplit, accExtent);
      i := i - 1;
    }
    FoldWhole(cs, horizontal);
  }

  /** One turn of that loop: child `j - 1` becomes the first half of a new split whose
      second half is the tree built so far, sized by the extent accumulated so far. */
  method FoldChild(cs: seq<Layout>, j: nat, horizontal: bool, acc: ConfigModel.Split, ext: int)
    returns (accSplit: ConfigModel.Split, accExtent: int)
    requires 0 < j < |cs| && (acc, ext) == Fold(cs[j..], horizontal)
    ensures (accSplit, accExtent) == Fold(cs[j - 1..], horizontal)
    decreases cs, 0
  {
    var first := cs[j - 1];
    var newExtent := ext + Extent(first, horizontal) - 1;
    var size := PercentText(ext, newExtent);
    var firstSplit := IntoSplit(first);
    FoldStep(cs, j, horizontal, acc, ext, firstSplit);
    accSplit := Node(horizontal, firstSplit, size, acc);
    accExtent := newExtent;
  }

  /** The second half of a binary split. */
  function SecondHalf(s: ConfigModel.Split): ConfigModel.Split
    requires !s.Leaf?
  {
    if s.H? then s.right.split else s.bottom.split
  }

  /** The tree reached from `s` by `k` steps into second halves, if there are that many. */
  function Descend(s: ConfigModel.Split, k: nat): Option<ConfigModel.Split>
  {
    if k == 0 then Some(s) else if s.Leaf? then None else Descend(SecondHalf(s), k - 1)
  }

  /** `i` steps down the chain's second halves is the fold of the children from `i` on. */
  lemma {:induction false} FoldSpine(cs: seq<Layout>, horizontal: bool, i: nat)
    requires i < |cs|
    ensures Descend(Fold(cs, horizontal).0, i) == Some(Fold(cs[i..], horizontal).0)
    decreases i
  {
    if i == 0 {
      FoldWhole(cs, horizontal);
    } else {
      var (rest, acc) := Fold(cs[1..], horizontal);
      assert Fold(cs, horizontal).0 == Node(horizontal, ToSplit(cs[0]), PercentText(acc, acc + Extent(cs[0], horizontal) - 1), rest);
      FoldSpine(cs[1..], horizontal, i - 1);
      assert cs[1..][i - 1..] == cs[i..];
    }
  }

  /** The conversion of n children is a right-nested chain of n - 1 binary splits along
      the parent's axis: the i-th split has child i as its unsized first half and the
      rest of the chain as its second half, sized by the extent accumulated before and
      after adding child i; the last child's tree ends the chain. */
  lemma FoldChain(cs: seq<Layout>, horizontal: bool, i: nat)
    requires i < |cs|
    ensures Descend(Fold(cs, horizontal).0, i).Some?
    ensures i + 1 < |cs| ==>
              Descend(Fold(cs, horizontal).0, i).value ==
              Node(horizontal, ToSplit(cs[i]),
                   PercentText(Fold(cs[i + 1..], horizontal).1, Fold(cs[i..], horizontal).1),
                   Fold(cs[i + 1..], horizontal).0)
    ensures i + 1 < |cs| ==> Fold(cs[i..], horizontal).1 == Fold(cs[i + 1..], horizontal).1 + Extent(cs[i], horizontal) - 1
    ensures i + 1 == |cs| ==> Descend(Fold(cs, horizontal).0, i).value == ToSplit(cs[i])
  {
    FoldSpine(cs, horizontal, i);
    if i + 1 < |cs| {
      var (acc, ext) := Fold(cs[i + 1..], horizontal);
      FoldStep(cs, i + 1, horizontal, acc, ext, ToSplit(cs[i]));
    } else {
      FoldLast(cs, horizontal);
    }
  }

  /** The number of panes the converted tree has: one per layout pane, and one for an
      empty split. */
  function PaneCount(l: Layout): nat
  {
    match l
    case Pane(_) => 1
    case H(_, cs) => if cs == [] then 1 else PaneCountAll(cs)
    case V(_, cs) => if cs == [] then 1 else PaneCountAll(cs)
  }

  function PaneCountAll(cs: seq<Layout>): nat
  {
    if cs == [] then 0 else PaneCount(cs[0]) + PaneCountAll(cs[1..])
  }

  /** The panes of the converted children, in order. */
  function ChildPanes(cs: seq<Layout>): seq<ConfigModel.Pane>
  {
    if cs == [] then [] else ConfigModel.Leaves(ToSplit(cs[0])) + ChildPanes(cs[1..])
  }

  function Defaults(n: nat): (ps: seq<ConfigModel.Pane>)
    ensures |ps| == n && forall i :: 0 <= i < n ==> ps[i] == ConfigModel.DefaultPane
  {
    seq(n, _ => ConfigModel.DefaultPane)
  }

  /** The chain's panes are the children's panes, left to right or top to bottom. */
  lemma {:induction false} FoldPanes(cs: seq<Layout>, horizontal: bool)
    requires |cs| >= 1
    ensures ConfigModel.Leaves(Fold(cs, horizontal).0) == ChildPanes(cs)
  {
    if |cs| > 1 {
      FoldPanes(cs[1..], horizontal);
    } else {
      assert ChildPanes(cs[1..]) == [];
    }
  }

  /** A converted layout has one default pane per layout pane. */
  lemma {:induction false} ToSplitPanes(l: Layout)
    ensures ConfigModel.Leaves(ToSplit(l)) == Defaults(PaneCount(l))
    decreases l, 1
  {
    match l
    case Pane(_) =>
    case H(_, cs) => if cs != [] { FoldPanes(cs, true); ChildPanesDefault(cs); }
    case V(_, cs) => if cs != [] { FoldPanes(cs, false); ChildPanesDefault(cs); }
  }

  lemma {:induction false} ChildPanesDefault(cs: seq<Layout>)
    ensures ChildPanes(cs) == Defaults(PaneCountAll(cs))
    decreases cs, 0
  {
    if cs != [] {
      ToSplitPanes(cs[0]);
      ChildPanesDefault(cs[1..]);
    }
  }

  function SumExtent(cs: seq<Layout>, horizontal: bool): nat
  {
    if cs == [] then 0 else Extent(cs[0], horizontal) + SumExtent(cs[1..], horizontal)
  }

  /** The accumulated extent is the children's extents summed, less one per border. */
  lemma {:induction false} FoldExtent(cs: seq<Layout>, horizontal: bool)
    requires |cs| >= 1
    ensures Fold(cs, horizontal).1 == SumExtent(cs, horizontal) - (|cs| - 1)
  {
    if |cs| > 1 {
      FoldExtent(cs[1..], horizontal);
    } else {
      assert SumExtent(cs[1..], horizontal) == 0;
    }
  }

  /** Every node of a layout is at least one cell wide and high. */
  predicate PositiveExtents(l: Layout)
  {
    l.geom.size.width >= 1 && l.geom.size.height >= 1 &&
    match l
    case Pane(_) => true
    case H(_, cs) => forall i :: 0 <= i < |cs| ==> PositiveExtents(cs[i])
    case V(_, cs) => forall i :: 0 <= i < |cs| ==> PositiveExtents(cs[i])
  }

  /** `p%` for a whole percentage `p` of at most 100. */
  predicate IsPercent(t: string)
  {
    exists p: nat {:trigger NatToString(p)} :: p <= 100 && t == NatToString(p) + "%"
  }

  /** The sizes the conversion writes: none on a first half, a percentage on a second half. */
  predicate SizedSecondHalves(s: ConfigModel.Split)
  {
    match s
    case Leaf(_) => true
    case H(l, r) => l.width.None? && r.width.Some? && IsPercent(r.width.value)
                    && SizedSecondHalves(l.split) && SizedSecondHalves(r.split)
    case V(t, b) => t.height.None? && b.height.Some? && IsPercent(b.height.value)
                    && SizedSecondHalves(t.split) && SizedSecondHalves(b.split)
  }

  lemma PercentAtMost100(acc: int, ext: int)
    requires 1 <= acc <= ext
    ensures IsPercent(PercentText(acc, ext))
  {
    var x := 2 * (acc * 100) + ext;
    assert x <= 201 * ext by { MulLe(acc, ext, 200); }
    DivBelow(x, 2 * ext, 101);
  }

  lemma MulLe(a: nat, b: nat, k: nat)
    ensures a <= b ==> k * a <= k * b
  {
  }

  /** `x / d < k` when `x < k * d`. */
  lemma DivBelow(x: nat, d: nat, k: nat)
    requires d > 0 && x < k * d
    ensures x / d < k
  {
    var q := x / d;
    assert q * d <= x;
    MulLe(k, q, d);
  }

  /** With positive extents, the accumulated extent stays at least one and every
      second half gets a percentage of at most 100. */
  lemma {:induction false} FoldSized(cs: seq<Layout>, horizontal: bool)
    requires |cs| >= 1 && forall i :: 0 <= i < |cs| ==> PositiveExtents(cs[i])
    ensures Fold(cs, horizontal).1 >= 1
    ensures SizedSecondHalves(Fold(cs, horizontal).0)
    decreases cs, 0
  {
    ToSplitSized(cs[0]);
    if |cs| > 1 {
      FoldSized(cs[1..], horizontal);
      var acc := Fold(cs[1..], horizontal).1;
      PercentAtMost100(acc, acc + Extent(cs[0], horizontal) - 1);
    }
  }

  lemma {:induction false} ToSplitSized(l: Layout)
    requires PositiveExtents(l)
    ensures SizedSecondHalves(ToSplit(l))
    decreases l, 1
  {
    match l
    case Pane(_) =>
    case H(_, cs) => if cs != [] { FoldSized(cs, true); }
    case V(_, cs) => if cs != [] { FoldSized(cs, false); }
  }
}
