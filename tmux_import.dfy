/** Importing a running tmux server's state: each pane record that `list-panes`
    prints (already split into shell words) is decoded, the records are grouped into
    sessions, windows and panes, and the groups are turned into configuration values. */
module TmuxImport {
  import opened Wrappers
  import opened Seqs
  import opened Text
  import opened Paths
  import ConfigModel
  import TmuxLayout

  // ---------------------------------------------------------------------------
  // Pane records

  /** One line of `list-panes` output, decoded. The ids are the numbers behind `$`,
      `@` and `%`; indices and ids fit in 32 bits. */
  datatype PaneInfo = PaneInfo(
    sessionId: nat, windowId: nat, paneId: nat,
    sessionName: string, sessionCwd: string,
    windowIndex: nat, windowName: string, windowActive: bool, windowLayout: TmuxLayout.Layout,
    paneIndex: nat, paneActive: bool, paneCwd: string)

  /** Why a record does not decode; the message texts are not modelled. */
  datatype ParseError =
    | MissingWord
    | InvalidId
    | InvalidInteger
    | InvalidLayout

  /** The fields a record carries, in order, before the optional pane path. */
  const RequiredWords: nat := 11

  /** `preceded(tag(prefix), u32)`: the prefix character, then a 32-bit decimal number. */
  function IdP(prefix: char, s: string): (r: Parsed<nat>)
    ensures r.Done? ==> r.value <= U32_MAX
  {
    match Tag(prefix, s)
    case Fail => Fail
    case Done(_, rest) => NomU32(rest)
  }

  /** After the prefix, a word made of digits is read by `NomU32` to its end. */
  lemma IdWordRead(prefix: char, word: string)
    ensures |word| >= 2 && word[0] == prefix && AllDigits(word[1..]) ==>
              NomU32(word[1..]) == (if DigitsValue(word[1..]) <= U32_MAX then Done(DigitsValue(word[1..]), []) else Fail)
  {
    if |word| >= 2 && word[0] == prefix && AllDigits(word[1..]) {
      LeadingDigitsOfConcat(word[1..], []);
      assert word[1..] + [] == word[1..];
    }
  }

  /** `all_consuming(session_id)` and its window and pane counterparts: the word is the
      prefix followed by digits only, whose value fits in 32 bits. */
  function ParseId(prefix: char, word: string): (r: Option<nat>)
    ensures r.Some? <==> |word| >= 2 && word[0] == prefix && AllDigits(word[1..]) && DigitsValue(word[1..]) <= U32_MAX
    ensures r.Some? ==> r.value == DigitsValue(word[1..])
  {
    IdWordRead(prefix, word);
    match IdP(prefix, word)
    case Done(v, rest) => if rest == [] then Some(v) else None
    case Fail => None
  }

  /** An id written the way tmux prints it reads back. */
  lemma ParseIdOfFormat(prefix: char, n: nat)
    requires n <= U32_MAX
    ensures ParseId(prefix, [prefix] + NatToString(n)) == Some(n)
  {
    var w := [prefix] + NatToString(n);
    assert w[1..] == NatToString(n);
    NatToStringValue(n);
  }

  /** `parse::<u8>()? != 0`: tmux's 0/1 flags. */
  function ParseFlag(word: string): (r: Option<bool>)
    ensures r.Some? <==> ParseUnsigned(word, U8_MAX).Some?
    ensures r.Some? ==> (r.value <==> ParseUnsigned(word, U8_MAX).value != 0)
  {
    match ParseUnsigned(word, U8_MAX)
    case None => None
    case Some(v) => Some(v != 0)
  }

  /** `parse_line`: the twelve fields in the order of the query format. The first field
      missing or malformed decides the error; the pane path may be absent and is then
      empty; words past the twelfth are ignored. */
  function ParseLine(ws: seq<string>): (r: Result<PaneInfo, ParseError>)
    ensures |ws| < RequiredWords ==> r.Err?
    ensures r.Ok? ==> r.value.sessionName == ws[3] && r.value.sessionCwd == ws[4] && r.value.windowName == ws[6]
    ensures r.Ok? ==> r.value.paneCwd == (if |ws| > RequiredWords then ws[RequiredWords] else "")
    ensures r.Ok? ==> ParseId('$', ws[0]) == Some(r.value.sessionId) && ParseId('@', ws[1]) == Some(r.value.windowId)
                      && ParseId('%', ws[2]) == Some(r.value.paneId)
    ensures r.Ok? ==> ParseUnsigned(ws[5], U32_MAX) == Some(r.value.windowIndex)
                      && ParseUnsigned(ws[9], U32_MAX) == Some(r.value.paneIndex)
    ensures r.Ok? ==> ParseFlag(ws[7]) == Some(r.value.windowActive) && ParseFlag(ws[10]) == Some(r.value.paneActive)
    ensures r.Ok? ==> TmuxLayout.Parse(ws[8]) == Some(r.value.windowLayout)
  {
    if |ws| < 1 then Err(MissingWord)
    else match ParseId('$', ws[0])
    case None => Err(InvalidId)
    case Some(sessionId) =>
      if |ws| < 2 then Err(MissingWord)
      else match ParseId('@', ws[1])
      case None => Err(InvalidId)
      case Some(windowId) =>
        if |ws| < 3 then Err(MissingWord)
        else match ParseId('%', ws[2])
        case None => Err(InvalidId)
        case Some(paneId) =>
          if |ws| < 6 then Err(MissingWord)
          else match ParseUnsigned(ws[5], U32_MAX)
          case None => Err(InvalidInteger)
          case Some(windowIndex) =>
            if |ws| < 8 then Err(MissingWord)
            else match ParseFlag(ws[7])
            case None => Err(InvalidInteger)
            case Some(windowActive) =>
              if |ws| < 9 then Err(MissingWord)
              else match TmuxLayout.Parse(ws[8])
              case None => Err(InvalidLayout)
              case Some(layout) =>
                if |ws| < 10 then Err(MissingWord)
                else match ParseUnsigned(ws[9], U32_MAX)
                case None => Err(InvalidInteger)
                case Some(paneIndex) =>
                  if |ws| < 11 then Err(MissingWord)
                  else match ParseFlag(ws[10])
                  case None => Err(InvalidInteger)
                  case Some(paneActive) =>
                    var paneCwd := if |ws| > 11 then ws[11] else "";
                    Ok(PaneInfo(sessionId, windowId, paneId, ws[3], ws[4], windowIndex, ws[6], windowActive,
                                layout, paneIndex, paneActive, paneCwd))
  }

  /** A record whose numbers are all in range, so that tmux could have printed it. */
  predicate InRange(info: PaneInfo)
  {
    info.sessionId <= U32_MAX && info.windowId <= U32_MAX && info.paneId <= U32_MAX
    && info.windowIndex <= U32_MAX && info.paneIndex <= U32_MAX
  }

  function FlagText(b: bool): string { if b then "1" else "0" }

  /** The words tmux prints for a record under the query format, with `layoutText` as
      the layout descriptor. */
  function FormatLine(info: PaneInfo, layoutText: string): (ws: seq<string>)
    ensures |ws| == RequiredWords + 1
  {
    [['$'] + NatToString(info.sessionId), ['@'] + NatToString(info.windowId), ['%'] + NatToString(info.paneId),
     info.sessionName, info.sessionCwd, NatToString(info.windowIndex), info.windowName,
     FlagText(info.windowActive), layoutText, NatToString(info.paneIndex), FlagText(info.paneActive),
     info.paneCwd]
  }

  lemma FlagRoundTrip(b: bool)
    ensures ParseFlag(FlagText(b)) == Some(b)
  {
    if b {
      ParseUnsignedOfNatToString(1, U8_MAX);
      assert NatToString(1) == "1";
    } else {
      ParseUnsignedOfNatToString(0, U8_MAX);
      assert NatToString(0) == "0";
    }
  }

  lemma FormatLineWords(info: PaneInfo, layoutText: string)
    ensures var ws := FormatLine(info, layoutText);
            ws[0] == ['$'] + NatToString(info.sessionId) && ws[1] == ['@'] + NatToString(info.windowId)
            && ws[2] == ['%'] + NatToString(info.paneId) && ws[3] == info.sessionName && ws[4] == info.sessionCwd
            && ws[5] == NatToString(info.windowIndex) && ws[6] == info.windowName
            && ws[7] == FlagText(info.windowActive) && ws[8] == layoutText
            && ws[9] == NatToString(info.paneIndex) && ws[10] == FlagText(info.paneActive) && ws[11] == info.paneCwd
  {
  }

  /** Every record decodes from the words it is printed as, given a layout text that
      parses to its layout. */
  lemma ParseLineOfFormat(info: PaneInfo, layoutText: string)
    requires InRange(info) && TmuxLayout.Parse(layoutText) == Some(info.windowLayout)
    ensures ParseLine(FormatLine(info, layoutText)) == Ok(info)
  {
    FormatLineWords(info, layoutText);
    ParseIdOfFormat('$', info.sessionId);
    ParseIdOfFormat('@', info.windowId);
    ParseIdOfFormat('%', info.paneId);
    ParseUnsignedOfNatToString(info.windowIndex, U32_MAX);
    ParseUnsignedOfNatToString(info.paneIndex, U32_MAX);
    FlagRoundTrip(info.windowActive);
    FlagRoundTrip(info.paneActive);
  }

  /** Without its last word, a printed record decodes with an empty pane path. */
  lemma ParseLineWithoutPanePath(info: PaneInfo, layoutText: string)
    requires InRange(info) && TmuxLayout.Parse(layoutText) == Some(info.windowLayout)
    ensures ParseLine(FormatLine(info, layoutText)[..RequiredWords]) == Ok(info.(paneCwd := ""))
  {
    var ws := FormatLine(info, layoutText);
    ParseLineOfFormat(info, layoutText);
    assert forall i :: 0 <= i < RequiredWords ==> ws[..RequiredWords][i] == ws[i];
  }

  /** A line decodes exactly when each of its eleven required fields does. */
  lemma ParseLineOkIff(ws: seq<string>)
    ensures ParseLine(ws).Ok? <==>
              |ws| >= RequiredWords && ParseId('$', ws[0]).Some? && ParseId('@', ws[1]).Some? && ParseId('%', ws[2]).Some?
              && ParseUnsigned(ws[5], U32_MAX).Some? && ParseFlag(ws[7]).Some? && TmuxLayout.Parse(ws[8]).Some?
              && ParseUnsigned(ws[9], U32_MAX).Some? && ParseFlag(ws[10]).Some?
  {
  }

  /** The first line that fails, found in the tail, is the first line that fails overall
      (stated for any line decoder `parse`, so that the proof does not unfold `ParseLine`). */
  lemma FirstErrorShifts<T>(parse: seq<string> -> Result<T, ParseError>, lines: seq<seq<string>>, e: ParseError)
    requires |lines| > 0 && parse(lines[0]).Ok?
    requires exists i :: 0 <= i < |lines[1..]| && parse(lines[1..][i]) == Err(e)
                         && forall j :: 0 <= j < i ==> parse(lines[1..][j]).Ok?
    ensures exists i :: 0 <= i < |lines| && parse(lines[i]) == Err(e)
                        && forall j :: 0 <= j < i ==> parse(lines[j]).Ok?
  {
    var i :| 0 <= i < |lines[1..]| && parse(lines[1..][i]) == Err(e)
             && forall j :: 0 <= j < i ==> parse(lines[1..][j]).Ok?;
    var tail, k := lines[1..], i + 1;
    assert tail[i] == lines[k];
    forall j | 0 <= j < k
      ensures parse(lines[j]).Ok?
    {
      if j > 0 {
        assert tail[j - 1] == lines[j];
      }
    }
  }

  /** A decoded first line followed by a decoded tail is a decoded list of lines. */
  lemma AllParsedCons<T>(parse: seq<string> -> Result<T, ParseError>, lines: seq<seq<string>>, first: T, rest: seq<T>)
    requires |lines| > 0 && parse(lines[0]) == Ok(first)
    requires |rest| == |lines[1..]| && forall i :: 0 <= i < |lines[1..]| ==> parse(lines[1..][i]) == Ok(rest[i])
    ensures forall i :: 0 <= i < |lines| ==> parse(lines[i]) == Ok(([first] + rest)[i])
  {
    forall i | 0 <= i < |lines|
      ensures parse(lines[i]) == Ok(([first] + rest)[i])
    {
      if i > 0 {
        assert lines[1..][i - 1] == lines[i];
      }
    }
  }

  /** `parse_pane_infos`: every line decodes, or the first line that does not gives the error. */
  function ParseInfos(lines: seq<seq<string>>): (r: Result<seq<PaneInfo>, ParseError>)
    ensures r.Ok? ==> |r.value| == |lines| && forall i :: 0 <= i < |lines| ==> ParseLine(lines[i]) == Ok(r.value[i])
    ensures r.Err? ==> exists i :: 0 <= i < |lines| && ParseLine(lines[i]) == Err(r.error)
                                   && forall j :: 0 <= j < i ==> ParseLine(lines[j]).Ok?
  {
    if lines == [] then Ok([])
    else match ParseLine(lines[0])
    case Err(e) => Err(e)
    case Ok(info) =>
      match ParseInfos(lines[1..])
      case Err(e) =>
        FirstErrorShifts(ParseLine, lines, e);
        Err(e)
      case Ok(rest) =>
        AllParsedCons(ParseLine, lines, info, rest);
        Ok([info] + rest)
  }

  // ---------------------------------------------------------------------------
  // Grouping records

  datatype Pane = Pane(id: nat, index: nat, active: bool, cwd: string)

  datatype Window = Window(
    id: nat, index: nat, name: string, layout: TmuxLayout.Layout, active: bool, panes: map<nat, Pane>)

  datatype Session = Session(id: nat, name: string, cwd: string, windows: map<nat, Window>)

  /** `TmuxState`: the sessions by id. */
  datatype TmuxState = TmuxState(sessions: map<nat, Session>)

  /** One step of `parse_tmux_state`: the record's session and window are looked up, and
      created from this record when absent; its pane is inserted, replacing any pane
      with the same id. */
  function AddInfo(st: map<nat, Session>, info: PaneInfo): map<nat, Session>
  {
    var s := if info.sessionId in st then st[info.sessionId]
             else Session(info.sessionId, info.sessionName, info.sessionCwd, map[]);
    var w := if info.windowId in s.windows then s.windows[info.windowId]
             else Window(info.windowId, info.windowIndex, info.windowName, info.windowLayout, info.windowActive, map[]);
    var p := Pane(info.paneId, info.paneIndex, info.paneActive, info.paneCwd);
    st[info.sessionId := s.(windows := s.windows[info.windowId := w.(panes := w.panes[info.paneId := p])])]
  }

  /** The records added one after another, in order. */
  function Group(infos: seq<PaneInfo>): map<nat, Session>
    decreases |infos|
  {
    if infos == [] then map[] else AddInfo(Group(infos[..|infos| - 1]), infos[|infos| - 1])
  }

  /** `parse_tmux_state`: decode every line, then group the records. */
  method ParseTmuxState(lines: seq<seq<string>>) returns (r: Result<TmuxState, ParseError>)
    ensures ParseInfos(lines).Err? ==> r == Err(ParseInfos(lines).error)
    ensures ParseInfos(lines).Ok? ==> r == Ok(TmuxState(Group(ParseInfos(lines).value)))
  {
    var parsed := ParseInfos(lines);
    if parsed.Err? {
      return Err(parsed.error);
    }
    var infos := parsed.value;
    var sessions: map<nat, Session> := map[];
    for i := 0 to |infos|
      invariant sessions == Group(infos[..i])
    {
      var info := infos[i];
      var session;
      if info.sessionId in sessions {
        session := sessions[info.sessionId];
      } else {
        session := Session(info.sessionId, info.sessionName, info.sessionCwd, map[]);
      }
      var window;
      if info.windowId in session.windows {
        window := session.windows[info.windowId];
      } else {
        window := Window(info.windowId, info.windowIndex, info.windowName, info.windowLayout, info.windowActive, map[]);
      }
      window := window.(panes := window.panes[info.paneId := Pane(info.paneId, info.paneIndex, info.paneActive, info.paneCwd)]);
      session := session.(windows := session.windows[info.windowId := window]);
      sessions := sessions[info.sessionId := session];
      GroupStep(infos, i);
    }
    assert infos[..|infos|] == infos;
    return Ok(TmuxState(sessions));
  }

  lemma GroupStep(infos: seq<PaneInfo>, i: nat)
    requires i < |infos|
    ensures Group(infos[..i + 1]) == AddInfo(Group(infos[..i]), infos[i])
  {
    assert infos[..i + 1][..i] == infos[..i];
  }

  /** A session is present exactly when some record names it. */
  lemma {:induction false} GroupSessionKeys(infos: seq<PaneInfo>, k: nat)
    ensures k in Group(infos) <==> exists i :: 0 <= i < |infos| && infos[i].sessionId == k
    decreases |infos|
  {
    if infos != [] {
      var init := infos[..|infos| - 1];
      GroupSessionKeys(init, k);
      if k in Group(init) {
        var i :| 0 <= i < |init| && init[i].sessionId == k;
        assert infos[i] == init[i];
      }
      if exists i :: 0 <= i < |infos| && infos[i].sessionId == k {
        var i :| 0 <= i < |infos| && infos[i].sessionId == k;
        if i < |init| {
          assert init[i] == infos[i];
        }
      }
    }
  }

  /** A window is present in a session exactly when some record names both. */
  lemma {:induction false} GroupWindowKeys(infos: seq<PaneInfo>, k: nat, w: nat)
    ensures (k in Group(infos) && w in Group(infos)[k].windows) <==>
              exists i :: 0 <= i < |infos| && infos[i].sessionId == k && infos[i].windowId == w
    decreases |infos|
  {
    if infos != [] {
      var init := infos[..|infos| - 1];
      GroupWindowKeys(init, k, w);
      if k in Group(init) && w in Group(init)[k].windows {
        var i :| 0 <= i < |init| && init[i].sessionId == k && init[i].windowId == w;
        assert infos[i] == init[i];
      }
      if exists i :: 0 <= i < |infos| && infos[i].sessionId == k && infos[i].windowId == w {
        var i :| 0 <= i < |infos| && infos[i].sessionId == k && infos[i].windowId == w;
        if i < |init| {
          assert init[i] == infos[i];
        }
      }
    }
  }

  /** A pane is present in a window exactly when some record names all three. */
  lemma {:induction false} GroupPaneKeys(infos: seq<PaneInfo>, k: nat, w: nat, p: nat)
    ensures (k in Group(infos) && w in Group(infos)[k].windows && p in Group(infos)[k].windows[w].panes) <==>
              exists i :: 0 <= i < |infos| && infos[i].sessionId == k && infos[i].windowId == w && infos[i].paneId == p
    decreases |infos|
  {
    if infos != [] {
      var init := infos[..|infos| - 1];
      GroupPaneKeys(init, k, w, p);
      if k in Group(init) && w in Group(init)[k].windows && p in Group(init)[k].windows[w].panes {
        var i :| 0 <= i < |init| && init[i].sessionId == k && init[i].windowId == w && init[i].paneId == p;
        assert infos[i] == init[i];
      }
      if exists i :: 0 <= i < |infos| && infos[i].sessionId == k && infos[i].windowId == w && infos[i].paneId == p {
        var i :| 0 <= i < |infos| && infos[i].sessionId == k && infos[i].windowId == w && infos[i].paneId == p;
        if i < |init| {
          assert init[i] == infos[i];
        }
      }
    }
  }

  /** A session's id, name and cwd come from the first record that names it. */
  lemma {:induction false} GroupFirstSession(infos: seq<PaneInfo>, i: nat)
    requires i < |infos|
    requires forall j :: 0 <= j < i ==> infos[j].sessionId != infos[i].sessionId
    ensures infos[i].sessionId in Group(infos)
    ensures var s := Group(infos)[infos[i].sessionId];
            s.id == infos[i].sessionId && s.name == infos[i].sessionName && s.cwd == infos[i].sessionCwd
    decreases |infos|
  {
    var init := infos[..|infos| - 1];
    var k := infos[i].sessionId;
    if i < |init| {
      assert forall j :: 0 <= j < i ==> init[j] == infos[j];
      GroupFirstSession(init, i);
      assert init[i] == infos[i];
    } else {
      GroupSessionKeys(init, k);
      assert forall j :: 0 <= j < |init| ==> init[j] == infos[j];
    }
  }

  /** A window's id, index, name, layout and activity come from the first record that
      names it under its session. */
  lemma {:induction false} GroupFirstWindow(infos: seq<PaneInfo>, i: nat)
    requires i < |infos|
    requires forall j :: 0 <= j < i ==>
               !(infos[j].sessionId == infos[i].sessionId && infos[j].windowId == infos[i].windowId)
    ensures infos[i].sessionId in Group(infos) && infos[i].windowId in Group(infos)[infos[i].sessionId].windows
    ensures var w := Group(infos)[infos[i].sessionId].windows[infos[i].windowId];
            w.id == infos[i].windowId && w.index == infos[i].windowIndex && w.name == infos[i].windowName
            && w.layout == infos[i].windowLayout && w.active == infos[i].windowActive
    decreases |infos|
  {
    var init := infos[..|infos| - 1];
    if i < |init| {
      assert forall j :: 0 <= j < i ==> init[j] == infos[j];
      GroupFirstWindow(init, i);
      assert init[i] == infos[i];
    } else {
      GroupWindowKeys(init, infos[i].sessionId, infos[i].windowId);
      assert forall j :: 0 <= j < |init| ==> init[j] == infos[j];
    }
  }

  /** A pane is the one from the last record that names it under its session and window. */
  lemma {:induction false} GroupLastPane(infos: seq<PaneInfo>, i: nat)
    requires i < |infos|
    requires forall j :: i < j < |infos| ==>
               !(infos[j].sessionId == infos[i].sessionId && infos[j].windowId == infos[i].windowId
                 && infos[j].paneId == infos[i].paneId)
    ensures var x := infos[i];
            x.sessionId in Group(infos) && x.windowId in Group(infos)[x.sessionId].windows
            && x.paneId in Group(infos)[x.sessionId].windows[x.windowId].panes
            && Group(infos)[x.sessionId].windows[x.windowId].panes[x.paneId] == Pane(x.paneId, x.paneIndex, x.paneActive, x.paneCwd)
    decreases |infos|
  {
    var init := infos[..|infos| - 1];
    if i < |init| {
      assert forall j :: i < j < |init| ==> init[j] == infos[j];
      GroupLastPane(init, i);
      assert init[i] == infos[i];
    }
  }

  /** Every key of the grouped maps is the id of the value stored under it. */
  predicate Coherent(st: map<nat, Session>)
  {
    forall k :: k in st ==>
      st[k].id == k
      && forall w :: w in st[k].windows ==>
           st[k].windows[w].id == w
           && forall p :: p in st[k].windows[w].panes ==> st[k].windows[w].panes[p].id == p
  }

  lemma {:induction false} GroupCoherent(infos: seq<PaneInfo>)
    ensures Coherent(Group(infos))
    decreases |infos|
  {
    if infos != [] {
      GroupCoherent(infos[..|infos| - 1]);
    }
  }

  // ---------------------------------------------------------------------------
  // Ordering

  /** `ks` lists each key of `m` exactly once. */
  predicate ListsKeys<V>(ks: seq<nat>, m: map<nat, V>)
  {
    (forall i, j :: 0 <= i < j < |ks| ==> ks[i] != ks[j])
    && (forall i :: 0 <= i < |ks| ==> ks[i] in m)
    && (forall k :: k in m ==> k in ks)
  }

  /** `vs` holds the values of `m`, one for each key, in some order. */
  ghost predicate Enumerates<V>(vs: seq<V>, m: map<nat, V>)
  {
    exists ks :: ListsKeys(ks, m) && |ks| == |vs| && forall i :: 0 <= i < |vs| ==> vs[i] == m[ks[i]]
  }

  /** `HashMap::into_values`: the values in an order the map does not promise. */
  method Values<V>(m: map<nat, V>) returns (vs: seq<V>)
    ensures Enumerates(vs, m)
  {
    ghost var ks: seq<nat> := [];
    var rest := m.Keys;
    vs := [];
    while rest != {}
      invariant rest <= m.Keys
      invariant |ks| == |vs|
      invariant forall i, j :: 0 <= i < j < |ks| ==> ks[i] != ks[j]
      invariant forall i :: 0 <= i < |ks| ==> ks[i] in m && ks[i] !in rest && vs[i] == m[ks[i]]
      invariant forall k :: k in m ==> k in rest || k in ks
      decreases |rest|
    {
      var k :| k in rest;
      vs := vs + [m[k]];
      ks := ks + [k];
      rest := rest - {k};
    }
    assert ListsKeys(ks, m);
  }

  predicate SortedBy<T>(xs: seq<T>, key: T -> nat)
  {
    forall i, j :: 0 <= i < j < |xs| ==> key(xs[i]) <= key(xs[j])
  }

  /** `x` placed before the first element whose key is not smaller than its own. */
  function InsertBy<T>(x: T, xs: seq<T>, key: T -> nat): seq<T>
  {
    if xs == [] || key(x) <= key(xs[0]) then [x] + xs else [xs[0]] + InsertBy(x, xs[1..], key)
  }

  /** `sort_by_key`: the elements ordered by key; elements with equal keys keep their order. */
  function SortBy<T>(xs: seq<T>, key: T -> nat): seq<T>
  {
    if xs == [] then [] else InsertBy(xs[0], SortBy(xs[1..], key), key)
  }

  /** The elements with key `c`, in order. */
  function WithKey<T>(xs: seq<T>, key: T -> nat, c: nat): seq<T>
  {
    if xs == [] then [] else (if key(xs[0]) == c then [xs[0]] else []) + WithKey(xs[1..], key, c)
  }

  lemma {:induction false} InsertBySorted<T>(x: T, xs: seq<T>, key: T -> nat)
    requires SortedBy(xs, key)
    ensures SortedBy(InsertBy(x, xs, key), key)
    ensures |InsertBy(x, xs, key)| == |xs| + 1
    ensures InsertBy(x, xs, key) != [] && (key(InsertBy(x, xs, key)[0]) == key(x) || (xs != [] && InsertBy(x, xs, key)[0] == xs[0]))
    decreases |xs|
  {
    if xs != [] && key(x) > key(xs[0]) {
      InsertBySorted(x, xs[1..], key);
      var r := InsertBy(x, xs[1..], key);
      assert forall i :: 0 <= i < |r| ==> key(xs[0]) <= key(r[i]) by {
        forall i | 0 <= i < |r|
          ensures key(xs[0]) <= key(r[i])
        {
          InsertByElement(x, xs[1..], key, i);
        }
      }
    }
  }

  /** Every element of an insertion is `x` or an element of `xs`. */
  lemma {:induction false} InsertByElement<T>(x: T, xs: seq<T>, key: T -> nat, i: nat)
    requires SortedBy(xs, key) && i < |InsertBy(x, xs, key)|
    ensures InsertBy(x, xs, key)[i] == x || exists j :: 0 <= j < |xs| && InsertBy(x, xs, key)[i] == xs[j]
    ensures xs != [] && key(x) > key(xs[0]) ==> key(xs[0]) <= key(InsertBy(x, xs, key)[i])
    decreases |xs|
  {
    if xs != [] && key(x) > key(xs[0]) && i > 0 {
      InsertByElement(x, xs[1..], key, i - 1);
      if InsertBy(x, xs[1..], key)[i - 1] != x {
        var j :| 0 <= j < |xs[1..]| && InsertBy(x, xs[1..], key)[i - 1] == xs[1..][j];
        assert xs[1..][j] == xs[j + 1];
      }
    } else if xs != [] && key(x) <= key(xs[0]) && i > 0 {
      assert InsertBy(x, xs, key)[i] == xs[i - 1];
    }
  }

  /** The sort orders the elements by key. */
  lemma {:induction false} SortBySorted<T>(xs: seq<T>, key: T -> nat)
    ensures SortedBy(SortBy(xs, key), key)
    ensures |SortBy(xs, key)| == |xs|
    decreases |xs|
  {
    if xs != [] {
      SortBySorted(xs[1..], key);
      InsertBySorted(xs[0], SortBy(xs[1..], key), key);
    }
  }

  /** The sort rearranges the elements and drops or adds none. */
  lemma {:induction false} SortByPermutes<T>(xs: seq<T>, key: T -> nat)
    ensures multiset(SortBy(xs, key)) == multiset(xs)
    decreases |xs|
  {
    if xs != [] {
      SortByPermutes(xs[1..], key);
      InsertByPermutes(xs[0], SortBy(xs[1..], key), key);
      assert xs == [xs[0]] + xs[1..];
    }
  }

  lemma {:induction false} InsertByPermutes<T>(x: T, xs: seq<T>, key: T -> nat)
    ensures multiset(InsertBy(x, xs, key)) == multiset([x] + xs)
    decreases |xs|
  {
    if xs != [] && key(x) > key(xs[0]) {
      InsertByPermutes(x, xs[1..], key);
      assert xs == [xs[0]] + xs[1..];
    }
  }

  /** The sort is stable: the elements with one key come out in the order they went in. */
  lemma {:induction false} SortByStable<T>(xs: seq<T>, key: T -> nat, c: nat)
    ensures WithKey(SortBy(xs, key), key, c) == WithKey(xs, key, c)
    decreases |xs|
  {
    if xs != [] {
      SortByStable(xs[1..], key, c);
      InsertByWithKey(xs[0], SortBy(xs[1..], key), key, c);
    }
  }

  lemma {:induction false} InsertByWithKey<T>(x: T, xs: seq<T>, key: T -> nat, c: nat)
    ensures WithKey(InsertBy(x, xs, key), key, c) == (if key(x) == c then [x] else []) + WithKey(xs, key, c)
    decreases |xs|
  {
    if xs == [] || key(x) <= key(xs[0]) {
      WithKeyCons(x, xs, key, c);
    } else {
      var ins := InsertBy(x, xs[1..], key);
      InsertByWithKey(x, xs[1..], key, c);
      WithKeyCons(xs[0], ins, key, c);
      WithKeyCons(xs[0], xs[1..], key, c);
      assert [xs[0]] + xs[1..] == xs;
      SwapFronts(if key(xs[0]) == c then [xs[0]] else [], if key(x) == c then [x] else [], WithKey(xs[1..], key, c));
    }
  }

  lemma WithKeyCons<T>(x: T, xs: seq<T>, key: T -> nat, c: nat)
    ensures WithKey([x] + xs, key, c) == (if key(x) == c then [x] else []) + WithKey(xs, key, c)
  {
    assert ([x] + xs)[1..] == xs;
  }

  /** Two sequences sorted by key that have the same elements under every key are equal. */
  lemma {:induction false} SortedByWithKeyDetermines<T>(xs: seq<T>, ys: seq<T>, key: T -> nat)
    requires SortedBy(xs, key) && SortedBy(ys, key)
    requires forall c :: WithKey(xs, key, c) == WithKey(ys, key, c)
    ensures xs == ys
    decreases |xs|
  {
    assert xs != [] ==> WithKey(xs, key, key(xs[0])) != [];
    assert ys != [] ==> WithKey(ys, key, key(ys[0])) != [];
    if xs != [] && ys != [] {
      var cx, cy := key(xs[0]), key(ys[0]);
      WithKeyElement(ys, key, cx);
      WithKeyElement(xs, key, cy);
      assert WithKey(xs, key, cx) != [];
      assert WithKey(ys, key, cy) != [];
      assert cx == cy;
      assert WithKey(xs, key, cx) == [xs[0]] + WithKey(xs[1..], key, cx);
      assert WithKey(ys, key, cx) == [ys[0]] + WithKey(ys[1..], key, cx);
      assert xs[0] == ys[0] by {
        assert WithKey(xs, key, cx) == WithKey(ys, key, cx);
        assert WithKey(xs, key, cx)[0] == xs[0];
      }
      forall c
        ensures WithKey(xs[1..], key, c) == WithKey(ys[1..], key, c)
      {
        var px := if key(xs[0]) == c then [xs[0]] else [];
        assert WithKey(xs, key, c) == px + WithKey(xs[1..], key, c);
        assert WithKey(ys, key, c) == px + WithKey(ys[1..], key, c);
        assert WithKey(xs, key, c) == WithKey(ys, key, c);
        assert WithKey(xs[1..], key, c) == WithKey(xs, key, c)[|px|..];
      }
      SortedByTail(xs, key);
      SortedByTail(ys, key);
      SortedByWithKeyDetermines(xs[1..], ys[1..], key);
    }
  }

  lemma SortedByTail<T>(xs: seq<T>, key: T -> nat)
    requires SortedBy(xs, key) && xs != []
    ensures SortedBy(xs[1..], key)
  {
    assert forall i :: 0 <= i < |xs| - 1 ==> xs[1..][i] == xs[i + 1];
  }

  /** A key with elements in a sorted sequence is at least the key of its first element. */
  lemma {:induction false} WithKeyElement<T>(xs: seq<T>, key: T -> nat, c: nat)
    requires SortedBy(xs, key) && xs != []
    ensures WithKey(xs, key, c) != [] ==> key(xs[0]) <= c
    decreases |xs|
  {
    if key(xs[0]) != c {
      assert WithKey(xs, key, c) == WithKey(xs[1..], key, c);
      if |xs| > 1 {
        SortedByTail(xs, key);
        WithKeyElement(xs[1..], key, c);
        assert xs[1..][0] == xs[1];
      }
    }
  }

  /** No two values of `m` share a key. */
  predicate KeyInjective<V>(m: map<nat, V>, key: V -> nat)
  {
    forall k1, k2 :: k1 in m && k2 in m && key(m[k1]) == key(m[k2]) ==> k1 == k2
  }

  /** In an enumeration of a map whose values have distinct keys, a key picks out at most
      the one value that has it. */
  lemma WithKeyOfEnumeration<V>(vs: seq<V>, m: map<nat, V>, key: V -> nat, c: nat)
    requires Enumerates(vs, m) && KeyInjective(m, key)
    ensures forall k :: k in m && key(m[k]) == c ==> WithKey(vs, key, c) == [m[k]]
    ensures (forall k :: k in m ==> key(m[k]) != c) ==> WithKey(vs, key, c) == []
  {
    var ks :| ListsKeys(ks, m) && |ks| == |vs| && forall i :: 0 <= i < |vs| ==> vs[i] == m[ks[i]];
    WithKeyOfKeys(vs, ks, m, key, c);
    forall k | k in m && key(m[k]) == c
      ensures WithKey(vs, key, c) == [m[k]]
    {
      var i :| 0 <= i < |ks| && ks[i] == k;
    }
  }

  lemma {:induction false} WithKeyOfKeys<V>(vs: seq<V>, ks: seq<nat>, m: map<nat, V>, key: V -> nat, c: nat)
    requires |ks| == |vs| && (forall i :: 0 <= i < |ks| ==> ks[i] in m && vs[i] == m[ks[i]])
    requires forall i, j :: 0 <= i < j < |ks| ==> ks[i] != ks[j]
    requires KeyInjective(m, key)
    ensures forall i :: 0 <= i < |vs| && key(vs[i]) == c ==> WithKey(vs, key, c) == [vs[i]]
    ensures (forall i :: 0 <= i < |vs| ==> key(vs[i]) != c) ==> WithKey(vs, key, c) == []
    decreases |vs|
  {
    if vs != [] {
      WithKeyOfKeys(vs[1..], ks[1..], m, key, c);
      if key(vs[0]) == c {
        forall i | 0 < i < |vs|
          ensures key(vs[i]) != c
        {
          assert ks[0] != ks[i];
        }
        assert forall i :: 0 <= i < |vs[1..]| ==> key(vs[1..][i]) != c;
      } else {
        assert forall i :: 0 < i < |vs| ==> vs[i] == vs[1..][i - 1];
      }
    }
  }

  /** `HashMap::into_values` followed by `sort_by_key` gives one and the same sequence for
      every iteration order, when no two values share a key. */
  lemma SortedValuesUnique<V>(m: map<nat, V>, key: V -> nat, a: seq<V>, b: seq<V>)
    requires KeyInjective(m, key) && Enumerates(a, m) && Enumerates(b, m)
    ensures SortBy(a, key) == SortBy(b, key)
  {
    SortBySorted(a, key);
    SortBySorted(b, key);
    forall c
      ensures WithKey(SortBy(a, key), key, c) == WithKey(SortBy(b, key), key, c)
    {
      SortByStable(a, key, c);
      SortByStable(b, key, c);
      WithKeyOfEnumeration(a, m, key, c);
      WithKeyOfEnumeration(b, m, key, c);
    }
    SortedByWithKeyDetermines(SortBy(a, key), SortBy(b, key), key);
  }

  /** The sessions of a parsed state come out in one order, by id, whatever the map's order. */
  lemma SessionOrderUnique(infos: seq<PaneInfo>, a: seq<Session>, b: seq<Session>)
    requires Enumerates(a, Group(infos)) && Enumerates(b, Group(infos))
    ensures SortBy(a, SessionKey) == SortBy(b, SessionKey)
    ensures SortedBy(SortBy(a, SessionKey), SessionKey)
  {
    GroupCoherent(infos);
    SortBySorted(a, SessionKey);
    SortedValuesUnique(Group(infos), SessionKey, a, b);
  }

  // ---------------------------------------------------------------------------
  // Conversion into configuration values

  function SessionKey(s: Session): nat { s.id }
  function WindowKey(w: Window): nat { w.index }
  function PaneKey(p: Pane): nat { p.index }

  /** The cwd a pane is given: its path relative to the session's path when the session
      has one and the pane's path lies under it, and its whole path otherwise. */
  function PaneCwd(sessionPath: Option<Path>, paneCwd: string): Cwd
  {
    var stripped := if sessionPath.Some? then StripPrefix(paneCwd, sessionPath.value) else None;
    match stripped
    case Some(p) => FromPathBuf(p)
    case None => FromString(paneCwd)
  }

  /** Resolving an imported pane cwd against its session cwd, as a loaded configuration
      does, gives back the pane's own absolute path: relative to the session's path when
      stripped, and unchanged otherwise. */
  lemma PaneCwdResolves(sessionPath: Option<Path>, paneCwd: Path)
    requires IsAbsolute(paneCwd) && (sessionPath.Some? ==> IsAbsolute(sessionPath.value))
    ensures EqStr(Joined(Cwd(sessionPath), PaneCwd(sessionPath, paneCwd)), paneCwd)
  {
    if sessionPath.Some? && StripPrefix(paneCwd, sessionPath.value).Some? {
      var root := sessionPath.value;
      var rel := StripPrefix(paneCwd, root).value;
      StripPrefixParts(paneCwd, root);
      NamesOfJoinNames(Names(paneCwd)[|Names(root)|..]);
      StripPrefixRejoins(paneCwd, root);
      ComponentsEmptyIff(rel);
      if rel == [] {
        assert Names(paneCwd)[|Names(root)|..] == [];
        assert Names(paneCwd) == Names(root);
      } else {
        var j := Join(root, rel);
        assert j[0] == '/';
        ComponentsEmptyIff(j);
      }
    }
  }

  /** Without a session path, or outside it, a pane keeps its whole path; a pane in the
      session's own directory gets no cwd of its own. */
  lemma PaneCwdCases(sessionPath: Option<Path>, paneCwd: Path)
    ensures sessionPath.None? ==> PaneCwd(sessionPath, paneCwd) == FromString(paneCwd)
    ensures sessionPath.Some? && StripPrefix(paneCwd, sessionPath.value).None? ==>
              PaneCwd(sessionPath, paneCwd) == FromString(paneCwd)
    ensures sessionPath == Some(paneCwd) ==> PaneCwd(sessionPath, paneCwd) == Default
  {
    if sessionPath == Some(paneCwd) {
      assert Components(paneCwd)[|Components(paneCwd)|..] == [];
    }
  }

  /** What the zip writes into the converted tree's panes, one update per tmux pane. */
  function PaneUpdates(ps: seq<Pane>, sessionPath: Option<Path>): (us: seq<ConfigModel.PaneUpdate>)
    ensures |us| == |ps|
    ensures forall i :: 0 <= i < |ps| ==> us[i] == ConfigModel.PaneUpdate(ps[i].active, PaneCwd(sessionPath, ps[i].cwd))
  {
    if ps == [] then []
    else [ConfigModel.PaneUpdate(ps[0].active, PaneCwd(sessionPath, ps[0].cwd))] + PaneUpdates(ps[1..], sessionPath)
  }

  /** `into_config_window` for panes already in the order they are zipped in. */
  function ConfigWindow(w: Window, panes: seq<Pane>, sessionCwd: Cwd): ConfigModel.Window
  {
    var root := ConfigModel.ZipLeaves(TmuxLayout.ToSplit(w.layout), PaneUpdates(panes, ToPath(sessionCwd))).0;
    ConfigModel.Window(Some(w.name), Default, w.active, ConfigModel.RootSplit(root))
  }

  /** The converted window keeps the tmux window's name and activity, has no cwd of its
      own, follows the layout's shape, and has one pane per layout pane: the first ones
      take the activity and cwd of the tmux panes in order, any others stay default. */
  lemma ConfigWindowPanes(w: Window, panes: seq<Pane>, sessionCwd: Cwd)
    ensures var r := ConfigWindow(w, panes, sessionCwd);
            r.name == Some(w.name) && r.cwd == Default && r.active == w.active
            && ConfigModel.SameShape(TmuxLayout.ToSplit(w.layout), r.rootSplit.split)
    ensures var leaves := ConfigModel.Leaves(ConfigWindow(w, panes, sessionCwd).rootSplit.split);
            var n := TmuxLayout.PaneCount(w.layout);
            |leaves| == n
            && (forall i :: 0 <= i < ConfigModel.Min(n, |panes|) ==>
                  leaves[i] == ConfigModel.DefaultPane.(active := panes[i].active, cwd := PaneCwd(ToPath(sessionCwd), panes[i].cwd)))
            && (forall i :: ConfigModel.Min(n, |panes|) <= i < n ==> leaves[i] == ConfigModel.DefaultPane)
  {
    var split := TmuxLayout.ToSplit(w.layout);
    var us := PaneUpdates(panes, ToPath(sessionCwd));
    TmuxLayout.ToSplitPanes(w.layout);
    ConfigModel.ZipPanesAt(ConfigModel.Leaves(split), us);
  }

  /** `r` is what `into_config_window` makes of `w`, for some order of its panes map. */
  ghost predicate ConvertedWindow(w: Window, sessionCwd: Cwd, r: ConfigModel.Window)
  {
    exists vs :: Enumerates(vs, w.panes) && r == ConfigWindow(w, SortBy(vs, PaneKey), sessionCwd)
  }

  /** `Window::into_config_window`: the panes sorted by index are zipped, in pane-iterator
      order, with the panes of the tree converted from the layout. */
  method IntoConfigWindow(w: Window, sessionCwd: Cwd) returns (r: ConfigModel.Window)
    ensures ConvertedWindow(w, sessionCwd, r)
  {
    var sessionPath := ToPath(sessionCwd);
    var panes := Values(w.panes);
    ghost var vs := panes;
    panes := SortBy(panes, PaneKey);
    var root := TmuxLayout.IntoSplit(w.layout);
    root := ConfigModel.ZipLeaves(root, PaneUpdates(panes, sessionPath)).0;
    r := ConfigModel.Window(Some(w.name), Default, w.active, ConfigModel.RootSplit(root));
    assert r == ConfigWindow(w, SortBy(vs, PaneKey), sessionCwd);
  }

  ghost predicate ConvertedWindows(ws: seq<Window>, sessionCwd: Cwd, rs: seq<ConfigModel.Window>)
  {
    |rs| == |ws| && forall i :: 0 <= i < |ws| ==> ConvertedWindow(ws[i], sessionCwd, rs[i])
  }

  lemma ConvertedWindowsStep(ws: seq<Window>, sessionCwd: Cwd, rs: seq<ConfigModel.Window>, c: ConfigModel.Window)
    requires |rs| < |ws| && forall j :: 0 <= j < |rs| ==> ConvertedWindow(ws[j], sessionCwd, rs[j])
    requires ConvertedWindow(ws[|rs|], sessionCwd, c)
    ensures forall j :: 0 <= j < |rs| + 1 ==> ConvertedWindow(ws[j], sessionCwd, (rs + [c])[j])
  {
    assert forall j :: 0 <= j < |rs| ==> (rs + [c])[j] == rs[j];
  }

  /** `r` is what `From<Session>` makes of `s`, for some order of its maps. */
  ghost predicate ConvertedSession(s: Session, r: ConfigModel.Session)
  {
    r.name == s.name && r.cwd == FromString(s.cwd)
    && exists ws :: Enumerates(ws, s.windows) && ConvertedWindows(SortBy(ws, WindowKey), r.cwd, r.windows)
  }

  lemma SessionConverted(s: Session, ws: seq<Window>, r: ConfigModel.Session)
    requires r.name == s.name && r.cwd == FromString(s.cwd)
    requires Enumerates(ws, s.windows) && ConvertedWindows(SortBy(ws, WindowKey), r.cwd, r.windows)
    ensures ConvertedSession(s, r)
  {
  }

  /** `From<Session> for config::Session`: the name, the cwd from the session path, and
      the windows sorted by index, each converted against the session cwd. */
  method SessionToConfig(s: Session) returns (r: ConfigModel.Session)
    ensures ConvertedSession(s, r)
  {
    var sessionCwd := FromString(s.cwd);
    var windows := Values(s.windows);
    ghost var ws := windows;
    windows := SortBy(windows, WindowKey);
    var converted := ConvertWindows(windows, sessionCwd);
    r := ConfigModel.Session(s.name, sessionCwd, converted);
    SessionConverted(s, ws, r);
  }

  /** The `map(into_config_window).collect()` over the sorted windows. */
  method ConvertWindows(windows: seq<Window>, sessionCwd: Cwd) returns (converted: seq<ConfigModel.Window>)
    ensures ConvertedWindows(windows, sessionCwd, converted)
  {
    converted := [];
    for i := 0 to |windows|
      invariant |converted| == i
      invariant forall j :: 0 <= j < i ==> ConvertedWindow(windows[j], sessionCwd, converted[j])
    {
      var c := IntoConfigWindow(windows[i], sessionCwd);
      ConvertedWindowsStep(windows, sessionCwd, converted, c);
      converted := converted + [c];
    }
  }

  ghost predicate ConvertedSessions(ss: seq<Session>, rs: seq<ConfigModel.Session>)
  {
    |rs| == |ss| && forall i :: 0 <= i < |ss| ==> ConvertedSession(ss[i], rs[i])
  }

  lemma ConvertedSessionsStep(ss: seq<Session>, rs: seq<ConfigModel.Session>, r: ConfigModel.Session)
    requires |rs| < |ss| && forall j :: 0 <= j < |rs| ==> ConvertedSession(ss[j], rs[j])
    requires ConvertedSession(ss[|rs|], r)
    ensures forall j :: 0 <= j < |rs| + 1 ==> ConvertedSession(ss[j], (rs + [r])[j])
  {
    assert forall j :: 0 <= j < |rs| ==> (rs + [r])[j] == rs[j];
  }

  ghost predicate ConvertedState(st: TmuxState, rs: seq<ConfigModel.Session>)
  {
    exists ss :: Enumerates(ss, st.sessions) && ConvertedSessions(SortBy(ss, SessionKey), rs)
  }

  lemma StateConverted(st: TmuxState, ss: seq<Session>, rs: seq<ConfigModel.Session>)
    requires Enumerates(ss, st.sessions) && ConvertedSessions(SortBy(ss, SessionKey), rs)
    ensures ConvertedState(st, rs)
  {
  }

  /** `From<TmuxState> for Vec<config::Session>`: the sessions sorted by id, each converted. */
  method StateToConfig(st: TmuxState) returns (rs: seq<ConfigModel.Session>)
    ensures ConvertedState(st, rs)
  {
    var sessions := Values(st.sessions);
    ghost var ss := sessions;
    sessions := SortBy(sessions, SessionKey);
    rs := ConvertSessions(sessions);
    StateConverted(st, ss, rs);
  }

  /** The `map(Into::into).collect()` over the sorted sessions. */
  method ConvertSessions(sessions: seq<Session>) returns (rs: seq<ConfigModel.Session>)
    ensures ConvertedSessions(sessions, rs)
  {
    rs := [];
    for i := 0 to |sessions|
      invariant |rs| == i
      invariant forall j :: 0 <= j < i ==> ConvertedSession(sessions[j], rs[j])
    {
      var r := SessionToConfig(sessions[i]);
      ConvertedSessionsStep(sessions, rs, r);
      rs := rs + [r];
    }
  }
}
