# tmux-layout-rs, modelled in Dafny

tmux-layout-rs describes tmux sessions, windows and pane layouts in a configuration
file. It turns a configuration into one `tmux` invocation whose arguments are a
`;`-separated list of tmux commands. In the other direction it imports the live tmux
state: it reads one line per pane, groups the lines into sessions and windows, parses
each window's layout descriptor, and turns the result back into a configuration tree.

This project models the deterministic core of that program and proves properties of it:

- `cwd.dfy` (module `Paths`): the optional working directory `Cwd`. It covers `joined`,
  `is_empty` and the `From` conversions, over a simple path model. A path is a `seq<char>`.
  It is absolute when it starts with `/`. Join inserts one `/`. Prefix stripping works on
  whole components.
- `config_model.dfy` (module `ConfigModel`): the split tree `Split` = pane | `H{left,right}`
  | `V{top,bottom}`. It also covers:
  - the flat `SplitMap` form and the conversions both ways;
  - the stack-based `Panes` iterator, as a class over its `stack` field;
  - `PanesMut`, as a function that zips updates onto the leaves;
  - `is_default_size`;
  - `into_config`.
- `tmux_layout.dfy` (module `TmuxLayout`): the tmux `window_layout` parser, written as pure
  functions that return the rest of the input. It also has the conversion of a layout into a
  right-nested binary `Split` chain. That conversion is a method with the source's reverse loop,
  proved against a fold function.
- `tmux_layout_sample.dfy`: the descriptor of the layout test parses to the tree that the
  test asserts.
- `tmux_command.dfy` (module `TmuxCommand`): specification functions for what each builder
  operation emits:
  - split flow, root-pane choice, directions, targets;
  - command separators;
  - the `apply_split` recursion;
  - active pane and window selection;
  - session and window creation.
- `tmux_builder.dfy` (module `TmuxBuilder`): `TmuxCommandBuilder` as a class. Its fields are
  the argument list, `first_command`, `current_session_name`, `window_count` and
  `active_window_index`. The methods append to the argument list and are proved against the
  specification functions.
- `tmux_import.dfy` (module `TmuxImport`): decoding of one pane line from its word list; the
  grouping loop of `parse_tmux_state`; sorting by id and index; and the conversion of the
  imported state into configuration sessions and windows.
- `text.dfy`, `wrappers.dfy`, `seqs.dfy`: decimal digits, nom's `u32`/`digit1`/`tag`,
  Rust's unsigned `parse`, `Option`/`Result`, and small sequence lemmas.

Properties proved:

- Joining rules for `Cwd`.
- `Split` → `SplitMap` → `Split` is the identity. `SplitMap` → `Split` → `SplitMap` is the
  identity exactly on canonical maps.
- The pane iterator yields exactly the pre-order leaves.
- The layout parser reads back every descriptor rendered from a tree with in-range numbers,
  and the sample descriptor parses to the asserted tree.
- The layout conversion is a chain of n − 1 splits. It carries the children's panes in order,
  sizes only the second halves, and the accumulated extent is sum − (n − 1).
- Significant `;` separators.
- `apply_split` emits exactly one `split-window` and one `select-pane` per split node, and one
  `send-keys` per pane with keys.
- The active-window bookkeeping keeps the first active window, and its index stays below the
  window count.
- Parsing a pane line succeeds exactly when every field decodes. Formatting a record and
  parsing it back gives the record.
- Grouping: the first record wins for session and window fields, the last record wins for panes.
- Where ids and indices are unique, the sorted output order does not depend on the map's
  iteration order (proved for sessions, sorted by id).

## Model

| member | source | states |
|---|---|---|
| Paths.Joined | src/cwd.rs:17-31 | an absent `other` gives `self`; an absolute `other` gives `other`; a relative `other` gives `other` on an absent `self` and `self.join(other)` on a present one |
| Paths.JoinedUnit | src/cwd.rs:17-31 | the default `Cwd` is a unit on both sides of join |
| Paths.JoinedEndsWithOther | src/cwd.rs:24-27 | joining a non-empty `other` gives a present path that ends with `other` |
| Paths.JoinedKeepsAbsolute | src/cwd.rs:17-31 | joining anything onto an absolute `self` stays absolute |
| Paths.Join | src/cwd.rs:24-27 | `Path::join` returns an absolute `other` as is, else the prefix, at most one `/`, then `other` |
| Paths.Names | src/cwd.rs:43-48 | the normal components of a path are non-empty and contain no `/` |
| Paths.ComponentsEmptyIff | src/cwd.rs:43-48 | a path has no components exactly when it is the empty path |
| Paths.IsEmpty | src/cwd.rs:43-48 | `is_empty` holds exactly when the path is absent or empty |
| Paths.FromString | src/cwd.rs:51-59 | an empty string gives the absent `Cwd`; any other string is kept as the path |
| Paths.FromPathBuf | src/cwd.rs:61-69 | a `PathBuf` converts exactly like the same string |
| Paths.FromOptString | src/cwd.rs:71-78 | `None` or an empty string gives the absent `Cwd`; otherwise the string is the path |
| Paths.FromStr | src/cwd.rs:80-84 | a `&str` always becomes a present path, even when empty |
| Paths.EqStrCases | src/cwd.rs:86-90 | comparison with a `&str` is false for an absent path and true when the path is that string |
| Paths.FromStringEqStr | src/cwd.rs:86-90 | a `Cwd` made from a string equals that string exactly when the string is non-empty |
| Paths.NameLength | src/cwd.rs:43-48 | the first component of a relative path runs up to the first `/` |
| Paths.NamesConcat | src/cwd.rs:24-27 | the components of `a/b` are those of `a` followed by those of `b` |
| Paths.NamesOfJoinNames | src/tmux/import.rs:99-102 | components joined with `/` read back as the same components, as a relative path |
| Paths.StripPrefix | src/tmux/import.rs:99-102 | `strip_prefix` succeeds exactly when the root's components are a prefix of the path's |
| Paths.StripPrefixParts | src/tmux/import.rs:99-102 | a stripped path is the remaining components of the path after the root's |
| Paths.StripPrefixRejoins | src/tmux/import.rs:99-102 | joining the root with the stripped remainder gives a path with the original components |
| ConfigModel.SinglePane | src/config/model.rs:72-77 | `single_pane` is `Some` exactly on a pane node, and that pane is the tree's only leaf |
| ConfigModel.LeavesNonEmpty | src/config/model.rs:147-177 | every tree has at least one pane |
| ConfigModel.StackPush | src/config/model.rs:161-176 | what remains on the iterator's stack is the top's leaves first, then the rest |
| ConfigModel.Panes.constructor | src/config/model.rs:153-155 | a new iterator holds the root alone, and what remains is the root's leaves |
| ConfigModel.Panes.Next | src/config/model.rs:161-176 | `next` yields the first remaining leaf in pre-order and removes it, or `None` once nothing remains |
| ConfigModel.PushHalves | src/config/model.rs:165-174 | pushing second, then first, in place of a split keeps the remaining leaves and shrinks the stack's measure |
| ConfigModel.CollectPanes | src/config/model.rs:147-177 | draining the iterator gives exactly the pre-order leaf list: left before right, top before bottom |
| ConfigModel.ZipLeaves | src/config/model.rs:179-209 | `PanesMut` visits the same leaves in the same order: zipping updates changes only the first min(leaves, updates) leaves, keeps the shape, and counts the pairs |
| ConfigModel.ZipPanesAt | src/config/model.rs:179-209 | zipped leaf i is updated for i below min(leaves, updates) and unchanged above it |
| ConfigModel.ZipPanesAppend | src/config/model.rs:179-209 | zipping over a concatenation zips the second part with the updates left over by the first |
| ConfigModel.FromSplitMap | src/config/model.rs:233-256 | a horizontal pair wins and its missing half defaults; otherwise a vertical pair; otherwise a pane carrying the map's pane fields |
| ConfigModel.SplitMapRoundTrip | src/config/model.rs:233-280 | `Split` → `SplitMap` sets only its own kind's fields, and converting back gives the same split |
| ConfigModel.SplitMapNormalizes | src/config/model.rs:233-280 | `SplitMap` → `Split` → `SplitMap` is the identity exactly on maps with one full pair or none and every other field default |
| ConfigModel.RootToSplitMap | src/config/model.rs:282-293 | a single-pane root loses its `active` flag before conversion; other roots convert unchanged |
| ConfigModel.RootRoundTrip | src/config/model.rs:282-299 | a root survives the round trip, except a single root pane's `active` flag |
| ConfigModel.WrittenSize | src/config/model.rs:301-306 | the size that survives serialization (`skip_serializing_if` on the part's size) is absent exactly for a default size (`None` or `50%`) and otherwise the size itself |
| ConfigModel.WrittenSizeStable | src/config/model.rs:301-306 | writing a size twice is writing it once, and the only present size dropped is `50%` |
| ConfigModel.IntoConfig | src/config/model.rs:24-37 | succeeds exactly when no includes remain, and then keeps the selected session, sessions and windows |
| ConfigModel.IntoConfigRoundTrip | src/config/model.rs:24-37 | a configuration with no includes converts to itself |
| Text.DigitChar | src/tmux/layout.rs:207-211 | a decimal digit's character reads back as that digit |
| Text.LeadingDigits | src/tmux/layout.rs:207-211 | the digit run at the front of a string is all digits and ends at a non-digit or the end |
| Text.NatToString | src/tmux/import.rs:227-230 | the decimal text of a number is non-empty and all digits |
| Text.NatToStringValue | src/tmux/import.rs:227-230 | the decimal text of a number reads back as that number |
| Text.Tag | src/tmux/layout.rs:168-211 | nom's `tag` on one character succeeds exactly on that first character and consumes it |
| Text.Digit1 | src/tmux/layout.rs:168-170 | `digit1` succeeds exactly on a leading digit and takes the whole digit run |
| Text.NomU32 | src/tmux/layout.rs:192-211 | nom's `u32` succeeds exactly when the leading digit run is non-empty and its value fits in 2^32 − 1, yielding that value and the input after the run |
| Text.NomU32OfNatToString | src/tmux/layout.rs:192-211 | nom's `u32` reads back the decimal text of any u32 |
| Text.ParseUnsigned | src/tmux/import.rs:244-250 | Rust's unsigned `parse` succeeds exactly on a non-empty run of digits after an optional `+` (so a lone `+` fails) whose value is within the type's maximum, and yields that value |
| Text.ParseUnsignedOfNatToString | src/tmux/import.rs:244-250 | Rust's unsigned `parse` reads back the decimal text of an in-range number |
| TmuxLayout.FirstComma | src/tmux/layout.rs:203-205 | `take_until(",")` stops at the first comma, or at the end without one |
| TmuxLayout.Checksum | src/tmux/layout.rs:203-205 | the checksum field succeeds exactly when a comma is present, skips through the first comma and checks nothing |
| TmuxLayout.SizeP | src/tmux/layout.rs:207-211 | `WxH` consumes input |
| TmuxLayout.CommaU32P | src/tmux/layout.rs:192-201 | `,n` consumes input and yields a u32 |
| TmuxLayout.GeomP | src/tmux/layout.rs:192-201 | `WxH,X,Y` consumes input |
| TmuxLayout.PaneSplitP | src/tmux/layout.rs:168-170 | a leaf `WxH,X,Y,digits` yields a `Pane` and consumes input |
| TmuxLayout.SplitP | src/tmux/layout.rs:164-166 | the alternative of leaf, `{…}` and `[…]` consumes input |
| TmuxLayout.BracketedP | src/tmux/layout.rs:172-190 | `geom` followed by a bracketed list yields at least one child |
| TmuxLayout.SeparatedListP | src/tmux/layout.rs:172-190 | `separated_list1` yields at least one item |
| TmuxLayout.MoreItemsP | src/tmux/layout.rs:172-190 | the repeated `,item` part always succeeds, consuming nothing or something |
| TmuxLayout.SizeParses | src/tmux/layout.rs:207-211 | rendered `WxH` parses back to the size |
| TmuxLayout.CommaU32Parses | src/tmux/layout.rs:192-201 | rendered `,n` parses back to n |
| TmuxLayout.GeomParses | src/tmux/layout.rs:192-201 | rendered `WxH,X,Y` parses back to the geometry |
| TmuxLayout.PaneRenderParses | src/tmux/layout.rs:168-170 | a rendered leaf parses to `Pane` with its geometry, and its id is discarded |
| TmuxLayout.BracketRenderParses | src/tmux/layout.rs:172-190 | a geometry followed by a bracketed list parses to the geometry and the list |
| TmuxLayout.RenderParses | src/tmux/layout.rs:164-190 | every rendered tree with in-range numbers parses back to the tree without ids, leaving the rest of the input |
| TmuxLayout.HRenderParses | src/tmux/layout.rs:172-180 | `{…}` parses to `H` with its children in textual order |
| TmuxLayout.VRenderParses | src/tmux/layout.rs:182-190 | `[…]` parses to `V` with its children in textual order |
| TmuxLayout.ListParses | src/tmux/layout.rs:172-190 | a comma-separated rendered list parses to its items in order and stops at the closing bracket |
| TmuxLayout.ParseRendered | src/tmux/layout.rs:141-162 | `checksum,tree` with a comma-free checksum parses to the tree, whatever the checksum |
| TmuxLayout.IntoSplit | src/tmux/layout.rs:34-96 | the conversion gives a default split for a pane or an empty split, and otherwise the fold of the children |
| TmuxLayout.FoldChildren | src/tmux/layout.rs:41-93 | popping the last child and then looping over the rest in reverse computes the fold |
| TmuxLayout.FoldChild | src/tmux/layout.rs:48-92 | one loop step extends the fold by the child before it |
| TmuxLayout.FoldStep | src/tmux/layout.rs:48-92 | adding child c makes the extent acc + extent(c) − 1 and sizes the accumulated half with round(acc·100 / new extent)% |
| TmuxLayout.FoldSpine | src/tmux/layout.rs:48-92 | i steps down the second halves of the converted tree is the fold of the children from i on |
| TmuxLayout.FoldChain | src/tmux/layout.rs:48-92 | the converted tree is a right-nested chain of n − 1 splits along the parent's axis: child i is the unsized first half at depth i, and the last child ends the chain |
| TmuxLayout.FoldPanes | src/tmux/layout.rs:48-93 | the panes of the converted chain, in iterator order, are the children's panes in order |
| TmuxLayout.ToSplitPanes | src/tmux/layout.rs:34-96 | a converted layout has one default pane per layout pane, and one for an empty split |
| TmuxLayout.FoldExtent | src/tmux/layout.rs:36-65 | the accumulated extent is the sum of the children's extents minus one per join |
| TmuxLayout.PercentAtMost100 | src/tmux/layout.rs:51-52 | with 1 ≤ acc ≤ extent the size text is `p%` with p ≤ 100 |
| TmuxLayout.FoldSized | src/tmux/layout.rs:48-92 | with positive extents every first half is unsized and every second half carries a percentage |
| TmuxLayout.ToSplitSized | src/tmux/layout.rs:34-96 | the same holds for the whole converted tree |
| TmuxLayoutSample.SampleParses | src/tmux/layout.rs:218-336 | the sample descriptor of the layout test parses to exactly the tree that the test asserts |
| TmuxCommand.FlowOf | src/tmux/command.rs:452-472 | a split is inverted exactly when its left width or top height is set; a pane is regular |
| TmuxCommand.SidesOf | src/tmux/command.rs:452-472 | a split's parent and child sides are its two subtrees |
| TmuxCommand.SizeGoesToChild | src/tmux/command.rs:452-472 | the child size is the first half's size when set and the second half's otherwise, and the sides are the two halves |
| TmuxCommand.RootPane | src/tmux/command.rs:480-492 | the root pane is one of the tree's leaves |
| TmuxCommand.RootPaneOfParent | src/tmux/command.rs:480-492 | the root pane of a split is the root pane of its parent side |
| TmuxCommand.RootPaneOfRegular | src/tmux/command.rs:480-492 | in a tree with no inverted split the root pane is the first leaf |
| TmuxCommand.Opposite | src/tmux/command.rs:502-511 | `inverted` keeps the axis and changes the direction |
| TmuxCommand.OppositeInvolution | src/tmux/command.rs:502-511 | `inverted` is an involution |
| TmuxCommand.FlowDirection | src/tmux/command.rs:441-450 | the direction lies on the split's axis and is Right/Down exactly for a regular flow |
| TmuxCommand.TargetTextNests | src/tmux/command.rs:536-603 | a window target is the session text, the window and `.`; a pane target appends the pane |
| TmuxCommand.PaneTargetRoundTrip | src/tmux/command.rs:576-603 | splitting pane-target text at the first `:` and the next `.` recovers its three parts, absent parts as empty |
| TmuxCommand.EmitAppend | src/tmux/command.rs:410-417 | emitting two runs of commands in turn is emitting their concatenation; only the very first needs no `;` |
| TmuxCommand.CommandsOfEmit | src/tmux/command.rs:410-417 | splitting the argument list at `;` gives back the commands, so the first command has no separator and each later one has one |
| TmuxCommand.FlagArg | src/tmux/command.rs:392-408 | a flag and its value are emitted only when the value is present |
| TmuxCommand.TargetArg | src/tmux/command.rs:345-350 | a target is emitted as `-t` and its text |
| TmuxCommand.ApplySplitNames | src/tmux/command.rs:213-262 | `apply_split` emits only `split-window`, `select-pane` and `send-keys` |
| TmuxCommand.ApplySplitSplits | src/tmux/command.rs:213-262 | `apply_split` emits one `split-window` per split node: panes − 1 |
| TmuxCommand.ApplySplitSelects | src/tmux/command.rs:213-262 | `apply_split` emits one `select-pane` per split node: panes − 1 |
| TmuxCommand.ApplySplitSendKeys | src/tmux/command.rs:213-262 | `apply_split` emits one `send-keys` per pane with keys |
| TmuxCommand.RootSplitCounts | src/tmux/command.rs:190-211 | `apply_root_split` splits once more than `apply_split` and kills exactly one pane |
| TmuxCommand.FirstSet | src/tmux/command.rs:162-188 | the index of the first active pane or window: absent exactly when none is active, otherwise active with no active one before it |
| TmuxCommand.SelectActivePaneCmds | src/tmux/command.rs:162-188 | `select_active_pane` emits at most one command, and none exactly when no pane is active |
| TmuxCommand.SelectActivePaneTarget | src/tmux/command.rs:162-188 | that command selects `session:.i`, where i is the first active pane in iterator order |
| TmuxCommand.RecordWindow | src/tmux/command.rs:118-129 | a new window raises the count by one, never replaces a recorded active window, and keeps the active index below the count |
| TmuxCommand.RecordWindows | src/tmux/command.rs:99-110 | a run of windows raises the count by their number |
| TmuxCommand.FirstSetSnoc | src/tmux/command.rs:118-129 | recording one more window keeps an earlier first active window, and otherwise makes the new window first active when it is active |
| TmuxCommand.RecordWindowsActive | src/tmux/command.rs:99-129 | after a run of windows the recorded active window is the earlier one, or else the first active window of the run, offset by the earlier count |
| TmuxCommand.Repeat | src/tmux/command.rs:323-326 | n copies of one command |
| TmuxCommand.SelectActiveWindowCmds | src/tmux/command.rs:317-330 | no active window emits nothing; with a session name one `select-window` to `name:i.`; otherwise count − i − 1 `select-window -p` steps |
| TmuxCommand.InitialWindowState | src/tmux/command.rs:148-160 | after the initial window the count is 1 and the state is valid |
| TmuxCommand.NewSessionState | src/tmux/command.rs:83-97 | `new_session` leaves a valid state, or the state unchanged for a session without windows |
| TmuxCommand.NewSessionShape | src/tmux/command.rs:83-97 | a session opens with `new-session -s name [-c cwd] -d`, then the first window created with `-b` before window 0, then `kill-window` on window 1 |
| TmuxCommand.NewSessionCount | src/tmux/command.rs:83-97 | a session emits one `new-session`, or none when it has no windows |
| TmuxCommand.SessionsCount | src/tmux/command.rs:77-81 | `new_sessions` emits one `new-session` per session with windows |
| TmuxCommand.SessionsState | src/tmux/command.rs:77-81 | building every session in turn leaves a valid window and pane state valid |
| TmuxCommand.SessionTailNames | src/tmux/command.rs:99-160 | after `new-session` a session emits only window, pane and key commands |
| TmuxCommand.SelectSessionCmds | src/tmux/command.rs:63-75 | Detached emits nothing; Switch emits `switch-client -t name:`; Attach emits `attach-session -t name:` |
| TmuxBuilder.FirstOfCollected | src/tmux/command.rs:162-188 | the first of the ascending active indices is the first active pane |
| TmuxBuilder.ActivePanes | src/tmux/command.rs:163-168 | collecting the active panes' indices gives exactly those indices, ascending |
| TmuxBuilder.TmuxCommandBuilder.constructor | src/tmux/command.rs:32-46 | the builder starts with the program and its arguments, no command, no session, no windows |
| TmuxBuilder.TmuxCommandBuilder.IntoCommand | src/tmux/command.rs:48-50 | the command is the program and the accumulated arguments |
| TmuxBuilder.TmuxCommandBuilder.SessionTarget | src/tmux/command.rs:332-337 | the session target names the current session |
| TmuxBuilder.TmuxCommandBuilder.Push | src/tmux/command.rs:419-422 | appends one argument and changes nothing else |
| TmuxBuilder.TmuxCommandBuilder.PushArg | src/tmux/command.rs:403-408 | appends the value only when present |
| TmuxBuilder.TmuxCommandBuilder.PushFlagArg | src/tmux/command.rs:392-401 | appends flag and value only when the value is present |
| TmuxBuilder.TmuxCommandBuilder.PushNewCommand | src/tmux/command.rs:410-417 | appends `;` unless this is the first command, then the name, and marks a command as pushed |
| TmuxBuilder.TmuxCommandBuilder.PushCwdArg | src/tmux/command.rs:341-343 | appends `-c path` only for a present path |
| TmuxBuilder.TmuxCommandBuilder.PushTargetArg | src/tmux/command.rs:345-350 | appends `-t` and the target text |
| TmuxBuilder.TmuxCommandBuilder.PushAxisArg | src/tmux/command.rs:352-357 | appends `-h` or `-v` |
| TmuxBuilder.TmuxCommandBuilder.PushDirectionArg | src/tmux/command.rs:359-366 | appends `-L`, `-R`, `-U` or `-D` |
| TmuxBuilder.TmuxCommandBuilder.PushNextPrevArg | src/tmux/command.rs:368-375 | appends `-p` for Left/Up and `-n` for Right/Down |
| TmuxBuilder.TmuxCommandBuilder.PushFlowArg | src/tmux/command.rs:377-382 | appends `-b` exactly for an inverted flow |
| TmuxBuilder.TmuxCommandBuilder.PushQueryScopeArg | src/tmux/command.rs:384-390 | appends `-a`, `-s` or nothing for the scope |
| TmuxBuilder.TmuxCommandBuilder.SplitPane | src/tmux/command.rs:270-286 | appends one `split-window` command with target, axis, flow, cwd, size and shell command |
| TmuxBuilder.TmuxCommandBuilder.SelectPaneAt | src/tmux/command.rs:288-293 | appends one `select-pane` in the given direction |
| TmuxBuilder.TmuxCommandBuilder.SelectWindowAt | src/tmux/command.rs:295-300 | appends one `select-window` step to the previous or next window |
| TmuxBuilder.TmuxCommandBuilder.TargetCommand | src/tmux/command.rs:302-315 | appends one command with a target |
| TmuxBuilder.TmuxCommandBuilder.SendKeys | src/tmux/command.rs:264-268 | appends one `send-keys` with the session target and the keys in order |
| TmuxBuilder.TmuxCommandBuilder.QueryPanes | src/tmux/command.rs:52-56 | appends one `list-panes` with the format and scope |
| TmuxBuilder.TmuxCommandBuilder.QueryClients | src/tmux/command.rs:58-61 | appends one `list-clients` |
| TmuxBuilder.TmuxCommandBuilder.SelectSession | src/tmux/command.rs:63-75 | appends the commands of the selection mode |
| TmuxBuilder.TmuxCommandBuilder.ApplySplit | src/tmux/command.rs:213-262 | appends exactly the split tree's command list and keeps the window state |
| TmuxBuilder.TmuxCommandBuilder.ApplyRootSplit | src/tmux/command.rs:190-211 | appends the initial split, the tree's commands and `kill-pane` on pane 0 |
| TmuxBuilder.TmuxCommandBuilder.SelectActivePane | src/tmux/command.rs:162-188 | appends the active-pane selection of the window |
| TmuxBuilder.TmuxCommandBuilder.SelectActiveWindow | src/tmux/command.rs:317-330 | appends the active-window selection of the current state |
| TmuxBuilder.TmuxCommandBuilder.NewWindowCommand | src/tmux/command.rs:131-141 | appends one `new-window` with name, joined cwd and position |
| TmuxBuilder.TmuxCommandBuilder.NewWindow | src/tmux/command.rs:112-146 | appends the window's commands, records it in the window state and keeps the builder valid |
| TmuxBuilder.TmuxCommandBuilder.CountWindow | src/tmux/command.rs:118-129 | records one window: the count rises, and the first active window is kept |
| TmuxBuilder.TmuxCommandBuilder.CreateInitialWindow | src/tmux/command.rs:148-160 | appends the first window before window 0 and the `kill-window` of window 1, and restarts the count at 1 |
| TmuxBuilder.TmuxCommandBuilder.NewWindows | src/tmux/command.rs:99-110 | appends every window's commands in order, then the active-window selection |
| TmuxBuilder.TmuxCommandBuilder.MakeWindows | src/tmux/command.rs:99-110 | the loop over windows appends their commands in order and records each |
| TmuxBuilder.TmuxCommandBuilder.NewSession | src/tmux/command.rs:83-97 | appends the session's commands, or nothing when it has no windows, and keeps the builder valid |
| TmuxBuilder.TmuxCommandBuilder.NewSessions | src/tmux/command.rs:77-81 | appends every session's commands in order and keeps the builder valid |
| TmuxImport.IdP | src/tmux/import.rs:280-290 | an id parser yields a u32 |
| TmuxImport.ParseId | src/tmux/import.rs:280-290 | an id word parses exactly when it is the prefix character followed by digits of a u32 value, and yields that value |
| TmuxImport.ParseIdOfFormat | src/tmux/import.rs:280-290 | `$n`, `@n` and `%n` parse back to n |
| TmuxImport.ParseFlag | src/tmux/import.rs:246-250 | a flag parses exactly when the word is a u8, and is true exactly when it is not 0 |
| TmuxImport.FlagRoundTrip | src/tmux/import.rs:246-250 | `1` and `0` read back as true and false |
| TmuxImport.ParseLine | src/tmux/import.rs:232-267 | fewer than eleven words fail; otherwise every field comes from its own word through its own decoder, and a missing twelfth word gives an empty pane cwd |
| TmuxImport.FormatLine | src/tmux/import.rs:227-230 | the twelve words of the import format |
| TmuxImport.ParseLineOfFormat | src/tmux/import.rs:227-267 | a record written in the import format parses back to itself |
| TmuxImport.ParseLineWithoutPanePath | src/tmux/import.rs:251 | without the trailing pane path the record parses with an empty pane cwd |
| TmuxImport.ParseLineOkIff | src/tmux/import.rs:232-267 | a line parses exactly when it has eleven words and every decoded field decodes |
| TmuxImport.ParseInfos | src/tmux/import.rs:223-225 | all lines parse, one record per line in order, or the error is that of the first line that fails |
| TmuxImport.ParseTmuxState | src/tmux/import.rs:166-205 | the loop inserting records into the nested maps computes the grouping of the parsed records, or returns the parse error |
| TmuxImport.GroupSessionKeys | src/tmux/import.rs:171-179 | a session id is present exactly when some record carries it |
| TmuxImport.GroupWindowKeys | src/tmux/import.rs:181-191 | a window id is present under a session exactly when some record carries both |
| TmuxImport.GroupPaneKeys | src/tmux/import.rs:193-201 | a pane id is present under a window exactly when some record carries all three |
| TmuxImport.GroupFirstSession | src/tmux/import.rs:171-179 | a session's name and cwd come from the first record with its id |
| TmuxImport.GroupFirstWindow | src/tmux/import.rs:181-191 | a window's index, name, layout and active flag come from the first record with its ids |
| TmuxImport.GroupLastPane | src/tmux/import.rs:193-201 | a pane is the last record with its ids: later records overwrite earlier ones |
| TmuxImport.GroupCoherent | src/tmux/import.rs:166-205 | every session, window and pane sits under its own id |
| TmuxImport.Values | src/tmux/import.rs:90 | `into_values` lists every value of the map once, in some order |
| TmuxImport.InsertBySorted | src/tmux/import.rs:91 | inserting into a sorted list keeps it sorted and adds one element |
| TmuxImport.SortBySorted | src/tmux/import.rs:91 | `sort_by_key` gives a list sorted by the key, of the same length |
| TmuxImport.SortByPermutes | src/tmux/import.rs:91 | `sort_by_key` gives a permutation of its input |
| TmuxImport.SortByStable | src/tmux/import.rs:91 | `sort_by_key` is stable: the elements with each key keep their order |
| TmuxImport.SortedValuesUnique | src/tmux/import.rs:40-46 | for a key that is unique in a map, sorting its values gives the same list whatever the iteration order |
| TmuxImport.SessionOrderUnique | src/tmux/import.rs:40-46 | sessions come out sorted by id, in one order whatever the map's iteration order |
| TmuxImport.PaneCwdResolves | src/tmux/import.rs:99-102 | for absolute paths, joining the session cwd with the imported pane cwd gives back the pane's path |
| TmuxImport.PaneCwdCases | src/tmux/import.rs:99-102 | without a session cwd, or when it is no prefix, the pane cwd is the full path; a pane in the session cwd itself gets the empty cwd |
| TmuxImport.PaneUpdates | src/tmux/import.rs:90-103 | each sorted pane contributes its active flag and its stripped cwd, in order |
| TmuxImport.ConfigWindowPanes | src/tmux/import.rs:86-112 | the window is named, has an empty cwd and the tmux active flag; the tree has the layout's shape; the first min(n, panes) leaves take the sorted panes' flags and cwds, and the rest stay default |
| TmuxImport.IntoConfigWindow | src/tmux/import.rs:86-112 | converting a window sorts its panes by index and zips them onto the converted layout |
| TmuxImport.SessionToConfig | src/tmux/import.rs:56-74 | a session keeps its name, takes its cwd from the path string, and converts its windows sorted by index |
| TmuxImport.ConvertWindows | src/tmux/import.rs:63-66 | the loop converts each window in order |
| TmuxImport.StateToConfig | src/tmux/import.rs:40-46 | the state converts to its sessions sorted by id, each converted |
| TmuxImport.ConvertSessions | src/tmux/import.rs:40-46 | the loop converts each session in order |

`width()`/`height()` and `geom()` on a layout (src/tmux/layout.rs:17-31, 105-113) return
the node's own geometry. Every variant of `TmuxLayout.Layout` has a common `geom` field,
so `TmuxLayout.Geom`, `Width` and `Height` do this by construction.

## Left out

- `query_tmux_state` (src/tmux/import.rs:14-34) runs tmux and decodes its output as UTF-8.
  Process execution is not modelled. The import starts from the text already split into lines.
- Each line is split into words with `shellwords::split`, which is a foreign library and is
  not modelled: `TmuxImport.ParseLine` takes the word list it returns. The
  mismatched-quotes error and the line splitting of `parse_pane_infos` are left out with it.
- Error values are an enum of causes (`MissingWord`, `InvalidId`, `InvalidInteger`,
  `InvalidLayout`). The messages and the nom error text are not modelled.
- serde/YAML/TOML (de)serialization and the `shellexpand` call in `Cwd`'s `Deserialize`
  (src/cwd.rs:92-117) are foreign libraries. Only the field-level conversions
  (`SplitMap`, `is_default_size`) are modelled.
- `Paths.Join` and `Paths.StripPrefix` use a simple path model. Absolute means a leading `/`,
  join inserts one `/`, and prefix stripping compares normal components. `.`/`..`, repeated
  separators inside names and platform prefixes of Rust's `Path` are not modelled.
- `TmuxLayout.FoldStep`: the percentage is computed with f32 in the source. The model
  rounds half up over exact integers, so f32 bit-exactness is not claimed. When an extent is
  not positive the text is a placeholder (`NaN%`) rather than Rust's `inf`/`NaN`
  formatting. The size lemmas assume extents of at least 1.
- `TmuxLayout.Checksum`: the layout checksum is skipped and never checked, as in the code.
  The code has no layout serializer. The renderer used by the parse-back lemmas exists only as
  a ghost reference definition.
- The accumulated extent subtracts the one-cell `LINE_WIDTH` for each join
  (src/tmux/layout.rs:36, 51-52, 78-79). This follows the code as written.
- `TmuxBuilder.TmuxCommandBuilder.CountWindow`: `window_count` is a `u32` in the source.
  The model counts with an unbounded `nat`, so the overflow past 2^32 − 1 windows is not
  modelled.
- `show_warning` on several active windows or panes (src/tmux/command.rs:121-127, 170-177)
  writes to stderr. It is modelled as a no-op. Only the choice of the first active one is kept.
- `std::process::Command` is the program name plus a `seq<string>` of arguments.
  `OsStr`/`Path` arguments are strings.
- `send_keys` targets the session (`name:`) rather than the pane, as the source writes it
  (src/tmux/command.rs:264-268).
- The iteration order of `HashMap::into_values` is unspecified. `TmuxImport.Values`
  chooses any order, and the proofs show that the sorts that follow make the result
  independent of that choice, where ids and indices are unique.
- `TmuxImport.SortBySorted`: `sort_by_key` is modelled as a stable insertion sort, which
  computes the same result as Rust's stable sort.
- `PanesMut` (src/config/model.rs:179-209) changes panes in place through mutable references.
  `ConfigModel.ZipLeaves` models it on values: it rebuilds the tree with the updated leaves,
  so aliasing of the mutable references is not modelled.
- Ids and indices are `nat`. Their u32 range comes from the parsers (`Text.NomU32`,
  `Text.ParseUnsigned`).
- The rest of the repository is not part of this model:
  - src/main.rs (process spawning, stdin, TTY detection, printing);
  - src/cli.rs (argument definitions);
  - src/config/loader.rs (file reading and include loading);
  - src/config/includes.rs, which appears only as the "no includes left" test in
    `ConfigModel.IntoConfig`;
  - src/lib.rs (coloured output);
  - the benchmarks.
