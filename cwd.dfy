/** `Cwd`: an optional working-directory path, with the Rust `Path`
    operations it relies on (components, `is_absolute`, `join`, `strip_prefix`)
    in a simple string model: `/` separates components and a leading `/` is the root. */
module Paths {
  import opened Wrappers
  import opened Seqs

  type Path = string

  /** One path component: the root `/` or a non-empty name between separators. */
  predicate IsAbsolute(p: Path) { |p| > 0 && p[0] == '/' }

  /** The names of `p` between separators, empty ones (from `//` or a trailing `/`) dropped. */
  function Names(p: Path): (ns: seq<string>)
    ensures forall i :: 0 <= i < |ns| ==> |ns[i]| > 0 && '/' !in ns[i]
    decreases |p|
  {
    if p == [] then []
    else if p[0] == '/' then Names(p[1..])
    else
      var n := NameLength(p);
      [p[..n]] + Names(p[n..])
  }

  /** The length of the leading name of `p`, up to the first `/`. */
  function NameLength(p: Path): (n: nat)
    requires |p| > 0 && p[0] != '/'
    ensures 0 < n <= |p| && '/' !in p[..n]
    ensures n < |p| ==> p[n] == '/'
  {
    if |p| == 1 || p[1] == '/' then 1
    else
      var k := NameLength(p[1..]);
      assert p[..k + 1] == [p[0]] + p[1..][..k];
      1 + k
  }

  /** `Path::components`: the root first for an absolute path, then the names. */
  function Components(p: Path): seq<string>
  {
    (if IsAbsolute(p) then ["/"] else []) + Names(p)
  }

  lemma NamesEmpty(p: Path)
    requires Names(p) == [] && p != []
    ensures IsAbsolute(p)
  {
  }

  /** Only the empty path has no components. */
  lemma ComponentsEmptyIff(p: Path)
    ensures Components(p) == [] <==> p == []
  {
    if p != [] && Components(p) == [] {
      NamesEmpty(p);
    }
  }

  /** `PathBuf::push` / `Path::join`: an absolute `other` replaces the prefix; otherwise
      one `/` is inserted unless the prefix is empty or already ends with one. */
  function Join(prefix: Path, other: Path): (r: Path)
    ensures IsAbsolute(other) ==> r == other
    ensures !IsAbsolute(other) ==> exists sep :: r == prefix + sep + other && (sep == [] || sep == "/")
  {
    if IsAbsolute(other) then other
    else if prefix == [] || prefix[|prefix| - 1] == '/' then
      assert prefix + [] + other == prefix + other;
      prefix + other
    else prefix + "/" + other
  }

  /** `Path::strip_prefix`: the rest of `p` after the whole components of `root`. */
  function StripPrefix(p: Path, root: Path): (r: Option<Path>)
    ensures r.Some? <==> Components(root) <= Components(p)
  {
    var cp, cr := Components(p), Components(root);
    if cr <= cp then Some(JoinNames(cp[|cr|..])) else None
  }

  /** Components put back together with `/`, as a relative path. */
  function JoinNames(ns: seq<string>): Path
  {
    if ns == [] then []
    else if |ns| == 1 then (if ns[0] == "/" then [] else ns[0])
    else (if ns[0] == "/" then [] else ns[0]) + "/" + JoinNames(ns[1..])
  }

  datatype Cwd = Cwd(path: Option<Path>)

  /** `Cwd::default()`: no path. */
  const Default: Cwd := Cwd(None)

  /** `Cwd::joined`: `other` relative to `self`. */
  function Joined(self: Cwd, other: Cwd): (r: Cwd)
    ensures other.path.None? ==> r == self
    ensures other.path.Some? && IsAbsolute(other.path.value) ==> r == other
    ensures other.path.Some? && !IsAbsolute(other.path.value) && self.path.None? ==> r == other
    ensures other.path.Some? && !IsAbsolute(other.path.value) && self.path.Some? ==>
              r == FromPathBuf(Join(self.path.value, other.path.value))
  {
    match other.path
    case None => self
    case Some(p) =>
      if IsAbsolute(p) then other
      else match self.path
        case None => other
        case Some(prefix) => FromPathBuf(Join(prefix, p))
  }

  /** An absent `Cwd` is a two-sided unit of `Joined`. */
  lemma JoinedUnit(c: Cwd)
    ensures Joined(Default, c) == c && Joined(c, Default) == c
  {
  }

  /** A present relative `other` survives the join as the tail of the result. */
  lemma JoinedEndsWithOther(self: Cwd, other: Cwd)
    requires other.path.Some? && other.path.value != []
    ensures Joined(self, other).path.Some?
    ensures other.path.value <= Joined(self, other).path.value[|Joined(self, other).path.value| - |other.path.value|..]
  {
    var p := other.path.value;
    if !IsAbsolute(p) && self.path.Some? {
      var j := Join(self.path.value, p);
      var sep :| j == self.path.value + sep + p && (sep == [] || sep == "/");
      assert j[|j| - |p|..] == p;
      ComponentsEmptyIff(j);
    }
  }

  /** Absolute paths stay absolute under `Joined`, from either side. */
  lemma JoinedKeepsAbsolute(self: Cwd, other: Cwd)
    requires self.path.Some? && IsAbsolute(self.path.value)
    ensures Joined(self, other).path.Some? && IsAbsolute(Joined(self, other).path.value)
  {
    if other.path.Some? && !IsAbsolute(other.path.value) {
      var j := Join(self.path.value, other.path.value);
      var sep :| j == self.path.value + sep + other.path.value && (sep == [] || sep == "/");
      assert j[0] == self.path.value[0];
    }
  }

  /** `Cwd::to_path`. */
  function ToPath(c: Cwd): Option<Path> { c.path }

  /** `Cwd::is_empty`: no path, or a path with no components. */
  function IsEmpty(c: Cwd): (b: bool)
    ensures b <==> c.path.None? || c.path.value == []
  {
    ComponentsEmptyIff(if c.path.Some? then c.path.value else []);
    match c.path
    case None => true
    case Some(p) => Components(p) == []
  }

  /** `From<String>`: the empty string gives the absent `Cwd`. */
  function FromString(s: string): (c: Cwd)
    ensures c.path.None? <==> s == []
    ensures s != [] ==> c.path == Some(s)
  {
    if s == [] then Default else Cwd(Some(s))
  }

  /** `From<PathBuf>`: a path without components gives the absent `Cwd`. */
  function FromPathBuf(p: Path): (c: Cwd)
    ensures c == FromString(p)
  {
    ComponentsEmptyIff(p);
    if Components(p) == [] then Default else Cwd(Some(p))
  }

  /** `From<Option<String>>`. */
  function FromOptString(os: Option<string>): (c: Cwd)
    ensures c.path.None? <==> (os.None? || os.value == [])
    ensures c.path.Some? ==> c.path == os
  {
    match os
    case None => Default
    case Some(s) => FromString(s)
  }

  /** `From<&str>`: always a path, even the empty one. */
  function FromStr(s: string): (c: Cwd)
    ensures c.path == Some(s)
  {
    Cwd(Some(s))
  }

  /** `PartialEq<&str>`: a present path with the same components as `s`. */
  predicate EqStr(c: Cwd, s: string)
  {
    c.path.Some? && Components(c.path.value) == Components(s)
  }

  /** The absent `Cwd` equals no string, the empty path only the empty string. */
  lemma EqStrCases(c: Cwd, s: string)
    ensures c.path.None? ==> !EqStr(c, s)
    ensures c.path == Some([]) ==> (EqStr(c, s) <==> s == [])
    ensures c.path == Some(s) ==> EqStr(c, s)
  {
    ComponentsEmptyIff(s);
  }

  /** Every `Cwd` built from a string compares equal to that string, unless it is empty. */
  lemma FromStringEqStr(s: string)
    ensures EqStr(FromString(s), s) <==> s != []
  {
  }

  /** Each element is a name: non-empty and without a separator. */
  predicate AllNames(ns: seq<string>)
  {
    forall i :: 0 <= i < |ns| ==> |ns[i]| > 0 && '/' !in ns[i]
  }

  lemma {:induction false} NameLengthWhole(n: Path)
    requires |n| > 0 && '/' !in n
    ensures NameLength(n) == |n|
    decreases |n|
  {
    if |n| > 1 {
      assert n[1] in n;
      NameLengthWhole(n[1..]);
    }
  }

  /** A name is read up to the separator that follows it. */
  lemma {:induction false} NameLengthConcat(a: Path, t: Path)
    requires |a| > 0 && a[0] != '/' && |t| > 0 && t[0] == '/'
    ensures NameLength(a + t) == NameLength(a)
    decreases |a|
  {
    if |a| > 1 && a[1] != '/' {
      assert (a + t)[1..] == a[1..] + t;
      NameLengthConcat(a[1..], t);
    }
  }

  /** The names of two paths joined by a separator are the names of each, in order. */
  lemma {:induction false} NamesConcat(a: Path, b: Path)
    ensures Names(a + "/" + b) == Names(a) + Names(b)
    decreases |a|
  {
    if a == [] {
      assert (a + "/" + b)[1..] == b;
    } else if a[0] == '/' {
      NamesConcat(a[1..], b);
      NamesConcatSlash(a, b);
    } else {
      NamesConcat(a[NameLength(a)..], b);
      NamesConcatName(a, b);
    }
  }

  /** `NamesConcat` when `a` starts with a separator. */
  lemma NamesConcatSlash(a: Path, b: Path)
    requires a != [] && a[0] == '/'
    requires Names(a[1..] + "/" + b) == Names(a[1..]) + Names(b)
    ensures Names(a + "/" + b) == Names(a) + Names(b)
  {
    assert (a + "/" + b)[1..] == a[1..] + "/" + b;
  }

  /** `NamesConcat` when `a` starts with a name. */
  lemma NamesConcatName(a: Path, b: Path)
    requires a != [] && a[0] != '/'
    requires Names(a[NameLength(a)..] + "/" + b) == Names(a[NameLength(a)..]) + Names(b)
    ensures Names(a + "/" + b) == Names(a) + Names(b)
  {
    var n := NameLength(a);
    NamesBeforeSeparator(a, "/" + b);
    NamesUnfold(a);
    Assoc(a, "/", b);
    Assoc(a[n..], "/", b);
    Assoc([a[..n]], Names(a[n..]), Names(b));
  }

  /** A leading name followed by a separator is the first name. */
  lemma NamesBeforeSeparator(a: Path, t: Path)
    requires a != [] && a[0] != '/' && t != [] && t[0] == '/'
    ensures Names(a + t) == [a[..NameLength(a)]] + Names(a[NameLength(a)..] + t)
  {
    var n := NameLength(a);
    NameLengthConcat(a, t);
    SliceOfConcat(a, t, n);
    NamesUnfold(a + t);
  }

  lemma NamesUnfold(p: Path)
    requires p != [] && p[0] != '/'
    ensures Names(p) == [p[..NameLength(p)]] + Names(p[NameLength(p)..])
  {
  }

  /** Names put together with separators read back as the same names. */
  lemma {:induction false} NamesOfJoinNames(ns: seq<string>)
    requires AllNames(ns)
    ensures Names(JoinNames(ns)) == ns
    ensures !IsAbsolute(JoinNames(ns))
    ensures JoinNames(ns) == [] <==> ns == []
    decreases |ns|
  {
    if ns != [] {
      var n := ns[0];
      assert n != "/" by {
        assert "/"[0] == '/';
      }
      NameLengthWhole(n);
      assert n[..|n|] == n && n[|n|..] == [];
      assert Names(n) == [n];
      if |ns| > 1 {
        NamesOfJoinNames(ns[1..]);
        NamesConcat(n, JoinNames(ns[1..]));
        assert ns == [n] + ns[1..];
      }
    }
  }

  /** A path under an absolute root is the root's components followed by the rest. */
  lemma StripPrefixParts(p: Path, root: Path)
    requires IsAbsolute(root) && StripPrefix(p, root).Some?
    ensures IsAbsolute(p) && Names(root) <= Names(p)
    ensures AllNames(Names(p)[|Names(root)|..])
    ensures StripPrefix(p, root).value == JoinNames(Names(p)[|Names(root)|..])
  {
    var cr := Components(root);
    assert cr[0] == "/";
    assert Components(p)[0] == "/";
    assert '/' in "/" by {
      assert "/"[0] == '/';
    }
    assert !IsAbsolute(p) ==> Components(p) == Names(p);
    var cp := Components(p);
    assert forall i :: 0 <= i < |Names(root)| ==> Names(root)[i] == cr[i + 1] == cp[i + 1] == Names(p)[i];
    assert cp[|cr|..] == Names(p)[|Names(root)|..];
  }

  /** Joining what `strip_prefix` leaves back onto an absolute root gives a path with the
      original components. */
  lemma StripPrefixRejoins(p: Path, root: Path)
    requires IsAbsolute(root) && StripPrefix(p, root).Some?
    ensures Components(Join(root, StripPrefix(p, root).value)) == Components(p)
  {
    StripPrefixParts(p, root);
    var rest := Names(p)[|Names(root)|..];
    var rel := JoinNames(rest);
    NamesOfJoinNames(rest);
    var j := Join(root, rel);
    if root[|root| - 1] == '/' {
      var r' := root[..|root| - 1];
      assert root == r' + "/" + [];
      NamesConcat(r', []);
      assert j == r' + "/" + rel;
      NamesConcat(r', rel);
    } else {
      assert j == root + "/" + rel;
      NamesConcat(root, rel);
    }
    assert j[0] == '/';
    assert Names(p) == Names(root) + rest;
  }
}
