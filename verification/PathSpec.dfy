/**
 kernel/fs/path.c as text transformations, and what they mean: a path is a
 stack of components. The normaliser works on text in a 256-byte buffer;
 `NormalizeRefinesStack` shows that it computes the stack fold.
 */
module PathSpec {
  import opened Basics

  const VFS_MAX_PATH := 256

  // ---------------------------------------------------------------- components

  /** End of the component that starts at `i`. */
  function CompEnd(p: string, i: nat): (e: nat)
    requires i <= |p|
    ensures i <= e <= |p|
    ensures e == |p| || p[e] == '/'
    ensures forall k :: i <= k < e ==> p[k] != '/'
    decreases |p| - i
  {
    if i == |p| || p[i] == '/' then i else CompEnd(p, i + 1)
  }

  /** The non-empty components of `p` from position `i` on. */
  function Comps(p: string, i: nat): seq<string>
    requires i <= |p|
    decreases |p| - i
  {
    if i == |p| then []
    else if p[i] == '/' then Comps(p, i + 1)
    else [p[i..CompEnd(p, i)]] + Comps(p, CompEnd(p, i))
  }

  predicate NoSlash(c: string) {
    forall k :: 0 <= k < |c| ==> c[k] != '/'
  }

  predicate Component(c: string) {
    c != "" && NoSlash(c)
  }

  /** A component that names a directory entry. */
  predicate Regular(c: string) {
    Component(c) && c != "." && c != ".."
  }

  predicate AllRegular(stack: seq<string>) {
    forall k :: 0 <= k < |stack| ==> Regular(stack[k])
  }

  function Chain(stack: seq<string>): string {
    if stack == [] then "" else Chain(stack[..|stack| - 1]) + "/" + stack[|stack| - 1]
  }

  /** The canonical text of a stack of components. */
  function Render(stack: seq<string>): string {
    if stack == [] then "/" else Chain(stack)
  }

  predicate Canonical(p: string) {
    AllRegular(Comps(p, 0)) && p == Render(Comps(p, 0))
  }

  // ---------------------------------------------------------------- text level

  predicate EndsInSlash(w: string) {
    w != "" && w[|w| - 1] == '/'
  }

  function DropLast(w: string): string
    requires w != ""
  {
    w[..|w| - 1]
  }

  /** Drop characters until a slash, or a single character, is left at the end. */
  function StripComponent(w: string): string {
    if |w| > 1 && w[|w| - 1] != '/' then StripComponent(DropLast(w)) else w
  }

  function StripSlashes(w: string): string {
    if |w| > 1 && w[|w| - 1] == '/' then StripSlashes(DropLast(w)) else w
  }

  function PopText(w: string): string {
    if |w| > 1 then StripComponent(if EndsInSlash(w) then DropLast(w) else w) else w
  }

  function PushText(w: string, c: string): Option<string> {
    if w != "" && !EndsInSlash(w) && |w| >= VFS_MAX_PATH - 1 then None
    else
      var w' := if w != "" && !EndsInSlash(w) then w + "/" else w;
      if |w'| + |c| >= VFS_MAX_PATH then None else Some(w' + c)
  }

  function TextStep(w: string, c: string): Option<string> {
    if c == "." then Some(w)
    else if c == ".." then Some(PopText(w))
    else PushText(w, c)
  }

  function TextFold(w: string, cs: seq<string>): Option<string>
    decreases |cs|
  {
    if cs == [] then Some(w)
    else match TextStep(w, cs[0])
      case None => None
      case Some(w') => TextFold(w', cs[1..])
  }

  /** The text the normaliser starts from. */
  function Start(path: string, cwd: Option<string>): Option<string> {
    if path != "" && path[0] == '/' then Some("/")
    else if cwd.None? || cwd.value == "" || cwd.value[0] != '/' then Some("/")
    else if |cwd.value| >= VFS_MAX_PATH then None
    else if EndsInSlash(cwd.value) then Some(cwd.value)
    else if |cwd.value| >= VFS_MAX_PATH - 1 then None
    else Some(cwd.value + "/")
  }

  function Finish(w: string, size: nat): Option<string> {
    var r := StripSlashes(if w == "" then "/" else w);
    if |r| >= size then None else Some(r)
  }

  /** path_normalize on text, for every path, working directory and buffer size. */
  function Normalize(path: string, cwd: Option<string>, size: nat): Option<string> {
    match Start(path, cwd)
    case None => None
    case Some(w) =>
      match TextFold(w, Comps(path, 0))
      case None => None
      case Some(w') => Finish(w', size)
  }

  // ---------------------------------------------------------------- stack level

  function StackStep(stack: seq<string>, c: string): seq<string> {
    if c == "." then stack
    else if c == ".." then (if stack == [] then [] else stack[..|stack| - 1])
    else stack + [c]
  }

  /** The component stack after `cs`, unless the text would outgrow the work buffer on the way. */
  function StackFold(stack: seq<string>, cs: seq<string>): Option<seq<string>>
    decreases |cs|
  {
    if cs == [] then Some(stack)
    else
      var s' := StackStep(stack, cs[0]);
      if cs[0] != "." && cs[0] != ".." && |Render(s')| >= VFS_MAX_PATH then None
      else StackFold(s', cs[1..])
  }

  // ---------------------------------------------------------------- text represents stack

  /** `w` is the text of `stack`, with or without a trailing slash. */
  ghost predicate Represents(w: string, stack: seq<string>) {
    w == Render(stack) || (stack != [] && w == Render(stack) + "/")
  }

  lemma {:induction false} ChainShape(stack: seq<string>)
    requires AllRegular(stack) && stack != []
    ensures |Chain(stack)| >= 2 && Chain(stack)[0] == '/' && !EndsInSlash(Chain(stack))
  {
    if |stack| > 1 { ChainShape(stack[..|stack| - 1]); }
  }

  lemma {:induction false} StripComponentStops(pre: string, c: string)
    requires NoSlash(c)
    ensures StripComponent(pre + "/" + c) == pre + "/"
    decreases |c|
  {
    var w := pre + "/" + c;
    if c != "" {
      assert DropLast(w) == pre + "/" + DropLast(c);
      StripComponentStops(pre, DropLast(c));
    } else {
      assert w == pre + "/";
    }
  }

  lemma PopRepresents(w: string, stack: seq<string>)
    requires AllRegular(stack) && Represents(w, stack)
    ensures Represents(PopText(w), StackStep(stack, ".."))
  {
    if stack != [] {
      ChainShape(stack);
      var init, c := stack[..|stack| - 1], stack[|stack| - 1];
      var body := if EndsInSlash(w) then DropLast(w) else w;
      assert body == Chain(init) + "/" + c;
      StripComponentStops(Chain(init), c);
      if init == [] { assert Chain(init) + "/" == "/"; }
    }
  }

  lemma PushRepresents(w: string, stack: seq<string>, c: string)
    requires AllRegular(stack) && Represents(w, stack) && Regular(c)
    ensures PushText(w, c) == if |Render(stack + [c])| >= VFS_MAX_PATH then None else Some(Render(stack + [c]))
  {
    assert (stack + [c])[..|stack|] == stack;
    assert Render(stack + [c]) == Chain(stack) + "/" + c;
    if stack == [] {
      assert Chain(stack) + "/" + c == "/" + c;
    } else {
      ChainShape(stack);
    }
  }

  lemma {:induction false} FoldRepresents(w: string, stack: seq<string>, cs: seq<string>)
    requires AllRegular(stack) && Represents(w, stack)
    requires forall k :: 0 <= k < |cs| ==> Component(cs[k])
    ensures TextFold(w, cs).None? <==> StackFold(stack, cs).None?
    ensures StackFold(stack, cs).Some? ==>
              AllRegular(StackFold(stack, cs).value) && Represents(TextFold(w, cs).value, StackFold(stack, cs).value)
    decreases |cs|
  {
    if cs != [] {
      var c, s' := cs[0], StackStep(stack, cs[0]);
      if c == ".." {
        PopRepresents(w, stack);
      } else if c != "." {
        PushRepresents(w, stack, c);
      }
      if TextStep(w, c).Some? { FoldRepresents(TextStep(w, c).value, s', cs[1..]); }
    }
  }

  lemma {:induction false} CompsAreComponents(p: string, i: nat)
    requires i <= |p|
    ensures forall k :: 0 <= k < |Comps(p, i)| ==> Component(Comps(p, i)[k])
    decreases |p| - i
  {
    if i < |p| {
      if p[i] == '/' { CompsAreComponents(p, i + 1); } else { CompsAreComponents(p, CompEnd(p, i)); }
    }
  }

  lemma FinishRepresents(w: string, stack: seq<string>, size: nat)
    requires AllRegular(stack) && Represents(w, stack)
    ensures Finish(w, size) == if |Render(stack)| >= size then None else Some(Render(stack))
  {
    if stack != [] {
      ChainShape(stack);
      var r := Render(stack);
      assert StripSlashes(r) == r;
      if w == r + "/" {
        assert DropLast(w) == r;
        assert StripSlashes(w) == StripSlashes(r);
      }
    }
  }

  // ---------------------------------------------------------------- splitting, and the round trip of rendering

  lemma {:induction false} CompEndPrefix(p: string, q: string, i: nat)
    requires i <= |p| && |q| > 0 && q[0] == '/'
    ensures CompEnd(p + q, i) == CompEnd(p, i)
    decreases |p| - i
  {
    if i < |p| && p[i] != '/' { CompEndPrefix(p, q, i + 1); }
  }

  lemma {:induction false} CompEndAll(p: string, i: nat)
    requires i <= |p| && forall k :: i <= k < |p| ==> p[k] != '/'
    ensures CompEnd(p, i) == |p|
    decreases |p| - i
  {
  }

  lemma {:induction false} CompEndFrom(r: string, k: nat, q: string, i: nat)
    requires k <= |r| && r[k..] == q && i <= |q|
    ensures CompEnd(r, k + i) == k + CompEnd(q, i)
    decreases |q| - i
  {
    if i < |q| {
      assert r[k + i] == q[i];
      if q[i] != '/' { CompEndFrom(r, k, q, i + 1); }
    }
  }

  lemma SameComponent(r: string, k: nat, q: string, i: nat, e: nat)
    requires k <= |r| && r[k..] == q && i <= e <= |q|
    ensures r[k + i..k + e] == q[i..e]
  {
    assert r[k..][i..e] == r[k + i..k + e];
  }

  /** The components of a text from some place on are those of the rest of the text. */
  lemma {:induction false} CompsFrom(r: string, k: nat, q: string, i: nat)
    requires k <= |r| && r[k..] == q && i <= |q|
    ensures Comps(r, k + i) == Comps(q, i)
    decreases |q| - i
  {
    if i < |q| {
      assert r[k + i] == q[i];
      if q[i] == '/' {
        CompsFrom(r, k, q, i + 1);
      } else {
        var e := CompEnd(q, i);
        CompEndFrom(r, k, q, i);
        SameComponent(r, k, q, i, e);
        CompsFrom(r, k, q, e);
      }
    }
  }

  lemma {:induction false} CompsSplit(p: string, q: string, i: nat)
    requires i <= |p|
    ensures Comps(p + "/" + q, i) == Comps(p, i) + Comps(q, 0)
    decreases |p| - i
  {
    var r := p + "/" + q;
    if i == |p| {
      assert r[|p| + 1..] == q;
      CompsFrom(r, |p| + 1, q, 0);
      assert Comps(p, i) == [] && Comps(r, i) == Comps(r, i + 1);
    } else if p[i] == '/' {
      CompsSplit(p, q, i + 1);
    } else {
      assert r == p + ("/" + q);
      CompEndPrefix(p, "/" + q, i);
      CompsSplit(p, q, CompEnd(p, i));
      assert r[i..CompEnd(p, i)] == p[i..CompEnd(p, i)];
      assert Comps(r, i) == [p[i..CompEnd(p, i)]] + Comps(r, CompEnd(p, i));
    }
  }

  /**
   What splitting a path means: a slash separates, text without one is one
   component, and the empty text is none. Every path is put together in this way.
   */
  lemma SlashSeparates(p: string, q: string)
    ensures Comps(p + "/" + q, 0) == Comps(p, 0) + Comps(q, 0)
    ensures NoSlash(p) ==> Comps(p, 0) == if p == "" then [] else [p]
  {
    CompsSplit(p, q, 0);
    if p != "" && NoSlash(p) {
      CompEndAll(p, 0);
      assert Comps(p, |p|) == [] && p[0..|p|] == p;
    }
  }

  /** Splitting the canonical text of a stack gives the stack back. */
  lemma {:induction false} CompsOfRender(stack: seq<string>)
    requires AllRegular(stack)
    ensures Comps(Render(stack), 0) == stack
    decreases |stack|
  {
    if stack != [] {
      var init, c := stack[..|stack| - 1], stack[|stack| - 1];
      CompsOfRender(init);
      SlashSeparates(Chain(init), c);
      SlashSeparates(c, "");
      assert Comps("/", 0) == [] by { assert Comps("/", 1) == []; }
      assert Comps(Chain(init), 0) == init;
      assert init + [c] == stack;
    } else {
      assert Comps("/", 1) == [];
    }
  }

  lemma RenderIsCanonical(stack: seq<string>)
    requires AllRegular(stack)
    ensures Canonical(Render(stack))
  {
    CompsOfRender(stack);
  }

  // ---------------------------------------------------------------- the normaliser

  /** A working directory that path_normalize may be given: none, a relative one (ignored), or a canonical one. */
  predicate GoodCwd(cwd: Option<string>) {
    cwd.None? || cwd.value == "" || cwd.value[0] != '/' || Canonical(cwd.value)
  }

  predicate UsesCwd(path: string, cwd: Option<string>) {
    && !(path != "" && path[0] == '/')
    && cwd.Some? && cwd.value != "" && cwd.value[0] == '/'
  }

  function StackNormalize(path: string, cwd: Option<string>, size: nat): Option<string> {
    if UsesCwd(path, cwd) && cwd.value != "/" && |cwd.value| >= VFS_MAX_PATH - 1 then None
    else
      match StackFold(if UsesCwd(path, cwd) then Comps(cwd.value, 0) else [], Comps(path, 0))
      case None => None
      case Some(stack) => if |Render(stack)| >= size then None else Some(Render(stack))
  }

  /** The buffer-based normaliser computes the component-stack fold. */
  lemma NormalizeRefinesStack(path: string, cwd: Option<string>, size: nat)
    requires GoodCwd(cwd)
    ensures Normalize(path, cwd, size) == StackNormalize(path, cwd, size)
  {
    CompsAreComponents(path, 0);
    if UsesCwd(path, cwd) {
      var stack := Comps(cwd.value, 0);
      if stack != [] { ChainShape(stack); }
      assert stack == [] ==> cwd.value == "/";
      if Start(path, cwd).Some? { FoldAndFinish(Start(path, cwd).value, stack, Comps(path, 0), size); }
    } else {
      FoldAndFinish("/", [], Comps(path, 0), size);
    }
  }

  lemma FoldAndFinish(w: string, stack: seq<string>, cs: seq<string>, size: nat)
    requires AllRegular(stack) && Represents(w, stack)
    requires forall k :: 0 <= k < |cs| ==> Component(cs[k])
    ensures (match TextFold(w, cs) case None => None case Some(w') => Finish(w', size))
         == (match StackFold(stack, cs)
             case None => None
             case Some(s) => if |Render(s)| >= size then None else Some(Render(s)))
  {
    FoldRepresents(w, stack, cs);
    if TextFold(w, cs).Some? {
      FinishRepresents(TextFold(w, cs).value, StackFold(stack, cs).value, size);
    }
  }

  lemma {:induction false} StackFoldRegular(stack: seq<string>, cs: seq<string>)
    requires AllRegular(stack) && StackFold(stack, cs).Some?
    requires forall k :: 0 <= k < |cs| ==> Component(cs[k])
    ensures AllRegular(StackFold(stack, cs).value)
    decreases |cs|
  {
    if cs != [] { StackFoldRegular(StackStep(stack, cs[0]), cs[1..]); }
  }

  /** Every result of the normaliser is canonical and fits its buffer. */
  lemma NormalizeIsCanonical(path: string, cwd: Option<string>, size: nat)
    requires GoodCwd(cwd) && Normalize(path, cwd, size).Some?
    ensures Canonical(Normalize(path, cwd, size).value)
    ensures |Normalize(path, cwd, size).value| < size
  {
    NormalizeRefinesStack(path, cwd, size);
    CompsAreComponents(path, 0);
    var base := if UsesCwd(path, cwd) then Comps(cwd.value, 0) else [];
    StackFoldRegular(base, Comps(path, 0));
    RenderIsCanonical(StackFold(base, Comps(path, 0)).value);
  }

  lemma {:induction false} ChainGrows(stack: seq<string>, cs: seq<string>)
    ensures |Chain(stack)| <= |Chain(stack + cs)|
    ensures |Chain(stack + cs)| <= 1 || |Render(stack)| <= |Chain(stack + cs)|
    decreases |cs|
  {
    if cs == [] {
      assert stack + cs == stack;
    } else {
      ChainGrows(stack, cs[..|cs| - 1]);
      assert (stack + cs)[..|stack + cs| - 1] == stack + cs[..|cs| - 1];
    }
  }

  lemma {:induction false} FoldOfRegular(stack: seq<string>, cs: seq<string>)
    requires AllRegular(stack) && AllRegular(cs) && |Render(stack + cs)| < VFS_MAX_PATH
    ensures StackFold(stack, cs) == Some(stack + cs)
    decreases |cs|
  {
    if cs == [] {
      assert stack + cs == stack;
    } else {
      assert stack + cs == stack + [cs[0]] + cs[1..];
      ChainGrows(stack + [cs[0]], cs[1..]);
      FoldOfRegular(stack + [cs[0]], cs[1..]);
    }
  }

  /** A canonical path that fits is left alone, whatever the working directory. */
  lemma NormalizeKeepsCanonical(p: string, cwd: Option<string>, size: nat)
    requires Canonical(p) && |p| < VFS_MAX_PATH && |p| < size
    ensures Normalize(p, cwd, size) == Some(p)
  {
    var stack := Comps(p, 0);
    if stack != [] { ChainShape(stack); }
    assert p[0] == '/';
    assert [] + stack == stack;
    FoldOfRegular([], stack);
    FoldAndFinish("/", [], stack, size);
    assert Start(p, cwd) == Some("/");
  }

  /** Normalising twice is normalising once. */
  lemma NormalizeIdempotent(path: string, cwd: Option<string>, size: nat, cwd': Option<string>)
    requires GoodCwd(cwd) && size <= VFS_MAX_PATH && Normalize(path, cwd, size).Some?
    ensures Normalize(Normalize(path, cwd, size).value, cwd', size) == Normalize(path, cwd, size)
  {
    NormalizeIsCanonical(path, cwd, size);
    NormalizeKeepsCanonical(Normalize(path, cwd, size).value, cwd', size);
  }

  // ---------------------------------------------------------------- dots

  /** The components other than ".". */
  function NoDots(cs: seq<string>): seq<string> {
    if cs == [] then []
    else if cs[0] == "." then NoDots(cs[1..])
    else [cs[0]] + NoDots(cs[1..])
  }

  lemma {:induction false} FoldSkipsDots(w: string, cs: seq<string>)
    ensures TextFold(w, cs) == TextFold(w, NoDots(cs))
    decreases |cs|
  {
    if cs != [] {
      var rest := NoDots(cs[1..]);
      assert ([cs[0]] + rest)[1..] == rest;
      if TextStep(w, cs[0]).Some? { FoldSkipsDots(TextStep(w, cs[0]).value, cs[1..]); }
    }
  }

  /** "." has no effect: paths of the same kind that differ only in dots and slashes normalise alike. */
  lemma DotsIgnored(p: string, q: string, cwd: Option<string>, size: nat)
    requires (p != "" && p[0] == '/') == (q != "" && q[0] == '/')
    requires NoDots(Comps(p, 0)) == NoDots(Comps(q, 0))
    ensures Normalize(p, cwd, size) == Normalize(q, cwd, size)
  {
    if Start(p, cwd).Some? {
      FoldSkipsDots(Start(p, cwd).value, Comps(p, 0));
      FoldSkipsDots(Start(p, cwd).value, Comps(q, 0));
    }
  }

  // ---------------------------------------------------------------- which working directories are safe

  /** Canonical, or canonical with one trailing slash. */
  predicate CleanCwd(cwd: string) {
    Canonical(cwd) || (|cwd| > 2 && EndsInSlash(cwd) && Canonical(DropLast(cwd)))
  }

  lemma LastSlashUnique(a: string, c: string, b: string, d: string)
    requires a + "/" + c == b + "/" + d && NoSlash(c) && NoSlash(d)
    ensures a == b && c == d
  {
    var p := a + "/" + c;
    assert p[|a|] == '/' && p[|b|] == '/';
    assert forall k :: |a| < k < |p| ==> p[k] == c[k - |a| - 1];
    assert forall k :: |b| < k < |p| ==> p[k] == d[k - |b| - 1];
    assert |a| == |b|;
    assert a == p[..|a|] && c == p[|a| + 1..] && d == p[|b| + 1..];
  }

  lemma NormalizeOneName(cwd: string)
    requires cwd != "" && cwd[0] == '/' && |cwd| < VFS_MAX_PATH - 2
    ensures Normalize("x", Some(cwd), VFS_MAX_PATH) == Some((if EndsInSlash(cwd) then cwd else cwd + "/") + "x")
  {
    var w := if EndsInSlash(cwd) then cwd else cwd + "/";
    assert Comps("x", 1) == [] && CompEnd("x", 0) == 1;
    assert "x"[0..1] == "x";
    assert Comps("x", 0) == ["x"];
    assert TextFold(w, ["x"]) == Some(w + "x") by { assert ["x"][1..] == []; }
  }

  /**
   path_normalize is only canonicalising for a clean working directory: for
   every other absolute one that leaves room for a name, some path comes out
   non-canonical.
   */
  lemma CanonicalForEveryPathIff(cwd: string)
    requires cwd != "" && cwd[0] == '/' && |cwd| < VFS_MAX_PATH - 2
    ensures (forall path :: Normalize(path, Some(cwd), VFS_MAX_PATH).Some?
                            ==> Canonical(Normalize(path, Some(cwd), VFS_MAX_PATH).value))
            <==> CleanCwd(cwd)
  {
    if CleanCwd(cwd) {
      forall path | Normalize(path, Some(cwd), VFS_MAX_PATH).Some?
        ensures Canonical(Normalize(path, Some(cwd), VFS_MAX_PATH).value)
      {
        CleanCwdGivesCanonical(path, cwd);
      }
    } else {
      NormalizeOneName(cwd);
      var r := Normalize("x", Some(cwd), VFS_MAX_PATH).value;
      if Canonical(r) { NonCleanGivesNonCanonical(cwd); }
      assert !Canonical(Normalize("x", Some(cwd), VFS_MAX_PATH).value);
    }
  }

  /** A clean working directory starts the fold from text that represents its components. */
  lemma CleanCwdStart(path: string, cwd: string)
    requires UsesCwd(path, Some(cwd)) && CleanCwd(cwd) && Start(path, Some(cwd)).Some?
    ensures var stack := Comps(if Canonical(cwd) then cwd else DropLast(cwd), 0);
            AllRegular(stack) && Represents(Start(path, Some(cwd)).value, stack)
  {
  }

  lemma CleanCwdGivesCanonical(path: string, cwd: string)
    requires cwd != "" && cwd[0] == '/' && CleanCwd(cwd) && Normalize(path, Some(cwd), VFS_MAX_PATH).Some?
    ensures Canonical(Normalize(path, Some(cwd), VFS_MAX_PATH).value)
  {
    if path != "" && path[0] == '/' {
      NormalizeIsCanonical(path, None, VFS_MAX_PATH);
    } else {
      CleanCwdStart(path, cwd);
      FoldFromStack(path, Start(path, Some(cwd)).value, Comps(if Canonical(cwd) then cwd else DropLast(cwd), 0));
    }
  }

  lemma FoldFromStack(path: string, w: string, stack: seq<string>)
    requires AllRegular(stack) && Represents(w, stack)
    requires TextFold(w, Comps(path, 0)).Some? && Finish(TextFold(w, Comps(path, 0)).value, VFS_MAX_PATH).Some?
    ensures Canonical(Finish(TextFold(w, Comps(path, 0)).value, VFS_MAX_PATH).value)
  {
    CompsAreComponents(path, 0);
    FoldAndFinish(w, stack, Comps(path, 0), VFS_MAX_PATH);
    StackFoldRegular(stack, Comps(path, 0));
    RenderIsCanonical(StackFold(stack, Comps(path, 0)).value);
  }

  lemma NonCleanGivesNonCanonical(cwd: string)
    requires cwd != "" && cwd[0] == '/'
    requires Canonical((if EndsInSlash(cwd) then cwd else cwd + "/") + "x")
    ensures CleanCwd(cwd)
  {
    var w := if EndsInSlash(cwd) then cwd else cwd + "/";
    var r := w + "x";
    var stack := Comps(r, 0);
    assert stack != [];
    var init, c := stack[..|stack| - 1], stack[|stack| - 1];
    assert r == DropLast(w) + "/" + "x";
    LastSlashUnique(DropLast(w), "x", Chain(init), c);
    RenderIsCanonical(init);
    if init == [] {
      assert w == "/";
      assert cwd == "/" == Render([]);
    } else {
      ChainShape(init);
      assert DropLast(w) == Render(init);
      assert cwd == Render(init) || (EndsInSlash(cwd) && DropLast(cwd) == Render(init));
    }
  }

  // ---------------------------------------------------------------- room in the buffer

  /** Text needed for the components of `cs`, each with its slash. */
  function Weight(cs: seq<string>): nat {
    if cs == [] then 0 else 1 + |cs[0]| + Weight(cs[1..])
  }

  lemma {:induction false} WeightOfComps(p: string, i: nat)
    requires i <= |p|
    ensures Weight(Comps(p, i)) <= |p| - i + if i < |p| && p[i] != '/' then 1 else 0
    decreases |p| - i
  {
    if i < |p| {
      if p[i] == '/' {
        WeightOfComps(p, i + 1);
      } else {
        var e := CompEnd(p, i);
        WeightOfComps(p, e);
        assert Comps(p, i)[1..] == Comps(p, e);
      }
    }
  }

  lemma StepFits(stack: seq<string>, c: string)
    ensures |Chain(StackStep(stack, c))| <= |Chain(stack)| + 1 + |c|
  {
    var s' := StackStep(stack, c);
    if c == ".." {
      if stack != [] {
        ChainGrows(s', [stack[|stack| - 1]]);
        assert s' + [stack[|stack| - 1]] == stack;
      }
    } else if c != "." {
      assert s'[..|s'| - 1] == stack;
    }
  }

  lemma {:induction false} FoldFits(stack: seq<string>, cs: seq<string>)
    requires |Chain(stack)| + Weight(cs) < VFS_MAX_PATH
    ensures StackFold(stack, cs).Some?
    ensures |Chain(StackFold(stack, cs).value)| <= |Chain(stack)| + Weight(cs)
    decreases |cs|
  {
    if cs != [] {
      StepFits(stack, cs[0]);
      FoldFits(StackStep(stack, cs[0]), cs[1..]);
    }
  }

  /** Every absolute path of at most 255 bytes can be normalised into a 256-byte buffer. */
  lemma ShortPathsNormalize(path: string, cwd: Option<string>)
    requires path != "" && path[0] == '/' && |path| < VFS_MAX_PATH
    ensures StackFold([], Comps(path, 0)).Some?
    ensures Normalize(path, cwd, VFS_MAX_PATH) == Some(Render(StackFold([], Comps(path, 0)).value))
  {
    WeightOfComps(path, 0);
    FoldFits([], Comps(path, 0));
    CompsAreComponents(path, 0);
    FoldAndFinish("/", [], Comps(path, 0), VFS_MAX_PATH);
  }

  // ---------------------------------------------------------------- dirname, basename, join

  /** Index of the last slash, or -1. */
  function LastSlash(p: string): (i: int)
    ensures -1 <= i < |p|
    ensures i >= 0 ==> p[i] == '/'
    ensures forall k :: i < k < |p| ==> p[k] != '/'
  {
    if p == "" then -1 else if p[|p| - 1] == '/' then |p| - 1 else LastSlash(DropLast(p))
  }

  function Dirname(p: string, size: nat): Option<string> {
    var i := LastSlash(p);
    var d := if i == -1 then "." else if i == 0 then "/" else p[..i];
    if |d| >= size then None else Some(d)
  }

  /** Skip the slashes that end at `e`, going left. */
  function SkipSlashesLeft(p: string, e: nat): (r: nat)
    requires e < |p|
    ensures r <= e
  {
    if e > 0 && p[e] == '/' then SkipSlashesLeft(p, e - 1) else e
  }

  function ComponentStart(p: string, e: nat): (r: nat)
    requires e < |p|
    ensures r <= e
  {
    if e > 0 && p[e - 1] != '/' then ComponentStart(p, e - 1) else e
  }

  /** path_basename returns the rest of the path text from the last component on. */
  function Basename(p: string): string {
    if p == "" then "."
    else
      var i := LastSlash(p);
      if i < |p| - 1 then p[i + 1..]
      else
        var e := SkipSlashesLeft(p, i);
        if e == 0 && p[e] == '/' then "/" else p[ComponentStart(p, e)..]
  }

  function Join(dir: string, name: string, size: nat): Option<string> {
    var sep := dir != "" && !EndsInSlash(dir) && (name == "" || name[0] != '/');
    var r := dir + (if sep then "/" else "") + name;
    if |r| >= size then None else Some(r)
  }

  lemma {:induction false} LastSlashOf(a: string, c: string)
    requires NoSlash(c)
    ensures LastSlash(a + "/" + c) == |a|
  {
    var p := a + "/" + c;
    var i := LastSlash(p);
    assert p[|a|] == '/';
  }

  /** Fit for a buffer of `size` bytes. */
  function Fitting(d: string, size: nat): Option<string> { if |d| >= size then None else Some(d) }

  /** The directory part of any text: what is before its last slash, "/" if nothing is, "." without a slash. */
  lemma DirnameOf(a: string, c: string, size: nat)
    requires NoSlash(c)
    ensures Dirname(a + "/" + c, size) == Fitting(if a == "" then "/" else a, size)
    ensures Dirname(c, size) == Fitting(".", size)
  {
    LastSlashOf(a, c);
    assert (a + "/" + c)[..|a|] == a;
  }

  predicate OnlySlashes(s: string) { forall k :: 0 <= k < |s| ==> s[k] == '/' }

  lemma {:induction false} SkipsTo(p: string, e: nat, k: nat)
    requires k <= e < |p| && (k == 0 || p[k] != '/') && forall j :: k < j <= e ==> p[j] == '/'
    ensures SkipSlashesLeft(p, e) == k
    decreases e
  {
    if e > k { SkipsTo(p, e - 1, k); }
  }

  lemma {:induction false} StartsAt(p: string, e: nat, k: nat)
    requires k <= e < |p| && (k == 0 || p[k - 1] == '/') && forall j :: k <= j < e ==> p[j] != '/'
    ensures ComponentStart(p, e) == k
    decreases e
  {
    if e > k { StartsAt(p, e - 1, k); }
  }

  lemma LastComponent(p: string, k: nat, n: nat)
    requires n > 0 && k + n <= |p| && (k == 0 || p[k - 1] == '/')
    requires (forall j :: k <= j < k + n ==> p[j] != '/') && (forall j :: k + n <= j < |p| ==> p[j] == '/')
    ensures Basename(p) == p[k..]
  {
    var i := LastSlash(p);
    if k + n < |p| {
      assert p[|p| - 1] == '/' && i == |p| - 1;
      SkipsTo(p, i, k + n - 1);
      StartsAt(p, k + n - 1, k);
    } else {
      assert i < |p| - 1 by { assert p[|p| - 1] != '/'; }
      assert i == k - 1;
    }
  }

  lemma BasenameInside(a: string, c: string, s: string, p: string)
    requires Component(c) && OnlySlashes(s) && p == a + "/" + c + s
    ensures Basename(p) == c + s
  {
    var k := |a| + 1;
    assert p[k..] == c + s && p[k - 1] == '/';
    assert forall j :: k <= j < k + |c| ==> p[j] == c[j - k];
    assert forall j :: k + |c| <= j < |p| ==> p[j] == s[j - k - |c|];
    LastComponent(p, k, |c|);
  }

  lemma BasenameAlone(c: string, s: string, p: string)
    requires Component(c) && OnlySlashes(s) && p == c + s
    ensures Basename(p) == p
  {
    assert forall j :: 0 <= j < |c| ==> p[j] == c[j];
    assert forall j :: |c| <= j < |p| ==> p[j] == s[j - |c|];
    LastComponent(p, 0, |c|);
  }

  /** The last component of any text, with the slashes that follow it; "/" for slashes only, "." for nothing. */
  lemma BasenameOf(a: string, c: string, s: string)
    requires Component(c) && OnlySlashes(s)
    ensures Basename(a + "/" + c + s) == c + s && Basename(c + s) == c + s
    ensures Basename(s) == if s == "" then "." else "/"
  {
    BasenameInside(a, c, s, a + "/" + c + s);
    BasenameAlone(c, s, c + s);
    if s != "" { SkipsTo(s, |s| - 1, 0); }
  }

  lemma RenderPush(stack: seq<string>, c: string)
    ensures Render(stack + [c]) == Chain(stack) + "/" + c
  {
  }

  lemma JoinOfRender(stack: seq<string>, c: string, size: nat)
    requires AllRegular(stack) && Regular(c) && |Render(stack + [c])| < size
    ensures Join(Render(stack), c, size) == Some(Render(stack + [c]))
  {
    RenderPush(stack, c);
    assert c[0] != '/';
    if stack != [] { ChainShape(stack); } else { assert "/" + "" + c == "" + "/" + c; }
  }

  lemma {:induction false} SplitOfText(a: string, c: string, size: nat)
    requires Component(c) && |a + "/" + c| < size
    ensures Dirname(a + "/" + c, size) == Some(if a == "" then "/" else a)
    ensures Basename(a + "/" + c) == c
  {
    var p := a + "/" + c;
    LastSlashOf(a, c);
    assert p[|a| + 1..] == c && p[..|a|] == a;
  }

  /** Entering a directory and taking the path apart again. */
  lemma SplitOfJoin(stack: seq<string>, c: string, size: nat)
    requires AllRegular(stack) && Regular(c) && |Render(stack + [c])| < size
    ensures Join(Render(stack), c, size) == Some(Render(stack + [c]))
    ensures Dirname(Render(stack + [c]), size) == Some(Render(stack))
    ensures Basename(Render(stack + [c])) == c
  {
    JoinOfRender(stack, c, size);
    RenderPush(stack, c);
    SplitOfText(Chain(stack), c, size);
    if stack != [] { ChainShape(stack); }
  }

  /** Every canonical path but the root is the join of its dirname and its basename. */
  lemma JoinOfSplit(p: string, size: nat)
    requires Canonical(p) && p != "/" && |p| < size
    ensures Dirname(p, size).Some?
    ensures Join(Dirname(p, size).value, Basename(p), size) == Some(p)
    ensures Canonical(Dirname(p, size).value) && Regular(Basename(p))
  {
    var stack := Comps(p, 0);
    var init, c := stack[..|stack| - 1], stack[|stack| - 1];
    assert stack == init + [c];
    SplitOfJoin(init, c, size);
    RenderIsCanonical(init);
  }
}
