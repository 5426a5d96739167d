/**
 kernel/fs/path.c with its loops and its fixed work buffer. Strings are
 sequences of characters; a NULL working directory is `None` and the
 functions' output buffer is their result.
 */
module Path {
  import opened Basics
  import opened PathSpec

  method FindLastSlash(path: string) returns (lastSlash: int)
    ensures lastSlash == LastSlash(path)
  {
    lastSlash := -1;
    for p := 0 to |path|
      invariant -1 <= lastSlash < p
      invariant lastSlash >= 0 ==> path[lastSlash] == '/'
      invariant forall k :: lastSlash < k < p ==> path[k] != '/'
    {
      if path[p] == '/' { lastSlash := p; }
    }
  }

  method PathBasename(path: string) returns (name: string)
    ensures name == Basename(path)
  {
    if path == "" { return "."; }
    var lastSlash := FindLastSlash(path);
    if lastSlash == -1 {
      assert path[0..] == path;
      return path;
    }
    if lastSlash == |path| - 1 {
      var end := lastSlash;
      while end > 0 && path[end] == '/'
        invariant 0 <= end <= lastSlash
        invariant SkipSlashesLeft(path, end) == SkipSlashesLeft(path, lastSlash)
      {
        end := end - 1;
      }
      if end == 0 && path[end] == '/' { return "/"; }
      var start := end;
      while start > 0 && path[start - 1] != '/'
        invariant 0 <= start <= end
        invariant ComponentStart(path, start) == ComponentStart(path, end)
      {
        start := start - 1;
      }
      return path[start..];
    }
    return path[lastSlash + 1..];
  }

  method PathDirname(path: string, size: nat) returns (dir: Option<string>)
    ensures dir == Dirname(path, size)
  {
    if size == 0 { return None; }
    if path == "" {
      if size < 2 { return None; }
      return Some(".");
    }
    var lastSlash := FindLastSlash(path);
    if lastSlash == -1 {
      if size < 2 { return None; }
      return Some(".");
    }
    if lastSlash == 0 {
      if size < 2 { return None; }
      return Some("/");
    }
    if lastSlash >= size { return None; }
    return Some(path[..lastSlash]);
  }

  method PathJoin(dir: string, name: string, size: nat) returns (r: Option<string>)
    ensures r == Join(dir, name, size)
  {
    if size == 0 { return None; }
    var needSep := |dir| > 0 && dir[|dir| - 1] != '/' && (name == "" || name[0] != '/');
    var total := |dir| + (if needSep then 1 else 0) + |name|;
    if total >= size { return None; }
    if needSep {
      return Some(dir + "/" + name);
    } else {
      assert dir + "" + name == dir + name;
      return Some(dir + name);
    }
  }

  /** Copy `s` into the work buffer at `at`. */
  method CopyInto(work: array<char>, at: nat, s: string)
    requires at + |s| <= work.Length
    modifies work
    ensures work[..at + |s|] == old(work[..at]) + s
  {
    forall k | 0 <= k < |s| { work[at + k] := s[k]; }
  }

  /** The prologue of path_normalize: the text the components are applied to. */
  method StartWork(path: string, cwd: Option<string>, work: array<char>) returns (len: int)
    requires work.Length == VFS_MAX_PATH
    modifies work
    ensures len == -1 <==> Start(path, cwd).None?
    ensures len != -1 ==> 1 <= len < VFS_MAX_PATH && work[..len] == Start(path, cwd).value
  {
    if path != "" && path[0] == '/' {
      work[0] := '/';
      return 1;
    }
    if cwd.None? || cwd.value == "" || cwd.value[0] != '/' {
      work[0] := '/';
      return 1;
    }
    var c := cwd.value;
    if |c| >= VFS_MAX_PATH { return -1; }
    CopyInto(work, 0, c);
    len := |c|;
    if work[len - 1] != '/' {
      if len >= VFS_MAX_PATH - 1 { return -1; }
      work[len] := '/';
      len := len + 1;
      assert work[..len] == c + "/";
    }
  }

  /** Apply one component to the work buffer; -1 when it does not fit. */
  method ApplyComponent(work: array<char>, workLen: nat, c: string) returns (len: int)
    requires work.Length == VFS_MAX_PATH && 1 <= workLen < VFS_MAX_PATH && Component(c)
    modifies work
    ensures len == -1 <==> TextStep(old(work[..workLen]), c).None?
    ensures len != -1 ==> 1 <= len < VFS_MAX_PATH && work[..len] == TextStep(old(work[..workLen]), c).value
  {
    ghost var w := work[..workLen];
    len := workLen;
    if |c| == 1 && c[0] == '.' {
      assert c == ".";
    } else if |c| == 2 && c[0] == '.' && c[1] == '.' {
      assert c == "..";
      if len > 1 {
        if work[len - 1] == '/' { len := len - 1; }
        assert work[..len] == if EndsInSlash(w) then DropLast(w) else w;
        while len > 1 && work[len - 1] != '/'
          invariant 1 <= len <= workLen
          invariant StripComponent(work[..len]) == PopText(w)
        {
          assert DropLast(work[..len]) == work[..len - 1];
          len := len - 1;
        }
      }
    } else {
      if work[len - 1] != '/' {
        if len >= VFS_MAX_PATH - 1 { return -1; }
        work[len] := '/';
        len := len + 1;
        assert work[..len] == w + "/";
      }
      if len + |c| >= VFS_MAX_PATH { return -1; }
      CopyInto(work, len, c);
      len := len + |c|;
    }
  }

  method ComponentEnd(path: string, p: nat) returns (end: nat)
    requires p <= |path|
    ensures end == CompEnd(path, p)
  {
    end := p;
    while end < |path| && path[end] != '/'
      invariant p <= end <= |path|
      invariant CompEnd(path, end) == CompEnd(path, p)
    {
      end := end + 1;
    }
  }

  method TrimSlashes(work: array<char>, n: nat) returns (len: nat)
    requires 1 <= n <= work.Length
    ensures 1 <= len <= n && work[..len] == StripSlashes(work[..n])
  {
    len := n;
    while len > 1 && work[len - 1] == '/'
      invariant 1 <= len <= n
      invariant StripSlashes(work[..len]) == StripSlashes(work[..n])
    {
      assert DropLast(work[..len]) == work[..len - 1];
      len := len - 1;
    }
  }

  /** path_normalize. */
  method PathNormalize(path: string, cwd: Option<string>, size: nat) returns (r: Option<string>)
    ensures r == Normalize(path, cwd, size)
  {
    if size == 0 { return None; }
    var work := new char[VFS_MAX_PATH];
    var workLen := StartWork(path, cwd, work);
    if workLen == -1 { return None; }
    ghost var target := TextFold(work[..workLen], Comps(path, 0));
    var p := 0;
    if path != "" && path[0] == '/' { p := 1; }
    while p < |path|
      invariant p <= |path|
      invariant 1 <= workLen < VFS_MAX_PATH
      invariant TextFold(work[..workLen], Comps(path, p)) == target
    {
      while p < |path| && path[p] == '/'
        invariant p <= |path|
        invariant TextFold(work[..workLen], Comps(path, p)) == target
      {
        p := p + 1;
      }
      if p == |path| { break; }
      var end := ComponentEnd(path, p);
      assert Comps(path, p) == [path[p..end]] + Comps(path, end);
      workLen := ApplyComponent(work, workLen, path[p..end]);
      if workLen == -1 { return None; }
      p := end;
    }
    assert Comps(path, p) == [];
    workLen := TrimSlashes(work, workLen);
    if workLen >= size { return None; }
    return Some(work[..workLen]);
  }
}
