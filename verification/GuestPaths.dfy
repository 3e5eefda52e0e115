/** The path state of src/guest_path.c: root, working directory and the loops that read and update them. */
module GuestPaths {
  import opened Words
  import opened PathSyntax
  import opened PathResolution

  /** `guest_path_chdir` on values: the new working directory, or why there is none. */
  function ChangeTo(tree: Tree, root: string, cwd: string, path: string): Result<string> {
    var n := Normalize(cwd, path);
    if n.Err? then Err(n.error)
    else
      var r := ResolveLinks(tree, root, false, n.value);
      if r.Err? then Err(r.error)
      else if |root + Render(r.value)| >= PATH_MAX then Err(NameTooLong)
      else if r.value != [] && !tree(r.value).Directory? then Err(NotDirectory)
      else Ok(Render(r.value))
  }

  /** `guest_path_fchdir`. */
  function ChangeToHost(tree: Tree, root: string, cwd: string, host: Option<string>): Result<string> {
    if host.None? || root == "" then Err(BadDescriptor)
    else
      var d := GuestDirectory(root, host.value);
      if d.Err? then Err(d.error) else ChangeTo(tree, root, cwd, d.value)
  }

  class PathState {
    const root: string
    var cwd: string

    constructor (root: string)
      ensures this.root == root && cwd == "/"
    {
      this.root := root;
      cwd := "/";
    }

    /** Step over a run of slashes. */
    method SkipSeparators(combined: string, from: nat) returns (cursor: nat)
      requires from <= |combined|
      ensures from <= cursor <= |combined| && (cursor < |combined| ==> combined[cursor] != '/')
      ensures Components(combined[cursor..]) == Components(combined[from..])
    {
      hide Components;
      cursor := from;
      while cursor < |combined| && combined[cursor] == '/'
        invariant from <= cursor <= |combined|
        invariant Components(combined[cursor..]) == Components(combined[from..])
      {
        OverSlash(combined, cursor);
        cursor := cursor + 1;
      }
    }

    /** Step to the end of a name. */
    method NameEnd(combined: string, start: nat) returns (cursor: nat)
      requires start < |combined| && combined[start] != '/'
      ensures start < cursor <= |combined| && '/' !in combined[start..cursor]
      ensures cursor < |combined| ==> combined[cursor] == '/'
    {
      cursor := start + 1;
      while cursor < |combined| && combined[cursor] != '/'
        invariant start < cursor <= |combined| && '/' !in combined[start..cursor]
      {
        cursor := cursor + 1;
      }
    }

    /**
      The component loop of `normalize_guest_path`: a stack that grows, shrinks and never underflows. `slots` is how
      many entries of the component array were written; the source has PATH_MAX / 2.
     */
    method CollectComponents(combined: string) returns (components: seq<string>, slots: nat)
      ensures components == Fold([], Components(combined))
      ensures slots == Peak([], Components(combined))
    {
      hide Components, Fold, Peak, Apply;
      components, slots := [], 0;
      var cursor := 0;
      PeakIsBounded([], Components(combined));
      assert combined[0..] == combined;
      while cursor < |combined|
        invariant cursor <= |combined|
        invariant Outstanding(combined, cursor, components, slots)
      {
        cursor := SkipSeparators(combined, cursor);
        if cursor == |combined| {
          break;
        }
        var start := cursor;
        cursor := NameEnd(combined, start);
        var name := combined[start..cursor];
        OneName(combined, start, cursor, components, slots);
        if cursor < |combined| {
          OverSlash(combined, cursor);
          cursor := cursor + 1;
        }
        components := Push(components, name);
        slots := if |components| > slots then |components| else slots;
      }
      NothingOutstanding(combined, cursor, components, slots);
    }

    /** One component against the stack. */
    method Push(components: seq<string>, name: string) returns (r: seq<string>)
      ensures r == Apply(components, name)
    {
      if name == "." {
        return components;
      }
      if name == ".." {
        return if |components| != 0 then components[..|components| - 1] else components;
      }
      return components + [name];
    }

    /** The output loop: join the components, refusing to write past the buffer. */
    method WriteComponents(components: seq<string>) returns (r: Result<string>)
      requires Pieces(components)
      ensures r == if |Render(components)| >= PATH_MAX then Err(NameTooLong) else Ok(Render(components))
    {
      var output := "/";
      var index := 0;
      assert components[0..] == components;
      while index < |components|
        invariant index <= |components|
        invariant output + Join(components[index..]) == Render(components)
        invariant |output| < PATH_MAX
      {
        var component := components[index];
        var more := index + 1 < |components|;
        ghost var rest := components[index..];
        assert rest[1..] == components[index + 1..];
        assert Join(rest) == component + (if more then "/" + Join(components[index + 1..]) else "");
        if |output| + |component| + (if more then 1 else 0) >= PATH_MAX {
          return Err(NameTooLong);
        }
        ghost var was := output;
        output := output + component;
        if more {
          output := output + "/";
        }
        assert was + (component + (if more then "/" + Join(components[index + 1..]) else ""))
            == output + Join(components[index + 1..]);
        index := index + 1;
      }
      assert components[index..] == [];
      assert output == Render(components);
      return Ok(output);
    }

    /** `normalize_guest_path` with the current working directory. */
    method NormalizePath(path: string) returns (r: Result<string>)
      ensures var n := Normalize(cwd, path);
              r == if n.Err? then Err(n.error) else Ok(Render(n.value))
    {
      if path == "" {
        return Err(NotFound);
      }
      var combined := if path[0] == '/' then path else cwd + "/" + path;
      if |combined| >= 2 * PATH_MAX {
        return Err(NameTooLong);
      }
      var components, _ := CollectComponents(combined);
      ComponentsArePieces(combined);
      FoldIsClean([], Components(combined));
      r := WriteComponents(components);
    }

    /** `resolve_guest_symlinks`: walk component by component, starting over at each link. */
    method ResolveSymlinks(normalized: seq<string>, allowMissing: bool, tree: Tree) returns (r: Result<seq<string>>)
      requires Clean(normalized)
      ensures r == ResolveLinks(tree, root, allowMissing, normalized)
    {
      hide Normalize, Redirected, HostCandidate, Clean;
      var current := normalized;
      var k, links := 0, 0;
      while k < |current|
        invariant k <= |current| && links <= MAX_LINKS
        invariant Walk(tree, root, allowMissing, current, k, links)
               == ResolveLinks(tree, root, allowMissing, normalized)
        decreases MAX_LINKS - links, |current| - k
      {
        if |HostCandidate(root, current[..k + 1])| >= PATH_MAX {
          return Err(NameTooLong);
        }
        var status := tree(current[..k + 1]);
        if status.Missing? {
          if allowMissing && k + 1 == |current| {
            break;
          }
          return Err(NotFound);
        }
        if status.Failing? {
          return Err(HostError);
        }
        if status.Link? {
          if links + 1 > MAX_LINKS {
            return Err(Loop);
          }
          var combined := Redirected(current, k, status.target);
          if |combined| >= 2 * PATH_MAX {
            return Err(NameTooLong);
          }
          var next := Normalize("/", combined);
          if next.Err? {
            return next;
          }
          current, k, links := next.value, 0, links + 1;
          continue;
        }
        k := k + 1;
      }
      return Ok(current);
    }

    /** `guest_path_chdir`: the working directory changes only when everything succeeded. */
    method ChangeDirectory(path: string, tree: Tree) returns (r: Result<string>)
      modifies this
      ensures r == ChangeTo(tree, root, old(cwd), path)
      ensures cwd == if r.Ok? then r.value else old(cwd)
    {
      var normalized := Normalize(cwd, path);
      if normalized.Err? {
        return Err(normalized.error);
      }
      NormalizedIsClean(cwd, path);
      var resolved := ResolveSymlinks(normalized.value, false, tree);
      if resolved.Err? {
        return Err(resolved.error);
      }
      if |root + Render(resolved.value)| >= PATH_MAX {
        return Err(NameTooLong);
      }
      if resolved.value != [] && !tree(resolved.value).Directory? {
        return Err(NotDirectory);
      }
      cwd := Render(resolved.value);
      return Ok(cwd);
    }

    /** `guest_path_fchdir`. */
    method ChangeToDescriptor(host: Option<string>, tree: Tree) returns (r: Result<string>)
      modifies this
      ensures r == ChangeToHost(tree, root, old(cwd), host)
      ensures cwd == if r.Ok? then r.value else old(cwd)
    {
      hide ChangeTo, GuestDirectory;
      if host.None? || root == "" {
        return Err(BadDescriptor);
      }
      var directory := GuestDirectory(root, host.value);
      if directory.Err? {
        return Err(directory.error);
      }
      r := ChangeDirectory(directory.value, tree);
    }
  }

  /** What is left of the path, on top of what is collected, makes up the whole path. */
  ghost predicate Outstanding(combined: string, cursor: nat, components: seq<string>, slots: nat)
    requires cursor <= |combined|
  {
    var rest := Components(combined[cursor..]);
    && |components| <= slots
    && Fold(components, rest) == Fold([], Components(combined))
    && Max(slots, Peak(components, rest)) == Peak([], Components(combined))
  }

  function Max(a: nat, b: nat): nat {
    if a > b then a else b
  }

  lemma OneName(combined: string, start: nat, cursor: nat, components: seq<string>, slots: nat)
    requires start < cursor <= |combined| && Outstanding(combined, start, components, slots)
    requires '/' !in combined[start..cursor] && (cursor < |combined| ==> combined[cursor] == '/')
    ensures var next := Apply(components, combined[start..cursor]);
            Outstanding(combined, cursor, next, Max(|next|, slots))
  {
    hide Components, Apply;
    var name, rest := combined[start..cursor], Components(combined[cursor..]);
    OverName(combined, start, cursor);
    FoldFirst(components, name, rest);
    PeakFirst(components, name, rest);
    PeakIsBounded(Apply(components, name), rest);
  }

  lemma PeakFirst(stack: seq<string>, name: string, rest: seq<string>)
    ensures Peak(stack, [name] + rest) == Max(|stack|, Peak(Apply(stack, name), rest))
  {
    assert ([name] + rest)[1..] == rest;
  }

  lemma NothingOutstanding(combined: string, cursor: nat, components: seq<string>, slots: nat)
    requires cursor == |combined| && Outstanding(combined, cursor, components, slots)
    ensures components == Fold([], Components(combined)) && slots == Peak([], Components(combined))
  {
    assert combined[cursor..] == "";
    NoComponents();
    FoldNothing(components);
  }

  lemma OverSlash(s: string, i: nat)
    requires i < |s| && s[i] == '/'
    ensures Components(s[i..]) == Components(s[i + 1..])
  {
    assert s[i..] == "/" + s[i + 1..];
    ComponentsAfterSlash(s[i + 1..]);
  }

  lemma OverName(s: string, i: nat, j: nat)
    requires i < j <= |s| && '/' !in s[i..j] && (j < |s| ==> s[j] == '/')
    ensures Components(s[i..]) == [s[i..j]] + Components(s[j..])
  {
    assert s[i..] == s[i..j] + s[j..];
    ComponentsOfName(s[i..j], s[j..]);
  }

  lemma FoldNothing(stack: seq<string>)
    ensures Fold(stack, []) == stack
  {
  }

  // ----- the working directory over whole runs

  /** A rendered path of proper names that fits its buffer. */
  ghost predicate Normalized(cwd: string) {
    exists cs :: Clean(cs) && cwd == Render(cs) && |cwd| < PATH_MAX
  }

  /** Each call may see a different tree: other processes change files between calls. */
  datatype Call = Chdir(path: string, tree: Tree) | Fchdir(host: Option<string>, tree: Tree)

  function Attempt(root: string, cwd: string, call: Call): Result<string> {
    match call
    case Chdir(path, tree) => ChangeTo(tree, root, cwd, path)
    case Fchdir(host, tree) => ChangeToHost(tree, root, cwd, host)
  }

  function After(root: string, cwd: string, calls: seq<Call>): string {
    if calls == [] then cwd
    else
      var before := After(root, cwd, calls[..|calls| - 1]);
      var r := Attempt(root, before, calls[|calls| - 1]);
      if r.Ok? then r.value else before
  }

  lemma ChangeToIsNormalized(tree: Tree, root: string, cwd: string, path: string)
    ensures ChangeTo(tree, root, cwd, path).Ok? ==> Normalized(ChangeTo(tree, root, cwd, path).value)
  {
    var n := Normalize(cwd, path);
    if n.Ok? {
      ResolutionLeavesNoLinks(tree, root, false, cwd, path);
      hide Normalize, Walk, HostCandidate;
    }
  }

  /** Over every run of chdir and fchdir calls the working directory stays normalised. */
  lemma {:induction false} CwdStaysNormalized(root: string, cwd: string, calls: seq<Call>)
    requires Normalized(cwd)
    ensures Normalized(After(root, cwd, calls))
  {
    if calls != [] {
      var before := After(root, cwd, calls[..|calls| - 1]);
      CwdStaysNormalized(root, cwd, calls[..|calls| - 1]);
      match calls[|calls| - 1]
      case Chdir(path, tree) => ChangeToIsNormalized(tree, root, before, path);
      case Fchdir(host, tree) =>
        if host.Some? && GuestDirectory(root, host.value).Ok? {
          ChangeToIsNormalized(tree, root, before, GuestDirectory(root, host.value).value);
        }
    }
  }

  lemma InitialCwdIsNormalized()
    ensures Normalized("/")
  {
    assert Render([]) == "/" && Clean([]);
  }

  /** The components lead to the directory r, whose guest path is d. */
  ghost predicate DirectoryAt(tree: Tree, root: string, cs: seq<string>, r: seq<string>, d: string) {
    EndsAt(tree, root, false, cs, r) && (r == [] || tree(r).Directory?) && d == Render(r)
  }

  /**
    chdir succeeds exactly when the path leads, over at most 40 links, to a link-free path that fits below the root and
    is a directory, and the working directory is then that path.
   */
  lemma ChangesDirectoryIff(tree: Tree, root: string, cwd: string, path: string, d: string)
    ensures ChangeTo(tree, root, cwd, path) == Ok(d)
       <==> && Normalize(cwd, path).Ok?
            && exists r :: DirectoryAt(tree, root, Normalize(cwd, path).value, r, d)
  {
    hide Normalize, Walk, LeadsTo, Render;
    if Normalize(cwd, path).Ok? {
      var cs := Normalize(cwd, path).value;
      var p := ResolveLinks(tree, root, false, cs);
      if p.Ok? {
        ResolutionFollowsLinks(tree, root, false, cwd, path, p.value);
        assert ChangeTo(tree, root, cwd, path) == Ok(d) ==> DirectoryAt(tree, root, cs, p.value, d);
      }
      if r :| DirectoryAt(tree, root, cs, r, d) {
        ResolutionFollowsLinks(tree, root, false, cwd, path, r);
      }
    }
  }
}
