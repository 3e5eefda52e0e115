/** Guest-aware symlink resolution and the working directory (src/guest_path.c). */
module PathResolution {
  import opened Words
  import opened PathSyntax

  const MAX_LINKS: nat := 40

  /** What `lstat` and `readlink` report for a path under the root. */
  datatype Node = Missing | Failing | Link(target: string) | Directory | Other

  /** An unchanging tree of host files, addressed by guest components below the root. */
  type Tree = seq<string> -> Node

  /** The parent buffer of the walk: empty at the root, otherwise the rendered prefix. */
  function ParentText(cs: seq<string>): string {
    if cs == [] then "" else Render(cs)
  }

  /** The host path the walk passes to `lstat`. */
  function HostCandidate(root: string, cs: seq<string>): string
    requires cs != []
  {
    root + ParentText(cs[..|cs| - 1]) + "/" + cs[|cs| - 1]
  }

  /** The path that replaces the walk when component k is a link. */
  function Redirected(current: seq<string>, k: nat, target: string): string
    requires k < |current|
  {
    var rest := if k + 1 == |current| then "" else "/" + Join(current[k + 1..]);
    if target != "" && target[0] == '/' then target + rest
    else (if k == 0 then "/" else Render(current[..k])) + "/" + target + rest
  }

  /** `resolve_guest_symlinks` from component k on, with the links followed so far. */
  function Walk(tree: Tree, root: string, allowMissing: bool, current: seq<string>, k: nat, links: nat)
    : Result<seq<string>>
    requires k <= |current| && links <= MAX_LINKS
    decreases MAX_LINKS - links, |current| - k
  {
    if k == |current| then Ok(current)
    else if |HostCandidate(root, current[..k + 1])| >= PATH_MAX then Err(NameTooLong)
    else
      match tree(current[..k + 1])
      case Missing => if allowMissing && k + 1 == |current| then Ok(current) else Err(NotFound)
      case Failing => Err(HostError)
      case Link(target) =>
        if links + 1 > MAX_LINKS then Err(Loop)
        else
          var combined := Redirected(current, k, target);
          if |combined| >= 2 * PATH_MAX then Err(NameTooLong)
          else
            var next := Normalize("/", combined);
            if next.Err? then next else Walk(tree, root, allowMissing, next.value, 0, links + 1)
      case Directory => Walk(tree, root, allowMissing, current, k + 1, links)
      case Other => Walk(tree, root, allowMissing, current, k + 1, links)
  }

  function ResolveLinks(tree: Tree, root: string, allowMissing: bool, cs: seq<string>): Result<seq<string>> {
    Walk(tree, root, allowMissing, cs, 0, 0)
  }

  // ----- what a resolved path is

  predicate RealNode(n: Node) {
    n.Directory? || n.Other?
  }

  /** No prefix is a link or missing, except that an allowed leaf may not exist yet. */
  ghost predicate Resolved(tree: Tree, root: string, allowMissing: bool, cs: seq<string>) {
    && Clean(cs)
    && |Render(cs)| < PATH_MAX
    && forall k :: 0 < k <= |cs| ==>
         && |HostCandidate(root, cs[..k])| < PATH_MAX
         && (RealNode(tree(cs[..k])) || (k == |cs| && allowMissing && tree(cs[..k]).Missing?))
  }

  ghost predicate WalkedTo(tree: Tree, root: string, cs: seq<string>, k: nat)
    requires k <= |cs|
  {
    forall j :: 0 < j <= k ==> |HostCandidate(root, cs[..j])| < PATH_MAX && RealNode(tree(cs[..j]))
  }

  lemma {:induction false} WalkResolves(tree: Tree, root: string, allowMissing: bool, current: seq<string>, k: nat,
                                        links: nat)
    requires k <= |current| && links <= MAX_LINKS
    requires Clean(current) && |Render(current)| < PATH_MAX && WalkedTo(tree, root, current, k)
    ensures var r := Walk(tree, root, allowMissing, current, k, links);
            r.Ok? ==> Resolved(tree, root, allowMissing, r.value)
    decreases MAX_LINKS - links, |current| - k
  {
    hide HostCandidate, Normalize, Redirected, Render;
    if k == |current| {
    } else if |HostCandidate(root, current[..k + 1])| < PATH_MAX {
      match tree(current[..k + 1])
      case Missing =>
        assert current[..k + 1][..k] == current[..k];
      case Failing =>
      case Link(target) =>
        if links + 1 <= MAX_LINKS {
          var next := Normalize("/", Redirected(current, k, target));
          NormalizedIsClean("/", Redirected(current, k, target));
          if next.Ok? {
            WalkResolves(tree, root, allowMissing, next.value, 0, links + 1);
          }
        }
      case Directory => WalkResolves(tree, root, allowMissing, current, k + 1, links);
      case Other => WalkResolves(tree, root, allowMissing, current, k + 1, links);
    }
  }

  /** If resolution succeeds, the host path runs only through real nodes below the root. */
  lemma ResolutionLeavesNoLinks(tree: Tree, root: string, allowMissing: bool, cwd: string, path: string)
    requires Normalize(cwd, path).Ok?
    ensures var r := ResolveLinks(tree, root, allowMissing, Normalize(cwd, path).value);
            r.Ok? ==> Resolved(tree, root, allowMissing, r.value)
  {
    NormalizedIsClean(cwd, path);
    WalkResolves(tree, root, allowMissing, Normalize(cwd, path).value, 0, 0);
  }

  lemma {:induction false} WalkOfResolved(tree: Tree, root: string, allowMissing: bool, cs: seq<string>, k: nat,
                                          links: nat)
    requires k <= |cs| && links <= MAX_LINKS && Resolved(tree, root, allowMissing, cs)
    ensures Walk(tree, root, allowMissing, cs, k, links) == Ok(cs)
    decreases |cs| - k
  {
    hide HostCandidate, Normalize, Redirected, Render;
    if k < |cs| {
      WalkOfResolved(tree, root, allowMissing, cs, k + 1, links);
    }
  }

  /** Resolving a resolved path on the same tree gives it back. */
  lemma ResolutionIsFixedPoint(tree: Tree, root: string, allowMissing: bool, cwd: string, path: string)
    requires Normalize(cwd, path).Ok?
    ensures var r := ResolveLinks(tree, root, allowMissing, Normalize(cwd, path).value);
            r.Ok? ==> Normalize(cwd, Render(r.value)) == r
                      && ResolveLinks(tree, root, allowMissing, r.value) == r
  {
    ResolutionLeavesNoLinks(tree, root, allowMissing, cwd, path);
    var r := ResolveLinks(tree, root, allowMissing, Normalize(cwd, path).value);
    if r.Ok? {
      WalkOfResolved(tree, root, allowMissing, r.value, 0, 0);
      ComponentsOfRender(r.value);
      FoldOfClean([], r.value);
      assert [] + r.value == r.value;
    }
  }

  // ----- which node is reached

  /** The first link on the way, if the way to it is real and every host path fits its buffer. */
  function FirstLink(tree: Tree, root: string, cs: seq<string>, k: nat): Option<nat>
    requires k <= |cs|
    decreases |cs| - k
  {
    if k == |cs| || |HostCandidate(root, cs[..k + 1])| >= PATH_MAX then None
    else if tree(cs[..k + 1]).Link? then Some(k)
    else if RealNode(tree(cs[..k + 1])) then FirstLink(tree, root, cs, k + 1)
    else None
  }

  /**
    What a link stands for: its target, taken from the root or from the link's directory, then the rest of the
    path.
   */
  function Substituted(cs: seq<string>, k: nat, target: string): seq<string>
    requires k < |cs|
  {
    Fold(if target != "" && target[0] == '/' then [] else cs[..k], Components(target) + cs[k + 1..])
  }

  /** The rewritten path fits the buffers it passes through. */
  predicate Fits(cs: seq<string>, k: nat, target: string)
    requires k < |cs|
  {
    |Redirected(cs, k, target)| < 2 * PATH_MAX && |Render(Substituted(cs, k, target))| < PATH_MAX
  }

  /** At most `budget` substitutions of the first link lead from cs to the link-free r. */
  ghost predicate LeadsTo(tree: Tree, root: string, allowMissing: bool, cs: seq<string>, r: seq<string>, budget: nat)
    decreases budget
  {
    var k := FirstLink(tree, root, cs, 0);
    if k.None? then r == cs && Resolved(tree, root, allowMissing, cs)
    else
      k.value < |cs| && tree(cs[..k.value + 1]).Link? && budget > 0
      && var target := tree(cs[..k.value + 1]).target;
         Fits(cs, k.value, target)
         && LeadsTo(tree, root, allowMissing, Substituted(cs, k.value, target), r, budget - 1)
  }

  // the rewritten text denotes the substituted components

  lemma RestComponents(cs: seq<string>, k: nat, text: string)
    requires Clean(cs) && k < |cs|
    ensures var rest := if k + 1 == |cs| then "" else "/" + Join(cs[k + 1..]);
            Components(text + rest) == Components(text) + cs[k + 1..]
  {
    hide Components, Join;
    var tail := cs[k + 1..];
    if k + 1 == |cs| {
      assert text + "" == text && tail == [];
    } else {
      ComponentsOfConcat(text, Join(tail));
      assert text + "/" + Join(tail) == text + ("/" + Join(tail));
      assert Pieces(tail);
      ComponentsOfJoin(tail);
    }
  }

  lemma DirectoryText(cs: seq<string>, k: nat)
    requires Clean(cs) && k < |cs|
    ensures Components(if k == 0 then "/" else Render(cs[..k])) == cs[..k]
  {
    hide Components, Render;
    if k == 0 {
      ComponentsAfterSlash("");
      NoComponents();
      assert "/" + "" == "/";
    } else {
      ComponentsOfRender(cs[..k]);
    }
  }

  lemma RedirectedComponents(cs: seq<string>, k: nat, target: string)
    requires Clean(cs) && k < |cs|
    ensures Fold([], Components(Redirected(cs, k, target))) == Substituted(cs, k, target)
    ensures Redirected(cs, k, target) != "" && Redirected(cs, k, target)[0] == '/'
  {
    hide Components, Join, Fold;
    var rest := if k + 1 == |cs| then "" else "/" + Join(cs[k + 1..]);
    if target != "" && target[0] == '/' {
      RestComponents(cs, k, target);
    } else {
      var directory := if k == 0 then "/" else Render(cs[..k]);
      var text := directory + "/" + target;
      RestComponents(cs, k, text);
      DirectoryText(cs, k);
      ComponentsOfConcat(directory, target);
      assert Components(text + rest) == cs[..k] + (Components(target) + cs[k + 1..]);
      FoldOfConcat([], cs[..k], Components(target) + cs[k + 1..]);
      FoldOfClean([], cs[..k]);
      assert [] + cs[..k] == cs[..k];
    }
  }

  lemma RedirectedNormalizes(cs: seq<string>, k: nat, target: string)
    requires Clean(cs) && k < |cs| && |Redirected(cs, k, target)| < 2 * PATH_MAX
    ensures Normalize("/", Redirected(cs, k, target))
         == if Fits(cs, k, target) then Ok(Substituted(cs, k, target)) else Err(NameTooLong)
  {
    hide Redirected, Substituted, Fold, Components, Render;
    RedirectedComponents(cs, k, target);
  }

  /** The walk from component k on, once everything before it is real. */
  lemma {:induction false} WalkFollowsLinks(tree: Tree, root: string, allowMissing: bool, cs: seq<string>, k: nat,
                                            links: nat, r: seq<string>)
    requires k <= |cs| && links <= MAX_LINKS && Clean(cs) && |Render(cs)| < PATH_MAX && WalkedTo(tree, root, cs, k)
    ensures Walk(tree, root, allowMissing, cs, k, links) == Ok(r)
       <==> LeadsTo(tree, root, allowMissing, cs, r, MAX_LINKS - links)
    decreases MAX_LINKS - links, |cs| - k
  {
    hide HostCandidate, Redirected, Render, Normalize, Substituted, Fits;
    FirstLinkSkips(tree, root, cs, k);
    if k == |cs| {
    } else if |HostCandidate(root, cs[..k + 1])| < PATH_MAX {
      if RealNode(tree(cs[..k + 1])) {
        WalkFollowsLinks(tree, root, allowMissing, cs, k + 1, links, r);
      } else if tree(cs[..k + 1]).Link? {
        WalkAtLink(tree, root, allowMissing, cs, k, links, r);
      } else {
        WalkStops(tree, root, allowMissing, cs, k, links, r);
      }
    }
  }

  lemma {:induction false} FirstLinkSkips(tree: Tree, root: string, cs: seq<string>, k: nat)
    requires k <= |cs| && WalkedTo(tree, root, cs, k)
    ensures FirstLink(tree, root, cs, 0) == FirstLink(tree, root, cs, k)
    decreases k
  {
    hide HostCandidate;
    if k > 0 {
      FirstLinkSkips(tree, root, cs, k - 1);
    }
  }

  /** A missing or failing node ends the walk; only an allowed leaf may be missing. */
  lemma WalkStops(tree: Tree, root: string, allowMissing: bool, cs: seq<string>, k: nat, links: nat, r: seq<string>)
    requires k < |cs| && links <= MAX_LINKS && Clean(cs) && |Render(cs)| < PATH_MAX && WalkedTo(tree, root, cs, k)
    requires tree(cs[..k + 1]).Missing? || tree(cs[..k + 1]).Failing?
    requires |HostCandidate(root, cs[..k + 1])| < PATH_MAX
    requires FirstLink(tree, root, cs, 0) == FirstLink(tree, root, cs, k)
    ensures Walk(tree, root, allowMissing, cs, k, links) == Ok(r)
       <==> LeadsTo(tree, root, allowMissing, cs, r, MAX_LINKS - links)
  {
    hide HostCandidate, Redirected, Render, Normalize, Substituted, Fits;
    assert FirstLink(tree, root, cs, 0).None?;
    if k + 1 == |cs| {
      assert cs[..k + 1] == cs;
    }
  }

  lemma {:induction false} WalkAtLink(tree: Tree, root: string, allowMissing: bool, cs: seq<string>, k: nat, links: nat,
                                      r: seq<string>)
    requires k < |cs| && links <= MAX_LINKS && Clean(cs) && |Render(cs)| < PATH_MAX
    requires tree(cs[..k + 1]).Link? && |HostCandidate(root, cs[..k + 1])| < PATH_MAX
    requires FirstLink(tree, root, cs, 0) == FirstLink(tree, root, cs, k)
    ensures Walk(tree, root, allowMissing, cs, k, links) == Ok(r)
       <==> LeadsTo(tree, root, allowMissing, cs, r, MAX_LINKS - links)
    decreases MAX_LINKS - links, |cs| - k, 0
  {
    hide HostCandidate, Redirected, Render, Normalize, Substituted, Resolved;
    var target := tree(cs[..k + 1]).target;
    if links < MAX_LINKS && |Redirected(cs, k, target)| < 2 * PATH_MAX {
      RedirectedNormalizes(cs, k, target);
      if Fits(cs, k, target) {
        NormalizedIsClean("/", Redirected(cs, k, target));
        WalkFollowsLinks(tree, root, allowMissing, Substituted(cs, k, target), 0, links + 1, r);
      }
    }
  }

  /** Resolution succeeds with r exactly when at most 40 substitutions of first links lead to the link-free r. */
  lemma ResolutionFollowsLinks(tree: Tree, root: string, allowMissing: bool, cwd: string, path: string, r: seq<string>)
    requires Normalize(cwd, path).Ok?
    ensures ResolveLinks(tree, root, allowMissing, Normalize(cwd, path).value) == Ok(r)
       <==> LeadsTo(tree, root, allowMissing, Normalize(cwd, path).value, r, MAX_LINKS)
  {
    hide Normalize, Walk, LeadsTo, Render;
    NormalizedIsClean(cwd, path);
    WalkFollowsLinks(tree, root, allowMissing, Normalize(cwd, path).value, 0, 0, r);
  }

  // ----- host paths

  const DEV_NULL: seq<string> := ["dev", "null"]

  /** `guest_path_resolve`. */
  function Resolve(tree: Tree, root: string, cwd: string, path: string, allowMissing: bool): Result<string> {
    var n := Normalize(cwd, path);
    if root == "" then Err(HostError)
    else if n.Err? then Err(n.error)
    else if n.value == DEV_NULL then Ok("/dev/null")
    else
      var r := ResolveLinks(tree, root, allowMissing, n.value);
      if r.Err? then Err(r.error)
      else if |root + Render(r.value)| >= PATH_MAX then Err(NameTooLong)
      else Ok(root + Render(r.value))
  }

  /** `guest_path_resolve_nofollow`: only the parent is resolved, the leaf is kept as written. */
  function ResolveNoFollow(tree: Tree, root: string, cwd: string, path: string): Result<string> {
    var n := Normalize(cwd, path);
    if root == "" then Err(HostError)
    else if n.Err? then Err(n.error)
    else if n.value == DEV_NULL then Ok("/dev/null")
    else if n.value == [] then (if |root| >= PATH_MAX then Err(NameTooLong) else Ok(root))
    else
      var r := ResolveLinks(tree, root, false, n.value[..|n.value| - 1]);
      if r.Err? then Err(r.error)
      else
        var host := root + Render(r.value) + (if r.value == [] then "" else "/") + n.value[|n.value| - 1];
        if |host| >= PATH_MAX then Err(NameTooLong) else Ok(host)
  }

  /** The guest directory behind a host path, when the path lies at or below the root. */
  function GuestDirectory(root: string, host: string): Result<string> {
    if !(root <= host) || (|host| > |root| && host[|root|] != '/') then Err(Denied)
    else if |host| == |root| then Ok("/")
    else Ok(host[|root|..])
  }

  /** `guest_path_resolve_at`. */
  function ResolveAt(tree: Tree, root: string, cwd: string, directory: Option<string>, path: string,
                     allowMissing: bool, noFollow: bool): Result<string> {
    if path == "" then Err(NotFound)
    else if path[0] == '/' then
      if noFollow then ResolveNoFollow(tree, root, cwd, path) else Resolve(tree, root, cwd, path, allowMissing)
    else if directory.None? || root == "" then Err(BadDescriptor)
    else
      var d := GuestDirectory(root, directory.value);
      if d.Err? then Err(d.error)
      else
        var combined := d.value + "/" + path;
        if |combined| >= 2 * PATH_MAX then Err(NameTooLong)
        else if noFollow then ResolveNoFollow(tree, root, cwd, combined)
        else Resolve(tree, root, cwd, combined, allowMissing)
  }

  /** How a directory below the root may be recorded: with its path, and the root also by itself. */
  predicate Records(host: string, root: string, d: seq<string>) {
    host == root + Render(d) || (host == root && d == [])
  }

  lemma RecordedDirectory(host: string, root: string, d: seq<string>)
    requires Records(host, root, d)
    ensures GuestDirectory(root, host) == Ok(Render(d))
  {
    if host == root + Render(d) {
      assert root <= host && host[|root|..] == Render(d) && host[|root|] == '/';
    } else {
      assert Render([]) == "/";
    }
  }

  /**
    Resolving relative to a directory descriptor is resolving the same relative path with that
    directory as the working directory, whatever the working directory really is.
   */
  lemma ResolveAtIsRelativeResolution(tree: Tree, root: string, cwd: string, host: string, d: seq<string>, path: string,
                                      allowMissing: bool, noFollow: bool)
    requires root != "" && Clean(d) && path != "" && path[0] != '/' && Records(host, root, d)
    ensures ResolveAt(tree, root, cwd, Some(host), path, allowMissing, noFollow)
         == if noFollow then ResolveNoFollow(tree, root, Render(d), path)
            else Resolve(tree, root, Render(d), path, allowMissing)
  {
    hide Normalize, ResolveLinks, Records, GuestDirectory, Render;
    RecordedDirectory(host, root, d);
    SameNormalization(d, cwd, path);
  }

  lemma SameNormalization(d: seq<string>, cwd: string, path: string)
    requires path != "" && path[0] != '/'
    ensures Render(d) + "/" + path != "" && Normalize(Render(d), path) == Normalize(cwd, Render(d) + "/" + path)
    ensures |Render(d) + "/" + path| >= 2 * PATH_MAX ==> Normalize(Render(d), path) == Err(NameTooLong)
  {
    hide Fold, Components, Join;
  }

  /** The components such a call resolves: the directory's, with the path's folded onto them. */
  lemma ResolveAtComponents(d: seq<string>, path: string)
    requires Clean(d) && path != "" && path[0] != '/' && Normalize(Render(d), path).Ok?
    ensures Normalize(Render(d), path).value == Fold(d, Components(path))
  {
    JoinedComponents(d, path);
    hide Fold, Components;
  }

  lemma {:induction false} JoinSnoc(cs: seq<string>, leaf: string)
    requires cs != []
    ensures Join(cs + [leaf]) == Join(cs) + "/" + leaf
    decreases |cs|
  {
    var more := cs + [leaf];
    assert more[0] == cs[0] && more[1..] == cs[1..] + [leaf];
    if |cs| == 1 {
      assert cs[1..] == [] && more[1..] == [leaf];
      assert Join([leaf]) == leaf;
    } else {
      JoinSnoc(cs[1..], leaf);
      assert cs[0] + "/" + (Join(cs[1..]) + "/" + leaf) == (cs[0] + "/" + Join(cs[1..])) + "/" + leaf;
    }
  }

  lemma RenderSnoc(cs: seq<string>, leaf: string)
    ensures Render(cs) + (if cs == [] then "" else "/") + leaf == Render(cs + [leaf])
  {
    if cs == [] {
      assert cs + [leaf] == [leaf];
    } else {
      JoinSnoc(cs, leaf);
      assert ("/" + Join(cs)) + "/" + leaf == "/" + (Join(cs) + "/" + leaf);
    }
  }

  /** The host path of a leaf below a resolved parent. */
  lemma LeafBelow(root: string, parent: seq<string>, leaf: string)
    ensures root + Render(parent) + (if parent == [] then "" else "/") + leaf == root + Render(parent + [leaf])
  {
    hide Render;
    RenderSnoc(parent, leaf);
    var gap := if parent == [] then "" else "/";
    assert root + Render(parent) + gap + leaf == root + (Render(parent) + gap + leaf);
  }

  lemma ParentResolves(tree: Tree, root: string, cs: seq<string>)
    requires cs != [] && Clean(cs) && |Render(cs)| < PATH_MAX
    ensures var r := ResolveLinks(tree, root, false, cs[..|cs| - 1]);
            CleanComponent(cs[|cs| - 1]) && (r.Ok? ==> Resolved(tree, root, false, r.value))
  {
    hide Render, Walk, Resolved, HostCandidate;
    var front, leaf := cs[..|cs| - 1], cs[|cs| - 1];
    assert cs == front + [leaf];
    ShorterRender(front, leaf);
    WalkResolves(tree, root, false, front, 0, 0);
  }

  /**
    Every directory a no-follow path passes through is a real node below the root; the leaf is kept as written. The
    root itself and the null device need no walk.
   */
  lemma NoFollowParentHasNoLinks(tree: Tree, root: string, cwd: string, path: string)
    requires ResolveNoFollow(tree, root, cwd, path).Ok?
    ensures Normalize(cwd, path).Ok?
    ensures var cs, host := Normalize(cwd, path).value, ResolveNoFollow(tree, root, cwd, path).value;
            if cs == DEV_NULL then host == "/dev/null"
            else if cs == [] then host == root
            else
              var parent := ResolveLinks(tree, root, false, cs[..|cs| - 1]);
              && parent.Ok? && Resolved(tree, root, false, parent.value) && CleanComponent(cs[|cs| - 1])
              && host == root + Render(parent.value + [cs[|cs| - 1]])
  {
    hide Render, Normalize, ResolveLinks, Resolved, CleanComponent;
    NormalizedIsClean(cwd, path);
    var cs := Normalize(cwd, path).value;
    if cs != [] {
      ParentResolves(tree, root, cs);
      var parent := ResolveLinks(tree, root, false, cs[..|cs| - 1]);
      if parent.Ok? {
        LeafBelow(root, parent.value, cs[|cs| - 1]);
      }
    }
  }

  lemma ShorterRender(cs: seq<string>, leaf: string)
    ensures |Render(cs)| <= |Render(cs + [leaf])|
  {
    RenderSnoc(cs, leaf);
  }

  /** The walk asks the host about exactly the root followed by the prefix walked so far. */
  lemma HostCandidateIs(root: string, cs: seq<string>)
    requires cs != []
    ensures HostCandidate(root, cs) == root + Render(cs)
  {
    hide Join;
    var front, leaf := cs[..|cs| - 1], cs[|cs| - 1];
    assert cs == front + [leaf];
    RenderSnoc(front, leaf);
    if front == [] {
      assert Render(front) == "/" by {
        NothingJoined();
      }
      assert root + "" + "/" + leaf == root + ("/" + "" + leaf);
    } else {
      assert root + Render(front) + "/" + leaf == root + (Render(front) + "/" + leaf);
    }
  }

  lemma NothingJoined()
    ensures Join([]) == ""
  {
  }

  // ----- which host path a call is given

  /** A resolution from cs that ends in r and whose host path fits. */
  ghost predicate EndsAt(tree: Tree, root: string, allowMissing: bool, cs: seq<string>, r: seq<string>) {
    LeadsTo(tree, root, allowMissing, cs, r, MAX_LINKS) && |root + Render(r)| < PATH_MAX
  }

  /**
    A path resolves to a host path exactly when it normalises and either names the null device or leads, over at most
    40 links, to a link-free path; the host path is then the root followed by that path, so it lies below the root.
   */
  lemma ResolveReaches(tree: Tree, root: string, cwd: string, path: string, allowMissing: bool, host: string)
    requires root != ""
    ensures Resolve(tree, root, cwd, path, allowMissing) == Ok(host)
       <==> && Normalize(cwd, path).Ok?
            && var cs := Normalize(cwd, path).value;
               if cs == ["dev", "null"] then host == "/dev/null"
               else exists r :: EndsAt(tree, root, allowMissing, cs, r) && host == root + Render(r)
    ensures Resolve(tree, root, cwd, path, allowMissing) == Ok(host) && host != "/dev/null" ==>
              root <= host && |host| > |root| && host[|root|] == '/'
  {
    hide Normalize, Walk, LeadsTo, Render;
    if Normalize(cwd, path).Ok? {
      var cs := Normalize(cwd, path).value;
      forall r ensures ResolveLinks(tree, root, allowMissing, cs) == Ok(r) <==>
                       LeadsTo(tree, root, allowMissing, cs, r, MAX_LINKS) {
        ResolutionFollowsLinks(tree, root, allowMissing, cwd, path, r);
      }
      var r := ResolveLinks(tree, root, allowMissing, cs);
      if r.Ok? && |root + Render(r.value)| < PATH_MAX {
        assert EndsAt(tree, root, allowMissing, cs, r.value);
        BelowRoot(root, r.value);
      }
    }
  }

  lemma BelowRoot(root: string, cs: seq<string>)
    ensures var host := root + Render(cs); root <= host && |host| > |root| && host[|root|] == '/'
  {
    hide Join;
  }

  /** The parent leads to r, and the last name below r has this host path, which fits. */
  ghost predicate LeafEndsAt(tree: Tree, root: string, cs: seq<string>, r: seq<string>, host: string)
    requires cs != []
  {
    && LeadsTo(tree, root, false, cs[..|cs| - 1], r, MAX_LINKS)
    && host == root + Render(r + [cs[|cs| - 1]]) && |host| < PATH_MAX
  }

  lemma ParentReaches(tree: Tree, root: string, cs: seq<string>, r: seq<string>)
    requires cs != [] && Clean(cs) && |Render(cs)| < PATH_MAX
    ensures ResolveLinks(tree, root, false, cs[..|cs| - 1]) == Ok(r)
       <==> LeadsTo(tree, root, false, cs[..|cs| - 1], r, MAX_LINKS)
  {
    hide Walk, LeadsTo, Render;
    var front, leaf := cs[..|cs| - 1], cs[|cs| - 1];
    assert cs == front + [leaf];
    ShorterRender(front, leaf);
    WalkFollowsLinks(tree, root, false, front, 0, 0, r);
  }

  /**
    The same without following the last component: the parent leads to a link-free directory, and the last name is
    kept as it was written.
   */
  lemma NoFollowReaches(tree: Tree, root: string, cwd: string, path: string, host: string)
    requires root != ""
    ensures ResolveNoFollow(tree, root, cwd, path) == Ok(host)
       <==> && Normalize(cwd, path).Ok?
            && var cs := Normalize(cwd, path).value;
               if cs == ["dev", "null"] then host == "/dev/null"
               else if cs == [] then host == root && |root| < PATH_MAX
               else exists r :: LeafEndsAt(tree, root, cs, r, host)
  {
    hide Normalize, ResolveLinks, LeadsTo, Render;
    if Normalize(cwd, path).Ok? && Normalize(cwd, path).value != [] {
      NormalizedIsClean(cwd, path);
      var cs := Normalize(cwd, path).value;
      var front, leaf := cs[..|cs| - 1], cs[|cs| - 1];
      var p := ResolveLinks(tree, root, false, front);
      if p.Ok? {
        ParentReaches(tree, root, cs, p.value);
        LeafBelow(root, p.value, leaf);
        assert ResolveNoFollow(tree, root, cwd, path) == Ok(host) && cs != DEV_NULL ==>
                 LeafEndsAt(tree, root, cs, p.value, host);
      }
      if r :| LeafEndsAt(tree, root, cs, r, host) {
        ParentReaches(tree, root, cs, r);
      }
    }
  }

  /** A descriptor's path is taken for a guest directory exactly when it is the root or lies below it. */
  lemma GuestDirectoryIff(root: string, host: string)
    ensures GuestDirectory(root, host).Ok? <==> host == root || root + "/" <= host
    ensures root + "/" <= host ==> GuestDirectory(root, host) == Ok(host[|root|..])
    ensures host == root ==> GuestDirectory(root, host) == Ok("/")
  {
    if root + "/" <= host {
      assert host[..|root|] == (root + "/")[..|root|] == root;
      assert host[|root|] == (root + "/")[|root|];
    }
    if root <= host && |host| > |root| && host[|root|] == '/' {
      assert host[..|root| + 1] == root + "/";
    }
  }
}
