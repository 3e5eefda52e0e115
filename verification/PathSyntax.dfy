/** Lexical path normalisation (src/guest_path.c) on strings and their components. */
module PathSyntax {
  import opened Words

  /** PATH_MAX of the host. */
  const PATH_MAX: nat := 1024

  datatype Error = NotFound | NameTooLong | Loop | HostError | BadDescriptor | Denied | NotDirectory

  datatype Result<+T> = Ok(value: T) | Err(error: Error)

  // ----- components

  function SkipSlashes(s: string): (r: string)
    ensures |r| <= |s| && (r != "" ==> r[0] != '/')
  {
    if s != "" && s[0] == '/' then SkipSlashes(s[1..]) else s
  }

  /** The characters before the next slash. */
  function Leading(s: string): (r: string)
    ensures |r| <= |s| && r == s[..|r|] && '/' !in r
    ensures |r| < |s| ==> s[|r|] == '/'
  {
    if s == "" || s[0] == '/' then "" else [s[0]] + Leading(s[1..])
  }

  /** The non-empty pieces between slashes. */
  function Components(s: string): seq<string>
    decreases |s|
  {
    var t := SkipSlashes(s);
    if t == "" then [] else [Leading(t)] + Components(t[|Leading(t)|..])
  }

  /** One component against the component stack; `..` at the root stays at the root. */
  function Apply(stack: seq<string>, c: string): seq<string> {
    if c == "." then stack
    else if c == ".." then (if stack == [] then [] else stack[..|stack| - 1])
    else stack + [c]
  }

  function Fold(stack: seq<string>, cs: seq<string>): seq<string>
    decreases |cs|
  {
    if cs == [] then stack else Fold(Apply(stack, cs[0]), cs[1..])
  }

  function Join(cs: seq<string>): string {
    if cs == [] then "" else if |cs| == 1 then cs[0] else cs[0] + "/" + Join(cs[1..])
  }

  /** The absolute path with these components. */
  function Render(cs: seq<string>): (r: string)
    ensures r != "" && r[0] == '/'
  {
    "/" + Join(cs)
  }

  predicate CleanComponent(c: string) {
    c != "" && c != "." && c != ".." && '/' !in c
  }

  predicate Clean(cs: seq<string>) {
    forall i :: 0 <= i < |cs| ==> CleanComponent(cs[i])
  }

  predicate Pieces(cs: seq<string>) {
    forall i :: 0 <= i < |cs| ==> cs[i] != "" && '/' !in cs[i]
  }

  /** The text `path` stands for, before it is normalised. */
  function Combined(cwd: string, path: string): string
    requires path != ""
  {
    if path[0] == '/' then path else cwd + "/" + path
  }

  /** `normalize_guest_path` on values: an absolute or cwd-relative path to its components. */
  function Normalize(cwd: string, path: string): Result<seq<string>> {
    if path == "" then Err(NotFound)
    else
      var combined := Combined(cwd, path);
      if |combined| >= 2 * PATH_MAX then Err(NameTooLong)
      else
        var cs := Fold([], Components(combined));
        if |Render(cs)| >= PATH_MAX then Err(NameTooLong) else Ok(cs)
  }

  // ----- laws

  lemma {:induction false} ComponentsArePieces(s: string)
    ensures Pieces(Components(s))
    decreases |s|
  {
    var t := SkipSlashes(s);
    if t != "" {
      ComponentsArePieces(t[|Leading(t)|..]);
    }
  }

  lemma {:induction false} FoldIsClean(stack: seq<string>, cs: seq<string>)
    requires Clean(stack) && Pieces(cs)
    ensures Clean(Fold(stack, cs))
    decreases |cs|
  {
    if cs != [] {
      FoldIsClean(Apply(stack, cs[0]), cs[1..]);
    }
  }

  /** Normalisation yields only proper names: no empty, `.` or `..` component, whatever the input. */
  lemma NormalizedIsClean(cwd: string, path: string)
    ensures Normalize(cwd, path).Ok? ==>
              Clean(Normalize(cwd, path).value) && |Render(Normalize(cwd, path).value)| < PATH_MAX
  {
    if path != "" {
      var combined := if path[0] == '/' then path else cwd + "/" + path;
      ComponentsArePieces(combined);
      FoldIsClean([], Components(combined));
    }
  }

  lemma {:induction false} FoldOfClean(stack: seq<string>, cs: seq<string>)
    requires Clean(cs)
    ensures Fold(stack, cs) == stack + cs
    decreases |cs|
  {
    if cs != [] {
      FoldOfClean(Apply(stack, cs[0]), cs[1..]);
      assert stack + [cs[0]] + cs[1..] == stack + cs;
    }
  }

  lemma {:induction false} LeadingOf(c: string, rest: string)
    requires '/' !in c && (rest == "" || rest[0] == '/')
    ensures Leading(c + rest) == c
  {
    if c == "" {
      assert c + rest == rest;
    } else {
      LeadingOf(c[1..], rest);
      assert (c + rest)[1..] == c[1..] + rest;
    }
  }

  /** A proper name followed by the rest of a path splits off as one component. */
  lemma ComponentsOfName(c: string, rest: string)
    requires c != "" && '/' !in c && (rest == "" || rest[0] == '/')
    ensures Components(c + rest) == [c] + Components(rest)
  {
    LeadingOf(c, rest);
    assert (c + rest)[0] == c[0];
    assert SkipSlashes(c + rest) == c + rest;
    assert (c + rest)[|c|..] == rest;
  }

  lemma ComponentsAfterSlash(s: string)
    ensures Components("/" + s) == Components(s)
  {
    assert ("/" + s)[1..] == s;
    assert SkipSlashes("/" + s) == SkipSlashes(s);
  }

  lemma {:induction false} ComponentsOfJoin(cs: seq<string>)
    requires Pieces(cs)
    ensures Components(Join(cs)) == cs
  {
    if |cs| == 1 {
      ComponentsOfName(cs[0], "");
      assert cs[0] + "" == cs[0] && Components("") == [];
      assert cs == [cs[0]];
    } else if |cs| > 1 {
      ComponentsOfJoin(cs[1..]);
      ComponentsOfName(cs[0], "/" + Join(cs[1..]));
      ComponentsAfterSlash(Join(cs[1..]));
      assert cs[0] + "/" + Join(cs[1..]) == cs[0] + ("/" + Join(cs[1..]));
    }
  }

  /** Splitting a rendered path gives its components back. */
  lemma ComponentsOfRender(cs: seq<string>)
    requires Pieces(cs)
    ensures Components(Render(cs)) == cs
  {
    ComponentsOfJoin(cs);
    ComponentsAfterSlash(Join(cs));
  }

  /** Normalising a normalised path changes nothing. */
  lemma NormalizeIsIdempotent(cwd: string, path: string, other: string)
    ensures Normalize(cwd, path).Ok? ==>
              Normalize(other, Render(Normalize(cwd, path).value)) == Normalize(cwd, path)
  {
    if Normalize(cwd, path).Ok? {
      var cs := Normalize(cwd, path).value;
      NormalizedIsClean(cwd, path);
      ComponentsOfRender(cs);
      FoldOfClean([], cs);
      assert [] + cs == cs;
      hide Components, Fold;
    }
  }

  lemma NoComponents()
    ensures Components("") == []
  {
  }

  lemma LeadingIsNonEmpty(s: string)
    requires s != "" && s[0] != '/'
    ensures Leading(s) != ""
  {
  }

  lemma {:induction false} ComponentsOfConcat(a: string, b: string)
    ensures Components(a + "/" + b) == Components(a) + Components(b)
    decreases |a|
  {
    NoComponents();
    hide Components, Leading;
    if a == "" {
      assert a + "/" + b == "/" + b;
      ComponentsAfterSlash(b);
    } else if a[0] == '/' {
      ComponentsOfConcat(a[1..], b);
      ComponentsAfterSlash(a[1..]);
      ComponentsAfterSlash(a[1..] + "/" + b);
      assert "/" + a[1..] == a;
      assert "/" + (a[1..] + "/" + b) == a + "/" + b;
    } else {
      LeadingIsNonEmpty(a);
      var c := Leading(a);
      var rest := a[|c|..];
      assert a == c + rest;
      ComponentsOfName(c, rest);
      ComponentsOfConcat(rest, b);
      assert rest + "/" + b != "" && (rest + "/" + b)[0] == '/';
      ComponentsOfName(c, rest + "/" + b);
      assert c + (rest + "/" + b) == a + "/" + b;
      assert [c] + (Components(rest) + Components(b)) == ([c] + Components(rest)) + Components(b);
    }
  }

  lemma {:induction false} FoldOfConcat(stack: seq<string>, a: seq<string>, b: seq<string>)
    ensures Fold(stack, a + b) == Fold(Fold(stack, a), b)
    decreases |a|
  {
    if a == [] {
      assert a + b == b;
    } else {
      assert (a + b)[1..] == a[1..] + b;
      FoldOfConcat(Apply(stack, a[0]), a[1..], b);
    }
  }

  // ----- what `.` and `..` mean

  /** A name and the `..` behind it cancel, `..` at the root and `.` anywhere say nothing. */
  lemma DotsCancel(stack: seq<string>, c: string, rest: seq<string>)
    requires CleanComponent(c)
    ensures Fold(stack, [c, ".."] + rest) == Fold(stack, rest)
    ensures Fold([], [".."] + rest) == Fold([], rest)
    ensures Fold(stack, ["."] + rest) == Fold(stack, rest)
  {
    FoldFirst(stack, c, [".."] + rest);
    assert [c] + ([".."] + rest) == [c, ".."] + rest;
    FoldFirst(stack + [c], "..", rest);
    assert (stack + [c])[..|stack|] == stack;
    FoldFirst([], "..", rest);
    FoldFirst(stack, ".", rest);
  }

  lemma FoldFirst(stack: seq<string>, c: string, rest: seq<string>)
    ensures Fold(stack, [c] + rest) == Fold(Apply(stack, c), rest)
  {
    assert ([c] + rest)[1..] == rest;
  }

  lemma {:induction false} FoldCancels(stack: seq<string>, before: seq<string>, c: string, after: seq<string>)
    requires CleanComponent(c)
    ensures Fold(stack, before + [c, ".."] + after) == Fold(stack, before + after)
    ensures Fold(stack, before + ["."] + after) == Fold(stack, before + after)
  {
    hide Fold;
    FoldOfConcat(stack, before, [c, ".."] + after);
    FoldOfConcat(stack, before, ["."] + after);
    FoldOfConcat(stack, before, after);
    DotsCancel(Fold(stack, before), c, after);
    assert before + ([c, ".."] + after) == before + [c, ".."] + after;
    assert before + (["."] + after) == before + ["."] + after;
  }

  lemma TwoComponents(c: string)
    requires c != "" && '/' !in c
    ensures Components(c + "/..") == [c, ".."] && Components(".") == ["."]
  {
    hide Components;
    NoComponents();
    ComponentsOfName(c, "/..");
    ComponentsAfterSlash("..");
    ComponentsOfName("..", "");
    ComponentsOfName(".", "");
    assert ".." + "" == ".." && "." + "" == "." && "/" + ".." == "/..";
  }

  lemma SpellingComponents(a: string, middle: string, b: string)
    ensures Components(a + "/" + middle + "/" + b) == Components(a) + Components(middle) + Components(b)
  {
    hide Components;
    ComponentsOfConcat(a + "/" + middle, b);
    ComponentsOfConcat(a, middle);
  }

  lemma SameFold(a: string, c: string, b: string)
    requires CleanComponent(c)
    ensures Fold([], Components(a + "/" + (c + "/..") + "/" + b)) == Fold([], Components(a + "/" + b))
    ensures Fold([], Components(a + "/" + "." + "/" + b)) == Fold([], Components(a + "/" + b))
  {
    hide Components, Fold;
    TwoComponents(c);
    SpellingComponents(a, c + "/..", b);
    SpellingComponents(a, ".", b);
    ComponentsOfConcat(a, b);
    FoldCancels([], Components(a), c, Components(b));
  }

  /** Where the part of a path before its last slash leads from. */
  function Head(cwd: string, p: string): string {
    if p == "" || p[0] == '/' then p else cwd + "/" + p
  }

  lemma CombinedAt(cwd: string, p: string, rest: string)
    ensures p + "/" + rest != "" && Combined(cwd, p + "/" + rest) == Head(cwd, p) + "/" + rest
  {
    if p == "" {
      assert (p + "/" + rest)[0] == '/';
    } else {
      assert (p + "/" + rest)[0] == p[0];
      assert cwd + "/" + (p + "/" + rest) == (cwd + "/" + p) + "/" + rest;
    }
  }

  lemma SameNormal(cwd: string, a: string, b: string)
    requires a != "" && b != "" && |Combined(cwd, a)| <= |Combined(cwd, b)| < 2 * PATH_MAX
    requires Fold([], Components(Combined(cwd, a))) == Fold([], Components(Combined(cwd, b)))
    ensures Normalize(cwd, a) == Normalize(cwd, b)
  {
    hide Components, Fold, Combined, Render;
  }

  lemma Spelled(head: string, middle: string, q: string)
    ensures head + "/" + (middle + "/" + q) == head + "/" + middle + "/" + q
  {
  }

  /**
    In the text of a path a proper name followed by `..` can be left out, and so can `.`: as long as the longer
    spelling fits the buffer, both spellings normalise alike.
   */
  lemma NormalizeCancels(cwd: string, p: string, c: string, q: string)
    requires CleanComponent(c)
    ensures |Combined(cwd, p + "/" + c + "/../" + q)| < 2 * PATH_MAX ==>
              Normalize(cwd, p + "/" + c + "/../" + q) == Normalize(cwd, p + "/" + q)
    ensures |Combined(cwd, p + "/./" + q)| < 2 * PATH_MAX ==>
              Normalize(cwd, p + "/./" + q) == Normalize(cwd, p + "/" + q)
  {
    hide Components, Fold, Render, Combined, Normalize, Head;
    var head := Head(cwd, p);
    SameFold(head, c, q);
    CombinedAt(cwd, p, q);
    var up, here := (c + "/..") + "/" + q, "." + "/" + q;
    Spelled(head, c + "/..", q);
    Spelled(head, ".", q);
    assert p + "/" + c + "/../" + q == p + "/" + up;
    CombinedAt(cwd, p, up);
    if |Combined(cwd, p + "/" + up)| < 2 * PATH_MAX {
      SameNormal(cwd, p + "/" + q, p + "/" + up);
    }
    assert p + "/./" + q == p + "/" + here;
    CombinedAt(cwd, p, here);
    if |Combined(cwd, p + "/" + here)| < 2 * PATH_MAX {
      SameNormal(cwd, p + "/" + q, p + "/" + here);
    }
  }

  /** Joining a normalised directory and a path folds the path's components onto the directory's. */
  lemma JoinedComponents(d: seq<string>, path: string)
    requires Clean(d)
    ensures Fold([], Components(Render(d) + "/" + path)) == Fold(d, Components(path))
  {
    ComponentsOfConcat(Render(d), path);
    ComponentsOfRender(d);
    FoldOfConcat([], d, Components(path));
    FoldOfClean([], d);
    assert [] + d == d;
  }

  // ----- how many components are held at once

  /** The largest number of components on the stack while a path is folded. */
  function Peak(stack: seq<string>, cs: seq<string>): nat
    decreases |cs|
  {
    if cs == [] then |stack|
    else
      var rest := Peak(Apply(stack, cs[0]), cs[1..]);
      if |stack| > rest then |stack| else rest
  }

  lemma {:induction false} PeakIsBounded(stack: seq<string>, cs: seq<string>)
    ensures |stack| <= Peak(stack, cs) <= |stack| + |cs|
    decreases |cs|
  {
    if cs != [] {
      PeakIsBounded(Apply(stack, cs[0]), cs[1..]);
    }
  }

  /** Every component takes a character and, but for the last, a separator. */
  lemma {:induction false} ComponentsTakeRoom(s: string)
    ensures 2 * |Components(s)| <= |s| + 1
    ensures s != "" && s[0] == '/' ==> 2 * |Components(s)| <= |s|
    decreases |s|
  {
    if s != "" && s[0] == '/' {
      ComponentsAfterSlash(s[1..]);
      assert s == "/" + s[1..];
      ComponentsTakeRoom(s[1..]);
    } else if s != "" {
      var c := Leading(s);
      LeadingIsNonEmpty(s);
      ComponentsTakeRoom(s[|c|..]);
    }
  }

  /** A path no longer than one PATH_MAX never needs more than PATH_MAX / 2 slots. */
  lemma ShortPathsFit(combined: string)
    requires combined != "" && combined[0] == '/' && |combined| <= PATH_MAX + 1
    ensures Peak([], Components(combined)) <= PATH_MAX / 2
  {
    hide Components, Peak;
    ComponentsTakeRoom(combined);
    PeakIsBounded([], Components(combined));
  }

  /** The path "/a/a/.../a" with n names. */
  function Names(n: nat): string {
    if n == 0 then "" else Names(n - 1) + "/a"
  }

  lemma {:induction false} NamesAreComponents(n: nat)
    ensures |Names(n)| == 2 * n && Components(Names(n)) == seq(n, _ => "a")
  {
    if n == 0 {
      NoComponents();
    } else {
      NamesAreComponents(n - 1);
      ComponentsOfConcat(Names(n - 1), "a");
      assert Names(n - 1) + "/" + "a" == Names(n - 1) + "/a";
      OneComponent();
      assert seq(n - 1, _ => "a") + ["a"] == seq(n, _ => "a");
    }
  }

  lemma OneComponent()
    ensures Components("a") == ["a"]
  {
    assert Leading("a") == "a" by {
      assert Leading("") == "";
    }
    assert "a"[1..] == "";
    NoComponents();
  }

  lemma {:induction false} PeakOfNames(stack: seq<string>, n: nat)
    ensures Peak(stack, seq(n, _ => "a")) == |stack| + n
    decreases n
  {
    var cs := seq(n, _ => "a");
    if n > 0 {
      assert cs[1..] == seq(n - 1, _ => "a");
      PeakOfNames(stack + ["a"], n - 1);
    }
  }

  /** An accepted path of 513 one-letter names needs a slot more than the source's array has. */
  lemma LongPathOverrunsSlots()
    ensures var path := Names(PATH_MAX / 2 + 1);
            && |path| < 2 * PATH_MAX && path != "" && path[0] == '/'
            && Peak([], Components(path)) == PATH_MAX / 2 + 1
  {
    NamesAreComponents(PATH_MAX / 2 + 1);
    PeakOfNames([], PATH_MAX / 2 + 1);
    NamesBegin(PATH_MAX / 2 + 1);
  }

  lemma {:induction false} NamesBegin(n: nat)
    requires n > 0
    ensures Names(n) != "" && Names(n)[0] == '/'
  {
    if n > 1 {
      NamesBegin(n - 1);
    }
  }
}
