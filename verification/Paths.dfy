/**
  Path resolution for EFI_FILE_PROTOCOL.Open. Paths are normalised by running the components of the
  requested name over a stack of directory names.
 */
module Paths {

  predicate IsSep(c: char) { c == '/' || c == '\\' }

  /** Backslashes become forward slashes. */
  function ToSlashes(s: string): (r: string)
    ensures |r| == |s|
    ensures forall i :: 0 <= i < |s| ==> r[i] == if s[i] == '\\' then '/' else s[i]
  {
    seq(|s|, i requires 0 <= i < |s| => if s[i] == '\\' then '/' else s[i])
  }

  /** The pieces of `s` between slashes; n slashes give n + 1 pieces. */
  function Split(s: string): (r: seq<string>)
    ensures |r| >= 1
  {
    if s == "" then [""]
    else
      var rest := Split(s[1..]);
      if s[0] == '/' then [""] + rest else [[s[0]] + rest[0]] + rest[1..]
  }

  function Join(parts: seq<string>): string
  {
    if parts == [] then ""
    else if |parts| == 1 then parts[0]
    else parts[0] + "/" + Join(parts[1..])
  }

  /** One component of the requested name acts on the stack. */
  function Push(stack: seq<string>, p: string): seq<string>
  {
    if p == "" || p == "." then stack
    else if p == ".." then (if stack == [] then [] else stack[..|stack| - 1])
    else stack + [p]
  }

  function Walk(stack: seq<string>, parts: seq<string>): seq<string>
    decreases |parts|
  {
    if parts == [] then stack else Walk(Push(stack, parts[0]), parts[1..])
  }

  function NonEmpty(parts: seq<string>): seq<string>
  {
    if parts == [] then []
    else (if parts[0] == "" then [] else [parts[0]]) + NonEmpty(parts[1..])
  }

  /** The directory names of an absolute path. */
  function Components(path: string): seq<string>
  {
    NonEmpty(Split(if path != "" && path[0] == '/' then path[1..] else path))
  }

  function Render(stack: seq<string>): string
  {
    if stack == [] then "/" else "/" + Join(stack)
  }

  predicate Rooted(name: string) { name != "" && IsSep(name[0]) }

  /** Where the walk of `name` starts: at the root, or in the current directory. */
  function Seed(cur: string, name: string): seq<string>
  {
    if Rooted(name) then [] else Components(cur)
  }

  function JoinPath(cur: string, name: string): string
  {
    Render(Walk(Seed(cur, name), Split(ToSlashes(name))))
  }

  /** A directory name that means itself. */
  predicate CleanName(p: string) { p != "" && p != "." && p != ".." && '/' !in p && '\\' !in p }

  predicate Clean(stack: seq<string>) { forall i :: 0 <= i < |stack| ==> CleanName(stack[i]) }

  /** Absolute, with no empty, "." or ".." component, no backslash and no trailing slash. */
  predicate Normal(path: string)
  {
    Clean(Components(path)) && path == Render(Components(path))
  }

  // --- Split and Join ---

  lemma {:induction false} SplitPieces(s: string)
    ensures forall i :: 0 <= i < |Split(s)| ==> '/' !in Split(s)[i]
    ensures '\\' !in s ==> forall i :: 0 <= i < |Split(s)| ==> '\\' !in Split(s)[i]
  {
    if s != "" { SplitPieces(s[1..]); }
  }

  lemma {:induction false} SplitNoSlash(s: string)
    requires '/' !in s
    ensures Split(s) == [s]
  {
    if s != "" {
      SplitNoSlash(s[1..]);
      assert [s[0]] + s[1..] == s;
    }
  }

  lemma {:induction false} SplitAtSlash(a: string, b: string)
    ensures Split(a + "/" + b) == Split(a) + Split(b)
  {
    var s := a + "/" + b;
    if a == "" {
      assert s[1..] == b;
    } else {
      assert s[1..] == a[1..] + "/" + b;
      SplitAtSlash(a[1..], b);
    }
  }

  lemma {:induction false} SplitJoin(parts: seq<string>)
    requires parts != []
    requires forall i :: 0 <= i < |parts| ==> '/' !in parts[i]
    ensures Split(Join(parts)) == parts
  {
    SplitNoSlash(parts[0]);
    if |parts| > 1 {
      SplitJoin(parts[1..]);
      SplitAtSlash(parts[0], Join(parts[1..]));
    }
  }

  lemma {:induction false} NonEmptyClean(parts: seq<string>)
    requires Clean(parts)
    ensures NonEmpty(parts) == parts
  {
    if parts != [] {
      NonEmptyClean(parts[1..]);
      assert [parts[0]] + parts[1..] == parts;
    }
  }

  lemma ComponentsRender(stack: seq<string>)
    requires Clean(stack)
    ensures Components(Render(stack)) == stack
  {
    if stack == [] {
      assert "/"[1..] == "";
      assert NonEmpty([""]) == [] + NonEmpty([""][1..]) == [];
    } else {
      assert ("/" + Join(stack))[1..] == Join(stack);
      SplitJoin(stack);
      NonEmptyClean(stack);
    }
  }

  // --- The walk ---

  lemma {:induction false} WalkAppend(stack: seq<string>, a: seq<string>, b: seq<string>)
    ensures Walk(stack, a + b) == Walk(Walk(stack, a), b)
    decreases |a|
  {
    if a == [] {
      assert a + b == b;
    } else {
      assert (a + b)[1..] == a[1..] + b;
      WalkAppend(Push(stack, a[0]), a[1..], b);
    }
  }

  lemma {:induction false} WalkClean(stack: seq<string>, parts: seq<string>)
    requires Clean(stack)
    requires forall i :: 0 <= i < |parts| ==> '/' !in parts[i] && '\\' !in parts[i]
    ensures Clean(Walk(stack, parts))
    decreases |parts|
  {
    if parts != [] { WalkClean(Push(stack, parts[0]), parts[1..]); }
  }

  // --- What resolution guarantees ---

  /** No name, however many ".." it holds, resolves to anything but a normal path of the volume. */
  lemma JoinPathNormal(cur: string, name: string)
    requires Normal(cur)
    ensures Normal(JoinPath(cur, name))
    ensures Components(JoinPath(cur, name)) == Walk(Seed(cur, name), Split(ToSlashes(name)))
  {
    SplitPieces(ToSlashes(name));
    WalkClean(Seed(cur, name), Split(ToSlashes(name)));
    ComponentsRender(Walk(Seed(cur, name), Split(ToSlashes(name))));
  }

  lemma WalkCompose(seed: seq<string>, a: string, b: string)
    ensures Walk(seed, Split(ToSlashes(a + "\\" + b))) == Walk(Walk(seed, Split(ToSlashes(a))), Split(ToSlashes(b)))
  {
    assert ToSlashes(a + "\\" + b) == ToSlashes(a) + "/" + ToSlashes(b);
    SplitAtSlash(ToSlashes(a), ToSlashes(b));
    WalkAppend(seed, Split(ToSlashes(a)), Split(ToSlashes(b)));
  }

  /** Resolving in two steps names the same file as resolving in one; a rooted second step starts over. */
  lemma JoinPathCompose(cur: string, a: string, b: string)
    requires Normal(cur)
    requires a != ""
    ensures JoinPath(JoinPath(cur, a), b) == if Rooted(b) then JoinPath("/", b) else JoinPath(cur, a + "\\" + b)
  {
    JoinPathNormal(cur, a);
    WalkCompose(Seed(cur, a), a, b);
    assert Rooted(a + "\\" + b) == Rooted(a);
  }

  /** One component: descend, stay, or go up (the root is its own parent). */
  lemma JoinPathOne(cur: string, name: string)
    requires Normal(cur)
    requires '/' !in name && '\\' !in name
    ensures var up := Components(cur);
            JoinPath(cur, name) ==
              if name == "" || name == "." then cur
              else if name == ".." then Render(if up == [] then [] else up[..|up| - 1])
              else Render(up + [name])
  {
    assert ToSlashes(name) == name;
    SplitNoSlash(name);
    assert [name][1..] == [];
    assert Walk(Components(cur), [name]) == Push(Components(cur), name);
  }

  lemma {:induction false} JoinNoBackslash(parts: seq<string>)
    requires Clean(parts)
    ensures '\\' !in Join(parts)
  {
    if |parts| > 1 { JoinNoBackslash(parts[1..]); }
  }

  lemma SlashedAlready(path: string)
    requires '\\' !in path
    ensures ToSlashes(path) == path
  {
  }

  lemma WalkNothing()
    ensures Walk([], [""]) == []
  {
    assert Walk([], [""]) == Walk(Push([], ""), [""][1..]);
  }

  /** Walking the pieces of "/" followed by clean names pushes exactly those names. */
  lemma WalkRendered(cs: seq<string>)
    requires Clean(cs)
    ensures Walk([], Split(Render(cs))) == cs
  {
    hide Split, Join, NonEmpty, Walk;
    var body := if cs == [] then "" else Join(cs);
    assert Render(cs) == "" + "/" + body;
    SplitAtSlash("", body);
    SplitNoSlash("");
    WalkAppend([], [""], Split(body));
    WalkNothing();
    if cs != [] {
      SplitJoin(cs);
      WalkOfClean([], cs);
      assert [] + cs == cs;
    }
  }

  lemma SplitNormal(path: string)
    requires Normal(path)
    ensures ToSlashes(path) == path && Rooted(path)
    ensures Walk([], Split(path)) == Components(path)
  {
    hide Split, Join, NonEmpty, Walk, Components;
    var cs := Components(path);
    JoinNoBackslash(cs);
    SlashedAlready(path);
    WalkRendered(cs);
  }

  /** A resolved path resolves to itself, from anywhere. */
  lemma JoinPathIdempotent(cur: string, path: string)
    requires Normal(path)
    ensures JoinPath(cur, path) == path
  {
    SplitNormal(path);
  }

  lemma {:induction false} WalkOfClean(stack: seq<string>, parts: seq<string>)
    requires Clean(parts)
    ensures Walk(stack, parts) == stack + parts
    decreases |parts|
  {
    if parts != [] {
      WalkOfClean(stack + [parts[0]], parts[1..]);
      assert stack + [parts[0]] + parts[1..] == stack + parts;
    }
  }

  // --- What resolution looks like in characters ---

  /** A name that begins with either separator is resolved from the root of the volume. */
  lemma LeadingSeparator(cur: string, name: string)
    requires name != "" && (name[0] == '/' || name[0] == '\\')
    ensures JoinPath(cur, name) == JoinPath("/", name)
  {
  }

  /** The same characters, up to which of the two separators is used. */
  predicate SameButSeparators(a: string, b: string)
  {
    |a| == |b| && forall i :: 0 <= i < |a| ==>
      a[i] == b[i] || ((a[i] == '/' || a[i] == '\\') && (b[i] == '/' || b[i] == '\\'))
  }

  lemma SeparatorsAlike(cur: string, a: string, b: string)
    requires SameButSeparators(a, b)
    ensures JoinPath(cur, a) == JoinPath(cur, b)
  {
    assert ToSlashes(a) == ToSlashes(b);
    assert a != "" ==> (Rooted(a) <==> ToSlashes(a)[0] == '/');
    assert b != "" ==> (Rooted(b) <==> ToSlashes(b)[0] == '/');
  }

  lemma {:induction false} JoinSnoc(stack: seq<string>, name: string)
    ensures Join(stack + [name]) == if stack == [] then name else Join(stack) + "/" + name
  {
    if |stack| > 0 {
      assert (stack + [name])[1..] == stack[1..] + [name];
      JoinSnoc(stack[1..], name);
      if |stack| == 1 { assert stack[1..] == []; }
    }
  }

  /** Descending appends a slash and the name; ".." takes them off again, and stays at the root. */
  lemma DescendAndBack(cur: string, name: string)
    requires Normal(cur) && CleanName(name)
    ensures JoinPath(cur, name) == (if cur == "/" then "" else cur) + "/" + name
    ensures JoinPath(JoinPath(cur, name), "..") == cur && JoinPath("/", "..") == "/"
  {
    hide JoinPath, Components, Render, Walk, Split;
    var up := Components(cur);
    JoinPathOne(cur, name);
    RenderSnoc(up, name);
    ComponentsRender(up + [name]);
    JoinPathNormal(cur, name);
    JoinPathOne(JoinPath(cur, name), "..");
    assert (up + [name])[..|up|] == up;
    RootIsNormal();
    JoinPathOne("/", "..");
  }

  lemma RootIsNormal()
    ensures Normal("/") && Components("/") == [] && Render([]) == "/"
  {
    ComponentsRender([]);
  }

  lemma RenderSnoc(stack: seq<string>, name: string)
    requires Clean(stack)
    ensures Render(stack + [name]) == (if Render(stack) == "/" then "" else Render(stack)) + "/" + name
  {
    hide Join, Tight;
    JoinSnoc(stack, name);
    if stack != [] {
      var j := Join(stack);
      assert j != "" by { JoinNotEmpty(stack); }
      assert |"/" + j| > 1;
      assert "/" + (j + "/" + name) == ("/" + j) + "/" + name;
    }
  }

  lemma JoinNotEmpty(stack: seq<string>)
    requires Clean(stack) && stack != []
    ensures Join(stack) != ""
  {
    JoinShape(stack);
  }

  /** Starts and ends with something other than a slash, and has no two slashes in a row. */
  predicate Tight(s: string)
  {
    && s != "" && s[0] != '/' && s[|s| - 1] != '/'
    && forall i :: 0 <= i < |s| - 1 ==> !(s[i] == '/' && s[i + 1] == '/')
  }

  lemma {:induction false} JoinShape(parts: seq<string>)
    requires parts != [] && Clean(parts)
    ensures Tight(Join(parts)) && '\\' !in Join(parts)
  {
    JoinNoBackslash(parts);
    var a := parts[0];
    assert CleanName(a);
    assert forall i :: 0 <= i < |a| ==> a[i] in a;
    if |parts| > 1 {
      JoinShape(parts[1..]);
      var b := Join(parts[1..]);
      var s := a + "/" + b;
      assert forall i :: |a| < i < |s| ==> s[i] == b[i - |a| - 1];
      assert s[|a| - 1] == a[|a| - 1];
    }
  }

  /** A normal path is "/", or a slash and components between single slashes, with no backslash. */
  lemma NormalLooks(path: string)
    requires Normal(path)
    ensures path == "/" || (path != "" && path[0] == '/' && Tight(path[1..]) && '\\' !in path)
  {
    var cs := Components(path);
    if cs != [] {
      JoinShape(cs);
      assert path[1..] == Join(cs);
    }
  }

  // --- The resolver ---

  lemma NonEmptyStep(parts: seq<string>, i: nat)
    requires i <= |parts|
    ensures NonEmpty(parts[i..]) ==
              if i == |parts| then [] else (if parts[i] == "" then [] else [parts[i]]) + NonEmpty(parts[i + 1..])
  {
    if i < |parts| { assert parts[i..][1..] == parts[i + 1..]; }
  }

  method SeedStack(cur: string) returns (stack: seq<string>)
    ensures stack == Components(cur)
  {
    hide NonEmpty, Split;
    var dirs := Split(if cur != "" && cur[0] == '/' then cur[1..] else cur);
    stack := [];
    assert dirs[0..] == dirs;
    for i := 0 to |dirs|
      invariant stack + NonEmpty(dirs[i..]) == Components(cur)
    {
      NonEmptyStep(dirs, i);
      if dirs[i] != "" { stack := stack + [dirs[i]]; }
    }
    NonEmptyStep(dirs, |dirs|);
  }

  method WalkStack(seed: seq<string>, parts: seq<string>) returns (stack: seq<string>)
    ensures stack == Walk(seed, parts)
  {
    stack := seed;
    assert parts[0..] == parts;
    for i := 0 to |parts|
      invariant Walk(stack, parts[i..]) == Walk(seed, parts)
    {
      assert parts[i..][1..] == parts[i + 1..];
      if parts[i] == "" || parts[i] == "." {
      } else if parts[i] == ".." {
        if |stack| > 0 { stack := stack[..|stack| - 1]; }
      } else {
        stack := stack + [parts[i]];
      }
    }
  }

  /** Resolves `name` against `cur` by running its components over a local stack. */
  method ResolvePath(cur: string, name: string) returns (path: string)
    ensures path == JoinPath(cur, name)
  {
    var slashed := ToSlashes(name);
    var stack: seq<string> := [];
    if slashed != "" && slashed[0] == '/' {
      stack := [];
    } else {
      stack := SeedStack(cur);
    }
    assert stack == Seed(cur, name);
    stack := WalkStack(stack, Split(slashed));
    if |stack| == 0 { return "/"; }
    path := "/" + Join(stack);
  }

  // --- Base names ---

  function LastIndex(s: string, c: char): (i: int)
    ensures -1 <= i < |s|
    ensures i >= 0 ==> s[i] == c
    ensures forall j :: i < j < |s| ==> s[j] != c
  {
    if s == "" then -1
    else if s[|s| - 1] == c then |s| - 1
    else LastIndex(s[..|s| - 1], c)
  }

  /** The trailing component; the volume root has none. */
  function BaseName(path: string): (name: string)
    ensures |name| <= |path|
  {
    if path == "" || path == "/" then ""
    else
      var i := LastIndex(path, '/');
      if i >= 0 then path[i + 1..] else path
  }

  lemma {:induction false} JoinLast(stack: seq<string>)
    requires stack != [] && Clean(stack)
    ensures var last := stack[|stack| - 1];
            |Join(stack)| >= |last| && Join(stack)[|Join(stack)| - |last|..] == last &&
            (|Join(stack)| > |last| ==> Join(stack)[|Join(stack)| - |last| - 1] == '/')
  {
    if |stack| > 1 {
      JoinLast(stack[1..]);
      var rest := Join(stack[1..]);
      var whole := Join(stack);
      assert whole == stack[0] + "/" + rest;
      assert whole[|whole| - |rest|..] == rest;
      var last := stack[|stack| - 1];
      assert whole[|whole| - |last|..] == rest[|rest| - |last|..];
    }
  }

  lemma LastIndexIs(s: string, c: char, i: nat)
    requires i < |s| && s[i] == c && forall j :: i < j < |s| ==> s[j] != c
    ensures LastIndex(s, c) == i
  {
    var k := LastIndex(s, c);
    assert k >= i;
  }

  /** The base name of a resolved path is its last component. */
  lemma BaseNameLast(path: string)
    requires Normal(path)
    ensures var cs := Components(path);
            BaseName(path) == if cs == [] then "" else cs[|cs| - 1]
  {
    hide LastIndex, Split, NonEmpty;
    var cs := Components(path);
    if cs != [] {
      JoinLast(cs);
      var last := cs[|cs| - 1];
      var cut := |path| - |last|;
      assert path[cut - 1] == '/';
      assert path[cut..] == last;
      assert forall j :: cut <= j < |path| ==> path[j] == last[j - cut];
      LastIndexIs(path, '/', cut - 1);
      assert Join(cs) != "";
    }
  }
}
