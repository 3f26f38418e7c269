/**
 Normalising an absolute path, with or without a file-system prefix. The normaliser writes into a
 buffer and, on "..", scans backwards over its own output; what it computes is a stack of components.
 */
module PathNormalize {
  import opened Sequences

  const FILENAME_MAX := 256

  // ---------- What a path means ----------

  /** The first position of c in s, |s| if there is none. */
  function Find(s: string, c: char): (k: nat)
    ensures k <= |s| && c !in s[..k] && (k < |s| ==> s[k] == c)
  {
    if s == "" || s[0] == c then 0
    else
      var k := 1 + Find(s[1..], c);
      assert s[..k] == [s[0]] + s[1..][..k - 1];
      k
  }

  /** The file system's name, "" without a colon. */
  function FsName(path: string): string {
    var k := Find(path, ':');
    if k < |path| then path[..k] else ""
  }

  function AfterColon(path: string): string {
    var k := Find(path, ':');
    if k < |path| then path[k + 1..] else path
  }

  function Head(name: string): string {
    if name == "" then "" else name + ":"
  }

  predicate IsAbsolute(path: string) {
    AfterColon(path) != "" && AfterColon(path)[0] == '/'
  }

  /** The components of a string that starts with a slash: what stands between the slashes. */
  function Components(s: string): (cs: seq<string>)
    requires s != "" ==> s[0] == '/'
    decreases |s|
  {
    if s == "" then []
    else
      var k := Find(s[1..], '/');
      [s[1..][..k]] + Components(s[1..][k..])
  }

  /** "" and "." are dropped, ".." pops and leaves the root alone. */
  function Step(stack: seq<string>, c: string): seq<string> {
    if c == "" || c == "." then stack
    else if c == ".." then (if stack == [] then [] else stack[..|stack| - 1])
    else stack + [c]
  }

  function Resolve(stack: seq<string>, cs: seq<string>): seq<string>
    decreases |cs|
  {
    if cs == [] then stack else Resolve(Step(stack, cs[0]), cs[1..])
  }

  /** Each component behind a slash. */
  function Joined(stack: seq<string>): string
    decreases |stack|
  {
    if stack == [] then "" else Joined(stack[..|stack| - 1]) + "/" + stack[|stack| - 1]
  }

  function Render(name: string, stack: seq<string>): string {
    Head(name) + if stack == [] then "/" else Joined(stack)
  }

  /** The normal form of an absolute path. */
  function Normal(path: string): string
    requires IsAbsolute(path)
  {
    Render(FsName(path), Resolve([], Components(AfterColon(path))))
  }

  /** Name and components fit their 256-byte buffers. */
  predicate ComponentsFit(path: string)
    requires IsAbsolute(path)
  {
    |FsName(path)| < FILENAME_MAX && forall c | c in Components(AfterColon(path)) :: |c| < FILENAME_MAX
  }

  /** Every intermediate result fits a buffer of len bytes with one byte to spare. */
  predicate Fits(head: string, stack: seq<string>, cs: seq<string>, len: nat)
    decreases |cs|
  {
    cs != [] ==>
      && (Step(stack, cs[0]) == [] || |head + Joined(Step(stack, cs[0]))| + 2 <= len)
      && Fits(head, Step(stack, cs[0]), cs[1..], len)
  }

  predicate BufferFits(path: string, len: nat)
    requires IsAbsolute(path)
  {
    |Head(FsName(path))| + 2 <= len && Fits(Head(FsName(path)), [], Components(AfterColon(path)), len)
  }

  // ---------- Normal forms are stable ----------

  predicate IsPlain(c: string) {
    c != "" && c != "." && c != ".." && '/' !in c
  }

  predicate AllPlain(stack: seq<string>) {
    forall c | c in stack :: IsPlain(c)
  }

  lemma {:induction false} ResolveIsPlain(stack: seq<string>, cs: seq<string>)
    requires AllPlain(stack) && forall c | c in cs :: '/' !in c
    ensures AllPlain(Resolve(stack, cs))
    decreases |cs|
  {
    if cs != [] {
      ResolveIsPlain(Step(stack, cs[0]), cs[1..]);
    }
  }

  lemma {:induction false} ComponentsHaveNoSlash(s: string)
    requires s != "" ==> s[0] == '/'
    ensures forall c | c in Components(s) :: '/' !in c
    decreases |s|
  {
    if s != "" {
      ComponentsHaveNoSlash(s[1..][Find(s[1..], '/')..]);
    }
  }

  lemma {:induction false} FindFirst(a: string, b: string, c: char)
    requires c !in a && (b != "" ==> b[0] == c)
    ensures Find(a + b, c) == |a|
  {
    if a != "" {
      FindFirst(a[1..], b, c);
      HeadFirst(a, b);
    } else {
      assert a + b == b;
    }
  }

  lemma OneComponent(c: string, rest: string)
    requires '/' !in c && (rest != "" ==> rest[0] == '/')
    ensures Components("/" + c + rest) == [c] + Components(rest)
  {
    var s := "/" + c + rest;
    assert s[1..] == c + rest;
    FindFirst(c, rest, '/');
    TakeAndDrop(c, rest);
  }

  /** Splitting undoes joining. */
  lemma {:induction false} ComponentsOfJoined(stack: seq<string>, rest: string)
    requires AllPlain(stack) && (rest != "" ==> rest[0] == '/')
    ensures Joined(stack) + rest != "" ==> (Joined(stack) + rest)[0] == '/'
    ensures Components(Joined(stack) + rest) == stack + Components(rest)
    decreases |stack|
  {
    if stack == [] {
      assert Joined(stack) + rest == rest;
    } else {
      hide Components;
      var front, last := stack[..|stack| - 1], stack[|stack| - 1];
      FrontAndLast(stack);
      assert last in stack && IsPlain(last);
      OneComponent(last, rest);
      ComponentsOfJoined(front, "/" + last + rest);
      MoveBracket(Joined(front), "/", last, rest);
      AppendIsAssociative(front, [last], Components(rest));
    }
  }

  lemma {:induction false} ResolvePlain(stack: seq<string>, cs: seq<string>)
    requires AllPlain(cs)
    ensures Resolve(stack, cs) == stack + cs
    decreases |cs|
  {
    if cs != [] {
      assert IsPlain(cs[0]) && AllPlain(cs[1..]);
      ResolvePlain(stack + [cs[0]], cs[1..]);
      assert stack + [cs[0]] + cs[1..] == stack + cs;
    }
  }

  lemma {:induction false} JoinedLetters(stack: seq<string>, x: char)
    ensures x in Joined(stack) ==> x == '/' || exists c | c in stack :: x in c
    decreases |stack|
  {
    if stack != [] {
      JoinedLetters(stack[..|stack| - 1], x);
    }
  }

  lemma {:induction false} ResolvedFrom(stack: seq<string>, cs: seq<string>)
    ensures forall c | c in Resolve(stack, cs) :: c in stack || c in cs
    decreases |cs|
  {
    if cs != [] {
      ResolvedFrom(Step(stack, cs[0]), cs[1..]);
    }
  }

  lemma {:induction false} ComponentLetters(s: string, x: char)
    requires s != "" ==> s[0] == '/'
    ensures forall c | c in Components(s) && x in c :: x in s
    decreases |s|
  {
    if s != "" {
      ComponentLetters(s[1..][Find(s[1..], '/')..], x);
    }
  }

  /** A normal form is made of plain components, and of no colon that the path did not have. */
  lemma StackOf(path: string) returns (stack: seq<string>)
    requires IsAbsolute(path)
    ensures stack == Resolve([], Components(AfterColon(path))) && AllPlain(stack)
    ensures ':' !in AfterColon(path) ==> ':' !in Joined(stack)
  {
    var s := AfterColon(path);
    stack := Resolve([], Components(s));
    ComponentsHaveNoSlash(s);
    ResolveIsPlain([], Components(s));
    ResolvedFrom([], Components(s));
    ComponentLetters(s, ':');
    JoinedLetters(stack, ':');
  }

  /** What stands behind the head of a normal form resolves to the same stack. */
  lemma BodyResolves(stack: seq<string>)
    requires AllPlain(stack)
    ensures var body := if stack == [] then "/" else Joined(stack);
            body != "" && body[0] == '/' && Resolve([], Components(body)) == stack
  {
    if stack == [] {
      OneComponent("", "");
      assert "/" + "" + "" == "/";
      assert Components("") == [] && Resolve([], [""]) == Resolve([], []);
    } else {
      ComponentsOfJoined(stack, "");
      assert Joined(stack) + "" == Joined(stack);
      ResolvePlain([], stack);
      assert stack + [] == stack && [] + stack == stack;
    }
  }

  lemma SlashOfLast(f: string, c: string, a: string, b: string)
    requires f + ("/" + c) == a + b && '/' !in c && b != "" && b[0] == '/' && |a| >= |f|
    ensures b == "/" + c
  {
    var t := f + ("/" + c);
    forall i | |f| < i < |t| ensures t[i] != '/' {
      assert t[i] == c[i - |f| - 1] && t[i] in c;
    }
    assert t[|a|] == b[0] == '/';
    assert t[|f|..] == "/" + c && (a + b)[|a|..] == b;
  }

  lemma SplitInside(f: string, rest: string, a: string, b: string)
    requires f + rest == a + b && |a| < |f|
    ensures f == a + f[|a|..] && b == f[|a|..] + rest
  {
    assert f[..|a|] == (f + rest)[..|a|] == a;
    assert b == (a + b)[|a|..] == (f + rest)[|a|..];
  }

  /** What stands from a slash on to the end of a joined stack is a joined stack. */
  lemma {:induction false} EndOfJoined(stack: seq<string>, a: string, b: string) returns (tail: seq<string>)
    requires AllPlain(stack) && Joined(stack) == a + b && b != "" && b[0] == '/'
    ensures AllPlain(tail) && tail != [] && b == Joined(tail)
    decreases |stack|
  {
    var front, c := stack[..|stack| - 1], stack[|stack| - 1];
    var f := Joined(front);
    assert c in stack && Joined(stack) == f + ("/" + c) by { AppendIsAssociative(f, "/", c); }
    if |a| >= |f| {
      SlashOfLast(f, c, a, b);
      tail := [c];
      assert Joined([]) + "/" + c == "/" + c && [c][..0] == [];
    } else {
      var b' := f[|a|..];
      assert f == a + b' && b == b' + ("/" + c) by { SplitInside(f, "/" + c, a, b); }
      var less := EndOfJoined(front, a, b');
      tail := less + [c];
      assert tail[..|less|] == less;
      AppendIsAssociative(b', "/", c);
    }
  }

  /** A string that stays absolute when its front is read as a file system's name. */
  predicate ColonThenSlash(s: string) {
    var k := Find(s, ':');
    k == |s| || (k + 1 < |s| && s[k + 1] == '/')
  }

  lemma WithColon(name: string, body: string)
    requires name != "" && ':' !in name
    ensures FsName(name + ":" + body) == name && AfterColon(name + ":" + body) == body
  {
    FindFirst(name, ":" + body, ':');
    TakeAndDrop(name, ":" + body);
    AppendIsAssociative(name, ":", body);
    assert (":" + body)[1..] == body;
  }

  lemma NoColon(s: string)
    requires ':' !in s
    ensures FsName(s) == "" && AfterColon(s) == s
  {
    FindFirst(s, "", ':');
    assert s + "" == s;
  }

  lemma StableBehindColon(stack: seq<string>, body: string, k: nat)
    requires AllPlain(stack) && body == (if stack == [] then "/" else Joined(stack))
    requires k == Find(body, ':') && k + 1 < |body| && body[k + 1] == '/' && body[0] == '/'
    ensures IsAbsolute(body) && Normal(body) == body
  {
    var name, rest := body[..k], body[k + 1..];
    assert body == name + ":" + rest;
    assert stack != [];
    var tail := EndOfJoined(stack, name + ":", rest);
    BodyResolves(tail);
    hide Joined, Components, Resolve;
    WithColon(name, rest);
  }

  lemma NamedIsStable(name: string, body: string, stack: seq<string>)
    requires name != "" && ':' !in name && body != "" && body[0] == '/'
    requires body == (if stack == [] then "/" else Joined(stack)) && Resolve([], Components(body)) == stack
    ensures IsAbsolute(Head(name) + body) && Normal(Head(name) + body) == Head(name) + body
  {
    hide Joined, Components, Resolve;
    WithColon(name, body);
  }

  lemma UnnamedIsStable(body: string, stack: seq<string>)
    requires AllPlain(stack) && body != "" && body[0] == '/'
    requires body == (if stack == [] then "/" else Joined(stack)) && Resolve([], Components(body)) == stack
    ensures IsAbsolute(body) <==> ColonThenSlash(body)
    ensures IsAbsolute(body) ==> Normal(body) == body
  {
    hide Joined, Components, Resolve, AllPlain;
    var k := Find(body, ':');
    if k == |body| {
      NoColon(body);
      assert "" + body == body;
    } else if ColonThenSlash(body) {
      StableBehindColon(stack, body, k);
    }
  }

  /** The first component with a colon, if there is one, ends at that colon and is not the last component. */
  predicate FirstColonEnds(stack: seq<string>) {
    stack == [] ||
    if ':' in stack[0] then |stack| > 1 && Find(stack[0], ':') == |stack[0]| - 1 else FirstColonEnds(stack[1..])
  }

  lemma {:induction false} FindBehind(a: string, b: string, c: char)
    requires c !in a
    ensures Find(a + b, c) == |a| + Find(b, c)
  {
    if a == "" {
      assert a + b == b;
    } else {
      FindBehind(a[1..], b, c);
      HeadFirst(a, b);
    }
  }

  lemma {:induction false} JoinedFromFront(c: string, rest: seq<string>)
    ensures Joined([c] + rest) == "/" + c + Joined(rest)
    decreases |rest|
  {
    if rest == [] {
      assert [c] + rest == [c] && [c][..0] == [];
    } else {
      var front, last := rest[..|rest| - 1], rest[|rest| - 1];
      JoinedFromFront(c, front);
      assert ([c] + rest)[..|rest|] == [c] + front;
      assert Joined([c] + rest) == Joined([c] + front) + "/" + last;
      MoveBracket("/" + c, Joined(front), "/", last);
    }
  }

  lemma CutInFirst(c: string, rest: string, k: nat)
    requires k < |c|
    ensures "/" + c + rest == ("/" + c[..k]) + (c[k..] + rest) && (c[k..] + rest)[0] == c[k]
    ensures |"/" + c + rest| == 1 + |c| + |rest|
    ensures k + 1 < |c| ==> ("/" + c + rest)[k + 2] == c[k + 1]
    ensures k + 1 == |c| && rest != "" ==> ("/" + c + rest)[k + 2] == rest[0]
  {
  }

  lemma NoSlashIn(c: string, i: nat)
    requires IsPlain(c) && i < |c|
    ensures c[i] != '/'
  {
  }

  lemma ColonInside(c: string)
    requires ':' in c
    ensures Find(c, ':') < |c|
  {
    assert c[..|c|] == c;
  }

  /** The first component's colon is the first one of a joined stack. */
  lemma ColonInFirst(c: string, rest: string)
    requires IsPlain(c) && ':' in c && (rest == "" || rest[0] == '/')
    ensures ColonThenSlash("/" + c + rest) <==> Find(c, ':') == |c| - 1 && rest != ""
  {
    var k := Find(c, ':');
    ColonInside(c);
    CutInFirst(c, rest, k);
    if k + 1 < |c| {
      NoSlashIn(c, k + 1);
    }
    assert ':' !in "/" + c[..k];
    hide Find, IsPlain;
    FindFirst("/" + c[..k], c[k..] + rest, ':');
  }

  lemma {:induction false} ColonOfJoined(stack: seq<string>)
    requires AllPlain(stack)
    ensures ColonThenSlash(Joined(stack)) <==> FirstColonEnds(stack)
    ensures stack != [] ==> Joined(stack) != "" && Joined(stack)[0] == '/'
    decreases |stack|
  {
    if stack != [] {
      var c, rest := stack[0], stack[1..];
      assert stack == [c] + rest && c in stack && IsPlain(c);
      ColonOfJoined(rest);
      JoinedFromFront(c, rest);
      if ':' in c {
        ColonInFirst(c, Joined(rest));
      } else {
        FindBehind("/" + c, Joined(rest), ':');
      }
    }
  }

  /** Without a name of a file system the normal form is absolute exactly if its first colon is followed by a slash. */
  lemma ColonOfBody(stack: seq<string>, body: string)
    requires AllPlain(stack) && body == (if stack == [] then "/" else Joined(stack))
    ensures ColonThenSlash(body) <==> FirstColonEnds(stack)
  {
    ColonOfJoined(stack);
    if stack == [] {
      FindFirst("/", "", ':');
      assert "/" + "" == "/";
    }
  }

  /**
   Normalising a normal form again changes nothing. It can be normalised again exactly when the path named its file
   system, or when the first component with a colon that is left ends at that colon and has another one behind it.
   */
  lemma NormalIsStable(path: string)
    requires IsAbsolute(path)
    ensures IsAbsolute(Normal(path)) <==>
            FsName(path) != "" || FirstColonEnds(Resolve([], Components(AfterColon(path))))
    ensures IsAbsolute(Normal(path)) ==> Normal(Normal(path)) == Normal(path)
  {
    var stack := StackOf(path);
    var name := FsName(path);
    var body := if stack == [] then "/" else Joined(stack);
    BodyResolves(stack);
    assert Normal(path) == Head(name) + body;
    if name != "" {
      NamedIsStable(name, body, stack);
    } else {
      assert "" + body == body;
      UnnamedIsStable(body, stack);
      ColonOfBody(stack, body);
    }
  }

  lemma {:induction false} NoColonEnds(stack: seq<string>)
    requires forall c | c in stack :: ':' !in c
    ensures FirstColonEnds(stack)
  {
    if stack != [] {
      assert stack[0] in stack;
      NoColonEnds(stack[1..]);
    }
  }

  /** So every path with a file system's name, and every path without a colon, is stable. */
  lemma CommonPathsAreStable(path: string)
    requires IsAbsolute(path) && (FsName(path) != "" || ':' !in path)
    ensures IsAbsolute(Normal(path)) && Normal(Normal(path)) == Normal(path)
  {
    if ':' !in path {
      var s := AfterColon(path);
      NoColon(path);
      ResolvedFrom([], Components(s));
      ComponentLetters(s, ':');
      NoColonEnds(Resolve([], Components(s)));
    }
    NormalIsStable(path);
  }

  lemma OnlyComponent(c: string)
    requires IsPlain(c)
    ensures Resolve([], Components("/" + c)) == [c] && Joined([c]) == "/" + c
  {
    OneComponent(c, "");
    assert "/" + c + "" == "/" + c && Components("") == [] && [c] + [] == [c];
    ResolvePlain([], [c]);
    assert [] + [c] == [c];
    JoinedFromFront(c, []);
    assert "/" + c + Joined([]) == "/" + c;
  }

  lemma EmptyName(rest: string)
    ensures FsName(":" + rest) == "" && AfterColon(":" + rest) == rest
  {
    FindFirst("", ":" + rest, ':');
    assert "" + (":" + rest) == ":" + rest;
    assert (":" + rest)[1..] == rest;
  }

  /** A path with an empty name whose normal form is read as the relative path "b" of a file system "/a". */
  lemma UnstablePath()
    ensures IsAbsolute(":/a:b") && Normal(":/a:b") == "/a:b" && FsName("/a:b") == "/a" && !IsAbsolute("/a:b")
  {
    hide Find, Components, Resolve, Joined, FsName, AfterColon;
    EmptyName("/a:b");
    OnlyComponent("a:b");
    WithColon("/a", "b");
    assert ":" + "/a:b" == ":/a:b" && "/" + "a:b" == "/a:b" && "/a" + ":" + "b" == "/a:b";
    assert "" + "/a:b" == "/a:b";
  }

  lemma StepLength(stack: seq<string>, c: string)
    ensures |Joined(Step(stack, c))| <= |Joined(stack)| + 1 + |c|
  {
    assert (stack + [c])[..|stack|] == stack;
  }

  lemma {:induction false} AmpleFrom(head: string, stack: seq<string>, rest: string, len: nat)
    requires rest != "" ==> rest[0] == '/'
    requires |head + Joined(stack)| + |rest| + 2 <= len
    ensures Fits(head, stack, Components(rest), len)
    decreases |rest|
  {
    if rest != "" {
      var k := Find(rest[1..], '/');
      var c := rest[1..][..k];
      assert Components(rest)[0] == c && Components(rest)[1..] == Components(rest[1..][k..]);
      hide Find, Components, Joined, Step;
      StepLength(stack, c);
      AmpleFrom(head, Step(stack, c), rest[1..][k..], len);
    }
  }

  /** A buffer two bytes longer than the path is always large enough. */
  lemma AmpleBuffer(path: string, len: nat)
    requires IsAbsolute(path) && |path| + 2 <= len
    ensures BufferFits(path, len)
  {
    AmpleFrom(Head(FsName(path)), [], AfterColon(path), len);
  }

  // ---------- The iterator ----------

  class Iterator {
    const path: string
    var cursor: nat
    var element: string
    var hasSeparator: bool

    constructor (path: string)
      ensures this.path == path && cursor <= |path| && path[cursor..] == AfterColon(path)
      ensures element == FsName(path)[..if |FsName(path)| < 256 then |FsName(path)| else 255]
    {
      this.path, hasSeparator := path, false;
      var colon := Find(path, ':');
      if colon < |path| {
        var len := colon;
        if len >= FILENAME_MAX {
          len := FILENAME_MAX - 1;
        }
        element, cursor := path[..len], colon + 1;
      } else {
        element, cursor := "", 0;
      }
    }

    /** The next component; true when it was the last one. */
    method Advance() returns (atEnd: bool)
      requires cursor <= |path|
      modifies this
      ensures cursor <= |path| && atEnd == (cursor == |path|)
      ensures var rest := path[old(cursor)..];
              hasSeparator == (rest != "" && rest[0] == '/')
      ensures var rest := path[old(cursor)..];
              var after := if hasSeparator then rest[1..] else rest;
              var k := Find(after, '/');
              && element == after[..if k < 256 then k else 255]
              && path[cursor..] == after[k..]
    {
      var p := cursor;
      hasSeparator := p < |path| && path[p] == '/';
      if hasSeparator {
        p := p + 1;
      }
      if p == |path| {
        element, cursor := "", p;
        return true;
      }
      var k := Find(path[p..], '/');
      cursor := p + k;
      if k >= FILENAME_MAX {
        k := FILENAME_MAX - 1;
      }
      element := path[p..][..k];
      return cursor == |path|;
    }
  }

  // ---------- The normaliser ----------

  /** What the buffer holds while `stack` is the result so far: perhaps with a slash at the end. */
  ghost predicate Holds(dest: array<char>, w: nat, head: string, stack: seq<string>)
    reads dest
  {
    && w <= dest.Length
    && (dest[..w] == head + Joined(stack) + "/" || (stack != [] && dest[..w] == head + Joined(stack)))
  }

  /** The result so far leaves room for a slash and the terminator. */
  ghost predicate Roomy(head: string, stack: seq<string>, len: nat) {
    |head| + 2 <= len && (stack == [] || |head + Joined(stack)| + 2 <= len)
  }

  function Front(stack: seq<string>): seq<string> {
    if stack == [] then [] else stack[..|stack| - 1]
  }

  lemma SlashThen(f: string, c: string)
    requires c != "" && '/' !in c
    ensures var text := f + ("/" + c);
            && |f| + 1 < |text| && text[..|f|] == f && text[|f|] == '/'
            && forall i | |f| < i < |text| :: text[i] != '/'
  {
    var text := f + ("/" + c);
    forall i | |f| < i < |text|
      ensures text[i] != '/'
    {
      assert text[i] == c[i - |f| - 1] && text[i] in c;
    }
  }

  /** In the text of a stack the last slash is the one before the last component. */
  lemma LastSlash(head: string, stack: seq<string>)
    requires stack != [] && AllPlain(stack)
    ensures var text, from := head + Joined(stack), |head + Joined(Front(stack))|;
            && from + 1 < |text| && text[..from] == head + Joined(Front(stack)) && text[from] == '/'
            && forall i | from < i < |text| :: text[i] != '/'
  {
    var c := stack[|stack| - 1];
    assert c in stack && IsPlain(c);
    MoveBracket("", head, Joined(Front(stack)), "/" + c);
    AppendIsAssociative(Joined(Front(stack)), "/", c);
    AppendIsAssociative(head, Joined(Front(stack)), "/" + c);
    SlashThen(head + Joined(Front(stack)), c);
  }

  /** The loop of the scan, over a text whose last slash is at `from`. */
  method ScanFrom(dest: array<char>, start: int, ghost text: string, ghost from: nat) returns (lastSep: int)
    requires -1 <= start < |text| <= dest.Length && dest[..|text|] == text
    ensures lastSep <= start
    ensures from <= start && text[from] == '/' && (forall i | from < i < |text| :: text[i] != '/') ==> lastSep == from
  {
    lastSep := start;
    while lastSep > 0 && dest[lastSep] != '/'
      invariant lastSep <= start
      invariant from <= start && text[from] == '/' ==> from <= lastSep
    {
      assert dest[lastSep] == dest[..|text|][lastSep];
      lastSep := lastSep - 1;
    }
    assert lastSep >= 0 ==> dest[lastSep] == dest[..|text|][lastSep];
  }

  /** The backward scan: where the last component of a non-empty stack starts, its slash included. */
  method ScanBack(dest: array<char>, w: nat, ghost head: string, ghost stack: seq<string>) returns (lastSep: int)
    requires Holds(dest, w, head, stack) && AllPlain(stack) && w > 0
    ensures stack == [] ==> lastSep < |head|
    ensures stack != [] ==> lastSep == |head + Joined(Front(stack))|
  {
    ghost var from := if stack == [] then 0 else |head + Joined(Front(stack))|;
    ghost var text := head + Joined(stack);
    if stack != [] {
      LastSlash(head, stack);
    }
    assert dest[..w] == text || dest[..w] == text + "/";
    hide Joined, AllPlain, Front;
    assert forall i | 0 <= i < |text| :: dest[i] == dest[..w][i] == text[i];
    lastSep := w - 1;
    if dest[lastSep] == '/' {
      lastSep := lastSep - 1;
    }
    lastSep := ScanFrom(dest, lastSep, text, from);
  }

  lemma {:induction false} JoinedStarts(stack: seq<string>)
    requires stack != [] && AllPlain(stack)
    ensures |Joined(stack)| > 1 && Joined(stack)[0] == '/'
    decreases |stack|
  {
    assert stack[|stack| - 1] in stack;
    if |stack| > 1 {
      JoinedStarts(stack[..|stack| - 1]);
    }
  }

  /** The text starts with the head; behind it, a slash; its front part is the text of the front. */
  lemma TextOf(text: string, name: string, stack: seq<string>)
    requires AllPlain(stack) && ':' !in name
    requires text == Head(name) + Joined(stack) + "/" || (stack != [] && text == Head(name) + Joined(stack))
    ensures |Head(name)| < |text| && text[..|Head(name)|] == Head(name) && text[|Head(name)|] == '/'
    ensures |stack| <= 1 ==> Head(name) + Joined(Front(stack)) == Head(name)
    ensures |stack| > 1 ==> |Head(name)| + 1 < |Head(name) + Joined(Front(stack))|
    ensures var f := Head(name) + Joined(Front(stack));
            stack != [] ==> |f| < |text| && text[..|f|] == f && text[|f|] == '/'
  {
    var head := Head(name);
    if stack == [] {
    } else {
      LastSlash(head, stack);
      JoinedStarts(stack);
      if |stack| > 1 {
        JoinedStarts(Front(stack));
      }
    }
  }

  lemma ColonAt(text: string, name: string)
    requires ':' !in name && name != "" && |name| < |text| && text[..|name| + 1] == name + ":"
    ensures Find(text, ':') == |name|
  {
    FindFirst(name, text[|name|..], ':');
    assert text[..|name|] == text[..|name| + 1][..|name|] == name;
    assert text == name + text[|name|..];
    assert text[|name|] == text[..|name| + 1][|name|];
  }

  /** Writes the root behind the head. */
  method PutRoot(dest: array<char>, len: nat, at: nat, ghost text: string) returns (w': nat)
    requires at < |text| && at + 2 <= len <= dest.Length && text <= dest[..]
    modifies dest
    ensures w' == at + 1 && dest[..w'] == text[..at] + "/"
  {
    w' := at;
    if w' < len - 1 {
      dest[w'] := '/';
      w' := w' + 1;
    }
  }

  /** The text up to the slash behind the front part of the stack, or behind the head of a stack with no front. */
  lemma PoppedText(text: string, name: string, stack: seq<string>, at: nat)
    requires AllPlain(stack) && ':' !in name
    requires text == Head(name) + Joined(stack) + "/" || (stack != [] && text == Head(name) + Joined(stack))
    requires (|stack| <= 1 && at == |Head(name)|) || (stack != [] && at == |Head(name) + Joined(Front(stack))|)
    ensures at < |text| && text[at] == '/'
    ensures text[..at] + "/" == text[..at + 1] == Head(name) + Joined(Front(stack)) + "/"
  {
    TextOf(text, name, stack);
    hide Joined, AllPlain, Front, Head;
  }

  /** Where the root's slash is: behind the colon of the file system's name, if there is one. */
  method RootOf(dest: array<char>, w: nat, hasFs: bool, ghost name: string) returns (root: nat)
    requires w <= dest.Length && |Head(name)| < w && dest[..w][..|Head(name)|] == Head(name)
    requires ':' !in name && (hasFs <==> name != "")
    ensures root == |Head(name)|
  {
    root := 0;
    if hasFs {
      ColonAt(dest[..w], name);
      root := Find(dest[..w], ':') + 1;
    }
  }

  lemma HeadOfText(text: string, name: string, stack: seq<string>)
    requires AllPlain(stack) && ':' !in name
    requires text == Head(name) + Joined(stack) + "/" || (stack != [] && text == Head(name) + Joined(stack))
    ensures |Head(name)| < |text| && text[..|Head(name)|] == Head(name)
  {
    TextOf(text, name, stack);
  }

  /** The scan comes to the root exactly when the stack has at most one component. */
  lemma WhichTarget(name: string, stack: seq<string>, hasFs: bool, lastSep: int)
    requires AllPlain(stack) && (hasFs <==> name != "")
    requires stack == [] ==> lastSep < |Head(name)|
    requires stack != [] ==> lastSep == |Head(name) + Joined(Front(stack))|
    ensures (hasFs && lastSep <= |Head(name)|) || lastSep <= 0 <==> |stack| <= 1
  {
    if |stack| > 1 {
      JoinedStarts(Front(stack));
    }
  }

  /** Where the text that ".." leaves ends, and whether the root's slash is written there again. */
  method PopTarget(dest: array<char>, w: nat, hasFs: bool, ghost name: string, ghost stack: seq<string>)
    returns (atRoot: bool, at: nat)
    requires Holds(dest, w, Head(name), stack) && AllPlain(stack) && ':' !in name && (hasFs <==> name != "")
    ensures at < w && (atRoot ==> at == |Head(name)|)
    ensures var text := dest[..w]; text[..at] + "/" == text[..at + 1] == Head(name) + Joined(Front(stack)) + "/"
  {
    ghost var text := dest[..w];
    HeadOfText(text, name, stack);
    hide Joined, AllPlain, Front, Head, Find;
    var lastSep := ScanBack(dest, w, Head(name), stack);
    var root := RootOf(dest, w, hasFs, name);
    WhichTarget(name, stack, hasFs, lastSep);
    atRoot := (hasFs && lastSep <= root) || lastSep <= 0;
    at := if atRoot then root else lastSep;
    PoppedText(text, name, stack, at);
  }

  /** "..": back to the slash in front of the last component, or to the root. */
  method Pop(dest: array<char>, len: nat, w: nat, hasFs: bool, ghost name: string, ghost stack: seq<string>)
    returns (w': nat)
    requires Holds(dest, w, Head(name), stack) && AllPlain(stack)
    requires Roomy(Head(name), stack, len) && len <= dest.Length
    requires ':' !in name && (hasFs <==> name != "")
    modifies dest
    ensures Holds(dest, w', Head(name), Front(stack))
  {
    assert |Head(name)| + 2 <= len;
    hide Joined, AllPlain, Roomy, Front, Head;
    ghost var text := dest[..w];
    var atRoot, at := PopTarget(dest, w, hasFs, name, stack);
    assert text[..at + 1] == dest[..at + 1];
    if atRoot {
      w' := PutRoot(dest, len, at, text);
    } else {
      w' := at + 1;
    }
  }

  /** With the slash in place, the component completes the text of the longer stack. */
  lemma PushText(head: string, stack: seq<string>, c: string, text: string)
    requires AllPlain(stack) && IsPlain(c)
    requires text == head + Joined(stack) + "/" || (stack != [] && text == head + Joined(stack))
    ensures text != ""
    ensures var base := head + Joined(stack);
            && (text[|text| - 1] == '/' ==> text == base + "/")
            && (text[|text| - 1] != '/' ==> text == base)
            && base + "/" + c == head + Joined(stack + [c])
  {
    var base := head + Joined(stack);
    assert (stack + [c])[..|stack|] == stack;
    assert base + "/" + c == head + (Joined(stack) + "/" + c);
    if stack != [] {
      LastSlash(head, stack);
    }
  }

  method PutSlash(dest: array<char>, w: nat) returns (w': nat)
    requires w < dest.Length
    modifies dest
    ensures w' == w + 1 && dest[..w'] == old(dest[..w]) + "/"
  {
    dest[w] := '/';
    w' := w + 1;
  }

  /** strcpy, and on behind the text. */
  method PutText(dest: array<char>, w: nat, c: string) returns (w': nat)
    requires w + |c| < dest.Length
    modifies dest
    ensures w' == w + |c| && dest[..w'] == old(dest[..w]) + c
  {
    forall i | 0 <= i < |c| {
      dest[w + i] := c[i];
    }
    dest[w + |c|] := '\0';
    w' := w + |c|;
  }

  lemma PushFits(head: string, stack: seq<string>, c: string, text: string, len: nat)
    requires text == head + Joined(stack) + "/" || (stack != [] && text == head + Joined(stack))
    requires Roomy(head, stack, len) && Roomy(head, stack + [c], len) && c != ""
    ensures |head + Joined(stack)| + 1 + |c| < len - 1
  {
    assert (stack + [c])[..|stack|] == stack;
  }

  /** An ordinary component: a slash unless one is there, then the component and its terminator. */
  method Push(dest: array<char>, len: nat, w: nat, c: string, ghost head: string, ghost stack: seq<string>)
    returns (w': nat)
    requires Holds(dest, w, head, stack) && AllPlain(stack) && IsPlain(c)
    requires Roomy(head, stack, len) && Roomy(head, stack + [c], len) && len <= dest.Length
    modifies dest
    ensures Holds(dest, w', head, stack + [c])
  {
    PushText(head, stack, c, dest[..w]);
    PushFits(head, stack, c, dest[..w], len);
    hide Joined, AllPlain, IsPlain, Roomy;
    w' := w;
    if w' > 0 && dest[w' - 1] != '/' && w' < len - 1 {
      w' := PutSlash(dest, w');
    }
    if w' + |c| < len - 1 {
      w' := PutText(dest, w', c);
    }
  }

  /** One round of the normaliser's loop behind the first slash. */
  method Apply(dest: array<char>, len: nat, w: nat, c: string, hasFs: bool, ghost name: string,
      ghost stack: seq<string>)
    returns (w': nat)
    requires Holds(dest, w, Head(name), stack) && AllPlain(stack) && '/' !in c
    requires Roomy(Head(name), stack, len) && Roomy(Head(name), Step(stack, c), len) && len <= dest.Length
    requires ':' !in name && (hasFs <==> name != "")
    modifies dest
    ensures Holds(dest, w', Head(name), Step(stack, c)) && AllPlain(Step(stack, c))
  {
    w' := w;
    if c == "" || c == "." {
      return;
    }
    if c == ".." {
      w' := Pop(dest, len, w, hasFs, name, stack);
      return;
    }
    w' := Push(dest, len, w, c, Head(name), stack);
  }

  /** Copies the file system's name and a colon. */
  method PutHead(dest: array<char>, name: string) returns (w: nat)
    requires |name| + 2 <= dest.Length
    modifies dest
    ensures w == |Head(name)| && dest[..w] == Head(name)
  {
    w := 0;
    if name != "" {
      forall i | 0 <= i < |name| {
        dest[i] := name[i];
      }
      dest[|name|] := '\0';
      dest[|name|] := ':';
      w := |name| + 1;
    }
  }

  /** What is left to do when `rest` is still unread: it leads from `stack` to `goal`. */
  ghost predicate Pending(rest: string, head: string, stack: seq<string>, goal: seq<string>, len: nat) {
    && (rest != "" ==> rest[0] == '/')
    && AllPlain(stack) && Roomy(head, stack, len)
    && Resolve(stack, Components(rest)) == goal
    && Fits(head, stack, Components(rest), len)
    && forall c | c in Components(rest) :: |c| < FILENAME_MAX
  }

  lemma StepIsPlain(stack: seq<string>, c: string)
    requires AllPlain(stack) && '/' !in c
    ensures AllPlain(Step(stack, c))
  {
  }

  lemma PendingStep(rest: string, head: string, stack: seq<string>, goal: seq<string>, len: nat)
    requires Pending(rest, head, stack, goal, len) && rest != ""
    ensures var k := Find(rest[1..], '/');
            var c := rest[1..][..k];
            && rest[0] == '/' && |c| == k < FILENAME_MAX && '/' !in c && AllPlain(stack)
            && Roomy(head, stack, len) && Roomy(head, Step(stack, c), len)
            && Pending(rest[1..][k..], head, Step(stack, c), goal, len)
  {
    var k := Find(rest[1..], '/');
    var c, cs := rest[1..][..k], Components(rest);
    assert cs[0] == c && cs[1..] == Components(rest[1..][k..]);
    assert c in cs && forall d | d in cs[1..] :: d in cs;
    StepIsPlain(stack, c);
    hide Joined, Components, AllPlain, Step, Find;
  }

  lemma PendingDone(head: string, stack: seq<string>, goal: seq<string>, len: nat)
    requires Pending("", head, stack, goal, len)
    ensures stack == goal && AllPlain(stack) && Roomy(head, stack, len)
  {
  }

  method FirstSlash(dest: array<char>, len: nat, w: nat, hasSeparator: bool, ghost head: string) returns (w': nat)
    requires hasSeparator && w == |head| && w + 2 <= len <= dest.Length && dest[..w] == head
    modifies dest
    ensures Holds(dest, w', head, [])
  {
    w' := w;
    if hasSeparator && w < len - 1 {
      dest[w'] := '/';
      w' := w' + 1;
    }
    assert head + Joined([]) + "/" == head + "/";
  }

  /** One round of the loop: the next component, and before the first one the slash of the root. */
  method Round(it: Iterator, dest: array<char>, len: nat, w: nat, first: bool, hasFs: bool,
      ghost name: string, ghost stack: seq<string>, ghost goal: seq<string>)
    returns (w': nat, atEnd: bool, ghost c: string)
    requires it.cursor < |it.path| && Pending(it.path[it.cursor..], Head(name), stack, goal, len)
    requires len <= dest.Length && ':' !in name && (hasFs <==> name != "")
    requires if first then stack == [] && w == |Head(name)| && w <= dest.Length && dest[..w] == Head(name)
             else Holds(dest, w, Head(name), stack)
    modifies it, dest
    ensures old(it.cursor) < it.cursor <= |it.path| && atEnd == (it.cursor == |it.path|)
    ensures Holds(dest, w', Head(name), Step(stack, c))
    ensures Pending(it.path[it.cursor..], Head(name), Step(stack, c), goal, len)
  {
    hide Joined, Step, Components, Resolve, Find, Fits;
    PendingStep(it.path[it.cursor..], Head(name), stack, goal, len);
    hide Pending, AllPlain, Roomy;
    atEnd := it.Advance();
    w' := w;
    if first {
      w' := FirstSlash(dest, len, w, it.hasSeparator, Head(name));
    }
    c := it.element;
    w' := Apply(dest, len, w', it.element, hasFs, name, stack);
  }

  /** Exactly the slashes that do not belong to the normal form are cut. */
  lemma FinishText(text: string, name: string, stack: seq<string>)
    requires AllPlain(stack)
    requires text == Head(name) + Joined(stack) + "/" || (stack != [] && text == Head(name) + Joined(stack))
    ensures var r := Render(name, stack);
            if |text| > 1 && text[|text| - 1] == '/' && (name == "" || |text| > |name| + 2)
            then text == r + "/" else text == r
  {
    if stack != [] {
      LastSlash(Head(name), stack);
      JoinedStarts(stack);
    }
  }

  lemma RenderFits(text: string, name: string, stack: seq<string>, len: nat)
    requires AllPlain(stack) && Roomy(Head(name), stack, len)
    requires text == Head(name) + Joined(stack) + "/" || (stack != [] && text == Head(name) + Joined(stack))
    ensures |Render(name, stack)| < len
  {
    hide AllPlain;
  }

  /** Where the text ends without a slash at its end, except the root's. */
  method EndOf(dest: array<char>, w: nat, hasFs: bool, ghost name: string, ghost stack: seq<string>) returns (end: nat)
    requires Holds(dest, w, Head(name), stack) && AllPlain(stack) && ':' !in name && (hasFs <==> name != "")
    ensures end <= w && dest[..w][..end] == Render(name, stack)
  {
    ghost var text := dest[..w];
    HeadOfText(text, name, stack);
    FinishText(text, name, stack);
    assert |Head(name)| == if name == "" then 0 else |name| + 1;
    hide Joined, Render, AllPlain, Head, Find;
    end := w;
    if end > 1 && dest[end - 1] == '/' {
      var root := RootOf(dest, w, hasFs, name);
      if !hasFs || end > root + 1 {
        end := end - 1;
      }
    }
    assert text[..end] == Render(name, stack);
  }

  /** Cuts a slash at the end, except the root's, and terminates the string. */
  method Finish(dest: array<char>, len: nat, w: nat, hasFs: bool, ghost name: string, ghost stack: seq<string>)
    returns (end: nat)
    requires Holds(dest, w, Head(name), stack) && AllPlain(stack)
    requires Roomy(Head(name), stack, len) && len <= dest.Length
    requires ':' !in name && (hasFs <==> name != "")
    modifies dest
    ensures var r := Render(name, stack); end == |r| < len && dest[..|r|] == r && dest[|r|] == '\0'
  {
    ghost var text := dest[..w];
    RenderFits(text, name, stack, len);
    hide Joined, Render, AllPlain, Roomy, Head;
    end := EndOf(dest, w, hasFs, name, stack);
    dest[end] := '\0';
    assert dest[..end] == text[..end];
  }

  /** VlPath_Normalize on an absolute path: the normal form, NUL-terminated. */
  method Normalize(dest: array<char>, len: nat, src: string)
    requires len <= dest.Length && IsAbsolute(src) && ComponentsFit(src) && BufferFits(src, len)
    modifies dest
    ensures var r := Normal(src); |r| < len && dest[..|r|] == r && dest[|r|] == '\0'
  {
    ghost var name, goal, stack := FsName(src), Resolve([], Components(AfterColon(src))), [];
    assert Pending(AfterColon(src), Head(name), stack, goal, len);
    assert Normal(src) == Render(name, goal) && Roomy(Head(name), stack, len);
    assert ':' !in name && AfterColon(src) != "";
    hide Pending, Joined, Step, Normal, Render, Components, Find, AllPlain, Resolve, Roomy, Holds;
    var it := new Iterator(src);
    assert it.element == name;
    var hasFs := it.element != "";
    var w: nat := PutHead(dest, it.element);

    ghost var c;
    var atEnd;
    w, atEnd, c := Round(it, dest, len, w, true, hasFs, name, stack, goal);
    stack := Step(stack, c);
    while !atEnd
      invariant it.cursor <= |src| && it.path == src && fresh(it) && atEnd == (it.cursor == |src|)
      invariant Pending(src[it.cursor..], Head(name), stack, goal, len) && Holds(dest, w, Head(name), stack)
      decreases |src| - it.cursor
    {
      w, atEnd, c := Round(it, dest, len, w, false, hasFs, name, stack, goal);
      stack := Step(stack, c);
    }
    assert src[it.cursor..] == "";
    PendingDone(Head(name), stack, goal, len);
    w := Finish(dest, len, w, hasFs, name, stack);
  }
}
