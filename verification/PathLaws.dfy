/**
 What normalising does to the components of a path: two dots undo the component in front of them, at the root they do
 nothing, and one dot or no component at all can be dropped anywhere. Together with the components that are kept these
 rules say what every absolute path becomes.
 */
module PathLaws {
  import opened PathNormalize
  import opened Sequences

  // ---------- On components ----------

  lemma {:induction false} ResolveInTwoParts(stack: seq<string>, cs: seq<string>, ds: seq<string>)
    ensures Resolve(stack, cs + ds) == Resolve(Resolve(stack, cs), ds)
    decreases |cs|
  {
    if cs == [] {
      assert cs + ds == ds;
    } else {
      HeadFirst(cs, ds);
      ResolveInTwoParts(Step(stack, cs[0]), cs[1..], ds);
    }
  }

  /** ".." undoes the component before it. */
  lemma ParentUndoesChild(stack: seq<string>, cs: seq<string>, c: string, ds: seq<string>)
    requires c != "" && c != "." && c != ".."
    ensures Resolve(stack, cs + [c, ".."] + ds) == Resolve(stack, cs + ds)
  {
    var s := Resolve(stack, cs);
    ResolveInTwoParts(stack, cs + [c, ".."], ds);
    ResolveInTwoParts(stack, cs, [c, ".."]);
    ResolveInTwoParts(stack, cs, ds);
    assert [c, ".."][1..] == [".."] && [".."][1..] == [];
    assert Step(Step(s, c), "..") == s;
    assert Resolve(s, [c, ".."]) == Resolve(Step(s, c), [".."]) == Resolve(Step(Step(s, c), ".."), []);
  }

  /** The root is its own parent. */
  lemma RootIsItsOwnParent(ds: seq<string>)
    ensures Resolve([], [".."] + ds) == Resolve([], ds)
  {
    assert ([".."] + ds)[1..] == ds;
  }

  /** "" and "." stand for nothing. */
  lemma NothingInBetween(stack: seq<string>, cs: seq<string>, c: string, ds: seq<string>)
    requires c == "" || c == "."
    ensures Resolve(stack, cs + [c] + ds) == Resolve(stack, cs + ds)
  {
    var s := Resolve(stack, cs);
    ResolveInTwoParts(stack, cs + [c], ds);
    ResolveInTwoParts(stack, cs, [c]);
    ResolveInTwoParts(stack, cs, ds);
    assert [c][1..] == [] && Resolve(s, [c]) == Resolve(Step(s, c), []);
  }

  // ---------- On paths ----------

  /** A path cut in front of a slash, its first colon, if it has one, being in the first part. */
  predicate Cut(a: string, b: string) {
    && (AfterColon(a) != "" ==> AfterColon(a)[0] == '/') && (b != "" ==> b[0] == '/')
    && (':' in a || ':' !in b)
  }

  lemma ColonInsideAny(a: string, c: char)
    requires c in a
    ensures Find(a, c) < |a|
  {
    assert a[..|a|] == a;
  }

  lemma FindInFirst(a: string, b: string, c: char)
    requires c in a
    ensures Find(a + b, c) == Find(a, c) < |a|
  {
    var k := Find(a, c);
    ColonInsideAny(a, c);
    assert a + b == a[..k] + (a[k..] + b);
    FindFirst(a[..k], a[k..] + b, c);
  }

  /** What follows belongs to the same file system. */
  lemma SameFs(a: string, b: string)
    requires Cut(a, b)
    ensures FsName(a + b) == FsName(a) && AfterColon(a + b) == AfterColon(a) + b
  {
    if ':' in a {
      FindInFirst(a, b, ':');
      var k := Find(a, ':');
      assert (a + b)[..k] == a[..k] && (a + b)[k + 1..] == a[k + 1..] + b;
    } else {
      NoColon(a);
      NoColon(a + b);
    }
  }

  lemma FirstComponent(s: string) returns (c: string, rest: string)
    requires s != "" && s[0] == '/'
    ensures s == "/" + c + rest && '/' !in c && (rest != "" ==> rest[0] == '/')
  {
    var k := Find(s[1..], '/');
    c, rest := s[1..][..k], s[1..][k..];
  }

  lemma {:induction false} ComponentsInTwoParts(s: string, t: string)
    requires (s != "" ==> s[0] == '/') && (t != "" ==> t[0] == '/')
    ensures s + t != "" ==> (s + t)[0] == '/'
    ensures Components(s + t) == Components(s) + Components(t)
    decreases |s|
  {
    if s == "" {
      assert s + t == t;
    } else {
      hide Components;
      var c, rest := FirstComponent(s);
      assert |rest| < |s|;
      ComponentsInTwoParts(rest, t);
      AppendIsAssociative("/" + c, rest, t);
      OneComponent(c, rest);
      OneComponent(c, rest + t);
      AppendIsAssociative([c], Components(rest), Components(t));
    }
  }

  lemma ComponentsOf(a: string, b: string)
    requires Cut(a, b)
    ensures a + b == "" || AfterColon(a + b) == "" || AfterColon(a + b)[0] == '/'
    ensures FsName(a + b) == FsName(a) && AfterColon(a + b) == AfterColon(a) + b
    ensures Components(AfterColon(a + b)) == Components(AfterColon(a)) + Components(b)
  {
    SameFs(a, b);
    ComponentsInTwoParts(AfterColon(a), b);
  }

  /** What stands between a and b only counts by its components. */
  lemma BetweenParts(a: string, x: string, b: string)
    requires Cut(a, x + b) && Cut(a, b) && (x != "" ==> x[0] == '/') && AfterColon(a) + b != ""
    ensures IsAbsolute(a + (x + b)) && IsAbsolute(a + b)
    ensures Resolve([], Components(AfterColon(a)) + (Components(x) + Components(b)))
         == Resolve([], Components(AfterColon(a)) + Components(b))
         ==> Normal(a + (x + b)) == Normal(a + b)
  {
    ComponentsOf(a, x + b);
    ComponentsOf(a, b);
    ComponentsInTwoParts(x, b);
  }

  lemma CutAround(a: string, x: string, b: string)
    requires Cut(a, b) && x != "" && x[0] == '/' && (':' in a || ':' !in x)
    ensures Cut(a, x + b) && (AfterColon(a) != "" ==> AfterColon(a)[0] == '/') && (b != "" ==> b[0] == '/')
  {
  }

  lemma ParentComponent()
    ensures Components("/..") == [".."]
  {
    OneComponent("..", "");
    assert "/" + ".." + "" == "/..";
  }

  lemma ChildAndParent(c: string)
    requires '/' !in c
    ensures Components("/" + c + "/..") == [c, ".."]
  {
    hide Components;
    ParentComponent();
    OneComponent(c, "/..");
    assert [c] + [".."] == [c, ".."];
  }

  /** "/x/.." can be cut out of an absolute path, whatever stands before and behind it. */
  lemma ParentUndoesChildInPath(a: string, c: string, b: string)
    requires Cut(a, b) && IsPlain(c) && (':' in a || ':' !in c) && AfterColon(a) + b != ""
    ensures IsAbsolute(a + ("/" + c + "/.." + b)) && IsAbsolute(a + b)
    ensures Normal(a + ("/" + c + "/.." + b)) == Normal(a + b)
  {
    var x := "/" + c + "/..";
    hide Components, Resolve, Normal, AfterColon, Cut;
    CutAround(a, x, b);
    ChildAndParent(c);
    var cs, ds := Components(AfterColon(a)), Components(b);
    ParentUndoesChild([], cs, c, ds);
    AppendIsAssociative(cs, [c, ".."], ds);
    BetweenParts(a, x, b);
  }

  /** Above the root there is nothing but the root. */
  lemma ParentOfRootInPath(a: string, b: string)
    requires Cut(a, b) && AfterColon(a) == "" && b != ""
    ensures IsAbsolute(a + ("/.." + b)) && IsAbsolute(a + b) && Normal(a + ("/.." + b)) == Normal(a + b)
  {
    ParentComponent();
    assert Components(AfterColon(a)) == [];
    hide Components, Resolve, Normal;
    var ds := Components(b);
    RootIsItsOwnParent(ds);
    assert [] + ([".."] + ds) == [".."] + ds && [] + ds == ds;
    BetweenParts(a, "/..", b);
  }

  /** A single dot can be dropped, and so can one of two slashes. */
  lemma NothingInPath(a: string, c: string, b: string)
    requires Cut(a, b) && (c == "" || c == ".") && AfterColon(a) + b != ""
    ensures IsAbsolute(a + ("/" + c + b)) && IsAbsolute(a + b) && Normal(a + ("/" + c + b)) == Normal(a + b)
  {
    var x := "/" + c;
    assert Components(x) == [c] by {
      OneComponent(c, "");
      assert "/" + c + "" == x;
    }
    var cs, ds := Components(AfterColon(a)), Components(b);
    NothingInBetween([], cs, c, ds);
    AppendIsAssociative(cs, [c], ds);
    hide Components, Resolve, Normal, AfterColon;
    BetweenParts(a, x, b);
  }

  /** Components that are neither empty nor made of dots are all kept, in order. */
  lemma PlainPathStays(name: string, cs: seq<string>)
    requires name != "" && ':' !in name && AllPlain(cs) && cs != []
    ensures var path := name + ":" + Joined(cs); IsAbsolute(path) && Normal(path) == path
  {
    BodyResolves(cs);
    hide Components, Resolve;
    WithColon(name, Joined(cs));
    assert Head(name) + Joined(cs) == name + ":" + Joined(cs);
  }
}
