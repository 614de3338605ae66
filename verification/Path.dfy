/** Lexical canonisation of paths: "." and empty components dropped, ".." resolved where it can be. */
module Path {

  const NAME_MAX := 1023

  // ---- paths and what they mean ----

  /** The index of the first slash from `k` on, or the length. */
  function SlashFrom(s: string, k: nat): (i: nat)
    requires k <= |s|
    ensures k <= i <= |s| && (i < |s| ==> s[i] == '/') && forall j :: k <= j < i ==> s[j] != '/'
    decreases |s| - k
  {
    if k == |s| || s[k] == '/' then k else SlashFrom(s, k + 1)
  }

  /** The components from `k` on, empty ones included. */
  function Components(s: string, k: nat): (fs: seq<string>)
    requires k <= |s|
    ensures fs != []
    decreases |s| - k
  {
    var i := SlashFrom(s, k);
    if i == |s| then [s[k..]] else [s[k..i]] + Components(s, i + 1)
  }

  predicate IsAbsolute(s: string) {
    s != "" && s[0] == '/'
  }

  /** The directory reached from the directory `at`, given as the names below the root. Above the root is the root. */
  function Enter(at: seq<string>, f: string): seq<string> {
    if f == "" || f == "." then at
    else if f == ".." then (if at == [] then at else at[..|at| - 1])
    else at + [f]
  }

  function Go(at: seq<string>, fs: seq<string>): seq<string>
    decreases |fs|
  {
    if fs == [] then at else Go(Enter(at, fs[0]), fs[1..])
  }

  /** Where a path leads to from the directory `at`. */
  function Meaning(path: string, at: seq<string>): seq<string> {
    Go(if IsAbsolute(path) then [] else at, Components(path, 0))
  }

  // ---- the canonical form ----

  /** One more component. ".." takes the last one away, unless that is "..", or is the first one of a relative path. */
  function Push(abs: bool, cs: seq<string>, f: string): seq<string> {
    if f == "" || f == "." then cs
    else if f == ".." then
      if cs == [] then (if abs then [] else [".."])
      else if (abs || |cs| > 1) && cs[|cs| - 1] != ".." then cs[..|cs| - 1]
      else cs + [".."]
    else cs + [f]
  }

  function Walk(abs: bool, cs: seq<string>, fs: seq<string>): seq<string>
    decreases |fs|
  {
    if fs == [] then cs else Walk(abs, Push(abs, cs, fs[0]), fs[1..])
  }

  /** The path of some components. */
  function Join(abs: bool, cs: seq<string>): string {
    if cs == [] then ""
    else Join(abs, cs[..|cs| - 1]) + (if |cs| > 1 || abs then "/" else "") + cs[|cs| - 1]
  }

  /** The components as a path, which is never empty. */
  function Form(abs: bool, cs: seq<string>): string {
    if cs != [] then Join(abs, cs) else if abs then "/" else "."
  }

  function Canonized(path: string): string {
    Form(IsAbsolute(path), Walk(IsAbsolute(path), [], Components(path, 0)))
  }

  predicate IsName(f: string) {
    f != "" && f != "." && forall i :: 0 <= i < |f| ==> f[i] != '/'
  }

  /** Components that stay as they are: ".." only at the beginning of a relative path, after another "..",
      or after its first component. */
  ghost predicate Stable(abs: bool, cs: seq<string>) {
    forall i :: 0 <= i < |cs| ==> StableAt(abs, cs, i)
  }

  predicate StableAt(abs: bool, cs: seq<string>, i: nat)
    requires i < |cs|
  {
    IsName(cs[i]) && (cs[i] == ".." ==> !abs && (i <= 1 || cs[i - 1] == ".."))
  }

  lemma PushStable(abs: bool, cs: seq<string>, f: string)
    requires Stable(abs, cs) && (IsName(f) || f == "" || f == ".")
    ensures Stable(abs, Push(abs, cs, f))
  {
    var r := Push(abs, cs, f);
    if cs != [] {
      assert StableAt(abs, cs, |cs| - 1);
    }
    forall i | 0 <= i < |r| ensures StableAt(abs, r, i) {
      if i < |cs| {
        assert StableAt(abs, cs, i);
      }
    }
  }

  lemma {:induction false} WalkStable(abs: bool, cs: seq<string>, fs: seq<string>)
    requires Stable(abs, cs) && forall i :: 0 <= i < |fs| ==> IsName(fs[i]) || fs[i] == "" || fs[i] == "."
    ensures Stable(abs, Walk(abs, cs, fs))
    decreases |fs|
  {
    hide Stable, Push, IsName;
    if fs != [] {
      assert IsName(fs[0]) || fs[0] == "" || fs[0] == ".";
      PushStable(abs, cs, fs[0]);
      WalkStable(abs, Push(abs, cs, fs[0]), fs[1..]);
    }
  }

  lemma {:induction false} ComponentsAreNames(s: string, k: nat)
    requires k <= |s|
    ensures forall i :: 0 <= i < |Components(s, k)| ==>
                          var f := Components(s, k)[i]; IsName(f) || f == "" || f == "."
    decreases |s| - k
  {
    var i := SlashFrom(s, k);
    if i < |s| {
      ComponentsAreNames(s, i + 1);
    }
  }

  // ---- the meaning is preserved ----

  lemma {:induction false} GoOn(at: seq<string>, a: seq<string>, f: string)
    ensures Go(at, a + [f]) == Enter(Go(at, a), f)
    decreases |a|
  {
    if a == [] {
      assert [f][1..] == [];
    } else {
      assert (a + [f])[1..] == a[1..] + [f];
      GoOn(Enter(at, a[0]), a[1..], f);
    }
  }

  lemma PushMeaning(abs: bool, cs: seq<string>, f: string, at: seq<string>)
    requires Stable(abs, cs) && (abs ==> at == [])
    ensures Go(at, Push(abs, cs, f)) == Enter(Go(at, cs), f)
  {
    if Push(abs, cs, f) == cs + [f] {
      GoOn(at, cs, f);
    } else if f == ".." && cs != [] {
      var last := cs[|cs| - 1];
      assert cs == cs[..|cs| - 1] + [last];
      GoOn(at, cs[..|cs| - 1], last);
      assert StableAt(abs, cs, |cs| - 1);
    }
  }

  lemma {:induction false} WalkMeaning(abs: bool, cs: seq<string>, fs: seq<string>, at: seq<string>)
    requires Stable(abs, cs) && (abs ==> at == [])
    requires forall i :: 0 <= i < |fs| ==> IsName(fs[i]) || fs[i] == "" || fs[i] == "."
    ensures Go(at, Walk(abs, cs, fs)) == Go(Go(at, cs), fs)
    decreases |fs|
  {
    hide Stable, Push, IsName, Enter;
    if fs != [] {
      assert IsName(fs[0]) || fs[0] == "" || fs[0] == ".";
      PushStable(abs, cs, fs[0]);
      PushMeaning(abs, cs, fs[0], at);
      WalkMeaning(abs, Push(abs, cs, fs[0]), fs[1..], at);
    }
  }

  // ---- taking a canonical path apart again ----

  lemma {:induction false} SlashAfter(s: string, k: nat, n: nat)
    requires k <= n <= |s| && (n < |s| ==> s[n] == '/') && forall j :: k <= j < n ==> s[j] != '/'
    ensures SlashFrom(s, k) == n
    decreases n - k
  {
    if k < n {
      SlashAfter(s, k + 1, n);
    }
  }

  lemma ByParts(s: string, f: string)
    ensures var t := s + "/" + f; |t| == |s| + 1 + |f| && t[|s|] == '/' && t[..|s|] == s && t[|s| + 1..] == f
  {
  }

  lemma SameSlice(t: string, s: string, k: nat, i: nat)
    requires k <= i <= |s| <= |t| && t[..|s|] == s
    ensures t[k..i] == s[k..i]
  {
    assert t[..|s|][k..i] == t[k..i];
  }

  lemma AssociateNames(a: seq<string>, b: seq<string>, c: seq<string>)
    ensures a + (b + c) == a + b + c
  {
  }

  /** A component more at the end. */
  lemma {:induction false} ComponentsMore(s: string, k: nat, f: string)
    requires k <= |s| && forall i :: 0 <= i < |f| ==> f[i] != '/'
    ensures Components(s + "/" + f, k) == Components(s, k) + [f]
    decreases |s| - k
  {
    hide SlashFrom;
    var t := s + "/" + f;
    var i := SlashFrom(s, k);
    ByParts(s, f);
    SlashAfter(t, k, i);
    SameSlice(t, s, k, i);
    if i < |s| {
      ComponentsMore(s, i + 1, f);
      AssociateNames([s[k..i]], Components(s, i + 1), [f]);
    } else {
      SlashAfter(t, i + 1, |t|);
      assert s[k..] == s[k..i];
    }
  }

  lemma OneComponent(f: string)
    requires forall i :: 0 <= i < |f| ==> f[i] != '/'
    ensures Components(f, 0) == [f]
  {
    SlashAfter(f, 0, |f|);
    assert f[0..] == f;
  }

  lemma JoinMore(abs: bool, front: seq<string>, last: string)
    ensures Join(abs, front + [last]) == Join(abs, front) + (if front != [] || abs then "/" else "") + last
  {
    var cs := front + [last];
    assert cs[..|cs| - 1] == front;
  }

  lemma Slashed(s: string, f: string)
    ensures IsAbsolute(s + "/" + f) == (s == "" || IsAbsolute(s))
  {
  }

  /** The components of a joined path; an absolute one begins with an empty component. */
  lemma {:induction false} JoinApart(abs: bool, cs: seq<string>)
    requires Stable(abs, cs) && cs != []
    ensures Components(Join(abs, cs), 0) == (if abs then [""] else []) + cs
    ensures IsAbsolute(Join(abs, cs)) == abs && Join(abs, cs) != ""
    decreases |cs|
  {
    var front, last := cs[..|cs| - 1], cs[|cs| - 1];
    assert StableAt(abs, cs, |cs| - 1) && cs == front + [last];
    StableFront(abs, cs);
    hide Components, Join, Stable;
    JoinMore(abs, front, last);
    Slashed(Join(abs, front), last);
    if front != [] {
      JoinApart(abs, front);
      ComponentsMore(Join(abs, front), 0, last);
      AppendLast(abs, front, last);
    } else {
      JoinNone(abs);
      if abs {
        OneComponent("");
        ComponentsMore("", 0, last);
      } else {
        OneComponent(last);
        assert "" + "" + last == last;
      }
    }
  }

  lemma AppendLast(abs: bool, front: seq<string>, last: string)
    ensures (if abs then [""] else []) + front + [last] == (if abs then [""] else []) + (front + [last])
  {
  }

  lemma JoinNone(abs: bool)
    ensures Join(abs, []) == ""
  {
  }

  lemma StableFront(abs: bool, cs: seq<string>)
    requires Stable(abs, cs) && cs != []
    ensures Stable(abs, cs[..|cs| - 1])
  {
    var front := cs[..|cs| - 1];
    forall i | 0 <= i < |front| ensures StableAt(abs, front, i) {
      assert StableAt(abs, cs, i);
    }
  }

  lemma PushAgain(abs: bool, cs: seq<string>, k: nat)
    requires Stable(abs, cs) && k < |cs|
    ensures Push(abs, cs[..k], cs[k]) == cs[..k] + [cs[k]]
  {
    assert StableAt(abs, cs, k);
    if cs[k] == ".." && k > 1 {
      assert cs[..k][k - 1] == cs[k - 1] == "..";
    }
  }

  /** Stable components are pushed one after the other. */
  lemma {:induction false} StableStays(abs: bool, cs: seq<string>, k: nat)
    requires Stable(abs, cs) && k <= |cs|
    ensures Walk(abs, cs[..k], cs[k..]) == cs
    decreases |cs| - k
  {
    hide Stable, Push;
    if k < |cs| {
      PushAgain(abs, cs, k);
      assert cs[..k + 1] == cs[..k] + [cs[k]];
      assert cs[k..][1..] == cs[k + 1..];
      StableStays(abs, cs, k + 1);
    } else {
      assert cs[..k] == cs && cs[k..] == [];
    }
  }

  // ---- main results ----

  lemma CanonicalParts(path: string) returns (cs: seq<string>)
    ensures cs == Walk(IsAbsolute(path), [], Components(path, 0)) && Stable(IsAbsolute(path), cs)
    ensures IsAbsolute(Canonized(path)) == IsAbsolute(path)
    ensures Walk(IsAbsolute(path), [], Components(Canonized(path), 0)) == cs
    ensures forall at :: Go(at, Components(Canonized(path), 0)) == Go(at, cs)
  {
    var abs := IsAbsolute(path);
    cs := Walk(abs, [], Components(path, 0));
    ComponentsAreNames(path, 0);
    WalkStable(abs, [], Components(path, 0));
    hide Components, Join, Stable, Walk;
    if cs != [] {
      JoinApart(abs, cs);
      StableStays(abs, cs, 0);
      assert cs[..0] == [] && cs[0..] == cs;
      EmptyFirst(abs, cs);
    } else {
      OneComponent("");
      OneComponent(".");
      ComponentsMore("", 0, "");
      EmptyFirst(abs, cs);
      NothingInside(abs);
    }
  }

  lemma EmptyFirst(abs: bool, cs: seq<string>)
    ensures Walk(abs, [], (if abs then [""] else []) + cs) == Walk(abs, [], cs)
    ensures forall at :: Go(at, (if abs then [""] else []) + cs) == Go(at, cs)
  {
    assert abs ==> ([""] + cs)[1..] == cs;
    assert !abs ==> [] + cs == cs;
  }

  lemma NothingInside(abs: bool)
    ensures Walk(abs, [], []) == Walk(abs, [], ["."]) == Walk(abs, [], ["", ""]) == []
    ensures forall at :: Go(at, []) == Go(at, ["."]) == Go(at, ["", ""]) == at
  {
    assert ["", ""][1..] == [""] && [""][1..] == [] && ["."][1..] == [];
    assert forall at :: Go(at, [""]) == at;
    assert Walk(abs, [], [""]) == [];
  }

  /** A canonical path is canonical. */
  lemma Idempotent(path: string)
    ensures Canonized(Canonized(path)) == Canonized(path)
  {
    hide Components, Join, Stable, Walk, IsAbsolute;
    var cs := CanonicalParts(path);
  }

  /** From any directory, the canonical path leads where the path leads. */
  lemma MeaningKept(path: string, at: seq<string>)
    ensures Meaning(Canonized(path), at) == Meaning(path, at)
  {
    hide Components, Join, Walk, IsAbsolute, Canonized;
    var cs := CanonicalParts(path);
    ComponentsAreNames(path, 0);
    var start := if IsAbsolute(path) then [] else at;
    NoneStable(IsAbsolute(path));
    WalkMeaning(IsAbsolute(path), [], Components(path, 0), start);
  }

  lemma NoneStable(abs: bool)
    ensures Stable(abs, []) && forall at :: Go(at, []) == at
  {
  }

  /** The canonical form of an absolute path is the place it leads to, spelled out: no ".", no ".." and no
      empty name is left. */
  lemma AbsoluteIsPlace(path: string)
    requires IsAbsolute(path)
    ensures var place := Meaning(path, []);
            && Canonized(path) == (if place == [] then "/" else Join(true, place))
            && forall i :: 0 <= i < |place| ==> IsName(place[i]) && place[i] != ".."
  {
    hide Components, Join, Walk;
    var cs := CanonicalParts(path);
    ComponentsAreNames(path, 0);
    NoneStable(true);
    WalkMeaning(true, [], Components(path, 0), []);
    NamesSpellOut(cs, |cs|);
    assert cs[..|cs|] == cs;
    forall i | 0 <= i < |cs| ensures IsName(cs[i]) && cs[i] != ".." {
      assert StableAt(true, cs, i);
    }
  }

  lemma {:induction false} NamesSpellOut(cs: seq<string>, k: nat)
    requires Stable(true, cs) && k <= |cs|
    ensures Go([], cs[..k]) == cs[..k]
    decreases k
  {
    if k > 0 {
      NamesSpellOut(cs, k - 1);
      assert cs[..k] == cs[..k - 1] + [cs[k - 1]];
      GoOn([], cs[..k - 1], cs[k - 1]);
      assert StableAt(true, cs, k - 1);
    }
  }

  /** Two absolute paths have the same canonical form exactly if they lead to the same place. */
  lemma SameForm(p: string, q: string)
    requires IsAbsolute(p) && IsAbsolute(q)
    ensures Canonized(p) == Canonized(q) <==> Meaning(p, []) == Meaning(q, [])
  {
    hide Canonized, Meaning, Join, IsAbsolute;
    AbsoluteIsPlace(p);
    AbsoluteIsPlace(q);
    MeaningKept(p, []);
    MeaningKept(q, []);
  }

  // ---- what a place is ----

  /** Where a path leads with one more component: nowhere else with none or ".", one up with "..", which stays at
      the root, and else one down. */
  lemma PlaceBelow(path: string, f: string, at: seq<string>)
    requires path != "" && forall i :: 0 <= i < |f| ==> f[i] != '/'
    ensures var place, next := Meaning(path, at), Meaning(path + "/" + f, at);
            && (f == "" || f == "." ==> next == place)
            && (f == ".." ==> next == if place == [] then [] else place[..|place| - 1])
            && (f != "" && f != "." && f != ".." ==> next == place + [f])
  {
    hide Components, Go;
    assert (path + "/" + f)[0] == path[0];
    ComponentsMore(path, 0, f);
    GoOn(if IsAbsolute(path) then [] else at, Components(path, 0), f);
  }

  /** Where paths of one component lead. */
  lemma PlaceFirst(f: string, at: seq<string>)
    requires forall i :: 0 <= i < |f| ==> f[i] != '/'
    ensures Meaning("/", at) == []
    ensures f == "" || f == "." ==> Meaning(f, at) == at
    ensures f == ".." ==> Meaning(f, at) == if at == [] then [] else at[..|at| - 1]
    ensures f != "" && f != "." && f != ".." ==> Meaning(f, at) == at + [f] && Meaning("/" + f, at) == [f]
  {
    hide Components, Go;
    OneComponent(f);
    GoOne(at, f);
    RootPlace(f, at);
    RootPlace("", at);
    assert "/" + "" == "/";
  }

  lemma RootPlace(f: string, at: seq<string>)
    requires forall i :: 0 <= i < |f| ==> f[i] != '/'
    ensures Meaning("/" + f, at) == Enter([], f)
  {
    hide Components, Go, Enter;
    OneComponent("");
    ComponentsMore("", 0, f);
    assert "" + "/" + f == "/" + f;
    GoOn([], [""], f);
    GoOne([], "");
    EnterNothing();
  }

  lemma EnterNothing()
    ensures Enter([], "") == []
  {
  }

  lemma GoOne(at: seq<string>, f: string)
    ensures Go(at, [f]) == Enter(at, f)
  {
    assert Go(Enter(at, f), []) == Enter(at, f) && [f][1..] == [];
  }

  // ---- what the form looks like ----

  /** No two slashes in a row and none at the end; a dot at the beginning of a component is not all of it. */
  predicate Tidy(s: string) {
    forall i :: 0 <= i < |s| ==> TidyAt(s, i)
  }

  predicate TidyAt(s: string, i: nat)
    requires i < |s|
  {
    && (s[i] == '/' ==> i + 1 < |s| && s[i + 1] != '/')
    && (s[i] == '.' && (i == 0 || s[i - 1] == '/') ==> i + 1 < |s| && s[i + 1] != '/')
  }

  lemma TidyMore(s: string, f: string)
    requires Tidy(s) && IsName(f)
    ensures Tidy(s + "/" + f)
  {
    var t := s + "/" + f;
    ByParts(s, f);
    forall i | 0 <= i < |t| ensures TidyAt(t, i) {
      if i < |s| {
        assert TidyAt(s, i);
        assert t[i] == s[i] && (i > 0 ==> t[i - 1] == s[i - 1]) && (i + 1 < |s| ==> t[i + 1] == s[i + 1]);
      } else {
        NotJustDot(f);
        assert t[|s| + 1..] == f;
        assert t[|s| + 1] == f[0] && (|f| > 1 ==> t[|s| + 2] == f[1]);
        assert i > |s| ==> t[i] == f[i - |s| - 1];
        assert i > |s| + 1 ==> t[i - 1] == f[i - |s| - 2];
      }
    }
  }

  lemma NotJustDot(f: string)
    requires IsName(f)
    ensures f != "" && (f[0] == '.' ==> |f| > 1)
  {
    assert |f| == 1 ==> f == [f[0]];
  }

  lemma {:induction false} JoinIsTidy(abs: bool, cs: seq<string>)
    requires Stable(abs, cs)
    ensures Tidy(Join(abs, cs))
    decreases |cs|
  {
    hide Stable, Tidy, IsName;
    if cs == [] {
      JoinNone(abs);
      NothingTidy();
    } else {
      var front, last := cs[..|cs| - 1], cs[|cs| - 1];
      StableLast(abs, cs);
      StableFront(abs, cs);
      assert cs == front + [last];
      JoinMore(abs, front, last);
      JoinIsTidy(abs, front);
      if front != [] || abs {
        TidyMore(Join(abs, front), last);
      } else {
        JoinNone(abs);
        NameIsTidy(last);
        assert "" + "" + last == last;
      }
    }
  }

  lemma NothingTidy()
    ensures Tidy("")
  {
  }

  lemma NameIsTidy(f: string)
    requires IsName(f)
    ensures Tidy(f)
  {
    NotJustDot(f);
  }

  /** The form is never empty; it begins with a slash exactly if the path does; and unless it is "/" or "." it has
      no empty component and no ".". */
  lemma FormIsTidy(path: string)
    ensures var r := Canonized(path);
            && r != "" && (r[0] == '/' <==> path != "" && path[0] == '/')
            && (r != "/" && r != "." ==> Tidy(r))
  {
    hide Components, Join, Stable, Walk;
    var cs := CanonicalParts(path);
    if cs != [] {
      JoinApart(IsAbsolute(path), cs);
      JoinIsTidy(IsAbsolute(path), cs);
      assert Canonized(path) == Join(IsAbsolute(path), cs);
    }
  }

  /** Components that lead nowhere. */
  predicate Idle(f: string) { f == "" || f == "." }

  /** What is left of a relative path begins with its first component that leads somewhere, even if ".." follows;
      if there is none, "." is left. */
  lemma RelativeBegins(path: string)
    requires !IsAbsolute(path)
    ensures var fs, gs := Components(path, 0), Components(Canonized(path), 0);
            && (forall k: nat :: k < |fs| && !Idle(fs[k]) && (forall j :: 0 <= j < k ==> Idle(fs[j])) ==>
                                   gs[0] == fs[k])
            && ((forall j :: 0 <= j < |fs| ==> Idle(fs[j])) <==> Canonized(path) == ".")
  {
    hide Components, Join, Stable, Walk, Idle;
    var fs := Components(path, 0);
    var cs := CanonicalParts(path);
    if k: nat :| k < |fs| && !Idle(fs[k]) && forall j :: 0 <= j < k ==> Idle(fs[j]) {
      FirstStays(fs, k);
      JoinApart(false, cs);
      assert Components(Canonized(path), 0) == cs;
      OneComponent(".");
      StableFirst(cs);
      FirstIdle(fs, k);
    } else {
      AllIdle(fs);
    }
  }

  lemma StableFirst(cs: seq<string>)
    requires Stable(false, cs) && cs != []
    ensures cs[0] != "."
  {
    assert StableAt(false, cs, 0);
  }

  lemma FirstIdle(fs: seq<string>, k: nat)
    requires k < |fs| && !Idle(fs[k]) && forall j :: 0 <= j < k ==> Idle(fs[j])
    ensures forall m: nat :: m < |fs| && !Idle(fs[m]) && (forall j :: 0 <= j < m ==> Idle(fs[j])) ==> m == k
  {
    hide Idle;
  }

  /** Without a first component that leads somewhere, none does. */
  lemma AllIdle(fs: seq<string>)
    requires forall k: nat :: k < |fs| && !Idle(fs[k]) ==> exists j :: 0 <= j < k && !Idle(fs[j])
    ensures (forall j :: 0 <= j < |fs| ==> Idle(fs[j])) && Walk(false, [], fs) == []
  {
    NoneLeads(fs, |fs|);
    StaysNowhere(fs);
  }

  lemma {:induction false} NoneLeads(fs: seq<string>, k: nat)
    requires k <= |fs|
    requires forall k: nat :: k < |fs| && !Idle(fs[k]) ==> exists j :: 0 <= j < k && !Idle(fs[j])
    ensures forall j :: 0 <= j < k ==> Idle(fs[j])
    decreases k
  {
    hide Idle;
    if k > 0 {
      NoneLeads(fs, k - 1);
    }
  }

  lemma {:induction false} StaysNowhere(fs: seq<string>)
    requires forall j :: 0 <= j < |fs| ==> Idle(fs[j])
    ensures Walk(false, [], fs) == []
    decreases |fs|
  {
    if fs != [] {
      assert Idle(fs[0]);
      StaysNowhere(fs[1..]);
    }
  }

  lemma {:induction false} FirstStays(fs: seq<string>, k: nat)
    requires k < |fs| && !Idle(fs[k]) && forall j :: 0 <= j < k ==> Idle(fs[j])
    ensures Walk(false, [], fs) != [] && Walk(false, [], fs)[0] == fs[k]
    decreases k
  {
    if k > 0 {
      assert Idle(fs[0]);
      FirstStays(fs[1..], k - 1);
    } else {
      assert Push(false, [], fs[0]) == [fs[0]];
      BeginsWith(fs[1..], [fs[0]]);
    }
  }

  lemma {:induction false} BeginsWith(fs: seq<string>, cs: seq<string>)
    requires cs != []
    ensures Walk(false, cs, fs) != [] && Walk(false, cs, fs)[0] == cs[0]
    decreases |fs|
  {
    if fs != [] {
      BeginsWith(fs[1..], Push(false, cs, fs[0]));
    }
  }

  // ---- the program: a string built and cut in a buffer ----

  const NUL := '\0'

  predicate NoNul(s: string) {
    forall i :: 0 <= i < |s| ==> s[i] != NUL
  }

  /** The buffer holds `s`, ended by a zero. */
  ghost predicate Holds(buf: array<char>, s: string)
    reads buf
  {
    |s| < buf.Length && NoNul(s) && buf[|s|] == NUL && forall i :: 0 <= i < |s| ==> buf[i] == s[i]
  }

  /** Appends `x`, as far as it fits. */
  method Pstrcat(buf: array<char>, ghost s: string, x: string)
    requires Holds(buf, s) && NoNul(x)
    modifies buf
    ensures Holds(buf, if |s| + |x| < buf.Length then s + x else (s + x)[..buf.Length - 1])
  {
    var len := 0;
    while buf[len] != NUL
      invariant 0 <= len <= |s| && Holds(buf, s)
      decreases |s| - len
    {
      len := len + 1;
    }
    var i := 0;
    while i < |x| && len + i < buf.Length - 1
      invariant 0 <= i <= |x| && len + i < buf.Length && len == |s|
      invariant forall k :: 0 <= k < len ==> buf[k] == s[k]
      invariant forall k :: len <= k < len + i ==> buf[k] == x[k - len]
    {
      buf[len + i] := x[i];
      i := i + 1;
    }
    buf[len + i] := NUL;
  }

  /** The last slash, or -1. */
  method Strrchr(buf: array<char>, ghost s: string) returns (q: int)
    requires Holds(buf, s)
    ensures q == -1 ==> forall i :: 0 <= i < |s| ==> s[i] != '/'
    ensures q != -1 ==> 0 <= q < |s| && s[q] == '/' && forall i :: q < i < |s| ==> s[i] != '/'
  {
    q := -1;
    var i := 0;
    while buf[i] != NUL
      invariant 0 <= i <= |s|
      invariant q == -1 ==> forall k :: 0 <= k < i ==> s[k] != '/'
      invariant q != -1 ==> 0 <= q < i && s[q] == '/' && forall k :: q < k < i ==> s[k] != '/'
      decreases |s| - i
    {
      if buf[i] == '/' {
        q := i;
      }
      i := i + 1;
    }
  }

  /** As much of a name as the program keeps. */
  function Clip(f: string): (c: string)
    ensures |c| <= |f| && c == if |f| <= 1023 then f else f[..1023]
  {
    if |f| <= NAME_MAX then f else f[..NAME_MAX]
  }

  /** The components from `k` on as the program reads them. */
  function Files(path: string, k: nat): (fs: seq<string>)
    requires k <= |path|
    decreases |path| - k
  {
    var i := SlashFrom(path, k);
    [Clip(path[k..i])] + if i < |path| then Files(path, i + 1) else []
  }

  /** Reads the component at `p`; `more` says whether a slash came after it. */
  method ExtractFile(path: string, p: nat) returns (file: string, next: nat, more: bool)
    requires p <= |path|
    ensures var i := SlashFrom(path, p);
            file == Clip(path[p..i]) && more == (i < |path|) && next == if more then i + 1 else i
  {
    file := "";
    next := p;
    assert path[p..p] == "";
    while true
      invariant p <= next <= |path| && file == Clip(path[p..next]) && SlashFrom(path, next) == SlashFrom(path, p)
      decreases |path| - next
    {
      if next == |path| {
        return file, next, false;
      }
      var c := path[next];
      ClipMore(path, p, next);
      next := next + 1;
      if c == '/' {
        return file, next, true;
      }
      if |file| < NAME_MAX {
        file := file + [c];
      }
    }
  }

  lemma ClipMore(path: string, p: nat, k: nat)
    requires p <= k < |path|
    ensures var f := Clip(path[p..k]); Clip(path[p..k + 1]) == if |f| < NAME_MAX then f + [path[k]] else f
  {
  }

  /** The buffer ends with the component "..". */
  method EndsWithUp(buf: array<char>, ghost s: string, q: nat, ghost last: string) returns (up: bool)
    requires Holds(buf, s) && q < |s| && last == s[q + 1..]
    ensures up == (last == "..")
  {
    up := buf[q + 1] == '.' && buf[q + 2] == '.' && buf[q + 3] == NUL;
    if up {
      assert |last| == 2 && last == "..";
    }
  }

  lemma LastSlash(s: string, x: string, q: int)
    requires forall i :: 0 <= i < |x| ==> x[i] != '/'
    requires var t := s + "/" + x; (q == -1 ==> forall i :: 0 <= i < |t| ==> t[i] != '/')
                                   && (q != -1 ==> 0 <= q < |t| && t[q] == '/' && forall i :: q < i < |t| ==>
                                       t[i] != '/')
    ensures q == |s| && (s + "/" + x)[q + 1..] == x && (s + "/" + x)[..q] == s
  {
    var t := s + "/" + x;
    assert t[|s|] == '/';
    assert forall i {:trigger t[i]} :: |s| < i < |t| ==> t[i] == x[i - |s| - 1] != '/';
  }

  /** Goes up one directory, if the buffer does not say otherwise. */
  method GoUp(buf: array<char>, abs: bool, ghost cs: seq<string>) returns (copy: bool)
    requires Stable(abs, cs) && Holds(buf, Join(abs, cs))
    modifies buf
    ensures copy ==> Holds(buf, Join(abs, cs)) && Push(abs, cs, "..") == cs + [".."]
    ensures !copy ==> Holds(buf, Join(abs, Push(abs, cs, ".."))) && |Push(abs, cs, "..")| <= |cs|
    ensures !copy ==> |Join(abs, Push(abs, cs, ".."))| <= |Join(abs, cs)|
  {
    hide Join, Stable, Components;
    if cs == [] {
      JoinNone(abs);
    } else {
      JoinApart(abs, cs);
    }
    if buf[0] == NUL {
      return !abs;
    }
    hide Holds;
    ghost var front, last := cs[..|cs| - 1], cs[|cs| - 1];
    StableLast(abs, cs);
    JoinMore(abs, front, last);
    var q1 := Strrchr(buf, Join(abs, cs));
    if front != [] || abs {
      LastSlash(Join(abs, front), last, q1);
    } else {
      JoinNone(abs);
      assert "" + "" + last == last;
    }
    // a ".." at the end is not undone by another
    if q1 == -1 {
      return true;
    }
    copy := EndsWithUp(buf, Join(abs, cs), q1, last);
    if !copy {
      CutAt(buf, Join(abs, cs), q1);
    }
  }

  /** Ends the string in the buffer at `q`. */
  method CutAt(buf: array<char>, ghost s: string, q: nat)
    requires Holds(buf, s) && q < |s|
    modifies buf
    ensures Holds(buf, s[..q])
  {
    buf[q] := NUL;
  }

  lemma StableLast(abs: bool, cs: seq<string>)
    requires Stable(abs, cs) && cs != []
    ensures IsName(cs[|cs| - 1]) && cs == cs[..|cs| - 1] + [cs[|cs| - 1]]
    ensures cs[..|cs| - 1] == [] <==> |cs| == 1
  {
    assert StableAt(abs, cs, |cs| - 1);
  }

  /** Adds a component, with a separator if needed. */
  method Copy(buf: array<char>, abs: bool, ghost cs: seq<string>, file: string)
    requires Stable(abs, cs) && Holds(buf, Join(abs, cs)) && NoNul(file)
    requires |Join(abs, cs + [file])| < buf.Length
    modifies buf
    ensures Holds(buf, Join(abs, cs + [file]))
  {
    hide Join, Stable, Components;
    JoinMore(abs, cs, file);
    if cs == [] {
      JoinNone(abs);
    } else {
      JoinApart(abs, cs);
    }
    ghost var s := Join(abs, cs);
    if buf[0] != NUL || abs {
      Pstrcat(buf, s, "/");
      s := s + "/";
    } else {
      assert s + "" == s;
    }
    Pstrcat(buf, s, file);
  }

  /** Whatever the components `fs` make of `cs` one after the other fits into a buffer of `n` characters. */
  predicate WalkFits(abs: bool, cs: seq<string>, fs: seq<string>, n: nat)
    decreases |fs|
  {
    fs == [] || (|Join(abs, Push(abs, cs, fs[0]))| < n && WalkFits(abs, Push(abs, cs, fs[0]), fs[1..], n))
  }

  /** Half way: the components before `p` have been walked. */
  ghost predicate Walking(path: string, abs: bool, cs: seq<string>, p: nat, n: nat) {
    && p <= |path| && Stable(abs, cs) && WalkFits(abs, cs, Files(path, p), n)
    && Walk(abs, cs, Files(path, p)) == Walk(abs, [], Files(path, 0))
  }

  /** One component is walked. */
  lemma WalkingOn(path: string, abs: bool, cs: seq<string>, p: nat, n: nat)
    requires Walking(path, abs, cs, p, n) && NoNul(path)
    ensures var i := SlashFrom(path, p); var f := Clip(path[p..i]); var cs1 := Push(abs, cs, f);
            && NoNul(f) && (IsName(f) || f == "" || f == ".") && |Join(abs, cs1)| < n && Stable(abs, cs1)
            && if i < |path| then Walking(path, abs, cs1, i + 1, n) else cs1 == Walk(abs, [], Files(path, 0))
  {
    hide Join, Stable, Push, IsName, NoNul, SlashFrom, Clip, Files, Walk, WalkFits;
    var f := Clip(path[p..SlashFrom(path, p)]);
    FileIsName(path, p);
    PushStable(abs, cs, f);
    FilesFirst(path, p);
    WalkFirst(abs, cs, Files(path, p), n);
    WalkNone(abs, Push(abs, cs, f));
  }

  lemma WalkFirst(abs: bool, cs: seq<string>, fs: seq<string>, n: nat)
    requires fs != [] && WalkFits(abs, cs, fs, n)
    ensures var cs1 := Push(abs, cs, fs[0]);
            Walk(abs, cs, fs) == Walk(abs, cs1, fs[1..]) && |Join(abs, cs1)| < n && WalkFits(abs, cs1, fs[1..], n)
  {
    hide Push, Join;
  }

  lemma WalkNone(abs: bool, cs: seq<string>)
    ensures Walk(abs, cs, []) == cs
  {
  }

  /** Names are short enough for the program's buffer. */
  ghost predicate ShortNames(path: string) {
    forall k :: 0 <= k <= |path| ==> SlashFrom(path, k) - k <= 1023
  }

  lemma {:induction false} ShortFiles(path: string, k: nat)
    requires ShortNames(path) && k <= |path|
    ensures Files(path, k) == Components(path, k)
    decreases |path| - k
  {
    hide SlashFrom, Clip, Files, Components;
    var i := SlashFrom(path, k);
    assert i - k <= 1023;
    OneFirst(path, k);
    if i < |path| {
      ShortFiles(path, i + 1);
    }
  }

  lemma OneFirst(path: string, k: nat)
    requires k <= |path|
    ensures var i := SlashFrom(path, k);
            && Files(path, k) == [Clip(path[k..i])] + (if i < |path| then Files(path, i + 1) else [])
            && Components(path, k) == [path[k..i]] + (if i < |path| then Components(path, i + 1) else [])
  {
    hide SlashFrom, Clip;
    assert SlashFrom(path, k) == |path| ==> path[k..|path|] == path[k..];
  }

  lemma PushLength(abs: bool, cs: seq<string>, f: string)
    requires Stable(abs, cs) && (IsName(f) || f == "" || f == ".")
    ensures |Join(abs, Push(abs, cs, f))| <= |Join(abs, cs)| + if f == "" || f == "." then 0 else |f| + if cs != []
            || abs then 1 else 0
  {
    if cs != [] {
      StableLast(abs, cs);
    }
    JoinMore(abs, cs, f);
    JoinMore(abs, cs, "..");
  }

  /** A buffer with room for the path has room for everything on the way. */
  lemma {:induction false} PathFits(path: string, cs: seq<string>, p: nat, n: nat)
    requires p <= |path| < n && Stable(IsAbsolute(path), cs)
    requires if cs == [] then true else |Join(IsAbsolute(path), cs)| < p
    ensures WalkFits(IsAbsolute(path), cs, Files(path, p), n)
    decreases |path| - p
  {
    hide Stable, Push, IsName, SlashFrom, Join, Files, Clip;
    var abs, i := IsAbsolute(path), SlashFrom(path, p);
    var cs1 := Push(abs, cs, Clip(path[p..i]));
    StepFits(path, cs, p);
    FilesFirst(path, p);
    if i < |path| {
      PathFits(path, cs1, i + 1, n);
    }
  }

  lemma StepFits(path: string, cs: seq<string>, p: nat)
    requires p <= |path| && Stable(IsAbsolute(path), cs)
    requires if cs == [] then true else |Join(IsAbsolute(path), cs)| < p
    ensures var abs, i := IsAbsolute(path), SlashFrom(path, p); var cs1 := Push(abs, cs, Clip(path[p..i]));
            Stable(abs, cs1) && |Join(abs, cs1)| <= i
  {
    hide Stable, Push, IsName, SlashFrom, Join;
    var abs := IsAbsolute(path);
    var f := Clip(path[p..SlashFrom(path, p)]);
    FileIsName(path, p);
    PushLength(abs, cs, f);
    PushStable(abs, cs, f);
    JoinNone(abs);
  }

  lemma FilesFirst(path: string, p: nat)
    requires p <= |path|
    ensures var i, fs := SlashFrom(path, p), Files(path, p);
            fs != [] && fs[0] == Clip(path[p..i]) && fs[1..] == if i < |path| then Files(path, i + 1) else []
  {
    hide SlashFrom, Clip;
  }

  lemma FileIsName(path: string, p: nat)
    requires p <= |path|
    ensures var f := Clip(path[p..SlashFrom(path, p)]);
            && (IsName(f) || f == "" || f == ".") && |f| <= SlashFrom(path, p) - p
            && (IsAbsolute(path) && p == 0 ==> f == "")
            && (NoNul(path) ==> NoNul(f))
  {
    var i := SlashFrom(path, p);
    var f := Clip(path[p..i]);
    assert forall j :: 0 <= j < |f| ==> f[j] == path[p + j];
  }

  /** One component: dropped, resolved, or added. */
  method OneFile(buf: array<char>, abs: bool, ghost cs: seq<string>, file: string)
    requires Stable(abs, cs) && Holds(buf, Join(abs, cs)) && NoNul(file) && (IsName(file) || file == "" || file == ".")
    requires |Join(abs, Push(abs, cs, file))| < buf.Length
    modifies buf
    ensures Holds(buf, Join(abs, Push(abs, cs, file)))
  {
    hide Join, Stable, Components, Holds, IsName;
    if file == "" || file == "." {
      // "." and the empty name lead nowhere
      return;
    }
    var copy := true;
    if file == ".." {
      // the last component goes, if it may
      copy := GoUp(buf, abs, cs);
    }
    if copy {
      Copy(buf, abs, cs, file);
    }
  }

  /** Canonises a path into a buffer: as long as everything fits on the way, the buffer holds the canonical form
      of the path with its names cut to 1023 characters. */
  method CanonizePath1(buf: array<char>, path: string)
    requires NoNul(path) && buf.Length >= 2 && WalkFits(IsAbsolute(path), [], Files(path, 0), buf.Length)
    modifies buf
    ensures Holds(buf, Form(IsAbsolute(path), Walk(IsAbsolute(path), [], Files(path, 0))))
    ensures ShortNames(path) ==> Holds(buf, Canonized(path))
  {
    hide Join, Stable, Components, SlashFrom, Holds, Push, WalkFits;
    var p := 0;
    var abs := |path| > 0 && path[0] == '/';
    ghost var cs: seq<string> := [];
    Empty(buf);
    JoinNone(abs);
    NoneStable(abs);
    while true
      invariant Walking(path, abs, cs, p, buf.Length) && Holds(buf, Join(abs, cs))
      decreases |path| - p
    {
      var file, next, more := ExtractFile(path, p);
      WalkingOn(path, abs, cs, p, buf.Length);
      OneFile(buf, abs, cs, file);
      cs := Push(abs, cs, file);
      p := next;
      if !more {
        break;
      }
    }
    // with no component left, "." or "/" is
    Finish(buf, abs, cs);
    if ShortNames(path) {
      ShortFiles(path, 0);
    }
  }

  method Empty(buf: array<char>)
    requires buf.Length > 0
    modifies buf
    ensures Holds(buf, "")
  {
    buf[0] := NUL;
  }

  method Finish(buf: array<char>, abs: bool, ghost cs: seq<string>)
    requires Holds(buf, Join(abs, cs)) && Stable(abs, cs) && buf.Length >= 2
    modifies buf
    ensures Holds(buf, Form(abs, cs))
  {
    hide Join, Stable, Components;
    if cs == [] {
      JoinNone(abs);
    } else {
      JoinApart(abs, cs);
    }
    if buf[0] == NUL {
      if abs {
        Pstrcat(buf, "", "/");
      } else {
        Pstrcat(buf, "", ".");
      }
    }
  }
}
