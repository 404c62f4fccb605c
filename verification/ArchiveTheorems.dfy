/** What an unpacked tree holds: the promises `archive.rs` makes about a whole archive. */
module ArchiveTheorems {
  import opened Outcomes
  import opened ArchivePaths
  import opened ArchiveTree

  // ---- The tree holds the members -------------------------------------------------------------

  // A member under the prefix, at its place.
  ghost predicate Holds(tree: Tree, m: Member, prefix: Path) {
    && Placement(m.path, prefix).Some?
    && var rel := Placement(m.path, prefix).value;
       rel != [] && rel in tree && tree[rel] == if m.isDir then Dir else File(m.content)
  }

  predicate Under(m: Member, prefix: Path) {
    Placement(m.path, prefix).Some? && Placement(m.path, prefix).value != []
  }

  // Two members under one prefix share a place only when they share their path.
  lemma PlacesAreDistinct(a: Path, b: Path, prefix: Path)
    requires Placement(a, prefix).Some? && Placement(a, prefix) == Placement(b, prefix)
    ensures a == b
  {
    assert a == prefix + a[|prefix|..] && b == prefix + b[|prefix|..];
  }

  lemma PlacedMemberHolds(tree: Tree, m: Member, prefix: Path)
    requires Under(m, prefix) && Place(tree, m, prefix).Some?
    ensures Holds(Place(tree, m, prefix).value, m, prefix)
  {
    var rel := Placement(m.path, prefix).value;
    assert rel[..|rel|] == rel;
    assert rel in Ancestors(rel);
  }

  // Placing one member disturbs no other path that is already there.
  lemma PlaceKeepsOthers(tree: Tree, m: Member, prefix: Path, q: Path)
    requires q in tree && Place(tree, m, prefix).Some?
    requires Placement(m.path, prefix) != Some(q)
    ensures q in Place(tree, m, prefix).value && Place(tree, m, prefix).value[q] == tree[q]
  {
  }

  // Every member under the prefix is in the tree with its own content, unless a later member
  // repeats its path.
  lemma {:induction false} MemberLands(tree: Tree, members: seq<Member>, prefix: Path, i: nat)
    requires Unpacked(tree, members, prefix).Some?
    requires i < |members| && Under(members[i], prefix)
    requires forall j | i < j < |members| :: members[j].path != members[i].path
    ensures Holds(Unpacked(tree, members, prefix).value, members[i], prefix)
    decreases |members|
  {
    var most, last := members[..|members| - 1], members[|members| - 1];
    var before := Unpacked(tree, most, prefix).value;
    if i == |members| - 1 {
      PlacedMemberHolds(before, last, prefix);
    } else {
      MemberLands(tree, most, prefix, i);
      var rel := Placement(members[i].path, prefix).value;
      if Placement(last.path, prefix) == Some(rel) {
        PlacesAreDistinct(last.path, members[i].path, prefix);
      }
      PlaceKeepsOthers(before, last, prefix, rel);
    }
  }

  // And nothing else is: a file that was not there before is some member's, content and all.
  lemma {:induction false} FilesComeFromMembers(tree: Tree, members: seq<Member>, prefix: Path, q: Path)
    returns (i: nat)
    requires Unpacked(tree, members, prefix).Some?
    requires var now := Unpacked(tree, members, prefix).value;
             q in now && now[q].File? && (q in tree ==> tree[q] != now[q])
    ensures i < |members| && Placement(members[i].path, prefix) == Some(q)
    ensures Unpacked(tree, members, prefix).value[q] == File(members[i].content)
    decreases |members|
  {
    var most, last := members[..|members| - 1], members[|members| - 1];
    var before, now := Unpacked(tree, most, prefix).value, Unpacked(tree, members, prefix).value;
    if q in before && before[q] == now[q] {
      i := FilesComeFromMembers(tree, most, prefix, q);
    } else {
      i := |members| - 1;
    }
  }

  // A directory that was not there before leads to some member, or is one.
  lemma {:induction false} DirectoriesLeadToMembers(tree: Tree, members: seq<Member>, prefix: Path, q: Path)
    returns (i: nat)
    requires Unpacked(tree, members, prefix).Some?
    requires q in Unpacked(tree, members, prefix).value && q !in tree
    ensures i < |members| && Under(members[i], prefix) && q <= Placement(members[i].path, prefix).value
    decreases |members|
  {
    var most, last := members[..|members| - 1], members[|members| - 1];
    var before := Unpacked(tree, most, prefix).value;
    if q in before {
      i := DirectoriesLeadToMembers(tree, most, prefix, q);
    } else {
      i := |members| - 1;
    }
  }

  // Every directory on the way to a tree's entries is there.
  ghost predicate Rooted(tree: Tree) {
    forall q, k | q in tree && 1 <= k < |q| :: q[..k] in tree && tree[q[..k]].Dir?
  }

  lemma PlaceKeepsRooted(tree: Tree, m: Member, prefix: Path)
    requires Rooted(tree) && Place(tree, m, prefix).Some?
    ensures Rooted(Place(tree, m, prefix).value)
  {
    var now := Place(tree, m, prefix).value;
    forall q, k | q in now && 1 <= k < |q|
      ensures q[..k] in now && now[q[..k]].Dir?
    {
      PlacedParent(tree, m, prefix, q, k);
    }
  }

  lemma PlacedParent(tree: Tree, m: Member, prefix: Path, q: Path, k: nat)
    requires Rooted(tree) && Place(tree, m, prefix).Some? && q in Place(tree, m, prefix).value && 1 <= k < |q|
    ensures var now := Place(tree, m, prefix).value; q[..k] in now && now[q[..k]].Dir?
  {
    if Under(m, prefix) {
      var rel := Placement(m.path, prefix).value;
      var parent := if m.isDir then rel else rel[..|rel| - 1];
      if q in tree {
        assert tree[q[..k]].Dir?;
      } else {
        assert q <= rel && q[..k] == parent[..k];
      }
      assert q[..k] in tree || q[..k] in Ancestors(parent);
    }
  }

  // So no member is left without the directories it stands in.
  lemma {:induction false} TreeStaysRooted(tree: Tree, members: seq<Member>, prefix: Path)
    requires Rooted(tree) && Unpacked(tree, members, prefix).Some?
    ensures Rooted(Unpacked(tree, members, prefix).value)
    decreases |members|
  {
    if members != [] {
      var most, last := members[..|members| - 1], members[|members| - 1];
      TreeStaysRooted(tree, most, prefix);
      PlaceKeepsRooted(Unpacked(tree, most, prefix).value, last, prefix);
    }
  }

  // A member cannot be placed exactly when a file stands where it needs a directory, or a directory where
  // its own file goes.
  lemma PlacedExactlyWhen(tree: Tree, m: Member, prefix: Path)
    ensures Place(tree, m, prefix).None?
       <==> && prefix < m.path
            && var rel := m.path[|prefix|..];
               || (exists k :: 1 <= k < |rel| && rel[..k] in tree && tree[rel[..k]].File?)
               || (rel in tree && if m.isDir then tree[rel].File? else tree[rel].Dir?)
  {
    if prefix < m.path {
      var rel := m.path[|prefix|..];
      assert rel[..|rel|] == rel;
      if m.isDir {
        assert forall k | 1 <= k <= |rel| :: rel[..k] in Ancestors(rel);
      } else {
        var parent := rel[..|rel| - 1];
        assert forall k | 1 <= k < |rel| :: parent[..k] == rel[..k];
        assert forall k | 1 <= k < |rel| :: rel[..k] in Ancestors(parent);
        assert rel !in Ancestors(parent);
      }
    }
  }

  // If an archive unpacks, the file at the program's path holds exactly the bytes of the one
  // member that matched.
  lemma ProgramHoldsItsMember(tree: Tree, members: seq<Member>, program: Path, i: nat)
    requires OnlyMatch(Paths(members), program, i)
    requires LocateProgram(Paths(members), program).Some?
    requires Unpacked(tree, members, LocateProgram(Paths(members), program).value).Some?
    ensures var now := Unpacked(tree, members, LocateProgram(Paths(members), program).value).value;
            program in now && now[program] == if members[i].isDir then Dir else File(members[i].content)
  {
    var prefix := LocateProgram(Paths(members), program).value;
    LocatesTheOnlyMatch(Paths(members), program);
    assert Paths(members)[i] == members[i].path == prefix + program;
    assert Placement(members[i].path, prefix) == Some(program);
    forall j | i < j < |members|
      ensures members[j].path != members[i].path
    {
      assert Paths(members)[j] == members[j].path;
    }
    MemberLands(tree, members, prefix, i);
  }

  // ---- The wrapper directory ------------------------------------------------------------------

  // The same members, each below a wrapper directory.
  function Wrapped(wrapper: Path, members: seq<Member>): (wrapped: seq<Member>)
    ensures |wrapped| == |members|
  {
    seq(|members|, k requires 0 <= k < |members| => members[k].(path := wrapper + members[k].path))
  }

  ghost predicate SamePlaces(a: seq<Member>, p: Path, b: seq<Member>, q: Path)
    requires |a| == |b|
  {
    forall k | 0 <= k < |a| :: Placement(a[k].path, p) == Placement(b[k].path, q)
  }

  lemma {:induction false} SamePlacesSameTree(tree: Tree, a: seq<Member>, p: Path, b: seq<Member>, q: Path)
    requires |a| == |b| && SamePlaces(a, p, b, q)
    requires forall k | 0 <= k < |a| :: a[k].isDir == b[k].isDir && a[k].content == b[k].content
    ensures Unpacked(tree, a, p) == Unpacked(tree, b, q)
    decreases |a|
  {
    if a != [] {
      var n := |a| - 1;
      SamePlacesSameTree(tree, a[..n], p, b[..n], q);
      assert Placement(a[n].path, p) == Placement(b[n].path, q);
    }
  }

  // The members of a wrapped archive are placed alike when the same member is the program.
  lemma SameProgramSamePlaces(v: Path, w: Path, members: seq<Member>, p: Path, q: Path, program: Path, i: nat)
    requires i < |members|
    requires p + program == v + members[i].path && q + program == w + members[i].path
    ensures SamePlaces(Wrapped(v, members), p, Wrapped(w, members), q)
  {
    var inner := members[i].path;
    forall k | 0 <= k < |members|
      ensures Placement(v + members[k].path, p) == Placement(w + members[k].path, q)
    {
      StripsAlike(v, w, inner, members[k].path, p, q, program);
    }
    assert forall k | 0 <= k < |members| ::
        Wrapped(v, members)[k].path == v + members[k].path && Wrapped(w, members)[k].path == w + members[k].path;
  }

  lemma StripsAlike(v: Path, w: Path, inner: Path, other: Path, p: Path, q: Path, program: Path)
    requires p + program == v + inner && q + program == w + inner
    ensures Placement(v + other, p) == Placement(w + other, q)
  {
    if |program| <= |inner| {
      // The match lies inside the member: both prefixes are the wrapper and the same directory.
      var dir := inner[..|inner| - |program|];
      assert p == (v + inner)[..|p|] == v + dir && q == (w + inner)[..|q|] == w + dir;
      StripsBelow(v, dir, other);
      StripsBelow(w, dir, other);
    } else {
      // The match reaches into the wrapper: what is left of it is the same on both sides.
      var rest := program[..|program| - |inner|];
      assert v == (p + program)[..|v|] == p + rest && w == (q + program)[..|w|] == q + rest;
      assert v + other == p + (rest + other) && w + other == q + (rest + other);
    }
  }

  lemma StripsBelow(v: Path, dir: Path, other: Path)
    ensures Placement(v + other, v + dir) == Placement(other, dir)
  {
    var whole, below := v + other, v + dir;
    if below <= whole {
      assert other[..|dir|] == whole[|v|..|v| + |dir|] == dir;
    }
    if dir <= other {
      assert other == dir + other[|dir|..];
      assert whole == below + other[|dir|..];
    }
  }

  // Whether the program's path lies inside the member, or the part of it that reaches out is how the
  // wrapper `w` ends.
  predicate ReachesAlike(inner: Path, program: Path, w: Path) {
    |program| <= |inner| || EndsWith(w, program[..|program| - |inner|])
  }

  lemma LocatedAlikeExactlyWhen(v: Path, w: Path, members: seq<Member>, program: Path, i: nat, j: nat)
    requires OnlyMatch(Paths(Wrapped(v, members)), program, i) && OnlyMatch(Paths(Wrapped(w, members)), program, j)
    ensures i == j <==> ReachesAlike(members[i].path, program, w)
  {
    var inner := members[i].path;
    var a, b := Paths(Wrapped(v, members))[i], Paths(Wrapped(w, members))[i];
    assert a == v + inner && b == w + inner;
    if |program| <= |inner| {
      MatchInsideMemberIsShared(v, w, members, program, i, j);
    } else {
      SpansAlike(v, inner, program);
      SpansAlike(w, inner, program);
      assert EndsWith(b, program) <==> i == j;
    }
  }

  // A path that reaches out of a member ends the wrapped member exactly when its own end is the
  // member and its beginning ends the wrapper.
  lemma SpansAlike(wrapper: Path, inner: Path, program: Path)
    requires |program| > |inner|
    ensures EndsWith(wrapper + inner, program)
       <==> program[|program| - |inner|..] == inner && EndsWith(wrapper, program[..|program| - |inner|])
  {
    var n := |program| - |inner|;
    var rest, whole := program[..n], wrapper + inner;
    assert program == rest + program[n..];
    if n <= |wrapper| {
      var tail := wrapper[|wrapper| - n..];
      assert whole[|whole| - |program|..] == tail + inner;
      assert (tail + inner)[..n] == tail && (tail + inner)[n..] == inner;
    }
  }

  // Two archives whose members differ only in the wrapper, each locating one program, place every
  // member alike — and so unpack to one tree, whatever stood there — exactly when the program's path
  // lies inside the member it matched, or both wrappers end in what it reaches of them.
  lemma RewrappedExactlyWhen(v: Path, w: Path, members: seq<Member>, program: Path, i: nat, j: nat)
    requires OnlyMatch(Paths(Wrapped(v, members)), program, i) && OnlyMatch(Paths(Wrapped(w, members)), program, j)
    ensures var a, b := Wrapped(v, members), Wrapped(w, members);
            && LocateProgram(Paths(a), program).Some? && LocateProgram(Paths(b), program).Some?
            && var p, q := LocateProgram(Paths(a), program).value, LocateProgram(Paths(b), program).value;
            && (SamePlaces(a, p, b, q) <==> ReachesAlike(members[i].path, program, w))
            && (ReachesAlike(members[i].path, program, w) ==>
                  forall tree :: Unpacked(tree, a, p) == Unpacked(tree, b, q))
  {
    var a, b := Wrapped(v, members), Wrapped(w, members);
    LocatesTheOnlyMatch(Paths(a), program);
    LocatesTheOnlyMatch(Paths(b), program);
    LocatedAlikeExactlyWhen(v, w, members, program, i, j);
    var p, q := LocateProgram(Paths(a), program).value, LocateProgram(Paths(b), program).value;
    assert a[i].path == p + program && b[j].path == q + program;
    if i == j {
      SameProgramSamePlaces(v, w, members, p, q, program, i);
      forall tree
        ensures Unpacked(tree, a, p) == Unpacked(tree, b, q)
      {
        SamePlacesSameTree(tree, a, p, b, q);
      }
    }
    if SamePlaces(a, p, b, q) {
      assert Placement(a[i].path, p) == Some(program) == Placement(b[i].path, q);
      assert b[i].path == q + program;
      assert EndsWith(Paths(b)[i], program);
    }
  }

  // A match inside the member does not depend on the wrapper at all.
  lemma MatchInsideMemberIsShared(v: Path, w: Path, members: seq<Member>, program: Path, i: nat, j: nat)
    requires OnlyMatch(Paths(Wrapped(v, members)), program, i) && OnlyMatch(Paths(Wrapped(w, members)), program, j)
    requires |program| <= |members[i].path|
    ensures i == j
  {
    var inner := members[i].path;
    var a, b := Paths(Wrapped(v, members))[i], Paths(Wrapped(w, members))[i];
    assert a == v + inner && b == w + inner;
    EndsInside(v, inner, program);
    EndsInside(w, inner, program);
    assert EndsWith(b, program);
  }

  // For the one directory a release wraps its tree in there is no exception: whatever the directory
  // is called, the same member is the program and the tree is the same, over anything.
  lemma SameTreeUnderAnyDirectory(v: string, w: string, members: seq<Member>, program: Path, i: nat, j: nat)
    requires OnlyMatch(Paths(Wrapped([v], members)), program, i) && OnlyMatch(Paths(Wrapped([w], members)), program, j)
    ensures i == j
    ensures var a, b := Wrapped([v], members), Wrapped([w], members);
            && LocateProgram(Paths(a), program).Some? && LocateProgram(Paths(b), program).Some?
            && var p, q := LocateProgram(Paths(a), program).value, LocateProgram(Paths(b), program).value;
            forall tree :: Unpacked(tree, a, p) == Unpacked(tree, b, q)
  {
    LocatedUnderOneDirectory([v], [w], members, program, i, j);
    LocatedAlikeExactlyWhen([v], [w], members, program, i, j);
    RewrappedExactlyWhen([v], [w], members, program, i, j);
  }

  lemma LocatedUnderOneDirectory(v: Path, w: Path, members: seq<Member>, program: Path, i: nat, j: nat)
    requires |v| == |w| == 1
    requires OnlyMatch(Paths(Wrapped(v, members)), program, i) && OnlyMatch(Paths(Wrapped(w, members)), program, j)
    ensures i == j
  {
    EndsTheWrapped(v, members, program, i);
    EndsTheWrapped(w, members, program, j);
    EndsTheWrapped(v, members, program, j);
    EndsTheWrapped(w, members, program, i);
    UnderOneDirectoryOneEndsBoth(v, w, members[i].path, members[j].path, program);
  }

  lemma EndsTheWrapped(v: Path, members: seq<Member>, program: Path, i: nat)
    requires i < |members|
    ensures EndsWith(Paths(Wrapped(v, members))[i], program) <==> EndsWith(v + members[i].path, program)
  {
    assert Paths(Wrapped(v, members))[i] == v + members[i].path;
  }

  // Of two paths that match below a directory each, one matches below the other's too.
  predicate OneEndsBoth(v: Path, w: Path, x: Path, y: Path, program: Path) {
    EndsWith(v + x, program) && EndsWith(w + y, program) ==> EndsWith(w + x, program) || EndsWith(v + y, program)
  }

  lemma UnderOneDirectoryOneEndsBoth(v: Path, w: Path, x: Path, y: Path, program: Path)
    requires |v| == |w| == 1
    ensures OneEndsBoth(v, w, x, y, program)
  {
    if |program| <= |x| || |program| <= |y| {
      InsideOneEndsBoth(v, w, x, y, program);
    } else {
      WholeOneEndsBoth(v, w, x, y, program);
    }
  }

  lemma InsideOneEndsBoth(v: Path, w: Path, x: Path, y: Path, program: Path)
    requires |program| <= |x| || |program| <= |y|
    ensures OneEndsBoth(v, w, x, y, program)
  {
    if |program| <= |x| {
      EndsInsideAlike(v, w, x, program);
    } else {
      EndsInsideAlike(v, w, y, program);
    }
  }

  lemma WholeOneEndsBoth(v: Path, w: Path, x: Path, y: Path, program: Path)
    requires |v| == |w| == 1 && |x| < |program| && |y| < |program|
    ensures OneEndsBoth(v, w, x, y, program)
  {
    if EndsWith(v + x, program) && EndsWith(w + y, program) {
      WholePathMatch(v + x, program);
      WholePathMatch(w + y, program);
      assert v[0] == program[0] == w[0];
      assert v == w;
    }
  }

  lemma EndsInsideAlike(v: Path, w: Path, inner: Path, program: Path)
    requires |program| <= |inner|
    ensures EndsWith(v + inner, program) <==> EndsWith(w + inner, program)
  {
    EndsInside(v, inner, program);
    EndsInside(w, inner, program);
  }

  lemma EndsInside(wrapper: Path, inner: Path, program: Path)
    requires |program| <= |inner|
    ensures EndsWith(wrapper + inner, program) <==> EndsWith(inner, program)
  {
    var whole := wrapper + inner;
    assert whole[|whole| - |program|..] == inner[|inner| - |program|..];
  }

  // A path at least as long as the one it ends is that path.
  lemma WholePathMatch(path: Path, program: Path)
    requires program != [] && |program| >= |path|
    ensures EndsWith(path, program) <==> path == program
  {
  }

  // Members that differ in kind or content make the trees differ whenever one archive locates the
  // one and the other the other.
  lemma DifferentProgramsDiffer(tree: Tree, v: Path, w: Path, members: seq<Member>, program: Path, i: nat, j: nat)
    requires OnlyMatch(Paths(Wrapped(v, members)), program, i) && OnlyMatch(Paths(Wrapped(w, members)), program, j)
    requires members[i].isDir != members[j].isDir || (!members[i].isDir && members[i].content != members[j].content)
    ensures var a, b := Wrapped(v, members), Wrapped(w, members);
            && LocateProgram(Paths(a), program).Some? && LocateProgram(Paths(b), program).Some?
            && var p, q := LocateProgram(Paths(a), program).value, LocateProgram(Paths(b), program).value;
            Unpacked(tree, a, p).Some? ==> Unpacked(tree, a, p) != Unpacked(tree, b, q)
  {
    var a, b := Wrapped(v, members), Wrapped(w, members);
    LocatesTheOnlyMatch(Paths(a), program);
    LocatesTheOnlyMatch(Paths(b), program);
    var p, q := LocateProgram(Paths(a), program).value, LocateProgram(Paths(b), program).value;
    if Unpacked(tree, a, p).Some? && Unpacked(tree, b, q).Some? {
      ProgramHoldsItsMember(tree, a, program, i);
      ProgramHoldsItsMember(tree, b, program, j);
    }
  }

  // Wrappers of different depth need the condition: `a/b/c` is `c` below `a/b`, and `b/c` below
  // `a`, so the two archives locate different members and unpack to different trees.
  lemma MatchAcrossWrapperMayDiffer() returns (v: Path, w: Path, members: seq<Member>, program: Path)
    ensures var a, b := Wrapped(v, members), Wrapped(w, members);
            && LocateProgram(Paths(a), program).Some? && LocateProgram(Paths(b), program).Some?
            && var p, q := LocateProgram(Paths(a), program).value, LocateProgram(Paths(b), program).value;
            Unpacked(map[], a, p).Some? && Unpacked(map[], a, p) != Unpacked(map[], b, q)
  {
    v, w, program := ["a", "b"], ["a"], ["a", "b", "c"];
    members := [Member(["c"], false, [1]), Member(["b", "c"], false, [2])];
    LocatedAcrossWrapper(v, w, members, program);
    DifferentProgramsDiffer(map[], v, w, members, program, 0, 1);
    var a := Wrapped(v, members);
    LocatesTheOnlyMatch(Paths(a), program);
    assert LocateProgram(Paths(a), program).value + program == program;
    assert LocateProgram(Paths(a), program).value == [];
    TwoFilesUnpack(a);
  }

  lemma LocatedAcrossWrapper(v: Path, w: Path, members: seq<Member>, program: Path)
    requires v == ["a", "b"] && w == ["a"] && program == ["a", "b", "c"]
    requires members == [Member(["c"], false, [1]), Member(["b", "c"], false, [2])]
    ensures OnlyMatch(Paths(Wrapped(v, members)), program, 0) && OnlyMatch(Paths(Wrapped(w, members)), program, 1)
    ensures Paths(Wrapped(v, members))[0] == program
    ensures !(Wrapped(v, members)[0].path <= Wrapped(v, members)[1].path)
  {
    var a, b := Paths(Wrapped(v, members)), Paths(Wrapped(w, members));
    assert a[0] == ["a", "b", "c"] && a[1] == ["a", "b", "b", "c"];
    assert b[0] == ["a", "c"] && b[1] == ["a", "b", "c"];
    OnlyFirst(a, program);
    WholePathMatch(b[1], program);
    assert OnlyMatch(b, program, 1);
    assert a[0][2] != a[1][2];
  }

  lemma OnlyFirst(paths: seq<Path>, program: Path)
    requires |paths| == 2 && program != [] && paths[0] == program
    requires |paths[1]| == |program| + 1 && paths[1][1] != program[0]
    ensures OnlyMatch(paths, program, 0)
  {
    WholePathMatch(paths[0], program);
    assert paths[1][1..][0] == paths[1][1];
  }

  // Two files, neither in the way of the other.
  lemma TwoFilesUnpack(members: seq<Member>)
    requires |members| == 2 && !members[0].isDir && !members[1].isDir && members[0].path != []
    requires |members[0].path| < |members[1].path| && !(members[0].path <= members[1].path)
    ensures Unpacked(map[], members, []).Some?
  {
    var one, first, second := members[..1], members[0].path, members[1].path;
    assert one[..0] == [] && one[0] == members[0];
    var tree: Tree := map[];
    var now := Place(tree, members[0], []);
    assert Unpacked(tree, one, []) == now && now.Some?;
    forall q | q in Ancestors(second[..|second| - 1])
      ensures q in now.value ==> now.value[q].Dir?
    {
      assert q <= second;
    }
    assert second !in now.value;
  }
}
