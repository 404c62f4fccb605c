/**
 Unpacking an archive whole (`archive.rs`): a first pass judges all members, one of them fixes the
 prefix to strip, and a second pass writes them on a single byte budget.
 */
module ArchiveTree {
  import opened Outcomes
  import opened ArchivePaths
  import opened BoundedRead
  import opened Text

  const MAX_TREE_MEMBERS := 10_000
  const U64_MAX := 0xFFFF_FFFF_FFFF_FFFF

  datatype Kind = Regular | Directory | Other

  // One entry as the codec yields it. `declared` is what its header claims, `content` what it holds.
  datatype Entry = Entry(raw: string, kind: Kind, declared: nat, content: Bytes)

  // `broken`: reading on past the last entry fails instead of ending.
  datatype Archive = Archive(entries: seq<Entry>, broken: bool)

  // ---- The listing pass -----------------------------------------------------------------------

  function SaturatingAdd(a: nat, b: nat): nat {
    if a + b > U64_MAX then U64_MAX else a + b
  }

  function DeclaredTotal(entries: seq<Entry>): (total: nat)
    ensures total <= U64_MAX
  {
    if entries == [] then 0
    else SaturatingAdd(DeclaredTotal(entries[..|entries| - 1]), entries[|entries| - 1].declared)
  }

  lemma {:induction false} DeclaredTotalGrows(entries: seq<Entry>, k: nat)
    requires k <= |entries|
    ensures DeclaredTotal(entries[..k]) <= DeclaredTotal(entries)
    decreases |entries|
  {
    if k < |entries| {
      var most := entries[..|entries| - 1];
      DeclaredTotalGrows(most, k);
      assert most[..k] == entries[..k];
    } else {
      assert entries[..k] == entries;
    }
  }

  // What the headers declare, without a machine word.
  function DeclaredSum(entries: seq<Entry>): nat {
    if entries == [] then 0
    else DeclaredSum(entries[..|entries| - 1]) + entries[|entries| - 1].declared
  }

  // Stopping at the top of the machine word lets nothing through: the running total is within a
  // limit exactly when the true sum is, or the limit is no limit at all.
  lemma {:induction false} DeclaredWithinExactlyWhen(entries: seq<Entry>, limit: nat)
    ensures DeclaredTotal(entries) <= limit <==> DeclaredSum(entries) <= limit || limit >= U64_MAX
    ensures DeclaredTotal(entries) < U64_MAX ==> DeclaredTotal(entries) == DeclaredSum(entries)
    ensures DeclaredTotal(entries) == U64_MAX ==> DeclaredSum(entries) >= U64_MAX
    decreases |entries|
  {
    if entries != [] {
      DeclaredWithinExactlyWhen(entries[..|entries| - 1], limit);
    }
  }

  predicate Acceptable(e: Entry) {
    !e.kind.Other? && MemberPath(e.raw).Some?
  }

  // An archive that may be unpacked at all.
  predicate Listable(archive: Archive, limit: nat) {
    && !archive.broken
    && |archive.entries| <= MAX_TREE_MEMBERS
    && DeclaredTotal(archive.entries) <= limit
    && forall i | 0 <= i < |archive.entries| :: Acceptable(archive.entries[i])
  }

  // Spelled out: the archive ends cleanly with at most ten thousand members, declares no more than the limit
  // in all, and holds nothing but files and directories, none with an absolute, climbing or empty path.
  lemma ListableExactlyWhen(archive: Archive, limit: nat)
    ensures Listable(archive, limit)
       <==> && !archive.broken && |archive.entries| <= 10_000
            && (DeclaredSum(archive.entries) <= limit || limit >= U64_MAX)
            && forall i | 0 <= i < |archive.entries| ::
                 var e := archive.entries[i];
                 && (e.kind.Regular? || e.kind.Directory?)
                 && !(e.raw != "" && e.raw[0] == '/') && ".." !in Split(e.raw, '/')
                 && exists piece :: piece in Split(e.raw, '/') && piece != "" && piece != "."
  {
    DeclaredWithinExactlyWhen(archive.entries, limit);
    forall i | 0 <= i < |archive.entries|
      ensures var e := archive.entries[i];
              Acceptable(e) <==> && (e.kind.Regular? || e.kind.Directory?)
                                 && !(e.raw != "" && e.raw[0] == '/') && ".." !in Split(e.raw, '/')
                                 && exists piece :: piece in Split(e.raw, '/') && piece != "" && piece != "."
    {
      RefusedExactlyWhen(archive.entries[i].raw);
    }
  }

  datatype Member = Member(path: Path, isDir: bool, content: Bytes)

  function MemberOf(e: Entry): Member
    requires Acceptable(e)
  {
    Member(MemberPath(e.raw).value, e.kind.Directory?, e.content)
  }

  function Members(entries: seq<Entry>): (members: seq<Member>)
    requires forall i | 0 <= i < |entries| :: Acceptable(entries[i])
    ensures |members| == |entries|
  {
    seq(|entries|, i requires 0 <= i < |entries| => assert Acceptable(entries[i]); MemberOf(entries[i]))
  }

  function Paths(members: seq<Member>): (paths: seq<Path>)
    ensures |paths| == |members|
  {
    seq(|members|, i requires 0 <= i < |members| => members[i].path)
  }

  // Adds a declared size to the running total before the member is read.
  method AccrueWithin(total: nat, size: nat, limit: nat) returns (sum: nat, ok: bool)
    ensures sum == SaturatingAdd(total, size) && (ok <==> sum <= limit)
  {
    sum := if total + size > U64_MAX then U64_MAX else total + size;
    ok := sum <= limit;
  }

  // One listed entry: its size against the budget, its kind, its path.
  method AdmitEntry(e: Entry, total: nat, limit: nat) returns (sum: nat, r: Result<Path, string>)
    ensures sum == SaturatingAdd(total, e.declared)
    ensures r.Ok? <==> sum <= limit && Acceptable(e)
    ensures r.Ok? ==> r.value == MemberPath(e.raw).value
  {
    var ok;
    sum, ok := AccrueWithin(total, e.declared, limit);
    if !ok {
      return sum, Err("a decompression bomb");
    }
    if e.kind.Other? {
      return sum, Err("not a file or a directory");
    }
    r := SafeMemberPath(e.raw);
  }

  // Accepts exactly the archives that may be unpacked, refusing at the first member that may not.
  method ListMembers(archive: Archive, limit: nat) returns (r: Result<seq<Path>, string>)
    ensures r.Ok? <==> Listable(archive, limit)
    ensures r.Ok? ==> r.value == Paths(Members(archive.entries))
  {
    var entries := archive.entries;
    var paths: seq<Path> := [];
    var total, i := 0, 0;
    while i < |entries|
      invariant 0 <= i <= |entries| && |paths| == i <= MAX_TREE_MEMBERS
      invariant total == DeclaredTotal(entries[..i]) <= limit
      invariant AdmittedAs(entries[..i], paths)
    {
      DeclaredOneMore(entries, i);
      assert entries[..i] + [entries[i]] == entries[..i + 1];
      var path;
      total, path := AdmitEntry(entries[i], total, limit);
      if path.Err? {
        return Err(path.error);
      }
      AdmittedOneMore(entries[..i], paths, entries[i], path.value);
      paths := paths + [path.value];
      if |paths| > MAX_TREE_MEMBERS {
        return Err("too many members");
      }
      i := i + 1;
    }
    assert entries[..i] == entries;
    if archive.broken {
      return Err("cannot read the archive");
    }
    AdmittedAreMembers(entries, paths);
    r := Ok(paths);
  }

  // The entries may be unpacked, and these are their paths.
  ghost predicate AdmittedAs(entries: seq<Entry>, paths: seq<Path>) {
    && |paths| == |entries|
    && forall j | 0 <= j < |entries| :: Acceptable(entries[j]) && paths[j] == MemberPath(entries[j].raw).value
  }

  lemma AdmittedOneMore(entries: seq<Entry>, paths: seq<Path>, e: Entry, path: Path)
    requires AdmittedAs(entries, paths) && Acceptable(e) && path == MemberPath(e.raw).value
    ensures AdmittedAs(entries + [e], paths + [path])
  {
  }

  lemma AdmittedAreMembers(entries: seq<Entry>, paths: seq<Path>)
    requires AdmittedAs(entries, paths)
    ensures forall j | 0 <= j < |entries| :: Acceptable(entries[j])
    ensures paths == Paths(Members(entries))
  {
  }

  lemma DeclaredOneMore(entries: seq<Entry>, i: nat)
    requires i < |entries|
    ensures DeclaredTotal(entries[..i + 1]) == SaturatingAdd(DeclaredTotal(entries[..i]), entries[i].declared)
    ensures DeclaredTotal(entries[..i + 1]) <= DeclaredTotal(entries)
  {
    assert entries[..i + 1][..i] == entries[..i];
    DeclaredTotalGrows(entries, i + 1);
  }

  // ---- Where a member goes --------------------------------------------------------------------

  datatype Node = File(content: Bytes) | Dir

  // What stands below the destination, by path relative to it.
  type Tree = map<Path, Node>

  function Ancestors(path: Path): set<Path> {
    set k | 1 <= k <= |path| :: path[..k]
  }

  // `create_dir_all`: every directory on the way, unless a file stands in it.
  function WithDirs(tree: Tree, path: Path): Option<Tree> {
    if exists q :: q in Ancestors(path) && q in tree && tree[q].File? then None
    else Some(map q | q in tree.Keys + Ancestors(path) :: if q in tree then tree[q] else Dir)
  }

  // A member's path below the destination: nothing for one outside the program's directory.
  function Placement(path: Path, prefix: Path): Option<Path> {
    if prefix <= path then Some(path[|prefix|..]) else None
  }

  function Place(tree: Tree, m: Member, prefix: Path): Option<Tree> {
    var placement := Placement(m.path, prefix);
    if placement.None? || placement.value == [] then Some(tree)
    else
      var rel := placement.value;
      if m.isDir then WithDirs(tree, rel)
      else
        var dirs := WithDirs(tree, rel[..|rel| - 1]);
        if dirs.None? || (rel in dirs.value && dirs.value[rel].Dir?) then None
        else Some(dirs.value[rel := File(m.content)])
  }

  // What unpacking leaves, when nothing fails: nothing at all when a file and a directory collide.
  function Unpacked(tree: Tree, members: seq<Member>, prefix: Path): Option<Tree> {
    if members == [] then Some(tree)
    else
      var before := Unpacked(tree, members[..|members| - 1], prefix);
      if before.None? then None else Place(before.value, members[|members| - 1], prefix)
  }

  // A member that cannot be placed, or content past the limit, is not made good by later members.
  lemma {:induction false} StopsForGood(tree: Tree, members: seq<Member>, prefix: Path, i: nat)
    requires i <= |members|
    ensures Unpacked(tree, members[..i], prefix).None? ==> Unpacked(tree, members, prefix).None?
    ensures ContentTotal(members[..i], prefix) <= ContentTotal(members, prefix)
    decreases |members|
  {
    if i == |members| {
      assert members[..i] == members;
    } else {
      var most := members[..|members| - 1];
      StopsForGood(tree, most, prefix, i);
      assert most[..i] == members[..i];
    }
  }

  // ---- Counting -------------------------------------------------------------------------------

  datatype Class = Skipped | AtPrefix | DirectoryUnder | FileUnder

  function Classify(m: Member, prefix: Path): Class {
    var placement := Placement(m.path, prefix);
    if placement.None? then Skipped
    else if placement.value == [] then AtPrefix
    else if m.isDir then DirectoryUnder
    else FileUnder
  }

  // What each class is: outside the prefix, the prefix itself, and what is below it.
  lemma ClassifiedBy(m: Member, prefix: Path)
    ensures Classify(m, prefix) == Skipped <==> !(prefix <= m.path)
    ensures Classify(m, prefix) == AtPrefix <==> m.path == prefix
    ensures Classify(m, prefix) == DirectoryUnder <==> prefix < m.path && m.isDir
    ensures Classify(m, prefix) == FileUnder <==> prefix < m.path && !m.isDir
  {
    if prefix <= m.path {
      assert m.path == prefix + m.path[|prefix|..];
    }
  }

  function Count(members: seq<Member>, prefix: Path, class': Class): nat {
    if members == [] then 0
    else Count(members[..|members| - 1], prefix, class')
         + if Classify(members[|members| - 1], prefix) == class' then 1 else 0
  }

  function ContentTotal(members: seq<Member>, prefix: Path): nat {
    if members == [] then 0
    else
      var last := members[|members| - 1];
      ContentTotal(members[..|members| - 1], prefix) + if Classify(last, prefix) == FileUnder then |last.content| else 0
  }

  // Every member is counted once.
  lemma {:induction false} CountsAddUp(members: seq<Member>, prefix: Path)
    ensures Count(members, prefix, Skipped) + Count(members, prefix, AtPrefix)
            + Count(members, prefix, DirectoryUnder) + Count(members, prefix, FileUnder) == |members|
  {
    if members != [] {
      CountsAddUp(members[..|members| - 1], prefix);
    }
  }

  // Everything an archive has to be to unpack: listable, one program, no file and directory at one
  // place, and no more content than the limit.
  ghost predicate Unpackable(archive: Archive, program: Path, tree: Tree, limit: nat) {
    && Listable(archive, limit)
    && var members := Members(archive.entries);
    && var located := LocateProgram(Paths(members), program);
    && located.Some?
    && Unpacked(tree, members, located.value).Some? && ContentTotal(members, located.value) <= limit
  }

  // ---- The writing pass -----------------------------------------------------------------------

  // Nothing is removed, and what is new or changed stands at one or more plain names.
  ghost predicate OnlyPlainChanges(was: Tree, now: Tree) {
    && was.Keys <= now.Keys
    && forall q | q in now && (q in was ==> now[q] != was[q]) :: PlainPath(q)
  }

  lemma PlacementIsPlain(path: Path, prefix: Path, q: Path)
    requires PlainPath(path) && Placement(path, prefix).Some? && q in Ancestors(Placement(path, prefix).value)
    ensures PlainPath(q)
  {
    forall part | part in q
      ensures PlainName(part)
    {
      assert part in path;
    }
  }

  class Unpacker {
    const limit: nat
    const reliable: bool  // no read or write fails
    var tree: Tree
    var files: nat
    var bytes: nat
    var skipped: nat
    ghost var spent: nat  // bytes that reached the destination, those of failed members included

    ghost predicate Valid()
      reads this
    {
      bytes <= spent <= limit
    }

    constructor (tree: Tree, limit: nat, reliable: bool)
      ensures Valid() && this.tree == tree && this.limit == limit && this.reliable == reliable
      ensures files == bytes == skipped == spent == 0
    {
      this.tree, this.limit, this.reliable := tree, limit, reliable;
      files, bytes, skipped, spent := 0, 0, 0, 0;
    }

    method CreateDirAll(path: Path) returns (ok: bool)
      modifies this`tree
      ensures ok ==> WithDirs(old(tree), path) == Some(tree)
      ensures !ok && reliable ==> WithDirs(old(tree), path) == None
      ensures old(tree).Keys <= tree.Keys
      ensures forall q | q in tree && (q in old(tree) ==> tree[q] != old(tree)[q]) :: q in Ancestors(path)
    {
      if exists q :: q in Ancestors(path) && q in tree && tree[q].File? {
        return false;
      }
      var fails := Fault(reliable);
      if fails {
        var some: set<Path> :| some <= Ancestors(path);
        tree := map q | q in tree.Keys + some :: if q in tree then tree[q] else Dir;
        return false;
      }
      tree := map q | q in tree.Keys + Ancestors(path) :: if q in tree then tree[q] else Dir;
      ok := true;
    }

    // Writes one member's file within what is left of the budget.
    method WriteFile(rel: Path, content: Bytes) returns (ok: bool)
      requires Valid() && spent == bytes && rel != []
      modifies this
      ensures Valid() && old(tree).Keys <= tree.Keys && skipped == old(skipped)
      ensures forall q | q in tree && (q in old(tree) ==> tree[q] != old(tree)[q]) :: q in Ancestors(rel)
      ensures ok ==> var dirs := WithDirs(old(tree), rel[..|rel| - 1]);
                     && dirs.Some? && !(rel in dirs.value && dirs.value[rel].Dir?)
                     && tree == dirs.value[rel := File(content)]
      ensures ok ==> files == old(files) + 1 && bytes == old(bytes) + |content| == spent
      ensures !ok && reliable ==> var dirs := WithDirs(old(tree), rel[..|rel| - 1]);
                                  || dirs.None? || (rel in dirs.value && dirs.value[rel].Dir?)
                                  || old(bytes) + |content| > limit
    {
      var parent := rel[..|rel| - 1];
      assert rel[..|rel|] == rel && forall k | 1 <= k <= |parent| :: parent[..k] == rel[..k];
      ok := CreateDirAll(parent);
      if !ok {
        return;
      }
      // `File::create` fails where a directory stands, and may fail anywhere.
      if rel in tree && tree[rel].Dir? {
        return false;
      }
      var fails := Fault(reliable);
      if fails {
        return false;
      }
      var source := new Source(content, reliable);
      var copied, out := CopyWithin(source, limit - bytes, reliable);
      tree := tree[rel := File(out)];
      spent := spent + |out|;
      if copied.Err? {
        return false;
      }
      files, bytes := files + 1, bytes + copied.value;
    }

    method WriteMember(m: Member, prefix: Path) returns (ok: bool)
      requires Valid() && spent == bytes && PlainPath(m.path)
      modifies this
      ensures Valid() && OnlyPlainChanges(old(tree), tree)
      ensures ok ==> Place(old(tree), m, prefix) == Some(tree)
      ensures ok ==> files == old(files) + (if Classify(m, prefix) == FileUnder then 1 else 0)
      ensures ok ==> skipped == old(skipped) + (if Classify(m, prefix) == Skipped then 1 else 0)
      ensures ok ==> bytes == spent == old(bytes) + (if Classify(m, prefix) == FileUnder then |m.content| else 0)
      ensures !ok && reliable ==> || Place(old(tree), m, prefix) == None
                                  || (Classify(m, prefix) == FileUnder && old(bytes) + |m.content| > limit)
    {
      var placement := Placement(m.path, prefix);
      if placement.None? {
        skipped := skipped + 1;
        return true;
      }
      if placement.value == [] {
        return true;
      }
      if m.isDir {
        ok := CreateDirAll(placement.value);
      } else {
        ok := WriteFile(placement.value, m.content);
      }
      forall q | q in tree && (q in old(tree) ==> tree[q] != old(tree)[q])
        ensures PlainPath(q)
      {
        PlacementIsPlain(m.path, prefix, q);
      }
    }

    // Unpacks a whole archive: refused with nothing written unless every member is acceptable and
    // exactly one is the program; within the limit and inside the destination however it ends. Where
    // nothing fails underneath it succeeds exactly when, besides, no file and directory collide and
    // the content fits.
    method ExtractTree(archive: Archive, program: Path) returns (ok: bool)
      requires Valid() && files == bytes == skipped == spent == 0
      modifies this
      ensures Valid() && OnlyPlainChanges(old(tree), tree)
      ensures ok ==> Unpackable(archive, program, old(tree), limit)
      ensures reliable && Unpackable(archive, program, old(tree), limit) ==> ok
      ensures !(Listable(archive, limit) && LocateProgram(Paths(Members(archive.entries)), program).Some?) ==>
                tree == old(tree)
      ensures ok ==> var members := Members(archive.entries);
                     var prefix := LocateProgram(Paths(members), program).value;
                     && Unpacked(old(tree), members, prefix) == Some(tree)
                     && bytes == spent == ContentTotal(members, prefix)
                     && files == Count(members, prefix, FileUnder) && skipped == Count(members, prefix, Skipped)
                     && files + skipped + Count(members, prefix, DirectoryUnder) + Count(members, prefix, AtPrefix)
                        == |archive.entries|
    {
      var listed := ListMembers(archive, limit);
      if listed.Err? {
        return false;
      }
      var located := LocateProgram(listed.value, program);
      if located.None? {
        return false;
      }
      ok := WriteAll(archive.entries, located.value);
      CountsAddUp(Members(archive.entries), located.value);
    }

    // What the pass has come to after some of the members.
    ghost predicate Reached(was: Tree, part: seq<Member>, prefix: Path)
      reads this
    {
      && Unpacked(was, part, prefix) == Some(tree)
      && bytes == spent == ContentTotal(part, prefix)
      && files == Count(part, prefix, FileUnder) && skipped == Count(part, prefix, Skipped)
    }

    // One entry more, read again: the second reading may fail where the first did not.
    method WriteEntry(e: Entry, prefix: Path, ghost was: Tree, ghost part: seq<Member>) returns (ok: bool)
      requires Valid() && Reached(was, part, prefix) && OnlyPlainChanges(was, tree) && Acceptable(e)
      modifies this
      ensures Valid() && OnlyPlainChanges(was, tree)
      ensures ok ==> Reached(was, part + [MemberOf(e)], prefix)
      ensures !ok && reliable ==> || Unpacked(was, part + [MemberOf(e)], prefix).None?
                                  || ContentTotal(part + [MemberOf(e)], prefix) > limit
    {
      var fails := Fault(reliable);
      if fails {
        return false;
      }
      var path := SafeMemberPath(e.raw);
      var m := Member(path.value, e.kind.Directory?, e.content);
      assert m == MemberOf(e) && (part + [m])[..|part|] == part;
      ghost var before := tree;
      ok := WriteMember(m, prefix);
      ChangesCompose(was, before, tree);
    }

    // The writing pass over listed entries.
    method WriteAll(entries: seq<Entry>, prefix: Path) returns (ok: bool)
      requires forall i | 0 <= i < |entries| :: Acceptable(entries[i])
      requires Valid() && files == bytes == skipped == spent == 0
      modifies this
      ensures Valid() && OnlyPlainChanges(old(tree), tree)
      ensures ok ==> Reached(old(tree), Members(entries), prefix)
      ensures !ok && reliable ==> || Unpacked(old(tree), Members(entries), prefix).None?
                                  || ContentTotal(Members(entries), prefix) > limit
    {
      ghost var was, members := tree, Members(entries);
      var i := 0;
      while i < |entries|
        invariant 0 <= i <= |entries|
        invariant Valid() && OnlyPlainChanges(was, tree) && Reached(was, members[..i], prefix)
      {
        MembersOneMore(entries, i);
        ok := WriteEntry(entries[i], prefix, was, members[..i]);
        if !ok {
          StopsForGood(was, members, prefix, i + 1);
          return;
        }
        i := i + 1;
      }
      assert members[..i] == members;
      ok := true;
    }
  }

  lemma MembersOneMore(entries: seq<Entry>, i: nat)
    requires forall i | 0 <= i < |entries| :: Acceptable(entries[i])
    requires i < |entries|
    ensures Acceptable(entries[i])
    ensures Members(entries)[..i] + [MemberOf(entries[i])] == Members(entries)[..i + 1]
  {
  }

  lemma ChangesCompose(a: Tree, b: Tree, c: Tree)
    requires OnlyPlainChanges(a, b) && OnlyPlainChanges(b, c)
    ensures OnlyPlainChanges(a, c)
  {
  }
}
