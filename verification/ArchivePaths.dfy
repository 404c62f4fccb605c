/**
 The paths of archive members (`archive.rs`): which are acceptable, and which one is the program's.
 */
module ArchivePaths {
  import opened Outcomes
  import opened Text

  type Path = seq<string>

  datatype Component = RootDir | CurDir | ParentDir | Normal(name: string)

  // How a Unix path falls into components: repeated and inner `.` separators vanish, a leading `.`
  // does not.
  function Components(raw: string): seq<Component> {
    var pieces := Split(raw, '/');
    (if raw != "" && raw[0] == '/' then [RootDir] else if pieces[0] == "." then [CurDir] else [])
    + PieceComponents(pieces)
  }

  function PieceComponents(pieces: seq<string>): seq<Component> {
    if pieces == [] then []
    else
      var rest := PieceComponents(pieces[1..]);
      if pieces[0] == "" || pieces[0] == "." then rest
      else if pieces[0] == ".." then [ParentDir] + rest
      else [Normal(pieces[0])] + rest
  }

  predicate PlainPath(path: Path) {
    path != [] && forall part | part in path :: PlainName(part)
  }

  function NormalNames(components: seq<Component>): Path {
    if components == [] then []
    else (if components[0].Normal? then [components[0].name] else []) + NormalNames(components[1..])
  }

  // The path a member is written under, or nothing for one that is absolute, climbs or names nothing.
  function MemberPath(raw: string): Option<Path> {
    var components := Components(raw);
    var names := NormalNames(components);
    if RootDir in components || ParentDir in components || names == [] then None else Some(names)
  }

  lemma {:induction false} PieceNamesArePlain(pieces: seq<string>)
    requires forall piece | piece in pieces :: '/' !in piece
    ensures forall part | part in NormalNames(PieceComponents(pieces)) :: PlainName(part)
  {
    if pieces != [] {
      PieceNamesArePlain(pieces[1..]);
      var rest := PieceComponents(pieces[1..]);
      var all := PieceComponents(pieces);
      if all != rest {
        assert all[1..] == rest;
      }
    }
  }

  // Whatever an archive calls its member, the path it is written under is one or more plain names.
  lemma MemberPathIsPlain(raw: string)
    ensures MemberPath(raw).Some? ==> PlainPath(MemberPath(raw).value)
  {
    var pieces := Split(raw, '/');
    SplitPieces(raw, '/');
    PieceNamesArePlain(pieces);
    var body := PieceComponents(pieces);
    var all := Components(raw);
    if all != body {
      assert all[1..] == body;
    }
  }

  // ---- Acceptance, on the text ----------------------------------------------------------------

  predicate NamesNothing(piece: string) {
    piece == "" || piece == "."
  }

  // The pieces that name something, in order.
  function Naming(pieces: seq<string>): Path {
    if pieces == [] then []
    else (if NamesNothing(pieces[0]) then [] else [pieces[0]]) + Naming(pieces[1..])
  }

  lemma {:induction false} PiecesAre(pieces: seq<string>)
    ensures RootDir !in PieceComponents(pieces)
    ensures ParentDir in PieceComponents(pieces) <==> ".." in pieces
    ensures ".." !in pieces ==> NormalNames(PieceComponents(pieces)) == Naming(pieces)
    ensures Naming(pieces) == [] <==> forall piece | piece in pieces :: NamesNothing(piece)
  {
    if pieces != [] {
      PiecesAre(pieces[1..]);
      var rest, all := PieceComponents(pieces[1..]), PieceComponents(pieces);
      assert pieces == [pieces[0]] + pieces[1..];
      if all != rest {
        assert all[1..] == rest && all == [all[0]] + rest;
      }
    }
  }

  // A member is refused exactly when its path begins with `/`, has a piece `..` or has no piece that
  // names anything; otherwise it is written under its naming pieces, in order.
  lemma RefusedExactlyWhen(raw: string)
    ensures var pieces := Split(raw, '/');
            && (MemberPath(raw).None? <==> || (raw != "" && raw[0] == '/') || ".." in pieces
                                           || forall piece | piece in pieces :: piece == "" || piece == ".")
            && (MemberPath(raw).Some? ==> MemberPath(raw).value == Naming(pieces))
  {
    var pieces := Split(raw, '/');
    PiecesAre(pieces);
    MemberPathOf(raw);
    assert (forall piece | piece in pieces :: piece == "" || piece == ".") <==> Naming(pieces) == [];
  }

  // What stands in front of the pieces' components is no name, and refused only when it is the root.
  lemma MemberPathOf(raw: string)
    ensures var body := PieceComponents(Split(raw, '/'));
            && (MemberPath(raw).None? <==> || (raw != "" && raw[0] == '/') || RootDir in body || ParentDir in body
                                           || NormalNames(body) == [])
            && (MemberPath(raw).Some? ==> MemberPath(raw).value == NormalNames(body))
  {
    var body, all := PieceComponents(Split(raw, '/')), Components(raw);
    if all != body {
      assert all == [all[0]] + body && all[1..] == body;
    }
  }

  // Names joined by `/` are read back as they are: a plain path is its own member path.
  lemma {:induction false} PlainPiecesStay(path: Path)
    requires forall part | part in path :: PlainName(part)
    ensures forall c | c in PieceComponents(path) :: c.Normal?
    ensures NormalNames(PieceComponents(path)) == path
  {
    if path != [] {
      PlainPiecesStay(path[1..]);
      assert path[0] in path;
      assert PieceComponents(path)[1..] == PieceComponents(path[1..]);
    }
  }

  lemma PlainPathRoundTrips(path: Path)
    requires PlainPath(path)
    ensures MemberPath(Join(path, '/')) == Some(path)
  {
    SplitOfJoin(path, '/');
    PlainPiecesStay(path);
    var raw := Join(path, '/');
    assert path[0] in path && PlainName(path[0]);
    assert raw[0] == path[0][0] && path[0][0] in path[0];
    assert Components(raw) == PieceComponents(path);
  }

  // The loop that builds the path, refusing at the first component that may not be written.
  method SafeMemberPath(raw: string) returns (r: Result<Path, string>)
    ensures r.Ok? <==> MemberPath(raw).Some?
    ensures r.Err? <==> || (raw != "" && raw[0] == '/') || ".." in Split(raw, '/')
                        || forall piece | piece in Split(raw, '/') :: piece == "" || piece == "."
    ensures r.Ok? ==> r.value == MemberPath(raw).value == Naming(Split(raw, '/')) && PlainPath(r.value)
  {
    MemberPathIsPlain(raw);
    RefusedExactlyWhen(raw);
    r := CollectNames(Components(raw));
    if r == Ok([]) {
      r := Err("names nothing");
    }
  }

  method CollectNames(components: seq<Component>) returns (r: Result<Path, string>)
    ensures r.Ok? <==> RootDir !in components && ParentDir !in components
    ensures r.Ok? ==> r.value == NormalNames(components)
  {
    var safe: Path := [];
    var i := 0;
    while i < |components|
      invariant 0 <= i <= |components|
      invariant forall j | 0 <= j < i :: components[j] != RootDir && components[j] != ParentDir
      invariant safe + NormalNames(components[i..]) == NormalNames(components)
    {
      assert components[i..][1..] == components[i + 1..];
      match components[i] {
        case Normal(name) => safe := safe + [name];
        case CurDir =>
        case ParentDir => return Err("climbs out of the archive");
        case RootDir => return Err("is an absolute path");
      }
      i := i + 1;
    }
    assert components[i..] == [];
    r := Ok(safe);
  }

  // ---- Finding the program --------------------------------------------------------------------

  predicate EndsWith(path: Path, suffix: Path) {
    suffix != [] && |suffix| <= |path| && path[|path| - |suffix|..] == suffix
  }

  // A path ends with another exactly when it is something followed by it.
  lemma EndsWithExactlyWhen(path: Path, suffix: Path)
    ensures EndsWith(path, suffix) <==> suffix != [] && exists front: Path :: path == front + suffix
  {
    if EndsWith(path, suffix) {
      assert path == path[..|path| - |suffix|] + suffix;
    }
    if suffix != [] && exists front: Path :: path == front + suffix {
      var front: Path :| path == front + suffix;
      assert path[|path| - |suffix|..] == suffix;
    }
  }

  function Matching(members: seq<Path>, program: Path): seq<Path> {
    if members == [] then []
    else
      var rest := Matching(members[1..], program);
      if EndsWith(members[0], program) then [members[0]] + rest else rest
  }

  // The prefix to strip, when exactly one member ends with the program's path.
  function LocateProgram(members: seq<Path>, program: Path): Option<Path> {
    var matches := Matching(members, program);
    if |matches| == 1 && |program| <= |matches[0]| then Some(matches[0][..|matches[0]| - |program|]) else None
  }

  predicate OnlyMatch(members: seq<Path>, program: Path, i: nat) {
    && i < |members| && EndsWith(members[i], program)
    && forall j | 0 <= j < |members| && EndsWith(members[j], program) :: j == i
  }

  lemma {:induction false} NoMatch(members: seq<Path>, program: Path)
    ensures Matching(members, program) == [] <==> forall j | 0 <= j < |members| :: !EndsWith(members[j], program)
  {
    if members != [] {
      NoMatch(members[1..], program);
      assert forall j | 0 < j < |members| :: members[j] == members[1..][j - 1];
    }
  }

  lemma {:induction false} OneMatch(members: seq<Path>, program: Path) returns (i: nat)
    requires |Matching(members, program)| == 1
    ensures OnlyMatch(members, program, i) && Matching(members, program) == [members[i]]
  {
    NoMatch(members[1..], program);
    if EndsWith(members[0], program) {
      i := 0;
      assert forall j | 0 < j < |members| :: members[j] == members[1..][j - 1];
    } else {
      var k := OneMatch(members[1..], program);
      i := k + 1;
      assert forall j | 0 < j < |members| :: members[j] == members[1..][j - 1];
    }
  }

  lemma {:induction false} OnlyMatchIsFound(members: seq<Path>, program: Path, i: nat)
    requires OnlyMatch(members, program, i)
    ensures Matching(members, program) == [members[i]]
  {
    NoMatch(members[1..], program);
    assert forall j | 0 < j < |members| :: members[j] == members[1..][j - 1];
    if i > 0 {
      OnlyMatchIsFound(members[1..], program, i - 1);
    }
  }

  // The program is located exactly when one member and no other ends with its path, and what is
  // stripped is the rest of that member's path.
  lemma LocatesTheOnlyMatch(members: seq<Path>, program: Path)
    ensures LocateProgram(members, program).Some? <==> exists i: nat :: OnlyMatch(members, program, i)
    ensures forall i: nat | OnlyMatch(members, program, i) ::
              LocateProgram(members, program).Some? && LocateProgram(members, program).value + program == members[i]
  {
    if LocateProgram(members, program).Some? {
      var _ := OneMatch(members, program);
    }
    forall i: nat | OnlyMatch(members, program, i)
      ensures LocateProgram(members, program).Some? && LocateProgram(members, program).value + program == members[i]
    {
      OnlyMatchIsFound(members, program, i);
    }
  }
}
