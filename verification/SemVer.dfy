/**
 Version precedence (`fleet-core/src/version.rs`): parsed and compared as text, never as machine
 integers. Proved to be the order of section 11 of SemVer 2.0.0, a total preorder whose ties are
 exactly the builds of one release.
 */
module SemVer {
  import opened Outcomes
  import opened Text

  datatype Ordering = Less | Equal | Greater
  {
    function Flip(): Ordering {
      match this
      case Less => Greater
      case Equal => Equal
      case Greater => Less
    }
  }

  // ---- Lexicographic comparison ---------------------------------------------------------------

  ghost predicate TotalOrder<T(!new)>(cmp: (T, T) -> Ordering) {
    && (forall a, b :: cmp(a, b) == Equal <==> a == b)
    && (forall a, b :: cmp(b, a) == cmp(a, b).Flip())
    && (forall a, b, c :: cmp(a, b) == Less && cmp(b, c) == Less ==> cmp(a, c) == Less)
  }

  function Lex<T>(cmp: (T, T) -> Ordering, a: seq<T>, b: seq<T>): Ordering {
    if a == [] && b == [] then Equal
    else if a == [] then Less
    else if b == [] then Greater
    else if cmp(a[0], b[0]) == Equal then Lex(cmp, a[1..], b[1..])
    else cmp(a[0], b[0])
  }

  lemma {:induction false} LexEqual<T(!new)>(cmp: (T, T) -> Ordering, a: seq<T>, b: seq<T>)
    requires TotalOrder(cmp)
    ensures Lex(cmp, a, b) == Equal <==> a == b
    decreases |a|
  {
    if a != [] && b != [] {
      LexEqual(cmp, a[1..], b[1..]);
      assert a == [a[0]] + a[1..] && b == [b[0]] + b[1..];
    }
  }

  lemma {:induction false} LexFlip<T(!new)>(cmp: (T, T) -> Ordering, a: seq<T>, b: seq<T>)
    requires TotalOrder(cmp)
    ensures Lex(cmp, b, a) == Lex(cmp, a, b).Flip()
    decreases |a|
  {
    if a != [] && b != [] {
      LexFlip(cmp, a[1..], b[1..]);
    }
  }

  lemma {:induction false} LexTransitive<T(!new)>(cmp: (T, T) -> Ordering, a: seq<T>, b: seq<T>, c: seq<T>)
    requires TotalOrder(cmp)
    requires Lex(cmp, a, b) == Less && Lex(cmp, b, c) == Less
    ensures Lex(cmp, a, c) == Less
    decreases |a|
  {
    if a != [] && cmp(a[0], b[0]) == Equal && cmp(b[0], c[0]) == Equal {
      LexTransitive(cmp, a[1..], b[1..], c[1..]);
    }
  }

  // `a` comes first at the first place the two differ, or ends there.
  ghost predicate FirstDifference<T>(below: (T, T) -> bool, a: seq<T>, b: seq<T>) {
    exists k: nat :: k <= |a| && k < |b| && a[..k] == b[..k] && (k == |a| || below(a[k], b[k]))
  }

  lemma {:induction false} LexIsFirstDifference<T(!new)>(
    cmp: (T, T) -> Ordering, below: (T, T) -> bool, a: seq<T>, b: seq<T>)
    requires TotalOrder(cmp) && forall x, y :: below(x, y) <==> cmp(x, y) == Less
    ensures Lex(cmp, a, b) == Less <==> FirstDifference(below, a, b)
    decreases |a|
  {
    if a == [] || b == [] {
      assert b != [] ==> a[..0] == b[..0];
    } else if cmp(a[0], b[0]) == Equal {
      LexIsFirstDifference(cmp, below, a[1..], b[1..]);
      if FirstDifference(below, a[1..], b[1..]) {
        var k: nat :| k <= |a[1..]| && k < |b[1..]| && a[1..][..k] == b[1..][..k]
                   && (k == |a[1..]| || below(a[1..][k], b[1..][k]));
        assert a[..k + 1] == [a[0]] + a[1..][..k] && b[..k + 1] == [b[0]] + b[1..][..k];
      }
      if FirstDifference(below, a, b) {
        var k: nat :| k <= |a| && k < |b| && a[..k] == b[..k] && (k == |a| || below(a[k], b[k]));
        assert k > 0;
        assert a[1..][..k - 1] == a[..k][1..] && b[1..][..k - 1] == b[..k][1..];
      }
    } else {
      assert a[..0] == b[..0];
      forall k: nat | 0 < k <= |a| && k < |b|
        ensures a[..k] != b[..k]
      {
        assert a[..k][0] == a[0] && b[..k][0] == b[0];
      }
    }
  }

  // ---- The comparison as the code makes it ----------------------------------------------------

  function CompareChar(a: char, b: char): Ordering {
    if a < b then Less else if a == b then Equal else Greater
  }

  function CompareText(a: string, b: string): Ordering {
    Lex(CompareChar, a, b)
  }

  // By length first, then as text.
  function CompareNumeric(a: string, b: string): Ordering {
    if |a| < |b| then Less else if |a| > |b| then Greater else CompareText(a, b)
  }

  predicate IsDigit(c: char) {
    '0' <= c <= '9'
  }

  predicate IsNumeric(id: string) {
    id != "" && forall c | c in id :: IsDigit(c)
  }

  function CompareIdentifier(a: string, b: string): Ordering {
    if IsNumeric(a) && IsNumeric(b) then CompareNumeric(a, b)
    else if IsNumeric(a) then Less
    else if IsNumeric(b) then Greater
    else CompareText(a, b)
  }

  function ComparePrereleases(a: Option<string>, b: Option<string>): Ordering {
    if a.None? && b.None? then Equal
    else if a.None? then Greater
    else if b.None? then Less
    else Lex(CompareIdentifier, Split(a.value, '.'), Split(b.value, '.'))
  }

  datatype Version = Version(base: string, prerelease: Option<string>, build: Option<string>)

  function Compare(a: Version, b: Version): Ordering {
    var base := Lex(CompareNumeric, Split(a.base, '.'), Split(b.base, '.'));
    if base == Equal then ComparePrereleases(a.prerelease, b.prerelease) else base
  }

  // The loop over the dot-separated fields; a proper prefix comes first.
  method ComparePrerelease(a: string, b: string) returns (order: Ordering)
    ensures order == ComparePrereleases(Some(a), Some(b))
  {
    var x, y := Split(a, '.'), Split(b, '.');
    var i := 0;
    while i < |x| && i < |y|
      invariant 0 <= i <= |x| && i <= |y|
      invariant Lex(CompareIdentifier, x, y) == Lex(CompareIdentifier, x[i..], y[i..])
    {
      order := CompareIdentifier(x[i], y[i]);
      if order != Equal {
        return;
      }
      assert x[i..][1..] == x[i + 1..] && y[i..][1..] == y[i + 1..];
      i := i + 1;
    }
    order := if |x| == |y| then Equal else if |x| < |y| then Less else Greater;
  }

  // ---- Parsing --------------------------------------------------------------------------------

  predicate IsBaseComponent(s: string) {
    IsNumeric(s) && (|s| > 1 ==> s[0] != '0')
  }

  predicate IsIdentifierChar(c: char) {
    IsDigit(c) || 'a' <= c <= 'z' || 'A' <= c <= 'Z' || c == '-'
  }

  predicate IsDotIdentifiers(field: string) {
    forall id | id in Split(field, '.') :: id != "" && forall c | c in id :: IsIdentifierChar(c)
  }

  // A field that may follow a mark: absent without the mark, refused when empty after it.
  function Marked(s: string, mark: char): Option<(string, Option<string>)> {
    match SplitOnce(s, mark)
    case None => Some((s, None))
    case Some((left, right)) => if right == "" then None else Some((left, Some(right)))
  }

  function Parse(raw: string): Option<Version> {
    match Marked(raw, '+')
    case None => None
    case Some((withoutBuild, build)) =>
      match Marked(withoutBuild, '-')
      case None => None
      case Some((base, prerelease)) =>
        var components := Split(base, '.');
        if && |components| == 3 && (forall c | c in components :: IsBaseComponent(c))
           && (prerelease.Some? ==> IsDotIdentifiers(prerelease.value))
           && (build.Some? ==> IsDotIdentifiers(build.value))
        then Some(Version(base, prerelease, build)) else None
  }

  const MAX_SEMVER_LEN := 64

  predicate LeadingZero(id: string) {
    |id| > 1 && id[0] == '0' && IsNumeric(id)
  }

  predicate PlainIdentifier(id: string) {
    id != "" && !LeadingZero(id)
  }

  predicate IsSemVer(raw: string) {
    && |raw| <= MAX_SEMVER_LEN
    && Parse(raw).Some?
    && (Parse(raw).value.prerelease.Some? ==>
          forall id | id in Split(Parse(raw).value.prerelease.value, '.') :: !LeadingZero(id))
  }

  // Everything but the build metadata.
  function Identity(raw: string): Option<string> {
    if Parse(raw).None? then None else Some(Marked(raw, '+').value.0)
  }

  function Precedence(a: string, b: string): Option<Ordering> {
    if Parse(a).None? || Parse(b).None? then None else Some(Compare(Parse(a).value, Parse(b).value))
  }

  // ---- What a version looks like --------------------------------------------------------------

  function Written(v: Version): string {
    v.base + (if v.prerelease.Some? then "-" + v.prerelease.value else "")
    + (if v.build.Some? then "+" + v.build.value else "")
  }

  predicate PlainNumber(piece: string) {
    piece != "" && (forall c | c in piece :: '0' <= c <= '9') && (piece[0] == '0' ==> piece == "0")
  }

  // Three numbers without leading zeros.
  predicate ThreeNumbers(base: string) {
    |Split(base, '.')| == 3 && forall piece | piece in Split(base, '.') :: PlainNumber(piece)
  }

  // Identifiers of letters, digits and hyphens, separated by dots.
  predicate Dotted(field: string) {
    forall piece | piece in Split(field, '.') ::
      && piece != ""
      && forall c | c in piece :: 'a' <= c <= 'z' || 'A' <= c <= 'Z' || '0' <= c <= '9' || c == '-'
  }

  predicate WellFormed(v: Version) {
    && ThreeNumbers(v.base)
    && (v.prerelease.Some? ==> Dotted(v.prerelease.value)) && (v.build.Some? ==> Dotted(v.build.value))
  }

  lemma BaseHasNoMarks(base: string)
    requires ThreeNumbers(base)
    ensures '-' !in base && '+' !in base
  {
    if '-' in base {
      CharsAreInPieces(base, '.', '-');
    }
    if '+' in base {
      CharsAreInPieces(base, '.', '+');
    }
  }

  lemma DottedHasNoPlus(field: string)
    requires Dotted(field)
    ensures '+' !in field && field != ""
  {
    if '+' in field {
      CharsAreInPieces(field, '.', '+');
    }
    assert Split("", '.') == [""] && "" in Split("", '.');
  }

  lemma NumbersAreBaseComponents(piece: string)
    ensures PlainNumber(piece) <==> IsBaseComponent(piece)
  {
    if |piece| == 1 && piece[0] == '0' {
      assert piece == "0";
    }
  }

  lemma GrammarIsTheCodes(base: string, field: string)
    ensures ThreeNumbers(base)
       <==> |Split(base, '.')| == 3 && forall c | c in Split(base, '.') :: IsBaseComponent(c)
    ensures Dotted(field) <==> IsDotIdentifiers(field)
  {
    forall piece | piece in Split(base, '.')
      ensures PlainNumber(piece) <==> IsBaseComponent(piece)
    {
      NumbersAreBaseComponents(piece);
    }
  }

  lemma MarkedOf(left: string, right: Option<string>, mark: char)
    requires mark !in left && (right.Some? ==> right.value != "")
    ensures Marked(left + (if right.Some? then [mark] + right.value else ""), mark) == Some((left, right))
  {
    if right.Some? {
      FirstSeparatorIsUnique(left, right.value, mark);
      assert left + ([mark] + right.value) == left + [mark] + right.value;
    } else {
      assert left + "" == left;
    }
  }

  // A text is taken as a version exactly when it is one written out: every pre-release and every build
  // included, nothing else.
  lemma ParsedExactlyWhen(raw: string, v: Version)
    ensures Parse(raw) == Some(v) <==> WellFormed(v) && raw == Written(v)
  {
    if WellFormed(v) && raw == Written(v) {
      BaseHasNoMarks(v.base);
      var withoutBuild := v.base + (if v.prerelease.Some? then "-" + v.prerelease.value else "");
      if v.prerelease.Some? {
        DottedHasNoPlus(v.prerelease.value);
      }
      if v.build.Some? {
        DottedHasNoPlus(v.build.value);
        GrammarIsTheCodes(v.base, v.build.value);
      }
      MarkedOf(withoutBuild, v.build, '+');
      MarkedOf(v.base, v.prerelease, '-');
      GrammarIsTheCodes(v.base, if v.prerelease.Some? then v.prerelease.value else "");
    }
    if Parse(raw) == Some(v) {
      WrittenAgain(raw, v);
      GrammarIsTheCodes(v.base, if v.prerelease.Some? then v.prerelease.value else "");
      GrammarIsTheCodes(v.base, if v.build.Some? then v.build.value else "");
    }
  }

  lemma WrittenAgain(raw: string, v: Version)
    requires Parse(raw) == Some(v)
    ensures raw == Written(v)
  {
    MarkedReadsBack(raw, '+');
    MarkedReadsBack(Marked(raw, '+').value.0, '-');
  }

  lemma MarkedReadsBack(s: string, mark: char)
    requires Marked(s, mark).Some?
    ensures var (left, right) := Marked(s, mark).value;
            s == left + (if right.Some? then [mark] + right.value else "")
  {
    var (left, right) := Marked(s, mark).value;
    if right.Some? {
      assert left + ([mark] + right.value) == left + [mark] + right.value;
    } else {
      assert left + "" == left;
    }
  }

  // A version is one plain name: it can name a directory, and none outside its place.
  lemma VersionIsAPlainName(raw: string)
    requires Parse(raw).Some?
    ensures PlainName(raw) && '\\' !in raw && ':' !in raw
  {
    var v := Parse(raw).value;
    ParsedExactlyWhen(raw, v);
    FieldChars(v.base);
    if v.prerelease.Some? {
      FieldChars(v.prerelease.value);
    }
    if v.build.Some? {
      FieldChars(v.build.value);
    }
    BaseStartsWithADigit(v.base);
    assert raw[0] == v.base[0];
  }

  lemma BaseStartsWithADigit(base: string)
    requires ThreeNumbers(base)
    ensures base != "" && '0' <= base[0] <= '9'
  {
    var first := Split(base, '.')[0];
    assert first in Split(base, '.');
    assert base != "" && first[0] in first;
  }

  lemma FieldChars(field: string)
    requires ThreeNumbers(field) || Dotted(field)
    ensures '/' !in field && '\\' !in field && ':' !in field
  {
    if '/' in field {
      CharsAreInPieces(field, '.', '/');
    }
    if '\\' in field {
      CharsAreInPieces(field, '.', '\\');
    }
    if ':' in field {
      CharsAreInPieces(field, '.', ':');
    }
  }

  // And it is SemVer exactly when, besides, it is at most 64 long and no number among its pre-release
  // identifiers has a leading zero.
  lemma SemVerExactlyWhen(raw: string)
    ensures IsSemVer(raw)
       <==> && |raw| <= 64
            && exists v :: WellFormed(v) && raw == Written(v) && NoLeadingZeros(v.prerelease)
  {
    if Parse(raw).Some? {
      ParsedExactlyWhen(raw, Parse(raw).value);
    }
    if exists v :: WellFormed(v) && raw == Written(v) && NoLeadingZeros(v.prerelease) {
      var v :| WellFormed(v) && raw == Written(v) && NoLeadingZeros(v.prerelease);
      ParsedExactlyWhen(raw, v);
    }
  }

  predicate NoLeadingZeros(prerelease: Option<string>) {
    prerelease.Some? ==>
      forall piece | piece in Split(prerelease.value, '.') ::
        piece != "" && piece != "0" && piece[0] == '0' ==> exists c :: c in piece && !('0' <= c <= '9')
  }

  // Three numbers without leading zeros, joined by dots, are a version.
  lemma CoreIsSemVer(major: string, minor: string, patch: string)
    requires IsBaseComponent(major) && IsBaseComponent(minor) && IsBaseComponent(patch)
    requires |major| + |minor| + |patch| + 2 <= MAX_SEMVER_LEN
    ensures IsSemVer(Join([major, minor, patch], '.'))
    ensures Parse(Join([major, minor, patch], '.')) == Some(Version(Join([major, minor, patch], '.'), None, None))
  {
    var core := [major, minor, patch];
    assert core[1..] == [minor, patch] && [minor, patch][1..] == [patch];
    var raw := Join(core, '.');
    assert Join([minor, patch], '.') == minor + ['.'] + Join([patch], '.');
    assert raw == major + ['.'] + (minor + ['.'] + patch);
    assert '+' !in raw && '-' !in raw;
    SplitOfJoin(core, '.');
  }

  // ---- A total preorder -----------------------------------------------------------------------

  lemma CharOrder()
    ensures TotalOrder(CompareChar)
  {
  }

  lemma TextOrder(a: string, b: string, c: string)
    ensures CompareText(a, b) == Equal <==> a == b
    ensures CompareText(b, a) == CompareText(a, b).Flip()
    ensures CompareText(a, b) == Less && CompareText(b, c) == Less ==> CompareText(a, c) == Less
  {
    CharOrder();
    LexEqual(CompareChar, a, b);
    LexFlip(CompareChar, a, b);
    if CompareText(a, b) == Less && CompareText(b, c) == Less {
      LexTransitive(CompareChar, a, b, c);
    }
  }

  lemma NumericOrder()
    ensures TotalOrder(CompareNumeric)
  {
    forall a, b, c
      ensures CompareText(a, b) == Equal <==> a == b
      ensures CompareText(b, a) == CompareText(a, b).Flip()
      ensures CompareText(a, b) == Less && CompareText(b, c) == Less ==> CompareText(a, c) == Less
    {
      TextOrder(a, b, c);
    }
  }

  lemma IdentifierOrder()
    ensures TotalOrder(CompareIdentifier)
  {
    NumericOrder();
    forall a, b, c
      ensures CompareText(a, b) == Equal <==> a == b
      ensures CompareText(b, a) == CompareText(a, b).Flip()
      ensures CompareText(a, b) == Less && CompareText(b, c) == Less ==> CompareText(a, c) == Less
    {
      TextOrder(a, b, c);
    }
  }

  lemma BaseOrder(a: Version, b: Version, c: Version)
    ensures var cmp := (x: Version, y: Version) => Lex(CompareNumeric, Split(x.base, '.'), Split(y.base, '.'));
            && (cmp(a, b) == Equal <==> a.base == b.base)
            && cmp(b, a) == cmp(a, b).Flip()
            && (cmp(a, b) == Less && cmp(b, c) == Less ==> cmp(a, c) == Less)
  {
    NumericOrder();
    var x, y, z := Split(a.base, '.'), Split(b.base, '.'), Split(c.base, '.');
    LexEqual(CompareNumeric, x, y);
    LexFlip(CompareNumeric, x, y);
    if Lex(CompareNumeric, x, y) == Less && Lex(CompareNumeric, y, z) == Less {
      LexTransitive(CompareNumeric, x, y, z);
    }
    if x == y {
      SplitInjective(a.base, b.base, '.');
    }
  }

  lemma PrereleaseOrder(a: Option<string>, b: Option<string>, c: Option<string>)
    ensures ComparePrereleases(a, b) == Equal <==> a == b
    ensures ComparePrereleases(b, a) == ComparePrereleases(a, b).Flip()
    ensures ComparePrereleases(a, b) == Less && ComparePrereleases(b, c) == Less ==> ComparePrereleases(a, c) == Less
  {
    IdentifierOrder();
    if a.Some? && b.Some? {
      var x, y := Split(a.value, '.'), Split(b.value, '.');
      LexEqual(CompareIdentifier, x, y);
      LexFlip(CompareIdentifier, x, y);
      if x == y {
        SplitInjective(a.value, b.value, '.');
      }
      if c.Some? && Lex(CompareIdentifier, x, y) == Less && ComparePrereleases(b, c) == Less {
        LexTransitive(CompareIdentifier, x, y, Split(c.value, '.'));
      }
    }
  }

  lemma CompareOrder(a: Version, b: Version, c: Version)
    ensures Compare(a, b) == Equal <==> a.base == b.base && a.prerelease == b.prerelease
    ensures Compare(b, a) == Compare(a, b).Flip()
    ensures Compare(a, b) != Greater && Compare(b, c) != Greater ==> Compare(a, c) != Greater
    ensures Compare(a, b) == Less && Compare(b, c) != Greater ==> Compare(a, c) == Less
    ensures Compare(a, b) != Greater && Compare(b, c) == Less ==> Compare(a, c) == Less
  {
    BaseOrder(a, b, c);
    BaseOrder(b, c, a);
    PrereleaseOrder(a.prerelease, b.prerelease, c.prerelease);
    PrereleaseOrder(b.prerelease, c.prerelease, a.prerelease);
  }

  // The identity is the base and the pre-release, and nothing else.
  lemma IdentityIsBaseAndPrerelease(a: string, b: string)
    requires Parse(a).Some? && Parse(b).Some?
    ensures Identity(a) == Identity(b)
       <==> Parse(a).value.base == Parse(b).value.base && Parse(a).value.prerelease == Parse(b).value.prerelease
  {
    var x, y := Marked(a, '+').value.0, Marked(b, '+').value.0;
    assert Parse(a).value.prerelease.Some? ==> x == Parse(a).value.base + "-" + Parse(a).value.prerelease.value;
    assert Parse(b).value.prerelease.Some? ==> y == Parse(b).value.base + "-" + Parse(b).value.prerelease.value;
    assert Parse(a).value.prerelease.None? ==> x == Parse(a).value.base;
    assert Parse(b).value.prerelease.None? ==> y == Parse(b).value.base;
  }

  // Precedence is a total preorder on everything that parses, and its ties are exactly the
  // versions that name one release: build metadata is all it ignores.
  lemma PrecedenceIsTotalPreorder(a: string, b: string, c: string)
    requires Parse(a).Some? && Parse(b).Some? && Parse(c).Some?
    ensures Precedence(a, a) == Some(Equal)
    ensures Precedence(a, b) == Some(Equal) <==> Identity(a) == Identity(b)
    ensures Precedence(b, a) == Some(Precedence(a, b).value.Flip())
    ensures Precedence(a, b) != Some(Greater) && Precedence(b, c) != Some(Greater) ==> Precedence(a, c) != Some(Greater)
    ensures Precedence(a, b) == Some(Less) && Precedence(b, c) != Some(Greater) ==> Precedence(a, c) == Some(Less)
    ensures Precedence(a, b) != Some(Greater) && Precedence(b, c) == Some(Less) ==> Precedence(a, c) == Some(Less)
  {
    CompareOrder(Parse(a).value, Parse(b).value, Parse(c).value);
    CompareOrder(Parse(a).value, Parse(a).value, Parse(a).value);
    IdentityIsBaseAndPrerelease(a, b);
  }

  // ---- Section 11 of SemVer 2.0.0 -------------------------------------------------------------

  datatype Identifier = Number(n: nat) | Word(word: string)

  datatype Release = Release(core: seq<nat>, prerelease: Option<seq<Identifier>>)

  predicate CharBelow(a: char, b: char) {
    a < b
  }

  predicate NatBelow(a: nat, b: nat) {
    a < b
  }

  // Numeric identifiers compare numerically, others in ASCII order, numeric ones below the others.
  ghost predicate IdentifierBelow(a: Identifier, b: Identifier) {
    match (a, b)
    case (Number(m), Number(n)) => m < n
    case (Number(_), Word(_)) => true
    case (Word(_), Number(_)) => false
    case (Word(v), Word(w)) => FirstDifference(CharBelow, v, w)
  }

  // Having a pre-release is below having none; two decide at their first difference.
  ghost predicate PrereleaseBelow(a: Option<seq<Identifier>>, b: Option<seq<Identifier>>) {
    a.Some? && (b.None? || FirstDifference(IdentifierBelow, a.value, b.value))
  }

  // The core decides at its first difference, then the pre-release.
  ghost predicate Below(a: Release, b: Release) {
    || FirstDifference(NatBelow, a.core, b.core)
    || (a.core == b.core && PrereleaseBelow(a.prerelease, b.prerelease))
  }

  function Pow10(n: nat): nat {
    if n == 0 then 1 else 10 * Pow10(n - 1)
  }

  function Digit(c: char): nat
    requires IsDigit(c)
  {
    c as int - '0' as int
  }

  function Value(s: string): nat
    requires forall c | c in s :: IsDigit(c)
  {
    if s == "" then 0 else Digit(s[0]) * Pow10(|s| - 1) + Value(s[1..])
  }

  lemma {:induction false} ValueBound(s: string)
    requires forall c | c in s :: IsDigit(c)
    ensures Value(s) < Pow10(|s|)
  {
    if s != "" {
      ValueBound(s[1..]);
      assert Digit(s[0]) * Pow10(|s| - 1) <= 9 * Pow10(|s| - 1);
    }
  }

  lemma {:induction false} Pow10Grows(m: nat, n: nat)
    requires m <= n
    ensures 1 <= Pow10(m) <= Pow10(n)
    decreases n
  {
    if m < n {
      Pow10Grows(m, n - 1);
    } else if m > 0 {
      Pow10Grows(m - 1, n - 1);
    }
  }

  lemma AtLeastOnce(d: nat, p: nat)
    requires d >= 1
    ensures d * p >= p
  {
    assert d * p == p + (d - 1) * p;
  }

  // A number without a leading zero fills its length.
  lemma ValueFillsLength(s: string)
    requires IsNumeric(s) && |s| > 1 && s[0] != '0'
    ensures Pow10(|s| - 1) <= Value(s)
  {
    AtLeastOnce(Digit(s[0]), Pow10(|s| - 1));
  }

  lemma FirstDigitDecides(d: nat, e: nat, p: nat, x: nat, y: nat)
    requires d < e && x < p
    ensures d * p + x < e * p + y
  {
    assert (d + 1) * p <= e * p;
  }

  lemma {:induction false} SameLengthValue(a: string, b: string)
    requires |a| == |b| && (forall c | c in a :: IsDigit(c)) && (forall c | c in b :: IsDigit(c))
    ensures CompareText(a, b) == Less <==> Value(a) < Value(b)
    ensures CompareText(a, b) == Equal <==> Value(a) == Value(b)
  {
    if a != "" {
      var x, y, p := a[1..], b[1..], Pow10(|a| - 1);
      SameLengthValue(x, y);
      ValueBound(x);
      ValueBound(y);
      if a[0] < b[0] {
        FirstDigitDecides(Digit(a[0]), Digit(b[0]), p, Value(x), Value(y));
      } else if b[0] < a[0] {
        FirstDigitDecides(Digit(b[0]), Digit(a[0]), p, Value(y), Value(x));
      }
    }
  }

  // Comparing digit strings by length and text is comparing the numbers they write.
  lemma NumericComparesValues(a: string, b: string)
    requires IsBaseComponent(a) && IsBaseComponent(b)
    ensures CompareNumeric(a, b) == Less <==> Value(a) < Value(b)
    ensures CompareNumeric(a, b) == Equal <==> Value(a) == Value(b)
  {
    if |a| == |b| {
      SameLengthValue(a, b);
    } else if |a| < |b| {
      ValueBound(a);
      ValueFillsLength(b);
      Pow10Grows(|a|, |b| - 1);
    } else {
      ValueBound(b);
      ValueFillsLength(a);
      Pow10Grows(|b|, |a| - 1);
    }
  }

  function DenoteIdentifier(id: string): Identifier {
    if IsNumeric(id) then Number(Value(id)) else Word(id)
  }

  function DenoteNumbers(texts: seq<string>): seq<nat>
    requires forall i | 0 <= i < |texts| :: IsBaseComponent(texts[i])
  {
    seq(|texts|, i requires 0 <= i < |texts| => assert IsBaseComponent(texts[i]); Value(texts[i]))
  }

  function DenoteIdentifiers(ids: seq<string>): seq<Identifier> {
    seq(|ids|, i requires 0 <= i < |ids| => DenoteIdentifier(ids[i]))
  }

  // The release a version writes: three numbers and, for a pre-release, its identifiers.
  function Denote(raw: string): Release
    requires IsSemVer(raw)
  {
    var v := Parse(raw).value;
    Release(DenoteNumbers(Split(v.base, '.')), DenotePrerelease(v.prerelease))
  }

  function DenotePrerelease(prerelease: Option<string>): Option<seq<Identifier>> {
    if prerelease.None? then None else Some(DenoteIdentifiers(Split(prerelease.value, '.')))
  }

  // Elements that compare alike have their first difference in the same place.
  lemma FirstDifferenceCarriesOver<S, T>(
    below: (S, S) -> bool, a: seq<S>, b: seq<S>, below': (T, T) -> bool, u: seq<T>, v: seq<T>)
    requires |u| == |a| && |v| == |b|
    requires forall i, j | 0 <= i < |a| && 0 <= j < |b| ::
               (below(a[i], b[j]) <==> below'(u[i], v[j])) && (a[i] == b[j] <==> u[i] == v[j])
    ensures FirstDifference(below, a, b) <==> FirstDifference(below', u, v)
    ensures a == b <==> u == v
  {
    forall k: nat | k <= |a| && k <= |b|
      ensures a[..k] == b[..k] <==> u[..k] == v[..k]
    {
      if a[..k] == b[..k] {
        forall i | 0 <= i < k ensures u[i] == v[i] { assert a[..k][i] == b[..k][i]; }
      }
      if u[..k] == v[..k] {
        forall i | 0 <= i < k ensures a[i] == b[i] { assert u[..k][i] == v[..k][i]; }
      }
    }
    assert a[..|a|] == a && b[..|b|] == b && u[..|u|] == u && v[..|v|] == v;
  }

  lemma IdentifierComparesDenotation(a: string, b: string)
    requires PlainIdentifier(a) && PlainIdentifier(b)
    ensures CompareIdentifier(a, b) == Less <==> IdentifierBelow(DenoteIdentifier(a), DenoteIdentifier(b))
    ensures a == b <==> DenoteIdentifier(a) == DenoteIdentifier(b)
  {
    if IsNumeric(a) && IsNumeric(b) {
      NumericComparesValues(a, b);
      NumericOrder();
    } else if !IsNumeric(a) && !IsNumeric(b) {
      CharOrder();
      LexIsFirstDifference(CompareChar, CharBelow, a, b);
    }
  }

  lemma CoreComparesDenotation(a: seq<string>, b: seq<string>)
    requires forall i | 0 <= i < |a| :: IsBaseComponent(a[i])
    requires forall i | 0 <= i < |b| :: IsBaseComponent(b[i])
    ensures Lex(CompareNumeric, a, b) == Less <==> FirstDifference(NatBelow, DenoteNumbers(a), DenoteNumbers(b))
    ensures a == b <==> DenoteNumbers(a) == DenoteNumbers(b)
  {
    NumericOrder();
    var below := (x: string, y: string) => CompareNumeric(x, y) == Less;
    LexIsFirstDifference(CompareNumeric, below, a, b);
    forall i, j | 0 <= i < |a| && 0 <= j < |b|
      ensures below(a[i], b[j]) <==> NatBelow(DenoteNumbers(a)[i], DenoteNumbers(b)[j])
      ensures a[i] == b[j] <==> DenoteNumbers(a)[i] == DenoteNumbers(b)[j]
    {
      NumericComparesValues(a[i], b[j]);
    }
    FirstDifferenceCarriesOver(below, a, b, NatBelow, DenoteNumbers(a), DenoteNumbers(b));
  }

  predicate AllPlain(ids: seq<string>) {
    forall i | 0 <= i < |ids| :: PlainIdentifier(ids[i])
  }

  lemma PrereleaseComparesDenotation(a: seq<string>, b: seq<string>)
    requires AllPlain(a) && AllPlain(b)
    ensures Lex(CompareIdentifier, a, b) == Less
       <==> FirstDifference(IdentifierBelow, DenoteIdentifiers(a), DenoteIdentifiers(b))
    ensures a == b <==> DenoteIdentifiers(a) == DenoteIdentifiers(b)
  {
    IdentifierOrder();
    var below := (x: string, y: string) => CompareIdentifier(x, y) == Less;
    LexIsFirstDifference(CompareIdentifier, below, a, b);
    forall i, j | 0 <= i < |a| && 0 <= j < |b|
      ensures below(a[i], b[j]) <==> IdentifierBelow(DenoteIdentifiers(a)[i], DenoteIdentifiers(b)[j])
      ensures a[i] == b[j] <==> DenoteIdentifiers(a)[i] == DenoteIdentifiers(b)[j]
    {
      IdentifierComparesDenotation(a[i], b[j]);
    }
    FirstDifferenceCarriesOver(below, a, b, IdentifierBelow, DenoteIdentifiers(a), DenoteIdentifiers(b));
  }

  // On every pair of SemVer versions, precedence is the order section 11 defines.
  lemma PrecedenceIsSection11(a: string, b: string)
    requires IsSemVer(a) && IsSemVer(b)
    ensures Precedence(a, b) == Some(Less) <==> Below(Denote(a), Denote(b))
    ensures Precedence(a, b) == Some(Equal) <==> Denote(a) == Denote(b)
    ensures Precedence(a, b) == Some(Greater) <==> Below(Denote(b), Denote(a))
  {
    LessIsBelow(a, b);
    LessIsBelow(b, a);
    PrecedenceIsTotalPreorder(a, b, a);
  }

  lemma IdentifiersAreSemVer(raw: string)
    requires IsSemVer(raw) && Parse(raw).value.prerelease.Some?
    ensures AllPlain(Split(Parse(raw).value.prerelease.value, '.'))
  {
    var ids := Split(Parse(raw).value.prerelease.value, '.');
    assert IsDotIdentifiers(Parse(raw).value.prerelease.value);
    forall i | 0 <= i < |ids|
      ensures PlainIdentifier(ids[i])
    {
      assert ids[i] in ids;
    }
  }

  lemma PrereleaseLessIsBelow(x: Option<string>, y: Option<string>)
    requires x.Some? ==> AllPlain(Split(x.value, '.'))
    requires y.Some? ==> AllPlain(Split(y.value, '.'))
    ensures ComparePrereleases(x, y) == Less <==> PrereleaseBelow(DenotePrerelease(x), DenotePrerelease(y))
    ensures x == y <==> DenotePrerelease(x) == DenotePrerelease(y)
  {
    if x.Some? && y.Some? {
      PrereleaseComparesDenotation(Split(x.value, '.'), Split(y.value, '.'));
      if Split(x.value, '.') == Split(y.value, '.') {
        SplitInjective(x.value, y.value, '.');
      }
    }
  }

  lemma BaseLessIsBelow(a: string, b: string)
    requires IsSemVer(a) && IsSemVer(b)
    ensures var x, y := Parse(a).value.base, Parse(b).value.base;
            && (Lex(CompareNumeric, Split(x, '.'), Split(y, '.')) == Less
                <==> FirstDifference(NatBelow, Denote(a).core, Denote(b).core))
            && (x == y <==> Denote(a).core == Denote(b).core)
  {
    var x, y := Parse(a).value.base, Parse(b).value.base;
    CoreComparesDenotation(Split(x, '.'), Split(y, '.'));
    if Split(x, '.') == Split(y, '.') {
      SplitInjective(x, y, '.');
    }
  }

  lemma LessIsBelow(a: string, b: string)
    requires IsSemVer(a) && IsSemVer(b)
    ensures Precedence(a, b) == Some(Less) <==> Below(Denote(a), Denote(b))
    ensures Precedence(a, b) == Some(Equal) <==> Denote(a) == Denote(b)
  {
    var x, y := Parse(a).value, Parse(b).value;
    BaseLessIsBelow(a, b);
    if x.prerelease.Some? {
      IdentifiersAreSemVer(a);
    }
    if y.prerelease.Some? {
      IdentifiersAreSemVer(b);
    }
    PrereleaseLessIsBelow(x.prerelease, y.prerelease);
    BaseOrder(x, y, x);
    PrereleaseOrder(x.prerelease, y.prerelease, x.prerelease);
  }
}
