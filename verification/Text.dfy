/** Splitting strings on a separator: the pieces of dotted versions and slashed paths. */
module Text {
  import opened Outcomes

  // One component of a path that stays in the directory it is joined to.
  predicate PlainName(name: string) {
    name != "" && name != "." && name != ".." && '/' !in name
  }

  const LOWER := "abcdefghijklmnopqrstuvwxyz"
  const UPPER := "ABCDEFGHIJKLMNOPQRSTUVWXYZ"
  const DIGITS := "0123456789"

  lemma Lower(c: char)
    ensures c in LOWER <==> 'a' <= c <= 'z'
  {
    assert forall k | 0 <= k < 26 :: LOWER[k] == 'a' + k as char;
    assert 'a' <= c <= 'z' ==> c == LOWER[c as int - 97];
  }

  lemma Upper(c: char)
    ensures c in UPPER <==> 'A' <= c <= 'Z'
  {
    assert forall k | 0 <= k < 26 :: UPPER[k] == 'A' + k as char;
    assert 'A' <= c <= 'Z' ==> c == UPPER[c as int - 65];
  }

  lemma AlphabetsAreRanges(c: char)
    ensures c in LOWER <==> 'a' <= c <= 'z'
    ensures c in UPPER <==> 'A' <= c <= 'Z'
    ensures c in DIGITS <==> '0' <= c <= '9'
  {
    Lower(c);
    Upper(c);
    if '0' <= c <= '9' {
      assert DIGITS[c as int - 48] == c;
    }
  }

  // The pieces between the separators: one more than there are separators.
  function Split(s: string, sep: char): (pieces: seq<string>)
    ensures pieces != []
  {
    if s == "" then [""]
    else
      var rest := Split(s[1..], sep);
      if s[0] == sep then [""] + rest else [[s[0]] + rest[0]] + rest[1..]
  }

  function Join(pieces: seq<string>, sep: char): string
    requires pieces != []
  {
    if |pieces| == 1 then pieces[0] else pieces[0] + [sep] + Join(pieces[1..], sep)
  }

  lemma {:induction false} SplitPieces(s: string, sep: char)
    ensures Join(Split(s, sep), sep) == s
    ensures forall piece | piece in Split(s, sep) :: sep !in piece
    ensures forall piece, c | piece in Split(s, sep) && c in piece :: c in s
  {
    if s != "" {
      SplitPieces(s[1..], sep);
      var rest := Split(s[1..], sep);
      var pieces := Split(s, sep);
      if s[0] == sep {
        assert pieces[1..] == rest;
        assert Join(pieces, sep) == [sep] + Join(rest, sep);
      } else {
        assert pieces[0] == [s[0]] + rest[0] && pieces[1..] == rest[1..];
        assert Join(pieces, sep) == [s[0]] + Join(rest, sep);
      }
    }
  }

  // Splitting undoes joining, so a list of pieces is read back as it was written.
  lemma {:induction false} SplitOfJoin(pieces: seq<string>, sep: char)
    requires pieces != [] && forall piece | piece in pieces :: sep !in piece
    ensures Split(Join(pieces, sep), sep) == pieces
    decreases |pieces|, |pieces[0]|
  {
    var s := Join(pieces, sep);
    if pieces[0] == "" {
      if |pieces| > 1 {
        assert s[1..] == Join(pieces[1..], sep);
        SplitOfJoin(pieces[1..], sep);
      }
    } else {
      var shorter := [pieces[0][1..]] + pieces[1..];
      assert pieces[0] in pieces && forall c | c in pieces[0][1..] :: c in pieces[0];
      assert s[0] == pieces[0][0] != sep;
      assert shorter[1..] == pieces[1..];
      assert s[1..] == Join(shorter, sep);
      SplitOfJoin(shorter, sep);
      assert [s[0]] + pieces[0][1..] == pieces[0];
    }
  }

  lemma SplitInjective(a: string, b: string, sep: char)
    requires Split(a, sep) == Split(b, sep)
    ensures a == b
  {
    SplitPieces(a, sep);
    SplitPieces(b, sep);
  }

  // The first separator, and what stands before and after it.
  function SplitOnce(s: string, sep: char): (halves: Option<(string, string)>)
    ensures halves.None? <==> sep !in s
    ensures halves.Some? ==> sep !in halves.value.0 && s == halves.value.0 + [sep] + halves.value.1
  {
    if s == "" then None
    else if s[0] == sep then Some(("", s[1..]))
    else match SplitOnce(s[1..], sep)
      case None => None
      case Some((left, right)) => Some(([s[0]] + left, right))
  }

  // A first separator is where it was put.
  lemma {:induction false} FirstSeparatorIsUnique(left: string, right: string, sep: char)
    requires sep !in left
    ensures SplitOnce(left + [sep] + right, sep) == Some((left, right))
  {
    var s := left + [sep] + right;
    if left == "" {
      assert s[1..] == right;
    } else {
      assert s[0] == left[0] && s[1..] == left[1..] + [sep] + right;
      FirstSeparatorIsUnique(left[1..], right, sep);
      assert [left[0]] + left[1..] == left;
    }
  }

  // Every other character is in one of the pieces.
  lemma {:induction false} CharsAreInPieces(s: string, sep: char, c: char)
    requires c in s && c != sep
    ensures exists piece :: piece in Split(s, sep) && c in piece
  {
    var rest, pieces := Split(s[1..], sep), Split(s, sep);
    if s[0] == c {
      assert pieces[0] == [c] + rest[0] && pieces[0] in pieces;
    } else {
      assert c in s[1..];
      CharsAreInPieces(s[1..], sep, c);
      var piece :| piece in rest && c in piece;
      if s[0] == sep {
        assert pieces[1..] == rest && piece in pieces;
      } else if piece == rest[0] {
        assert c in pieces[0] && pieces[0] in pieces;
      } else {
        assert piece in rest[1..] && pieces[1..] == rest[1..] && piece in pieces;
      }
    }
  }

  // The last separator, and what stands before and after it.
  function SplitLast(s: string, sep: char): (halves: Option<(string, string)>)
    ensures halves.None? <==> sep !in s
    ensures halves.Some? ==> sep !in halves.value.1 && s == halves.value.0 + [sep] + halves.value.1
  {
    if s == "" then None
    else if s[|s| - 1] == sep then Some((s[..|s| - 1], ""))
    else match SplitLast(s[..|s| - 1], sep)
      case None => None
      case Some((left, right)) => Some((left, right + [s[|s| - 1]]))
  }
}
