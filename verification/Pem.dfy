/**
 The one-block rule for certificate requests (`fleet-core/src/csr.rs`): what `der` accepts holds one
 BEGIN and one END boundary, so all readers see one block.
 */
module Pem {
  import opened Outcomes

  const BEGIN := "-----BEGIN CERTIFICATE REQUEST-----"
  const END := "-----END CERTIFICATE REQUEST-----"

  predicate Whitespace(c: char) {
    c == ' ' || c == '\t' || c == '\n' || c == '\r' || c == '\U{000c}'
  }

  predicate LineBreak(c: char) {
    c == '\n' || c == '\r'
  }

  predicate BodyChar(c: char) {
    || '0' <= c <= '9' || 'a' <= c <= 'z' || 'A' <= c <= 'Z'
    || c == '+' || c == '/' || c == '=' || Whitespace(c)
  }

  function TrimStart(s: string): string {
    if s != "" && Whitespace(s[0]) then TrimStart(s[1..]) else s
  }

  function TrimEnd(s: string): string {
    if s != "" && Whitespace(s[|s| - 1]) then TrimEnd(s[..|s| - 1]) else s
  }

  // The PEM and certificate-request parsers, which are not part of this model.
  datatype Parsed = Parsed(rest: string, tag: string, contents: Bytes)
  type PemParser = string -> Option<Parsed>
  type RequestParser = Bytes -> bool

  // The body between a first and a last boundary, when it is lines of base64 and nothing else.
  function BodyBetween(t: string, begin: string, end: string): Option<string> {
    if !(begin <= t) then None
    else
      var rest := t[|begin|..];
      if |rest| < |end| || rest[|rest| - |end|..] != end then None
      else
        var body := rest[..|rest| - |end|];
        if IsBody(body) then Some(body) else None
  }

  predicate IsBody(body: string) {
    body != "" && LineBreak(body[0]) && LineBreak(body[|body| - 1]) && forall c | c in body :: BodyChar(c)
  }

  // The body of exactly one block, or nothing.
  function OneBlock(text: string): Option<string> {
    BodyBetween(TrimEnd(TrimStart(text)), BEGIN, END)
  }

  function Der(text: string, pem: PemParser, request: RequestParser): Option<Bytes> {
    if OneBlock(text).None? then None
    else
      match pem(TrimEnd(TrimStart(text)))
      case None => None
      case Some(block) =>
        if block.tag == "CERTIFICATE REQUEST" && TrimEnd(TrimStart(block.rest)) == "" && request(block.contents)
        then Some(block.contents) else None
  }

  // ---- Exactly one block ----------------------------------------------------------------------

  lemma {:induction false} TrimStartDrops(s: string) returns (lead: string)
    ensures s == lead + TrimStart(s) && forall c | c in lead :: Whitespace(c)
  {
    if s != "" && Whitespace(s[0]) {
      var rest := TrimStartDrops(s[1..]);
      lead := [s[0]] + rest;
    } else {
      lead := "";
    }
  }

  lemma {:induction false} TrimEndDrops(s: string) returns (trail: string)
    ensures s == TrimEnd(s) + trail && forall c | c in trail :: Whitespace(c)
  {
    if s != "" && Whitespace(s[|s| - 1]) {
      var rest := TrimEndDrops(s[..|s| - 1]);
      trail := rest + [s[|s| - 1]];
    } else {
      trail := "";
    }
  }

  predicate Blank(s: string) {
    forall c | c in s :: c == ' ' || c == '\t' || c == '\n' || c == '\r' || c == '\U{000c}'
  }

  // Base64 and blanks, between two line breaks.
  predicate LinesOfBase64(body: string) {
    && body != "" && body[0] in {'\n', '\r'} && body[|body| - 1] in {'\n', '\r'}
    && forall c | c in body ::
         || 'A' <= c <= 'Z' || 'a' <= c <= 'z' || '0' <= c <= '9' || c == '+' || c == '/' || c == '='
         || Blank([c])
  }

  lemma LinesAreBodies(body: string)
    ensures LinesOfBase64(body) <==> IsBody(body)
  {
    assert forall c {:trigger Blank([c])} {:trigger Whitespace(c)} :: Blank([c]) <==> Whitespace(c) by {
      forall c
        ensures Blank([c]) <==> Whitespace(c)
      {
        assert c in [c];
      }
    }
  }

  // A text that is one block with blanks around it.
  ghost predicate IsOneBlock(text: string, lead: string, body: string, trail: string) {
    text == lead + BEGIN + body + END + trail && Blank(lead) && Blank(trail) && LinesOfBase64(body)
  }

  lemma AcceptedIsOneBlock(text: string) returns (lead: string, trail: string)
    requires OneBlock(text).Some?
    ensures IsOneBlock(text, lead, OneBlock(text).value, trail)
  {
    lead := TrimStartDrops(text);
    trail := TrimEndDrops(TrimStart(text));
    var t := TrimEnd(TrimStart(text));
    Between(t, BEGIN, END);
    Around(lead, BEGIN, OneBlock(text).value, END, trail);
    LinesAreBodies(OneBlock(text).value);
  }

  lemma Between(t: string, begin: string, end: string)
    ensures BodyBetween(t, begin, end).Some? ==> t == begin + BodyBetween(t, begin, end).value + end
  {
  }

  lemma FoundBetween(begin: string, body: string, end: string)
    requires IsBody(body)
    ensures BodyBetween(begin + body + end, begin, end) == Some(body)
  {
    var rest := body + end;
    assert (begin + body + end)[|begin|..] == rest;
    assert rest[..|body|] == body && rest[|body|..] == end;
  }

  lemma Around(lead: string, b: string, body: string, e: string, trail: string)
    ensures lead + (b + body + e + trail) == lead + b + body + e + trail
  {
  }

  // A boundary of any label starts with five dashes and a `B` or an `E`.
  predicate BoundaryAt(text: string, i: nat, kind: char) {
    i + 6 <= |text| && text[i..i + 6] == "-----" + [kind]
  }

  lemma BoundaryChars(text: string, i: nat, kind: char)
    requires BoundaryAt(text, i, kind)
    ensures text[i] == text[i + 1] == text[i + 2] == text[i + 3] == text[i + 4] == '-' && text[i + 5] == kind
  {
    assert text[i..i + 6][0] == text[i] && text[i..i + 6][1] == text[i + 1] && text[i..i + 6][2] == text[i + 2];
    assert text[i..i + 6][3] == text[i + 3] && text[i..i + 6][4] == text[i + 4] && text[i..i + 6][5] == text[i + 5];
  }

  lemma BeginDashes()
    ensures |BEGIN| == 35 && BEGIN[5] == 'B'
    ensures forall o | 0 <= o < 35 :: BEGIN[o] == '-' <==> o < 5 || 30 <= o
  {
  }

  lemma EndDashes()
    ensures |END| == 33 && END[5] == 'E'
    ensures forall o | 0 <= o < 33 :: END[o] == '-' <==> o < 5 || 28 <= o
  {
  }

  // Where the dashes of one block are: the two ends of each boundary and nowhere else.
  lemma WhereDashesAre(text: string, lead: string, body: string, trail: string, p: nat)
    requires IsOneBlock(text, lead, body, trail) && p < |text|
    ensures var b, e := |lead|, |lead| + 35 + |body|;
            text[p] == '-' <==> InDashes(b, e, p)
  {
    BeginDashes();
    EndDashes();
    PieceAt(text, lead, BEGIN, body, END, trail, p);
    LinesAreBodies(body);
  }

  // A character of the whole is a character of the piece it falls in.
  lemma PieceAt(text: string, lead: string, begin: string, body: string, end: string, trail: string, p: nat)
    requires text == lead + begin + body + end + trail && p < |text|
    ensures var b, e := |lead|, |lead| + |begin| + |body|;
            if p < b then text[p] in lead
            else if p < b + |begin| then text[p] == begin[p - b]
            else if p < e then text[p] in body
            else if p < e + |end| then text[p] == end[p - e]
            else text[p] in trail
  {
  }

  // The characters right after each run of dashes.
  lemma AfterTheDashes(text: string, lead: string, body: string, trail: string)
    requires IsOneBlock(text, lead, body, trail)
    ensures var b, e := |lead|, |lead| + 35 + |body|;
            && |text| == e + 33 + |trail|
            && text[b + 5] == 'B' && text[e + 5] == 'E' && LineBreak(text[b + 35])
            && (trail != "" ==> Whitespace(text[e + 33]))
  {
    BeginDashes();
    EndDashes();
    var b, e := |lead|, |lead| + 35 + |body|;
    assert text[b + 5] == BEGIN[5] && text[e + 5] == END[5] && text[b + 35] == body[0];
    if trail != "" {
      assert text[e + 33] == trail[0] && trail[0] in trail;
    }
  }

  // Whatever is accepted holds exactly one BEGIN boundary and one END boundary, of any label at all;
  // so every reader, from the first or from the last boundary, finds the same body between them.
  lemma AcceptedHasOneBoundaryOfEachKind(text: string, pem: PemParser, request: RequestParser) returns (i: nat, j: nat)
    requires Der(text, pem, request).Some?
    ensures BoundaryAt(text, i, 'B') && BoundaryAt(text, j, 'E')
    ensures i + |BEGIN| <= j && text[i..i + |BEGIN|] == BEGIN && text[i + |BEGIN|..j] == OneBlock(text).value
    ensures forall k: nat :: BoundaryAt(text, k, 'B') ==> k == i
    ensures forall k: nat :: BoundaryAt(text, k, 'E') ==> k == j
  {
    var lead, trail := AcceptedIsOneBlock(text);
    var body := OneBlock(text).value;
    BeginDashes();
    i, j := |lead|, |lead| + 35 + |body|;
    OneBlockIsFramed(text, lead, body, trail);
    BoundaryOf(text, i, 'B');
    BoundaryOf(text, j, 'E');
    forall k: nat | BoundaryAt(text, k, 'B')
      ensures k == i
    {
      OnlyPlace(text, i, j, k, 'B');
    }
    forall k: nat | BoundaryAt(text, k, 'E')
      ensures k == j
    {
      OnlyPlace(text, i, j, k, 'E');
    }
  }

  predicate InDashes(b: nat, e: nat, p: nat) {
    b <= p < b + 5 || b + 30 <= p < b + 35 || e <= p < e + 5 || e + 28 <= p < e + 33
  }

  // A boundary begins at `b` and another at `e`, and there are no other dashes.
  predicate Framed(text: string, b: nat, e: nat) {
    && b + 35 < e && e + 33 <= |text|
    && text[b + 5] == 'B' && text[e + 5] == 'E' && LineBreak(text[b + 35])
    && (e + 33 < |text| ==> Whitespace(text[e + 33]))
    && forall p | 0 <= p < |text| :: text[p] == '-' <==> InDashes(b, e, p)
  }

  lemma OneBlockIsFramed(text: string, lead: string, body: string, trail: string)
    requires IsOneBlock(text, lead, body, trail)
    ensures Framed(text, |lead|, |lead| + 35 + |body|)
  {
    AfterTheDashes(text, lead, body, trail);
    forall p | 0 <= p < |text|
      ensures text[p] == '-' <==> InDashes(|lead|, |lead| + 35 + |body|, p)
    {
      WhereDashesAre(text, lead, body, trail, p);
    }
  }

  lemma BoundaryOf(text: string, i: nat, kind: char)
    requires i + 5 < |text| && text[i + 5] == kind
    requires text[i] == text[i + 1] == text[i + 2] == text[i + 3] == text[i + 4] == '-'
    ensures BoundaryAt(text, i, kind)
  {
    assert text[i..i + 6] == ['-', '-', '-', '-', '-', kind];
  }

  // Five dashes and a letter fit in one place for each letter.
  lemma OnlyPlace(text: string, b: nat, e: nat, k: nat, kind: char)
    requires Framed(text, b, e) && BoundaryAt(text, k, kind) && (kind == 'B' || kind == 'E')
    ensures k == if kind == 'B' then b else e
  {
    BoundaryChars(text, k, kind);
    assert InDashes(b, e, k) && InDashes(b, e, k + 4) && !(k <= b + 35 < k + 5);
    assert k == b || k == b + 30 || k == e || k == e + 28;
    assert k != b + 30 && k != e + 28;
  }

  // One block of base64 lines with blanks around it is found, body and all.
  lemma OneBlockIsFound(text: string, lead: string, body: string, trail: string)
    requires IsOneBlock(text, lead, body, trail)
    ensures OneBlock(text) == Some(body) && TrimEnd(TrimStart(text)) == BEGIN + body + END
  {
    BeginDashes();
    LinesAreBodies(body);
    EndDashes();
    FindsInside(text, lead, BEGIN, body, END, trail);
  }

  lemma FindsInside(text: string, lead: string, begin: string, body: string, end: string, trail: string)
    requires text == lead + begin + body + end + trail && IsBody(body)
    requires (forall c | c in lead :: Whitespace(c)) && forall c | c in trail :: Whitespace(c)
    requires begin != "" && !Whitespace(begin[0]) && end != "" && !Whitespace(end[|end| - 1])
    ensures TrimEnd(TrimStart(text)) == begin + body + end
    ensures BodyBetween(TrimEnd(TrimStart(text)), begin, end) == Some(body)
  {
    var t := begin + body + end;
    assert text == lead + (t + trail);
    TrimsStart(lead, t + trail);
    TrimsEnd(t, trail);
    FoundBetween(begin, body, end);
  }

  lemma {:induction false} TrimsStart(lead: string, t: string)
    requires (forall c | c in lead :: Whitespace(c)) && t != "" && !Whitespace(t[0])
    ensures TrimStart(lead + t) == t
  {
    if lead == "" {
      assert lead + t == t;
    } else {
      assert (lead + t)[1..] == lead[1..] + t;
      TrimsStart(lead[1..], t);
    }
  }

  lemma {:induction false} TrimsEnd(t: string, trail: string)
    requires (forall c | c in trail :: Whitespace(c)) && t != "" && !Whitespace(t[|t| - 1])
    ensures TrimEnd(t + trail) == t
  {
    if trail == "" {
      assert t + trail == t;
    } else {
      assert (t + trail)[..|t + trail| - 1] == t + trail[..|trail| - 1];
      TrimsEnd(t, trail[..|trail| - 1]);
    }
  }

  lemma {:induction false} BlankTrimsAway(s: string)
    ensures TrimEnd(TrimStart(s)) == "" <==> Blank(s)
  {
    var lead := TrimStartDrops(s);
    var trail := TrimEndDrops(TrimStart(s));
    if s != "" && Blank(s) {
      assert s[0] in s && forall c | c in s[1..] :: c in s;
      BlankTrimsAway(s[1..]);
    }
  }

  // A text yields a certificate request exactly when it is one block of base64 lines with blanks around it, and
  // what that block parses to carries the right label, leaves nothing behind and is a request.
  lemma DerExactlyWhen(text: string, pem: PemParser, request: RequestParser, contents: Bytes)
    ensures Der(text, pem, request) == Some(contents)
       <==> && request(contents)
            && exists lead, body, trail, rest ::
                 && IsOneBlock(text, lead, body, trail) && Blank(rest)
                 && pem(BEGIN + body + END) == Some(Parsed(rest, "CERTIFICATE REQUEST", contents))
  {
    if Der(text, pem, request) == Some(contents) {
      var lead, trail := AcceptedIsOneBlock(text);
      var body := OneBlock(text).value;
      OneBlockIsFound(text, lead, body, trail);
      var block := pem(BEGIN + body + END).value;
      BlankTrimsAway(block.rest);
      assert IsOneBlock(text, lead, body, trail) && Blank(block.rest);
    }
    if lead, body, trail, rest :|
      && IsOneBlock(text, lead, body, trail) && Blank(rest)
      && pem(BEGIN + body + END) == Some(Parsed(rest, "CERTIFICATE REQUEST", contents))
    {
      OneBlockIsFound(text, lead, body, trail);
      BlankTrimsAway(rest);
    }
  }
}
