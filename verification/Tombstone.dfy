/**
 Names of Supervisors and of the directories of removed ones (`config.rs`, `reconfigure.rs`): a
 tombstone is written so that it can be told from anything an operator names, and read back exactly.
 */
module Tombstone {
  import opened Outcomes
  import opened Text

  const TOMBSTONE := ".purge-"
  const TOMBSTONE_NONCE := 17

  const WINDOWS_RESERVED: seq<string> := [
    "con", "prn", "aux", "nul", "com1", "com2", "com3", "com4", "com5", "com6", "com7", "com8",
    "com9", "lpt1", "lpt2", "lpt3", "lpt4", "lpt5", "lpt6", "lpt7", "lpt8", "lpt9"]

  predicate NameChar(c: char) {
    'a' <= c <= 'z' || '0' <= c <= '9' || c == '-'
  }

  // The grammar of `parse_instance_name`.
  predicate InstanceName(raw: string) {
    && 1 <= |raw| <= 32
    && (forall c | c in raw :: NameChar(c))
    && raw[0] != '-' && raw[|raw| - 1] != '-'
    && raw !in WINDOWS_RESERVED
  }

  predicate HexDigit(c: char) {
    '0' <= c <= '9' || 'a' <= c <= 'f'
  }

  predicate Nonce(s: string) {
    |s| >= TOMBSTONE_NONCE && forall c | c in s :: HexDigit(c)
  }

  // The Supervisor whose tombstone a name is.
  function TombstoneOf(name: string): Option<string> {
    if !(TOMBSTONE <= name) then None
    else
      match SplitLast(name[|TOMBSTONE|..], '-')
      case None => None
      case Some((supervisor, nonce)) =>
        if Nonce(nonce) && InstanceName(supervisor) then Some(supervisor) else None
  }

  function Form(supervisor: string, nonce: string): string {
    TOMBSTONE + supervisor + "-" + nonce
  }

  lemma NonceHasNoDash(nonce: string)
    requires Nonce(nonce)
    ensures '-' !in nonce
  {
  }

  // The last separator is the one before a piece without any.
  lemma {:induction false} LastSeparatorIsUnique(left: string, right: string, sep: char)
    requires sep !in right
    ensures SplitLast(left + [sep] + right, sep) == Some((left, right))
  {
    var s := left + [sep] + right;
    if right == "" {
      assert s[..|s| - 1] == left;
    } else {
      var n := |right| - 1;
      assert s[|s| - 1] == right[n] && right[n] in right;
      assert s[..|s| - 1] == left + [sep] + right[..n];
      LastSeparatorIsUnique(left, right[..n], sep);
      assert right[..n] + [right[n]] == right;
    }
  }

  // Reading back what was written gives the Supervisor, for every name and every nonce.
  lemma TombstoneReadsBack(supervisor: string, nonce: string)
    requires InstanceName(supervisor) && Nonce(nonce)
    ensures TombstoneOf(Form(supervisor, nonce)) == Some(supervisor)
  {
    NonceHasNoDash(nonce);
    var rest := supervisor + "-" + nonce;
    assert Form(supervisor, nonce) == TOMBSTONE + rest;
    assert Form(supervisor, nonce)[|TOMBSTONE|..] == rest;
    LastSeparatorIsUnique(supervisor, nonce, '-');
  }

  // A name an operator chose alike, whose last part is shorter than a nonce or no hexadecimal number, is never
  // taken for one.
  lemma LookalikesAreNotTaken(front: string, last: string)
    requires '-' !in last
    requires |last| < 17 || exists c :: c in last && c !in "0123456789abcdef"
    ensures TombstoneOf(".purge-" + front + "-" + last) == None
  {
    var name := ".purge-" + front + "-" + last;
    assert name == TOMBSTONE + (front + "-" + last) && name[|TOMBSTONE|..] == front + "-" + last;
    LastSeparatorIsUnique(front, last, '-');
    if |last| >= 17 {
      var c :| c in last && c !in "0123456789abcdef";
      HexDigitsAre(c);
    }
  }

  lemma HexDigitsAre(c: char)
    ensures HexDigit(c) <==> c in "0123456789abcdef"
  {
  }

  // A Supervisor's name is lowercase letters, digits and inner hyphens, at most 32 of them, and none of the
  // device names.
  lemma InstanceNameExactlyWhen(raw: string)
    ensures InstanceName(raw)
       <==> && 0 < |raw| < 33 && (forall c | c in raw :: c in LOWER || c in DIGITS || c == '-')
            && !("-" <= raw) && raw[|raw| - 1] != '-' && raw !in WINDOWS_RESERVED
  {
    forall c | c in raw
      ensures NameChar(c) <==> c in LOWER || c in DIGITS || c == '-'
    {
      AlphabetsAreRanges(c);
    }
  }

  // So it is a directory name on every host: plain, not hidden and no device.
  lemma InstanceNamesAreDirectories(raw: string)
    requires InstanceName(raw)
    ensures PlainName(raw) && |raw| <= 32 && '\\' !in raw && ':' !in raw && raw[0] != '.'
    ensures forall c | c in raw :: !('A' <= c <= 'Z')
    ensures raw != "con" && raw != "prn" && raw != "aux" && raw != "nul"
  {
    assert raw[0] in raw;
    assert WINDOWS_RESERVED[0] == "con" && WINDOWS_RESERVED[1] == "prn";
    assert WINDOWS_RESERVED[2] == "aux" && WINDOWS_RESERVED[3] == "nul";
  }

  // Whatever is taken for a tombstone was written as one, in exactly one way, and is no
  // Supervisor's own name.
  lemma OnlyTombstonesAreTaken(name: string)
    requires TombstoneOf(name).Some?
    ensures exists nonce ::
              && Nonce(nonce) && InstanceName(TombstoneOf(name).value)
              && name == Form(TombstoneOf(name).value, nonce)
              && forall supervisor', nonce' ::
                   Nonce(nonce') && InstanceName(supervisor') && name == Form(supervisor', nonce') ==>
                     supervisor' == TombstoneOf(name).value && nonce' == nonce
    ensures !InstanceName(name)
  {
    var (supervisor, nonce) := SplitLast(name[|TOMBSTONE|..], '-').value;
    assert name == TOMBSTONE + name[|TOMBSTONE|..];
    assert name == Form(supervisor, nonce);
    forall supervisor', nonce' | Nonce(nonce') && InstanceName(supervisor') && name == Form(supervisor', nonce')
      ensures supervisor' == supervisor && nonce' == nonce
    {
      TombstoneReadsBack(supervisor', nonce');
      assert |nonce'| == |nonce|;
      assert nonce' == name[|name| - |nonce'|..] && nonce == name[|name| - |nonce|..];
    }
    assert name[0] == '.' && name[0] in name && !NameChar('.');
  }

  // ---- Writing one ----------------------------------------------------------------------------

  function HexChar(d: nat): char
    requires d < 16
  {
    if d < 10 then '0' + d as char else 'a' + (d - 10) as char
  }

  // Lowercase hexadecimal, without padding.
  function Hex(n: nat): (s: string)
    ensures s != "" && forall c | c in s :: HexDigit(c)
  {
    if n < 16 then [HexChar(n)] else Hex(n / 16) + [HexChar(n % 16)]
  }

  function Padded(s: string, width: nat): (p: string)
    requires forall c | c in s :: HexDigit(c)
    ensures |p| >= width && forall c | c in p :: HexDigit(c)
  {
    if |s| >= width then s else seq(width - |s|, _ => '0') + s
  }

  // The nanoseconds since the epoch in at least 16 digits, then a counter.
  function TombstoneName(supervisor: string, nanos: nat, next: nat): string {
    Form(supervisor, Padded(Hex(nanos), 16) + Hex(next))
  }

  // At every moment and for every counter, the name written for a Supervisor is read back as its
  // tombstone.
  lemma WrittenTombstoneReadsBack(supervisor: string, nanos: nat, next: nat)
    requires InstanceName(supervisor)
    ensures TombstoneOf(TombstoneName(supervisor, nanos, next)) == Some(supervisor)
  {
    TombstoneReadsBack(supervisor, Padded(Hex(nanos), 16) + Hex(next));
  }

  // ---- A fresh name each time -----------------------------------------------------------------

  function DigitOf(c: char): nat
    requires HexDigit(c)
  {
    if c <= '9' then c as int - '0' as int else c as int - 'a' as int + 10
  }

  // The number a text writes in hexadecimal.
  function HexValue(s: string): nat
    requires forall c | c in s :: HexDigit(c)
  {
    if s == "" then 0 else 16 * HexValue(s[..|s| - 1]) + DigitOf(s[|s| - 1])
  }

  lemma {:induction false} HexWritesTheNumber(n: nat)
    ensures HexValue(Hex(n)) == n
  {
    if n < 16 {
      assert Hex(n)[..0] == "";
    } else {
      HexWritesTheNumber(n / 16);
      var s := Hex(n);
      assert s[..|s| - 1] == Hex(n / 16) && s[|s| - 1] == HexChar(n % 16);
    }
  }

  lemma {:induction false} LeadingZerosAddNothing(zeros: nat, s: string)
    requires forall c | c in s :: HexDigit(c)
    ensures var p := seq(zeros, _ => '0') + s;
            (forall c | c in p :: HexDigit(c)) && HexValue(p) == HexValue(s)
    decreases zeros + |s|
  {
    var p := seq(zeros, _ => '0') + s;
    if s != "" {
      LeadingZerosAddNothing(zeros, s[..|s| - 1]);
      assert p[..|p| - 1] == seq(zeros, _ => '0') + s[..|s| - 1];
    } else if zeros > 0 {
      LeadingZerosAddNothing(zeros - 1, "");
      assert p[..|p| - 1] == seq(zeros - 1, _ => '0') + "";
    }
  }

  function Pow16(k: nat): nat {
    if k == 0 then 1 else 16 * Pow16(k - 1)
  }

  lemma {:induction false} HexIsShort(n: nat, k: nat)
    requires k > 0 && n < Pow16(k)
    ensures |Hex(n)| <= k
  {
    if n >= 16 {
      assert k > 1 && n / 16 < Pow16(k - 1);
      HexIsShort(n / 16, k - 1);
    }
  }

  // The nanoseconds that fill 16 digits: those of every clock before the year 2554.
  const NANOS: nat := 0x1_0000_0000_0000_0000

  lemma NanosAre16Digits()
    ensures Pow16(16) == NANOS
  {
    assert Pow16(4) == 0x1_0000;
    assert Pow16(8) == 0x1_0000_0000;
    assert Pow16(12) == 0x1_0000_0000_0000;
  }

  lemma PaddedNanos(nanos: nat)
    requires nanos < NANOS
    ensures |Padded(Hex(nanos), 16)| == 16 && HexValue(Padded(Hex(nanos), 16)) == nanos
  {
    NanosAre16Digits();
    HexIsShort(nanos, 16);
    HexWritesTheNumber(nanos);
    LeadingZerosAddNothing(16 - |Hex(nanos)|, Hex(nanos));
    assert |Hex(nanos)| == 16 ==> Padded(Hex(nanos), 16) == Hex(nanos);
  }

  // Two names are the same only for the same Supervisor, moment and counter, as long as the clock fits.
  lemma NamesAreFresh(supervisor: string, nanos: nat, next: nat, supervisor': string, nanos': nat, next': nat)
    requires InstanceName(supervisor) && InstanceName(supervisor') && nanos < NANOS && nanos' < NANOS
    ensures TombstoneName(supervisor, nanos, next) == TombstoneName(supervisor', nanos', next')
       <==> supervisor == supervisor' && nanos == nanos' && next == next'
  {
    if TombstoneName(supervisor, nanos, next) == TombstoneName(supervisor', nanos', next') {
      WrittenTombstoneReadsBack(supervisor, nanos, next);
      WrittenTombstoneReadsBack(supervisor', nanos', next');
      var p, q, x, y := Padded(Hex(nanos), 16), Padded(Hex(nanos'), 16), Hex(next), Hex(next');
      SameNonce(supervisor, p + x, q + y);
      PaddedNanos(nanos);
      PaddedNanos(nanos');
      assert p == (p + x)[..16] && q == (q + y)[..16] && x == (p + x)[16..] && y == (q + y)[16..];
      HexWritesTheNumber(next);
      HexWritesTheNumber(next');
    }
  }

  lemma SameNonce(supervisor: string, nonce: string, nonce': string)
    requires Form(supervisor, nonce) == Form(supervisor, nonce')
    ensures nonce == nonce'
  {
    var front := TOMBSTONE + supervisor + "-";
    assert Form(supervisor, nonce) == front + nonce && Form(supervisor, nonce') == front + nonce';
    assert (front + nonce)[|front|..] == nonce && (front + nonce')[|front|..] == nonce';
  }

  lemma {:induction false} HexIsLong(n: nat, k: nat)
    requires n >= Pow16(k)
    ensures |Hex(n)| > k
  {
    if k > 0 {
      Pow16Positive(k - 1);
      assert n >= 16 && n / 16 >= Pow16(k - 1);
      HexIsLong(n / 16, k - 1);
    }
  }

  lemma {:induction false} Pow16Positive(k: nat)
    ensures Pow16(k) >= 1
  {
    if k > 0 {
      Pow16Positive(k - 1);
    }
  }

  lemma HexOfOneMore(n: nat, d: nat)
    requires n > 0 && d < 16
    ensures Hex(16 * n + d) == Hex(n) + [HexChar(d)]
  {
    assert (16 * n + d) / 16 == n && (16 * n + d) % 16 == d;
  }

  // A later clock has a digit more, which may be taken for one of the counter.
  lemma LaterNamesRepeat(supervisor: string, nanos: nat, d: nat, next: nat)
    requires nanos >= 0x1000_0000_0000_0000 && 0 < d < 16 && next < 16
    ensures TombstoneName(supervisor, 16 * nanos + d, next) == TombstoneName(supervisor, nanos, 16 * d + next)
  {
    assert Pow16(15) == 0x1000_0000_0000_0000 by {
      NanosAre16Digits();
    }
    HexIsLong(nanos, 15);
    HexOfOneMore(nanos, d);
    HexOfOneMore(d, next);
    assert Hex(nanos) + [HexChar(d)] + Hex(next) == Hex(nanos) + Hex(16 * d + next);
  }

  lemma {:induction false} NoLeadingZero(n: nat)
    requires n > 0
    ensures Hex(n)[0] != '0'
  {
    if n >= 16 {
      NoLeadingZero(n / 16);
      assert Hex(n)[0] == Hex(n / 16)[0];
    }
  }

  // The first clock of 17 digits ends in a zero, with which no counter begins.
  lemma FirstLaterNameIsFresh(supervisor: string, next: nat, nanos': nat, next': nat)
    requires nanos' < NANOS
    ensures TombstoneName(supervisor, NANOS, next) != TombstoneName(supervisor, nanos', next')
  {
    var p, x, y := Padded(Hex(nanos'), 16), Hex(next), Hex(next');
    PaddedNanos(nanos');
    LaterIsUnpadded(NANOS / 16, 0);
    if TombstoneName(supervisor, NANOS, next) == TombstoneName(supervisor, nanos', next') {
      SameNonce(supervisor, Hex(NANOS / 16) + "0" + x, p + y);
      SameTail(Hex(NANOS / 16), "0", x, p, y);
      NoLeadingZero(next');
    }
  }

  lemma SameTail(p: string, zero: string, x: string, q: string, y: string)
    requires |p| == |q| && p + zero + x == q + y
    ensures y == zero + x
  {
    assert (q + y)[|q|..] == y && (p + zero + x)[|p|..] == zero + x;
  }

  lemma LaterIsUnpadded(nanos: nat, d: nat)
    requires 0x1000_0000_0000_0000 <= nanos < NANOS && d < 16
    ensures |Hex(nanos)| == 16 && Padded(Hex(16 * nanos + d), 16) == Hex(nanos) + [HexChar(d)]
  {
    NanosAre16Digits();
    HexIsShort(nanos, 16);
    HexIsLong(nanos, 15);
    HexOfOneMore(nanos, d);
  }

  ghost predicate Fresh(supervisor: string, bound: nat) {
    forall nanos: nat, next: nat, nanos': nat, next': nat |
      && nanos < bound && nanos' < bound
      && TombstoneName(supervisor, nanos, next) == TombstoneName(supervisor, nanos', next') ::
        nanos == nanos' && next == next'
  }

  // The names of a Supervisor are fresh below a bound on the clock exactly when that is at most one above 64 bits.
  lemma NamesAreFreshExactlyWhen(supervisor: string, bound: nat)
    requires InstanceName(supervisor)
    ensures Fresh(supervisor, bound) <==> bound <= NANOS + 1
  {
    if bound > NANOS + 1 {
      LaterNamesRepeat(supervisor, NANOS / 16, 1, 0);
      assert 16 * (NANOS / 16) + 1 == NANOS + 1;
    } else {
      forall nanos: nat, next: nat, nanos': nat, next': nat |
        && nanos < bound && nanos' < bound
        && TombstoneName(supervisor, nanos, next) == TombstoneName(supervisor, nanos', next')
        ensures nanos == nanos' && next == next'
      {
        FreshPair(supervisor, nanos, next, nanos', next');
      }
    }
  }

  lemma FreshPair(supervisor: string, nanos: nat, next: nat, nanos': nat, next': nat)
    requires InstanceName(supervisor) && nanos <= NANOS && nanos' <= NANOS
    requires TombstoneName(supervisor, nanos, next) == TombstoneName(supervisor, nanos', next')
    ensures nanos == nanos' && next == next'
  {
    if nanos < NANOS && nanos' < NANOS {
      NamesAreFresh(supervisor, nanos, next, supervisor, nanos', next');
    } else if nanos' < NANOS {
      FirstLaterNameIsFresh(supervisor, next, nanos', next');
    } else if nanos < NANOS {
      FirstLaterNameIsFresh(supervisor, next', nanos, next);
    } else {
      var p := Padded(Hex(NANOS), 16);
      SameNonce(supervisor, p + Hex(next), p + Hex(next'));
      assert (p + Hex(next))[|p|..] == Hex(next) && (p + Hex(next'))[|p|..] == Hex(next');
      HexWritesTheNumber(next);
      HexWritesTheNumber(next');
    }
  }
}
