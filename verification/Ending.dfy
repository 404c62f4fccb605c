/**
 The standing of a certificate (`ending.rs`) and the time of its renewal (`csr.rs`): two rules over
 the same dates, and when they agree.
 */
module Ending {
  const DAY: int := 86_400
  const WARN_DAYS: int := 30

  datatype Standing = Fine | Ending | Ended

  // Division toward zero, as the machine does it.
  function Truncated(a: int, b: int): int
    requires b > 0
  {
    if a >= 0 then a / b else -((-a) / b)
  }

  function StandingAt(notBefore: int, notAfter: int, now: int): Standing {
    var third := Truncated(notAfter - notBefore, 3);
    var warning := if WARN_DAYS * DAY < third then WARN_DAYS * DAY else third;
    if notAfter <= now then Ended else if notAfter - now <= warning then Ending else Fine
  }

  // Two thirds through its validity, in exact arithmetic; at once when there is no validity.
  predicate RenewalDue(notBefore: int, notAfter: int, now: int) {
    notAfter <= notBefore || 3 * (now - notBefore) >= 2 * (notAfter - notBefore)
  }

  function Rank(s: Standing): nat {
    match s
    case Fine => 0
    case Ending => 1
    case Ended => 2
  }

  // It has ended from its last second on, and is ending for the last thirty days before that, or for the last
  // third of its life where that is shorter.
  lemma StandingExactlyWhen(notBefore: int, notAfter: int, now: int)
    ensures StandingAt(notBefore, notAfter, now) == Ended <==> now >= notAfter
    ensures StandingAt(notBefore, notAfter, now) == Ending
       <==> 0 < notAfter - now <= 30 * 86_400 && 3 * (notAfter - now) <= notAfter - notBefore
  {
  }

  // A certificate is announced as ending only once its renewal is already due; and time only moves
  // a standing on.
  lemma EndingMeansDue(notBefore: int, notAfter: int, now: int, later: int)
    requires now <= later
    ensures StandingAt(notBefore, notAfter, now) != Fine ==> RenewalDue(notBefore, notAfter, now)
    ensures Rank(StandingAt(notBefore, notAfter, now)) <= Rank(StandingAt(notBefore, notAfter, later))
  {
  }

  // The longest life for which the last third is all the warning there is.
  const LONGEST: int := 3 * WARN_DAYS * DAY + 2

  predicate Coincide(notBefore: int, notAfter: int, now: int) {
    StandingAt(notBefore, notAfter, now) != Fine <==> RenewalDue(notBefore, notAfter, now)
  }

  // The two rules agree at every moment exactly for lives above zero and up to 90 days (and the
  // two seconds that a third rounds away).
  lemma CoincideExactlyWhen(notBefore: int, notAfter: int)
    ensures (forall now :: Coincide(notBefore, notAfter, now)) <==> 0 < notAfter - notBefore <= LONGEST
  {
    var life := notAfter - notBefore;
    if life <= 0 {
      assert !Coincide(notBefore, notAfter, notAfter - 1);
    } else if life > LONGEST {
      // The moment a third of the life is left, which is more than the warning reaches.
      var moment := notAfter - life / 3;
      assert StandingAt(notBefore, notAfter, moment) == Fine;
      assert !Coincide(notBefore, notAfter, moment);
    } else {
      forall now
        ensures Coincide(notBefore, notAfter, now)
      {
        assert Truncated(life, 3) == life / 3 <= WARN_DAYS * DAY;
      }
    }
  }

  // The exit code is the worst standing's: reached by one, exceeded by none, zero when there is none.
  method ExitCode(standings: seq<Standing>) returns (code: nat)
    ensures forall i | 0 <= i < |standings| :: Rank(standings[i]) <= code
    ensures code == 0 || exists i :: 0 <= i < |standings| && Rank(standings[i]) == code
    ensures code == 2 <==> Ended in standings
    ensures code == 1 <==> Ending in standings && Ended !in standings
  {
    code := 0;
    var i := 0;
    while i < |standings|
      invariant 0 <= i <= |standings|
      invariant forall j | 0 <= j < i :: Rank(standings[j]) <= code
      invariant code == 0 || exists j :: 0 <= j < i && Rank(standings[j]) == code
    {
      if Rank(standings[i]) > code {
        code := Rank(standings[i]);
      }
      i := i + 1;
    }
  }
}
