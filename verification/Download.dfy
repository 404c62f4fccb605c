/**
 Downloading a package (`packages.rs`): redirects walked by hand and held to the Server's own origin,
 waits bounded by one deadline, a stream capped as it is written, and verification before use.
 */
module Download {
  import opened Outcomes
  import opened Text

  // ---- Origins --------------------------------------------------------------------------------

  datatype Url = Url(scheme: string, host: string, port: Option<nat>, path: string)

  function PortOrDefault(url: Url): Option<nat> {
    if url.port.Some? then url.port
    else if url.scheme == "https" || url.scheme == "wss" then Some(443)
    else if url.scheme == "http" || url.scheme == "ws" then Some(80)
    else None
  }

  predicate SameOrigin(a: Url, b: Url) {
    a.scheme == b.scheme && a.host == b.host && PortOrDefault(a) == PortOrDefault(b)
  }

  // TLS anywhere; plaintext only to a loopback literal; nothing else.
  predicate TransportAllowed(url: Url) {
    || url.scheme == "https" || url.scheme == "wss"
    || ((url.scheme == "http" || url.scheme == "ws") && (url.host == "127.0.0.1" || url.host == "::1"))
  }

  predicate Permitted(server: Url, url: Url) {
    TransportAllowed(url) && SameOrigin(server, url)
  }

  function PermittedBy(server: Url): Url -> bool {
    url => Permitted(server, url)
  }

  // Where a URL without a port is reached, by its scheme.
  predicate WellKnown(scheme: string, port: nat) {
    || (port == 443 && (scheme == "https" || scheme == "wss"))
    || (port == 80 && (scheme == "http" || scheme == "ws"))
  }

  predicate ReachedAt(url: Url, port: nat) {
    url.port == Some(port) || (url.port.None? && WellKnown(url.scheme, port))
  }

  // The Server's own scheme, host and port, and no plaintext but to this host itself.
  ghost predicate FromServer(server: Url, url: Url) {
    && url.scheme == server.scheme && url.host == server.host
    && (forall port: nat :: ReachedAt(url, port) <==> ReachedAt(server, port))
    && (|| url.scheme == "https" || url.scheme == "wss"
        || ((url.scheme == "http" || url.scheme == "ws") && (url.host == "127.0.0.1" || url.host == "::1")))
  }

  lemma ReachedAtOnePort(url: Url, port: nat)
    ensures ReachedAt(url, port) <==> PortOrDefault(url) == Some(port)
  {
  }

  // A URL is permitted exactly when it is the Server's.
  lemma PermittedExactlyWhen(server: Url, url: Url)
    ensures Permitted(server, url) <==> FromServer(server, url)
  {
    forall port: nat
      ensures ReachedAt(url, port) <==> PortOrDefault(url) == Some(port)
      ensures ReachedAt(server, port) <==> PortOrDefault(server) == Some(port)
    {
      ReachedAtOnePort(url, port);
      ReachedAtOnePort(server, port);
    }
    if FromServer(server, url) {
      assert PortOrDefault(url).Some?;
      assert ReachedAt(url, PortOrDefault(url).value);
    }
  }

  // ---- Redirects ------------------------------------------------------------------------------

  // What a GET comes back with: no answer, or a status with the headers that matter and a body.
  datatype Answer =
    | Unreachable
    | Answered(status: nat, location: Option<string>, retryAfter: Option<nat>, advertised: Option<nat>,
               chunks: seq<Bytes>, broken: bool)

  // The n-th GET's answer, and how long it took.
  type Answers = nat -> Answer
  type Durations = nat -> nat
  type Joining = (Url, string) -> Option<Url>

  function RedirectTarget(answer: Answer): Option<string> {
    if answer.Answered? && 300 <= answer.status < 400 then answer.location else None
  }

  const MAX_REDIRECTS := 5

  datatype Refusal = NotPermitted | NoAnswer | UnusableLocation | TooManyRedirects | TooLong

  // The GETs of one download from `current` on, with `hops` left, and what they come to.
  function Follow(answers: Answers, join: Joining, permitted: Url -> bool, current: Url, n: nat, hops: nat)
    : (seq<Url>, Result<Answer, Refusal>)
    decreases hops
  {
    if hops == 0 then ([], Err(TooManyRedirects))
    else if !permitted(current) then ([], Err(NotPermitted))
    else if answers(n).Unreachable? then ([current], Err(NoAnswer))
    else
      var target := RedirectTarget(answers(n));
      if target.None? then ([current], Ok(answers(n)))
      else
        var next := join(current, target.value);
        if next.None? then ([current], Err(UnusableLocation))
        else
          var (rest, outcome) := Follow(answers, join, permitted, next.value, n + 1, hops - 1);
          ([current] + rest, outcome)
  }

  // Whether an answer moves the download, and where to.
  predicate Moves(answer: Answer) {
    answer.Answered? && 300 <= answer.status < 400 && answer.location.Some?
  }

  function MovedTo(join: Joining, from: Url, answer: Answer): Option<Url>
    requires Moves(answer)
  {
    join(from, answer.location.value)
  }

  // The answer to the k-th of these GETs moved the download to the next one.
  predicate MovedOn(answers: Answers, join: Joining, gets: seq<Url>, n: nat, k: nat)
    requires k + 1 < |gets|
  {
    Moves(answers(n + k)) && MovedTo(join, gets[k], answers(n + k)) == Some(gets[k + 1])
  }

  // Where the download would go next: the URL it was asked for, or where the last answer moves it.
  function NextUrl(answers: Answers, join: Joining, url: Url, n: nat, gets: seq<Url>): Option<Url> {
    if gets == [] then Some(url)
    else
      var last := |gets| - 1;
      if Moves(answers(n + last)) then MovedTo(join, gets[last], answers(n + last)) else None
  }

  // A walk from `url` of at most `hops` permitted GETs, each where the one before moved it, and what it
  // comes to: the last answer when that moves it no further, or why there is none.
  ghost predicate Walked(
    answers: Answers, join: Joining, permitted: Url -> bool, url: Url, n: nat, hops: nat,
    gets: seq<Url>, outcome: Result<Answer, Refusal>)
  {
    && |gets| <= hops && (gets != [] ==> gets[0] == url)
    && (forall k | 0 <= k < |gets| :: permitted(gets[k]))
    && (forall k | 0 <= k < |gets| - 1 :: MovedOn(answers, join, gets, n, k))
    && var next := NextUrl(answers, join, url, n, gets);
       match outcome
       case Ok(answer) => gets != [] && answer == answers(n + |gets| - 1) && answer.Answered? && !Moves(answer)
       case Err(NotPermitted) => |gets| < hops && next.Some? && !permitted(next.value)
       case Err(NoAnswer) => gets != [] && answers(n + |gets| - 1).Unreachable?
       case Err(UnusableLocation) => gets != [] && Moves(answers(n + |gets| - 1)) && next.None?
       case Err(TooManyRedirects) => |gets| == hops && next.Some?
       case Err(TooLong) => false
  }

  lemma WalkedFurther(
    answers: Answers, join: Joining, permitted: Url -> bool, url: Url, n: nat, hops: nat, next: Url,
    rest: seq<Url>, outcome: Result<Answer, Refusal>)
    requires hops > 0 && permitted(url) && Moves(answers(n)) && MovedTo(join, url, answers(n)) == Some(next)
    requires Walked(answers, join, permitted, next, n + 1, hops - 1, rest, outcome)
    ensures Walked(answers, join, permitted, url, n, hops, [url] + rest, outcome)
  {
    var gets := [url] + rest;
    forall k | 0 <= k < |gets| - 1
      ensures MovedOn(answers, join, gets, n, k)
    {
      if k > 0 {
        assert MovedOn(answers, join, rest, n + 1, k - 1);
      }
    }
    assert NextUrl(answers, join, url, n, gets) == NextUrl(answers, join, next, n + 1, rest);
  }

  lemma {:induction false} FollowWalks(
    answers: Answers, join: Joining, permitted: Url -> bool, current: Url, n: nat, hops: nat)
    ensures var (gets, outcome) := Follow(answers, join, permitted, current, n, hops);
            Walked(answers, join, permitted, current, n, hops, gets, outcome)
    decreases hops
  {
    if hops > 0 && permitted(current) && answers(n).Answered? {
      var target := RedirectTarget(answers(n));
      if target.Some? && join(current, target.value).Some? {
        var next := join(current, target.value).value;
        FollowWalks(answers, join, permitted, next, n + 1, hops - 1);
        var (rest, outcome) := Follow(answers, join, permitted, next, n + 1, hops - 1);
        WalkedFurther(answers, join, permitted, current, n, hops, next, rest, outcome);
      }
    }
  }

  // The network as this Client meets it: answers it does not choose, a clock that only moves on.
  class Network {
    const answers: Answers
    const took: Durations
    var gets: seq<Url>
    var now: nat

    constructor (answers: Answers, took: Durations, now: nat)
      ensures this.answers == answers && this.took == took && gets == [] && this.now == now
    {
      this.answers, this.took, this.now, gets := answers, took, now, [];
    }

    method Get(url: Url) returns (answer: Answer)
      modifies this
      ensures gets == old(gets) + [url] && answer == answers(|old(gets)|)
      ensures now == old(now) + took(|old(gets)|)
    {
      answer := answers(|gets|);
      now := now + took(|gets|);
      gets := gets + [url];
    }
  }

  // One request, permitted before it is made: where to go next, or what the download comes to.
  method MakeHop(net: Network, permitted: Url -> bool, current: Url, join: Joining, ghost hops: nat)
    returns (next: Option<Url>, r: Result<Answer, Refusal>)
    requires hops > 0
    modifies net
    ensures net.now >= old(net.now)
    ensures next.None? ==> var (gets, outcome) := Follow(net.answers, join, permitted, current, |old(net.gets)|, hops);
                           net.gets == old(net.gets) + gets && r == outcome
    ensures next.Some? ==> && net.gets == old(net.gets) + [current]
                           && var whole := Follow(net.answers, join, permitted, current, |old(net.gets)|, hops);
                              var rest := Follow(net.answers, join, permitted, next.value, |net.gets|, hops - 1);
                              whole.0 == [current] + rest.0 && whole.1 == rest.1
  {
    if !permitted(current) {
      return None, Err(NotPermitted);
    }
    var answer := net.Get(current);
    if answer.Unreachable? {
      return None, Err(NoAnswer);
    }
    var target := RedirectTarget(answer);
    if target.None? {
      return None, Ok(answer);
    }
    next := join(current, target.value);
    r := Err(UnusableLocation);
  }

  // Walks at most `hops` requests.
  method WalkRedirects(net: Network, permitted: Url -> bool, url: Url, join: Joining, hops: nat)
    returns (r: Result<Answer, Refusal>)
    modifies net
    ensures var (gets, outcome) := Follow(net.answers, join, permitted, url, |old(net.gets)|, hops);
            net.gets == old(net.gets) + gets && r == outcome
    ensures net.now >= old(net.now)
  {
    r := Err(TooManyRedirects);
    var next, left := Some(url), hops;
    ghost var whole := Follow(net.answers, join, permitted, url, |net.gets|, left);
    ghost var rest := whole.0;
    while next.Some? && left > 0
      invariant 0 <= left <= hops && net.now >= old(net.now)
      invariant old(net.gets) + whole.0 == net.gets + rest
      invariant next.None? ==> rest == [] && r == whole.1
      invariant next.Some? ==> && r == Err(TooManyRedirects)
                               && Follow(net.answers, join, permitted, next.value, |net.gets|, left).0 == rest
                               && Follow(net.answers, join, permitted, next.value, |net.gets|, left).1 == whole.1
    {
      ghost var current, made := next.value, net.gets;
      next, r := MakeHop(net, permitted, next.value, join, left);
      left := left - 1;
      if next.Some? {
        r := Err(TooManyRedirects);
        rest := Follow(net.answers, join, permitted, next.value, |net.gets|, left).0;
        assert made + ([current] + rest) == (made + [current]) + rest;
      } else {
        rest := [];
      }
    }
  }

  ghost function ServerOnly(server: Url): Url -> bool {
    url => FromServer(server, url)
  }

  // One download's GETs after those already made: a walk of at most six at the Server's own origin.
  ghost predicate Sent(
    answers: Answers, join: Joining, server: Url, url: Url, was: seq<Url>, gets: seq<Url>,
    outcome: Result<Answer, Refusal>)
  {
    was <= gets && Walked(answers, join, ServerOnly(server), url, |was|, 6, gets[|was|..], outcome)
  }

  method SendDownload(net: Network, server: Url, url: Url, join: Joining) returns (r: Result<Answer, Refusal>)
    modifies net
    ensures Sent(net.answers, join, server, url, old(net.gets), net.gets, r)
    ensures net.now >= old(net.now)
  {
    ghost var was := net.gets;
    var hops, permitted := MAX_REDIRECTS + 1, PermittedBy(server);
    r := WalkRedirects(net, permitted, url, join, hops);
    FollowWalks(net.answers, join, permitted, url, |was|, hops);
    assert net.gets[|was|..] == Follow(net.answers, join, permitted, url, |was|, hops).0;
    WalkedAlike(net.answers, join, server, url, |was|, hops, net.gets[|was|..], r);
  }

  lemma WalkedAlike(
    answers: Answers, join: Joining, server: Url, url: Url, n: nat, hops: nat, gets: seq<Url>,
    outcome: Result<Answer, Refusal>)
    requires Walked(answers, join, PermittedBy(server), url, n, hops, gets, outcome)
    ensures Walked(answers, join, ServerOnly(server), url, n, hops, gets, outcome)
  {
    forall u
      ensures PermittedBy(server)(u) <==> ServerOnly(server)(u)
    {
      PermittedExactlyWhen(server, u);
    }
  }

  // ---- Waiting --------------------------------------------------------------------------------

  const SECOND: nat := 1_000_000_000

  datatype Patience = Patience(perWait: nat, total: nat)

  predicate AsksToWait(answer: Answer) {
    answer.Answered? && (answer.status == 429 || answer.status == 503) && answer.retryAfter.Some?
  }

  // The seconds asked for, raised to one and then cut to `perWait`.
  function WaitFor(answer: Answer, perWait: nat): nat
    requires AsksToWait(answer)
  {
    var after := answer.retryAfter.value * SECOND;
    var atLeast := if after < SECOND then SECOND else after;
    if atLeast < perWait then atLeast else perWait
  }

  // The wait before the next try, none for an answer to return, or the refusal when there is no time
  // left for it.
  function Asked(deadline: nat, perWait: nat, now: nat, answer: Answer): Result<Option<nat>, Refusal> {
    if !AsksToWait(answer) then Ok(None)
    else if now + WaitFor(answer, perWait) > deadline then Err(TooLong)
    else Ok(Some(WaitFor(answer, perWait)))
  }

  // The shortest wait there is.
  function LeastWait(perWait: nat): nat {
    if perWait < SECOND then perWait else SECOND
  }

  // The wait is what was asked for, but at least a second, and never more than `perWait`.
  lemma WaitIsWhatWasAsked(answer: Answer, perWait: nat)
    requires AsksToWait(answer)
    ensures var asked, wait := answer.retryAfter.value * 1_000_000_000, WaitFor(answer, perWait);
            && wait <= perWait
            && (1_000_000_000 <= asked <= perWait ==> wait == asked)
            && (asked < 1_000_000_000 <= perWait ==> wait == 1_000_000_000)
            && (asked > perWait || perWait < 1_000_000_000 ==> wait == perWait)
  {
  }

  lemma WaitsAreLongEnough(answer: Answer, perWait: nat)
    requires AsksToWait(answer)
    ensures LeastWait(perWait) <= WaitFor(answer, perWait) <= perWait
  {
  }

  // When a wait was asked for, and by which answer.
  type Wait = (nat, Answer)

  predicate Begun(patience: Patience, start: nat, wait: Wait) {
    && start <= wait.0
    && Asked(start + patience.total, patience.perWait, wait.0, wait.1).Ok?
    && Asked(start + patience.total, patience.perWait, wait.0, wait.1).value.Some?
  }

  function EndOf(patience: Patience, wait: Wait): nat
    requires AsksToWait(wait.1)
  {
    wait.0 + WaitFor(wait.1, patience.perWait)
  }

  // Waits begun one after another: the next is asked for no earlier than the one before it ends.
  ghost predicate Waits(patience: Patience, start: nat, waits: seq<Wait>) {
    && (forall k | 0 <= k < |waits| :: Begun(patience, start, waits[k]))
    && forall k | 0 <= k < |waits| - 1 :: EndOf(patience, waits[k]) <= waits[k + 1].0
  }

  // How long all of them together take.
  function TotalWait(patience: Patience, waits: seq<Wait>): nat
    requires forall k | 0 <= k < |waits| :: AsksToWait(waits[k].1)
  {
    if waits == [] then 0
    else TotalWait(patience, waits[..|waits| - 1]) + WaitFor(waits[|waits| - 1].1, patience.perWait)
  }

  lemma {:induction false} WaitsTakeTime(patience: Patience, start: nat, waits: seq<Wait>)
    requires Waits(patience, start, waits) && waits != []
    ensures start + TotalWait(patience, waits) <= EndOf(patience, waits[|waits| - 1]) <= start + patience.total
    decreases |waits|
  {
    var n := |waits| - 1;
    assert Begun(patience, start, waits[n]);
    if n > 0 {
      var most := waits[..n];
      assert most[n - 1] == waits[n - 1];
      WaitsTakeTime(patience, start, most);
      assert EndOf(patience, waits[n - 1]) <= waits[n].0;
    }
  }

  lemma {:induction false} EachWaitCounts(patience: Patience, waits: seq<Wait>)
    requires forall k | 0 <= k < |waits| :: AsksToWait(waits[k].1)
    ensures |waits| * LeastWait(patience.perWait) <= TotalWait(patience, waits)
    decreases |waits|
  {
    if waits != [] {
      var n, least := |waits| - 1, LeastWait(patience.perWait);
      EachWaitCounts(patience, waits[..n]);
      WaitsAreLongEnough(waits[n].1, patience.perWait);
      assert |waits| * least == n * least + least;
    }
  }

  lemma QuotientBounds(k: nat, m: nat, total: nat)
    requires m > 0 && k * m <= total
    ensures k <= total / m
  {
    assert (total / m) * m <= total < (total / m + 1) * m;
  }

  // For every sequence of answers and every clock, the waits together take no longer than the
  // patience allows, the last of them included, and with a positive `perWait` their number is bounded.
  lemma WaitsAreBounded(patience: Patience, start: nat, waits: seq<Wait>)
    requires Waits(patience, start, waits)
    ensures TotalWait(patience, waits) <= patience.total
    ensures forall k | 0 <= k < |waits| :: EndOf(patience, waits[k]) <= start + patience.total
    ensures patience.perWait > 0 ==> |waits| <= patience.total / LeastWait(patience.perWait)
  {
    if waits != [] {
      WaitsTakeTime(patience, start, waits);
    }
    EachWaitCounts(patience, waits);
    forall k | 0 <= k < |waits|
      ensures EndOf(patience, waits[k]) <= start + patience.total
    {
      assert Begun(patience, start, waits[k]);
    }
    if patience.perWait > 0 {
      QuotientBounds(|waits|, LeastWait(patience.perWait), patience.total);
    }
  }

  // With `perWait` zero there is no bound: a busy Server may be asked any number of times before
  // the clock moves.
  lemma NoBoundAtZero(total: nat, start: nat, n: nat) returns (waits: seq<Wait>)
    ensures |waits| == n && Waits(Patience(0, total), start, waits)
  {
    var busy := Answered(503, None, Some(0), None, [], false);
    waits := seq(n, _ => (start, busy));
  }

  lemma OneMoreWait(patience: Patience, start: nat, waits: seq<Wait>, wait: Wait)
    requires Waits(patience, start, waits) && Begun(patience, start, wait)
    requires waits != [] ==> EndOf(patience, waits[|waits| - 1]) <= wait.0
    ensures Waits(patience, start, waits + [wait])
  {
    var more := waits + [wait];
    forall k | 0 <= k < |more| - 1
      ensures EndOf(patience, more[k]) <= more[k + 1].0
    {
      assert more[k] == waits[k];
    }
  }

  ghost predicate GivenAmong(answers: Answers, lo: nat, hi: nat, answer: Answer) {
    exists n: nat :: lo <= n < hi && answers(n) == answer
  }

  // Each wait was asked for by one of the answers.
  ghost predicate AskedFor(answers: Answers, lo: nat, hi: nat, waits: seq<Wait>) {
    forall k | 0 <= k < |waits| :: GivenAmong(answers, lo, hi, waits[k].1)
  }

  lemma AskedForStill(answers: Answers, lo: nat, was: nat, hi: nat, waits: seq<Wait>)
    requires AskedFor(answers, lo, was, waits) && was <= hi
    ensures AskedFor(answers, lo, hi, waits)
  {
    forall k | 0 <= k < |waits|
      ensures GivenAmong(answers, lo, hi, waits[k].1)
    {
      assert GivenAmong(answers, lo, was, waits[k].1);
    }
  }

  lemma AskedForOneMore(answers: Answers, lo: nat, was: nat, hi: nat, waits: seq<Wait>, wait: Wait)
    requires AskedFor(answers, lo, was, waits) && lo <= was < hi && answers(hi - 1) == wait.1
    ensures AskedFor(answers, lo, hi, waits + [wait])
  {
    AskedForStill(answers, lo, was, hi, waits);
    assert GivenAmong(answers, lo, hi, wait.1);
  }

  // Some more requests were made, at most `most` of them and all to the Server.
  ghost predicate WentOn(server: Url, was: seq<Url>, gets: seq<Url>, most: nat) {
    && was <= gets && |gets| - |was| <= most
    && forall k | |was| <= k < |gets| :: FromServer(server, gets[k])
  }

  lemma WentFurther(server: Url, was: seq<Url>, mid: seq<Url>, gets: seq<Url>, m: nat, n: nat)
    requires WentOn(server, was, mid, m) && WentOn(server, mid, gets, n)
    ensures WentOn(server, was, gets, m + n)
  {
    assert forall k | 0 <= k < |mid| :: gets[k] == mid[k];
  }

  lemma SentWentOn(
    answers: Answers, join: Joining, server: Url, url: Url, was: seq<Url>, gets: seq<Url>,
    outcome: Result<Answer, Refusal>)
    requires Sent(answers, join, server, url, was, gets, outcome)
    ensures WentOn(server, was, gets, 6)
    ensures outcome.Ok? ==> |gets| > |was| && outcome.value == answers(|gets| - 1) && outcome.value.Answered?
  {
    var made := gets[|was|..];
    forall k | |was| <= k < |gets|
      ensures FromServer(server, gets[k])
    {
      assert made[k - |was|] == gets[k] && ServerOnly(server)(made[k - |was|]);
    }
  }

  // What one try comes to: the outcome of its requests, unless the answer is busy and names a time. Then
  // there is a wait, or the end when the wait would not be over by the deadline.
  predicate Decides(
    deadline: nat, perWait: nat, now: nat, sent: Result<Answer, Refusal>, r: Result<Answer, Refusal>, wait: Option<nat>)
  {
    if sent.Err? || !sent.value.Answered? || sent.value.status !in {429, 503} || sent.value.retryAfter.None? then
      r == sent && wait.None?
    else if now + WaitFor(sent.value, perWait) > deadline then
      r == Err(TooLong) && wait.None?
    else
      r == sent && wait == Some(WaitFor(sent.value, perWait))
  }

  // One try, and how long to wait before the next.
  method Try(net: Network, server: Url, url: Url, join: Joining, deadline: nat, perWait: nat)
    returns (r: Result<Answer, Refusal>, wait: Option<nat>, ghost sent: Result<Answer, Refusal>)
    modifies net
    ensures Sent(net.answers, join, server, url, old(net.gets), net.gets, sent) && net.now >= old(net.now)
    ensures Decides(deadline, perWait, net.now, sent, r, wait)
  {
    wait := None;
    r := SendDownload(net, server, url, join);
    sent := r;
    if r.Ok? {
      var asked := Asked(deadline, perWait, net.now, r.value);
      if asked.Err? {
        return Err(asked.error), None, sent;
      }
      wait := asked.value;
    }
  }

  // From this request on no answer asks for a wait.
  ghost predicate Settles(answers: Answers, settled: nat) {
    forall n: nat | n >= settled :: !AsksToWait(answers(n))
  }

  // The waits of a download that began at `start` after `before` requests, when `made` are made and it
  // is `now`.
  ghost predicate Patient(
    patience: Patience, start: nat, answers: Answers, before: nat, made: nat, now: nat, waits: seq<Wait>)
  {
    && before <= made && start <= now && Waits(patience, start, waits)
    && (waits != [] ==> EndOf(patience, waits[|waits| - 1]) <= now)
    && AskedFor(answers, before, made, waits) && |waits| <= made - before
  }

  lemma PatientStill(
    patience: Patience, start: nat, answers: Answers, before: nat, made: nat, now: nat, waits: seq<Wait>,
    more: nat, later: nat)
    requires Patient(patience, start, answers, before, made, now, waits) && made <= more && now <= later
    ensures Patient(patience, start, answers, before, more, later, waits)
  {
    AskedForStill(answers, before, made, more, waits);
  }

  // One wait more, asked for by the last answer and sat out.
  lemma PatientOneMore(
    patience: Patience, start: nat, answers: Answers, before: nat, made: nat, now: nat, waits: seq<Wait>,
    more: nat, wait: Wait, later: nat)
    requires Patient(patience, start, answers, before, made, now, waits)
    requires made < more && now <= wait.0 && answers(more - 1) == wait.1
    requires Begun(patience, start, wait) && EndOf(patience, wait) <= later
    ensures Patient(patience, start, answers, before, more, later, waits + [wait])
  {
    AskedForOneMore(answers, before, made, more, waits, wait);
    OneMoreWait(patience, start, waits, wait);
  }

  // The waits of a patient download, bounded by its patience.
  ghost predicate Bounded(patience: Patience, start: nat, waits: seq<Wait>) {
    && Waits(patience, start, waits) && TotalWait(patience, waits) <= patience.total
    && (forall k | 0 <= k < |waits| :: EndOf(patience, waits[k]) <= start + patience.total)
    && (patience.perWait > 0 ==> |waits| <= patience.total / LeastWait(patience.perWait))
  }

  // What a patient download comes to: after the requests `mid`, one last try and what it decides.
  ghost predicate Ends(
    patience: Patience, start: nat, answers: Answers, join: Joining, server: Url, url: Url,
    mid: seq<Url>, gets: seq<Url>, now: nat, sent: Result<Answer, Refusal>, r: Result<Answer, Refusal>)
  {
    && Sent(answers, join, server, url, mid, gets, sent)
    && Decides(start + patience.total, patience.perWait, now, sent, r, None)
  }

  // One try, and the wait after it unless it was the last.
  method TryAndWait(
    net: Network, server: Url, url: Url, join: Joining, patience: Patience, deadline: nat, ghost start: nat,
    ghost was: seq<Url>, ghost waits: seq<Wait>, ghost settled: nat)
    returns (done: bool, r: Result<Answer, Refusal>, ghost more: seq<Wait>, ghost sent: Result<Answer, Refusal>)
    requires patience.perWait > 0 || Settles(net.answers, settled)
    requires deadline == start + patience.total && WentOn(server, was, net.gets, 6 * |waits|)
    requires Patient(patience, start, net.answers, |was|, |net.gets|, net.now, waits)
    modifies net
    ensures Patient(patience, start, net.answers, |was|, |net.gets|, net.now, more)
    ensures WentOn(server, was, net.gets, 6 * (|waits| + 1))
    ensures done ==> more == waits
                     && Ends(patience, start, net.answers, join, server, url, old(net.gets), net.gets, net.now, sent, r)
    ensures !done ==> |more| == |waits| + 1 && |net.gets| > |old(net.gets)| && old(net.now) <= deadline
    ensures !done && patience.perWait > 0 ==> net.now > old(net.now)
    ensures !done && patience.perWait == 0 ==> |net.gets| <= settled
  {
    ghost var mid, now := net.gets, net.now;
    var wait;
    r, wait, sent := Try(net, server, url, join, deadline, patience.perWait);
    SentWentOn(net.answers, join, server, url, mid, net.gets, sent);
    WentFurther(server, was, mid, net.gets, 6 * |waits|, 6);
    done, more := wait.None?, waits;
    if done {
      PatientStill(patience, start, net.answers, |was|, |mid|, now, waits, |net.gets|, net.now);
    } else {
      WaitsAreLongEnough(r.value, patience.perWait);
      ghost var one := (net.now, r.value);
      // The sleep lasts at least what was asked.
      var late: nat :| late >= 0;
      net.now := net.now + wait.value + late;
      PatientOneMore(patience, start, net.answers, |was|, |mid|, now, waits, |net.gets|, one, net.now);
      more := waits + [one];
    }
  }

  // Tries until an answer asks for no wait, or there is no time left: `calls` tries with `waits`
  // between them, each asked for by an answer it was given. It ends for every positive limit on a
  // wait; without one it ends if the Server ever stops asking.
  method SendPatiently(net: Network, server: Url, url: Url, join: Joining, patience: Patience, ghost settled: nat)
    returns (r: Result<Answer, Refusal>, ghost calls: nat, ghost waits: seq<Wait>,
             ghost mid: seq<Url>, ghost sent: Result<Answer, Refusal>)
    requires patience.perWait > 0 || Settles(net.answers, settled)
    modifies net
    ensures Bounded(patience, old(net.now), waits)
    ensures Patient(patience, old(net.now), net.answers, |old(net.gets)|, |net.gets|, net.now, waits)
    ensures calls == |waits| + 1 && WentOn(server, old(net.gets), net.gets, 6 * calls) && old(net.gets) <= mid
    ensures patience.perWait == 0 && waits != [] ==> |old(net.gets)| + |waits| <= settled
    ensures Ends(patience, old(net.now), net.answers, join, server, url, mid, net.gets, net.now, sent, r)
  {
    var start := net.now;
    var deadline := start + patience.total;
    ghost var was := net.gets;
    calls, waits := 0, [];
    while true
      invariant Patient(patience, start, net.answers, |was|, |net.gets|, net.now, waits) && calls == |waits|
      invariant WentOn(server, was, net.gets, 6 * calls)
      invariant patience.perWait == 0 && waits != [] ==> |net.gets| <= settled
      decreases if patience.perWait == 0 then (if |net.gets| < settled then settled - |net.gets| else 0)
                else if net.now <= deadline then deadline - net.now + 1 else 0
    {
      WaitsAreBounded(patience, start, waits);
      mid, calls := net.gets, calls + 1;
      var done;
      done, r, waits, sent := TryAndWait(net, server, url, join, patience, deadline, start, was, waits, settled);
      if done {
        return;
      }
    }
  }

  // ---- The body -------------------------------------------------------------------------------

  function Joined(chunks: seq<Bytes>): Bytes {
    if chunks == [] then [] else Joined(chunks[..|chunks| - 1]) + chunks[|chunks| - 1]
  }

  lemma {:induction false} JoinedPrefix(chunks: seq<Bytes>, i: nat)
    requires i <= |chunks|
    ensures Joined(chunks[..i]) <= Joined(chunks)
    decreases |chunks|
  {
    if i < |chunks| {
      var most := chunks[..|chunks| - 1];
      JoinedPrefix(most, i);
      assert most[..i] == chunks[..i];
    } else {
      assert chunks[..i] == chunks;
    }
  }

  lemma JoinedOneMore(chunks: seq<Bytes>, i: nat)
    requires i < |chunks|
    ensures Joined(chunks[..i + 1]) == Joined(chunks[..i]) + chunks[i]
    ensures Joined(chunks[..i]) <= Joined(chunks) && Joined(chunks[..i]) + chunks[i] <= Joined(chunks)
  {
    assert chunks[..i + 1][..i] == chunks[..i];
    JoinedPrefix(chunks, i);
    JoinedPrefix(chunks, i + 1);
  }

  lemma PartOfNext(written: Bytes, chunk: Bytes, some: nat, all: Bytes)
    requires some <= |chunk| && written + chunk <= all
    ensures written + chunk[..some] <= all && |written + chunk[..some]| <= |written + chunk|
  {
    assert written + chunk[..some] <= written + chunk;
  }

  datatype StreamError = TooLarge | BrokenStream | CannotWrite

  // A body that comes whole, announces no more than the cap and is no larger.
  predicate Fits(answer: Answer, maxBytes: nat)
    requires answer.Answered?
  {
    && !answer.broken && |Joined(answer.chunks)| <= maxBytes
    && (answer.advertised.Some? ==> answer.advertised.value <= maxBytes)
  }

  datatype Staged = Staged(len: nat, contentHash: Bytes)

  // Streams a body to a file, hashing it on the way. `file` is what stands there afterwards: what
  // stood there `before` when the body says up front that it is too large.
  method WriteStream(answer: Answer, maxBytes: nat, hash: Bytes -> Bytes, before: Option<Bytes>, reliable: bool)
    returns (r: Result<Staged, StreamError>, file: Option<Bytes>)
    requires answer.Answered?
    ensures reliable ==> (r.Ok? <==> Fits(answer, maxBytes))
    ensures file == before || (file.Some? && |file.value| <= maxBytes && file.value <= Joined(answer.chunks))
    ensures r.Ok? ==> && file == Some(Joined(answer.chunks)) && |file.value| <= maxBytes && !answer.broken
                      && r.value == Staged(|file.value|, hash(file.value))
    ensures answer.advertised.Some? && answer.advertised.value > maxBytes ==> r == Err(TooLarge) && file == before
    ensures r == Err(TooLarge) ==> || |Joined(answer.chunks)| > maxBytes
                                   || (answer.advertised.Some? && answer.advertised.value > maxBytes)
  {
    var advertised := if answer.advertised.Some? then answer.advertised.value else 0;
    if advertised > maxBytes {
      return Err(TooLarge), before;
    }
    var fails := Fault(reliable);
    if fails {
      return Err(CannotWrite), before;
    }
    var written, hashed, len: nat, i := [], [], 0, 0;
    assert Joined(answer.chunks[..0]) == [];
    while i < |answer.chunks|
      invariant 0 <= i <= |answer.chunks|
      invariant written == hashed == Joined(answer.chunks[..i]) && len == |written| <= maxBytes
    {
      var chunk := answer.chunks[i];
      JoinedOneMore(answer.chunks, i);
      len := len + |chunk|;
      if len > maxBytes {
        return Err(TooLarge), Some(written);
      }
      hashed := hashed + chunk;
      fails := Fault(reliable);
      if fails {
        var some: nat :| some <= |chunk|;
        PartOfNext(written, chunk, some, Joined(answer.chunks));
        return Err(CannotWrite), Some(written + chunk[..some]);
      }
      written := written + chunk;
      i := i + 1;
    }
    assert answer.chunks[..i] == answer.chunks;
    if answer.broken {
      return Err(BrokenStream), Some(written);
    }
    fails := Fault(reliable);
    if fails {
      return Err(CannotWrite), Some(written);
    }
    r, file := Ok(Staged(len, hash(hashed))), Some(written);
  }

  // ---- The whole download ---------------------------------------------------------------------

  datatype Package = Package(name: string, version: string, contentHash: Bytes, signature: Bytes)

  // Whether a key verifies a signature over a package's name, version and content hash.
  type Signs = (Bytes, string, string, Bytes, Bytes) -> bool

  predicate SafeName(name: string) {
    1 <= |name| <= 64 && forall c | c in name :: SafeChar(c)
  }

  predicate SafeChar(c: char) {
    'a' <= c <= 'z' || 'A' <= c <= 'Z' || '0' <= c <= '9' || c == '.' || c == '_' || c == '+' || c == '-'
  }

  // A package's name is letters, digits and four signs, at most 64 of them; the file it is staged under then
  // stays in the staging directory.
  lemma StagedFileStaysInside(name: string)
    ensures SafeName(name)
       <==> 1 <= |name| <= 64 && forall c | c in name :: c in LOWER || c in UPPER || c in DIGITS || c in "._+-"
    ensures SafeName(name) ==> PlainName(name + ".staged") && '\\' !in name + ".staged"
  {
    forall c | c in name
      ensures SafeChar(c) <==> c in LOWER || c in UPPER || c in DIGITS || c in "._+-"
    {
      AlphabetsAreRanges(c);
    }
    if SafeName(name) {
      var file := name + ".staged";
      assert file[|name|..] == ".staged" && |file| > 2;
      forall c | c in file
        ensures c != '/' && c != '\\'
      {
        assert c in name || c in ".staged";
      }
    }
  }

  // What staging keeps at a package's path.
  class Staging {
    const reliable: bool  // no write fails
    var file: Option<Bytes>

    constructor (file: Option<Bytes>, reliable: bool)
      ensures this.file == file && this.reliable == reliable
    {
      this.file, this.reliable := file, reliable;
    }

    // Removes what did not verify, best effort.
    method Discard() returns (ghost removed: bool)
      modifies this
      ensures file == (if removed then None else old(file)) && (reliable ==> removed)
    {
      var fails := Fault(reliable);
      if fails {
        return false;
      }
      file, removed := None, true;
    }

    // Downloads and verifies: what it reports in place is exactly what the package's hash and the
    // operator's signature cover. A package that could not be verified is refused before the first
    // request, and a failure leaves nothing of the download behind but what could not be removed.
    // `got` is what the requests came to, if any were made.
    method DownloadAndVerify(
      package: Package, key: Option<Bytes>, net: Network, server: Url, url: Url, join: Joining,
      patience: Patience, maxBytes: nat, hash: Bytes -> Bytes, signs: Signs, ghost settled: nat)
      returns (ok: bool, ghost removed: bool, ghost got: Option<Result<Answer, Refusal>>)
      requires patience.perWait > 0 || Settles(net.answers, settled)
      modifies this, net
      ensures got.Some? <==> SafeName(package.name) && key.Some? && package.signature != []
      ensures got.None? ==> !ok && net.gets == old(net.gets) && file == old(file)
      ensures got.Some? ==> exists mid, sent ::
                Ends(patience, old(net.now), net.answers, join, server, url, mid, net.gets, net.now, sent, got.value)
      ensures WentOn(server, old(net.gets), net.gets, |net.gets|)
      ensures patience.perWait > 0 ==>
                |net.gets| - |old(net.gets)| <= 6 * (patience.total / LeastWait(patience.perWait) + 1)
      ensures ok ==> got.Some? && Wanted(got.value, maxBytes, hash, package, key.value, signs)
      ensures ok ==> file == Some(Joined(got.value.value.chunks))
      ensures reliable && got.Some? && Wanted(got.value, maxBytes, hash, package, key.value, signs) ==> ok
      ensures !ok ==> file == old(file) || file == None || (!removed && |file.value| <= maxBytes)
      ensures reliable ==> removed
    {
      removed, got := true, None;
      if !SafeName(package.name) || key.None? || package.signature == [] {
        return false, true, None;
      }
      var response;
      ghost var calls, waits, mid, sent;
      response, calls, waits, mid, sent := SendPatiently(net, server, url, join, patience, settled);
      got := Some(response);
      SentWentOn(net.answers, join, server, url, mid, net.gets, sent);
      if response.Err? || !(200 <= response.value.status < 300) {
        return false, true, got;
      }
      var staged;
      staged, file := WriteStream(response.value, maxBytes, hash, file, reliable);
      ok := staged.Ok? && Verified(staged.value, package, key.value, signs);
      if !ok {
        removed := Discard();
      }
    }
  }

  predicate Verified(staged: Staged, package: Package, key: Bytes, signs: Signs) {
    && staged.contentHash == package.contentHash
    && signs(key, package.name, package.version, package.contentHash, package.signature)
  }

  // A successful answer whose body fits, has the offered hash, and is signed for this name and version.
  ghost predicate Wanted(
    got: Result<Answer, Refusal>, maxBytes: nat, hash: Bytes -> Bytes, package: Package, key: Bytes, signs: Signs)
  {
    && got.Ok? && got.value.Answered? && 200 <= got.value.status < 300
    && Fits(got.value, maxBytes) && hash(Joined(got.value.chunks)) == package.contentHash
    && signs(key, package.name, package.version, package.contentHash, package.signature)
  }
}
