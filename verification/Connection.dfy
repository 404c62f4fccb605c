/**
 Connection settings the Server offers (`connection.rs`): a fold with two merge rules in one
 message, and its precedence over the configuration file.
 */
module Connection {
  import opened Outcomes

  type Url = string

  // One own-telemetry destination; `rest` is everything the Client keeps with it unread.
  datatype Telemetry = Telemetry(endpoint: Url, rest: Bytes)

  datatype OpAmp = OpAmp(
    endpoint: Url,
    certificate: Option<Bytes>,
    heartbeat: nat,
    tls: Option<Bytes>,
    proxy: Option<Bytes>,
    headers: Option<seq<string>>)

  datatype Offer = Offer(
    hash: Bytes,
    ownMetrics: Option<Telemetry>,
    ownTraces: Option<Telemetry>,
    ownLogs: Option<Telemetry>,
    opamp: Option<OpAmp>)

  // ---- The fold -------------------------------------------------------------------------------

  predicate StatesTelemetry(offer: Offer) {
    offer.ownMetrics.Some? || offer.ownTraces.Some? || offer.ownLogs.Some?
  }

  // `states`: the offer speaks of telemetry at all. Then what it leaves out, or leaves empty, is none.
  function MergeTelemetry(states: bool, offered: Option<Telemetry>, previous: Option<Telemetry>): Option<Telemetry> {
    if !states then previous
    else if offered.Some? && offered.value.endpoint != "" then offered
    else None
  }

  // The offered settings where they state the field, the previous ones otherwise.
  function Pick(offered: Option<OpAmp>, previous: Option<OpAmp>, states: OpAmp -> bool): Option<OpAmp> {
    if offered.Some? && states(offered.value) then offered else previous
  }

  predicate StatesEndpoint(s: OpAmp) {
    s.endpoint != ""
  }

  predicate StatesCertificate(s: OpAmp) {
    s.certificate.Some?
  }

  predicate StatesHeartbeat(s: OpAmp) {
    s.heartbeat != 0
  }

  function MergeOpAmp(offered: Option<OpAmp>, previous: Option<OpAmp>): Option<OpAmp> {
    if offered.None? && previous.None? then None
    else
      var endpoint := Pick(offered, previous, StatesEndpoint);
      var certificate := Pick(offered, previous, StatesCertificate);
      var heartbeat := Pick(offered, previous, StatesHeartbeat);
      Some(OpAmp(
        if endpoint.Some? then endpoint.value.endpoint else "",
        if certificate.Some? then certificate.value.certificate else None,
        if heartbeat.Some? then heartbeat.value.heartbeat else 0,
        None, None, None))
  }

  function Merge(stored: Option<Offer>, offer: Offer): Offer {
    var states := StatesTelemetry(offer);
    Offer(
      offer.hash,
      MergeTelemetry(states, offer.ownMetrics, if stored.Some? then stored.value.ownMetrics else None),
      MergeTelemetry(states, offer.ownTraces, if stored.Some? then stored.value.ownTraces else None),
      MergeTelemetry(states, offer.ownLogs, if stored.Some? then stored.value.ownLogs else None),
      MergeOpAmp(offer.opamp, if stored.Some? then stored.value.opamp else None))
  }

  function MergeAll(stored: Option<Offer>, offers: seq<Offer>): Option<Offer> {
    if offers == [] then stored
    else Some(Merge(MergeAll(stored, offers[..|offers| - 1]), offers[|offers| - 1]))
  }

  // ---- Its closed form ------------------------------------------------------------------------

  // The last offer that says something of a kind.
  function LastIndex(offers: seq<Offer>, says: Offer -> bool): (found: Option<nat>)
    ensures found.Some? ==> && found.value < |offers| && says(offers[found.value])
                            && forall j | found.value < j < |offers| :: !says(offers[j])
    ensures found.None? ==> forall j | 0 <= j < |offers| :: !says(offers[j])
  {
    if offers == [] then None
    else if says(offers[|offers| - 1]) then Some(|offers| - 1)
    else LastIndex(offers[..|offers| - 1], says)
  }

  predicate SaysOpAmp(offer: Offer) {
    offer.opamp.Some?
  }

  predicate SaysEndpoint(offer: Offer) {
    offer.opamp.Some? && offer.opamp.value.endpoint != ""
  }

  predicate SaysCertificate(offer: Offer) {
    offer.opamp.Some? && offer.opamp.value.certificate.Some?
  }

  predicate SaysHeartbeat(offer: Offer) {
    offer.opamp.Some? && offer.opamp.value.heartbeat > 0
  }

  predicate NamesTelemetry(offer: Offer) {
    !(offer.ownMetrics.None? && offer.ownTraces.None? && offer.ownLogs.None?)
  }

  // The settings the last offer of a kind carried; the stored ones when none did.
  function LastOpAmp(stored: Option<Offer>, offers: seq<Offer>, says: Offer -> bool): Option<OpAmp> {
    var i := LastIndex(offers, says);
    if i.Some? then offers[i.value].opamp else if stored.Some? then stored.value.opamp else None
  }

  // What a destination comes to: as offered, an empty endpoint meaning none.
  function Named(t: Option<Telemetry>): Option<Telemetry> {
    if t.Some? && t.value.endpoint == "" then None else t
  }

  function LastTelemetry(stored: Option<Offer>, offers: seq<Offer>, signal: Offer -> Option<Telemetry>)
    : Option<Telemetry>
  {
    var i := LastIndex(offers, NamesTelemetry);
    if i.Some? then Named(signal(offers[i.value])) else if stored.Some? then signal(stored.value) else None
  }

  function Metrics(offer: Offer): Option<Telemetry> { offer.ownMetrics }

  function Traces(offer: Offer): Option<Telemetry> { offer.ownTraces }

  function Logs(offer: Offer): Option<Telemetry> { offer.ownLogs }

  // All three signals come from one offer: the last that named any of them.
  lemma {:induction false} TelemetryClosedForm(stored: Option<Offer>, offers: seq<Offer>)
    requires offers != []
    ensures var m := MergeAll(stored, offers).value;
            && m.hash == offers[|offers| - 1].hash
            && m.ownMetrics == LastTelemetry(stored, offers, Metrics)
            && m.ownTraces == LastTelemetry(stored, offers, Traces)
            && m.ownLogs == LastTelemetry(stored, offers, Logs)
    decreases |offers|
  {
    if |offers| > 1 {
      TelemetryClosedForm(stored, offers[..|offers| - 1]);
    } else {
      assert offers[..0] == [];
    }
  }

  function OpAmpIn(offer: Option<Offer>): Option<OpAmp> {
    if offer.Some? then offer.value.opamp else None
  }

  function EndpointIn(s: Option<OpAmp>): Url { if s.Some? then s.value.endpoint else "" }

  function CertificateIn(s: Option<OpAmp>): Option<Bytes> { if s.Some? then s.value.certificate else None }

  function HeartbeatIn(s: Option<OpAmp>): nat { if s.Some? then s.value.heartbeat else 0 }

  lemma MergedAfterLast(stored: Option<Offer>, offers: seq<Offer>)
    requires offers != []
    ensures OpAmpIn(MergeAll(stored, offers))
         == MergeOpAmp(offers[|offers| - 1].opamp, OpAmpIn(MergeAll(stored, offers[..|offers| - 1])))
  {
  }

  lemma LastOfOneMore(stored: Option<Offer>, offers: seq<Offer>, says: Offer -> bool)
    requires offers != []
    ensures LastOpAmp(stored, offers, says)
         == if says(offers[|offers| - 1]) then offers[|offers| - 1].opamp
            else LastOpAmp(stored, offers[..|offers| - 1], says)
  {
  }

  lemma {:induction false} EndpointIsLastStated(stored: Option<Offer>, offers: seq<Offer>)
    ensures EndpointIn(OpAmpIn(MergeAll(stored, offers))) == EndpointIn(LastOpAmp(stored, offers, SaysEndpoint))
    decreases |offers|
  {
    if offers != [] {
      MergedAfterLast(stored, offers);
      LastOfOneMore(stored, offers, SaysEndpoint);
      EndpointIsLastStated(stored, offers[..|offers| - 1]);
    }
  }

  lemma {:induction false} CertificateIsLastStated(stored: Option<Offer>, offers: seq<Offer>)
    ensures CertificateIn(OpAmpIn(MergeAll(stored, offers)))
         == CertificateIn(LastOpAmp(stored, offers, SaysCertificate))
    decreases |offers|
  {
    if offers != [] {
      MergedAfterLast(stored, offers);
      LastOfOneMore(stored, offers, SaysCertificate);
      CertificateIsLastStated(stored, offers[..|offers| - 1]);
    }
  }

  lemma {:induction false} HeartbeatIsLastStated(stored: Option<Offer>, offers: seq<Offer>)
    ensures HeartbeatIn(OpAmpIn(MergeAll(stored, offers))) == HeartbeatIn(LastOpAmp(stored, offers, SaysHeartbeat))
    decreases |offers|
  {
    if offers != [] {
      MergedAfterLast(stored, offers);
      LastOfOneMore(stored, offers, SaysHeartbeat);
      HeartbeatIsLastStated(stored, offers[..|offers| - 1]);
    }
  }

  lemma {:induction false} BlockIsThereWhenSomeSideHadOne(stored: Option<Offer>, offers: seq<Offer>)
    ensures var m := OpAmpIn(MergeAll(stored, offers));
            && (m.Some? <==> LastOpAmp(stored, offers, SaysOpAmp).Some?)
            && (m.Some? && offers != [] ==> m.value.tls.None? && m.value.proxy.None? && m.value.headers.None?)
    decreases |offers|
  {
    if offers != [] {
      MergedAfterLast(stored, offers);
      LastOfOneMore(stored, offers, SaysOpAmp);
      BlockIsThereWhenSomeSideHadOne(stored, offers[..|offers| - 1]);
    }
  }

  // The OpAMP settings every sequence of offers comes to, without folding.
  function OpAmpOf(stored: Option<Offer>, offers: seq<Offer>): Option<OpAmp> {
    if LastOpAmp(stored, offers, SaysOpAmp).None? then None
    else Some(OpAmp(
      EndpointIn(LastOpAmp(stored, offers, SaysEndpoint)),
      CertificateIn(LastOpAmp(stored, offers, SaysCertificate)),
      HeartbeatIn(LastOpAmp(stored, offers, SaysHeartbeat)),
      None, None, None))
  }

  // Each OpAMP field is the last one stated, on its own; the block is there exactly when some side
  // had one; and nothing of `tls`, `proxy` or `headers` survives.
  lemma {:induction false} OpAmpClosedForm(stored: Option<Offer>, offers: seq<Offer>)
    requires offers != []
    ensures MergeAll(stored, offers).value.opamp == OpAmpOf(stored, offers)
  {
    EndpointIsLastStated(stored, offers);
    CertificateIsLastStated(stored, offers);
    HeartbeatIsLastStated(stored, offers);
    BlockIsThereWhenSomeSideHadOne(stored, offers);
  }

  // ---- What is reported -----------------------------------------------------------------------

  // A field of an applied offer that this Client drops; of headers, their keys.
  datatype Dropped = Tls | Proxy | Headers(keys: seq<string>)

  method Unhonoured(settings: OpAmp) returns (dropped: seq<Dropped>)
    ensures dropped == [] <==> MergeOpAmp(Some(settings), None) == Some(settings)
    ensures Tls in dropped <==> settings.tls.Some?
    ensures Proxy in dropped <==> settings.proxy.Some?
    ensures forall keys :: Headers(keys) in dropped <==> settings.headers == Some(keys)
    ensures |dropped| <= 3 && forall i, j | 0 <= i < j < |dropped| :: dropped[i] != dropped[j]
  {
    dropped := [];
    if settings.tls.Some? {
      dropped := dropped + [Tls];
    }
    if settings.proxy.Some? {
      dropped := dropped + [Proxy];
    }
    if settings.headers.Some? {
      dropped := dropped + [Headers(settings.headers.value)];
    }
  }

  // ---- The settings file ----------------------------------------------------------------------

  datatype Stored = Missing | Decoded(settings: Offer) | Undecodable

  function WithoutHeaders(offer: Offer): Offer {
    if offer.opamp.Some? then offer.(opamp := Some(offer.opamp.value.(headers := None))) else offer
  }

  function Loaded(file: Stored): Option<Offer> {
    if file.Decoded? then Some(WithoutHeaders(file.settings)) else None
  }

  predicate DiffersInHeadersOnly(a: Offer, b: Offer) {
    && a.hash == b.hash && a.ownMetrics == b.ownMetrics && a.ownTraces == b.ownTraces && a.ownLogs == b.ownLogs
    && (a.opamp.Some? <==> b.opamp.Some?)
    && (a.opamp.Some? ==>
          var x, y := a.opamp.value, b.opamp.value;
          && x.endpoint == y.endpoint && x.certificate == y.certificate && x.heartbeat == y.heartbeat
          && x.tls == y.tls && x.proxy == y.proxy)
  }

  class SettingsFile {
    var file: Stored

    constructor (file: Stored)
      ensures this.file == file
    {
      this.file := file;
    }

    // Persisted headers are never read, and leave the disk when the rewrite works.
    method Load(writable: bool) returns (settings: Option<Offer>)
      modifies this
      ensures settings == Loaded(old(file)) == Loaded(file)
      ensures settings.Some? <==> old(file).Decoded?
      ensures settings.Some? ==> DiffersInHeadersOnly(settings.value, old(file).settings)
      ensures settings.Some? && settings.value.opamp.Some? ==> settings.value.opamp.value.headers.None?
      ensures !writable || settings.None? ==> file == old(file)
      ensures writable && file.Decoded? ==> file.settings == settings.value
    {
      if !file.Decoded? {
        return None;
      }
      settings := Some(WithoutHeaders(file.settings));
      if file.settings.opamp.Some? && file.settings.opamp.value.headers.Some? && writable {
        file := Decoded(settings.value);
      }
    }

    // A verified offer: folded over what was in force, and persisted when the write works.
    method TakeOffer(taking: Taking)
      modifies this
      ensures taking.storable ==> file == Decoded(Merge(Loaded(old(file)), taking.offer))
      ensures !taking.storable ==> Loaded(file) == Loaded(old(file))
      ensures file == AfterTaking(old(file), taking)
    {
      var settings := Load(taking.rewritable);
      if taking.storable {
        file := Decoded(Merge(settings, taking.offer));
      }
    }
  }

  // An offer taken, and whether the rewrite that drops headers and the store of the fold work.
  datatype Taking = Taking(offer: Offer, rewritable: bool, storable: bool)

  function AfterTaking(file: Stored, taking: Taking): Stored {
    if taking.storable then Decoded(Merge(Loaded(file), taking.offer))
    else if taking.rewritable && file.Decoded? then Decoded(WithoutHeaders(file.settings))
    else file
  }

  // The file after offers taken one by one, each loaded and persisted again.
  function Persisted(file: Stored, takings: seq<Taking>): Stored {
    if takings == [] then file else AfterTaking(Persisted(file, takings[..|takings| - 1]), takings[|takings| - 1])
  }

  function StoredOffers(takings: seq<Taking>): seq<Offer> {
    if takings == [] then []
    else
      var most, last := takings[..|takings| - 1], takings[|takings| - 1];
      StoredOffers(most) + if last.storable then [last.offer] else []
  }

  lemma LoadingAgain(offer: Offer)
    ensures Loaded(Decoded(WithoutHeaders(offer))) == Loaded(Decoded(offer))
    ensures offer.opamp.Some? && offer.opamp.value.headers.None? ==> WithoutHeaders(offer) == offer
    ensures forall stored :: WithoutHeaders(Merge(stored, offer)) == Merge(stored, offer)
  {
  }

  lemma MergedOneMore(stored: Option<Offer>, offers: seq<Offer>, offer: Offer)
    ensures MergeAll(stored, offers + [offer]) == Some(Merge(MergeAll(stored, offers), offer))
  {
    assert (offers + [offer])[..|offers|] == offers;
  }

  // Over every run of offers, with rewrites and stores that fail, the settings in the file are the
  // fold of the offers that were stored over those that were there; and once one was stored the file
  // holds that fold and nothing else.
  lemma {:induction false} PersistedIsTheFold(file: Stored, takings: seq<Taking>)
    ensures Loaded(Persisted(file, takings)) == MergeAll(Loaded(file), StoredOffers(takings))
    ensures StoredOffers(takings) != [] ==>
              Persisted(file, takings) == Decoded(MergeAll(Loaded(file), StoredOffers(takings)).value)
    decreases |takings|
  {
    if takings != [] {
      var most, last := takings[..|takings| - 1], takings[|takings| - 1];
      PersistedIsTheFold(file, most);
      var before := Persisted(file, most);
      LoadingAgain(last.offer);
      if last.storable {
        MergedOneMore(Loaded(file), StoredOffers(most), last.offer);
      } else {
        assert StoredOffers(takings) == StoredOffers(most);
        if before.Decoded? {
          LoadingAgain(before.settings);
        }
        if StoredOffers(most) != [] {
          OpAmpClosedForm(Loaded(file), StoredOffers(most));
        }
      }
    }
  }

  // ---- Over the configuration file ------------------------------------------------------------

  datatype Settings = Settings(endpoint: Url, heartbeat: nat, poll: nat)

  predicate IsPlaintext(url: Url) {
    "ws://" <= url || "http://" <= url
  }

  function Applied(config: Settings, stored: Offer): Settings {
    if stored.opamp.None? then config
    else
      var s := stored.opamp.value;
      Settings(
        if s.endpoint == "" || (IsPlaintext(s.endpoint) && s.endpoint != config.endpoint) then config.endpoint
        else s.endpoint,
        if s.heartbeat != 0 then s.heartbeat else config.heartbeat,
        if s.heartbeat != 0 then s.heartbeat else config.poll)
  }

  class ClientConfig {
    var endpoint: Url
    var heartbeat: nat
    var poll: nat

    constructor (config: Settings)
      ensures State() == config
    {
      endpoint, heartbeat, poll := config.endpoint, config.heartbeat, config.poll;
    }

    function State(): Settings
      reads this
    {
      Settings(endpoint, heartbeat, poll)
    }

    // Offered values replace configured ones field by field; a change to plaintext is ignored.
    method Apply(stored: Offer)
      modifies this
      ensures State() == Applied(old(State()), stored)
      ensures stored.opamp.None? ==> State() == old(State())
      ensures stored.opamp.Some? && stored.opamp.value.endpoint != "" && endpoint != stored.opamp.value.endpoint ==>
                "ws://" <= stored.opamp.value.endpoint || "http://" <= stored.opamp.value.endpoint
      ensures endpoint != old(endpoint) ==>
                stored.opamp.Some? && endpoint == stored.opamp.value.endpoint
                && endpoint != "" && !("ws://" <= endpoint) && !("http://" <= endpoint)
      ensures stored.opamp.Some? && stored.opamp.value.heartbeat != 0 ==>
                heartbeat == poll == stored.opamp.value.heartbeat
      ensures stored.opamp.Some? && stored.opamp.value.heartbeat == 0 ==>
                heartbeat == old(heartbeat) && poll == old(poll)
    {
      if stored.opamp.None? {
        return;
      }
      var settings := stored.opamp.value;
      if IsPlaintext(settings.endpoint) && settings.endpoint != endpoint {
      } else if settings.endpoint != "" {
        endpoint := settings.endpoint;
      }
      if settings.heartbeat != 0 {
        heartbeat := settings.heartbeat;
        poll := settings.heartbeat;
      }
    }
  }

  // After any number of settings applied in turn, a plaintext endpoint in force is the file's own,
  // and applying the last ones again changes nothing.
  function AppliedAll(config: Settings, stored: seq<Offer>): Settings {
    if stored == [] then config else Applied(AppliedAll(config, stored[..|stored| - 1]), stored[|stored| - 1])
  }

  lemma {:induction false} PlaintextIsTheFilesOwn(config: Settings, stored: seq<Offer>)
    ensures var endpoint := AppliedAll(config, stored).endpoint;
            "ws://" <= endpoint || "http://" <= endpoint ==> endpoint == config.endpoint
    ensures stored != [] ==>
              Applied(AppliedAll(config, stored), stored[|stored| - 1]) == AppliedAll(config, stored)
    decreases |stored|
  {
    if stored != [] {
      PlaintextIsTheFilesOwn(config, stored[..|stored| - 1]);
    }
  }
}
