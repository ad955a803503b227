/**
 * The per-hostname resolver log as values: what one `recordResolver` call does
 * to the `dnsRequests` map, what a run of calls leaves behind, and what the
 * HTTP lookup reads back.
 */
module Store {
  import opened Wrappers

  /** One resolver sighting: the resolver address, the ECS text ("" when absent) and the query type label. */
  datatype RequestInfo = RequestInfo(resolver: string, edns0Subnet: string, qType: string)

  /** A hostname's history: when it last accepted a sighting, and the sightings in arrival order. */
  datatype Log = Log(lastUpdate: int, log: seq<RequestInfo>)

  /** Go's zero `time.Time`; clock readings are modelled as ints. */
  const ZERO_TIME: int := 0

  /** What Go's map read yields for a hostname that has no entry. */
  const ZERO_LOG: Log := Log(ZERO_TIME, [])

  /** The literal of the abuse guard: a call is dropped when the log already holds more than this many. */
  const ABUSE_GUARD: nat := 10

  /** The capacity the code enforces: one more than the guard's literal. */
  const AS_WRITTEN_CAPACITY: nat := ABUSE_GUARD + 1

  /** The capacity the abuse test expects: ten sightings, the eleventh ignored. */
  const MAX_ENTRIES: nat := 10

  /** `m[qname]` with Go's semantics: a missing key reads as the zero log. */
  function LogOf(m: map<string, Log>, qname: string): Log {
    if qname in m then m[qname] else ZERO_LOG
  }

  /**
   * The map after one record call on a log that holds at most `capacity - 1`
   * sightings before the call is refused. With `AS_WRITTEN_CAPACITY` this is
   * `recordResolver` as written (`len(l.log) > 10` drops).
   */
  function Recorded(m: map<string, Log>, qname: string, info: RequestInfo, now: int, capacity: nat): map<string, Log> {
    var l := LogOf(m, qname);
    if |l.log| >= capacity then m else m[qname := Log(now, l.log + [info])]
  }

  /** With room left, a record call appends exactly the new sighting and stamps the log with `now`. */
  lemma RecordAppends(m: map<string, Log>, qname: string, info: RequestInfo, now: int, capacity: nat)
    requires |LogOf(m, qname).log| < capacity
    ensures qname in Recorded(m, qname, info, now, capacity)
    ensures Recorded(m, qname, info, now, capacity)[qname] == Log(now, LogOf(m, qname).log + [info])
  {
  }

  /** On a full log, a record call changes nothing, not even the timestamp. */
  lemma RecordDropsWhenFull(m: map<string, Log>, qname: string, info: RequestInfo, now: int, capacity: nat)
    requires |LogOf(m, qname).log| >= capacity
    ensures Recorded(m, qname, info, now, capacity) == m
  {
  }

  /** A record call touches no other hostname, and leaves its own present unless the capacity is zero. */
  lemma RecordFrame(m: map<string, Log>, qname: string, info: RequestInfo, now: int, capacity: nat)
    ensures var r := Recorded(m, qname, info, now, capacity);
      && (capacity > 0 ==> qname in r)
      && r.Keys - {qname} == m.Keys - {qname}
      && forall k :: k in m && k != qname ==> r[k] == m[k]
  {
  }

  /** Every stored hostname holds between one and `capacity` sightings. */
  predicate Bounded(m: map<string, Log>, capacity: nat) {
    forall k :: k in m ==> 0 < |m[k].log| <= capacity
  }

  /** Record calls keep every stored log within its bounds. */
  lemma RecordPreservesBound(m: map<string, Log>, qname: string, info: RequestInfo, now: int, capacity: nat)
    requires Bounded(m, capacity)
    ensures Bounded(Recorded(m, qname, info, now, capacity), capacity)
  {
  }

  /** One record call's arguments: the sighting and the clock reading taken at the call. */
  datatype Call = Call(info: RequestInfo, now: int)

  function Infos(calls: seq<Call>): seq<RequestInfo> {
    seq(|calls|, i requires 0 <= i < |calls| => calls[i].info)
  }

  function Min(a: int, b: int): int {
    if a <= b then a else b
  }

  /** The map after record calls on one hostname, in order. */
  function RecordAll(m: map<string, Log>, qname: string, calls: seq<Call>, capacity: nat): map<string, Log>
    decreases |calls|
  {
    if calls == [] then m
    else RecordAll(Recorded(m, qname, calls[0].info, calls[0].now, capacity), qname, calls[1..], capacity)
  }

  /**
   * A run of record calls keeps the sightings in call order and stops at the
   * capacity: the log becomes the old log followed by the new sightings, cut
   * to `capacity`.
   */
  lemma {:induction false} RecordAllKeepsFirst(m: map<string, Log>, qname: string, calls: seq<Call>, capacity: nat)
    requires |LogOf(m, qname).log| <= capacity
    ensures var p := LogOf(m, qname).log;
      LogOf(RecordAll(m, qname, calls, capacity), qname).log == (p + Infos(calls))[..Min(|p| + |calls|, capacity)]
    decreases |calls|
  {
    var p := LogOf(m, qname).log;
    if calls == [] {
      assert p + Infos(calls) == p;
    } else {
      var c, rest := calls[0], calls[1..];
      RecordedLog(m, qname, c.info, c.now, capacity);
      RecordAllKeepsFirst(Recorded(m, qname, c.info, c.now, capacity), qname, rest, capacity);
      InfosCons(calls);
      KeepStep(p, c.info, Infos(rest), capacity);
    }
  }

  lemma InfosCons(calls: seq<Call>)
    requires calls != []
    ensures Infos(calls) == [calls[0].info] + Infos(calls[1..])
  {
  }

  /** The log a single record call leaves for its own hostname. */
  lemma RecordedLog(m: map<string, Log>, qname: string, info: RequestInfo, now: int, capacity: nat)
    ensures var p := LogOf(m, qname).log;
      LogOf(Recorded(m, qname, info, now, capacity), qname).log == if |p| < capacity then p + [info] else p
  {
  }

  /** One step of cutting a growing log at the capacity, on sequences alone. */
  lemma KeepStep<T>(p: seq<T>, x: T, rest: seq<T>, capacity: nat)
    requires |p| <= capacity
    ensures var p' := if |p| < capacity then p + [x] else p;
      (p' + rest)[..Min(|p'| + |rest|, capacity)] == (p + ([x] + rest))[..Min(|p| + 1 + |rest|, capacity)]
  {
    if |p| < capacity {
      assert (p + [x]) + rest == p + ([x] + rest);
    } else {
      assert (p + rest)[..capacity] == p == (p + ([x] + rest))[..capacity];
    }
  }

  /**
   * After a run of calls on a log with room, the hostname is stored and its
   * timestamp is the clock reading of the last call it accepted.
   */
  lemma {:induction false} RecordAllStamps(m: map<string, Log>, qname: string, calls: seq<Call>, capacity: nat)
    requires |LogOf(m, qname).log| < capacity
    requires calls != []
    ensures var r := RecordAll(m, qname, calls, capacity);
      && qname in r
      && r[qname].lastUpdate == calls[Min(|calls|, capacity - |LogOf(m, qname).log|) - 1].now
    decreases |calls|
  {
    var p := LogOf(m, qname).log;
    var m' := Recorded(m, qname, calls[0].info, calls[0].now, capacity);
    if |calls| == 1 {
    } else if |p| + 1 < capacity {
      RecordAllStamps(m', qname, calls[1..], capacity);
    } else {
      RecordAllFullUnchanged(m', qname, calls[1..], capacity);
    }
  }

  /** Calls on a full log leave the whole map as it was. */
  lemma {:induction false} RecordAllFullUnchanged(m: map<string, Log>, qname: string, calls: seq<Call>, capacity: nat)
    requires |LogOf(m, qname).log| >= capacity
    ensures RecordAll(m, qname, calls, capacity) == m
    decreases |calls|
  {
    if calls != [] {
      RecordAllFullUnchanged(m, qname, calls[1..], capacity);
    }
  }

  /** The body of the HTTP lookup's answer: the `Resolvers` list, omitted from JSON when empty. */
  datatype Response = Response(resolvers: seq<RequestInfo>)

  /** The lookup of `ServeHTTP`: the log stored under the request's Host with a trailing dot, or nothing. */
  function Lookup(m: map<string, Log>, host: string): Response {
    if host + "." in m then Response(m[host + "."].log) else Response([])
  }

  /** A hostname never recorded looks up as no resolvers, not as an error. */
  lemma LookupUnknown(m: map<string, Log>, host: string)
    requires host + "." !in m
    ensures Lookup(m, host).resolvers == []
  {
  }

  /** Recording under "<host>." with room left shows up at the end of the next lookup of `host`. */
  lemma LookupAfterRecord(m: map<string, Log>, host: string, info: RequestInfo, now: int, capacity: nat)
    requires |LogOf(m, host + ".").log| < capacity
    ensures Lookup(Recorded(m, host + ".", info, now, capacity), host).resolvers
         == Lookup(m, host).resolvers + [info]
  {
  }

  /** A lookup is not affected by recording under a different hostname, nor by a dropped call. */
  lemma LookupUnaffected(m: map<string, Log>, host: string, qname: string, info: RequestInfo, now: int, capacity: nat)
    requires qname != host + "." || |LogOf(m, qname).log| >= capacity
    ensures Lookup(Recorded(m, qname, info, now, capacity), host) == Lookup(m, host)
  {
  }

  /** One sighting as the JSON encoder renders it: the ECS field is omitted when empty, and the query type is never rendered. */
  datatype ResolverJson = ResolverJson(resolver: string, edns0Subnet: Option<string>)

  function ToJson(ri: RequestInfo): ResolverJson {
    ResolverJson(ri.resolver, if ri.edns0Subnet == "" then None else Some(ri.edns0Subnet))
  }

  /** The rendered `Resolvers` field: absent when there are none, otherwise one item per sighting in order. */
  function ResponseJson(resp: Response): Option<seq<ResolverJson>> {
    if resp.resolvers == [] then None else Some(seq(|resp.resolvers|, i requires 0 <= i < |resp.resolvers| => ToJson(resp.resolvers[i])))
  }

  /**
   * On a well-formed store, the `Resolvers` field is omitted (the body is `{}`)
   * exactly when the Host's dotted name was never recorded; otherwise it renders
   * one item per stored sighting, in order.
   */
  lemma LookupJson(m: map<string, Log>, host: string, capacity: nat)
    requires Bounded(m, capacity)
    ensures ResponseJson(Lookup(m, host)).None? <==> host + "." !in m
    ensures host + "." in m ==>
      var items := ResponseJson(Lookup(m, host)).value;
      |items| == |m[host + "."].log| && forall i :: 0 <= i < |items| ==> items[i] == ToJson(m[host + "."].log[i])
  {
  }

  /** A call accepted with a non-zero clock reading leaves the hostname stamped with a non-zero time. */
  lemma RecordStampNonZero(m: map<string, Log>, qname: string, info: RequestInfo, now: int, capacity: nat)
    requires |LogOf(m, qname).log| < capacity
    requires now != ZERO_TIME
    ensures qname in Recorded(m, qname, info, now, capacity)
    ensures Recorded(m, qname, info, now, capacity)[qname].lastUpdate != ZERO_TIME
  {
  }

  /** The calls of the abuse test: eleven A sightings from 10.0.0.1 to 10.0.0.11, no ECS. */
  function AbuseCalls(now: int): seq<Call> {
    [ Call(RequestInfo("10.0.0.1", "", "A"), now), Call(RequestInfo("10.0.0.2", "", "A"), now),
      Call(RequestInfo("10.0.0.3", "", "A"), now), Call(RequestInfo("10.0.0.4", "", "A"), now),
      Call(RequestInfo("10.0.0.5", "", "A"), now), Call(RequestInfo("10.0.0.6", "", "A"), now),
      Call(RequestInfo("10.0.0.7", "", "A"), now), Call(RequestInfo("10.0.0.8", "", "A"), now),
      Call(RequestInfo("10.0.0.9", "", "A"), now), Call(RequestInfo("10.0.0.10", "", "A"), now),
      Call(RequestInfo("10.0.0.11", "", "A"), now) ]
  }

  /** As written, the guard lets the eleventh sighting in: the log ends with 10.0.0.11, which the test says is ignored. */
  lemma AbuseAsWrittenKeepsEleven(now: int)
    ensures var l := LogOf(RecordAll(map[], "abuse", AbuseCalls(now), AS_WRITTEN_CAPACITY), "abuse").log;
      |l| == 11 && l[10].resolver == "10.0.0.11"
  {
    RecordAllKeepsFirst(map[], "abuse", AbuseCalls(now), AS_WRITTEN_CAPACITY);
  }

  /** With the intended capacity of ten, the abuse test's expectation holds: the first ten sightings, in order. */
  lemma AbuseCappedKeepsTen(now: int)
    ensures LogOf(RecordAll(map[], "abuse", AbuseCalls(now), MAX_ENTRIES), "abuse").log
         == Infos(AbuseCalls(now))[..10]
  {
    RecordAllKeepsFirst(map[], "abuse", AbuseCalls(now), MAX_ENTRIES);
  }

  /** With the intended capacity, any run of calls on a new hostname keeps exactly its first ten sightings. */
  lemma CappedKeepsFirstTen(m: map<string, Log>, qname: string, calls: seq<Call>)
    requires qname !in m
    ensures LogOf(RecordAll(m, qname, calls, MAX_ENTRIES), qname).log == Infos(calls)[..Min(|calls|, MAX_ENTRIES)]
  {
    RecordAllKeepsFirst(m, qname, calls, MAX_ENTRIES);
    assert [] + Infos(calls) == Infos(calls);
  }
}
