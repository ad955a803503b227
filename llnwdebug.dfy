/**
 * The `LLNWDebug` plugin object: the `dnsRequests` map it updates, the answer
 * addresses it was configured with, and the parts of `ServeDNS` that shape the
 * answer and record the resolver. The lookup `ServeHTTP` performs is
 * `Store.Lookup` over the same map.
 */
module LlnwDebug {
  import opened Wrappers
  import opened Store
  import Ecs

  /** A configured answer address; its bytes are only copied into answer records. */
  type IpAddr = seq<bv8>

  const TYPE_A: Ecs.Uint16 := 1
  const TYPE_AAAA: Ecs.Uint16 := 28
  const RCODE_SUCCESS: int := 0

  /** An answer record: owner name, class and address. */
  datatype RR =
    | A(name: string, qclass: Ecs.Uint16, a: IpAddr)
    | AAAA(name: string, qclass: Ecs.Uint16, aaaa: IpAddr)

  /** The reply `ServeDNS` writes: whether it is authoritative, and its answer section. */
  datatype Reply = Reply(authoritative: bool, answer: seq<RR>)

  /** The query type's label as the DNS library spells it, for the two recorded types. */
  function TypeLabel(qtype: Ecs.Uint16): string
    requires qtype == TYPE_A || qtype == TYPE_AAAA
  {
    if qtype == TYPE_A then "A" else "AAAA"
  }

  /** The resolver address: the host part of the remote address, or "" when splitting it failed. */
  function ResolverOf(hostPart: Option<string>): string {
    hostPart.GetOr("")
  }

  /** The ECS text as stored: the extractor's "-" becomes "", so that the JSON encoder omits it. */
  function StoredEcs(ecs: string): string {
    if ecs == Ecs.ABSENT then "" else ecs
  }

  /**
   * The answer section for a query: one record per configured address of the
   * query's family, in configured order, each owned by `qname`; none for other types.
   */
  predicate Shaped(answer: seq<RR>, qname: string, qtype: Ecs.Uint16, qclass: Ecs.Uint16,
                   answers4: seq<IpAddr>, answers6: seq<IpAddr>)
  {
    if qtype == TYPE_A then
      |answer| == |answers4| && forall i :: 0 <= i < |answer| ==> answer[i] == A(qname, qclass, answers4[i])
    else if qtype == TYPE_AAAA then
      |answer| == |answers6| && forall i :: 0 <= i < |answer| ==> answer[i] == AAAA(qname, qclass, answers6[i])
    else
      answer == []
  }

  /**
   * A query without a client-subnet option is stored with an empty ECS text and
   * so rendered without one; a query with one keeps the option's text.
   */
  lemma StoredEcsOfQuery(r: Ecs.Msg, resolver: string, qType: string)
    ensures StoredEcs(Ecs.Edns0Subnet(r)) == "" <==> !Ecs.CarriesSubnet(r)
    ensures Ecs.CarriesSubnet(r) ==> StoredEcs(Ecs.Edns0Subnet(r)) == Ecs.Edns0Subnet(r)
    ensures ToJson(RequestInfo(resolver, StoredEcs(Ecs.Edns0Subnet(r)), qType)).edns0Subnet.None? <==> !Ecs.CarriesSubnet(r)
  {
    if Ecs.CarriesSubnet(r) {
      var i := Ecs.FirstSubnet(r.opt.value).value;
      assert Ecs.IsFirstSubnet(r, i);
      assert |Ecs.Edns0Subnet(r)| == |Ecs.SubnetText(r.opt.value[i])| > 0;
    }
  }

  class LLNWDebug {
    /** Resolver history by query name (trailing-dot form, case as received). */
    var dnsRequests: map<string, Log>
    const answers4: seq<IpAddr>
    const answers6: seq<IpAddr>

    /** Every stored hostname holds between one and eleven sightings. */
    ghost predicate Valid()
      reads this
    {
      Bounded(dnsRequests, AS_WRITTEN_CAPACITY)
    }

    /** A plugin object with the given answer addresses and no history. */
    constructor (answers4: seq<IpAddr>, answers6: seq<IpAddr>)
      ensures Valid() && dnsRequests == map[]
      ensures this.answers4 == answers4 && this.answers6 == answers6
    {
      this.answers4 := answers4;
      this.answers6 := answers6;
      dnsRequests := map[];
    }

    /**
     * `recordResolver`, with the clock reading as the parameter `now`: unless
     * the log already holds more than `ABUSE_GUARD` sightings, append the new
     * one, stamp the log with `now` and store it back.
     */
    method RecordResolver(qname: string, resolver: string, edns0Subnet: string, qtype: string, now: int)
      requires Valid()
      modifies this
      ensures Valid()
      ensures dnsRequests == Recorded(old(dnsRequests), qname, RequestInfo(resolver, edns0Subnet, qtype), now, AS_WRITTEN_CAPACITY)
    {
      RecordPreservesBound(dnsRequests, qname, RequestInfo(resolver, edns0Subnet, qtype), now, AS_WRITTEN_CAPACITY);
      var l := LogOf(dnsRequests, qname);
      if |l.log| > ABUSE_GUARD {
        return;
      }
      l := l.(lastUpdate := now);
      l := l.(log := l.log + [RequestInfo(resolver, edns0Subnet, qtype)]);
      dnsRequests := dnsRequests[qname := l];
    }

    /** The answer loops of `ServeDNS`: one record per configured address of the query's family. */
    method Answers(qname: string, qtype: Ecs.Uint16, qclass: Ecs.Uint16) returns (answer: seq<RR>)
      ensures Shaped(answer, qname, qtype, qclass, answers4, answers6)
    {
      answer := [];
      if qtype == TYPE_A {
        for i := 0 to |answers4|
          invariant |answer| == i
          invariant forall k :: 0 <= k < i ==> answer[k] == A(qname, qclass, answers4[k])
        {
          answer := answer + [A(qname, qclass, answers4[i])];
        }
      } else if qtype == TYPE_AAAA {
        for i := 0 to |answers6|
          invariant |answer| == i
          invariant forall k :: 0 <= k < i ==> answer[k] == AAAA(qname, qclass, answers6[k])
        {
          answer := answer + [AAAA(qname, qclass, answers6[i])];
        }
      }
    }

    /**
     * `ServeDNS` for one query. `hostPart` is the host part of the remote
     * address (`None` when it could not be split) and `ecs` the text the ECS
     * metadata yielded. A and AAAA queries get an authoritative reply with the
     * shaped answers and are recorded exactly once; other types are neither
     * answered nor recorded. The result code is always success.
     */
    method ServeDNS(qname: string, qtype: Ecs.Uint16, qclass: Ecs.Uint16, hostPart: Option<string>, ecs: string, now: int)
      returns (rcode: int, written: Option<Reply>)
      requires Valid()
      modifies this
      ensures Valid()
      ensures rcode == RCODE_SUCCESS
      ensures qtype != TYPE_A && qtype != TYPE_AAAA ==> written == None && dnsRequests == old(dnsRequests)
      ensures qtype == TYPE_A || qtype == TYPE_AAAA ==>
        && written.Some? && written.value.authoritative
        && Shaped(written.value.answer, qname, qtype, qclass, answers4, answers6)
        && dnsRequests == Recorded(old(dnsRequests), qname,
                                   RequestInfo(ResolverOf(hostPart), StoredEcs(ecs), TypeLabel(qtype)),
                                   now, AS_WRITTEN_CAPACITY)
    {
      rcode, written := RCODE_SUCCESS, None;
      var resolver := ResolverOf(hostPart);
      if qtype == TYPE_A || qtype == TYPE_AAAA {
        var answer := Answers(qname, qtype, qclass);
        written := Some(Reply(true, answer));
        RecordResolver(qname, resolver, StoredEcs(ecs), TypeLabel(qtype), now);
      }
    }
  }
}
