/**
 * What the resolution engine promises, stated about `Handler.Resolve` (the
 * answer `Handler.ResolveRRs` is proved to return).
 */
module HandlerProperties {
  import opened Wrappers
  import opened Strings
  import opened IP
  import opened Handler

  /** A record as it leaves the resolver: class IN and the fixed TTL. */
  function Final(owner: string, rrtype: uint16, data: RData): RR {
    RR(RRHeader(owner, rrtype, ClassINET, Ttl), data)
  }

  /** The zone-wide NS records as answered at `owner`. */
  function NSAnswer(h: DNSHandler, owner: string): seq<RR> {
    [Final(owner, TypeNS, NS("alpha." + h.zone))]
      + if |h.nsA| > 1 then [Final(owner, TypeNS, NS("omega." + h.zone))] else []
  }

  /** An in-zone question of class IN: the only ones that reach the name rules. */
  predicate Reaches(h: DNSHandler, q: Question) {
    q.qclass == ClassINET && InZone(q.name, h.zone)
  }

  /** Past the class and zone checks, the answer is the one reached at the name's subdomain. */
  lemma ResolveReaching(h: DNSHandler, q: Question,
                        decode6: string -> Option<Address>, decode4: string -> Option<Address>)
    requires h.Valid() && Reaches(h, q)
    ensures Resolve(h, q, decode6, decode4) == Reached(h, q, Subdomain(q.name, h.zone), decode6, decode4)
  {
  }

  /** Any question of a class other than IN: no records and NotImplemented, whatever its name or type. */
  lemma OtherClassNotImplemented(h: DNSHandler, q: Question,
                                 decode6: string -> Option<Address>, decode4: string -> Option<Address>)
    requires h.Valid() && q.qclass != ClassINET
    ensures Resolve(h, q, decode6, decode4) == Answer([], RcodeNotImplemented)
  {
  }

  /**
   * NotZone, with no records, is the answer exactly to class-IN questions
   * whose lower-cased name does not end with the zone string.
   */
  lemma NotZoneExactlyOutsideZone(h: DNSHandler, q: Question,
                                  decode6: string -> Option<Address>, decode4: string -> Option<Address>)
    requires h.Valid()
    ensures Resolve(h, q, decode6, decode4).rcode == RcodeNotZone
        <==> q.qclass == ClassINET && !InZone(q.name, h.zone)
    ensures Resolve(h, q, decode6, decode4).rcode == RcodeNotZone ==> Resolve(h, q, decode6, decode4).records == []
  {
  }

  /**
   * The subdomain is what is left of the lower-cased name: either it and
   * "." precede the zone, or it precedes the zone directly and does not end
   * in "." (the apex, and names such as `notexample.com.` that only share
   * the zone's characters).
   */
  lemma {:induction false} SubdomainSplitsName(name: string, zone: string)
    requires InZone(name, zone)
    ensures var sub := Subdomain(name, zone);
      || ToLower(name) == sub + "." + zone
      || (ToLower(name) == sub + zone && !HasSuffix(sub, "."))
  {
    var lower := ToLower(name);
    var rest := TrimSuffix(lower, zone);
    assert rest + zone == lower;
    var sub := TrimSuffix(rest, ".");
    if HasSuffix(rest, ".") {
      assert sub + "." == rest;
      assert lower == sub + "." + zone;
    }
  }

  /**
   * The usual case, the other way round: a lower-case label, a dot and the
   * zone make an in-zone name whose subdomain is the label.
   */
  lemma DottedLabel(h: DNSHandler, prefix: string)
    requires h.Valid() && IsLower(prefix)
    ensures InZone(prefix + "." + h.zone, h.zone)
    ensures Subdomain(prefix + "." + h.zone, h.zone) == prefix
  {
    var dotted := prefix + ".";
    var name := dotted + h.zone;
    ToLowerAppend(prefix, ".");
    ToLowerIsLower(prefix);
    assert ToLower(".") == ".";
    assert ToLower(dotted) == dotted;
    ToLowerAppend(dotted, h.zone);
    ToLowerIsLower(h.zone);
    assert ToLower(name) == name;
    assert name[|name| - |h.zone|..] == h.zone;
    assert name[..|name| - |h.zone|] == dotted;
    assert dotted[|dotted| - 1..] == ".";
    assert dotted[..|dotted| - 1] == prefix;
  }

  /**
   * The zone check does not look for a prefix boundary: a lower-case prefix
   * glued to the zone with no dot (`notexample.com.` under `example.com.`)
   * is in the zone, and its subdomain is the prefix, so `wwwexample.com.`
   * is answered as `www`.
   */
  lemma GluedLabel(h: DNSHandler, prefix: string)
    requires h.Valid() && IsLower(prefix) && !HasSuffix(prefix, ".")
    ensures InZone(prefix + h.zone, h.zone)
    ensures Subdomain(prefix + h.zone, h.zone) == prefix
  {
    var name := prefix + h.zone;
    ToLowerAppend(prefix, h.zone);
    ToLowerIsLower(prefix);
    ToLowerIsLower(h.zone);
    assert ToLower(name) == name;
    assert name[|name| - |h.zone|..] == h.zone;
    assert TrimSuffix(name, h.zone) == prefix;
  }

  /** Filling in the headers of the bare NS records gives the NS answer at the question name. */
  lemma NormalizeNSRecords(h: DNSHandler, q: Question)
    requires q.qtype == TypeNS
    ensures Normalize(NSRecords(h, q.qtype), q) == NSAnswer(h, q.name)
  {
  }

  /**
   * An NS question gets exactly the NS records for `alpha.<zone>` and, when
   * a second nameserver address is configured, `omega.<zone>`, at every
   * subdomain, existing or not; it is NameError exactly when no name rule
   * matches the subdomain.
   */
  lemma NSAtEverySubdomain(h: DNSHandler, q: Question, sub: string,
                           decode6: string -> Option<Address>, decode4: string -> Option<Address>)
    requires h.Valid() && q.qtype == TypeNS
    ensures Reached(h, q, sub, decode6, decode4).records == NSAnswer(h, q.name)
    ensures Reached(h, q, sub, decode6, decode4).rcode == RcodeNameError
        <==> !IsFixedName(sub) && decode6(sub).None? && decode4(sub).None?
  {
    var named := NameAnswer(h, q.qtype, sub, decode6, decode4);
    assert named.records == [];
    assert NSRecords(h, q.qtype) + named.records == NSRecords(h, q.qtype);
    NormalizeNSRecords(h, q);
  }

  /** The same for a whole in-zone question of class IN: NS records at every name. */
  lemma NSAtEveryName(h: DNSHandler, q: Question,
                      decode6: string -> Option<Address>, decode4: string -> Option<Address>)
    requires h.Valid() && Reaches(h, q) && q.qtype == TypeNS
    ensures Resolve(h, q, decode6, decode4).records == NSAnswer(h, q.name)
    ensures var sub := Subdomain(q.name, h.zone);
      var unmatched := !IsFixedName(sub) && decode6(sub).None? && decode4(sub).None?;
      Resolve(h, q, decode6, decode4).rcode == RcodeNameError <==> unmatched
  {
    ResolveReaching(h, q, decode6, decode4);
    NSAtEverySubdomain(h, q, Subdomain(q.name, h.zone), decode6, decode4);
  }

  /** With no NS records in front, the answer is the name rule's records with their headers filled in. */
  lemma ReachedOtherType(h: DNSHandler, q: Question, sub: string,
                         decode6: string -> Option<Address>, decode4: string -> Option<Address>)
    requires h.Valid() && q.qtype != TypeNS
    ensures var named := NameAnswer(h, q.qtype, sub, decode6, decode4);
      Reached(h, q, sub, decode6, decode4) == Answer(Normalize(named.records, q), named.rcode)
  {
    var named := NameAnswer(h, q.qtype, sub, decode6, decode4);
    assert NSRecords(h, q.qtype) + named.records == named.records;
  }

  /**
   * The apex never answers NameError. A and AAAA give one record per
   * configured website address of that family, in order; TXT gives one
   * record holding all the configured strings, or nothing; NS gives the
   * zone-wide NS records; every other type gives nothing.
   */
  lemma ApexNeverNameError(h: DNSHandler, q: Question,
                           decode6: string -> Option<Address>, decode4: string -> Option<Address>)
    requires h.Valid()
    ensures var r := Reached(h, q, "", decode6, decode4);
      && r.rcode == RcodeSuccess
      && (q.qtype == TypeA ==>
            |r.records| == |h.websiteA|
            && forall i :: 0 <= i < |h.websiteA| ==> r.records[i] == Final(q.name, TypeA, A(h.websiteA[i])))
      && (q.qtype == TypeAAAA ==>
            |r.records| == |h.websiteAAAA|
            && forall i :: 0 <= i < |h.websiteAAAA| ==> r.records[i] == Final(q.name, TypeAAAA, AAAA(h.websiteAAAA[i])))
      && (q.qtype == TypeTXT ==>
            r.records == if |h.rootTXT| > 0 then [Final(q.name, TypeTXT, TXT(h.rootTXT))] else [])
      && (q.qtype == TypeNS ==> r.records == NSAnswer(h, q.name))
      && (q.qtype !in {TypeA, TypeAAAA, TypeTXT, TypeNS} ==> r.records == [])
  {
    if q.qtype == TypeNS {
      NSAtEverySubdomain(h, q, "", decode6, decode4);
    } else {
      ReachedOtherType(h, q, "", decode6, decode4);
    }
  }

  /** Without a website address of either family, `www` does not exist for A, AAAA and CNAME. */
  lemma WwwWithoutWebsite(h: DNSHandler, q: Question,
                          decode6: string -> Option<Address>, decode4: string -> Option<Address>)
    requires h.Valid() && |h.websiteA| == 0 && |h.websiteAAAA| == 0
    requires q.qtype in {TypeA, TypeAAAA, TypeCNAME}
    ensures Reached(h, q, "www", decode6, decode4) == Answer([], RcodeNameError)
  {
    ReachedOtherType(h, q, "www", decode6, decode4);
  }

  /**
   * Once some website address is configured, `www` is an alias of the
   * apex: CNAME gives one CNAME record to the zone; A (and AAAA) give that
   * CNAME followed by one record per address of the family, owned by
   * `www.<zone>`, or nothing when the family has no address.
   */
  lemma WwwWithWebsite(h: DNSHandler, q: Question,
                       decode6: string -> Option<Address>, decode4: string -> Option<Address>)
    requires h.Valid() && (|h.websiteA| > 0 || |h.websiteAAAA| > 0)
    ensures var r := Reached(h, q, "www", decode6, decode4);
      && r.rcode == RcodeSuccess
      && (q.qtype == TypeCNAME ==> r.records == [Final(q.name, TypeCNAME, CNAME(h.zone))])
      && (q.qtype == TypeA ==>
            if |h.websiteA| == 0 then r.records == []
            else
              && |r.records| == 1 + |h.websiteA|
              && r.records[0] == Final(q.name, TypeCNAME, CNAME(h.zone))
              && forall i :: 0 <= i < |h.websiteA| ==>
                   r.records[i + 1] == Final("www." + h.zone, TypeA, A(h.websiteA[i])))
      && (q.qtype == TypeAAAA ==>
            if |h.websiteAAAA| == 0 then r.records == []
            else
              && |r.records| == 1 + |h.websiteAAAA|
              && r.records[0] == Final(q.name, TypeCNAME, CNAME(h.zone))
              && forall i :: 0 <= i < |h.websiteAAAA| ==>
                   r.records[i + 1] == Final("www." + h.zone, TypeAAAA, AAAA(h.websiteAAAA[i])))
  {
    if q.qtype == TypeNS {
      NSAtEverySubdomain(h, q, "www", decode6, decode4);
    } else {
      ReachedOtherType(h, q, "www", decode6, decode4);
      if q.qtype == TypeA && |h.websiteA| > 0 {
        WwwA(h, q, decode6, decode4);
      } else if q.qtype == TypeAAAA && |h.websiteAAAA| > 0 {
        WwwAAAA(h, q, decode6, decode4);
      }
    }
  }

  lemma WwwA(h: DNSHandler, q: Question,
             decode6: string -> Option<Address>, decode4: string -> Option<Address>)
    requires h.Valid() && |h.websiteA| > 0 && q.qtype == TypeA
    ensures var r := Reached(h, q, "www", decode6, decode4);
      && |r.records| == 1 + |h.websiteA|
      && r.records[0] == Final(q.name, TypeCNAME, CNAME(h.zone))
      && forall i :: 0 <= i < |h.websiteA| ==>
           r.records[i + 1] == Final("www." + h.zone, TypeA, A(h.websiteA[i]))
  {
    var addrs := ARecords("www." + h.zone, h.websiteA);
    ReachedOtherType(h, q, "www", decode6, decode4);
    var r := Reached(h, q, "www", decode6, decode4);
    assert r.records == Normalize([RR(RRHeader("", TypeCNAME, 0, 0), CNAME(h.zone))] + addrs, q);
    WwwAlias(q, h.zone, addrs);
    assert HeaderType(q.qtype) == TypeA;
    forall i | 0 <= i < |h.websiteA|
      ensures r.records[i + 1] == Final("www." + h.zone, TypeA, A(h.websiteA[i]))
    {
      assert addrs[i].data == A(h.websiteA[i]);
    }
  }

  lemma WwwAAAA(h: DNSHandler, q: Question,
                decode6: string -> Option<Address>, decode4: string -> Option<Address>)
    requires h.Valid() && |h.websiteAAAA| > 0 && q.qtype == TypeAAAA
    ensures var r := Reached(h, q, "www", decode6, decode4);
      && |r.records| == 1 + |h.websiteAAAA|
      && r.records[0] == Final(q.name, TypeCNAME, CNAME(h.zone))
      && forall i :: 0 <= i < |h.websiteAAAA| ==>
           r.records[i + 1] == Final("www." + h.zone, TypeAAAA, AAAA(h.websiteAAAA[i]))
  {
    var addrs := AAAARecords("www." + h.zone, h.websiteAAAA);
    ReachedOtherType(h, q, "www", decode6, decode4);
    var r := Reached(h, q, "www", decode6, decode4);
    assert r.records == Normalize([RR(RRHeader("", TypeCNAME, 0, 0), CNAME(h.zone))] + addrs, q);
    WwwAlias(q, h.zone, addrs);
    assert HeaderType(q.qtype) == TypeAAAA;
    forall i | 0 <= i < |h.websiteAAAA|
      ensures r.records[i + 1] == Final("www." + h.zone, TypeAAAA, AAAA(h.websiteAAAA[i]))
    {
      assert addrs[i].data == AAAA(h.websiteAAAA[i]);
    }
  }

  /** The `www` CNAME in front of address records that already name their owner. */
  lemma WwwAlias(q: Question, zone: string, addrs: seq<RR>)
    requires forall i :: 0 <= i < |addrs| ==> addrs[i].hdr == RRHeader("www." + zone, 0, 0, 0)
    ensures var r := Normalize([RR(RRHeader("", TypeCNAME, 0, 0), CNAME(zone))] + addrs, q);
      && |r| == 1 + |addrs|
      && r[0] == Final(q.name, TypeCNAME, CNAME(zone))
      && forall i :: 0 <= i < |addrs| ==> r[i + 1] == Final("www." + zone, HeaderType(q.qtype), addrs[i].data)
  {
    var raw := [RR(RRHeader("", TypeCNAME, 0, 0), CNAME(zone))] + addrs;
    forall i | 0 <= i < |addrs|
      ensures Normalize(raw, q)[i + 1] == Final("www." + zone, HeaderType(q.qtype), addrs[i].data)
    {
      assert raw[i + 1] == addrs[i];
    }
  }

  /**
   * `alpha` is the first nameserver: A gives its IPv4 address, AAAA its
   * IPv6 address if one is configured and nothing otherwise, never NameError.
   */
  lemma AlphaIsFirstNameserver(h: DNSHandler, q: Question,
                               decode6: string -> Option<Address>, decode4: string -> Option<Address>)
    requires h.Valid()
    ensures var r := Reached(h, q, "alpha", decode6, decode4);
      && r.rcode == RcodeSuccess
      && (q.qtype == TypeA ==> r.records == [Final(q.name, TypeA, A(h.nsA[0]))])
      && (q.qtype == TypeAAAA ==>
            r.records == if |h.nsAAAA| > 0 then [Final(q.name, TypeAAAA, AAAA(h.nsAAAA[0]))] else [])
  {
    if q.qtype == TypeNS {
      NSAtEverySubdomain(h, q, "alpha", decode6, decode4);
    } else {
      ReachedOtherType(h, q, "alpha", decode6, decode4);
    }
  }

  /**
   * `omega` is the second nameserver: A gives the second IPv4 address and
   * AAAA the second IPv6 address, each NameError when that list has only one.
   */
  lemma OmegaIsSecondNameserver(h: DNSHandler, q: Question,
                                decode6: string -> Option<Address>, decode4: string -> Option<Address>)
    requires h.Valid()
    ensures var r := Reached(h, q, "omega", decode6, decode4);
      && (q.qtype == TypeA ==>
            r == if |h.nsA| > 1 then Answer([Final(q.name, TypeA, A(h.nsA[1]))], RcodeSuccess)
                 else Answer([], RcodeNameError))
      && (q.qtype == TypeAAAA ==>
            r == if |h.nsAAAA| > 1 then Answer([Final(q.name, TypeAAAA, AAAA(h.nsAAAA[1]))], RcodeSuccess)
                 else Answer([], RcodeNameError))
  {
    if q.qtype != TypeNS {
      ReachedOtherType(h, q, "omega", decode6, decode4);
    }
  }

  /**
   * Past the fixed names, the IPv6 decoder is asked first: a decoded IPv6
   * address answers AAAA with that address and A with nothing, whatever the
   * IPv4 decoder would say.
   */
  lemma EmbeddedIPv6First(h: DNSHandler, q: Question, sub: string,
                          decode6: string -> Option<Address>, decode4: string -> Option<Address>)
    requires h.Valid() && !IsFixedName(sub) && decode6(sub).Some?
    ensures var r := Reached(h, q, sub, decode6, decode4);
      && r.rcode == RcodeSuccess
      && (q.qtype == TypeAAAA ==> r.records == [Final(q.name, TypeAAAA, AAAA(decode6(sub).value))])
      && (q.qtype == TypeA ==> r.records == [])
  {
    if q.qtype == TypeNS {
      NSAtEverySubdomain(h, q, sub, decode6, decode4);
    } else {
      ReachedOtherType(h, q, sub, decode6, decode4);
    }
  }

  /** Then the IPv4 decoder: a decoded IPv4 address answers A with that address and AAAA with nothing. */
  lemma EmbeddedIPv4(h: DNSHandler, q: Question, sub: string,
                     decode6: string -> Option<Address>, decode4: string -> Option<Address>)
    requires h.Valid() && !IsFixedName(sub) && decode6(sub).None? && decode4(sub).Some?
    ensures var r := Reached(h, q, sub, decode6, decode4);
      && r.rcode == RcodeSuccess
      && (q.qtype == TypeA ==> r.records == [Final(q.name, TypeA, A(decode4(sub).value))])
      && (q.qtype == TypeAAAA ==> r.records == [])
  {
    if q.qtype == TypeNS {
      NSAtEverySubdomain(h, q, sub, decode6, decode4);
    } else {
      ReachedOtherType(h, q, sub, decode6, decode4);
    }
  }

  /** A name no rule matches is NameError, with no records beyond the zone-wide NS ones. */
  lemma UnmatchedNameError(h: DNSHandler, q: Question, sub: string,
                           decode6: string -> Option<Address>, decode4: string -> Option<Address>)
    requires h.Valid() && !IsFixedName(sub) && decode6(sub).None? && decode4(sub).None?
    ensures Reached(h, q, sub, decode6, decode4).rcode == RcodeNameError
    ensures Reached(h, q, sub, decode6, decode4).records == if q.qtype == TypeNS then NSAnswer(h, q.name) else []
  {
    if q.qtype == TypeNS {
      NSAtEverySubdomain(h, q, sub, decode6, decode4);
    } else {
      ReachedOtherType(h, q, sub, decode6, decode4);
    }
  }

  /**
   * At a subdomain, NameError only ever comes from `www` without a website,
   * from `omega` without a second address of the asked family, or from a
   * name no rule matches; and then the only records are the zone-wide NS ones.
   */
  lemma NameErrorCausesAt(h: DNSHandler, q: Question, sub: string,
                          decode6: string -> Option<Address>, decode4: string -> Option<Address>)
    requires h.Valid() && Reached(h, q, sub, decode6, decode4).rcode == RcodeNameError
    ensures
      || (sub == "www" && |h.websiteA| == 0 && |h.websiteAAAA| == 0 && q.qtype in {TypeA, TypeAAAA, TypeCNAME})
      || (sub == "omega" && q.qtype == TypeA && |h.nsA| == 1)
      || (sub == "omega" && q.qtype == TypeAAAA && |h.nsAAAA| <= 1)
      || (!IsFixedName(sub) && decode6(sub).None? && decode4(sub).None?)
    ensures Reached(h, q, sub, decode6, decode4).records == if q.qtype == TypeNS then NSAnswer(h, q.name) else []
  {
    if q.qtype == TypeNS {
      NSAtEverySubdomain(h, q, sub, decode6, decode4);
    } else {
      ReachedOtherType(h, q, sub, decode6, decode4);
    }
  }

  /** The same for a whole question: NameError means it reached the name rules and one of those causes. */
  lemma NameErrorCauses(h: DNSHandler, q: Question,
                        decode6: string -> Option<Address>, decode4: string -> Option<Address>)
    requires h.Valid()
    requires Resolve(h, q, decode6, decode4).rcode == RcodeNameError
    ensures Reaches(h, q)
    ensures var sub := Subdomain(q.name, h.zone);
      || (sub == "www" && |h.websiteA| == 0 && |h.websiteAAAA| == 0 && q.qtype in {TypeA, TypeAAAA, TypeCNAME})
      || (sub == "omega" && q.qtype == TypeA && |h.nsA| == 1)
      || (sub == "omega" && q.qtype == TypeAAAA && |h.nsAAAA| <= 1)
      || (!IsFixedName(sub) && decode6(sub).None? && decode4(sub).None?)
    ensures Resolve(h, q, decode6, decode4).records == if q.qtype == TypeNS then NSAnswer(h, q.name) else []
  {
    ResolveReaching(h, q, decode6, decode4);
    NameErrorCausesAt(h, q, Subdomain(q.name, h.zone), decode6, decode4);
  }
}
