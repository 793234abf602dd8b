/**
 * The resolution engine of internal/server/handler.go: `ResolveRRs` maps one
 * question and the zone configuration to an ordered list of resource
 * records and a response code. Record types, classes, TTLs and response
 * codes are those of section 3.2 and 4.1.1 of RFC 1035; NotZone is RCODE 10
 * of section 2.2 of RFC 2136.
 *
 * The decoders of an address embedded in a subdomain (parseIPv6Subdomain
 * and parseIPv4Subdomain) are not part of this model: they are passed in as
 * functions and nothing is assumed about them.
 */
module Handler {
  import opened Wrappers
  import opened Strings
  import opened IP

  newtype uint16 = x: int | 0 <= x < 0x1_0000
  newtype uint32 = x: int | 0 <= x < 0x1_0000_0000

  const TypeA: uint16 := 1
  const TypeNS: uint16 := 2
  const TypeCNAME: uint16 := 5
  const TypeTXT: uint16 := 16
  const TypeAAAA: uint16 := 28

  const ClassINET: uint16 := 1

  const RcodeSuccess: int := 0
  const RcodeNameError: int := 3
  const RcodeNotImplemented: int := 4
  const RcodeNotZone: int := 10

  /** The TTL of every record the server gives out: one day. */
  const Ttl: uint32 := 86400

  datatype Question = Question(name: string, qtype: uint16, qclass: uint16)

  /** The header fields every record carries; zero or "" while not yet filled in. */
  datatype RRHeader = RRHeader(name: string, rrtype: uint16, rrclass: uint16, ttl: uint32)

  /** The record data of the five record types the server gives out. */
  datatype RData =
    | NS(ns: string)
    | A(a: Address)
    | AAAA(aaaa: Address)
    | CNAME(target: string)
    | TXT(txt: seq<string>)

  datatype RR = RR(hdr: RRHeader, data: RData)

  /** The type code that belongs to a record's data. */
  function TypeOf(data: RData): uint16 {
    match data
    case NS(_) => TypeNS
    case A(_) => TypeA
    case AAAA(_) => TypeAAAA
    case CNAME(_) => TypeCNAME
    case TXT(_) => TypeTXT
  }

  /** A header with nothing filled in. */
  const Blank := RRHeader("", 0, 0, 0)

  /**
   * The server's configuration. It is only read while answering: a value
   * passed to the resolver, which cannot change it.
   */
  datatype DNSHandler = DNSHandler(
    zone: string,
    websiteA: seq<Address>,
    websiteAAAA: seq<Address>,
    nsA: seq<Address>,
    nsAAAA: seq<Address>,
    rootTXT: seq<string>)
  {
    /**
     * What loading the configuration from the environment guarantees: a
     * non-empty lower-case zone ending in ".", one or two nameserver IPv4
     * addresses, and either no nameserver IPv6 address or as many as IPv4
     * ones.
     */
    predicate Valid() {
      && zone != [] && IsLower(zone) && zone[|zone| - 1] == '.'
      && 1 <= |nsA| <= 2
      && (|nsAAAA| == 0 || |nsAAAA| == |nsA|)
    }
  }

  /** The record list and the response code of one answer. */
  datatype Answer = Answer(records: seq<RR>, rcode: int)

  /** The zone check: a plain character suffix test on the lower-cased name. */
  predicate InZone(name: string, zone: string) {
    HasSuffix(ToLower(name), zone)
  }

  /** The lower-cased name with the zone and then one "." taken off its end. */
  function Subdomain(name: string, zone: string): string {
    TrimSuffix(TrimSuffix(ToLower(name), zone), ".")
  }

  /** A recognised name label: the apex, `www`, `alpha` or `omega`. */
  predicate IsFixedName(subdomain: string) {
    subdomain == "" || subdomain == "www" || subdomain == "alpha" || subdomain == "omega"
  }

  /** The zone-wide NS records, before their headers are filled in. */
  function NSRecords(h: DNSHandler, qtype: uint16): seq<RR> {
    if qtype != TypeNS then []
    else [RR(Blank, NS("alpha." + h.zone))] + if |h.nsA| > 1 then [RR(Blank, NS("omega." + h.zone))] else []
  }

  /** One A record per address, in order, owned by `owner` ("" until the header is filled in). */
  function ARecords(owner: string, addrs: seq<Address>): seq<RR> {
    seq(|addrs|, i requires 0 <= i < |addrs| => RR(RRHeader(owner, 0, 0, 0), A(addrs[i])))
  }

  /** One AAAA record per address, in order, owned by `owner`. */
  function AAAARecords(owner: string, addrs: seq<Address>): seq<RR> {
    seq(|addrs|, i requires 0 <= i < |addrs| => RR(RRHeader(owner, 0, 0, 0), AAAA(addrs[i])))
  }

  /**
   * A record as the name rules build it: its owner is unset or `www.<zone>`,
   * and its type is unset with data of the question's type, or preset to
   * CNAME on a CNAME record.
   */
  predicate IsRawRecord(rr: RR, qtype: uint16, zone: string) {
    && (rr.hdr.name == "" || rr.hdr.name == "www." + zone)
    && if rr.hdr.rrtype == 0 then TypeOf(rr.data) == qtype else rr.hdr.rrtype == TypeCNAME && rr.data.CNAME?
  }

  /** The apex: website addresses for A and AAAA, the configured strings for TXT; never NameError. */
  function ApexAnswer(h: DNSHandler, qtype: uint16): Answer {
    if qtype == TypeA then Answer(ARecords("", h.websiteA), RcodeSuccess)
    else if qtype == TypeAAAA then Answer(AAAARecords("", h.websiteAAAA), RcodeSuccess)
    else if qtype == TypeTXT && |h.rootTXT| > 0 then Answer([RR(Blank, TXT(h.rootTXT))], RcodeSuccess)
    else Answer([], RcodeSuccess)
  }

  /**
   * `www`: a CNAME to the apex, followed for A and AAAA by the apex's
   * addresses of that family; NameError for A, AAAA and CNAME when no
   * website address is configured.
   */
  function WwwAnswer(h: DNSHandler, qtype: uint16): Answer {
    var noWebsite := |h.websiteA| == 0 && |h.websiteAAAA| == 0;
    if qtype == TypeCNAME then
      if noWebsite then Answer([], RcodeNameError) else Answer([RR(Blank, CNAME(h.zone))], RcodeSuccess)
    else if qtype == TypeA then
      if noWebsite then Answer([], RcodeNameError)
      else if |h.websiteA| == 0 then Answer([], RcodeSuccess)
      else Answer([RR(RRHeader("", TypeCNAME, 0, 0), CNAME(h.zone))] + ARecords("www." + h.zone, h.websiteA), RcodeSuccess)
    else if qtype == TypeAAAA then
      if noWebsite then Answer([], RcodeNameError)
      else if |h.websiteAAAA| == 0 then Answer([], RcodeSuccess)
      else Answer([RR(RRHeader("", TypeCNAME, 0, 0), CNAME(h.zone))] + AAAARecords("www." + h.zone, h.websiteAAAA), RcodeSuccess)
    else Answer([], RcodeSuccess)
  }

  /** `alpha`: the first nameserver's addresses. */
  function AlphaAnswer(h: DNSHandler, qtype: uint16): Answer
    requires h.Valid()
  {
    if qtype == TypeA then Answer([RR(Blank, A(h.nsA[0]))], RcodeSuccess)
    else if qtype == TypeAAAA && |h.nsAAAA| > 0 then Answer([RR(Blank, AAAA(h.nsAAAA[0]))], RcodeSuccess)
    else Answer([], RcodeSuccess)
  }

  /** `omega`: the second nameserver's addresses, NameError for a family that has none. */
  function OmegaAnswer(h: DNSHandler, qtype: uint16): Answer {
    if qtype == TypeA then
      if |h.nsA| > 1 then Answer([RR(Blank, A(h.nsA[1]))], RcodeSuccess) else Answer([], RcodeNameError)
    else if qtype == TypeAAAA then
      if |h.nsAAAA| > 1 then Answer([RR(Blank, AAAA(h.nsAAAA[1]))], RcodeSuccess) else Answer([], RcodeNameError)
    else Answer([], RcodeSuccess)
  }

  /** Any other name: an embedded IPv6 address, else an embedded IPv4 address, else NameError. */
  function EmbeddedAnswer(qtype: uint16, subdomain: string,
                          decode6: string -> Option<Address>, decode4: string -> Option<Address>): Answer {
    match decode6(subdomain)
    case Some(v6) => Answer(if qtype == TypeAAAA then [RR(Blank, AAAA(v6))] else [], RcodeSuccess)
    case None =>
      match decode4(subdomain)
      case Some(v4) => Answer(if qtype == TypeA then [RR(Blank, A(v4))] else [], RcodeSuccess)
      case None => Answer([], RcodeNameError)
  }

  /**
   * The first name rule that matches `subdomain`, in order: apex, `www`,
   * `alpha`, `omega`, an embedded IPv6 address, an embedded IPv4 address,
   * otherwise NameError. Records come back with their headers unfilled; a
   * NameError never comes with records.
   */
  function NameAnswer(h: DNSHandler, qtype: uint16, subdomain: string,
                      decode6: string -> Option<Address>, decode4: string -> Option<Address>): (r: Answer)
    requires h.Valid()
    ensures r.rcode == RcodeSuccess || r.rcode == RcodeNameError
    ensures r.rcode == RcodeNameError ==> r.records == []
  {
    if |subdomain| == 0 then ApexAnswer(h, qtype)
    else if subdomain == "www" then WwwAnswer(h, qtype)
    else if subdomain == "alpha" then AlphaAnswer(h, qtype)
    else if subdomain == "omega" then OmegaAnswer(h, qtype)
    else EmbeddedAnswer(qtype, subdomain, decode6, decode4)
  }

  /** The header type the normalisation pass gives an unset record: the question type, if it is one of the five. */
  function HeaderType(qtype: uint16): uint16 {
    if qtype in {TypeA, TypeAAAA, TypeCNAME, TypeNS, TypeTXT} then qtype else 0
  }

  /**
   * The normalisation of one header: an unset owner becomes the question
   * name as received, an unset type the question type, and every record
   * gets class IN and the fixed TTL.
   */
  function FillHeader(rr: RR, q: Question): RR {
    RR(RRHeader(if rr.hdr.name == "" then q.name else rr.hdr.name,
                if rr.hdr.rrtype == 0 then HeaderType(q.qtype) else rr.hdr.rrtype,
                ClassINET, Ttl),
       rr.data)
  }

  function Normalize(raw: seq<RR>, q: Question): seq<RR> {
    seq(|raw|, i requires 0 <= i < |raw| => FillHeader(raw[i], q))
  }

  /** A list of records with the headers the normalisation pass leaves. */
  predicate IsNormalized(records: seq<RR>, q: Question, zone: string) {
    forall i :: 0 <= i < |records| ==>
      && records[i].hdr.rrclass == ClassINET && records[i].hdr.ttl == Ttl
      && records[i].hdr.rrtype == TypeOf(records[i].data)
      && (records[i].data.CNAME? || records[i].hdr.rrtype == q.qtype)
      && (records[i].hdr.name == q.name || records[i].hdr.name == "www." + zone)
  }

  lemma NormalizeRaw(raw: seq<RR>, q: Question, zone: string)
    requires forall i :: 0 <= i < |raw| ==> IsRawRecord(raw[i], q.qtype, zone)
    ensures IsNormalized(Normalize(raw, q), q, zone)
  {
  }

  lemma NSRecordsRaw(h: DNSHandler, qtype: uint16)
    ensures forall i :: 0 <= i < |NSRecords(h, qtype)| ==> IsRawRecord(NSRecords(h, qtype)[i], qtype, h.zone)
  {
  }

  /** Every record a name rule builds is raw: its owner and type are unset, or set by the `www` rule. */
  lemma NameAnswerRaw(h: DNSHandler, qtype: uint16, subdomain: string,
                      decode6: string -> Option<Address>, decode4: string -> Option<Address>)
    requires h.Valid()
    ensures var r := NameAnswer(h, qtype, subdomain, decode6, decode4);
      forall i :: 0 <= i < |r.records| ==> IsRawRecord(r.records[i], qtype, h.zone)
  {
  }

  /**
   * The answer to an in-zone question of class IN whose name leaves
   * `subdomain`: the zone-wide NS records then the first matching name
   * rule's records, with their headers filled in, and that rule's code.
   */
  function Reached(h: DNSHandler, q: Question, subdomain: string,
                   decode6: string -> Option<Address>, decode4: string -> Option<Address>): Answer
    requires h.Valid()
  {
    var named := NameAnswer(h, q.qtype, subdomain, decode6, decode4);
    Answer(Normalize(NSRecords(h, q.qtype) + named.records, q), named.rcode)
  }

  /**
   * The answer ResolveRRs gives: no records with NotImplemented for a class
   * other than IN, no records with NotZone outside the zone, otherwise the
   * answer reached at the name's subdomain.
   */
  function Resolve(h: DNSHandler, q: Question,
                   decode6: string -> Option<Address>, decode4: string -> Option<Address>): (r: Answer)
    requires h.Valid()
    ensures r.rcode in {RcodeSuccess, RcodeNameError, RcodeNotImplemented, RcodeNotZone}
    ensures r.rcode in {RcodeNotImplemented, RcodeNotZone} ==> r.records == []
  {
    if q.qclass != ClassINET then Answer([], RcodeNotImplemented)
    else if !InZone(q.name, h.zone) then Answer([], RcodeNotZone)
    else Reached(h, q, Subdomain(q.name, h.zone), decode6, decode4)
  }

  lemma ReachedNormalized(h: DNSHandler, q: Question, subdomain: string,
                          decode6: string -> Option<Address>, decode4: string -> Option<Address>)
    requires h.Valid()
    ensures IsNormalized(Reached(h, q, subdomain, decode6, decode4).records, q, h.zone)
  {
    var named := NameAnswer(h, q.qtype, subdomain, decode6, decode4);
    var ns := NSRecords(h, q.qtype);
    NSRecordsRaw(h, q.qtype);
    NameAnswerRaw(h, q.qtype, subdomain, decode6, decode4);
    var raw := ns + named.records;
    forall i | 0 <= i < |raw|
      ensures IsRawRecord(raw[i], q.qtype, h.zone)
    {
      if i >= |ns| {
        assert raw[i] == named.records[i - |ns|];
      }
    }
    NormalizeRaw(raw, q, h.zone);
  }

  /**
   * Whatever the question, every record of the answer has class IN and TTL
   * 86400, a type that matches its data and that is the question type
   * unless the record is a CNAME, and an owner that is the question name as
   * received or `www.<zone>`.
   */
  lemma ResolveNormalized(h: DNSHandler, q: Question,
                          decode6: string -> Option<Address>, decode4: string -> Option<Address>)
    requires h.Valid()
    ensures IsNormalized(Resolve(h, q, decode6, decode4).records, q, h.zone)
  {
    if q.qclass == ClassINET && InZone(q.name, h.zone) {
      ReachedNormalized(h, q, Subdomain(q.name, h.zone), decode6, decode4);
    }
  }

  lemma ARecordsAppend(owner: string, addrs: seq<Address>, i: nat)
    requires i < |addrs|
    ensures ARecords(owner, addrs[..i + 1]) == ARecords(owner, addrs[..i]) + [RR(RRHeader(owner, 0, 0, 0), A(addrs[i]))]
  {
  }

  lemma AAAARecordsAppend(owner: string, addrs: seq<Address>, i: nat)
    requires i < |addrs|
    ensures AAAARecords(owner, addrs[..i + 1]) == AAAARecords(owner, addrs[..i]) + [RR(RRHeader(owner, 0, 0, 0), AAAA(addrs[i]))]
  {
  }

  /** The `for ... range addrs { records = append(records, &dns.A{...}) }` loops. */
  method AppendARecords(records: seq<RR>, owner: string, addrs: seq<Address>) returns (out: seq<RR>)
    ensures out == records + ARecords(owner, addrs)
  {
    out := records;
    for i := 0 to |addrs|
      invariant out == records + ARecords(owner, addrs[..i])
    {
      ARecordsAppend(owner, addrs, i);
      out := out + [RR(RRHeader(owner, 0, 0, 0), A(addrs[i]))];
    }
    assert addrs[..|addrs|] == addrs;
  }

  /** The same loops for AAAA records. */
  method AppendAAAARecords(records: seq<RR>, owner: string, addrs: seq<Address>) returns (out: seq<RR>)
    ensures out == records + AAAARecords(owner, addrs)
  {
    out := records;
    for i := 0 to |addrs|
      invariant out == records + AAAARecords(owner, addrs[..i])
    {
      AAAARecordsAppend(owner, addrs, i);
      out := out + [RR(RRHeader(owner, 0, 0, 0), AAAA(addrs[i]))];
    }
    assert addrs[..|addrs|] == addrs;
  }

  /**
   * The chain of name rules of ResolveRRs: appends the records of the first
   * rule that matches `subdomain` to `records` and sets the response code.
   */
  method AppendNameRecords(h: DNSHandler, qtype: uint16, subdomain: string,
                           decode6: string -> Option<Address>, decode4: string -> Option<Address>,
                           records: seq<RR>)
    returns (out: seq<RR>, code: int)
    requires h.Valid()
    ensures out == records + NameAnswer(h, qtype, subdomain, decode6, decode4).records
    ensures code == NameAnswer(h, qtype, subdomain, decode6, decode4).rcode
  {
    out, code := records, RcodeSuccess;
    if |subdomain| == 0 { // the apex: never NameError
      if qtype == TypeA {
        out := AppendARecords(out, "", h.websiteA);
      } else if qtype == TypeAAAA {
        out := AppendAAAARecords(out, "", h.websiteAAAA);
      } else if qtype == TypeTXT {
        if |h.rootTXT| > 0 {
          out := out + [RR(Blank, TXT(h.rootTXT))];
        }
      }
    } else if subdomain == "www" {
      if qtype == TypeCNAME {
        if |h.websiteA| == 0 && |h.websiteAAAA| == 0 {
          code := RcodeNameError;
        } else {
          out := out + [RR(Blank, CNAME(h.zone))];
        }
      } else if qtype == TypeA {
        if |h.websiteA| == 0 && |h.websiteAAAA| == 0 {
          code := RcodeNameError;
        } else if |h.websiteA| != 0 {
          // the CNAME comes first, then the A records of its target, owned by www.<zone>
          out := out + [RR(RRHeader("", TypeCNAME, 0, 0), CNAME(h.zone))];
          out := AppendARecords(out, "www." + h.zone, h.websiteA);
        }
      } else if qtype == TypeAAAA {
        if |h.websiteA| == 0 && |h.websiteAAAA| == 0 {
          code := RcodeNameError;
        } else if |h.websiteAAAA| != 0 {
          out := out + [RR(RRHeader("", TypeCNAME, 0, 0), CNAME(h.zone))];
          out := AppendAAAARecords(out, "www." + h.zone, h.websiteAAAA);
        }
      }
    } else if subdomain == "alpha" { // the first nameserver
      if qtype == TypeA {
        out := out + [RR(Blank, A(h.nsA[0]))];
      } else if qtype == TypeAAAA {
        if |h.nsAAAA| > 0 {
          out := out + [RR(Blank, AAAA(h.nsAAAA[0]))];
        }
      }
    } else if subdomain == "omega" { // the second nameserver
      if qtype == TypeA {
        if |h.nsA| > 1 {
          out := out + [RR(Blank, A(h.nsA[1]))];
        } else {
          code := RcodeNameError;
        }
      } else if qtype == TypeAAAA {
        if |h.nsAAAA| > 1 {
          out := out + [RR(Blank, AAAA(h.nsAAAA[1]))];
        } else {
          code := RcodeNameError;
        }
      }
    } else {
      var subdomainIPv6 := decode6(subdomain);
      if subdomainIPv6.Some? {
        if qtype == TypeAAAA {
          out := out + [RR(Blank, AAAA(subdomainIPv6.value))];
        }
      } else {
        var subdomainIPv4 := decode4(subdomain);
        if subdomainIPv4.Some? {
          if qtype == TypeA {
            out := out + [RR(Blank, A(subdomainIPv4.value))];
          }
        } else {
          code := RcodeNameError;
        }
      }
    }
  }

  /** The pass that makes the headers neat, record by record. */
  method FillHeaders(records: seq<RR>, question: Question) returns (out: seq<RR>)
    ensures out == Normalize(records, question)
  {
    out := records;
    for i := 0 to |out|
      invariant |out| == |records|
      invariant forall j :: 0 <= j < i ==> out[j] == FillHeader(records[j], question)
      invariant forall j :: i <= j < |records| ==> out[j] == records[j]
    {
      var header := out[i].hdr;
      if header.name == "" {
        header := header.(name := question.name);
      }
      if header.rrtype == 0 {
        if question.qtype == TypeA {
          header := header.(rrtype := TypeA);
        } else if question.qtype == TypeAAAA {
          header := header.(rrtype := TypeAAAA);
        } else if question.qtype == TypeCNAME {
          header := header.(rrtype := TypeCNAME);
        } else if question.qtype == TypeNS {
          header := header.(rrtype := TypeNS);
        } else if question.qtype == TypeTXT {
          header := header.(rrtype := TypeTXT);
        }
      }
      header := header.(rrclass := ClassINET, ttl := Ttl);
      out := out[i := out[i].(hdr := header)];
    }
  }

  /**
   * ResolveRRs: the class check, the zone check, the zone-wide NS records,
   * the first matching name rule, then the pass that fills in every
   * record's header. The configuration is only read.
   */
  method ResolveRRs(h: DNSHandler, question: Question,
                    decode6: string -> Option<Address>, decode4: string -> Option<Address>)
    returns (records: seq<RR>, code: int)
    requires h.Valid()
    ensures Answer(records, code) == Resolve(h, question, decode6, decode4)
  {
    if question.qclass != ClassINET {
      return [], RcodeNotImplemented;
    }
    if !HasSuffix(ToLower(question.name), h.zone) {
      return [], RcodeNotZone;
    }
    var subdomain := TrimSuffix(TrimSuffix(ToLower(question.name), h.zone), ".");
    assert InZone(question.name, h.zone);
    assert subdomain == Subdomain(question.name, h.zone);
    records := [];
    if question.qtype == TypeNS { // NS records exist everywhere in the zone, even at names that do not
      records := records + [RR(Blank, NS("alpha." + h.zone))];
      if |h.nsA| > 1 {
        records := records + [RR(Blank, NS("omega." + h.zone))];
      }
    }
    assert records == NSRecords(h, question.qtype);
    records, code := AppendNameRecords(h, question.qtype, subdomain, decode6, decode4, records);
    records := FillHeaders(records, question);
  }
}
