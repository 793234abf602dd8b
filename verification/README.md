# backname resolver, modelled in Dafny

backname is an authoritative DNS server for one zone. A name in the zone
resolves to an IP address when the address decoders accept its subdomain (the
part before the zone), and a handful of fixed names exist besides:
- the apex, which holds the website addresses and TXT strings;
- `www`, an alias of the apex;
- `alpha` and `omega`, the two nameservers.

This project models the resolution engine (`DNSHandler.ResolveRRs`) and the
two address-part parsers (`parseIPv4`, `parseIPv6`), and proves what they
answer.

- `wrappers.dfy`: `Option` and `Result`.
- `strings.dfy`: the parts of Go's `strings` package the resolver calls.
  - `ToLower`, on ASCII letters.
  - `HasSuffix` and `TrimSuffix`.
  - `ToUpper` is not called by the resolver. Only the lemmas about hexadecimal
    digits of either case use it.
- `strconv.dfy`: Go's `strconv.ParseUint` for an explicit base and bit size.
  - Its error kinds: a syntax error, or a range error.
  - The first problem met is the one reported.
  - `FormatUint` is written out only to state the round trip.
  - Lemmas: what `ParseUint` accepts and returns, the round trip, and
    upper-case digits reading the same.
- `ip.dfy`: `parseIPv4` and `parseIPv6` as methods.
  - Each fills a fresh byte array in a loop with invariants.
  - Each returns exactly what the spec functions `IPv4FromParts` and
    `IPv6FromParts` give.
  - Lemmas about those functions: when they succeed, the bytes they
    produce, which error they report, and the text round trips.
- `handler.dfy`: the resolver.
  - `DNSHandler` is the configuration. `ResolveRRs` only reads it, so it is
    a datatype.
  - `DNSHandler.Valid()` is what loading it from the environment
    guarantees: a non-empty lower-case zone ending in `.`, one or two
    nameserver IPv4 addresses, and no nameserver IPv6 address or as many
    as IPv4 ones.
  - The `ResolveRRs` method follows the source step by step:
    - the class check, then the zone check;
    - the zone-wide NS records;
    - the chain of name rules (`AppendNameRecords`);
    - the header pass (`FillHeaders`).
  - It is proved to return `Resolve`, the specification function.
  - `Resolve` is built from the same pieces as the method:
    - `NameAnswer`, the first matching name rule, with headers left unset;
    - `NSRecords`;
    - `Normalize`, the header pass.
  - `Reached` is the answer once the class and zone checks pass.
- `handler_properties.dfy`: what the resolver promises, as lemmas about
  `Resolve` and `Reached`.
  - `ResolveReaching` says that `Resolve` is `Reached` at the question's
    subdomain for every question that passes both checks.

Names are compared after ASCII lower-casing, against the zone as a bare
character suffix. There is no label boundary, so `notexample.com.` lies in the
zone `example.com.`, with subdomain `not` (`GluedLabel`).

The NS records name `alpha.<zone>` and, with a second nameserver address,
`omega.<zone>`. The label `ns` matches no fixed-name rule, so it is answered
only if the address decoders accept it.

The two subdomain decoders (`parseIPv6Subdomain`, `parseIPv4Subdomain`) are
parameters, `decode6` and `decode4`. Every property holds whatever those
decoders return.

## Model

| member | source | states |
|---|---|---|
| `Strings.TrimSuffix` | internal/server/handler.go:99 | with the suffix present, the result followed by the suffix is the input; without it, the input comes back unchanged |
| `Strings.ToLowerIsLower` | internal/server/handler.go:24 | lower-casing yields a lower-case string and leaves one as it is, so the lower-cased zone is stable |
| `Strconv.ParseDigitsCorrect` | internal/server/ip.go:15 | the digit loop accepts exactly an all-digit string whose value fits, returns that value, and reports a syntax error only when a non-digit is present |
| `Strconv.ParseUintMeaning` | internal/server/ip.go:15 | ParseUint succeeds iff the string is non-empty, all digits of the base, and at most 2^bitSize-1; it then returns the positional value; empty is a syntax error, too large a range error, and every error carries the input |
| `Strconv.FormatUintValue` | internal/server/ip.go:30 | the digits FormatUint writes are non-empty, valid in the base and worth the number |
| `Strconv.FormatParseRoundTrip` | internal/server/ip.go:15 | ParseUint reads back FormatUint's text for every value that fits the bit size |
| `Strconv.ParseUintIgnoresCase` | internal/server/ip.go:30 | upper-casing the input does not change whether ParseUint succeeds or what it returns |
| `IP.ParseParts` | internal/server/ip.go:14-18 | the parts all parse iff the result is a success; then it has one value per part, each part's own parse |
| `IP.ParsePartsFailure` | internal/server/ip.go:14-18 | a failure is the error of a part that fails with every earlier part parsing |
| `IP.FirstFailure` | internal/server/ip.go:16-18 | when parts before i parse and part i fails, the result is part i's error |
| `IP.OctetParse` | internal/server/ip.go:15 | ParseUint(p, 10, 8) accepts exactly the decimal octets 0..255 and returns their value |
| `IP.HexGroupParse` | internal/server/ip.go:30 | ParseUint(p, 16, 16) accepts exactly the hexadecimal groups 0..0xFFFF and returns their value |
| `IP.ParseIPv4` | internal/server/ip.go:9-22 | the loop filling a fresh 4-byte array returns exactly IPv4FromParts(parts): the part-count error, the first bad part's error, or the address |
| `IP.ParseIPv6` | internal/server/ip.go:24-38 | the loop filling a fresh 16-byte array, high byte then low byte per group, returns exactly IPv6FromParts(parts) |
| `IP.IPv4FromPartsMeaning` | internal/server/ip.go:9-22 | not 4 parts is the part-count error; success iff every part is a decimal octet; then byte i is part i's value; otherwise the error is that of the first part that is not an octet |
| `IP.IPv6FromPartsMeaning` | internal/server/ip.go:24-38 | not 8 parts is the part-count error; success iff every part is a hexadecimal group; then bytes 2i and 2i+1 read as a 16-bit number give part i's value; otherwise the first bad part's error |
| `IP.IPv6GroupValues` | internal/server/ip.go:34-35 | the high and low byte stored for each group put the group back together |
| `IP.IPv4RoundTrip` | internal/server/ip.go:9-22 | every 4-byte address written as four decimal parts parses back to itself |
| `IP.IPv6RoundTrip` | internal/server/ip.go:24-38 | every 16-byte address written as eight hexadecimal groups parses back to itself |
| `IP.IPv6IgnoresCase` | internal/server/ip.go:30 | upper-case hexadecimal groups give the same outcome and the same address |
| `Handler.NameAnswer` | internal/server/handler.go:116-240 | the first matching name rule answers Success or NameError, and NameError never with records |
| `Handler.NameAnswerRaw` | internal/server/handler.go:116-240 | every record a name rule builds has an unset owner or `www.<zone>`, and an unset type with data of the question type, or a preset CNAME type on a CNAME |
| `Handler.Resolve` | internal/server/handler.go:86-267 | the response code is Success, NameError, NotImplemented or NotZone, and the last two come without records |
| `Handler.ResolveNormalized` | internal/server/handler.go:242-264 | every record answered has class IN, TTL 86400, a type matching its data that is the question type unless it is a CNAME, and the question name or `www.<zone>` as owner |
| `Handler.AppendARecords` | internal/server/handler.go:119-123 | the loop appends one A record per address, in order |
| `Handler.AppendAAAARecords` | internal/server/handler.go:125-129 | the loop appends one AAAA record per address, in order |
| `Handler.AppendNameRecords` | internal/server/handler.go:116-240 | the chain of name rules appends exactly the first matching rule's records and sets its code |
| `Handler.FillHeaders` | internal/server/handler.go:243-264 | the header pass leaves exactly Normalize(records, question) |
| `Handler.ResolveRRs` | internal/server/handler.go:86-267 | the method returns exactly Resolve's records and code for every valid configuration and question |
| `HandlerProperties.ResolveReaching` | internal/server/handler.go:94-114 | past the class and zone checks the answer is the one reached at the lower-cased name's subdomain |
| `HandlerProperties.OtherClassNotImplemented` | internal/server/handler.go:89-91 | any class other than IN gives no records and NotImplemented |
| `HandlerProperties.NotZoneExactlyOutsideZone` | internal/server/handler.go:93-96 | NotZone is answered iff the class is IN and the lower-cased name does not end with the zone, and then with no records |
| `HandlerProperties.SubdomainSplitsName` | internal/server/handler.go:99 | the lower-cased name is the subdomain, a dot and the zone, or the subdomain glued to the zone with no dot |
| `HandlerProperties.DottedLabel` | internal/server/handler.go:94-99 | a lower-case label, a dot and the zone is in the zone with that label as subdomain |
| `HandlerProperties.GluedLabel` | internal/server/handler.go:94-99 | a lower-case label glued to the zone with no dot is also in the zone, with that label as subdomain |
| `HandlerProperties.NSAtEverySubdomain` | internal/server/handler.go:105-114 | an NS question gets exactly the `alpha.<zone>` record and, with two nameserver addresses, the `omega.<zone>` one, at every subdomain; NameError iff no name rule matches |
| `HandlerProperties.NSAtEveryName` | internal/server/handler.go:105-114 | the same for whole in-zone questions of class IN |
| `HandlerProperties.ApexNeverNameError` | internal/server/handler.go:116-136 | the apex is always Success; A and AAAA give one record per website address of the family in order, TXT one record with all strings or none, NS the NS records, other types nothing |
| `HandlerProperties.WwwWithoutWebsite` | internal/server/handler.go:137-191 | with no website address, `www` is NameError with no records for A, AAAA and CNAME |
| `HandlerProperties.WwwWithWebsite` | internal/server/handler.go:137-191 | with a website address, `www` CNAME gives the CNAME to the zone; A and AAAA give that CNAME then one record per address owned by `www.<zone>`, or nothing for an empty family |
| `HandlerProperties.AlphaIsFirstNameserver` | internal/server/handler.go:192-204 | `alpha` A is the first nameserver IPv4 address, AAAA its IPv6 address or nothing, never NameError |
| `HandlerProperties.OmegaIsSecondNameserver` | internal/server/handler.go:205-223 | `omega` A and AAAA give the second address of the family, or NameError when there is none |
| `HandlerProperties.EmbeddedIPv6First` | internal/server/handler.go:224-230 | a name the IPv6 decoder accepts answers AAAA with that address and A with nothing, whatever the IPv4 decoder says |
| `HandlerProperties.EmbeddedIPv4` | internal/server/handler.go:231-237 | failing that, a name the IPv4 decoder accepts answers A with that address and AAAA with nothing |
| `HandlerProperties.UnmatchedNameError` | internal/server/handler.go:238-240 | a name no rule matches is NameError, with only the NS records for an NS question |
| `HandlerProperties.NameErrorCausesAt` | internal/server/handler.go:116-240 | NameError at a subdomain comes only from `www` without a website, `omega` without a second address, or an unmatched name, and carries only the NS records |
| `HandlerProperties.NameErrorCauses` | internal/server/handler.go:86-267 | the same for whole questions: NameError implies the question passed both checks |

## Left out

- `DNSHandler.InitFromEnv` (reading the environment, splitting comma lists, `net.ParseIP`, `log.Fatal`) is not modelled. The model keeps its guarantees as the predicate `DNSHandler.Valid()`, which `Resolve` and `ResolveRRs` require.
- Nothing in the program calls `InitFromEnv`. `main.go:11` builds the handler with `new(server.DNSHandler)`, and `ServeDNS` does not initialise it, so `Valid()` does not hold at the one call of `ResolveRRs` there. That handler has an empty zone, so every class-IN name is in the zone, and an `alpha` A question panics on the empty `nsA` (`internal/server/handler.go:196`). The model covers only configured handlers and leaves out both the empty-zone behaviour and that panic.
- Go strings are byte strings. The model uses character sequences, which coincide with them for the ASCII names DNS messages carry.
- `ServeDNS`, `main.go`, the message, the socket and the `log.Printf` call at the start of `ResolveRRs` are I/O and are left out.
- `parseIPv6Subdomain` and `parseIPv4Subdomain` are not part of this model. They are passed to the resolver as the functions `decode6` and `decode4`, so nothing is assumed about which labels they accept.
- `Strings.ToLower` and `Strings.ToUpper` fold ASCII letters only. Go's folding covers all of Unicode.
- miekg/dns record structs and their `Header()` pointers are modelled as immutable values. `FillHeaders` rebuilds each record rather than writing through a shared header.
- `Strconv.ParseUint` covers explicit bases 2 to 36 and bit sizes 1 to 64, the ones the parsers use. It leaves out base 0 (prefix detection and underscores) and Go's separate 64-bit overflow test. With unbounded integers, the bit-size test already catches everything that test would.
- The NS target is `alpha.<zone>` and the label `ns` is not a name rule, as the code has it. Where the test files expect otherwise, the model follows the code.
