# geoipdb: ASN lookup, override precedence and the lookup cache

geoipdb finds the Autonomous System Number (ASN) of a public IPv4 address
and a description of that ASN. It asks three sources in a fixed order: the
local libgeoip ASN database, the ipinfo.io web service, and Team Cymru's
DNS service (for a description only). A description stored in an override
collection wins over anything a source said. Results of `LookupAsn` are
cached for one day in a two-way cache: an address-to-entry map, and an
ASN-to-addresses map kept consistent with it.

The model has five modules:

- `Wrappers` (`wrappers.dfy`): `Option` and `Result`.
- `IpUtils` (`iputils.dfy`): addresses as byte sequences with Go's 4- and
  16-byte forms, the two tables of non-global ranges, `IsLocalIP` with its
  loop, `ParseIP`, `IsIPv4` and `IsIPv6`. Range membership follows Go's
  `IPNet.Contains`: it compares masked bytes, and it is proved equal to "the
  first `length` bits agree".
- `Cache` (`cache.dfy`): the cache as a class with two map fields. Each
  method is proved to leave the state as a pure function of the old state.
  Lemmas about those functions prove that the two indices stay consistent,
  and prove what a later lookup sees.
- `Answers` (`answers.dfy`): the text rules applied to the sources'
  answers:
  - `strings.TrimSpace` with Go's Unicode white space;
  - splitting at the first space;
  - the ASN pattern `^AS[[:digit:]]+$`;
  - the TXT filter `.*\|`.
- `GeoipDb` (`geoipdb.dfy`):
  - input validation;
  - the three source lookups and the override lookup;
  - the precedence among the sources;
  - the cached lookup as a function of the cache state;
  - a `Handler` class whose methods work on a `Cache` object.

Inputs from outside the model:

- What a foreign call answered is an input: the name libgeoip returned, the
  HTTP outcome, the DNS answer section, and the state of the override
  collection.
- `net.ParseIP` is foreign. Its result is the input `parsed`, beside the
  address text.
- Clock readings are integer seconds. `LookupAsn` reads the clock twice in
  Go: once in the cache lookup and once when storing. So the method takes
  two readings, `now` and `later`.

Details of the code the model keeps:

- A Team Cymru answer loses everything up to and including the last `|`
  of each line, not only what comes before the first `|`: the pattern
  `.*\|` with leftmost-longest matching does that, and `DnsFilter` models
  it.
- In the code, a TXT record with no strings makes the Go runtime panic
  (`t.Txt[0]`). The model gives this case its own error, `IndexOutOfRange`.
  That error is not turned into a fallback description. The lookup reports
  it and the cache is not written.
- The ipinfo.io answer check runs `reASN` as compiled, with `^` and `$`
  anchoring at line breaks (`Answers.ReAsnMatches`). `GeoipDb.IpInfoLookup`,
  and the lookups built on it (`GeoipDb.LookupAsnUncached`,
  `GeoipDb.Resolve`, `GeoipDb.Handler.LookupAsn`), follow that. The whole-token check the
  authors evidently meant is `GeoipDb.IpInfoLookupIntended`; see
  "## Findings".

## Model

| member | source | states |
|---|---|---|
| IpUtils.To4 | iputils/iputils.go:100-101 | a 4-byte form exists exactly for a 4-byte address or a 16-byte address with the v4-in-v6 prefix, and has 4 bytes |
| IpUtils.To16 | iputils/iputils.go:109-110 | a 16-byte form exists exactly for 4- and 16-byte addresses, has 16 bytes, and keeps the 4-byte form |
| IpUtils.AnyContains | iputils/iputils.go:102-107 | the early-return loop over the table answers exactly whether some range holds the address |
| IpUtils.IsLocalIP | iputils/iputils.go:96-118 | the answer is `IsLocal`: nil is local; a 4-byte form is looked up in the IPv4 table; any other 16-byte form in the IPv6 table; else not local |
| IpUtils.ParseIP | iputils/iputils.go:138-145 | returns the parsed address and whether it has a 4-byte form; a nil parse is never IPv4 |
| IpUtils.IsIP | iputils/iputils.go:121-123 | true exactly when the parse returned an address |
| IpUtils.IsIPv4 | iputils/iputils.go:126-129 | true exactly for a parse to a 4-byte address or a 16-byte address with the v4-in-v6 prefix |
| IpUtils.IsIPv6 | iputils/iputils.go:132-135 | IPv6 implies the text parsed and is not IPv4; a parsed address is IPv6 exactly when it is not IPv4 |
| IpUtils.IpKinds | iputils/iputils.go:121-135 | a text that parsed is IPv4 or IPv6 and never both; one that did not is neither |
| IpUtils.NetworkNumber | iputils/iputils.go:103 | the network has a 4-byte form exactly when it is compared in 4 bytes, is kept as it is otherwise, and a mask within the network's bits stays within them |
| IpUtils.Contains | iputils/iputils.go:103-112 | a range whose network has a 4-byte form holds only addresses with one; any other range only addresses without one |
| IpUtils.TopBits | iputils/iputils.go:103 | the top b bits of two bytes agree exactly when each of those bits agrees |
| IpUtils.MaskedEqualBits | iputils/iputils.go:103 | the byte-by-byte masked comparison from byte i on holds exactly when every bit from 8i below the prefix length agrees |
| IpUtils.ContainsV4 | iputils/iputils.go:103 | an IPv4 range holds an address exactly when the first `length` bits of the address's 4-byte form equal the network's |
| IpUtils.ContainsV6 | iputils/iputils.go:112 | an IPv6 range holds a non-mapped 16-byte address exactly when their first `length` bits agree |
| IpUtils.TableOrderIrrelevant | iputils/iputils.go:61-76 | two tables with the same ranges classify every address alike |
| IpUtils.IsLocalIPv4Iff | iputils/iputils.go:100-107 | an address with a 4-byte form is local exactly when some IPv4 range matches it bit for bit |
| IpUtils.IsLocalIPv6Iff | iputils/iputils.go:109-117 | a 16-byte address without a 4-byte form is local exactly when some IPv6 range matches it bit for bit |
| IpUtils.V6NetworksAreNotMapped | iputils/iputils.go:82-93 | every IPv6 network except ::ffff:0:0 has no 4-byte form; that one collapses to 0.0.0.0 |
| IpUtils.MappedRangeNeverMatchesInV6Loop | iputils/iputils.go:85 | the range ::ffff:0:0/96 holds no address that reaches the IPv6 loop |
| IpUtils.LocalIPv4Examples | geoipdb_test.go:300-303 | 127.0.0.1, 10.5.6.4, 192.168.5.99 and 100.66.55.66 are local |
| IpUtils.GlobalIPv4Examples | geoipdb_test.go:292-296 | 8.8.8.8, 74.125.130.100, 1.1.1.1, 45.45.45.45 and 120.222.111.222 are not local |
| IpUtils.GlobalV4 | iputils/iputils.go:61-76 | a 4-byte address whose first byte starts no IPv4 range is in no IPv4 range |
| IpUtils.LocalV4 | iputils/iputils.go:100-107 | a 4-byte address that an IPv4 range holds under the mask, byte by byte, is local |
| IpUtils.LoopbackIPv6Example | geoipdb_test.go:305 | ::1 is local |
| IpUtils.UniqueLocalIPv6Example | geoipdb_test.go:304 | fd07:a47c:3742:823e:3b02:76:982b:463 is local |
| IpUtils.GlobalV6 | iputils/iputils.go:82-93 | a 16-byte address without a 4-byte form whose first byte starts no IPv6 range is in no IPv6 range |
| IpUtils.GlobalIPv6Example | geoipdb_test.go:297 | 2404:6800:4003:c01::64 is not local |
| Cache.StorePreservesConsistency | cache.go:65-89 | storing keeps the two indices consistent |
| Cache.LookupAfterStore | cache.go:79-83 | right after a store, the address is found with the stored pair, and it is expired exactly after one TTL |
| Cache.StoreLeavesOtherAddresses | cache.go:79-83 | a store changes no other address's lookup |
| Cache.StoreBuckets | cache.go:68-88 | after a store the address is in its ASN's bucket and in no other; other buckets are otherwise unchanged |
| Cache.RestoreLeavesOldBucket | cache.go:68-77 | re-storing under another ASN takes the address out of its old bucket: the bucket shrinks by one, and disappears exactly when it held only that address |
| Cache.TwoAddressesOneBucket | cache.go:84-88 | two different addresses stored under one ASN into an empty cache form exactly that ASN's bucket |
| Cache.StoreIntoEmpty | cache.go:84-88 | one address stored into an empty cache: its ASN is the only bucket, with that one member |
| Cache.PurgePreservesConsistency | cache.go:121-132 | purging an ASN keeps the indices consistent, leaves no entry with that ASN, makes its addresses miss, and keeps every other entry and bucket |
| Cache.BucketIsScan | cache.go:110-118 | in a consistent cache, the bucket of an ASN holds exactly the addresses whose entry names that ASN |
| Cache.Enumerate | cache.go:152-157 | the slice filled by the index loop lists each member of the set exactly once |
| Cache.Cache.constructor | cache.go:57-62 | a new cache is empty and consistent |
| Cache.Cache.Store | cache.go:65-89 | the new indices are the store functions of the old ones, which are consistent |
| Cache.Cache.DetachAddress | cache.go:69-71 | the first loop removes the address from every bucket |
| Cache.Cache.PruneEmptyBuckets | cache.go:73-77 | the second loop removes every empty bucket |
| Cache.Cache.LookupByIP | cache.go:97-105 | a found entry gives its pair, and it is expired exactly past its due time; a miss gives ("", "", false, false) |
| Cache.Cache.LookupByASN | cache.go:110-118 | the bucket of the ASN, empty for an unknown ASN: exactly the addresses cached under it |
| Cache.Cache.DropEntriesOf | cache.go:125-129 | the loop deletes exactly the entries with that ASN |
| Cache.Cache.PurgeASN | cache.go:121-132 | the entries of the ASN and its bucket are gone, everything else is kept, and the indices stay consistent |
| Cache.Cache.PurgeAll | cache.go:135-144 | both indices are empty |
| Cache.Cache.AsnList | cache.go:149-159 | every ASN with a bucket exactly once, as many as there are buckets |
| Answers.IsSpace | geoipdb.go:132 | in the Latin-1 range, white space is exactly tab, line feed, vertical tab, form feed, carriage return, space, U+0085 and U+00A0 |
| Answers.TrimLeft | geoipdb.go:132 | the result is a suffix; what it drops is white space; it does not start with white space |
| Answers.TrimRight | geoipdb.go:132 | the result is a prefix; what it drops is white space; it does not end with white space |
| Answers.TrimSpace | geoipdb.go:264 | neither end of the result is white space |
| Answers.TrimSpaceSlice | geoipdb.go:264 | the result is a slice of the input, and everything outside that slice is white space |
| Answers.TrimSpaceNoPipe | geoipdb.go:332 | no pipe survives trimming a text without one |
| Answers.TrimSpaceEmpty | geoipdb.go:265 | the result is empty exactly when the input is all white space |
| Answers.TrimSpaceIdempotent | geoipdb.go:332 | trimming twice is trimming once |
| Answers.IndexOf | geoipdb.go:136 | the first position of a character, or none exactly when it does not occur |
| Answers.LastIndexOf | geoipdb.go:65 | the last position of a character, or none exactly when it does not occur |
| Answers.SplitFirstSpace | geoipdb.go:136-140 | with a space, first + " " + rest is the input and first has no space; without one, the pair is (input, "") |
| Answers.SplitTrimmed | geoipdb.go:268-277 | splitting a non-empty trimmed answer gives a non-empty first token without spaces, a rest that is empty exactly when there was no space, and the pieces join back |
| Answers.IsAsn | geoipdb.go:62 | the whole-token reading of the pattern; such a token holds no white space and no pipe |
| Answers.ReAsnMatches | geoipdb.go:62 | the pattern as compiled, with line anchors: it accepts every ASN, and on text without a line break exactly the ASNs |
| Answers.ReAsnAcceptsMultiLineToken | geoipdb.go:62 | the compiled pattern accepts "error\nAS15169", which is not an ASN |
| Answers.StripThroughLastPipe | geoipdb.go:65 | the result has no pipe; without one the line is unchanged; with one, the line is a prefix, a pipe and the result |
| Answers.DnsFilter | geoipdb.go:65 | the filtered text has no pipe, is no longer than the input, and is the input when the input has no pipe |
| Answers.DnsFilterOneLine | geoipdb.go:330-333 | a one-line TXT string keeps exactly what follows its last pipe |
| Answers.DnsFilterKeepsTail | geoipdb.go:332 | a line whose last pipe ends its head filters to its tail |
| Answers.LastPipeAt | geoipdb.go:65 | with pipe at k and none after it, the filter keeps what follows k |
| Answers.CymruAnswerExample | geoipdb.go:332 | the sample origin answer for AS15169, five fields separated by pipes, becomes its last field "GOOGLE - Google Inc., US" |
| GeoipDb.LookupError.Message | geoipdb.go:76-80 | the error texts of the code (geoipdb.go:223, 257, 262, 266, 272, 311, 314, 328 and 335 besides the three fixed errors), none empty; the text of `IndexOutOfRange` is the Go runtime's panic message, which the code never returns as a value |
| GeoipDb.CheckInput | geoipdb.go:158-167 | malformed exactly for a nil parse, IPv6 exactly for a parse without a 4-byte form, private exactly for a local IPv4 address, and no error exactly for a public IPv4 address |
| GeoipDb.LibGeoipLookup | geoipdb.go:123-141 | ("", "") for a non-IPv4, local or empty answer; otherwise a non-empty first token without spaces that joins with the rest into the trimmed name, the rest empty exactly when there was no space |
| GeoipDb.IpInfoUrl | geoipdb.go:254 | the query URL is "http://ipinfo.io/", the address and "/org", and the address can be read back from it |
| GeoipDb.IpInfoLookup | geoipdb.go:240-278 | the input errors first, then the GET, read and empty-answer errors; a success exactly when the compiled pattern accepts the first token of the trimmed body; a success joins back into the trimmed body |
| GeoipDb.IpInfoLookupIntended | geoipdb.go:268-273 | the lookup with the whole-token ASN check: a success exactly when the first token of the trimmed body is an ASN; every failure of the lookup as written is kept |
| GeoipDb.IpInfoOneLineAgrees | geoipdb.go:62 | on a body without a line break the lookup as written and the intended one give the same result |
| GeoipDb.IpInfoAcceptsMultiLineToken | geoipdb.go:271 | the body "error\nAS15169 x" is accepted as written, with the ASN "error\nAS15169" and the description "x", and refused by the intended check |
| GeoipDb.IpInfoAccepts | geoipdb.go:268-277 | a trimmed body whose first token the pattern accepts is the answer, split at its first space |
| GeoipDb.FirstTxt | geoipdb.go:330-335 | none exactly when the answer section has no TXT record |
| GeoipDb.FirstTxtIsFirst | geoipdb.go:330-331 | the strings are those of a TXT record with no TXT record before it |
| GeoipDb.CymruLookup | geoipdb.go:309-336 | the error cases in order: empty ASN, uninitialized client, failed exchange, no TXT answer, the index panic; a success exactly when a TXT record with a string exists; its value has no pipe and no white space at either end, and for a one-line first string it is that string without everything through its last pipe, trimmed |
| GeoipDb.CymruKeepsLastField | geoipdb.go:330-333 | a one-line first TXT string whose last pipe is at k gives what follows k, trimmed |
| GeoipDb.CymruOriginExample | geoipdb.go:330-335 | the origin answer for AS15169 gives "GOOGLE - Google Inc., US" |
| GeoipDb.OverridesLookup | overrides.go:56-69 | found exactly for an ASN in the collection, with its name; the nil-collection error exactly without a collection; not-found exactly for an ASN outside it |
| GeoipDb.GetOverridenDescr | geoipdb.go:341-350 | the override when the lookup succeeded, whatever the fallback; the fallback on every error |
| GeoipDb.Precedence | geoipdb.go:197-232 | a success names a non-empty ASN taken from libgeoip or a successful ipinfo.io answer, with a found override as its description; the only failures are the unknown ASN and the TXT index panic |
| GeoipDb.Describe | geoipdb.go:341-349 | getOverridenDescr as the code calls it: the collection's name for the ASN when it has one, else the fallback |
| GeoipDb.LookupAsnUncached | geoipdb.go:185-233 | a success names a non-empty ASN, and its description is the ASN's override when there is one |
| GeoipDb.BareAsn | geoipdb.go:216-224 | the kept ASN is non-empty exactly when libgeoip or a successful ipinfo.io lookup named one |
| GeoipDb.SourcePrecedence | geoipdb.go:197-224 | a complete libgeoip pair wins; else a complete ipinfo.io pair, even over a bare libgeoip ASN; else a bare ASN with libgeoip first; an unknown ASN exactly when no source names one |
| GeoipDb.AsnFoundMeansSuccess | geoipdb.go:225-232 | once an ASN is known the result is a success unless the TXT index panics; a failed Cymru lookup leaves the override or "" as the description |
| GeoipDb.OverrideWins | geoipdb.go:200-232 | overrides change only descriptions: success, failure and ASN are those without a collection; a found override is the description, otherwise the source's description stands |
| GeoipDb.OverrideExample | geoipdb_test.go:253-262 | with an override for AS15169, a libgeoip answer (AS15169, Google Inc.) gets the override's description; without a collection it keeps its own |
| GeoipDb.UncachedIsPrecedence | geoipdb.go:185-233 | for a public IPv4 address the uncached lookup is the precedence over the three answers, with Team Cymru asked about the bare ASN |
| GeoipDb.InputErrorsFirst | geoipdb.go:186-195 | an input error is the result whatever the sources say; ipinfo.io reports it too, and libgeoip gives ("", "") |
| GeoipDb.AsnComesFromASource | geoipdb.go:197-224 | the ASN of a success is libgeoip's, or the ASN of a successful ipinfo.io lookup whose first token the compiled pattern accepted |
| GeoipDb.UnknownAsnExample | geoipdb_test.go:353 | 1.1.1.1 with no libgeoip name, a prose answer from ipinfo.io and a failed DNS query gives an unknown ASN for '1.1.1.1' |
| GeoipDb.UnknownAsnMessage | geoipdb.go:223 | the message for 1.1.1.1 reads "unknown ASN for ip '1.1.1.1'" |
| GeoipDb.PublicSample | geoipdb_test.go:353 | 1.1.1.1 passes validation |
| GeoipDb.IpInfoRefusesText | geoipdb.go:269-273 | an ipinfo.io answer in prose is refused |
| GeoipDb.IpInfoRefusesNonAsn | geoipdb.go:268-273 | a one-line body with non-space ends whose first character is not 'A' is refused, since the pattern accepts no such token |
| GeoipDb.InputErrorExamples | geoipdb_test.go:351-365 | a nil parse is malformed; 192.168.0.101, 10.0.45.98 and 127.0.0.1 are refused as private |
| GeoipDb.PrivateSamples | geoipdb_test.go:336-342 | 192.168.0.101 and 10.0.45.98 are local |
| GeoipDb.PrivateAddress | geoipdb.go:165-167 | a local IPv4 address is refused as private |
| GeoipDb.IPv6Refused | geoipdb.go:162-164 | a 16-byte parse without a 4-byte form is refused as IPv6 |
| GeoipDb.Resolve | geoipdb.go:157-182 | only an error-free reply with a non-empty ASN is stored; an error reply is ("", "") and stores nothing; when every cached entry names an ASN, so does every error-free reply |
| GeoipDb.ResolveKeepsNamedEntries | geoipdb.go:173-181 | a store made by the lookup keeps every cached entry naming an ASN |
| GeoipDb.InputErrorsBypassCache | geoipdb.go:158-167 | an input error is the reply whatever the cache holds, and nothing is stored |
| GeoipDb.CacheHitIgnoresSources | geoipdb.go:169-172 | a fresh cache entry is the reply, whatever the sources and overrides say, and nothing is stored |
| GeoipDb.MissRunsUncachedLookup | geoipdb.go:173-181 | on a miss or an expired entry, the reply is the uncached lookup's, stored exactly when it succeeded |
| GeoipDb.StoredReplyLastsOneDay | geoipdb.go:151 | a stored reply is served from the cache until one TTL has passed, whatever the sources say then; after that the address is resolved again |
| GeoipDb.Handler.constructor | geoipdb.go:103-116 | a new handler has an empty, consistent cache, in which every entry names an ASN, and an initialized Cymru client |
| GeoipDb.Handler.LookupAsn | geoipdb.go:157-182 | an error-free reply names an ASN, and every cached entry keeps naming one; the reply is `Resolve` of the old cache; the cache gains the reply stored at the second clock reading exactly when `Resolve` stores; otherwise it is unchanged |
| GeoipDb.Handler.LookupIp | geoipdb.go:362-371 | the addresses cached under the ASN, each exactly once, as many as the bucket holds (none for an unknown ASN) |
| GeoipDb.Handler.AsnCacheList | geoipdb.go:376-378 | every cached ASN exactly once |
| GeoipDb.Handler.AsnCachePurge | geoipdb.go:353-356 | both cache indices are empty |

## Left out

- Foreign calls are inputs of the model. This covers the libgeoip database
  (`geoip.OpenType`, `GetName`), the HTTP GET of ipinfo.io and its body read,
  the DNS exchange with 8.8.8.8:53, and MongoDB behind the override
  collection. The failure of `NewHandler` to open the database is left out
  with them.
- `net.ParseIP` and `net.ParseCIDR` are not modelled. In `iputils.go`, the
  `init()` loops parse the range texts with `net.ParseCIDR`. The model gives
  the tables already parsed, as network bytes and a prefix length.
- `overrides.go` is left out apart from the outcome mapping of
  `OverridesLookup`. It is a thin layer over MongoDB: `OverridesAdd`,
  `OverridesRemove` and `OverridesList` check for a nil collection, forward
  to MongoDB and map its errors (a missing record on remove is no error). The
  collection's state is an input of each lookup, because it can change between
  calls.
- Timeouts are not modelled: no value is given to `h.timeout` or the DNS
  client's timeout. Their effect is a failed outcome, which is an input.
- Concurrency is left out. The cache's `sync.RWMutex` is locked on a copy
  of the value receiver, and calls are modelled one at a time.
- Logging is left out: every `log.Printf` and `log.Println`.
- Map iteration order is left out. `Cache.Cache.AsnList`,
  `GeoipDb.Handler.LookupIp` and `Cache.Enumerate` state which elements the
  list holds and that each appears once, not their order.
- The inner map returned by `lookupByASN` is returned by reference, so it
  aliases the cache's own map. The model returns the set by value. This makes
  no difference here because `LookupIp` copies it at once.
- The DNS query has its own details: the message id, the recursion flag, and
  the question's class and type. None of them is modelled. Only the first
  string of the first TXT record is used, as in the code.
- `GeoipDb.LookupAsnUncached` evaluates the answers of all three sources as
  inputs. The code asks ipinfo.io and Team Cymru only when the earlier
  sources fell short. That does not change a result, because the model does
  not observe the calls themselves.
- Time is modelled as integer seconds. Go's `time.Now().After(due)` becomes
  the strict `now > due`.
- Strings are sequences of Unicode code points. Go's strings are bytes,
  and `strings.TrimSpace` and `regexp` decode them as UTF-8. So a name from
  libgeoip, an HTTP body or a TXT string holding a byte that is not valid
  UTF-8 cannot be written as an input of the model.
- The regular expressions are not modelled by a general engine. Only the two
  patterns the code compiles are modelled, with the POSIX semantics Go gives
  them:
  - `.` does not match a line break;
  - `^` and `$` anchor at line boundaries;
  - matching is leftmost-longest.

## Findings

| source | as written | input that shows it | evidently intended | confidence | as-written member | corrected member |
|---|---|---|---|---|---|---|
| geoipdb.go:62 | `regexp.MustCompilePOSIX("^AS[[:digit:]]+$")` compiles without the one-line flag, so `^` and `$` match at line breaks and `reASN.MatchString` accepts a token when any of its lines is an ASN | an ipinfo.io body "error\nAS15169 x" trims to a first token "error\nAS15169", and the compiled pattern accepts it | the whole first token must be "AS" followed by digits | medium, not executed | GeoipDb.IpInfoLookup with Answers.ReAsnMatches (counterexample: GeoipDb.IpInfoAcceptsMultiLineToken, Answers.ReAsnAcceptsMultiLineToken) | GeoipDb.IpInfoLookupIntended with Answers.IsAsn (agrees on one-line bodies: GeoipDb.IpInfoOneLineAgrees) |
