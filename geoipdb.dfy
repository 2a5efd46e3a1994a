/** The ASN lookup of geoipdb: three sources (the libgeoip database,
    ipinfo.io and Team Cymru's DNS service) consulted in a fixed order, an
    override collection whose descriptions win, and the cache in front of it
    all. What a foreign service answered is an input of the model. */
module GeoipDb {
  import opened Wrappers
  import opened IpUtils
  import opened Answers
  import opened Cache

  /** The errors a lookup can report. */
  datatype LookupError =
    | MalformedIP
    | IPv6NotSupported
    | PrivateIP
    | UnknownAsn(ip: string)
    | GetFailed(url: string, reason: string)
    | ReadFailed(reason: string)
    | EmptyAnswer(url: string)
    | IpInfoFailed(ip: string, answer: string)
    | EmptyAsn
    | CymruNotInitialized
    | DnsFailed(reason: string)
    | NoTxtAnswer
      // The Go runtime panic of indexing a TXT record that holds no string.
    | IndexOutOfRange
  {
    /** The error text the caller sees; none is empty. */
    function Message(): (m: string)
      ensures m != ""
    {
      match this
      case MalformedIP => "malformed IP address"
      case IPv6NotSupported => "IPv6 not yet supported"
      case PrivateIP => "private IP address"
      case UnknownAsn(ip) => "unknown ASN for ip '" + ip + "'"
      case GetFailed(url, reason) => "failed to GET '" + url + "': " + reason
      case ReadFailed(reason) => "failed to read ipinfo.io response: " + reason
      case EmptyAnswer(url) => "GET '" + url + "' returned an empty answer"
      case IpInfoFailed(ip, answer) => "ipinfo.io lookup failed for '" + ip + "': " + answer
      case EmptyAsn => "empty asn parameter"
      case CymruNotInitialized => "cymruClient not initialized"
      case DnsFailed(reason) => "failed to query dns: " + reason
      case NoTxtAnswer => "not yet implemented"
      case IndexOutOfRange => "runtime error: index out of range [0] with length 0"
    }
  }

  /** The validation every lookup of an address starts with. */
  function CheckInput(parsed: Option<IP>): (r: Option<LookupError>)
    ensures r == Some(MalformedIP) <==> parsed.None?
    ensures r == Some(IPv6NotSupported) <==> parsed.Some? && !IsIPv4(parsed)
    ensures r == Some(PrivateIP) <==> IsIPv4(parsed) && IsLocal(parsed)
    ensures r == None <==> IsIPv4(parsed) && !IsLocal(parsed)
  {
    var (ip, is4) := ParseIP(parsed);
    if ip.None? then Some(MalformedIP)
    else if !is4 then Some(IPv6NotSupported)
    else if IsLocal(ip) then Some(PrivateIP)
    else None
  }

  // ---------------------------------------------------------------------
  // The sources

  /** The libgeoip lookup, given the name the database returned for the
      address: ("", "") for an address that is not public IPv4 or an empty
      name, else the name split at its first space. */
  function LibGeoipLookup(parsed: Option<IP>, geoName: string): (r: (string, string))
    ensures !IsIPv4(parsed) || IsLocal(parsed) || TrimSpace(geoName) == "" ==> r == ("", "")
    ensures IsIPv4(parsed) && !IsLocal(parsed) && TrimSpace(geoName) != "" ==>
      && r.0 != "" && ' ' !in r.0
      && Join(r.0, r.1) == TrimSpace(geoName)
      && (r.1 == "" <==> ' ' !in TrimSpace(geoName))
  {
    var (ip, is4) := ParseIP(parsed);
    if !is4 || IsLocal(ip) then ("", "")
    else
      var name := TrimSpace(geoName);
      if name == "" then ("", "")
      else
        SplitTrimmed(geoName);
        SplitFirstSpace(name)
  }

  /** What the HTTP GET of ipinfo.io produced. */
  datatype HttpOutcome = GetError(why: string) | ReadError(why: string) | Body(data: string)

  /** The URL of the ipinfo.io query; the address can be read back from it. */
  function IpInfoUrl(ip: string): (u: string)
    ensures |u| == |ip| + 21 && u[..17] == "http://ipinfo.io/" && u[17..|u| - 4] == ip && u[|u| - 4..] == "/org"
  {
    "http://ipinfo.io/" + ip + "/org"
  }

  /** The ipinfo.io lookup, given the HTTP outcome. An answer whose first
      token the compiled reASN refuses is the service's way of reporting an
      error. */
  function IpInfoLookup(ip: string, parsed: Option<IP>, http: HttpOutcome): (r: Result<(string, string), LookupError>)
    ensures CheckInput(parsed).Some? ==> r == Failure(CheckInput(parsed).value)
    ensures CheckInput(parsed).None? && http.GetError? ==> r == Failure(GetFailed(IpInfoUrl(ip), http.why))
    ensures CheckInput(parsed).None? && http.ReadError? ==> r == Failure(ReadFailed(http.why))
    ensures CheckInput(parsed).None? && http.Body? && TrimSpace(http.data) == "" ==> r == Failure(EmptyAnswer(IpInfoUrl(ip)))
    ensures r.Success? <==>
      CheckInput(parsed).None? && http.Body? && TrimSpace(http.data) != ""
      && ReAsnMatches(SplitFirstSpace(TrimSpace(http.data)).0)
    ensures r.Success? ==>
      && ReAsnMatches(r.value.0)
      && Join(r.value.0, r.value.1) == TrimSpace(http.data)
      && (r.value.1 == "" <==> ' ' !in TrimSpace(http.data))
  {
    match CheckInput(parsed)
    case Some(e) => Failure(e)
    case None =>
      match http
      case GetError(why) => Failure(GetFailed(IpInfoUrl(ip), why))
      case ReadError(why) => Failure(ReadFailed(why))
      case Body(data) =>
        var answer := TrimSpace(data);
        if answer == "" then Failure(EmptyAnswer(IpInfoUrl(ip)))
        else
          var (first, rest) := SplitFirstSpace(answer);
          if !ReAsnMatches(first) then Failure(IpInfoFailed(ip, answer))
          else
            SplitTrimmed(data);
            Success((first, rest))
  }

  /** The ipinfo.io lookup with the answer check its authors evidently meant:
      the whole first token is "AS" and digits. It also refuses a first token
      whose ASN is only one of its lines. */
  function IpInfoLookupIntended(ip: string, parsed: Option<IP>, http: HttpOutcome): (r: Result<(string, string), LookupError>)
    ensures r.Success? <==>
      CheckInput(parsed).None? && http.Body? && TrimSpace(http.data) != ""
      && IsAsn(SplitFirstSpace(TrimSpace(http.data)).0)
    ensures r.Success? ==>
      && IsAsn(r.value.0)
      && Join(r.value.0, r.value.1) == TrimSpace(http.data)
      && (r.value.1 == "" <==> ' ' !in TrimSpace(http.data))
    ensures IpInfoLookup(ip, parsed, http).Failure? ==> r == IpInfoLookup(ip, parsed, http)
  {
    match IpInfoLookup(ip, parsed, http)
    case Failure(e) => Failure(e)
    case Success((first, rest)) =>
      if IsAsn(first) then Success((first, rest)) else Failure(IpInfoFailed(ip, TrimSpace(http.data)))
  }

  /** On a body without a line break the two checks agree. */
  lemma IpInfoOneLineAgrees(ip: string, parsed: Option<IP>, data: string)
    requires '\n' !in data
    ensures IpInfoLookupIntended(ip, parsed, Body(data)) == IpInfoLookup(ip, parsed, Body(data))
  {
    FirstTokenOneLine(data);
  }

  /** The lookup as written accepts an error text whose first token has an
      ASN on its second line; the intended check refuses it. */
  lemma IpInfoAcceptsMultiLineToken(ip: string, parsed: Option<IP>)
    requires CheckInput(parsed).None?
    ensures IpInfoLookup(ip, parsed, Body("error\nAS15169 x")) == Success(("error\nAS15169", "x"))
    ensures IpInfoLookupIntended(ip, parsed, Body("error\nAS15169 x")).Failure?
  {
    MultiLineAnswerSplit();
    ReAsnAcceptsMultiLineToken();
    IpInfoAccepts(ip, parsed, "error\nAS15169 x", "error\nAS15169", "x");
  }

  /** A trimmed body whose first token the compiled pattern accepts is the
      answer, split at its first space. */
  lemma IpInfoAccepts(ip: string, parsed: Option<IP>, data: string, first: string, rest: string)
    requires CheckInput(parsed).None? && data != "" && TrimSpace(data) == data
    requires SplitFirstSpace(data) == (first, rest) && ReAsnMatches(first)
    ensures IpInfoLookup(ip, parsed, Body(data)) == Success((first, rest))
  {
  }

  /** A record of the DNS answer section. */
  datatype DnsRecord = Txt(strings: seq<string>) | OtherRecord

  /** What the DNS exchange for "<asn>.asn.cymru.com." TXT produced. */
  datatype DnsOutcome = ExchangeError(why: string) | Answer(records: seq<DnsRecord>)

  /** A Cymru client is initialized when it has a DNS client. */
  datatype CymruClient = CymruClient(initialized: bool)

  /** The strings of the first TXT record of an answer section. */
  function FirstTxt(records: seq<DnsRecord>): (r: Option<seq<string>>)
    ensures r.None? <==> forall k | 0 <= k < |records| :: !records[k].Txt?
  {
    if records == [] then None
    else if records[0].Txt? then Some(records[0].strings)
    else FirstTxt(records[1..])
  }

  /** FirstTxt answers the record the loop over the answer section returns
      at: a TXT record with no TXT record before it. */
  lemma {:induction false} FirstTxtIsFirst(records: seq<DnsRecord>)
    requires FirstTxt(records).Some?
    ensures exists k | 0 <= k < |records| ::
      records[k] == Txt(FirstTxt(records).value) && forall m | 0 <= m < k :: !records[m].Txt?
  {
    if !records[0].Txt? {
      var rest := records[1..];
      FirstTxtIsFirst(rest);
      var k :| 0 <= k < |rest| && rest[k] == Txt(FirstTxt(rest).value)
        && forall m | 0 <= m < k :: !rest[m].Txt?;
      assert records[k + 1] == rest[k];
      assert forall m | 0 <= m < k + 1 :: !records[m].Txt? by {
        forall m | 0 <= m < k + 1 ensures !records[m].Txt? {
          if m > 0 { assert records[m] == rest[m - 1]; }
        }
      }
    } else {
      assert records[0] == Txt(FirstTxt(records).value);
    }
  }

  /** The Team Cymru lookup of an ASN description, given the DNS outcome:
      the first TXT string without everything up to its last '|', trimmed. */
  function CymruLookup(cc: CymruClient, asn: string, dns: DnsOutcome): (r: Result<string, LookupError>)
    ensures asn == "" ==> r == Failure(EmptyAsn)
    ensures asn != "" && !cc.initialized ==> r == Failure(CymruNotInitialized)
    ensures asn != "" && cc.initialized && dns.ExchangeError? ==> r == Failure(DnsFailed(dns.why))
    ensures asn != "" && cc.initialized && dns.Answer? && FirstTxt(dns.records).None? ==> r == Failure(NoTxtAnswer)
    ensures r == Failure(IndexOutOfRange) <==>
      asn != "" && cc.initialized && dns.Answer? && FirstTxt(dns.records) == Some([])
    ensures r.Success? <==>
      asn != "" && cc.initialized && dns.Answer? && FirstTxt(dns.records).Some? && FirstTxt(dns.records).value != []
    ensures r.Success? ==> '|' !in r.value && (r.value == "" || (!IsSpace(r.value[0]) && !IsSpace(r.value[|r.value| - 1])))
    ensures r.Success? && '\n' !in FirstTxt(dns.records).value[0] ==>
      r.value == TrimSpace(StripThroughLastPipe(FirstTxt(dns.records).value[0]))
  {
    if asn == "" then Failure(EmptyAsn)
    else if !cc.initialized then Failure(CymruNotInitialized)
    else match dns
      case ExchangeError(why) => Failure(DnsFailed(why))
      case Answer(records) =>
        match FirstTxt(records)
        case None => Failure(NoTxtAnswer)
        case Some(strings) =>
          if strings == [] then Failure(IndexOutOfRange)
          else
            var d := TrimSpace(DnsFilter(strings[0]));
            TrimSpaceNoPipe(DnsFilter(strings[0]));
            if '\n' in strings[0] then Success(d)
            else DnsFilterOneLine(strings[0]); Success(d)
  }

  /** A one-line first TXT string whose last '|' is at k gives what follows
      k, trimmed. */
  lemma CymruKeepsLastField(cc: CymruClient, asn: string, dns: DnsOutcome, k: nat)
    requires asn != "" && cc.initialized && dns.Answer?
    requires FirstTxt(dns.records).Some? && FirstTxt(dns.records).value != []
    requires var s := FirstTxt(dns.records).value[0];
      '\n' !in s && k < |s| && s[k] == '|' && '|' !in s[k + 1..]
    ensures CymruLookup(cc, asn, dns) == Success(TrimSpace(FirstTxt(dns.records).value[0][k + 1..]))
  {
    LastPipeAt(FirstTxt(dns.records).value[0], k);
  }

  /** The Team Cymru origin answer for AS15169 gives its last field. */
  lemma CymruOriginExample(cc: CymruClient)
    requires cc.initialized
    ensures CymruLookup(cc, "AS15169", Answer([Txt(["15169 | US | arin | 2000-03-30 |" + " " + "GOOGLE - Google Inc., US"])]))
         == Success("GOOGLE - Google Inc., US")
  {
    var txt := "15169 | US | arin | 2000-03-30 |" + " " + "GOOGLE - Google Inc., US";
    assert FirstTxt([Txt([txt])]) == Some([txt]);
    CymruAnswerExample();
  }

  // ---------------------------------------------------------------------
  // The overrides

  /** The state of the override collection: absent, a map from ASN to
      description, or failing with a database error. */
  datatype OverrideStore = NilCollection | Collection(names: map<string, string>) | Broken(why: string)

  datatype OverrideOutcome = Found(descr: string) | NilCollectionError | AsnNotFound | LookupFailed(why: string)

  /** OverridesLookup, that is, FindId(asn).One on the collection. */
  function OverridesLookup(ov: OverrideStore, asn: string): (r: OverrideOutcome)
    ensures r.Found? <==> ov.Collection? && asn in ov.names
    ensures r.Found? ==> r.descr == ov.names[asn]
    ensures r == NilCollectionError <==> ov.NilCollection?
    ensures r == AsnNotFound <==> ov.Collection? && asn !in ov.names
  {
    match ov
    case NilCollection => NilCollectionError
    case Collection(names) => if asn in names then Found(names[asn]) else AsnNotFound
    case Broken(why) => LookupFailed("cannot lookup override: " + why)
  }

  /** getOverridenDescr: the override when the lookup succeeded, whatever the
      fallback; the fallback on every error. */
  function GetOverridenDescr(outcome: OverrideOutcome, fallback: string): (r: string)
    ensures outcome.Found? ==> r == outcome.descr
    ensures !outcome.Found? ==> r == fallback
  {
    match outcome
    case Found(descr) => descr
    case _ => fallback
  }

  /** The description of asn: its override, else the fallback. */
  function Describe(ov: OverrideStore, asn: string, fallback: string): (r: string)
    ensures ov.Collection? && asn in ov.names ==> r == ov.names[asn]
    ensures !(ov.Collection? && asn in ov.names) ==> r == fallback
  {
    GetOverridenDescr(OverridesLookup(ov, asn), fallback)
  }

  // ---------------------------------------------------------------------
  // The uncached lookup

  /** What the three services answer about one address. */
  datatype Sources = Sources(geoName: string, http: HttpOutcome, dns: DnsOutcome)

  /** lookupAsnUncached: a complete libgeoip pair, else a complete ipinfo.io
      pair, else a bare ASN (libgeoip first) described by Team Cymru, else
      an unknown ASN. The answer of a service the code consults only when
      the earlier ones fell short is an input here, so it is named whether
      or not it is used. */
  function LookupAsnUncached(ip: string, parsed: Option<IP>, src: Sources, cc: CymruClient, ov: OverrideStore): (r: Result<(string, string), LookupError>)
    ensures r.Success? ==> r.value.0 != ""
    ensures r.Success? && OverridesLookup(ov, r.value.0).Found? ==> r.value.1 == OverridesLookup(ov, r.value.0).descr
  {
    match CheckInput(parsed)
    case Some(e) => Failure(e)
    case None =>
      var geo := LibGeoipLookup(parsed, src.geoName);
      var info := IpInfoLookup(ip, parsed, src.http);
      Precedence(ip, geo, info, CymruLookup(cc, BareAsn(geo, info), src.dns), ov)
  }

  /** The ASN kept when no source gave a complete pair: libgeoip's, else
      ipinfo.io's, else none. */
  function BareAsn(geo: (string, string), info: Result<(string, string), LookupError>): (a: string)
    ensures a != "" <==> geo.0 != "" || (info.Success? && info.value.0 != "")
  {
    if geo.0 != "" then geo.0 else if info.Success? && info.value.0 != "" then info.value.0 else ""
  }

  /** The precedence among the answers of the sources, given the answers:
      geo from libgeoip, info from ipinfo.io and cymru from Team Cymru for
      the bare ASN. */
  function Precedence(ip: string, geo: (string, string), info: Result<(string, string), LookupError>,
                      cymru: Result<string, LookupError>, ov: OverrideStore): (r: Result<(string, string), LookupError>)
    ensures r.Success? ==> r.value.0 != "" && (r.value.0 == geo.0 || (info.Success? && r.value.0 == info.value.0))
    ensures r.Success? && OverridesLookup(ov, r.value.0).Found? ==> r.value.1 == OverridesLookup(ov, r.value.0).descr
    ensures r.Failure? ==> r == Failure(UnknownAsn(ip)) || r == Failure(IndexOutOfRange)
  {
    if Complete(geo) then Success((geo.0, Describe(ov, geo.0, geo.1)))
    else if info.Success? && Complete(info.value) then Success((info.value.0, Describe(ov, info.value.0, info.value.1)))
    else
      var asn := BareAsn(geo, info);
      if asn == "" then Failure(UnknownAsn(ip))
      else match cymru
        case Success(d) => Success((asn, Describe(ov, asn, d)))
        case Failure(IndexOutOfRange) => Failure(IndexOutOfRange)
        case Failure(_) => Success((asn, Describe(ov, asn, "")))
  }

  /** A source's answer when it names an ASN and a description. */
  predicate Complete(pair: (string, string))
  {
    pair.0 != "" && pair.1 != ""
  }

  /** Source precedence, for any answers of the sources. */
  lemma SourcePrecedence(ip: string, geo: (string, string), info: Result<(string, string), LookupError>,
                         cymru: Result<string, LookupError>, ov: OverrideStore)
    ensures var r := Precedence(ip, geo, info, cymru, ov);
      // 1. a complete libgeoip pair wins
      && (Complete(geo) ==> r == Success((geo.0, Describe(ov, geo.0, geo.1))))
      // 2. else a complete ipinfo.io pair, even over a bare libgeoip ASN
      && (!Complete(geo) && info.Success? && Complete(info.value) ==>
            r == Success((info.value.0, Describe(ov, info.value.0, info.value.1))))
      // 3. else a bare ASN, libgeoip preferred
      && (!Complete(geo) && !(info.Success? && Complete(info.value)) && r.Success? ==>
            r.value.0 == (if geo.0 != "" then geo.0 else info.value.0))
      // 4. else no ASN at all
      && (r == Failure(UnknownAsn(ip)) <==> geo.0 == "" && !(info.Success? && info.value.0 != ""))
  {
  }

  /** Once some source names an ASN the result is a success, unless the Team
      Cymru lookup panicked; if that lookup failed otherwise, the description
      is the override or "". */
  lemma AsnFoundMeansSuccess(ip: string, geo: (string, string), info: Result<(string, string), LookupError>,
                             cymru: Result<string, LookupError>, ov: OverrideStore)
    requires geo.0 != "" || (info.Success? && info.value.0 != "")
    ensures var r := Precedence(ip, geo, info, cymru, ov);
      r.Failure? ==> r.error == IndexOutOfRange && cymru == Failure(IndexOutOfRange)
    ensures var r := Precedence(ip, geo, info, cymru, ov);
      !Complete(geo) && !(info.Success? && Complete(info.value)) && cymru.Failure? && cymru.error != IndexOutOfRange ==>
        r == Success((BareAsn(geo, info), Describe(ov, BareAsn(geo, info), "")))
  {
  }

  /** Overrides change descriptions only: the outcome, and the ASN of a
      success, are those of a lookup without an override collection, and an
      override found for the ASN is the description. */
  lemma OverrideWins(ip: string, geo: (string, string), info: Result<(string, string), LookupError>,
                     cymru: Result<string, LookupError>, ov: OverrideStore)
    ensures var r := Precedence(ip, geo, info, cymru, ov);
      var plain := Precedence(ip, geo, info, cymru, NilCollection);
      && r.Success? == plain.Success?
      && (r.Failure? ==> r == plain)
      && (r.Success? ==> r.value.0 == plain.value.0)
      && (r.Success? && OverridesLookup(ov, r.value.0).Found? ==> r.value.1 == OverridesLookup(ov, r.value.0).descr)
      && (r.Success? && !OverridesLookup(ov, r.value.0).Found? ==> r.value.1 == plain.value.1)
  {
  }

  /** The repository's override test: a collection naming AS15169 replaces
      the description libgeoip gave. */
  lemma OverrideExample(ip: string, info: Result<(string, string), LookupError>, cymru: Result<string, LookupError>)
    ensures Precedence(ip, ("AS15169", "Google Inc."), info, cymru,
                       Collection(map["AS15169" := "TurboBytes geoipdb rules!!"]))
         == Success(("AS15169", "TurboBytes geoipdb rules!!"))
    ensures Precedence(ip, ("AS15169", "Google Inc."), info, cymru, NilCollection)
         == Success(("AS15169", "Google Inc."))
  {
  }

  /** The uncached lookup of a public IPv4 address is the precedence among
      its sources' answers, Team Cymru asked about the bare ASN. */
  lemma UncachedIsPrecedence(ip: string, parsed: Option<IP>, src: Sources, cc: CymruClient, ov: OverrideStore)
    requires CheckInput(parsed).None?
    ensures var geo := LibGeoipLookup(parsed, src.geoName);
      var info := IpInfoLookup(ip, parsed, src.http);
      LookupAsnUncached(ip, parsed, src, cc, ov) == Precedence(ip, geo, info, CymruLookup(cc, BareAsn(geo, info), src.dns), ov)
  {
  }

  /** Input errors come first, whatever the sources say. */
  lemma InputErrorsFirst(ip: string, parsed: Option<IP>, src: Sources, cc: CymruClient, ov: OverrideStore)
    requires CheckInput(parsed).Some?
    ensures LookupAsnUncached(ip, parsed, src, cc, ov) == Failure(CheckInput(parsed).value)
    ensures IpInfoLookup(ip, parsed, src.http) == Failure(CheckInput(parsed).value)
    ensures LibGeoipLookup(parsed, src.geoName) == ("", "")
  {
  }

  /** The ASN of a successful lookup is libgeoip's, or an ipinfo.io answer
      that passed the compiled ASN pattern. */
  lemma AsnComesFromASource(ip: string, parsed: Option<IP>, src: Sources, cc: CymruClient, ov: OverrideStore)
    requires LookupAsnUncached(ip, parsed, src, cc, ov).Success?
    ensures var a := LookupAsnUncached(ip, parsed, src, cc, ov).value.0;
      var info := IpInfoLookup(ip, parsed, src.http);
      a == LibGeoipLookup(parsed, src.geoName).0 || (info.Success? && a == info.value.0 && ReAsnMatches(a))
  {
    if CheckInput(parsed).None? {
      var geo := LibGeoipLookup(parsed, src.geoName);
      var info := IpInfoLookup(ip, parsed, src.http);
      var cymru := CymruLookup(cc, BareAsn(geo, info), src.dns);
      UncachedIsPrecedence(ip, parsed, src, cc, ov);
      SourcePrecedence(ip, geo, info, cymru, ov);
    }
  }

  /** An unknown ASN is reported with the address in the message: 1.1.1.1
      with no libgeoip name, an ipinfo.io answer that is not an ASN, and no
      DNS answer. */
  lemma UnknownAsnExample(cc: CymruClient, ov: OverrideStore)
    ensures LookupAsnUncached("1.1.1.1", Some(IPv4(1, 1, 1, 1)),
        Sources("", Body("Please provide a valid IP address"), ExchangeError("timeout")), cc, ov)
      == Failure(UnknownAsn("1.1.1.1"))
  {
    var parsed := Some(IPv4(1, 1, 1, 1));
    var src := Sources("", Body("Please provide a valid IP address"), ExchangeError("timeout"));
    PublicSample();
    IpInfoRefusesText("1.1.1.1", parsed);
    var geo := LibGeoipLookup(parsed, src.geoName);
    var info := IpInfoLookup("1.1.1.1", parsed, src.http);
    assert geo == ("", "");
    UncachedIsPrecedence("1.1.1.1", parsed, src, cc, ov);
    SourcePrecedence("1.1.1.1", geo, info, CymruLookup(cc, BareAsn(geo, info), src.dns), ov);
  }

  /** The message of the repository's test for 1.1.1.1. */
  lemma UnknownAsnMessage()
    ensures UnknownAsn("1.1.1.1").Message() == "unknown ASN for ip '1.1.1.1'"
  {
  }

  /** 1.1.1.1 passes validation. */
  lemma PublicSample()
    ensures CheckInput(Some(IPv4(1, 1, 1, 1))).None?
  {
    To4OfIPv4(1, 1, 1, 1);
    GlobalIPv4Examples();
  }

  /** An ipinfo.io answer that is an error text is refused. */
  lemma IpInfoRefusesText(ip: string, parsed: Option<IP>)
    requires CheckInput(parsed).None?
    ensures IpInfoLookup(ip, parsed, Body("Please provide a valid IP address")).Failure?
  {
    IpInfoRefusesNonAsn(ip, parsed, "Please provide a valid IP address");
  }

  /** A one-line body with non-space ends that does not start with 'A' is not
      an ASN answer. */
  lemma IpInfoRefusesNonAsn(ip: string, parsed: Option<IP>, data: string)
    requires CheckInput(parsed).None?
    requires data != [] && !IsSpace(data[0]) && !IsSpace(data[|data| - 1]) && data[0] != 'A'
    requires '\n' !in data
    ensures IpInfoLookup(ip, parsed, Body(data)).Failure?
  {
    FirstTokenOfTrimmed(data);
    FirstTokenOneLine(data);
  }

  /** The sample inputs of the repository's tests that fail validation. */
  lemma InputErrorExamples()
    ensures CheckInput(None) == Some(MalformedIP)
    ensures CheckInput(Some(IPv4(192, 168, 0, 101))) == Some(PrivateIP)
    ensures CheckInput(Some(IPv4(10, 0, 45, 98))) == Some(PrivateIP)
    ensures CheckInput(Some(IPv4(127, 0, 0, 1))) == Some(PrivateIP)
  {
    PrivateSamples();
    LocalIPv4Examples();
    PrivateAddress(192, 168, 0, 101);
    PrivateAddress(10, 0, 45, 98);
    PrivateAddress(127, 0, 0, 1);
  }

  /** Two more private addresses of the repository's tests. */
  lemma PrivateSamples()
    ensures IsLocal(Some(IPv4(192, 168, 0, 101)))
    ensures IsLocal(Some(IPv4(10, 0, 45, 98)))
  {
    LocalV4(192, 168, 0, 101, Prefix([192, 168, 0, 0], 16));
    LocalV4(10, 0, 45, 98, Prefix([10, 0, 0, 0], 8));
  }

  /** A local IPv4 address is refused as private. */
  lemma PrivateAddress(a: byte, b: byte, c: byte, d: byte)
    requires IsLocal(Some(IPv4(a, b, c, d)))
    ensures CheckInput(Some(IPv4(a, b, c, d))) == Some(PrivateIP)
  {
    To4OfIPv4(a, b, c, d);
  }

  // ---------------------------------------------------------------------
  // The cached lookup

  /** What LookupAsn returns. */
  datatype Reply = Reply(asn: string, descr: string, err: Option<LookupError>)

  /** Every cached entry names an ASN: only successes of the uncached lookup
      are stored, and those do. */
  predicate NamedEntries(fwd: Forward)
  {
    forall x | x in fwd :: fwd[x].asn != ""
  }

  /** LookupAsn on the cache's forward index: its reply, and whether it
      stores that reply in the cache. */
  function Resolve(fwd: Forward, ip: string, parsed: Option<IP>, now: int, src: Sources, cc: CymruClient, ov: OverrideStore): (r: (Reply, bool))
    ensures r.1 ==> r.0.err.None? && r.0.asn != ""
    ensures r.0.err.None? ==> r.0.asn != "" || (ip in fwd && r.0.asn == fwd[ip].asn)
    ensures NamedEntries(fwd) && r.0.err.None? ==> r.0.asn != ""
    ensures r.0.err.Some? ==> r.0.asn == "" && r.0.descr == "" && !r.1
  {
    match CheckInput(parsed)
    case Some(e) => (Reply("", "", Some(e)), false)
    case None =>
      var p := Lookup(fwd, ip, now);
      if p.found && !p.expired then (Reply(p.asn, p.descr, None), false)
      else
        match LookupAsnUncached(ip, parsed, src, cc, ov)
        case Success((a, d)) => (Reply(a, d, None), true)
        case Failure(e) => (Reply("", "", Some(e)), false)
  }

  /** Input errors never read or write the cache. */
  lemma InputErrorsBypassCache(fwd: Forward, ip: string, parsed: Option<IP>, now: int, src: Sources, cc: CymruClient, ov: OverrideStore)
    requires CheckInput(parsed).Some?
    ensures Resolve(fwd, ip, parsed, now, src, cc, ov) == (Reply("", "", CheckInput(parsed)), false)
    ensures Resolve(fwd, ip, parsed, now, src, cc, ov) == Resolve(map[], ip, parsed, now, src, cc, ov)
  {
  }

  /** A fresh cache entry is the reply, whatever the sources and overrides say. */
  lemma CacheHitIgnoresSources(fwd: Forward, ip: string, parsed: Option<IP>, now: int, src: Sources, cc: CymruClient, ov: OverrideStore)
    requires CheckInput(parsed).None?
    requires ip in fwd && now <= fwd[ip].due
    ensures Resolve(fwd, ip, parsed, now, src, cc, ov) == (Reply(fwd[ip].asn, fwd[ip].descr, None), false)
  {
  }

  /** On a miss the reply is the uncached lookup's, stored exactly when it
      succeeds. */
  lemma MissRunsUncachedLookup(fwd: Forward, ip: string, parsed: Option<IP>, now: int, src: Sources, cc: CymruClient, ov: OverrideStore)
    requires CheckInput(parsed).None?
    requires ip !in fwd || now > fwd[ip].due
    ensures var r := Resolve(fwd, ip, parsed, now, src, cc, ov);
      var u := LookupAsnUncached(ip, parsed, src, cc, ov);
      && (r.1 <==> u.Success?)
      && (u.Success? ==> r.0 == Reply(u.value.0, u.value.1, None))
      && (u.Failure? ==> r.0 == Reply("", "", Some(u.error)))
  {
  }

  /** A stored reply is served from the cache for one TTL, whatever the
      sources say then; after that the address is looked up again. */
  lemma StoredReplyLastsOneDay(fwd: Forward, ip: string, parsed: Option<IP>, now: int, stored: int, t: int,
                               src: Sources, src': Sources, cc: CymruClient, ov: OverrideStore, ov': OverrideStore)
    requires Resolve(fwd, ip, parsed, now, src, cc, ov).1
    ensures var reply := Resolve(fwd, ip, parsed, now, src, cc, ov).0;
      var fwd' := StoreForward(fwd, ip, reply.asn, reply.descr, stored);
      && (t <= stored + CacheTTL ==> Resolve(fwd', ip, parsed, t, src', cc, ov') == (reply, false))
      && (t > stored + CacheTTL ==> Resolve(fwd', ip, parsed, t, src', cc, ov') == Resolve(map[], ip, parsed, t, src', cc, ov'))
  {
    var reply := Resolve(fwd, ip, parsed, now, src, cc, ov).0;
    LookupAfterStore(fwd, ip, reply.asn, reply.descr, stored, t);
  }

  /** A store made by LookupAsn keeps every cached entry naming an ASN. */
  lemma ResolveKeepsNamedEntries(fwd: Forward, ip: string, parsed: Option<IP>, now: int, later: int,
                                 src: Sources, cc: CymruClient, ov: OverrideStore)
    requires NamedEntries(fwd)
    ensures var (reply, store) := Resolve(fwd, ip, parsed, now, src, cc, ov);
      store ==> NamedEntries(StoreForward(fwd, ip, reply.asn, reply.descr, later))
  {
  }

  /** A non-IPv4 parse is refused before anything else. */
  lemma IPv6Refused(a: IP)
    requires |a| == IPv6Len && To4(a).None?
    ensures CheckInput(Some(a)) == Some(IPv6NotSupported)
  {
  }

  // ---------------------------------------------------------------------
  // The handler

  /** A geoipdb handler: its cache and its Team Cymru client. */
  class Handler {
    const cache: Cache
    const cymru: CymruClient

    ghost predicate Valid()
      reads this, cache
    {
      cache.Valid() && NamedEntries(cache.ip)
    }

    /** NewHandler: an empty cache and an initialized Cymru client. */
    constructor ()
      ensures Valid() && fresh(cache)
      ensures cache.ip == map[] && cache.asn == map[]
      ensures cymru.initialized
    {
      cache := new Cache();
      cymru := CymruClient(true);
    }

    /** LookupAsn at clock reading now, storing at clock reading later. */
    method LookupAsn(ip: string, parsed: Option<IP>, now: int, later: int, src: Sources, ov: OverrideStore)
      returns (asn: string, descr: string, err: Option<LookupError>)
      requires Valid()
      modifies cache
      ensures Valid()
      ensures err.None? ==> asn != ""
      ensures var (reply, store) := Resolve(old(cache.ip), ip, parsed, now, src, cymru, ov);
        && Reply(asn, descr, err) == reply
        && cache.ip == (if store then StoreForward(old(cache.ip), ip, asn, descr, later) else old(cache.ip))
        && cache.asn == (if store then StoreReverse(old(cache.asn), ip, asn) else old(cache.asn))
    {
      var (ip_, is4) := ParseIP(parsed);
      if ip_.None? {
        return "", "", Some(MalformedIP);
      }
      if !is4 {
        return "", "", Some(IPv6NotSupported);
      }
      var local := IsLocalIP(ip_);
      if local {
        return "", "", Some(PrivateIP);
      }
      var expired, found;
      asn, descr, expired, found := cache.LookupByIP(ip, now);
      if found && !expired {
        return asn, descr, None;
      }
      var r := LookupAsnUncached(ip, parsed, src, cymru, ov);
      if r.Failure? {
        return "", "", Some(r.error);
      }
      asn, descr, err := r.value.0, r.value.1, None;
      cache.Store(ip, asn, descr, later);
    }

    /** LookupIp: the addresses cached under asn, each once. */
    method LookupIp(asn: string) returns (ips: seq<string>)
      requires Valid()
      ensures |ips| == |BucketOf(cache.asn, asn)|
      ensures forall x :: x in ips <==> x in cache.ip && cache.ip[x].asn == asn
      ensures forall i, j | 0 <= i < j < |ips| :: ips[i] != ips[j]
    {
      var bucket := cache.LookupByASN(asn);
      ips := Enumerate(bucket);
    }

    /** AsnCacheList: every ASN the cache knows, each once. */
    method AsnCacheList() returns (asns: seq<string>)
      requires Valid()
      ensures |asns| == |cache.asn|
      ensures forall a :: a in asns <==> a in cache.asn
      ensures forall i, j | 0 <= i < j < |asns| :: asns[i] != asns[j]
    {
      asns := cache.AsnList();
    }

    /** AsnCachePurge: empty the cache. */
    method AsnCachePurge()
      requires Valid()
      modifies cache
      ensures Valid()
      ensures cache.ip == map[] && cache.asn == map[]
    {
      cache.PurgeAll();
    }
  }
}
