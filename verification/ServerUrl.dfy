/** The HTTP URL parser `sc_parse_server_addr`. URLs are byte strings without a zero byte; the
    index behind the last byte stands for the terminator. */
module ServerUrl {
  import opened Bytes
  import opened CString
  import opened Decimals

  const URL_MAX_SIZE := 256
  const OPEN_BRACKET: Byte := 91
  const CLOSE_BRACKET: Byte := 93
  const HTTP_SCHEME: seq<Byte> := [104, 116, 116, 112, 58, 47, 47]        // http://
  const HTTPS_SCHEME: seq<Byte> := [104, 116, 116, 112, 115, 58, 47, 47]  // https://

  /** What a call leaves: its result and, for each out-parameter, what was written to it. */
  datatype Answer = Answer(
    ok: bool,
    tls: Option<bool>,
    ipv6: bool,
    host: Option<seq<Byte>>,
    port: Option<int>,
    path: Option<seq<Byte>>)

  const REJECTED := Answer(false, None, false, None, None, None)

  /** End of a plain host: the first '/' or ':' or the end. */
  function HostEnd(url: seq<Byte>, p: nat): (q: nat)
    requires p <= |url|
    ensures p <= q <= |url| && (q < |url| ==> url[q] == SLASH || url[q] == COLON)
    ensures forall j :: p <= j < q ==> url[j] != SLASH && url[j] != COLON
    decreases |url| - p
  {
    if p == |url| || url[p] == SLASH || url[p] == COLON then p else HostEnd(url, p + 1)
  }

  /** The port digits from `p` on: the index behind them and their value as a `short`; None
      when something else than a digit or '/' is met. */
  function ScanPort(url: seq<Byte>, p: nat, acc: int): (r: Option<(nat, int)>)
    requires p <= |url|
    ensures r.Some? ==> p <= r.value.0 <= |url|
    decreases |url| - p
  {
    if p == |url| || url[p] == SLASH then Some((p, acc))
    else if !IsDigit(url[p]) then None
    else ScanPort(url, p + 1, ToShort(10 * acc + url[p] - 48))
  }

  function Scheme(tls: bool): seq<Byte> {
    if tls then HTTPS_SCHEME else HTTP_SCHEME
  }

  function DefaultPort(tls: bool): int {
    if tls then 443 else 80
  }

  /** `sc_parse_server_addr`. */
  function ParseUrl(url: seq<Byte>): Answer {
    if StartsWith(url, HTTP_SCHEME) then ParseAuthority(url[|HTTP_SCHEME|..], false)
    else if StartsWith(url, HTTPS_SCHEME) then ParseAuthority(url[|HTTPS_SCHEME|..], true)
    else REJECTED
  }

  /** The part behind the scheme. */
  function ParseAuthority(text: seq<Byte>, tls: bool): Answer {
    var a := REJECTED.(tls := Some(tls));
    if text != [] && text[0] == OPEN_BRACKET then
      var close := Find(text, CLOSE_BRACKET, 1);
      if close == |text| then a else AfterHost(text, close + 1, a.(ipv6 := true))
    else AfterHost(text, HostEnd(text, 0), a)
  }

  function AfterHost(text: seq<Byte>, p: nat, a: Answer): Answer
    requires p <= |text| && a.tls.Some?
  {
    if p == 0 || URL_MAX_SIZE < p then a
    else
      var b := a.(host := Some(text[..p]));
      if p < |text| && text[p] == COLON then
        match ScanPort(text, p + 1, 0)
        case None => b
        case Some((q, port)) => if q == p + 1 then b else AfterPort(text, q, port, b)
      else AfterPort(text, p, DefaultPort(a.tls.value), b)
  }

  function AfterPort(text: seq<Byte>, p: nat, port: int, b: Answer): Answer
    requires p <= |text|
  {
    var c := b.(port := Some(port));
    if URL_MAX_SIZE < |text| - p then c
    else c.(ok := true, path := Some(if p == |text| then [SLASH] else text[p..]))
  }

  // ---------------------------------------------------------------------------
  // The parser on the caller's buffers
  // ---------------------------------------------------------------------------

  /** A buffer after an optional copy to its start. */
  function Written(buf: seq<Byte>, data: Option<seq<Byte>>): (s: seq<Byte>)
    requires data.Some? ==> |data.value| <= |buf|
  {
    if data.Some? then Splice(buf, 0, data.value) else buf
  }

  predicate FitsBuffers(a: Answer) {
    && (a.host.Some? ==> |a.host.value| <= URL_MAX_SIZE)
    && (a.path.Some? ==> |a.path.value| <= URL_MAX_SIZE)
  }

  lemma AfterHostFits(text: seq<Byte>, p: nat, a: Answer)
    requires p <= |text| && a.tls.Some? && a.host.None? && a.path.None?
    ensures FitsBuffers(AfterHost(text, p, a))
  {
    hide ScanPort;
  }

  lemma CopiesFit(text: seq<Byte>, tls: bool)
    ensures FitsBuffers(ParseAuthority(text, tls))
  {
    var a := REJECTED.(tls := Some(tls));
    var close := if text != [] then Find(text, CLOSE_BRACKET, 1) else 0;
    if close < |text| {
      AfterHostFits(text, close + 1, a.(ipv6 := true));
    }
    AfterHostFits(text, HostEnd(text, 0), a);
    hide AfterHost, FitsBuffers;
  }

  method CopyIn(buf: array<Byte>, data: seq<Byte>)
    requires |data| <= buf.Length
    modifies buf
    ensures buf[..] == Splice(old(buf[..]), 0, data)
  {
    forall i | 0 <= i < |data| {
      buf[i] := data[i];
    }
  }

  method ParseServerAddr(url: seq<Byte>, addr: array<Byte>, path: array<Byte>)
    returns (ok: bool, tls: Option<bool>, isIPV6Addr: bool, port: Option<int>)
    requires addr != path && addr.Length == URL_MAX_SIZE && path.Length == URL_MAX_SIZE
    modifies addr, path
    ensures var a := ParseUrl(url);
            && FitsBuffers(a)
            && a.ok == ok && a.tls == tls && a.ipv6 == isIPV6Addr && a.port == port
            && addr[..] == Written(old(addr[..]), a.host)
            && path[..] == Written(old(path[..]), a.path)
  {
    hide ParseAuthority;
    if StartsWith(url, HTTP_SCHEME) {
      tls := Some(false);
      ok, isIPV6Addr, port := ParseText(url[|HTTP_SCHEME|..], false, addr, path);
    } else if StartsWith(url, HTTPS_SCHEME) {
      tls := Some(true);
      ok, isIPV6Addr, port := ParseText(url[|HTTPS_SCHEME|..], true, addr, path);
    } else {
      ok, tls, isIPV6Addr, port := false, None, false, None;
    }
  }

  method ParseText(text: seq<Byte>, tls: bool, addr: array<Byte>, path: array<Byte>)
    returns (ok: bool, isIPV6Addr: bool, port: Option<int>)
    requires addr != path && addr.Length == URL_MAX_SIZE && path.Length == URL_MAX_SIZE
    modifies addr, path
    ensures var a := ParseAuthority(text, tls);
            && FitsBuffers(a)
            && a.ok == ok && a.tls == Some(tls) && a.ipv6 == isIPV6Addr && a.port == port
            && addr[..] == Written(old(addr[..]), a.host)
            && path[..] == Written(old(path[..]), a.path)
  {
    CopiesFit(text, tls);
    hide Splice;
    ghost var expected := ParseAuthority(text, tls);
    ok, port := false, None;
    var found, counter;
    found, counter, isIPV6Addr := ScanHost(text);
    if !found {
      return;
    }
    assert expected == AfterHost(text, counter, REJECTED.(tls := Some(tls), ipv6 := isIPV6Addr));
    hide ParseAuthority, ScanPort;
    if counter == 0 || URL_MAX_SIZE < counter {
      return;
    }
    CopyIn(addr, text[..counter]);
    var p: nat := counter;
    var serverPort := DefaultPort(tls);
    if p < |text| && text[p] == COLON {
      var digits;
      digits, p, serverPort := ScanDigits(text, counter + 1);
      if !digits || p == counter + 1 {
        return;
      }
    }
    port := Some(serverPort);
    if URL_MAX_SIZE < |text| - p {
      return;
    }
    if p == |text| {
      CopyIn(path, [SLASH]);
    } else {
      CopyIn(path, text[p..]);
    }
    ok := true;
  }

  /** The two host loops. */
  method ScanHost(text: seq<Byte>) returns (found: bool, counter: nat, isIPV6Addr: bool)
    ensures counter <= |text|
    ensures isIPV6Addr <==> found && text != [] && text[0] == OPEN_BRACKET
    ensures found <==> !(text != [] && text[0] == OPEN_BRACKET && Find(text, CLOSE_BRACKET, 1) == |text|)
    ensures found ==>
              counter == if isIPV6Addr then Find(text, CLOSE_BRACKET, 1) + 1 else HostEnd(text, 0)
  {
    found, isIPV6Addr := true, false;
    if text != [] && text[0] == OPEN_BRACKET {
      counter := 1;
      while counter < |text| && text[counter] != CLOSE_BRACKET
        invariant 1 <= counter <= |text|
        invariant Find(text, CLOSE_BRACKET, 1) == Find(text, CLOSE_BRACKET, counter)
      {
        counter := counter + 1;
      }
      if counter == |text| {
        return false, counter, false;
      }
      counter := counter + 1;
      isIPV6Addr := true;
    } else {
      counter := 0;
      while counter < |text| && text[counter] != SLASH && text[counter] != COLON
        invariant counter <= |text|
        invariant HostEnd(text, 0) == HostEnd(text, counter)
      {
        counter := counter + 1;
      }
    }
  }

  /** The port loop. */
  method ScanDigits(text: seq<Byte>, start: nat) returns (digits: bool, p: nat, serverPort: int)
    requires start <= |text|
    ensures ScanPort(text, start, 0) == if digits then Some((p, serverPort)) else None
  {
    p, serverPort := start, 0;
    while p < |text| && text[p] != SLASH
      invariant start <= p <= |text|
      invariant ScanPort(text, start, 0) == ScanPort(text, p, serverPort)
    {
      if !IsDigit(text[p]) {
        return false, p, serverPort;
      }
      serverPort := ToShort(10 * serverPort + text[p] - 48);
      p := p + 1;
    }
    digits := true;
  }

  // ---------------------------------------------------------------------------
  // Round trip
  // ---------------------------------------------------------------------------

  /** A host as it stands in a URL. */
  predicate IsHost(host: seq<Byte>, ipv6: bool) {
    && 0 < |host| <= URL_MAX_SIZE
    && if ipv6 then
         |host| >= 2 && host[0] == OPEN_BRACKET && host[|host| - 1] == CLOSE_BRACKET
         && forall i :: 0 < i < |host| - 1 ==> host[i] != CLOSE_BRACKET
       else
         host[0] != OPEN_BRACKET
         && forall i :: 0 <= i < |host| ==> host[i] != SLASH && host[i] != COLON
  }

  predicate IsPath(path: seq<Byte>) {
    |path| <= URL_MAX_SIZE && (path != [] ==> path[0] == SLASH)
  }

  function PortText(port: Option<nat>): seq<Byte> {
    match port
    case None => []
    case Some(n) => [COLON] + Numeral(n)
  }

  function Print(tls: bool, host: seq<Byte>, port: Option<nat>, path: seq<Byte>): seq<Byte> {
    Scheme(tls) + (host + PortText(port) + path)
  }

  /** Reading digits with a conversion at every step is one conversion at the end. */
  lemma {:induction false} ScanPortReads(text: seq<Byte>, p: nat, digits: seq<Byte>, acc: int)
    requires AllDigits(digits) && p + |digits| <= |text| && text[p..p + |digits|] == digits
    requires p + |digits| < |text| ==> text[p + |digits|] == SLASH
    ensures ScanPort(text, p, ToShort(acc)) == Some((p + |digits|, ToShort(Decimal(digits, acc))))
    decreases |digits|
  {
    if digits != [] {
      assert text[p] == digits[0];
      assert text[p + 1..p + 1 + |digits[1..]|] == digits[1..];
      var next := 10 * acc + digits[0] - 48;
      assert ToShort(10 * ToShort(acc) + digits[0] - 48) == ToShort(next);
      ScanPortReads(text, p + 1, digits[1..], next);
    }
  }

  lemma HostIsFound(host: seq<Byte>, ipv6: bool, rest: seq<Byte>, tls: bool)
    requires IsHost(host, ipv6)
    requires rest != [] && !ipv6 ==> rest[0] == SLASH || rest[0] == COLON
    ensures ParseAuthority(host + rest, tls)
            == AfterHost(host + rest, |host|, REJECTED.(tls := Some(tls), ipv6 := ipv6))
  {
    var text := host + rest;
    assert text[0] == host[0];
    if ipv6 {
      assert text[|host| - 1] == CLOSE_BRACKET;
      assert Find(text, CLOSE_BRACKET, 1) == |host| - 1;
    } else {
      assert rest != [] ==> text[|host|] == rest[0];
      assert HostEnd(text, 0) == |host|;
    }
  }

  /** What may stand between the host and the rest of a URL. */
  predicate IsPortPart(digits: Option<seq<Byte>>) {
    digits.Some? ==> digits.value != [] && AllDigits(digits.value)
  }

  /** What may stand behind host and port: nothing, or a path. Behind a bracketed host without
      port the parser takes anything but a ':' for the path. */
  predicate IsRest(rest: seq<Byte>, ipv6: bool, digits: Option<seq<Byte>>) {
    && |rest| <= URL_MAX_SIZE
    && (rest != [] ==> if ipv6 && digits.None? then rest[0] != COLON else rest[0] == SLASH)
  }

  function PortPart(digits: Option<seq<Byte>>): seq<Byte> {
    if digits.Some? then [COLON] + digits.value else []
  }

  /** Every URL of this form is accepted, and its parts are the answers: 80 and 443 are the
      ports without digits, and "/" is the path when the rest is empty. */
  lemma WellFormedUrlsAreAccepted(tls: bool, host: seq<Byte>, ipv6: bool, digits: Option<seq<Byte>>, rest: seq<Byte>)
    requires IsHost(host, ipv6) && IsPortPart(digits) && IsRest(rest, ipv6, digits)
    ensures ParseUrl(Scheme(tls) + (host + PortPart(digits) + rest)) ==
            Answer(true, Some(tls), ipv6, Some(host),
                   Some(if digits.Some? then ToShort(Decimal(digits.value, 0)) else if tls then 443 else 80),
                   Some(if rest == [] then [SLASH] else rest))
  {
    var tail := PortPart(digits) + rest;
    var text := host + tail;
    var a := REJECTED.(tls := Some(tls), ipv6 := ipv6);
    assert host + PortPart(digits) + rest == text;
    SchemeIsFound(tls, text);
    HostIsFound(host, ipv6, tail, tls);
    TailIsRead(host, digits, rest, a);
    hide ParseUrl, ParseAuthority, AfterHost, ToShort, Decimal;
  }

  /** Main result: parsing a printed URL gives back scheme, host, port and path, with the
      defaults for a missing port and an empty path; a port comes back as a `short`, so it is
      the printed one exactly up to 32767. */
  lemma UrlRoundTrip(tls: bool, host: seq<Byte>, ipv6: bool, port: Option<nat>, path: seq<Byte>)
    requires IsHost(host, ipv6) && IsPath(path)
    ensures ParseUrl(Print(tls, host, port, path)) ==
            Answer(true, Some(tls), ipv6, Some(host),
                   Some(if port.Some? then ToShort(port.value) else if tls then 443 else 80),
                   Some(if path == [] then [SLASH] else path))
    ensures port.Some? ==>
              (ParseUrl(Print(tls, host, port, path)).port == Some(port.value) <==> port.value <= 32767)
  {
    var digits := if port.Some? then Some(Numeral(port.value)) else None;
    assert PortText(port) == PortPart(digits);
    WellFormedUrlsAreAccepted(tls, host, ipv6, digits, path);
    if port.Some? {
      DecimalOfNumeral(port.value);
      ShortIsExactIff(port.value);
    }
    hide ParseUrl, ToShort;
  }

  /** The pieces of a printed authority, by index. */
  lemma Pieces(host: seq<Byte>, digits: seq<Byte>, path: seq<Byte>)
    ensures var text := host + ([COLON] + digits + path);
            var q := |host| + 1 + |digits|;
            && |text| == q + |path|
            && text[..|host|] == host && text[|host|] == COLON
            && text[|host| + 1..q] == digits && text[q..] == path
  {
  }

  /** Behind the host: the port and the rest. */
  lemma TailIsRead(host: seq<Byte>, digits: Option<seq<Byte>>, rest: seq<Byte>, a: Answer)
    requires 0 < |host| <= URL_MAX_SIZE && a.tls.Some? && IsPortPart(digits) && IsRest(rest, a.ipv6, digits)
    ensures AfterHost(host + (PortPart(digits) + rest), |host|, a) ==
            a.(ok := true, host := Some(host),
               port := Some(if digits.Some? then ToShort(Decimal(digits.value, 0))
                            else if a.tls.value then 443 else 80),
               path := Some(if rest == [] then [SLASH] else rest))
  {
    if digits.None? {
      var text := host + ([] + rest);
      assert text[..|host|] == host && text[|host|..] == rest;
      assert rest != [] ==> text[|host|] == rest[0];
    } else {
      PortAndPathAreRead(host, digits.value, rest, a);
    }
  }

  lemma PortAndPathAreRead(host: seq<Byte>, digits: seq<Byte>, rest: seq<Byte>, a: Answer)
    requires 0 < |host| <= URL_MAX_SIZE && a.tls.Some? && digits != [] && AllDigits(digits)
    requires |rest| <= URL_MAX_SIZE && (rest != [] ==> rest[0] == SLASH)
    ensures AfterHost(host + ([COLON] + digits + rest), |host|, a) ==
            a.(ok := true, host := Some(host), port := Some(ToShort(Decimal(digits, 0))),
               path := Some(if rest == [] then [SLASH] else rest))
  {
    hide ScanPort, Decimal, ToShort;
    var text, q := host + ([COLON] + digits + rest), |host| + 1 + |digits|;
    Pieces(host, digits, rest);
    ZeroShort();
    assert q < |text| ==> text[q] == rest[0];
    ScanPortReads(text, |host| + 1, digits, 0);
    WithPort(text, |host|, q, ToShort(Decimal(digits, 0)), a);
  }

  lemma WithPort(text: seq<Byte>, p: nat, q: nat, port: int, a: Answer)
    requires 0 < p <= URL_MAX_SIZE && p + 1 < q <= |text| && text[p] == COLON && a.tls.Some?
    requires ScanPort(text, p + 1, 0) == Some((q, port)) && |text| - q <= URL_MAX_SIZE
    ensures AfterHost(text, p, a) ==
            a.(ok := true, host := Some(text[..p]), port := Some(port),
               path := Some(if text[q..] == [] then [SLASH] else text[q..]))
  {
    hide ScanPort;
  }

  lemma ZeroShort()
    ensures ToShort(0) == 0
  {
  }

  lemma SchemeIsFound(tls: bool, text: seq<Byte>)
    ensures ParseUrl(Scheme(tls) + text) == ParseAuthority(text, tls)
  {
    var url := Scheme(tls) + text;
    assert url[..|Scheme(tls)|] == Scheme(tls) && url[|Scheme(tls)|..] == text;
    if tls {
      assert url[..|HTTP_SCHEME|][4] == 115;
    }
  }

  // ---------------------------------------------------------------------------
  // Nothing else is accepted
  // ---------------------------------------------------------------------------

  lemma {:induction false} ScanPortAccepts(text: seq<Byte>, p: nat, acc: int)
    requires p <= |text| && ScanPort(text, p, ToShort(acc)).Some?
    ensures var q := ScanPort(text, p, ToShort(acc)).value.0;
            && AllDigits(text[p..q])
            && (q < |text| ==> text[q] == SLASH)
            && ScanPort(text, p, ToShort(acc)).value.1 == ToShort(Decimal(text[p..q], acc))
    decreases |text| - p
  {
    if p < |text| && text[p] != SLASH {
      var next := 10 * acc + text[p] - 48;
      assert ToShort(10 * ToShort(acc) + text[p] - 48) == ToShort(next);
      ScanPortAccepts(text, p + 1, next);
      var q := ScanPort(text, p, ToShort(acc)).value.0;
      assert text[p..q] == [text[p]] + text[p + 1..q];
    }
  }

  /** The parts of an accepted text, from the index `p` where its host ends. */
  ghost predicate Decomposed(text: seq<Byte>, p: nat, digits: Option<seq<Byte>>, rest: seq<Byte>, tls: bool, a: Answer)
    requires p <= |text|
  {
    && a.host == Some(text[..p])
    && text[p..] == (if digits.Some? then [COLON] + digits.value else []) + rest
    && (digits.Some? ==> digits.value != [] && AllDigits(digits.value)
                         && a.port == Some(ToShort(Decimal(digits.value, 0)))
                         && (rest != [] ==> rest[0] == SLASH))
    && (digits.None? ==> a.port == Some(if tls then 443 else 80) && (rest != [] ==> rest[0] != COLON))
    && a.path == Some(if rest == [] then [SLASH] else rest)
    && |rest| <= URL_MAX_SIZE
  }

  lemma TailDecomposes(text: seq<Byte>, p: nat, tls: bool, a: Answer)
    returns (digits: Option<seq<Byte>>, rest: seq<Byte>)
    requires p <= |text| && a == REJECTED.(tls := Some(tls), ipv6 := a.ipv6) && AfterHost(text, p, a).ok
    ensures 0 < p <= URL_MAX_SIZE
    ensures Decomposed(text, p, digits, rest, tls, AfterHost(text, p, a))
  {
    if p < |text| && text[p] == COLON {
      digits, rest := PortDecomposes(text, p, tls, a);
    } else {
      digits, rest := None, text[p..];
      assert text[p..] == [] + text[p..];
    }
  }

  lemma PortDecomposes(text: seq<Byte>, p: nat, tls: bool, a: Answer)
    returns (digits: Option<seq<Byte>>, rest: seq<Byte>)
    requires p < |text| && text[p] == COLON
    requires a == REJECTED.(tls := Some(tls), ipv6 := a.ipv6) && AfterHost(text, p, a).ok
    ensures 0 < p <= URL_MAX_SIZE
    ensures Decomposed(text, p, digits, rest, tls, AfterHost(text, p, a))
  {
    hide Decimal, AllDigits, ToShort, ScanPort;
    ZeroShort();
    var (q, port) := ScanPort(text, p + 1, 0).value;
    assert p + 1 < q && |text| - q <= URL_MAX_SIZE;
    WithPort(text, p, q, port, a);
    hide AfterHost;
    ScanPortAccepts(text, p + 1, 0);
    digits, rest := Some(text[p + 1..q]), text[q..];
    assert text[p..] == [COLON] + text[p + 1..q] + text[q..];
  }

  /** The converse: an accepted URL is a scheme, a host, an optional ':' with digits, and a
      rest, in this order and with nothing between; the answers are these parts. A bracketed
      host without port can be followed by anything but ':'. */
  lemma AcceptedUrlsDecompose(url: seq<Byte>)
    returns (text: seq<Byte>, p: nat, digits: Option<seq<Byte>>, rest: seq<Byte>)
    requires ParseUrl(url).ok
    ensures var a := ParseUrl(url);
            && a.tls.Some? && url == Scheme(a.tls.value) + text
            && p <= |text| && IsHost(text[..p], a.ipv6)
            && Decomposed(text, p, digits, rest, a.tls.value, a)
            && (rest != [] && !a.ipv6 ==> rest[0] == SLASH)
  {
    var tls;
    tls, text := SchemeSplits(url);
    hide ParseUrl, Scheme;
    var ipv6, end := HostSplits(text, tls);
    p := end;
    var a := REJECTED.(tls := Some(tls), ipv6 := ipv6);
    hide ParseAuthority, AfterHost, Decomposed, IsHost;
    AfterHostKeeps(text, p, a);
    digits, rest := TailDecomposes(text, p, tls, a);
    if rest != [] && !ipv6 {
      PlainRest(text, p, digits, rest, tls, AfterHost(text, p, a));
    }
  }

  /** A URL that has one of the forms above. */
  ghost predicate IsUrl(
      url: seq<Byte>, tls: bool, host: seq<Byte>, ipv6: bool, digits: Option<seq<Byte>>, rest: seq<Byte>)
  {
    && url == Scheme(tls) + (host + PortPart(digits) + rest)
    && IsHost(host, ipv6) && IsPortPart(digits) && IsRest(rest, ipv6, digits)
  }

  /** Exactly these URLs are accepted. */
  lemma AcceptedIffWellFormed(url: seq<Byte>)
    ensures ParseUrl(url).ok
            <==> exists tls, host, ipv6, digits, rest :: IsUrl(url, tls, host, ipv6, digits, rest)
  {
    hide ParseUrl, IsHost, Decomposed;
    if ParseUrl(url).ok {
      var text, p, digits, rest := AcceptedUrlsDecompose(url);
      var a := ParseUrl(url);
      DecomposedIsUrl(text, p, digits, rest, a.tls.value, a);
      assert IsUrl(url, a.tls.value, text[..p], a.ipv6, digits, rest);
    }
    if tls, host, ipv6, digits, rest :| IsUrl(url, tls, host, ipv6, digits, rest) {
      WellFormedUrlsAreAccepted(tls, host, ipv6, digits, rest);
    }
  }

  lemma DecomposedIsUrl(text: seq<Byte>, p: nat, digits: Option<seq<Byte>>, rest: seq<Byte>, tls: bool, a: Answer)
    requires p <= |text| && Decomposed(text, p, digits, rest, tls, a)
    requires rest != [] && !a.ipv6 ==> rest[0] == SLASH
    ensures text == text[..p] + PortPart(digits) + rest && IsPortPart(digits) && IsRest(rest, a.ipv6, digits)
  {
    assert text == text[..p] + text[p..];
  }

  // ---------------------------------------------------------------------------
  // What a refused URL leaves
  // ---------------------------------------------------------------------------

  lemma OtherSchemesAreRefused(url: seq<Byte>)
    requires !(HTTP_SCHEME <= url) && !(HTTPS_SCHEME <= url)
    ensures ParseUrl(url) == Answer(false, None, false, None, None, None)
  {
  }

  /** A text that starts with no usable host: an empty one, one that is too long, or a '[' that
      is not closed. */
  ghost predicate HasNoHost(text: seq<Byte>) {
    if text != [] && text[0] == OPEN_BRACKET then
      CLOSE_BRACKET !in text
    else
      || text == [] || text[0] == SLASH || text[0] == COLON
      || (|text| > URL_MAX_SIZE && SLASH !in text[..URL_MAX_SIZE + 1] && COLON !in text[..URL_MAX_SIZE + 1])
  }

  /** Without a host only the type is written. */
  lemma HostRefused(tls: bool, text: seq<Byte>)
    requires HasNoHost(text)
    ensures ParseUrl(Scheme(tls) + text) == Answer(false, Some(tls), false, None, None, None)
  {
    SchemeIsFound(tls, text);
    hide ParseUrl, Scheme;
    if text != [] && text[0] == OPEN_BRACKET {
      assert Find(text, CLOSE_BRACKET, 1) == |text|;
    } else if text != [] && text[0] != SLASH && text[0] != COLON {
      assert forall j :: 0 <= j <= URL_MAX_SIZE ==> text[..URL_MAX_SIZE + 1][j] == text[j];
    }
  }

  /** A bracketed host that is too long: the IPv6 mark is set as well. */
  lemma LongBracketsRefused(tls: bool, text: seq<Byte>, close: nat)
    requires close < |text| && text[0] == OPEN_BRACKET && text[close] == CLOSE_BRACKET
    requires CLOSE_BRACKET !in text[..close] && close >= URL_MAX_SIZE
    ensures ParseUrl(Scheme(tls) + text) == Answer(false, Some(tls), true, None, None, None)
  {
    SchemeIsFound(tls, text);
    hide ParseUrl, Scheme;
    assert forall j :: 0 <= j < close ==> text[..close][j] == text[j];
  }

  /** What is no port: nothing, or something else than digits, up to the first '/'. */
  ghost predicate IsNoPort(port: seq<Byte>) {
    SLASH !in port && (port == [] || !AllDigits(port))
  }

  /** A ':' with no port behind it: type and address are written. */
  lemma PortRefused(tls: bool, host: seq<Byte>, ipv6: bool, port: seq<Byte>, rest: seq<Byte>)
    requires IsHost(host, ipv6) && IsNoPort(port) && (rest != [] ==> rest[0] == SLASH)
    ensures ParseUrl(Scheme(tls) + (host + ([COLON] + port + rest)))
            == Answer(false, Some(tls), ipv6, Some(host), None, None)
  {
    var tail := [COLON] + port + rest;
    var text, a := host + tail, REJECTED.(tls := Some(tls), ipv6 := ipv6);
    SchemeIsFound(tls, text);
    HostIsFound(host, ipv6, tail, tls);
    PortIsRefused(host, port, rest, a);
    hide ParseUrl, ParseAuthority, AfterHost;
  }

  lemma PortIsRefused(host: seq<Byte>, port: seq<Byte>, rest: seq<Byte>, a: Answer)
    requires 0 < |host| <= URL_MAX_SIZE && a.tls.Some? && IsNoPort(port) && (rest != [] ==> rest[0] == SLASH)
    ensures AfterHost(host + ([COLON] + port + rest), |host|, a) == a.(host := Some(host))
  {
    hide ScanPort;
    var text, q := host + ([COLON] + port + rest), |host| + 1 + |port|;
    Pieces(host, port, rest);
    assert q < |text| ==> text[q] == rest[0];
    ScanPortRefuses(text, |host| + 1, port, 0);
    hide AllDigits;
  }

  lemma {:induction false} ScanPortRefuses(text: seq<Byte>, p: nat, port: seq<Byte>, acc: int)
    requires p + |port| <= |text| && text[p..p + |port|] == port && SLASH !in port
    requires p + |port| < |text| ==> text[p + |port|] == SLASH
    ensures !AllDigits(port) ==> ScanPort(text, p, acc) == None
    ensures port == [] ==> ScanPort(text, p, acc) == Some((p, acc))
    decreases |port|
  {
    if port != [] {
      assert text[p] == port[0];
      assert text[p + 1..p + 1 + |port[1..]|] == port[1..];
      assert port == [port[0]] + port[1..];
      if IsDigit(text[p]) {
        ScanPortRefuses(text, p + 1, port[1..], ToShort(10 * acc + text[p] - 48));
      }
    }
  }

  /** A rest that is too long: type, address and port are written. */
  lemma RestRefused(tls: bool, host: seq<Byte>, ipv6: bool, digits: Option<seq<Byte>>, rest: seq<Byte>)
    requires IsHost(host, ipv6) && IsPortPart(digits) && |rest| > URL_MAX_SIZE
    requires if ipv6 && digits.None? then rest[0] != COLON else rest[0] == SLASH
    ensures ParseUrl(Scheme(tls) + (host + (PortPart(digits) + rest))) ==
            Answer(false, Some(tls), ipv6, Some(host),
                   Some(if digits.Some? then ToShort(Decimal(digits.value, 0)) else if tls then 443 else 80), None)
  {
    var tail := PortPart(digits) + rest;
    var text, a := host + tail, REJECTED.(tls := Some(tls), ipv6 := ipv6);
    SchemeIsFound(tls, text);
    HostIsFound(host, ipv6, tail, tls);
    if digits.None? {
      var plain := host + ([] + rest);
      assert plain[..|host|] == host && plain[|host|] == rest[0];
      LongRest(text, |host|, a);
    } else {
      LongRestBehindPort(host, digits.value, rest, a);
    }
    hide ParseUrl, ParseAuthority, AfterHost, ToShort, Decimal;
  }

  lemma LongRest(text: seq<Byte>, p: nat, a: Answer)
    requires 0 < p <= URL_MAX_SIZE && |text| - p > URL_MAX_SIZE && text[p] != COLON && a.tls.Some?
    ensures AfterHost(text, p, a) == a.(host := Some(text[..p]), port := Some(if a.tls.value then 443 else 80))
  {
  }

  lemma LongRestBehindPort(host: seq<Byte>, digits: seq<Byte>, rest: seq<Byte>, a: Answer)
    requires 0 < |host| <= URL_MAX_SIZE && a.tls.Some? && digits != [] && AllDigits(digits)
    requires |rest| > URL_MAX_SIZE && rest[0] == SLASH
    ensures AfterHost(host + ([COLON] + digits + rest), |host|, a) ==
            a.(host := Some(host), port := Some(ToShort(Decimal(digits, 0))))
  {
    hide ScanPort, Decimal, ToShort;
    var text, q := host + ([COLON] + digits + rest), |host| + 1 + |digits|;
    Pieces(host, digits, rest);
    ZeroShort();
    assert text[q] == rest[0];
    ScanPortReads(text, |host| + 1, digits, 0);
    hide AllDigits;
  }

  lemma SchemeSplits(url: seq<Byte>) returns (tls: bool, text: seq<Byte>)
    requires ParseUrl(url).ok
    ensures url == Scheme(tls) + text && ParseUrl(url) == ParseAuthority(text, tls)
  {
    hide ParseAuthority;
    tls := !StartsWith(url, HTTP_SCHEME);
    text := url[|Scheme(tls)|..];
  }

  lemma HostSplits(text: seq<Byte>, tls: bool) returns (ipv6: bool, p: nat)
    requires ParseAuthority(text, tls).ok
    ensures p <= |text| && ParseAuthority(text, tls) == AfterHost(text, p, REJECTED.(tls := Some(tls), ipv6 := ipv6))
    ensures 0 < p <= URL_MAX_SIZE ==> IsHost(text[..p], ipv6)
    ensures !ipv6 && p < |text| ==> text[p] == SLASH || text[p] == COLON
  {
    hide AfterHost;
    ipv6 := text != [] && text[0] == OPEN_BRACKET;
    p := if ipv6 then Find(text, CLOSE_BRACKET, 1) + 1 else HostEnd(text, 0);
  }

  lemma AfterHostKeeps(text: seq<Byte>, p: nat, a: Answer)
    requires p <= |text| && a.tls.Some?
    ensures AfterHost(text, p, a).tls == a.tls && AfterHost(text, p, a).ipv6 == a.ipv6
  {
    hide ScanPort;
  }

  lemma PlainRest(text: seq<Byte>, p: nat, digits: Option<seq<Byte>>, rest: seq<Byte>, tls: bool, a: Answer)
    requires p <= |text| && Decomposed(text, p, digits, rest, tls, a) && rest != []
    requires p < |text| ==> text[p] == SLASH || text[p] == COLON
    ensures rest[0] == SLASH
  {
    if digits.None? {
      assert text[p..] == [] + rest == rest;
      assert text[p..][0] == text[p];
    }
  }
}
