/** The FTP URL parser `sc_parse_ftp_server_addr`. URLs are byte strings without a zero byte. */
module FtpUrl {
  import opened Bytes
  import opened CString
  import opened Decimals

  // Size of each of the caller's text buffers, terminator included.
  const FIELD_SIZE := 256
  const FTP_SCHEME: seq<Byte> := [102, 116, 112, 58, 47, 47]        // ftp://
  const FTPS_SCHEME: seq<Byte> := [102, 116, 112, 115, 58, 47, 47]  // ftps://

  /** What a successful call leaves in its out-parameters (None: not written), a refusal, or a
      copy that leaves a buffer or starts from a null pointer. */
  datatype Answer =
    | Parsed(
        tls: bool,
        user: Option<seq<Byte>>,
        password: Option<seq<Byte>>,
        host: seq<Byte>,
        port: int,
        file: seq<Byte>)
    | Refused
    | Wild

  datatype Credentials = Credentials(user: Option<seq<Byte>>, password: Option<seq<Byte>>)

  /** `sscanf(text, "%[^:]:%[^@]@", user, password)`: each field must have a byte. */
  function ScanCredentials(text: seq<Byte>): Credentials {
    var u := Find(text, COLON, 0);
    if u == 0 then Credentials(None, None)
    else if u == |text| then Credentials(Some(text), None)
    else
      var w := Find(text, AT, u + 1);
      if w == u + 1 then Credentials(Some(text[..u]), None)
      else Credentials(Some(text[..u]), Some(text[u + 1..w]))
  }

  predicate Fits(field: Option<seq<Byte>>) {
    field.Some? ==> |field.value| < FIELD_SIZE
  }

  function Scheme(tls: bool): seq<Byte> {
    if tls then FTPS_SCHEME else FTP_SCHEME
  }

  function ParseFtp(url: seq<Byte>): Answer {
    if StartsWith(url, FTP_SCHEME) then ParseText(url[|FTP_SCHEME|..], false)
    else if StartsWith(url, FTPS_SCHEME) then ParseText(url[|FTPS_SCHEME|..], true)
    else Refused
  }

  function ParseText(text: seq<Byte>, tls: bool): Answer {
    var at := Find(text, AT, 0);
    var c := if at < |text| then ScanCredentials(text) else Credentials(None, None);
    if !Fits(c.user) || !Fits(c.password) then Wild
    else ParseServer(if c.password.Some? && at < |text| then text[at + 1..] else text, tls, c)
  }

  /** The part behind the credentials. The host ends at the last ':' of all that follows, unless
      that one lies behind the first '/', and at the '/' then. */
  function ParseServer(text: seq<Byte>, tls: bool, c: Credentials): Answer {
    var end := Find(text, SLASH, 0);
    if end == |text| then Wild
    else
      var last := FindLast(text, COLON, |text|);
      var colon: nat := if last > end || last < 0 then end else last;
      match Atoi(text + [0], colon + 1)
      case None => Wild
      case Some(number) =>
        var file := text[end + 1..];
        if colon >= FIELD_SIZE || |file| >= FIELD_SIZE then Wild
        else Parsed(tls, c.user, c.password, text[..colon], ToShort(number), file)
  }

  // ---------------------------------------------------------------------------
  // The parser on the caller's buffers
  // ---------------------------------------------------------------------------

  /** `buf` starts with `text` and a terminator. */
  ghost predicate Holds(buf: array<Byte>, text: seq<Byte>)
    reads buf
  {
    |text| < buf.Length && buf[..|text|] == text && buf[|text|] == 0
  }

  method CopyString(buf: array<Byte>, text: seq<Byte>)
    requires |text| < buf.Length
    modifies buf
    ensures Holds(buf, text)
  {
    forall i | 0 <= i < |text| {
      buf[i] := text[i];
    }
    buf[|text|] := 0;
  }

  /** The parser with the caller's four text buffers. It needs a URL whose copies stay inside
      them; a refused URL leaves them alone. */
  method ParseFtpServerAddr(url: seq<Byte>, username: array<Byte>, password: array<Byte>,
                            sAddr: array<Byte>, filename: array<Byte>)
    returns (ok: bool, tls: bool, port: int)
    requires username.Length == password.Length == sAddr.Length == filename.Length == FIELD_SIZE
    requires username != password && username != sAddr && username != filename
    requires password != sAddr && password != filename && sAddr != filename
    requires !ParseFtp(url).Wild?
    modifies username, password, sAddr, filename
    ensures ok <==> ParseFtp(url).Parsed?
    ensures !ok ==> unchanged(username) && unchanged(password) && unchanged(sAddr) && unchanged(filename)
    ensures ok ==>
              var a := ParseFtp(url);
              && tls == a.tls && port == a.port
              && (if a.user.Some? then Holds(username, a.user.value) else unchanged(username))
              && (if a.password.Some? then Holds(password, a.password.value) else unchanged(password))
              && Holds(sAddr, a.host) && Holds(filename, a.file)
  {
    hide Holds, ParseServer, ScanCredentials;
    ok, tls, port := false, false, 0;
    var text := [];
    if StartsWith(url, FTP_SCHEME) {
      text := url[|FTP_SCHEME|..];
    } else if StartsWith(url, FTPS_SCHEME) {
      text, tls := url[|FTPS_SCHEME|..], true;
    } else {
      return;
    }
    assert ParseFtp(url) == ParseText(text, tls);
    var c, start := ReadCredentials(text, username, password);
    assert ParseFtp(url) == ParseServer(start, tls, c);
    hide ParseFtp, ParseText;
    ParsedCarries(start, tls, c);
    port := ReadServer(start, tls, c, sAddr, filename);
    ok := true;
  }

  lemma ParsedCarries(text: seq<Byte>, tls: bool, c: Credentials)
    ensures var a := ParseServer(text, tls, c);
            !a.Refused? && (a.Parsed? ==> a.tls == tls && a.user == c.user && a.password == c.password)
  {
    hide Atoi, ToShort;
  }

  /** The `strchr` and `sscanf` part. */
  method ReadCredentials(text: seq<Byte>, username: array<Byte>, password: array<Byte>)
    returns (c: Credentials, start: seq<Byte>)
    requires username.Length == password.Length == FIELD_SIZE && username != password
    requires var c := ScanCredentials(text); Find(text, AT, 0) < |text| ==> Fits(c.user) && Fits(c.password)
    modifies username, password
    ensures c == if Find(text, AT, 0) < |text| then ScanCredentials(text) else Credentials(None, None)
    ensures start == if c.password.Some? then text[Find(text, AT, 0) + 1..] else text
    ensures if c.user.Some? then Holds(username, c.user.value) else unchanged(username)
    ensures if c.password.Some? then Holds(password, c.password.value) else unchanged(password)
  {
    hide Holds, ScanCredentials;
    c, start := Credentials(None, None), text;
    var at := Find(text, AT, 0);
    if at < |text| {
      c := ScanCredentials(text);
      if c.user.Some? {
        CopyString(username, c.user.value);
      }
      if c.password.Some? {
        CopyString(password, c.password.value);
        start := text[at + 1..];
      }
    }
  }

  /** Host, port and file name. */
  method ReadServer(text: seq<Byte>, tls: bool, c: Credentials, sAddr: array<Byte>, filename: array<Byte>)
    returns (port: int)
    requires sAddr.Length == filename.Length == FIELD_SIZE && sAddr != filename
    requires ParseServer(text, tls, c).Parsed?
    modifies sAddr, filename
    ensures var a := ParseServer(text, tls, c);
            port == a.port && Holds(sAddr, a.host) && Holds(filename, a.file)
  {
    hide Holds, ToShort, Atoi;
    var end := Find(text, SLASH, 0);
    var last := FindLast(text, COLON, |text|);
    var colon: nat := if last > end || last < 0 then end else last;
    CopyString(sAddr, text[..colon]);
    port := ToShort(Atoi(text + [0], colon + 1).value);
    CopyString(filename, text[end + 1..]);
  }

  // ---------------------------------------------------------------------------
  // Round trip
  // ---------------------------------------------------------------------------

  function PrintServer(host: seq<Byte>, port: nat, file: seq<Byte>): seq<Byte> {
    host + ([COLON] + Numeral(port) + ([SLASH] + file))
  }

  function PrintCredentials(user: seq<Byte>, password: seq<Byte>): seq<Byte> {
    user + [COLON] + password + [AT]
  }

  /** The pieces of a printed server part behind some other text, by index. */
  lemma ServerPieces(x: seq<Byte>, host: seq<Byte>, port: nat, file: seq<Byte>)
    ensures var text := x + PrintServer(host, port, file);
            var colon := |x| + |host|;
            var end := colon + 1 + |Numeral(port)|;
            && |text| == end + 1 + |file|
            && text[..|x|] == x && text[|x|..colon] == host && text[colon] == COLON
            && text[colon + 1..end] == Numeral(port)
            && text[end] == SLASH && text[end + 1..] == file
            && (forall j :: |x| <= j < colon ==> text[j] == host[j - |x|])
            && (forall j :: colon < j < end ==> IsDigit(text[j]))
            && (forall j :: end < j < |text| ==> text[j] == file[j - end - 1])
  {
    var text, colon, digits := x + PrintServer(host, port, file), |x| + |host|, Numeral(port);
    var end := colon + 1 + |digits|;
    hide Numeral, IsDigit;
    assert text[colon + 1..end] == digits && text[end + 1..] == file;
    assert text[|x|..colon] == host;
    forall j | colon < j < end
      ensures IsDigit(text[j])
    {
      assert text[j] == digits[j - colon - 1];
    }
  }

  /** When the file name is taken from behind the printed '/', the host ends at or behind the
      printed ':'. */
  lemma HostEndsLate(x: seq<Byte>, host: seq<Byte>, port: nat, file: seq<Byte>)
    ensures var text := x + PrintServer(host, port, file);
            var colon := |x| + |host|;
            var end := colon + 1 + |Numeral(port)|;
            && Find(text, SLASH, 0) <= end
            && (Find(text, SLASH, 0) == end ==> SLASH !in host)
            && FindLast(text, COLON, |text|) >= colon
            && (FindLast(text, COLON, |text|) <= end ==> COLON !in file)
            && (SLASH !in host && x == [] ==> Find(text, SLASH, 0) == end)
            && (COLON !in file ==> FindLast(text, COLON, |text|) == colon)
  {
    var text, colon := x + PrintServer(host, port, file), |x| + |host|;
    var end := colon + 1 + |Numeral(port)|;
    ServerPieces(x, host, port, file);
    hide Numeral, PrintServer;
    hide Find, FindLast;
    var first, last := Find(text, SLASH, 0), FindLast(text, COLON, |text|);
    assert text[colon] == COLON && text[end] == SLASH;
    forall j | 0 <= j < |host|
      ensures first == end ==> host[j] != SLASH
    {
      assert text[|x| + j] == host[j];
    }
    forall j | 0 <= j < |file|
      ensures last <= end ==> file[j] != COLON
    {
      assert text[end + 1 + j] == file[j];
    }
  }

  /** Host, port and file come back if and only if nothing stands before them, the host has no
      '/', the file name no ':', and both fit. */
  lemma ServerRoundTrip(x: seq<Byte>, host: seq<Byte>, port: nat, file: seq<Byte>, tls: bool, c: Credentials)
    ensures (ParseServer(x + PrintServer(host, port, file), tls, c)
             == Parsed(tls, c.user, c.password, host, ToShort(port), file))
            <==> (x == [] && SLASH !in host && COLON !in file && |host| < FIELD_SIZE && |file| < FIELD_SIZE)
  {
    ServerPieces(x, host, port, file);
    HostEndsLate(x, host, port, file);
    PortIsRead(x, host, port, file);
    hide Numeral, PrintServer, ToShort, Atoi, Find, FindLast;
  }

  lemma PortIsRead(x: seq<Byte>, host: seq<Byte>, port: nat, file: seq<Byte>)
    ensures Atoi(x + PrintServer(host, port, file) + [0], |x| + |host| + 1) == Some(port)
  {
    var text, digits, start := x + PrintServer(host, port, file), Numeral(port), |x| + |host| + 1;
    ServerPieces(x, host, port, file);
    hide Numeral, PrintServer, Atoi;
    assert (text + [0])[start..start + |digits|] == text[start..start + |digits|];
    AtoiIsNumber(text + [0], start, start, [], digits);
    DecimalOfNumeral(port);
  }

  lemma SchemeIsFound(tls: bool, text: seq<Byte>)
    ensures ParseFtp(Scheme(tls) + text) == ParseText(text, tls)
  {
    hide ParseText;
    var url := Scheme(tls) + text;
    assert url[..|Scheme(tls)|] == Scheme(tls) && url[|Scheme(tls)|..] == text;
    if tls {
      assert url[..|FTP_SCHEME|][3] == 115;
    }
  }

  /** Printed credentials before some text, by index. */
  lemma CredentialPieces(user: seq<Byte>, password: seq<Byte>, rest: seq<Byte>)
    ensures var text := PrintCredentials(user, password) + rest;
            var u, at := |user|, |user| + 1 + |password|;
            && at < |text|
            && text[..u] == user && text[u] == COLON
            && text[u + 1..at] == password && text[at] == AT && text[at + 1..] == rest
            && (forall j :: 0 <= j < u ==> text[j] == user[j])
            && (forall j :: u < j < at ==> text[j] == password[j - u - 1])
  {
    var text, u, at := PrintCredentials(user, password) + rest, |user|, |user| + 1 + |password|;
    assert text[..u] == user;
    assert text[u + 1..at] == password && text[at + 1..] == rest;
  }

  /** Where the first '@' of printed credentials is. */
  lemma FirstAtSign(user: seq<Byte>, password: seq<Byte>, rest: seq<Byte>)
    ensures var text := PrintCredentials(user, password) + rest;
            var at, first := |user| + 1 + |password|, Find(text, AT, 0);
            && first <= at < |text|
            && text[first + 1..] == text[first + 1..at + 1] + rest
            && (first == at <==> AT !in user && AT !in password)
  {
    var text, u, at := PrintCredentials(user, password) + rest, |user|, |user| + 1 + |password|;
    CredentialPieces(user, password, rest);
    hide PrintCredentials, Find;
    var first := Find(text, AT, 0);
    assert text[first + 1..] == text[first + 1..at + 1] + text[at + 1..];
    forall j | 0 <= j < |user|
      ensures first == at ==> user[j] != AT
    {
      assert text[j] == user[j];
    }
    forall j | 0 <= j < |password|
      ensures first == at ==> password[j] != AT
    {
      assert text[u + 1 + j] == password[j];
    }
  }

  /** What `sscanf` makes of printed credentials. */
  lemma CredentialsAreRead(user: seq<Byte>, password: seq<Byte>, rest: seq<Byte>)
    ensures ScanCredentials(PrintCredentials(user, password) + rest) == Credentials(Some(user), Some(password))
            <==> user != [] && COLON !in user && password != [] && AT !in password
  {
    var text, u, at := PrintCredentials(user, password) + rest, |user|, |user| + 1 + |password|;
    CredentialPieces(user, password, rest);
    hide PrintCredentials, Find;
    var colon, w := Find(text, COLON, 0), Find(text, AT, u + 1);
    forall j | 0 <= j < |user|
      ensures colon == u ==> user[j] != COLON
    {
      assert text[j] == user[j];
    }
    forall j | 0 <= j < |password|
      ensures w == at ==> password[j] != AT
    {
      assert text[u + 1 + j] == password[j];
    }
    assert |text[..colon]| == colon;
    assert |text[u + 1..w]| == w - u - 1;
  }

  /** Main result, for all fields: parsing a printed FTP URL recovers every field and the
      scheme if and only if user and password are not empty, the user has no ':' and no '@', the
      password no '@', the host no '/', the file name no ':', and all four fit their buffers. */
  lemma FtpRoundTrip(
      tls: bool, user: seq<Byte>, password: seq<Byte>, host: seq<Byte>, port: nat, file: seq<Byte>)
    ensures (ParseFtp(Scheme(tls) + (PrintCredentials(user, password) + PrintServer(host, port, file)))
             == Parsed(tls, Some(user), Some(password), host, ToShort(port), file))
            <==> (&& 0 < |user| < FIELD_SIZE && COLON !in user && AT !in user
                  && 0 < |password| < FIELD_SIZE && AT !in password
                  && |host| < FIELD_SIZE && SLASH !in host
                  && |file| < FIELD_SIZE && COLON !in file)
    ensures ToShort(port) == port <==> port <= 32767
  {
    var server, c := PrintServer(host, port, file), Credentials(Some(user), Some(password));
    var text := PrintCredentials(user, password) + server;
    ShortIsExactIff(port);
    SchemeIsFound(tls, text);
    hide ToShort, PrintServer, PrintCredentials, ParseFtp;
    CredentialsAreRead(user, password, server);
    FirstAtSign(user, password, server);
    var at, first := |user| + 1 + |password|, Find(text, AT, 0);
    ServerRoundTrip(text[first + 1..at + 1], host, port, file, tls, c);
    TextCarries(text, tls);
    hide ParseServer, ScanCredentials, Find;
  }

  /** An answer has the credentials that were scanned, and they fit. */
  lemma TextCarries(text: seq<Byte>, tls: bool)
    ensures var c := if Find(text, AT, 0) < |text| then ScanCredentials(text) else Credentials(None, None);
            ParseText(text, tls).Parsed? ==>
              ParseText(text, tls).user == c.user && ParseText(text, tls).password == c.password
  {
    hide ParseServer, ScanCredentials, Find;
    var at := Find(text, AT, 0);
    var c := if at < |text| then ScanCredentials(text) else Credentials(None, None);
    ParsedCarries(if c.password.Some? && at < |text| then text[at + 1..] else text, tls, c);
  }

  /** The same for a URL without credentials: an '@' in it breaks the parse as well, unless the
      host is empty or starts with ':'. */
  lemma AnonymousRoundTrip(tls: bool, host: seq<Byte>, port: nat, file: seq<Byte>)
    ensures (ParseFtp(Scheme(tls) + PrintServer(host, port, file))
             == Parsed(tls, None, None, host, ToShort(port), file))
            <==> (&& |host| < FIELD_SIZE && SLASH !in host
                  && |file| < FIELD_SIZE && COLON !in file
                  && ((AT !in host && AT !in file) || host == [] || host[0] == COLON))
  {
    var text := PrintServer(host, port, file);
    SchemeIsFound(tls, text);
    assert [] + text == text;
    hide ToShort, PrintServer, ParseFtp;
    ServerMarks(host, port, file);
    UserIsAbsentIff(host, port, file);
    TextCarries(text, tls);
    ServerRoundTrip([], host, port, file, tls, Credentials(None, None));
    hide ParseServer, Find;
  }

  /** The first ':' of a printed server part, and whether it has an '@'. */
  lemma ServerMarks(host: seq<Byte>, port: nat, file: seq<Byte>)
    ensures var text := PrintServer(host, port, file);
            && (Find(text, AT, 0) < |text| <==> AT in host || AT in file)
            && Find(text, COLON, 0) < |text|
            && (Find(text, COLON, 0) == 0 <==> host == [] || host[0] == COLON)
  {
    var text, digits := PrintServer(host, port, file), Numeral(port);
    assert AT !in digits;
    assert text[|host|] == COLON;
    hide Numeral, IsDigit, Find;
    assert AT in text <==> AT in host || AT in file;
    assert text[0] == if host == [] then COLON else host[0];
  }

  lemma UserIsAbsentIff(host: seq<Byte>, port: nat, file: seq<Byte>)
    ensures ScanCredentials(PrintServer(host, port, file)).user == None <==> host == [] || host[0] == COLON
  {
    ServerMarks(host, port, file);
    hide PrintServer, Find;
  }

  /** Exactly the URLs without one of the two schemes are refused. */
  lemma RefusedIffOtherScheme(url: seq<Byte>)
    ensures ParseFtp(url).Refused? <==> !(FTP_SCHEME <= url) && !(FTPS_SCHEME <= url)
  {
    hide ParseText;
    if FTP_SCHEME <= url {
      TextIsNotRefused(url[|FTP_SCHEME|..], false);
    } else if FTPS_SCHEME <= url {
      TextIsNotRefused(url[|FTPS_SCHEME|..], true);
    }
  }

  lemma TextIsNotRefused(text: seq<Byte>, tls: bool)
    ensures !ParseText(text, tls).Refused?
  {
    hide ParseServer, ScanCredentials, Find;
    var at := Find(text, AT, 0);
    var c := if at < |text| then ScanCredentials(text) else Credentials(None, None);
    ParsedCarries(if c.password.Some? && at < |text| then text[at + 1..] else text, tls, c);
  }

  // ---------------------------------------------------------------------------
  // URLs without a port
  // ---------------------------------------------------------------------------

  function PrintPortless(host: seq<Byte>, file: seq<Byte>): seq<Byte> {
    host + ([SLASH] + file)
  }

  /** The port of such a URL: the number, if any, that the file name begins with. */
  function PortOfFile(file: seq<Byte>): Option<int> {
    match Atoi(file + [0], 0)
    case None => None
    case Some(number) => Some(ToShort(number))
  }

  /** Host and file name come back if and only if the host has no '/', both fit, and a ':' of the
      host, which would end it, is made good by one in the file name. */
  lemma PortlessServer(host: seq<Byte>, file: seq<Byte>, tls: bool, c: Credentials)
    ensures PortOfFile(file).Some?
    ensures (ParseServer(PrintPortless(host, file), tls, c)
             == Parsed(tls, c.user, c.password, host, PortOfFile(file).value, file))
            <==> (&& SLASH !in host && (COLON !in host || COLON in file)
                  && |host| < FIELD_SIZE && |file| < FIELD_SIZE)
  {
    var text, end := PrintPortless(host, file), |host|;
    assert text[..end] == host && text[end] == SLASH && text[end + 1..] == file;
    FileNumber(host, file);
    PortlessMarks(host, file);
    hide Atoi, Find, FindLast, ToShort, PrintPortless, ParseServer;
    var first, last := Find(text, SLASH, 0), FindLast(text, COLON, |text|);
    var colon: nat := if last > first || last < 0 then first else last;
    ServerParts(text, tls, c, first, colon);
    if first < end {
      assert |text[first + 1..]| > |file|;
    } else if colon < end {
      assert |text[..colon]| < |host|;
    }
  }

  /** The parts that are answered, by their ends. */
  lemma ServerParts(text: seq<Byte>, tls: bool, c: Credentials, first: nat, colon: nat)
    requires first == Find(text, SLASH, 0) < |text|
    requires var last := FindLast(text, COLON, |text|); colon == if last > first || last < 0 then first else last
    ensures colon <= first
    ensures var a := ParseServer(text, tls, c);
            && (a.Parsed? ==> a.host == text[..colon] && a.file == text[first + 1..])
            && (a.Parsed? ==> |a.host| < FIELD_SIZE && |a.file| < FIELD_SIZE)
            && (Atoi(text + [0], colon + 1).Some? && colon < FIELD_SIZE && |text[first + 1..]| < FIELD_SIZE ==>
                  a == Parsed(tls, c.user, c.password, text[..colon],
                              ToShort(Atoi(text + [0], colon + 1).value), text[first + 1..]))
  {
    hide Atoi, Find, FindLast, ToShort;
  }

  lemma FileNumber(host: seq<Byte>, file: seq<Byte>)
    ensures Atoi(PrintPortless(host, file) + [0], |host| + 1) == Atoi(file + [0], 0)
    ensures Atoi(file + [0], 0).Some?
  {
    var front := host + [SLASH];
    assert PrintPortless(host, file) + [0] == front + (file + [0]);
    AtoiBehind(front, file + [0], 0);
    ZeroEndsAtoi(file + [0], 0);
  }

  lemma ZeroEndsAtoi(mem: seq<Byte>, p: nat)
    requires p < |mem| && mem[|mem| - 1] == 0
    ensures Atoi(mem, p).Some?
  {
    ZeroEndsBlanks(mem, p);
    var q := SkipBlanks(mem, p).value;
    ZeroEndsDigits(mem, q, 0);
    if q + 1 < |mem| {
      ZeroEndsDigits(mem, q + 1, 0);
    }
  }

  lemma {:induction false} ZeroEndsBlanks(mem: seq<Byte>, p: nat)
    requires p < |mem| && mem[|mem| - 1] == 0
    ensures SkipBlanks(mem, p).Some?
    decreases |mem| - p
  {
    if IsBlank(mem[p]) {
      ZeroEndsBlanks(mem, p + 1);
    }
  }

  lemma {:induction false} ZeroEndsDigits(mem: seq<Byte>, p: nat, acc: int)
    requires p < |mem| && mem[|mem| - 1] == 0
    ensures AtoiDigits(mem, p, acc).Some?
    decreases |mem| - p
  {
    if IsDigit(mem[p]) {
      ZeroEndsDigits(mem, p + 1, 10 * acc + mem[p] - 48);
    }
  }

  lemma PortlessMarks(host: seq<Byte>, file: seq<Byte>)
    ensures var text := PrintPortless(host, file);
            var first, last := Find(text, SLASH, 0), FindLast(text, COLON, |text|);
            && first <= |host|
            && (first == |host| <==> SLASH !in host)
            && (last > |host| <==> COLON in file)
            && (COLON !in file ==> (last < 0 <==> COLON !in host))
            && last != |host|
  {
    var text := PrintPortless(host, file);
    assert text[..|host|] == host && text[|host|] == SLASH && text[|host| + 1..] == file;
    hide Find, FindLast;
    var first, last := Find(text, SLASH, 0), FindLast(text, COLON, |text|);
    forall j | 0 <= j < |host|
      ensures host[j] == text[j]
    {
    }
    forall j | 0 <= j < |file|
      ensures file[j] == text[|host| + 1 + j]
    {
    }
    assert SLASH in host ==> first < |host|;
    assert first < |host| ==> host[first] == SLASH;
    assert last > |host| ==> file[last - |host| - 1] == COLON;
    assert 0 <= last < |host| ==> host[last] == COLON;
  }

  /** The same for the whole URL, with credentials that `FtpRoundTrip` recovers. */
  lemma PortlessRoundTrip(tls: bool, user: seq<Byte>, password: seq<Byte>, host: seq<Byte>, file: seq<Byte>)
    requires 0 < |user| < FIELD_SIZE && COLON !in user && AT !in user
    requires 0 < |password| < FIELD_SIZE && AT !in password
    ensures PortOfFile(file).Some?
    ensures (ParseFtp(Scheme(tls) + (PrintCredentials(user, password) + PrintPortless(host, file)))
             == Parsed(tls, Some(user), Some(password), host, PortOfFile(file).value, file))
            <==> (&& SLASH !in host && (COLON !in host || COLON in file)
                  && |host| < FIELD_SIZE && |file| < FIELD_SIZE)
  {
    var server := PrintPortless(host, file);
    var text := PrintCredentials(user, password) + server;
    SchemeIsFound(tls, text);
    hide PrintPortless, PrintCredentials, ParseFtp, PortOfFile;
    CredentialsAreRead(user, password, server);
    FirstAtSign(user, password, server);
    assert text[Find(text, AT, 0) + 1..] == server;
    PortlessServer(host, file, tls, Credentials(Some(user), Some(password)));
    hide ParseServer, ScanCredentials, Find;
  }

  /** And without credentials, when there is no '@' that suggests them. */
  lemma AnonymousPortless(tls: bool, host: seq<Byte>, file: seq<Byte>)
    requires AT !in host && AT !in file
    ensures PortOfFile(file).Some?
    ensures (ParseFtp(Scheme(tls) + PrintPortless(host, file))
             == Parsed(tls, None, None, host, PortOfFile(file).value, file))
            <==> (&& SLASH !in host && (COLON !in host || COLON in file)
                  && |host| < FIELD_SIZE && |file| < FIELD_SIZE)
  {
    SchemeIsFound(tls, PrintPortless(host, file));
    NoAtInServer(host, file);
    PortlessServer(host, file, tls, Credentials(None, None));
    hide PrintPortless, ParseServer, ParseFtp, PortOfFile, ScanCredentials, Find;
  }

  lemma NoAtInServer(host: seq<Byte>, file: seq<Byte>)
    requires AT !in host && AT !in file
    ensures Find(PrintPortless(host, file), AT, 0) == |PrintPortless(host, file)|
  {
    assert AT !in PrintPortless(host, file);
    hide Find;
  }

  /** A user without a password: nothing is scanned off, the user is the whole text, and the host
      is user, '@' and host. */
  lemma UserWithoutPassword(tls: bool, user: seq<Byte>, host: seq<Byte>, file: seq<Byte>)
    requires COLON !in user && SLASH !in user && COLON !in host && SLASH !in host && COLON !in file
    requires |user| + 1 + |host| + 1 + |file| < FIELD_SIZE
    ensures PortOfFile(file).Some?
    ensures var text := PrintPortless(user + [AT] + host, file);
            ParseFtp(Scheme(tls) + text)
            == Parsed(tls, Some(text), None, user + [AT] + host, PortOfFile(file).value, file)
  {
    var server := user + [AT] + host;
    var text := PrintPortless(server, file);
    assert COLON !in text && AT in text && |text| == |user| + 1 + |host| + 1 + |file|;
    SchemeIsFound(tls, text);
    WholeIsUser(text);
    hide PrintPortless, ParseFtp, PortOfFile, ScanCredentials, Find;
    PortlessServer(server, file, tls, Credentials(Some(text), None));
    hide ParseServer;
  }

  lemma WholeIsUser(text: seq<Byte>)
    requires COLON !in text && AT in text
    ensures Find(text, AT, 0) < |text| && ScanCredentials(text) == Credentials(Some(text), None)
  {
    hide Find;
  }
}
