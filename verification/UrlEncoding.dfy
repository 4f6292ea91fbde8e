/** `urlEncode` of `StringUtils.cpp`, and that the URL parser of the library undoes it. */
module UrlEncoding {
  import opened Wire
  import opened Url

  /** "._-$,;~()" */
  const DONT_ESCAPE: Bytes := [46, 95, 45, 36, 44, 59, 126, 40, 41]

  predicate IsAlnum(b: byte) {
    48 <= b <= 57 || 65 <= b <= 90 || 97 <= b <= 122
  }

  /** The characters that are copied; `strchr` finds the end of its string, too. */
  predicate Unescaped(b: byte) {
    IsAlnum(b) || b in DONT_ESCAPE || b == 0
  }

  function HexDigit(n: nat): byte
    requires n < 16
  {
    if n < 10 then 48 + n else 87 + n
  }

  function EncodedChar(b: byte): Bytes {
    if Unescaped(b) then [b] else [PERCENT, HexDigit(b / 16), HexDigit(b % 16)]
  }

  function Encoded(s: Bytes): Bytes {
    if s == [] then [] else EncodedChar(s[0]) + Encoded(s[1..])
  }

  lemma {:induction false} EncodedAppend(a: Bytes, b: Bytes)
    ensures Encoded(a + b) == Encoded(a) + Encoded(b)
  {
    hide EncodedChar;
    if a == [] {
      assert a + b == b;
    } else {
      assert (a + b)[1..] == a[1..] + b;
      EncodedAppend(a[1..], b);
    }
  }

  /** Characters of 7 bits; others would index the table of digits with a negative number. */
  predicate SevenBit(s: Bytes) {
    forall b | b in s :: b < 128
  }

  /** Letters, digits and "._-$,;~()" are copied; the others are escaped with lower-case digits. */
  lemma EscapesAre(b: byte)
    requires b < 128
    ensures EncodedChar(b)
            == if 48 <= b <= 57 || 65 <= b <= 90 || 97 <= b <= 122 || b in {46, 95, 45, 36, 44, 59, 126, 40, 41, 0} then [b]
               else [37, 48 + b / 16, if b % 16 < 10 then 48 + b % 16 else 87 + b % 16]
  {
  }

  /** "a /" is encoded as "a%20%2f". */
  lemma EncodedSample()
    ensures Encoded([97, 32, 47]) == [97, 37, 50, 48, 37, 50, 102]
  {
    hide EncodedChar;
    EscapesAre(97);
    EscapesAre(32);
    EscapesAre(47);
    assert Encoded([47]) == [37, 50, 102] by { assert [47][1..] == []; }
    EncodedThen(32, [47], [37, 50, 102]);
    EncodedThen(97, [32, 47], [37, 50, 48, 37, 50, 102]);
  }

  lemma EncodedThen(b: byte, rest: Bytes, encoded: Bytes)
    requires Encoded(rest) == encoded
    ensures Encoded([b] + rest) == EncodedChar(b) + encoded
  {
    assert ([b] + rest)[1..] == rest;
  }

  /** `urlEncode`. */
  method UrlEncode(str: Bytes) returns (dst: Bytes)
    requires SevenBit(str)
    ensures dst == Encoded(str)
  {
    hide Unescaped, HexDigit;
    dst := [];
    for src := 0 to |str|
      invariant dst == Encoded(str[..src])
    {
      var b := str[src];
      EncodedAppend(str[..src], [b]);
      assert str[..src] + [b] == str[..src + 1];
      assert Encoded([b]) == EncodedChar(b);
      if Unescaped(b) {
        dst := dst + [b];
      } else {
        dst := dst + [PERCENT];
        dst := dst + [HexDigit(b / 16)];
        dst := dst + [HexDigit(b % 16)];
      }
    }
    assert str[..|str|] == str;
  }

  //////////////////////////////////////////////////////////////////////////////
  // Decoding
  //////////////////////////////////////////////////////////////////////////////

  /** A C string of 7-bit characters. */
  predicate Plain(s: Bytes) {
    forall b | b in s :: 0 < b < 128
  }

  lemma HexIsRead(b: byte)
    requires b < 128
    ensures HexValue(HexDigit(b / 16)) == Some(b / 16) && HexValue(HexDigit(b % 16)) == Some(b % 16)
  {
  }

  lemma EscapeIsRead(scanf: Scanf, b: byte, rest: Bytes)
    requires ReadsHex(scanf) && b < 128
    ensures Unescape(scanf, [HexDigit(b / 16), HexDigit(b % 16)] + rest) == Some(b)
  {
    hide HexValue, HexDigit;
    HexIsRead(b);
    var escape := [HexDigit(b / 16), HexDigit(b % 16)] + rest;
    assert escape[0] == HexDigit(b / 16) && escape[1] == HexDigit(b % 16);
    assert scanf(escape) == Some(16 * (b / 16) + b % 16);
  }

  lemma UnescapedIsOrdinary(b: byte)
    requires Unescaped(b) && b != 0
    ensures !IsDelimiter(b, true) && b != PERCENT
  {
  }

  lemma CharIsScanned(scanf: Scanf, b: byte, rest: Bytes)
    requires ReadsHex(scanf) && 0 < b < 128
    ensures Scan(scanf, EncodedChar(b) + rest, true) == WithText([b], Scan(scanf, rest, true))
  {
    hide HexDigit, WithText, Unescape, ReadsHex, Unescaped, IsDelimiter;
    var s := EncodedChar(b) + rest;
    if Unescaped(b) {
      UnescapedIsOrdinary(b);
      assert s[0] == b && s[1..] == rest;
    } else {
      EscapeIsRead(scanf, b, rest);
      assert s[0] == PERCENT && s[1..] == [HexDigit(b / 16), HexDigit(b % 16)] + rest && s[3..] == rest;
      PercentIsNoDelimiter();
    }
  }

  lemma PercentIsNoDelimiter()
    ensures !IsDelimiter(PERCENT, true)
  {
  }

  /** What was encoded is decoded up to the delimiter behind it. */
  lemma {:induction false} EncodedIsScanned(scanf: Scanf, s: Bytes, delim: byte, rest: Bytes)
    requires ReadsHex(scanf) && Plain(s) && IsDelimiter(delim, true)
    ensures Scan(scanf, Encoded(s) + ([delim] + rest), true) == Piece(s, delim, rest)
  {
    hide EncodedChar, ReadsHex, IsDelimiter;
    if s == [] {
      var t := [delim] + rest;
      assert Encoded(s) + t == t && t[0] == delim && t[1..] == rest;
    } else {
      assert Encoded(s) + ([delim] + rest) == EncodedChar(s[0]) + (Encoded(s[1..]) + ([delim] + rest));
      assert s[0] in s && forall b | b in s[1..] :: b in s;
      CharIsScanned(scanf, s[0], Encoded(s[1..]) + ([delim] + rest));
      EncodedIsScanned(scanf, s[1..], delim, rest);
      assert [s[0]] + s[1..] == s;
    }
  }

  //////////////////////////////////////////////////////////////////////////////
  // Port numbers
  //////////////////////////////////////////////////////////////////////////////

  function Decimal(n: nat): (s: Bytes)
    ensures |s| > 0 && forall b | b in s :: 48 <= b <= 57
  {
    if n < 10 then [48 + n] else Decimal(n / 10) + [48 + n % 10]
  }

  lemma {:induction false} DigitsAppend(s: Bytes, n: nat, d: nat)
    requires (forall b | b in s :: 48 <= b <= 57) && d < 10
    ensures DigitsValue(s, n).Some? && DigitsValue(s + [48 + d], n) == Some(10 * DigitsValue(s, n).value + d)
  {
    var t := s + [48 + d];
    if s == [] {
      assert t[1..] == [];
    } else {
      assert s[0] in s && forall b | b in s[1..] :: b in s;
      assert t[0] == s[0] && t[1..] == s[1..] + [48 + d];
      DigitsAppend(s[1..], 10 * n + s[0] - 48, d);
    }
  }

  lemma {:induction false} DecimalIsRead(n: nat)
    ensures DigitsValue(Decimal(n), 0) == Some(n)
  {
    if n < 10 {
      assert Decimal(n)[1..] == [];
    } else {
      DecimalIsRead(n / 10);
      DigitsAppend(Decimal(n / 10), 0, n % 10);
    }
  }

  lemma PortIsRead(n: nat)
    requires n <= 65535
    ensures PortNumber(Decimal(n)) == Some(n)
  {
    DecimalIsRead(n);
    var s := Decimal(n);
    assert s[0] in s;
  }

  lemma {:induction false} DigitsAreNotEscaped(s: Bytes)
    requires forall b | b in s :: 48 <= b <= 57
    ensures Encoded(s) == s
  {
    if s != [] {
      assert s[0] in s && forall b | b in s[1..] :: b in s;
      DigitsAreNotEscaped(s[1..]);
      assert [s[0]] + s[1..] == s;
    }
  }

  //////////////////////////////////////////////////////////////////////////////
  // The round trip
  //////////////////////////////////////////////////////////////////////////////

  lemma PlainIsCString(s: Bytes)
    requires Plain(s)
    ensures CString(s) == s
  {
    CStringOf(s, []);
  }

  lemma Delimiters()
    ensures IsDelimiter(0, true) && IsDelimiter(COLON, true) && IsDelimiter(AT, true) && IsDelimiter(SLASH, true)
  {
  }

  lemma DigitsArePlain(port: nat)
    ensures Plain(Decimal(port)) && Encoded(Decimal(port)) == Decimal(port)
  {
    DigitsAreNotEscaped(Decimal(port));
  }

  //////////////////////////////////////////////////////////////////////////////
  // Addresses in brackets
  //////////////////////////////////////////////////////////////////////////////

  /** What may stand between brackets as it is; colons may. */
  predicate Bracketable(s: Bytes) {
    forall b | b in s :: b < 128 && !IsDelimiter(b, false) && b != PERCENT
  }

  lemma {:induction false} AddressIsScanned(scanf: Scanf, s: Bytes, rest: Bytes)
    requires ReadsHex(scanf) && Bracketable(s)
    ensures Scan(scanf, s + ([CLOSE] + rest), false) == Piece(s, CLOSE, rest)
  {
    var t := [CLOSE] + rest;
    if s == [] {
      assert s + t == t && t[0] == CLOSE && t[1..] == rest;
    } else {
      assert s[0] in s && forall b | b in s[1..] :: b in s;
      assert (s + t)[0] == s[0] && (s + t)[1..] == s[1..] + t;
      AddressIsScanned(scanf, s[1..], rest);
      assert [s[0]] + s[1..] == s;
    }
  }

  lemma BracketableIsCString(s: Bytes)
    requires Bracketable(s)
    ensures CString(s) == s
  {
    assert IsDelimiter(0, false);
    CStringOf(s, []);
  }

  lemma DelimiterIsScanned(scanf: Scanf, delim: byte, rest: Bytes)
    requires ReadsHex(scanf) && IsDelimiter(delim, true)
    ensures Scan(scanf, [delim] + rest, true) == Piece([], delim, rest)
  {
    EncodedIsScanned(scanf, [], delim, rest);
    assert [] + ([delim] + rest) == [delim] + rest;
  }

  //////////////////////////////////////////////////////////////////////////////
  // The forms of a URL
  //////////////////////////////////////////////////////////////////////////////

  /** The end of a URL: perhaps a virtual host. */
  function VhostText(vhost: Option<Bytes>): (s: Bytes)
    ensures s != []
  {
    if vhost.Some? then [47] + (Encoded(vhost.value) + [0]) else [0]
  }

  /** Behind the host: perhaps a port. */
  function PortText(port: Option<nat>, vhost: Option<Bytes>): (s: Bytes)
    ensures s != []
  {
    if port.Some? then [58] + (Decimal(port.value) + VhostText(vhost)) else VhostText(vhost)
  }

  /** The host: a name, or an address in brackets. */
  datatype HostText = Name(name: Bytes) | Address(address: Bytes)

  function HostPart(host: HostText, rest: Bytes): Bytes {
    match host
    case Name(name) => Encoded(name) + rest
    case Address(address) => [91] + (address + ([93] + rest))
  }

  /** In front of the host: perhaps a user, perhaps with a password. */
  datatype LoginText = NoLogin | User(user: Bytes) | UserAndPassword(user: Bytes, password: Bytes)

  /** A URL without its scheme; everything in it but the host may be missing. */
  function AuthorityText(login: LoginText, host: HostText, port: Option<nat>, vhost: Option<Bytes>): Bytes {
    var rest := HostPart(host, PortText(port, vhost));
    match login
    case NoLogin => rest
    case User(user) => Encoded(user) + ([64] + rest)
    case UserAndPassword(user, password) => Encoded(user) + ([58] + (Encoded(password) + ([64] + rest)))
  }

  predicate PlainLogin(login: LoginText) {
    match login
    case NoLogin => true
    case User(user) => Plain(user)
    case UserAndPassword(user, password) => Plain(user) && Plain(password)
  }

  predicate PlainHost(host: HostText) {
    match host
    case Name(name) => Plain(name)
    case Address(address) => Bracketable(address)
  }

  predicate PlainEnd(port: Option<nat>, vhost: Option<Bytes>) {
    (port.Some? ==> port.value <= 65535) && (vhost.Some? ==> Plain(vhost.value))
  }

  function OrDefault<T>(value: Option<T>, other: T): T {
    if value.Some? then value.value else other
  }

  /** What a host means; an empty name stands for the default. */
  function Named(info: Info<Bytes>, host: HostText): Info<Bytes> {
    match host
    case Name(name) => if name != [] then info.(host := name) else info
    case Address(address) => info.(host := address)
  }

  /** Encoded text in front of the end of a URL. */
  lemma TextIsScanned(scanf: Scanf, s: Bytes, rest: Bytes)
    requires ReadsHex(scanf) && Plain(s) && rest != [] && IsDelimiter(rest[0], true)
    ensures Scan(scanf, Encoded(s) + rest, true) == Piece(s, rest[0], rest[1..]) && CString(s) == s
  {
    hide Scan, Encoded, ReadsHex, Plain, CString;
    assert rest == [rest[0]] + rest[1..];
    EncodedIsScanned(scanf, s, rest[0], rest[1..]);
    PlainIsCString(s);
  }

  lemma VhostIsParsed(scanf: Scanf, info: Info<Bytes>, text: Bytes, vhost: Option<Bytes>)
    requires ReadsHex(scanf) && PlainEnd(None, vhost)
    ensures var t := VhostText(vhost);
            && IsDelimiter(t[0], true) && t[0] != COLON && t[0] != AT && t[0] != OPEN
            && VhostOf(scanf, info, Piece(text, t[0], t[1..])) == Some(info.(vhost := OrDefault(vhost, info.vhost)))
  {
    hide Scan, Encoded, ReadsHex, Plain, CString, IsDelimiter;
    Delimiters();
    if vhost.Some? {
      TextIsScanned(scanf, vhost.value, [0]);
      assert VhostText(vhost)[1..] == Encoded(vhost.value) + [0];
    }
  }

  /** The part behind the host. */
  lemma PortTextIsParsed(scanf: Scanf, info: Info<Bytes>, text: Bytes, port: Option<nat>, vhost: Option<Bytes>)
    requires ReadsHex(scanf) && PlainEnd(port, vhost)
    ensures var t := PortText(port, vhost);
            && IsDelimiter(t[0], true) && t[0] != AT && t[0] != OPEN && (t[0] == COLON <==> port.Some?)
            && PortOf(scanf, info, None, Piece(text, t[0], t[1..]))
               == Some(info.(port := OrDefault(port, info.port), vhost := OrDefault(vhost, info.vhost)))
  {
    hide Scan, Encoded, Decimal, PortNumber, ReadsHex, Plain, CString, IsDelimiter, VhostOf, VhostText;
    Delimiters();
    if port.None? {
      VhostIsParsed(scanf, info, text, vhost);
    } else {
      DigitsAreScanned(scanf, info, port.value, vhost);
      PortIsRead(port.value);
      assert PortText(port, vhost)[1..] == Decimal(port.value) + VhostText(vhost);
    }
  }

  lemma DigitsAreScanned(scanf: Scanf, info: Info<Bytes>, port: nat, vhost: Option<Bytes>)
    requires ReadsHex(scanf) && PlainEnd(None, vhost)
    ensures var digits, v := Decimal(port), VhostText(vhost);
            && Scan(scanf, digits + v, true) == Piece(digits, v[0], v[1..]) && CString(digits) == digits
            && v[0] != COLON && v[0] != AT && v[0] != OPEN
            && VhostOf(scanf, info.(port := port), Piece(digits, v[0], v[1..]))
               == Some(info.(port := port, vhost := OrDefault(vhost, info.vhost)))
  {
    hide Scan, Encoded, Decimal, ReadsHex, Plain, CString, IsDelimiter, VhostOf, VhostText;
    VhostIsParsed(scanf, info.(port := port), Decimal(port), vhost);
    DigitsArePlain(port);
    TextIsScanned(scanf, Decimal(port), VhostText(vhost));
  }

  /** A host and what is behind it. */
  lemma HostIsParsed(scanf: Scanf, info: Info<Bytes>, host: HostText, port: Option<nat>, vhost: Option<Bytes>)
    requires ReadsHex(scanf) && PlainHost(host) && PlainEnd(port, vhost)
    ensures var c := Scan(scanf, HostPart(host, PortText(port, vhost)), true);
            && HostOf(scanf, info, CString(c.text), None, c)
               == Some(Named(info, host).(port := OrDefault(port, info.port), vhost := OrDefault(vhost, info.vhost)))
            && c.delim != AT && (c.delim == COLON <==> host.Name? && port.Some?)
            && (host.Name? ==>
                  var t := PortText(port, vhost);
                  c == Piece(host.name, t[0], t[1..]) && CString(host.name) == host.name)
  {
    hide Scan, Encoded, ReadsHex, Plain, Bracketable, CString, IsDelimiter, PortOf, PortText;
    Delimiters();
    var t := PortText(port, vhost);
    match host {
      case Name(name) =>
        PortTextIsParsed(scanf, Named(info, host), name, port, vhost);
        TextIsScanned(scanf, name, t);
      case Address(address) =>
        PortTextIsParsed(scanf, Named(info, host), [], port, vhost);
        DelimiterIsScanned(scanf, OPEN, address + ([CLOSE] + t));
        AddressIsScanned(scanf, address, t);
        BracketableIsCString(address);
        assert t == [t[0]] + t[1..];
        DelimiterIsScanned(scanf, t[0], t[1..]);
        PlainIsCString([]);
    }
  }

  /** Without a login, what might have been a password is the port. */
  lemma LoneHostIsParsed(scanf: Scanf, info: Info<Bytes>, host: HostText, port: Option<nat>, vhost: Option<Bytes>)
    requires ReadsHex(scanf) && PlainHost(host) && PlainEnd(port, vhost)
    ensures AuthorityOf(scanf, info, HostPart(host, PortText(port, vhost)))
            == Some(Named(info, host).(port := OrDefault(port, info.port), vhost := OrDefault(vhost, info.vhost)))
  {
    hide Scan, Encoded, Decimal, ReadsHex, Plain, Bracketable, CString, IsDelimiter, VhostOf, VhostText, PortNumber;
    HostIsParsed(scanf, info, host, port, vhost);
    if host.Name? && port.Some? {
      DigitsAreScanned(scanf, Named(info, host), port.value, vhost);
      PortIsRead(port.value);
      assert PortText(port, vhost)[1..] == Decimal(port.value) + VhostText(vhost);
    }
  }

  lemma UserIsParsed(scanf: Scanf, info: Info<Bytes>, user: Bytes, host: HostText, port: Option<nat>, vhost: Option<Bytes>)
    requires ReadsHex(scanf) && Plain(user) && PlainHost(host) && PlainEnd(port, vhost)
    ensures AuthorityOf(scanf, info, AuthorityText(User(user), host, port, vhost))
            == Some(Named(info.(user := user), host).(port := OrDefault(port, info.port),
                                                      vhost := OrDefault(vhost, info.vhost)))
  {
    hide Scan, Encoded, ReadsHex, Plain, PlainHost, PlainEnd, CString, IsDelimiter, HostOf, PortText, HostPart, Named;
    Delimiters();
    var rest := HostPart(host, PortText(port, vhost));
    TextIsScanned(scanf, user, [AT] + rest);
    assert ([AT] + rest)[1..] == rest;
    HostIsParsed(scanf, info.(user := user), host, port, vhost);
  }

  lemma PasswordIsParsed(scanf: Scanf, info: Info<Bytes>, user: Bytes, password: Bytes, host: HostText, port: Option<nat>,
                         vhost: Option<Bytes>)
    requires ReadsHex(scanf) && Plain(user) && Plain(password) && PlainHost(host) && PlainEnd(port, vhost)
    ensures AuthorityOf(scanf, info, AuthorityText(UserAndPassword(user, password), host, port, vhost))
            == Some(Named(info.(user := user, password := password), host).(port := OrDefault(port, info.port),
                                                                            vhost := OrDefault(vhost, info.vhost)))
  {
    hide Scan, Encoded, ReadsHex, Plain, PlainHost, PlainEnd, CString, IsDelimiter, HostOf, PortText, HostPart, Named;
    Delimiters();
    var rest := HostPart(host, PortText(port, vhost));
    var behind := Encoded(password) + ([AT] + rest);
    TextIsScanned(scanf, user, [COLON] + behind);
    TextIsScanned(scanf, password, [AT] + rest);
    assert ([AT] + rest)[1..] == rest && ([COLON] + behind)[1..] == behind;
    HostIsParsed(scanf, info.(user := user, password := password), host, port, vhost);
  }

  lemma AuthorityIsParsed(scanf: Scanf, info: Info<Bytes>, login: LoginText, host: HostText, port: Option<nat>,
                          vhost: Option<Bytes>)
    requires ReadsHex(scanf) && PlainLogin(login) && PlainHost(host) && PlainEnd(port, vhost)
    ensures AuthorityOf(scanf, info, AuthorityText(login, host, port, vhost))
            == Some(Info(if login.NoLogin? then info.user else login.user,
                         if login.UserAndPassword? then login.password else info.password,
                         Named(info, host).host, OrDefault(port, info.port), OrDefault(vhost, info.vhost), info.ssl))
  {
    hide ReadsHex, Plain, PlainHost, PlainEnd, HostPart, AuthorityOf, PortText;
    match login {
      case NoLogin =>
        LoneHostIsParsed(scanf, info, host, port, vhost);
      case User(user) =>
        UserIsParsed(scanf, info, user, host, port, vhost);
      case UserAndPassword(user, password) =>
        PasswordIsParsed(scanf, info, user, password, host, port, vhost);
    }
  }

  /** A URL of any form means what is in it, and for what is missing: user and password "guest", host
      "localhost", port 5672, or 5671 with encryption, and virtual host "/". */
  lemma UrlRoundTrip(scanf: Scanf, ssl: bool, login: LoginText, host: HostText, port: Option<nat>, vhost: Option<Bytes>)
    requires ReadsHex(scanf) && PlainLogin(login) && PlainHost(host) && PlainEnd(port, vhost)
    ensures var scheme := if ssl then [97, 109, 113, 112, 115, 58, 47, 47] else [97, 109, 113, 112, 58, 47, 47];
            var guest, localhost := [103, 117, 101, 115, 116], [108, 111, 99, 97, 108, 104, 111, 115, 116];
            UrlOf(scanf, scheme + AuthorityText(login, host, port, vhost))
            == Some(Info(if login.NoLogin? then guest else login.user,
                         if login.UserAndPassword? then login.password else guest,
                         if host.Address? then host.address else if host.name != [] then host.name else localhost,
                         OrDefault(port, if ssl then 5671 else 5672), OrDefault(vhost, [47]), ssl))
  {
    hide AuthorityOf, AuthorityText, ReadsHex, PlainLogin, PlainHost, PlainEnd;
    var rest := AuthorityText(login, host, port, vhost);
    var info := Info(GUEST, GUEST, LOCALHOST, 5672, ROOT, false);
    var s := (if ssl then AMQPS_SCHEME else AMQP_SCHEME) + rest;
    if ssl {
      assert s[4] == 115 && s[8..] == rest;
      AuthorityIsParsed(scanf, info.(port := 5671, ssl := true), login, host, port, vhost);
    } else {
      assert s[7..] == rest;
      AuthorityIsParsed(scanf, info, login, host, port, vhost);
    }
  }

  //////////////////////////////////////////////////////////////////////////////
  // What is no URL
  //////////////////////////////////////////////////////////////////////////////

  /** A URL begins with "amqp://" or "amqps://". */
  lemma SchemeIsRequired(scanf: Scanf, s: Bytes)
    requires ReadsHex(scanf)
    requires !([97, 109, 113, 112, 58, 47, 47] <= s) && !([97, 109, 113, 112, 115, 58, 47, 47] <= s)
    ensures UrlOf(scanf, s) == None
  {
  }

  /** A host does not end in '?', '#' or ']', and nothing stands in front of a bracket. */
  lemma HostEndsBadly(scanf: Scanf, info: Info<Bytes>, host: Bytes, delim: byte, rest: Bytes)
    requires ReadsHex(scanf) && Plain(host) && (delim in {63, 35, 93} || (delim == 91 && host != []))
    ensures AuthorityOf(scanf, info, Encoded(host) + ([delim] + rest)) == None
  {
    hide Scan, Encoded, ReadsHex, Plain, CString;
    EncodedIsScanned(scanf, host, delim, rest);
    PlainIsCString(host);
  }

  /** A port is at most 65535. */
  lemma PortIsTooLarge(scanf: Scanf, info: Info<Bytes>, host: Bytes, port: nat, vhost: Option<Bytes>)
    requires ReadsHex(scanf) && Plain(host) && PlainEnd(None, vhost) && port > 65535
    ensures AuthorityOf(scanf, info, Encoded(host) + PortText(Some(port), vhost)) == None
  {
    hide Scan, Encoded, Decimal, ReadsHex, Plain, CString, IsDelimiter, VhostOf, VhostText, PortNumber;
    Delimiters();
    DigitsAreScanned(scanf, info, port, vhost);
    LargePort(port);
    TextIsScanned(scanf, host, PortText(Some(port), vhost));
    assert PortText(Some(port), vhost)[1..] == Decimal(port) + VhostText(vhost);
  }

  lemma LargePort(n: nat)
    requires n > 65535
    ensures PortNumber(Decimal(n)) == None
  {
    DecimalIsRead(n);
    var s := Decimal(n);
    assert s[0] in s;
  }

  /** Nothing but the end follows a virtual host. */
  lemma VhostEndsBadly(scanf: Scanf, info: Info<Bytes>, host: Bytes, vhost: Bytes, delim: byte, rest: Bytes)
    requires ReadsHex(scanf) && Plain(host) && Plain(vhost) && delim in {47, 63, 35, 91, 93, 58, 64}
    ensures AuthorityOf(scanf, info, Encoded(host) + ([47] + (Encoded(vhost) + ([delim] + rest)))) == None
  {
    hide Scan, Encoded, ReadsHex, Plain, CString;
    EncodedIsScanned(scanf, host, SLASH, Encoded(vhost) + ([delim] + rest));
    EncodedIsScanned(scanf, vhost, delim, rest);
    PlainIsCString(host);
  }

  /** An escape that is none, or stands for more than 127, spoils the URL. */
  lemma EscapeIsBad(scanf: Scanf, info: Info<Bytes>, rest: Bytes)
    requires ReadsHex(scanf) && Unescape(scanf, rest) == None
    ensures AuthorityOf(scanf, info, [37] + rest) == None
  {
    hide Scan, Unescape, CString, ReadsHex;
    BadEscapeIsScanned(scanf, rest);
  }

  lemma BadEscapeIsScanned(scanf: Scanf, rest: Bytes)
    requires ReadsHex(scanf) && Unescape(scanf, rest) == None
    ensures Scan(scanf, [37] + rest, true) == Piece([], 37, [])
  {
    hide Unescape, ReadsHex;
    assert ([37] + rest)[1..] == rest;
  }

  /** The delimiters; '@' and ':' are none between brackets. */
  lemma DelimitersAre(b: byte, both: bool)
    ensures IsDelimiter(b, both) <==> b in {0, 47, 63, 35, 91, 93} || (both && b in {58, 64})
  {
  }

  /** Numbers as `strtol` reads them: white space and a sign may come first, nothing may follow. */
  lemma PortSamples()
    ensures PortNumber([32, 9, 56, 48]) == Some(80) && PortNumber([43, 56, 48]) == Some(80) && PortNumber([45, 48]) == Some(0)
    ensures PortNumber([45, 49]) == None && PortNumber([56, 48, 120]) == None && PortNumber([43, 43, 49]) == None
    ensures PortNumber([]) == None && PortNumber([32]) == None && PortNumber([43]) == None && PortNumber([56, 32]) == None
  {
    hide DigitsValue;
    OneDigit(8);
    DigitsAppend([56], 0, 0);
    assert [56] + [48] == [56, 48];
    OneDigit(0);
    OneDigit(1);
    NoDigit([56, 48, 120], 0, 2);
    NoDigit([43, 49], 0, 0);
    NoDigit([56, 32], 0, 1);
    assert [32, 9, 56, 48][1..] == [9, 56, 48] && [9, 56, 48][1..] == [56, 48] && [43, 56, 48][1..] == [56, 48];
    assert PortNumber([56, 48]) == Some(80);
    assert PortNumber([9, 56, 48]) == Some(80);
    assert [45, 48][1..] == [48] && [45, 49][1..] == [49] && [43, 43, 49][1..] == [43, 49];
    assert [32][1..] == [] && [43][1..] == [];
  }

  lemma {:induction false} NoDigit(s: Bytes, n: nat, k: nat)
    requires k < |s| && !(48 <= s[k] <= 57)
    ensures DigitsValue(s, n) == None
  {
    if k > 0 && 48 <= s[0] <= 57 {
      NoDigit(s[1..], 10 * n + s[0] - 48, k - 1);
    }
  }

  lemma OneDigit(d: nat)
    requires d < 10
    ensures DigitsValue([48 + d], 0) == Some(d)
  {
    assert [48 + d][1..] == [];
  }

  /** Digits of either case make a character; one above 127 is refused. */
  lemma EscapeSamples(scanf: Scanf, rest: Bytes)
    requires ReadsHex(scanf)
    ensures Unescape(scanf, [50, 102] + rest) == Some(47) && Unescape(scanf, [50, 70] + rest) == Some(47)
    ensures Unescape(scanf, [55, 70] + rest) == Some(127) && Unescape(scanf, [56, 48] + rest) == None
  {
    assert scanf([50, 102] + rest) == Some(47) && scanf([50, 70] + rest) == Some(47);
    assert scanf([55, 70] + rest) == Some(127) && scanf([56, 48] + rest) == Some(128);
  }
}
