/** AMQP URLs: `amqp_parse_url`, which takes the URL apart in the buffer that holds it, and `urlEncode`
    of `StringUtils.cpp`, which it undoes. */
module Url {
  import opened Wire

  const COLON: byte := 58
  const AT: byte := 64
  const SLASH: byte := 47
  const QUERY: byte := 63
  const HASH: byte := 35
  const OPEN: byte := 91
  const CLOSE: byte := 93
  const PERCENT: byte := 37
  const CHAR_MAX: nat := 127

  /** "amqp://" and "amqps://" */
  const AMQP_SCHEME: Bytes := [97, 109, 113, 112, 58, 47, 47]
  const AMQPS_SCHEME: Bytes := [97, 109, 113, 112, 115, 58, 47, 47]

  /** The C string that begins at the beginning of `s`. */
  function CString(s: Bytes): (r: Bytes)
    ensures |r| <= |s| && 0 !in r && r == s[..|r|] && (|r| < |s| ==> s[|r|] == 0)
  {
    if s == [] || s[0] == 0 then [] else [s[0]] + CString(s[1..])
  }

  lemma {:induction false} CStringOf(text: Bytes, rest: Bytes)
    ensures CString(text + [0] + rest) == CString(text)
    ensures 0 !in text ==> CString(text) == text
  {
    if text != [] && text[0] != 0 {
      assert (text + [0] + rest)[1..] == text[1..] + [0] + rest;
      CStringOf(text[1..], rest);
    }
  }

  //////////////////////////////////////////////////////////////////////////////
  // Scanning
  //////////////////////////////////////////////////////////////////////////////

  function HexValue(b: byte): Option<nat> {
    if 48 <= b <= 57 then Some(b - 48)
    else if 65 <= b <= 70 then Some(b - 55)
    else if 97 <= b <= 102 then Some(b - 87)
    else None
  }

  /** What `sscanf(s, "%2x%n", ...)` reads if it consumes exactly two octets. */
  type Scanf = Bytes -> Option<nat>

  /** Two hexadecimal digits are read as such; what else is accepted is left open, but two octets of the
      string are consumed. */
  ghost predicate ReadsHex(scanf: Scanf) {
    forall s {:trigger scanf(s)} ::
      && (|s| >= 2 && HexValue(s[0]).Some? && HexValue(s[1]).Some? ==>
            scanf(s) == Some(16 * HexValue(s[0]).value + HexValue(s[1]).value))
      && (scanf(s).Some? ==> |s| >= 2 && s[0] != 0 && s[1] != 0)
  }

  /** The character after a '%', if it is one. */
  function Unescape(scanf: Scanf, s: Bytes): (r: Option<byte>)
    requires ReadsHex(scanf)
    ensures r.Some? ==> |s| >= 2 && s[0] != 0 && s[1] != 0
  {
    var val := scanf(s);
    if val.None? || val.value > CHAR_MAX then None else Some(val.value)
  }

  /** Text up to a delimiter, and what is behind it; the delimiter is '%' after a bad escape. */
  datatype Piece = Piece(text: Bytes, delim: byte, rest: Bytes)

  predicate IsDelimiter(b: byte, both: bool) {
    b in {0, SLASH, QUERY, HASH, OPEN, CLOSE} || (both && b in {COLON, AT})
  }

  function WithText(text: Bytes, p: Piece): Piece {
    p.(text := text + p.text)
  }

  /** `find_delim` on a string. */
  function Scan(scanf: Scanf, s: Bytes, both: bool): (p: Piece)
    requires ReadsHex(scanf)
    ensures |p.rest| <= |s| && p.rest == s[|s| - |p.rest|..]
    decreases |s|
  {
    if s == [] then Piece([], 0, [])
    else if IsDelimiter(s[0], both) then Piece([], s[0], s[1..])
    else if s[0] != PERCENT then WithText([s[0]], Scan(scanf, s[1..], both))
    else
      var r := Unescape(scanf, s[1..]);
      if r.None? then Piece([], PERCENT, [])
      else WithText([r.value], Scan(scanf, s[3..], both))
  }

  lemma WithTextTwice(a: Bytes, b: Bytes, p: Piece)
    ensures WithText(a, WithText(b, p)) == WithText(a + b, p)
    ensures WithText([], p) == p
  {
    assert a + (b + p.text) == a + b + p.text;
    assert [] + p.text == p.text;
  }

  /** At `o` there is a C string that ends before `limit`. */
  ghost predicate Terminated(buf: Bytes, o: nat, limit: nat) {
    o < limit <= |buf| && o + |CString(buf[o..])| < limit
  }

  lemma TextIsTerminated(buf: Bytes, o: nat, text: Bytes, limit: nat)
    requires o + |text| < limit <= |buf| && buf[o..o + |text|] == text && buf[o + |text|] == 0
    ensures Terminated(buf, o, limit) && CString(buf[o..]) == CString(text)
  {
    hide CString;
    var tail := buf[o..];
    var rest := tail[|text| + 1..];
    assert tail[..|text|] == text && tail[|text|] == 0;
    assert tail == text + [0] + rest;
    CStringOf(text, rest);
  }

  /** `find_delim` from an offset on. */
  function ScanAt(scanf: Scanf, s: Bytes, o: nat, both: bool): Piece
    requires ReadsHex(scanf) && o <= |s|
  {
    Scan(scanf, s[o..], both)
  }

  function UnescapeAt(scanf: Scanf, s: Bytes, o: nat): (r: Option<byte>)
    requires ReadsHex(scanf) && o <= |s|
    ensures r.Some? ==> o + 2 <= |s|
  {
    Unescape(scanf, s[o..])
  }

  /** One turn of the loop: what `text` and the scan from `o` on come to. */
  lemma ScanPlain(scanf: Scanf, s: Bytes, o: nat, both: bool, text: Bytes)
    requires ReadsHex(scanf) && o < |s| && s[|s| - 1] == 0 && (IsDelimiter(s[o], both) || s[o] != PERCENT)
    ensures WithText(text, ScanAt(scanf, s, o, both))
            == if IsDelimiter(s[o], both) then Piece(text, s[o], s[o + 1..])
               else WithText(text + [s[o]], ScanAt(scanf, s, o + 1, both))
    ensures !IsDelimiter(s[o], both) || s[o] != 0 ==> o + 1 < |s|
  {
    ZeroIsDelimiter(s[o], both);
    hide IsDelimiter, HexValue;
    assert s[o..][1..] == s[o + 1..];
    assert text + [] == text;
    WithTextTwice(text, [s[o]], ScanAt(scanf, s, o + 1, both));
  }

  /** And for an escape. */
  lemma ScanEscape(scanf: Scanf, s: Bytes, o: nat, both: bool, text: Bytes)
    requires ReadsHex(scanf) && o < |s| && s[|s| - 1] == 0 && s[o] == PERCENT
    ensures var p, r := WithText(text, ScanAt(scanf, s, o, both)), UnescapeAt(scanf, s, o + 1);
            p == if r.None? then Piece(text, PERCENT, []) else WithText(text + [r.value], ScanAt(scanf, s, o + 3, both))
    ensures o + 1 < |s| && (UnescapeAt(scanf, s, o + 1).Some? ==> o + 3 < |s|)
  {
    hide HexValue, Unescape;
    var suffix, r := s[o..], UnescapeAt(scanf, s, o + 1);
    assert suffix[1..] == s[o + 1..];
    assert text + [] == text;
    if r.Some? {
      assert suffix[3..] == s[o + 3..];
      WithTextTwice(text, [r.value], ScanAt(scanf, s, o + 3, both));
    }
  }

  /** The buffer in the loop: `text` is written from `pos` to `to`, and from `from` on nothing has changed. */
  ghost predicate Tidy(buf: array<byte>, all: Bytes, pos: nat, to: nat, from: nat, text: Bytes)
    reads buf
  {
    && pos <= to <= from <= |all| == buf.Length
    && buf[..pos] == all[..pos] && buf[pos..to] == text && buf[from..] == all[from..]
  }

  lemma TidyReads(buf: array<byte>, all: Bytes, pos: nat, to: nat, from: nat, text: Bytes, i: nat)
    requires Tidy(buf, all, pos, to, from, text) && from <= i < |all|
    ensures buf[i] == all[i] && buf[..][i] == all[i]
  {
    assert buf[from..][i - from] == all[from..][i - from];
  }

  lemma TidyUnescapes(scanf: Scanf, buf: array<byte>, all: Bytes, pos: nat, to: nat, from: nat, text: Bytes)
    requires ReadsHex(scanf) && Tidy(buf, all, pos, to, from, text) && from < |all|
    ensures UnescapeAt(scanf, buf[..], from + 1) == UnescapeAt(scanf, all, from + 1)
  {
    assert buf[..][from + 1..] == buf[from..][1..] && all[from + 1..] == all[from..][1..];
  }

  lemma TidyPrefix(buf: array<byte>, all: Bytes, pos: nat, to: nat, from: nat, text: Bytes)
    requires Tidy(buf, all, pos, to, from, text)
    ensures buf[..][..pos] == all[..pos] && pos <= from <= |all| == buf.Length
  {
  }

  /** The delimiter has been replaced by the end of the text. */
  lemma TidyEnds(buf: array<byte>, all: Bytes, pos: nat, to: nat, from: nat, text: Bytes)
    requires Tidy(buf, all, pos, to, from, text + [0])
    ensures Terminated(buf[..], pos, from) && CString(buf[..][pos..]) == CString(text) && buf[..][from..] == all[from..]
    ensures buf[..][..pos] == all[..pos] && pos < from <= |all| == buf.Length
    ensures from < |all| ==> buf[..][|all| - 1] == all[|all| - 1]
  {
    if from < |all| {
      TidyReads(buf, all, pos, to, from, text + [0], |all| - 1);
    }
    var s := buf[..];
    assert s[pos..to] == text + [0];
    assert s[pos..to][|text|] == 0 && s[pos..pos + |text|] == s[pos..to][..|text|] == text;
    TextIsTerminated(s, pos, text, from);
  }

  /** `*to = b`, behind what has been read. */
  method Store(buf: array<byte>, to: nat, b: byte, ghost all: Bytes, ghost pos: nat, ghost from: nat, ghost read: nat,
               ghost text: Bytes)
    requires Tidy(buf, all, pos, to, from, text) && from < read <= buf.Length
    modifies buf
    ensures Tidy(buf, all, pos, to + 1, read, text + [b])
  {
    assert buf[read..] == buf[from..][read - from..];
    assert all[read..] == all[from..][read - from..];
    buf[to] := b;
    assert buf[pos..to + 1] == buf[pos..to] + [b];
  }

  /** `find_delim`. The text is decoded in place: writing never overtakes reading, so that the text ends
      before the next component begins, and neither what is ahead of the component nor what is behind
      it is touched. */
  method FindDelim(scanf: Scanf, buf: array<byte>, pos: nat, both: bool) returns (delim: byte, next: nat)
    requires ReadsHex(scanf) && pos < buf.Length && buf[buf.Length - 1] == 0
    modifies buf
    ensures Found(scanf, old(buf[..]), buf[..], pos, both, delim, next)
  {
    hide CString, Terminated, Scan, ScanAt, UnescapeAt, WithText, IsDelimiter, ReadsHex, Tidy, Found;
    ghost var all, last := buf[..], buf.Length - 1;
    ghost var text: Bytes := [];
    WithTextTwice([], [], ScanAt(scanf, all, pos, both));
    TidyStart(scanf, buf, all, pos, both);
    var from, to := pos, pos;
    while true
      invariant pos <= to <= from <= last && Tidy(buf, all, pos, to, from, text)
      invariant ScanAt(scanf, all, pos, both) == WithText(text, ScanAt(scanf, all, from, both))
      decreases last - from
    {
      TidyReads(buf, all, pos, to, from, text, from);
      ghost var read := from;
      var ch := buf[from];
      from := from + 1;
      if IsDelimiter(ch, both) {
        ScanPlain(scanf, all, read, both, text);
        Store(buf, to, 0, all, pos, read, from, text);
        FoundDelimiter(scanf, all, buf, pos, both, to, from, text, ch);
        return ch, from;
      }
      if ch == PERCENT {
        ScanEscape(scanf, all, read, both, text);
        TidyUnescapes(scanf, buf, all, pos, to, read, text);
        var r := UnescapeAt(scanf, buf[..], from);
        if r.None? {
          FoundBadEscape(scanf, all, buf, pos, both, to, read, text, from);
          return PERCENT, from;
        }
        from := from + 2;
        Store(buf, to, r.value, all, pos, read, from, text);
        text := text + [r.value];
      } else {
        ScanPlain(scanf, all, read, both, text);
        Store(buf, to, ch, all, pos, read, from, text);
        text := text + [ch];
      }
      to := to + 1;
    }
  }

  /** The result of `find_delim`: what is ahead of `pos` is as before; there is a text at `pos`, which
      ends before `next`, and from `next` on there is what is left. */
  ghost predicate Found(scanf: Scanf, before: Bytes, after: Bytes, pos: nat, both: bool, delim: byte, next: nat)
    requires ReadsHex(scanf)
  {
    && pos < |before| == |after| && after[..pos] == before[..pos] && (delim != 0 ==> after[|after| - 1] == 0)
    && var p := Scan(scanf, before[pos..], both);
    && delim == p.delim
    && (delim != PERCENT ==>
          && pos < next <= |after| && after[next..] == p.rest && (delim != 0 ==> next < |after|)
          && Terminated(after, pos, next) && CString(after[pos..]) == CString(p.text))
  }

  lemma FoundDelimiter(scanf: Scanf, all: Bytes, buf: array<byte>, pos: nat, both: bool, to: nat, from: nat, text: Bytes,
                       ch: byte)
    requires ReadsHex(scanf) && Tidy(buf, all, pos, to + 1, from, text + [0]) && all[|all| - 1] == 0
    requires ScanAt(scanf, all, pos, both) == Piece(text, ch, all[from..]) && IsDelimiter(ch, both) && (ch != 0 ==> from < |all|)
    ensures Found(scanf, all, buf[..], pos, both, ch, from)
  {
    hide CString, Terminated, Scan, ReadsHex, Tidy;
    TidyEnds(buf, all, pos, to + 1, from, text);
  }

  lemma FoundBadEscape(scanf: Scanf, all: Bytes, buf: array<byte>, pos: nat, both: bool, to: nat, from: nat, text: Bytes,
                       next: nat)
    requires ReadsHex(scanf) && Tidy(buf, all, pos, to, from, text) && from < |all| && all[|all| - 1] == 0
    requires ScanAt(scanf, all, pos, both) == Piece(text, PERCENT, [])
    ensures Found(scanf, all, buf[..], pos, both, PERCENT, next)
  {
    hide CString, Terminated, Scan, ReadsHex, Tidy;
    TidyPrefix(buf, all, pos, to, from, text);
    TidyReads(buf, all, pos, to, from, text, |all| - 1);
  }

  lemma TidyStart(scanf: Scanf, buf: array<byte>, all: Bytes, pos: nat, both: bool)
    requires pos <= |all| && ReadsHex(scanf) && all == buf[..]
    ensures Tidy(buf, all, pos, pos, pos, []) && ScanAt(scanf, all, pos, both) == Scan(scanf, all[pos..], both)
  {
  }

  lemma ZeroIsDelimiter(b: byte, both: bool)
    ensures b == 0 ==> IsDelimiter(b, both)
    ensures IsDelimiter(b, both) ==> b != PERCENT
  {
  }

  //////////////////////////////////////////////////////////////////////////////
  // Parsing
  //////////////////////////////////////////////////////////////////////////////

  /** `amqp_connection_info`; its strings are C strings. */
  datatype Info<T> = Info(user: T, password: T, host: T, port: nat, vhost: T, ssl: bool)

  /** "guest", "localhost", "/" */
  const GUEST: Bytes := [103, 117, 101, 115, 116]
  const LOCALHOST: Bytes := [108, 111, 99, 97, 108, 104, 111, 115, 116]
  const ROOT: Bytes := [SLASH]

  predicate IsSpace(b: byte) {
    b == 32 || 9 <= b <= 13
  }

  /** The number at the beginning of `s`, or `None` if `s` is not made of digits. */
  function DigitsValue(s: Bytes, n: nat): Option<nat> {
    if s == [] then Some(n) else if 48 <= s[0] <= 57 then DigitsValue(s[1..], 10 * n + s[0] - 48) else None
  }

  /** The port number that `strtol` finds in a string, if nothing is left of it and it is in range. */
  function PortNumber(s: Bytes): Option<nat> {
    if s == [] then None
    else if IsSpace(s[0]) then PortNumber(s[1..])
    else
      var negative, digits := s[0] == 45, if s[0] in {43, 45} then s[1..] else s;
      var n := if digits == [] then None else DigitsValue(digits, 0);
      if n.None? || n.value > 65535 || (negative && n.value != 0) then None else n
  }

  /** The rest of a URL behind the port. */
  function VhostOf(scanf: Scanf, info: Info<Bytes>, p: Piece): Option<Info<Bytes>>
    requires ReadsHex(scanf)
  {
    if p.delim == SLASH then
      var vhost := Scan(scanf, p.rest, true);
      if vhost.delim != 0 then None else Some(info.(vhost := CString(vhost.text)))
    else if p.delim == 0 then Some(info)
    else None
  }

  /** The rest of a URL behind the host, of which a port may have been read already. */
  function PortOf(scanf: Scanf, info: Info<Bytes>, port: Option<Bytes>, p: Piece): Option<Info<Bytes>>
    requires ReadsHex(scanf)
  {
    var q := if p.delim == COLON then Scan(scanf, p.rest, true) else p;
    var text := if p.delim == COLON then Some(CString(q.text)) else port;
    if text.None? then VhostOf(scanf, info, q)
    else
      var n := PortNumber(text.value);
      if n.None? then None else VhostOf(scanf, info.(port := n.value), q)
  }

  /** The rest of a URL behind what may have been the host, and the port. */
  function HostOf(scanf: Scanf, info: Info<Bytes>, host: Bytes, port: Option<Bytes>, p: Piece): Option<Info<Bytes>>
    requires ReadsHex(scanf)
  {
    if p.delim == OPEN then
      if port.Some? || host != [] then None
      else
        var address := Scan(scanf, p.rest, false);
        if address.delim != CLOSE then None
        else
          var q := Scan(scanf, address.rest, true);
          if CString(q.text) != [] then None else PortOf(scanf, info.(host := CString(address.text)), None, q)
    else PortOf(scanf, if host != [] then info.(host := host) else info, port, p)
  }

  /** A URL without its scheme. */
  function AuthorityOf(scanf: Scanf, info: Info<Bytes>, s: Bytes): Option<Info<Bytes>>
    requires ReadsHex(scanf)
  {
    var a := Scan(scanf, s, true);
    var b := if a.delim == COLON then Scan(scanf, a.rest, true) else a;
    var port := if a.delim == COLON then Some(CString(b.text)) else None;
    if b.delim == AT then
      var c := Scan(scanf, b.rest, true);
      var login := info.(user := CString(a.text), password := if port.Some? then port.value else info.password);
      HostOf(scanf, login, CString(c.text), None, c)
    else HostOf(scanf, info, CString(a.text), port, b)
  }

  /** `amqp_parse_url` on a string; `None` for `AMQP_STATUS_BAD_URL`. */
  function UrlOf(scanf: Scanf, s: Bytes): Option<Info<Bytes>>
    requires ReadsHex(scanf)
  {
    var info := Info(GUEST, GUEST, LOCALHOST, 5672, ROOT, false);
    if AMQP_SCHEME <= s then AuthorityOf(scanf, info, s[7..])
    else if AMQPS_SCHEME <= s then AuthorityOf(scanf, info.(port := 5671, ssl := true), s[8..])
    else None
  }

  //////////////////////////////////////////////////////////////////////////////
  // Parsing in place
  //////////////////////////////////////////////////////////////////////////////

  /** A `char *`: a string constant, or a string in the buffer of the URL. */
  datatype Text = Literal(s: Bytes) | InUrl(offset: nat)

  ghost predicate Settled(buf: Bytes, t: Text, limit: nat, s: Bytes) {
    match t
    case Literal(l) => l == s
    case InUrl(o) => Terminated(buf, o, limit) && CString(buf[o..]) == s
  }

  /** The strings of `parsed` are those of `info`, and end before `limit`. */
  ghost predicate AllSettled(buf: Bytes, parsed: Info<Text>, limit: nat, info: Info<Bytes>) {
    && Settled(buf, parsed.user, limit, info.user) && Settled(buf, parsed.password, limit, info.password)
    && Settled(buf, parsed.host, limit, info.host) && Settled(buf, parsed.vhost, limit, info.vhost)
    && parsed.port == info.port && parsed.ssl == info.ssl
  }

  lemma SettledStays(before: Bytes, after: Bytes, t: Text, pos: nat, limit: nat, s: Bytes)
    requires Settled(before, t, pos, s) && pos <= limit <= |after| && pos <= |before| && after[..pos] == before[..pos]
    ensures Settled(after, t, limit, s)
  {
    hide CString;
    if t.InUrl? {
      var o, n := t.offset, |s|;
      assert before[o..][..n] == before[..pos][o..o + n] && after[o..o + n] == after[..pos][o..o + n];
      assert before[o..][n] == before[..pos][o + n] && after[o + n] == after[..pos][o + n];
      TextIsTerminated(after, o, s, limit);
      CStringOf(s, []);
    }
  }

  lemma AllSettledStays(before: Bytes, after: Bytes, parsed: Info<Text>, pos: nat, limit: nat, info: Info<Bytes>)
    requires AllSettled(before, parsed, pos, info) && pos <= limit <= |after| && pos <= |before|
    requires after[..pos] == before[..pos]
    ensures AllSettled(after, parsed, limit, info)
  {
    hide Settled;
    SettledStays(before, after, parsed.user, pos, limit, info.user);
    SettledStays(before, after, parsed.password, pos, limit, info.password);
    SettledStays(before, after, parsed.host, pos, limit, info.host);
    SettledStays(before, after, parsed.vhost, pos, limit, info.vhost);
  }

  /** The buffer after a scan that gave `p`. */
  ghost predicate Reached(buf: Bytes, p: Piece, delim: byte, pos: nat) {
    && delim == p.delim
    && (delim != PERCENT ==> pos <= |buf| && buf[pos..] == p.rest && (delim != 0 ==> pos < |buf|))
    && (delim != 0 ==> |buf| > 0 && buf[|buf| - 1] == 0)
  }

  /** After another scan there is one string more, and the others are what they were. */
  lemma FoundSettles(scanf: Scanf, before: Bytes, after: Bytes, pos: nat, both: bool, delim: byte, next: nat,
                     parsed: Info<Text>, info: Info<Bytes>)
    requires ReadsHex(scanf) && Found(scanf, before, after, pos, both, delim, next)
    ensures var p := Scan(scanf, before[pos..], both);
            && Reached(after, p, delim, next)
            && (delim != PERCENT ==> Settled(after, InUrl(pos), next, CString(p.text)))
            && (delim != PERCENT && AllSettled(before, parsed, pos, info) ==> AllSettled(after, parsed, next, info))
  {
    hide CString, Scan, ReadsHex, AllSettled, Terminated;
    if delim != PERCENT && AllSettled(before, parsed, pos, info) {
      AllSettledStays(before, after, parsed, pos, next, info);
    }
  }

  /** The result of parsing: the strings that are in the buffer in the end. */
  ghost predicate Parsed(buf: Bytes, status: Status, parsed: Info<Text>, spec: Option<Info<Bytes>>) {
    && status == (if spec.Some? then Ok else BadUrl)
    && (spec.Some? ==> AllSettled(buf, parsed, |buf|, spec.value))
  }

  /** The last part of `amqp_parse_url`: the virtual host. */
  method ParseVhost(scanf: Scanf, url: array<byte>, info: Info<Text>, delim: byte, pos: nat,
                    ghost known: Info<Bytes>, ghost p: Piece)
    returns (status: Status, parsed: Info<Text>)
    requires ReadsHex(scanf) && Reached(url[..], p, delim, pos)
    requires delim != PERCENT ==> AllSettled(url[..], info, pos, known)
    modifies url
    ensures Parsed(url[..], status, parsed, VhostOf(scanf, known, p))
  {
    hide CString, Scan, ReadsHex, Found, Terminated, Settled;
    parsed := info;
    if delim == SLASH {
      ghost var before := url[..];
      var end, next := FindDelim(scanf, url, pos, true);
      FoundSettles(scanf, before, url[..], pos, true, end, next, info, known);
      if end != 0 {
        return BadUrl, parsed;
      }
      parsed := parsed.(vhost := InUrl(pos));
      AllSettledStays(url[..], url[..], parsed, next, url.Length, known.(vhost := CString(Scan(scanf, p.rest, true).text)));
      return Ok, parsed;
    } else if delim == 0 {
      AllSettledStays(url[..], url[..], parsed, pos, url.Length, known);
      return Ok, parsed;
    }
    return BadUrl, parsed;
  }

  /** The part of `amqp_parse_url` that reads the port, unless that has been passed already. */
  method ParsePort(scanf: Scanf, url: array<byte>, info: Info<Text>, port: Option<nat>, delim: byte, pos: nat,
                   ghost known: Info<Bytes>, ghost portText: Option<Bytes>, ghost p: Piece)
    returns (status: Status, parsed: Info<Text>)
    requires ReadsHex(scanf) && Reached(url[..], p, delim, pos)
    requires port.Some? == portText.Some? && (port.Some? ==> port.value <= url.Length)
    requires delim != PERCENT ==> AllSettled(url[..], info, pos, known)
    requires delim != PERCENT && port.Some? ==> Settled(url[..], InUrl(port.value), pos, portText.value)
    modifies url
    ensures Parsed(url[..], status, parsed, PortOf(scanf, known, portText, p))
  {
    hide CString, Scan, ReadsHex, Found, Terminated, PortNumber, VhostOf, AllSettled;
    var start, delim', pos' := port, delim, pos;
    ghost var q := p;
    if delim == COLON {
      start := Some(pos);
      ghost var before := url[..];
      delim', pos' := FindDelim(scanf, url, pos, true);
      FoundSettles(scanf, before, url[..], pos, true, delim', pos', info, known);
      q := Scan(scanf, p.rest, true);
    }
    if delim' == PERCENT {
      BadEscapeIsBad(scanf, q);
    }
    var info', known' := info, known;
    if start.Some? {
      var number := PortNumber(CString(url[..][start.value..]));
      if number.None? {
        return BadUrl, info;
      }
      info', known' := info.(port := number.value), known.(port := number.value);
      if delim' != PERCENT {
        PortIsSettled(url[..], info, pos', known, number.value);
      }
    }
    status, parsed := ParseVhost(scanf, url, info', delim', pos', known', q);
  }

  lemma PortIsSettled(buf: Bytes, parsed: Info<Text>, limit: nat, info: Info<Bytes>, n: nat)
    requires AllSettled(buf, parsed, limit, info)
    ensures AllSettled(buf, parsed.(port := n), limit, info.(port := n))
  {
  }

  lemma BadEscapeIsBad(scanf: Scanf, p: Piece)
    requires ReadsHex(scanf) && p.delim == PERCENT
    ensures forall info :: VhostOf(scanf, info, p) == None
  {
  }

  /** The part of `amqp_parse_url` that settles what is the host. */
  method ParseHost(scanf: Scanf, url: array<byte>, info: Info<Text>, host: nat, port: Option<nat>, delim: byte, pos: nat,
                   ghost known: Info<Bytes>, ghost hostText: Bytes, ghost portText: Option<Bytes>, ghost p: Piece)
    returns (status: Status, parsed: Info<Text>)
    requires ReadsHex(scanf) && Reached(url[..], p, delim, pos) && host < url.Length
    requires port.Some? == portText.Some? && (port.Some? ==> port.value <= url.Length)
    requires delim != PERCENT ==> AllSettled(url[..], info, pos, known) && Settled(url[..], InUrl(host), pos, hostText)
    requires delim != PERCENT && port.Some? ==> Settled(url[..], InUrl(port.value), pos, portText.value)
    modifies url
    ensures Parsed(url[..], status, parsed, HostOf(scanf, known, hostText, portText, p))
  {
    hide Scan, ReadsHex, Found, AllSettled, PortOf;
    if delim == PERCENT {
      BadEscapeIsBad(scanf, p);
      PortOfBadEscape(scanf, p);
    }
    if delim == OPEN {
      if port.Some? || url[host] != 0 {
        return BadUrl, info;
      }
      status, parsed := ParseAddress(scanf, url, info, pos, known, p);
    } else {
      var info', known' := info, known;
      if url[host] != 0 {
        info', known' := info.(host := InUrl(host)), known.(host := hostText);
        if delim != PERCENT {
          HostIsSettled(url[..], info, pos, known, InUrl(host), hostText);
        }
      }
      status, parsed := ParsePort(scanf, url, info', port, delim, pos, known', portText, p);
    }
  }

  /** An IPv6 address, behind its opening bracket. */
  method ParseAddress(scanf: Scanf, url: array<byte>, info: Info<Text>, pos: nat, ghost known: Info<Bytes>, ghost p: Piece)
    returns (status: Status, parsed: Info<Text>)
    requires ReadsHex(scanf) && Reached(url[..], p, OPEN, pos) && AllSettled(url[..], info, pos, known)
    modifies url
    ensures Parsed(url[..], status, parsed, HostOf(scanf, known, [], None, p))
  {
    hide Scan, ReadsHex, Found, AllSettled, PortOf, Settled, CString;
    ghost var address := Scan(scanf, p.rest, false);
    ghost var before := url[..];
    var delim, next := FindDelim(scanf, url, pos, false);
    FoundSettles(scanf, before, url[..], pos, false, delim, next, info, known);
    if delim != CLOSE {
      return BadUrl, info;
    }
    HostIsSettled(url[..], info, next, known, InUrl(pos), CString(address.text));
    status, parsed := ParseBehindAddress(scanf, url, info.(host := InUrl(pos)), next,
                                         known.(host := CString(address.text)), address);
  }

  /** The closing bracket has to be the end of the host. */
  method ParseBehindAddress(scanf: Scanf, url: array<byte>, info: Info<Text>, pos: nat, ghost known: Info<Bytes>,
                            ghost p: Piece)
    returns (status: Status, parsed: Info<Text>)
    requires ReadsHex(scanf) && Reached(url[..], p, CLOSE, pos) && AllSettled(url[..], info, pos, known)
    modifies url
    ensures Parsed(url[..], status, parsed, var q := Scan(scanf, p.rest, true);
                                            if CString(q.text) != [] then None else PortOf(scanf, known, None, q))
  {
    hide Scan, ReadsHex, Found, AllSettled, PortOf, Settled, CString;
    ghost var before := url[..];
    ghost var q := Scan(scanf, p.rest, true);
    var delim, next := FindDelim(scanf, url, pos, true);
    FoundSettles(scanf, before, url[..], pos, true, delim, next, info, known);
    if delim == PERCENT {
      PortOfBadEscape(scanf, q);
    } else {
      EmptyText(url[..], pos, next, CString(q.text));
    }
    if url[pos] != 0 {
      return BadUrl, info;
    }
    status, parsed := ParsePort(scanf, url, info, None, delim, next, known, None, q);
  }

  lemma EmptyText(buf: Bytes, o: nat, limit: nat, s: Bytes)
    requires Settled(buf, InUrl(o), limit, s)
    ensures o < |buf| && (buf[o] == 0 <==> s == [])
  {
  }

  lemma HostIsSettled(buf: Bytes, parsed: Info<Text>, limit: nat, info: Info<Bytes>, host: Text, s: Bytes)
    requires AllSettled(buf, parsed, limit, info) && Settled(buf, host, limit, s)
    ensures AllSettled(buf, parsed.(host := host), limit, info.(host := s))
  {
  }

  lemma PortOfBadEscape(scanf: Scanf, p: Piece)
    requires ReadsHex(scanf) && p.delim == PERCENT
    ensures forall info, port :: PortOf(scanf, info, port, p) == None
  {
  }

  /** `amqp_parse_url`: the components are decoded in the buffer of the URL, and none of them damages
      another. */
  method ParseUrl(scanf: Scanf, url: array<byte>) returns (status: Status, parsed: Info<Text>)
    requires ReadsHex(scanf) && url.Length > 0 && url[url.Length - 1] == 0
    modifies url
    ensures Parsed(url[..], status, parsed, UrlOf(scanf, old(url[..])))
  {
    hide Scan, ReadsHex, AuthorityOf;
    parsed := Info(Literal(GUEST), Literal(GUEST), Literal(LOCALHOST), 5672, Literal(ROOT), false);
    ghost var known := Info(GUEST, GUEST, LOCALHOST, 5672, ROOT, false);
    if AMQP_SCHEME <= url[..] {
      NotJustScheme(url[..], AMQP_SCHEME);
      status, parsed := ParseAuthority(scanf, url, parsed, 7, known);
    } else if AMQPS_SCHEME <= url[..] {
      NotJustScheme(url[..], AMQPS_SCHEME);
      parsed := parsed.(port := 5671, ssl := true);
      status, parsed := ParseAuthority(scanf, url, parsed, 8, known.(port := 5671, ssl := true));
    } else {
      status := BadUrl;
    }
  }

  lemma NotJustScheme(s: Bytes, scheme: Bytes)
    requires scheme <= s && |scheme| > 0 && scheme[|scheme| - 1] != 0 && |s| > 0 && s[|s| - 1] == 0
    ensures |scheme| < |s|
  {
  }

  /** The part of `amqp_parse_url` behind the scheme: user and password, or host and port. */
  method ParseAuthority(scanf: Scanf, url: array<byte>, info: Info<Text>, pos: nat, ghost known: Info<Bytes>)
    returns (status: Status, parsed: Info<Text>)
    requires ReadsHex(scanf) && pos < url.Length && url[url.Length - 1] == 0
    requires AllSettled(url[..], info, pos, known)
    modifies url
    ensures Parsed(url[..], status, parsed, AuthorityOf(scanf, known, old(url[..])[pos..]))
  {
    hide Scan, ReadsHex, Found, AllSettled, HostOf, Settled;
    var host, port: Option<nat> := pos, None;
    ghost var s, before := url[..], url[..];
    ghost var a := Scan(scanf, s[pos..], true);
    ghost var b, portText: Option<Bytes> := a, None;
    var delim, next := FindDelim(scanf, url, pos, true);
    FoundSettles(scanf, before, url[..], pos, true, delim, next, info, known);
    if delim == COLON {
      port := Some(next);
      before := url[..];
      ghost var at := next;
      delim, next := FindDelim(scanf, url, next, true);
      b := Scan(scanf, a.rest, true);
      portText := Some(CString(b.text));
      FoundSettles(scanf, before, url[..], at, true, delim, next, info, known);
      if delim != PERCENT {
        FoundKeeps(scanf, before, url[..], at, true, delim, next, InUrl(host), CString(a.text));
      }
    }
    if delim == AT {
      var info' := info.(user := InUrl(host), password := if port.Some? then InUrl(port.value) else info.password);
      ghost var known' := known.(user := CString(a.text), password := if port.Some? then portText.value else known.password);
      LoginIsSettled(url[..], info, next, known, InUrl(host), CString(a.text), info'.password, known'.password);
      status, parsed := ParseBehindLogin(scanf, url, info', next, known', b);
    } else {
      status, parsed := ParseHost(scanf, url, info, host, port, delim, next, known, CString(a.text), portText, b);
    }
  }

  /** The part of `amqp_parse_url` behind user and password. */
  method ParseBehindLogin(scanf: Scanf, url: array<byte>, info: Info<Text>, pos: nat, ghost known: Info<Bytes>,
                          ghost p: Piece)
    returns (status: Status, parsed: Info<Text>)
    requires ReadsHex(scanf) && Reached(url[..], p, AT, pos) && AllSettled(url[..], info, pos, known)
    modifies url
    ensures Parsed(url[..], status, parsed, var c := Scan(scanf, p.rest, true);
                                            HostOf(scanf, known, CString(c.text), None, c))
  {
    hide Scan, ReadsHex, Found, AllSettled, HostOf, Settled;
    ghost var before := url[..];
    ghost var c := Scan(scanf, p.rest, true);
    var delim, next := FindDelim(scanf, url, pos, true);
    FoundSettles(scanf, before, url[..], pos, true, delim, next, info, known);
    status, parsed := ParseHost(scanf, url, info, pos, None, delim, next, known, CString(c.text), None, c);
  }

  lemma FoundKeeps(scanf: Scanf, before: Bytes, after: Bytes, pos: nat, both: bool, delim: byte, next: nat, t: Text, s: Bytes)
    requires ReadsHex(scanf) && Found(scanf, before, after, pos, both, delim, next) && delim != PERCENT
    requires Settled(before, t, pos, s)
    ensures Settled(after, t, next, s)
  {
    hide Settled, Scan, CString, ReadsHex;
    SettledStays(before, after, t, pos, next, s);
  }

  lemma LoginIsSettled(buf: Bytes, parsed: Info<Text>, limit: nat, info: Info<Bytes>, user: Text, userText: Bytes,
                       password: Text, passwordText: Bytes)
    requires AllSettled(buf, parsed, limit, info) && Settled(buf, user, limit, userText)
    requires (password, passwordText) == (parsed.password, info.password) || Settled(buf, password, limit, passwordText)
    ensures AllSettled(buf, parsed.(user := user, password := password), limit,
                       info.(user := userText, password := passwordText))
  {
  }
}
