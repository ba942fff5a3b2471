/** What `send_aprs_packet` writes to the APRS-IS server: the login line and
    an `@` position report with a `DDHHMMz` zulu timestamp (chapters 6 and 8
    of the APRS Protocol Reference 1.0.1). */
module Packet {

  import opened Wrappers
  import Text
  import Decimal
  import Position

  /** Everything between the callsign and the timestamp: the destination
      `APRS`, the APRS-IS path `TCPIP*,qAC,CWOP-6`, and the data type
      identifier `@` (position with timestamp). */
  const Header := ">APRS,TCPIP*,qAC,CWOP-6:@"

  /** The login line's fixed parts. */
  const LoginUser := "user "
  const LoginPass := " pass "
  const LoginVers := " vers aprs_simple 1.0\n"

  /** The wall-clock reading in UTC the timestamp is taken from. */
  datatype Clock = Clock(day: nat, hour: nat, minute: nat)

  /** Any reading a calendar clock can give. */
  predicate ValidClock(c: Clock) {
    1 <= c.day <= 31 && c.hour < 24 && c.minute < 60
  }

  /** `strftime('%d%H%Mz')`: day, hour and minute as two digits each, then
      `z` for zulu time. */
  function Timestamp(c: Clock): (r: string)
    requires ValidClock(c)
    ensures |r| == 7 && r[6] == 'z'
    ensures Decimal.AllDigits(r[..6])
    ensures Decimal.Value(r[..2]) == c.day && Decimal.Value(r[2..4]) == c.hour && Decimal.Value(r[4..6]) == c.minute
  {
    assert Decimal.Pow10(2) == 100;
    Decimal.PadZeroWidth(c.day, 2);
    Decimal.PadZeroWidth(c.hour, 2);
    Decimal.PadZeroWidth(c.minute, 2);
    var d, h, m := Decimal.PadZero(c.day, 2), Decimal.PadZero(c.hour, 2), Decimal.PadZero(c.minute, 2);
    var r := d + h + m + "z";
    assert r[..2] == d && r[2..4] == h && r[4..6] == m && r[..6] == d + h + m;
    r
  }

  /** The fields of a position report, each as the text it is written as. */
  datatype Report = Report(callsign: string, time: string, lat: string, table: string,
                           lon: string, symbol: string, comment: string)

  /** The fields after the header, in order, with the comment last. */
  function Body(r: Report): string {
    r.time + r.lat + r.table + r.lon + r.symbol + r.comment
  }

  /** The packet line (without its newline): a receiver finds the callsign
      before the first `>`, and the comment is its tail. */
  function PositionPacket(r: Report): (p: string)
    ensures '>' !in r.callsign ==> Text.BeforeFirst(p, '>') == r.callsign
    ensures |p| >= |r.callsign| + |Header| + |r.comment| && r.callsign + Header <= p
    ensures p[|p| - |r.comment|..] == r.comment
  {
    var rest := Header + Body(r);
    var p := r.callsign + rest;
    assert p == r.callsign + Header + Body(r);
    assert p[|p| - |r.comment|..] == r.comment;
    if '>' in r.callsign then p
    else
      BeforeFirstAt(r.callsign, '>', rest);
      p
  }

  /** A report whose fields have the widths a reader of the packet relies
      on; the callsign must not contain the `>` that ends it. */
  predicate WellFormed(r: Report) {
    && '>' !in r.callsign
    && |r.time| == 7 && |r.lat| == 8 && |r.table| == 1 && |r.lon| == 9 && |r.symbol| == 1
  }

  /** `s` without `prefix` at its front, when it starts with it. */
  function DropPrefix(prefix: string, s: string): (r: Option<string>)
    ensures r.Some? <==> prefix <= s
    ensures r.Some? ==> s == prefix + r.value
  {
    if prefix <= s then
      assert s == prefix + s[|prefix|..];
      Some(s[|prefix|..])
    else None
  }

  /** `s` without `suffix` at its end, when it ends with it. */
  function DropSuffix(suffix: string, s: string): (r: Option<string>)
    ensures r.Some? ==> s == r.value + suffix
  {
    if |suffix| <= |s| && s[|s| - |suffix|..] == suffix then
      assert s == s[..|s| - |suffix|] + s[|s| - |suffix|..];
      Some(s[..|s| - |suffix|])
    else None
  }

  lemma DropPrefixJoin(prefix: string, t: string)
    ensures DropPrefix(prefix, prefix + t) == Some(t)
  {
    assert (prefix + t)[..|prefix|] == prefix;
    assert (prefix + t)[|prefix|..] == t;
  }

  lemma DropSuffixJoin(suffix: string, t: string)
    ensures DropSuffix(suffix, t + suffix) == Some(t)
  {
    assert (t + suffix)[|t|..] == suffix;
    assert (t + suffix)[..|t|] == t;
  }

  /** The text before the first `sep` and what follows from there on. */
  lemma SplitAt(s: string, sep: char)
    ensures s == Text.BeforeFirst(s, sep) + s[|Text.BeforeFirst(s, sep)|..]
  {
  }

  /** Where `rest` starts with the separator, the text before the first
      separator of `a + rest` is `a`, and `rest` follows it. */
  lemma BeforeFirstAt(a: string, sep: char, rest: string)
    requires sep !in a && |rest| > 0 && rest[0] == sep
    ensures Text.BeforeFirst(a + rest, sep) == a
    ensures (a + rest)[|a|..] == rest
  {
    assert a + rest == a + [sep] + rest[1..];
    Text.BeforeFirstJoin(a, sep, rest[1..]);
  }

  /** Reads a packet line back into its fields: the callsign up to the
      first `>`, the fixed header, then the fixed-width fields and the
      comment as the rest. */
  function ParsePacket(p: string): (r: Option<Report>)
    ensures r.Some? ==> WellFormed(r.value)
  {
    var call := Text.BeforeFirst(p, '>');
    match DropPrefix(Header, p[|call|..])
    case None => None
    case Some(f) =>
      match ParseBody(f)
      case None => None
      case Some(b) => Some(b.(callsign := call))
  }

  /** The fixed-width fields of a body; the callsign is filled in by the
      caller. */
  function ParseBody(f: string): (r: Option<Report>)
    ensures r.Some? ==> |r.value.time| == 7 && |r.value.lat| == 8 && |r.value.table| == 1
                        && |r.value.lon| == 9 && |r.value.symbol| == 1
  {
    if |f| < 26 then None
    else Some(Report([], f[..7], f[7..15], f[15..16], f[16..25], f[25..26], f[26..]))
  }

  lemma ParseBodyOfBody(r: Report)
    requires WellFormed(r)
    ensures ParseBody(Body(r)) == Some(r.(callsign := []))
  {
    var f := Body(r);
    assert f[..7] == r.time;
    assert f[7..15] == r.lat;
    assert f[15..16] == r.table;
    assert f[16..25] == r.lon;
    assert f[25..26] == r.symbol;
    assert f[26..] == r.comment;
  }

  /** The fields read from a body, put back in order, give the body. */
  lemma BodyOfParse(f: string)
    requires ParseBody(f).Some?
    ensures Body(ParseBody(f).value) == f
  {
    assert f == f[..7] + f[7..15] + f[15..16] + f[16..25] + f[25..26] + f[26..];
  }

  /** Reading a well-formed report's packet gives the report back: the
      fields are in their order and the comment is carried verbatim. */
  lemma ParseBuild(r: Report)
    requires WellFormed(r)
    ensures ParsePacket(PositionPacket(r)) == Some(r)
  {
    var rest := Header + Body(r);
    assert PositionPacket(r) == r.callsign + rest;
    assert rest[0] == '>';
    BeforeFirstAt(r.callsign, '>', rest);
    DropPrefixJoin(Header, Body(r));
    ParseBodyOfBody(r);
  }

  /** A line that reads as a report is exactly that report's packet: there
      is one spelling per report. */
  lemma BuildParse(p: string)
    requires ParsePacket(p).Some?
    ensures PositionPacket(ParsePacket(p).value) == p
  {
    var call := Text.BeforeFirst(p, '>');
    var f := DropPrefix(Header, p[|call|..]).value;
    var b := ParseBody(f).value;
    var r := b.(callsign := call);
    assert ParsePacket(p).value == r;
    assert Body(r) == f by {
      BodyOfParse(f);
      assert Body(r) == Body(b);
    }
    assert Header + f == p[|call|..];
    assert PositionPacket(r) == call + (Header + f);
    SplitAt(p, '>');
  }

  /** The login line `user <callsign> pass <passcode> vers aprs_simple 1.0`,
      newline included. */
  function LoginLine(callsign: string, passcode: string): (l: string)
    ensures |l| > |LoginUser| && l[..|LoginUser|] == LoginUser && l[|l| - 1] == '\n'
    ensures ' ' !in callsign ==> Text.BeforeFirst(l[|LoginUser|..], ' ') == callsign
  {
    var rest := LoginPass + passcode + LoginVers;
    var l := LoginUser + (callsign + rest);
    assert l == LoginUser + callsign + LoginPass + passcode + LoginVers;
    assert l[|LoginUser|..] == callsign + rest;
    assert l[|l| - 1] == LoginVers[|LoginVers| - 1];
    if ' ' in callsign then l
    else
      BeforeFirstAt(callsign, ' ', rest);
      l
  }

  datatype Login = Login(callsign: string, passcode: string)

  /** Reads a login line back: after `user ` the callsign runs to the first
      space, then comes ` pass `, and the passcode is everything up to the
      fixed ending. */
  function ParseLogin(l: string): (r: Option<Login>)
    ensures r.Some? ==> ' ' !in r.value.callsign
  {
    match DropPrefix(LoginUser, l)
    case None => None
    case Some(a) =>
      match DropSuffix(LoginVers, a)
      case None => None
      case Some(mid) =>
        var call := Text.BeforeFirst(mid, ' ');
        match DropPrefix(LoginPass, mid[|call|..])
        case None => None
        case Some(passcode) => Some(Login(call, passcode))
  }

  /** A login line for a callsign without spaces reads back as the callsign
      and passcode text it was made from. */
  lemma LoginRoundTrip(callsign: string, passcode: string)
    requires ' ' !in callsign
    ensures ParseLogin(LoginLine(callsign, passcode)) == Some(Login(callsign, passcode))
  {
    var mid := callsign + (LoginPass + passcode);
    assert LoginLine(callsign, passcode) == LoginUser + (mid + LoginVers);
    LoginPieces(callsign, passcode);
  }

  /** Each step of `ParseLogin` on the pieces of a login line. */
  lemma LoginPieces(callsign: string, passcode: string)
    requires ' ' !in callsign
    ensures var rest := LoginPass + passcode; var mid := callsign + rest;
      && DropPrefix(LoginUser, LoginUser + (mid + LoginVers)) == Some(mid + LoginVers)
      && DropSuffix(LoginVers, mid + LoginVers) == Some(mid)
      && Text.BeforeFirst(mid, ' ') == callsign && mid[|callsign|..] == rest
      && DropPrefix(LoginPass, rest) == Some(passcode)
  {
    var rest := LoginPass + passcode;
    var mid := callsign + rest;
    DropPrefixJoin(LoginUser, mid + LoginVers);
    DropSuffixJoin(LoginVers, mid);
    assert rest[0] == ' ';
    BeforeFirstAt(callsign, ' ', rest);
    DropPrefixJoin(LoginPass, passcode);
  }

  /** A line that reads as a login is exactly that login's line. */
  lemma LoginParseBuild(l: string)
    requires ParseLogin(l).Some?
    ensures LoginLine(ParseLogin(l).value.callsign, ParseLogin(l).value.passcode) == l
  {
    var a := DropPrefix(LoginUser, l).value;
    var mid := DropSuffix(LoginVers, a).value;
    var call := Text.BeforeFirst(mid, ' ');
    var passcode := DropPrefix(LoginPass, mid[|call|..]).value;
    assert ParseLogin(l).value == Login(call, passcode);
    calc {
      LoginLine(call, passcode);
      LoginUser + (call + (LoginPass + passcode)) + LoginVers;
      LoginUser + (call + mid[|call|..]) + LoginVers;
    == { SplitAt(mid, ' '); }
      LoginUser + (mid + LoginVers);
      l;
    }
  }

  /** The settings a beacon is sent with. The two angles are what the
      floating-point part of `decimal_to_aprs` makes of LAT and LON. */
  datatype Station = Station(callsign: string, passcode: string, lat: Position.Angle, lon: Position.Angle,
                             table: string, symbol: string, comment: string)

  /** The report `send_aprs_packet` assembles at the given time. */
  function BeaconReport(st: Station, clock: Clock): (r: Report)
    requires ValidClock(clock)
    ensures r.callsign == st.callsign && r.table == st.table && r.symbol == st.symbol && r.comment == st.comment
    ensures r.time == Timestamp(clock)
    ensures st.lat.degrees < 100 && st.lat.hundredths < 10000 ==>
              Position.Decode(r.lat, Position.Latitude) == Some(st.lat)
    ensures st.lon.degrees < 1000 && st.lon.hundredths < 10000 ==>
              Position.Decode(r.lon, Position.Longitude) == Some(st.lon)
  {
    assert Decimal.Pow10(2) == 100 && Decimal.Pow10(3) == 1000;
    Position.DecodeEncodeWithin(st.lat, Position.Latitude);
    Position.DecodeEncodeWithin(st.lon, Position.Longitude);
    Report(st.callsign, Timestamp(clock), Position.Encode(st.lat, Position.Latitude), st.table,
           Position.Encode(st.lon, Position.Longitude), st.symbol, st.comment)
  }

  /** The two writes of one APRS-IS session, in order: the login line, then
      the packet line with its newline. The login uses the packet's own
      callsign, and opens with `user `; the packet line opens with the
      callsign and the fixed header and closes with the comment and the
      newline. */
  function Transmit(passcode: string, r: Report): (lines: seq<string>)
    ensures |lines| == 2 && |lines[0]| > |LoginUser| && |lines[1]| > |r.callsign| + |Header| + |r.comment|
    ensures lines[0][|lines[0]| - 1] == '\n' && lines[1][|lines[1]| - 1] == '\n'
    ensures LoginUser <= lines[0] && r.callsign + Header <= lines[1]
    ensures lines[1][|lines[1]| - 1 - |r.comment|..|lines[1]| - 1] == r.comment
  {
    var p := PositionPacket(r);
    var line := p + "\n";
    assert |line| == |p| + 1 && line[|p|] == '\n';
    assert line[..|p|] == p;
    assert line[|p| - |r.comment|..|p|] == r.comment;
    [LoginLine(r.callsign, passcode), line]
  }

  /** One call of `send_aprs_packet` at the given time. */
  function Session(st: Station, clock: Clock): (lines: seq<string>)
    requires ValidClock(clock)
    ensures |lines| == 2 && LoginUser <= lines[0] && st.callsign + Header <= lines[1]
    ensures |lines[1]| > 0 && lines[1][|lines[1]| - 1] == '\n'
  {
    Transmit(st.passcode, BeaconReport(st, clock))
  }

  /** A station whose fields fit the packet layout. */
  predicate Sendable(st: Station) {
    && '>' !in st.callsign && ' ' !in st.callsign
    && |st.table| == 1 && |st.symbol| == 1
    && st.lat.degrees < 100 && st.lat.hundredths < 10000
    && st.lon.degrees < 1000 && st.lon.hundredths < 10000
  }

  /** A receiver of the session recovers what was sent: the login gives the
      callsign and passcode, the packet gives the timestamp, both positions,
      the symbol table and code, and the comment verbatim. */
  lemma SessionRoundTrip(st: Station, clock: Clock)
    requires ValidClock(clock) && Sendable(st)
    ensures var lines := Session(st, clock);
      && ParseLogin(lines[0]) == Some(Login(st.callsign, st.passcode))
      && ParsePacket(lines[1][..|lines[1]| - 1]) == Some(BeaconReport(st, clock))
      && Position.Decode(BeaconReport(st, clock).lat, Position.Latitude) == Some(st.lat)
      && Position.Decode(BeaconReport(st, clock).lon, Position.Longitude) == Some(st.lon)
  {
    var r := BeaconReport(st, clock);
    assert Decimal.Pow10(2) == 100 && Decimal.Pow10(3) == 1000;
    Position.DecodeEncode(st.lat, Position.Latitude);
    Position.DecodeEncode(st.lon, Position.Longitude);
    Position.EncodeLayout(st.lat, Position.Latitude);
    Position.EncodeLayout(st.lon, Position.Longitude);
    assert WellFormed(r);
    ParseBuild(r);
    LoginRoundTrip(st.callsign, st.passcode);
    var line := PositionPacket(r) + "\n";
    assert line[..|line| - 1] == PositionPacket(r);
  }
}
