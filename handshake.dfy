/** Establishing a replication connection (NewRepConn): the target URL,
    the classification of the handshake reply, and the construction of
    the connection around the hijacked transport. The HTTP machinery,
    the TCP dial and the hijack are the environment's: a Peer says what
    each of them does for the URL and host they are given. */
module Handshake {
  import opened Base
  import opened RepConnection

  // ---- decimal rendering, as fmt's %d writes an int ----

  predicate IsDigit(ch: char) {
    '0' <= ch <= '9'
  }

  function DigitChar(d: nat): (ch: char)
    requires d < 10
    ensures IsDigit(ch)
  {
    ('0' as int + d) as char
  }

  function DigitValue(ch: char): (d: nat)
    requires IsDigit(ch)
    ensures d < 10
  {
    ch as int - '0' as int
  }

  predicate AllDigits(s: string) {
    forall i :: 0 <= i < |s| ==> IsDigit(s[i])
  }

  function NatToDecimal(n: nat): (s: string)
    ensures |s| >= 1 && AllDigits(s)
    decreases n
  {
    if n < 10 then [DigitChar(n)] else NatToDecimal(n / 10) + [DigitChar(n % 10)]
  }

  function IntToDecimal(i: int): (s: string)
    ensures |s| >= 1
    ensures forall k :: 0 <= k < |s| ==> IsDigit(s[k]) || (k == 0 && s[k] == '-')
    ensures s[0] == '-' <==> i < 0
    ensures i < 0 ==> |s| >= 2 && AllDigits(s[1..])
    ensures i >= 0 ==> AllDigits(s)
  {
    if i < 0 then "-" + NatToDecimal(-i) else NatToDecimal(i)
  }

  /** Reading a string of decimal digits, most significant first. */
  function DecimalToNat(s: string): nat
    requires AllDigits(s)
  {
    if s == [] then 0 else DecimalToNat(s[..|s| - 1]) * 10 + DigitValue(s[|s| - 1])
  }

  /** Reading an optionally negative decimal integer; None when the string is not one. */
  function DecimalToInt(s: string): Option<int> {
    if |s| >= 2 && s[0] == '-' && AllDigits(s[1..]) then Some(-(DecimalToNat(s[1..]) as int))
    else if |s| >= 1 && AllDigits(s) then Some(DecimalToNat(s))
    else None
  }

  lemma {:induction false} NatDecimalRoundTrip(n: nat)
    ensures DecimalToNat(NatToDecimal(n)) == n
    decreases n
  {
    var s := NatToDecimal(n);
    if n >= 10 {
      assert s[..|s| - 1] == NatToDecimal(n / 10);
      NatDecimalRoundTrip(n / 10);
    } else {
      assert s[..|s| - 1] == [];
    }
  }

  /** The port fmt renders can be read back. */
  lemma IntDecimalRoundTrip(i: int)
    ensures DecimalToInt(IntToDecimal(i)) == Some(i)
  {
    var s := IntToDecimal(i);
    if i < 0 {
      assert s[1..] == NatToDecimal(-i);
      NatDecimalRoundTrip(-i);
    } else {
      NatDecimalRoundTrip(i);
    }
  }

  // ---- the target URL and its parts ----

  /** The host part of the target, which is what is dialed. */
  function HostPort(ip: string, port: int): string {
    ip + ":" + IntToDecimal(port)
  }

  /** fmt.Sprintf("http://%s:%d/%s/%s", ip, port, device, partition) */
  function TargetUrl(ip: string, port: int, device: string, partition: string): string {
    "http://" + HostPort(ip, port) + "/" + device + "/" + partition
  }

  /** The first position of ch in s. */
  function IndexOf(s: string, ch: char): (r: Option<nat>)
    ensures r.Some? ==> r.value < |s| && s[r.value] == ch && ch !in s[..r.value]
    ensures r.None? ==> ch !in s
  {
    if s == [] then None
    else if s[0] == ch then Some(0)
    else match IndexOf(s[1..], ch)
      case None => None
      case Some(i) => Some(i + 1)
  }

  /** The last position of ch in s. */
  function LastIndexOf(s: string, ch: char): (r: Option<nat>)
    ensures r.Some? ==> r.value < |s| && s[r.value] == ch && ch !in s[r.value + 1..]
    ensures r.None? ==> ch !in s
  {
    if s == [] then None
    else if s[|s| - 1] == ch then Some(|s| - 1)
    else LastIndexOf(s[..|s| - 1], ch)
  }

  lemma {:induction false} IndexOfSeparator(s: string, ch: char, t: string)
    requires ch !in s
    ensures IndexOf(s + [ch] + t, ch) == Some(|s|)
    decreases |s|
  {
    if s != [] {
      assert (s + [ch] + t)[1..] == s[1..] + [ch] + t;
      IndexOfSeparator(s[1..], ch, t);
    }
  }

  lemma {:induction false} LastIndexOfSeparator(s: string, ch: char, t: string)
    requires ch !in t
    ensures LastIndexOf(s + [ch] + t, ch) == Some(|s|)
    decreases |t|
  {
    var u := s + [ch] + t;
    if t != [] {
      assert u[|u| - 1] == t[|t| - 1];
      assert u[..|u| - 1] == s + [ch] + t[..|t| - 1];
      LastIndexOfSeparator(s, ch, t[..|t| - 1]);
    }
  }

  datatype Target = Target(host: string, device: string, partition: string)

  /** Splits a target URL into its host and its two path segments. */
  function ParseTarget(url: string): Option<Target> {
    if |url| < 7 || url[..7] != "http://" then None
    else
      var rest := url[7..];
      match IndexOf(rest, '/')
      case None => None
      case Some(i) =>
        var path := rest[i + 1..];
        match IndexOf(path, '/')
        case None => None
        case Some(j) => Some(Target(rest[..i], path[..j], path[j + 1..]))
  }

  /** Splits a host into the address and the port after its last colon. */
  function SplitHostPort(host: string): Option<(string, int)> {
    match LastIndexOf(host, ':')
    case None => None
    case Some(k) =>
      match DecimalToInt(host[k + 1..])
      case None => None
      case Some(p) => Some((host[..k], p))
  }

  lemma DecimalHasNoSeparator(i: int)
    ensures ':' !in IntToDecimal(i) && '/' !in IntToDecimal(i)
  {
    var dec := IntToDecimal(i);
    forall k | 0 <= k < |dec| ensures dec[k] != ':' && dec[k] != '/' { }
  }

  lemma ParseTargetOf(host: string, device: string, partition: string)
    requires '/' !in host && '/' !in device
    ensures ParseTarget("http://" + host + "/" + device + "/" + partition)
              == Some(Target(host, device, partition))
  {
    var url := "http://" + host + "/" + device + "/" + partition;
    assert url[..7] == "http://";
    var rest := url[7..];
    assert rest == host + ['/'] + (device + "/" + partition);
    IndexOfSeparator(host, '/', device + "/" + partition);
    assert rest[..|host|] == host;
    var path := rest[|host| + 1..];
    assert path == device + ['/'] + partition;
    IndexOfSeparator(device, '/', partition);
    assert path[..|device|] == device && path[|device| + 1..] == partition;
  }

  lemma SplitHostPortOf(ip: string, port: int)
    ensures SplitHostPort(HostPort(ip, port)) == Some((ip, port))
  {
    var dec := IntToDecimal(port);
    var host := ip + [':'] + dec;
    assert HostPort(ip, port) == host;
    DecimalHasNoSeparator(port);
    LastIndexOfSeparator(ip, ':', dec);
    assert host[|ip| + 1..] == dec && host[..|ip|] == ip;
    IntDecimalRoundTrip(port);
  }

  /** The target URL determines what it was built from, as far as this
      model's own splitting functions go (they stand in for neither Go's
      url.Parse nor net.SplitHostPort): when neither the address nor the
      device contains a '/', the URL splits back into the host ip:port,
      the device and the partition, and the host splits back into the
      address and the port after its last colon. */
  lemma TargetUrlParts(ip: string, port: int, device: string, partition: string)
    requires '/' !in ip && '/' !in device
    ensures ParseTarget(TargetUrl(ip, port, device, partition))
              == Some(Target(HostPort(ip, port), device, partition))
    ensures SplitHostPort(HostPort(ip, port)) == Some((ip, port))
  {
    var host := HostPort(ip, port);
    var dec := IntToDecimal(port);
    DecimalHasNoSeparator(port);
    assert '/' !in host by {
      assert host == ip + ":" + dec;
    }
    ParseTargetOf(host, device, partition);
    SplitHostPortOf(ip, port);
  }

  // ---- the handshake reply ----

  /** Go's integer division, which truncates toward zero. */
  function GoQuotient(a: int, b: int): (q: int)
    requires b > 0
    ensures a >= 0 ==> q * b <= a < q * b + b
    ensures a < 0 ==> q * b - b < a <= q * b
  {
    if a >= 0 then a / b else -((-a) / b)
  }

  /** resp.StatusCode/100 == 2, which holds for exactly the 2xx statuses. */
  function StatusIsOk(code: int): (ok: bool)
    ensures ok <==> 200 <= code <= 299
  {
    GoQuotient(code, 100) == 2
  }

  /** What the environment does during establishment: whether
      http.NewRequest accepts the URL, whether the dial of the host
      succeeds, the status of the reply to the REPCONN request (None when
      the exchange itself fails), and how many bytes the hijacked
      transport will accept. */
  datatype Peer = Peer(
    acceptsUrl: string -> bool,
    dials: string -> bool,
    reply: string -> Option<int>,
    capacity: nat)

  /** The error NewRepConn returns, or None when it returns a connection. */
  function Establish(p: Peer, ip: string, port: int, device: string, partition: string): (r: Option<Error>)
    ensures var url := TargetUrl(ip, port, device, partition);
            var reached := p.acceptsUrl(url) && p.dials(HostPort(ip, port)) && p.reply(url).Some?;
            && (r.None? <==> reached && 200 <= p.reply(url).value <= 299)
            && (r == Some(Unmounted) <==> reached && !(200 <= p.reply(url).value <= 299))
  {
    var url := TargetUrl(ip, port, device, partition);
    if !p.acceptsUrl(url) then Some(RequestError)
    else if !p.dials(HostPort(ip, port)) then Some(DialError)
    else if p.reply(url).None? then Some(ExchangeError)
    else if !StatusIsOk(p.reply(url).value) then Some(Unmounted)
    else None
  }

  /** NewRepConn: the request, dial, exchange and status classification
      are decided by Establish; on a 2xx reply the hijacked transport is
      wrapped in a fresh connection. */
  method NewRepConn(ip: string, port: int, device: string, partition: string, p: Peer)
    returns (conn: RepConn?, err: Option<Error>)
    ensures err == Establish(p, ip, port, device, partition)
    ensures conn != null <==> err.None?
    ensures conn != null ==>
              && fresh(conn) && conn.Valid() && !conn.Disconnected
              && conn.pending == [] && conn.writeErr == None && conn.sent == []
              && conn.input == [] && conn.pos == 0 && conn.capacity == p.capacity
  {
    err := Establish(p, ip, port, device, partition);
    if err.None? {
      conn := new RepConn(p.capacity);
    } else {
      conn := null;
    }
  }

  /** A peer at 127.0.0.1:6000 that answers 404 for device "sdb1", partition "42" yields the
      unmounted error and no connection. */
  method RejectedHandshake(capacity: nat) returns (conn: RepConn?, err: Option<Error>)
    ensures err == Some(Unmounted) && conn == null
  {
    var p := Peer(_ => true, _ => true, _ => Some(404), capacity);
    conn, err := NewRepConn("127.0.0.1", 6000, "sdb1", "42", p);
  }
}
