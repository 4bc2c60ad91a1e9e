/** `IMCService` (pyimc/node.py): one entry of an announce's service list,
    a URL such as `imc+udp://192.168.1.3:6002/`, split the way
    `urllib.parse.urlparse` splits it, and printed back by `__str__`. */
module Service {
  import opened Prelude
  import opened Strings

  datatype Service = Service(
    ip: Option<string>,
    port: Option<int>,
    scheme: string,
    /** `None` for the path `/`, otherwise the non-empty `/` segments */
    param: Option<seq<string>>)

  predicate IsAsciiLetter(c: char) {
    'a' <= c <= 'z' || 'A' <= c <= 'Z'
  }

  /** The characters `urlparse` accepts in a scheme. */
  predicate IsSchemeChar(c: char) {
    IsAsciiLetter(c) || IsDigit(c) || c == '+' || c == '-' || c == '.'
  }

  predicate IsScheme(s: string) {
    |s| > 0 && IsAsciiLetter(s[0]) && forall i :: 0 <= i < |s| ==> IsSchemeChar(s[i])
  }

  /** The index of the first character of `s` in `stop`, or `|s|`. */
  function Until(s: string, stop: set<char>): (i: nat)
    ensures i <= |s|
    ensures forall k :: 0 <= k < i ==> s[k] !in stop
    ensures i < |s| ==> s[i] in stop
  {
    if |s| == 0 || s[0] in stop then 0 else 1 + Until(s[1..], stop)
  }

  lemma UntilAt(a: string, c: char, b: string, stop: set<char>)
    requires forall k :: 0 <= k < |a| ==> a[k] !in stop
    requires c in stop
    ensures Until(a + [c] + b, stop) == |a|
  {
    var s := a + [c] + b;
    assert s[|a|] == c;
    assert forall k :: 0 <= k < |a| ==> s[k] == a[k];
  }

  lemma UntilNone(a: string, stop: set<char>)
    requires forall k :: 0 <= k < |a| ==> a[k] !in stop
    ensures Until(a, stop) == |a|
  {
  }

  /** The text after the last occurrence of `c` (`s.rpartition(c)[2]`). */
  function AfterLast(s: string, c: char): (r: string)
    ensures c !in r
    ensures c !in s ==> r == s
    ensures |r| <= |s| && r == s[|s| - |r|..]
    decreases |s|
  {
    if c !in s then s
    else
      var i := FirstIndex(s, c);
      var r := AfterLast(s[i + 1..], c);
      assert s[i + 1..][|s[i + 1..]| - |r|..] == s[|s| - |r|..];
      r
  }

  /** The scheme, network location and path of a URL; the query and the
      fragment are dropped. */
  datatype Url = Url(scheme: string, netloc: string, path: string)

  /** The scheme of `urlparse(s)` and the text after it: a scheme is
      recognised before the first `:` when it starts with a letter and uses
      scheme characters only, and is lower-cased. */
  function SplitScheme(s: string): (string, string) {
    if ':' in s && FirstIndex(s, ':') > 0 && IsScheme(s[..FirstIndex(s, ':')]) then
      (LowerStr(s[..FirstIndex(s, ':')]), s[FirstIndex(s, ':') + 1..])
    else ("", s)
  }

  /** The network location, present only after `//`, runs to the next `/`,
      `?` or `#`; returns it and the text after it. */
  function SplitNetloc(rest: string): (string, string) {
    if StartsWith(rest, "//") then
      var after := rest[2..];
      var n := Until(after, {'/', '?', '#'});
      (after[..n], after[n..])
    else ("", rest)
  }

  /** `urlparse(s)`: the path runs to the next `?` or `#`. */
  function SplitUrl(s: string): Url {
    var (scheme, rest) := SplitScheme(s);
    var (netloc, tail) := SplitNetloc(rest);
    Url(scheme, netloc, tail[..Until(tail, {'?', '#'})])
  }

  /** `p.hostname`: the host part of the network location (after any `@`,
      before the first `:`), lower-cased, `None` when empty. */
  function Hostname(netloc: string): (r: Option<string>)
    ensures r.Some? ==> |r.value| > 0
  {
    var info := AfterLast(netloc, '@');
    var host := info[..Until(info, {':'})];
    if |host| == 0 then None else Some(LowerStr(host))
  }

  /** The text after the first `:` of the host part of a network location
      (after any `@`), empty when there is no `:`. */
  function PortText(netloc: string): string {
    var info := AfterLast(netloc, '@');
    var i := Until(info, {':'});
    if i < |info| then info[i + 1..] else ""
  }

  /** Port text `urlparse` accepts: none at all, or ASCII digits naming a
      number in 0..65535. */
  predicate ValidPortText(t: string) {
    |t| == 0 || (AllDigits(t) && DigitsValue(t) <= 65535)
  }

  /** `p.port`: `None` when there is no text after the `:`, the number when
      the text is ASCII digits in 0..65535, ValueError otherwise. */
  function Port(netloc: string): (r: Result<Option<int>>)
    ensures r.Ok? <==> ValidPortText(PortText(netloc))
    ensures r.Err? ==> r.exc == ValueError
    ensures |PortText(netloc)| == 0 ==> r == Ok(None)
    ensures |PortText(netloc)| > 0 && ValidPortText(PortText(netloc)) ==>
              r == Ok(Some(DigitsValue(PortText(netloc))))
    ensures r.Ok? && r.value.Some? ==> 0 <= r.value.value <= 65535
  {
    var text := PortText(netloc);
    if |text| == 0 then Ok(None)
    else if !AllDigits(text) then Err(ValueError)
    else if DigitsValue(text) > 65535 then Err(ValueError)
    else Ok(Some(DigitsValue(text)))
  }

  /** `tuple(filter(None, path.split('/')))` */
  function Segments(path: string): (r: seq<string>)
    ensures forall i :: 0 <= i < |r| ==> |r[i]| > 0 && '/' !in r[i]
  {
    NonEmpty(Split(path, '/'))
  }

  function NonEmpty(parts: seq<string>): (r: seq<string>)
    ensures forall i :: 0 <= i < |r| ==> |r[i]| > 0 && r[i] in parts
  {
    if |parts| == 0 then []
    else
      var rest := NonEmpty(parts[1..]);
      assert forall x :: x in parts[1..] ==> x in parts;
      if |parts[0]| == 0 then rest else [parts[0]] + rest
  }

  /** `IMCService(text)`; reading the port raises ValueError. */
  function ParseService(text: string): (r: Result<Service>)
    ensures var u := SplitUrl(text);
            r.Err? <==> !ValidPortText(PortText(u.netloc))
    ensures r.Err? ==> r.exc == ValueError
    ensures var u := SplitUrl(text);
            r.Ok? ==> && r.value.scheme == u.scheme
                      && r.value.ip == Hostname(u.netloc)
                      && Ok(r.value.port) == Port(u.netloc)
                      && (r.value.param.None? <==> u.path == "/")
                      && (u.path != "/" ==> r.value.param == Some(Segments(u.path)))
  {
    var u := SplitUrl(text);
    match Port(u.netloc)
    case Err(e) => Err(e)
    case Ok(port) =>
      Ok(Service(Hostname(u.netloc), port, u.scheme,
                 if u.path == "/" then None else Some(Segments(u.path))))
  }

  /** `str(service)`: `scheme://ip[:port]/` followed by the first two
      segments joined by `/` when there are any; a lone segment is an
      IndexError; the port is left out when it is `None` or 0 and a
      missing host prints as `None`. */
  function ServiceText(svc: Service): (r: Result<string>)
    ensures r.Err? <==> svc.param.Some? && |svc.param.value| == 1
    ensures r.Err? ==> r.exc == IndexError
    ensures r.Ok? ==> StartsWith(r.value, svc.scheme + "://")
  {
    var hasParam := svc.param.Some? && |svc.param.value| > 0;
    if hasParam && |svc.param.value| == 1 then Err(IndexError)
    else
      var param := if hasParam then svc.param.value[0] + "/" + svc.param.value[1] else "";
      var port := if svc.port.Some? && svc.port.value != 0 then ":" + IntToString(svc.port.value) else "";
      var ip := if svc.ip.Some? then svc.ip.value else "None";
      var r := (svc.scheme + "://") + (ip + port + "/" + param);
      StartsWithAppend(svc.scheme + "://", ip + port + "/" + param);
      Ok(r)
  }

  /** `if self.port`: a port of 0 prints like no port at all. */
  lemma ServiceTextZeroPort(svc: Service)
    ensures ServiceText(svc.(port := Some(0))) == ServiceText(svc.(port := None))
  {
  }

  /** `if self.param`: an empty tuple of segments prints like none. */
  lemma ServiceTextEmptyParam(svc: Service)
    ensures ServiceText(svc.(param := Some([]))) == ServiceText(svc.(param := None))
  {
  }

  /** `'{}/{}'.format(*self.param)`: the first two segments, joined by
      `/`, follow the text printed without segments, and later segments
      are ignored. */
  lemma ServiceTextSegments(svc: Service, p: seq<string>)
    requires |p| >= 2
    ensures ServiceText(svc.(param := Some(p))) == ServiceText(svc.(param := Some(p[..2])))
    ensures ServiceText(svc.(param := Some(p))) == Ok(ServiceText(svc.(param := None)).value + p[0] + "/" + p[1])
  {
    assert p[..2][0] == p[0] && p[..2][1] == p[1];
    var port := if svc.port.Some? && svc.port.value != 0 then ":" + IntToString(svc.port.value) else "";
    var ip := if svc.ip.Some? then svc.ip.value else "None";
    var head := svc.scheme + "://";
    assert ServiceText(svc.(param := None)).value == head + (ip + port + "/" + "");
    assert ServiceText(svc.(param := Some(p))).value == head + (ip + port + "/" + (p[0] + "/" + p[1]));
    assert head + (ip + port + "/" + (p[0] + "/" + p[1])) == head + (ip + port + "/" + "") + p[0] + "/" + p[1];
  }

  /** `'{}'.format(self.ip)`: the host follows `scheme://`, and a service
      without one prints `None` in its place. */
  lemma ServiceTextHost(svc: Service)
    requires !(svc.param.Some? && |svc.param.value| == 1)
    ensures svc.ip.Some? ==> StartsWith(ServiceText(svc).value, svc.scheme + "://" + svc.ip.value)
    ensures svc.ip.None? ==> StartsWith(ServiceText(svc).value, svc.scheme + "://None")
  {
    var hasParam := svc.param.Some? && |svc.param.value| > 0;
    var param := if hasParam then svc.param.value[0] + "/" + svc.param.value[1] else "";
    var port := if svc.port.Some? && svc.port.value != 0 then ":" + IntToString(svc.port.value) else "";
    var ip := if svc.ip.Some? then svc.ip.value else "None";
    HostFirst(svc.scheme + "://", ip, port, param);
  }

  lemma HostFirst(head: string, ip: string, port: string, param: string)
    ensures StartsWith(head + (ip + port + "/" + param), head + ip)
  {
    assert head + (ip + port + "/" + param) == (head + ip) + (port + "/" + param);
    StartsWithAppend(head + ip, port + "/" + param);
  }

  /** The URL an actor announces for itself: `scheme://host:port/`. */
  function PlainUrl(scheme: string, host: string, port: nat): string {
    scheme + "://" + host + ":" + NatToString(port) + "/"
  }

  /** A host that survives the round trip: non-empty, lower case, and free
      of the characters that end or split a network location. */
  predicate IsPlainHost(host: string) {
    && |host| > 0
    && LowerStr(host) == host
    && forall i :: 0 <= i < |host| ==> host[i] !in {':', '/', '?', '#', '@'}
  }

  lemma SchemeOfPlain(scheme: string, rest: string)
    requires IsScheme(scheme)
    ensures SplitScheme(scheme + ":" + rest) == (LowerStr(scheme), rest)
  {
    var s := scheme + ":" + rest;
    assert s == scheme + [':'] + rest;
    assert forall k :: 0 <= k < |scheme| ==> scheme[k] !in {':'};
    assert s[|scheme|] == ':';
    var i := FirstIndex(s, ':');
    assert i == |scheme|;
    assert s[..i] == scheme;
    assert s[i + 1..] == rest;
  }

  lemma NetlocOfPlain(netloc: string)
    requires forall k :: 0 <= k < |netloc| ==> netloc[k] !in {'/', '?', '#'}
    ensures SplitNetloc("//" + netloc + "/") == (netloc, "/")
  {
    var rest := "//" + netloc + "/";
    assert rest[..2] == "//";
    var after := rest[2..];
    assert after == netloc + ['/'] + "";
    UntilAt(netloc, '/', "", {'/', '?', '#'});
    assert after[..|netloc|] == netloc;
    assert after[|netloc|..] == "/";
  }

  lemma PlainNetloc(host: string, port: nat)
    requires IsPlainHost(host)
    ensures forall k :: 0 <= k < |host + ":" + NatToString(port)| ==>
              (host + ":" + NatToString(port))[k] !in {'/', '?', '#', '@'}
  {
    var d := NatToString(port);
    var netloc := host + ":" + d;
    forall k | 0 <= k < |netloc| ensures netloc[k] !in {'/', '?', '#', '@'} {
      if k >= |host| + 1 { assert netloc[k] == d[k - |host| - 1] && IsDigit(d[k - |host| - 1]); }
    }
  }

  lemma SplitUrlParts(s: string, scheme: string, rest: string, netloc: string)
    requires SplitScheme(s) == (scheme, rest)
    requires SplitNetloc(rest) == (netloc, "/")
    ensures SplitUrl(s) == Url(scheme, netloc, "/")
  {
    assert Until("/", {'?', '#'}) == 1;
  }

  lemma SplitPlainUrl(scheme: string, host: string, port: nat)
    requires IsScheme(scheme) && IsPlainHost(host)
    ensures SplitUrl(PlainUrl(scheme, host, port))
            == Url(LowerStr(scheme), host + ":" + NatToString(port), "/")
  {
    var netloc := host + ":" + NatToString(port);
    var rest := "//" + netloc + "/";
    assert SplitScheme(PlainUrl(scheme, host, port)) == (LowerStr(scheme), rest) by {
      assert PlainUrl(scheme, host, port) == scheme + ":" + rest;
      SchemeOfPlain(scheme, rest);
    }
    assert SplitNetloc(rest) == (netloc, "/") by {
      PlainNetloc(host, port);
      NetlocOfPlain(netloc);
    }
    SplitUrlParts(PlainUrl(scheme, host, port), LowerStr(scheme), rest, netloc);
  }

  lemma HostPortOfPlain(host: string, port: nat)
    requires IsPlainHost(host) && port <= 65535
    ensures Hostname(host + ":" + NatToString(port)) == Some(host)
    ensures Port(host + ":" + NatToString(port)) == Ok(Some(port))
  {
    var d := NatToString(port);
    var netloc := host + ":" + d;
    assert '@' !in netloc by {
      PlainNetloc(host, port);
    }
    assert forall k :: 0 <= k < |host| ==> host[k] !in {':'};
    assert netloc == host + [':'] + d;
    UntilAt(host, ':', d, {':'});
    assert netloc[..|host|] == host;
    assert netloc[|host| + 1..] == d;
    DigitsValueOfNatToString(port);
  }

  lemma ServiceTextPlain(scheme: string, host: string, port: nat)
    requires port >= 1
    ensures ServiceText(Service(Some(host), Some(port), scheme, None)) == Ok(PlainUrl(scheme, host, port))
  {
    var text := (scheme + "://") + (host + (":" + IntToString(port)) + "/" + "");
    assert ServiceText(Service(Some(host), Some(port), scheme, None)) == Ok(text);
    assert text == scheme + "://" + host + (":" + IntToString(port)) + "/" + "";
    assert text == PlainUrl(scheme, host, port) by {
      assert IntToString(port) == NatToString(port);
    }
  }

  /** `str(IMCService(s)) == s` for `s = scheme://host:port/` with a lower
      case scheme and host and a port in 1..65535. */
  lemma {:induction false} PlainUrlRoundTrip(scheme: string, host: string, port: nat)
    requires IsScheme(scheme) && LowerStr(scheme) == scheme && IsPlainHost(host)
    requires 1 <= port <= 65535
    ensures ParseService(PlainUrl(scheme, host, port)) == Ok(Service(Some(host), Some(port), scheme, None))
    ensures ServiceText(Service(Some(host), Some(port), scheme, None)) == Ok(PlainUrl(scheme, host, port))
  {
    var netloc := host + ":" + NatToString(port);
    assert SplitUrl(PlainUrl(scheme, host, port)) == Url(scheme, netloc, "/") by {
      SplitPlainUrl(scheme, host, port);
    }
    assert Port(netloc) == Ok(Some(port)) && Hostname(netloc) == Some(host) by {
      HostPortOfPlain(host, port);
    }
    ServiceTextPlain(scheme, host, port);
  }

  /** The service the module's own sample ends with: IP `192.168.1.3`,
      port 6002. */
  lemma SampleService()
    ensures ParseService("imc+udp://192.168.1.3:6002/")
            == Ok(Service(Some("192.168.1.3"), Some(6002), "imc+udp", None))
  {
    SampleText();
    SampleScheme();
    SampleHost();
    PlainUrlRoundTrip("imc+udp", "192.168.1.3", 6002);
  }

  lemma SampleText()
    ensures PlainUrl("imc+udp", "192.168.1.3", 6002) == "imc+udp://192.168.1.3:6002/"
  {
    SamplePort();
  }

  lemma SamplePort()
    ensures NatToString(6002) == "6002"
  {
    assert NatToString(6002) == "6002";
  }

  lemma SampleScheme()
    ensures IsScheme("imc+udp") && LowerStr("imc+udp") == "imc+udp"
  {
    assert LowerStr("imc+udp") == "imc+udp";
  }

  lemma SampleHost()
    ensures IsPlainHost("192.168.1.3")
  {
    assert LowerStr("192.168.1.3") == "192.168.1.3";
  }
}
