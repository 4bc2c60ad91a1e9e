/** What both actors put in their announce: one `imc+udp` URL per
    network interface, joined by `;`, multicast on the five announce
    ports. The interface list and the multicast group are inputs. */
module Announcing {
  import opened Prelude
  import opened Strings
  import opened Messages
  import opened ListDict
  import opened Service
  import opened Node

  /** `'imc+udp://{}:{}/'.format(adr, port)` for each interface address. */
  function ServiceUrls(addrs: seq<string>, port: int): (urls: seq<string>)
    ensures |urls| == |addrs|
    ensures forall i :: 0 <= i < |addrs| ==>
              urls[i] == "imc+udp://" + addrs[i] + ":" + IntToString(port) + "/"
  {
    if |addrs| == 0 then []
    else ["imc+udp://" + addrs[0] + ":" + IntToString(port) + "/"] + ServiceUrls(addrs[1..], port)
  }

  /** The announce ports: 30100 to 30104. */
  const AnnouncePorts: seq<int> := [30100, 30101, 30102, 30103, 30104]

  /** One datagram to the group per announce port, in order. */
  function AnnounceDatagrams(m: Message, group: string): (ds: seq<Datagram>)
    ensures |ds| == |AnnouncePorts|
    ensures forall i :: 0 <= i < |AnnouncePorts| ==> ds[i] == Datagram(Some(group), Some(30100 + i), m)
  {
    seq(|AnnouncePorts|, i requires 0 <= i < |AnnouncePorts| => Datagram(Some(group), Some(AnnouncePorts[i]), m))
  }

  /** An interface address peers can read back: a plain host without `;`. */
  predicate IsInterfaceAddress(addr: string) {
    IsPlainHost(addr) && ';' !in addr
  }

  /** One generated URL: free of `;`, and read back as the service it
      names. */
  lemma UrlParses(addr: string, port: int)
    requires IsInterfaceAddress(addr) && 1 <= port <= 65535
    ensures var url := "imc+udp://" + addr + ":" + IntToString(port) + "/";
            && ';' !in url
            && ParseService(url) == Ok(Service(Some(addr), Some(port), "imc+udp", None))
  {
    var d := NatToString(port);
    assert IntToString(port) == d;
    assert "imc+udp://" + addr + ":" + d + "/" == PlainUrl("imc+udp", addr, port);
    NoSemicolonInUrl(addr, port);
    UdpScheme();
    PlainUrlRoundTrip("imc+udp", addr, port);
  }

  lemma NoSemicolonInUrl(addr: string, port: nat)
    requires ';' !in addr
    ensures ';' !in PlainUrl("imc+udp", addr, port)
  {
    var d := NatToString(port);
    assert forall c :: c in d ==> IsDigit(c);
    assert PlainUrl("imc+udp", addr, port) == "imc+udp://" + addr + ":" + d + "/";
  }

  lemma UdpScheme()
    ensures IsScheme("imc+udp") && LowerStr("imc+udp") == "imc+udp"
  {
    var s := "imc+udp";
    assert s[0] == 'i' && s[1] == 'm' && s[2] == 'c' && s[3] == '+' && s[4] == 'u' && s[5] == 'd' && s[6] == 'p';
    assert LowerStr(s) == s;
  }

  /** A peer that receives the generated service list finds exactly one
      `imc+udp` service per interface address, in order, with the actor's
      port, and no error: the first address is where it will send. */
  lemma AnnouncedServicesParse(addrs: seq<string>, port: int)
    requires |addrs| >= 1 && 1 <= port <= 65535
    requires forall i :: 0 <= i < |addrs| ==> IsInterfaceAddress(addrs[i])
    ensures var u := UpdateServices(Join(ServiceUrls(addrs, port), ';'));
            var udp := Get(u.0, "imc+udp");
            && u.1 == None
            && |udp| == |addrs|
            && forall i :: 0 <= i < |addrs| ==> udp[i] == Service(Some(addrs[i]), Some(port), "imc+udp", None)
  {
    var urls := ServiceUrls(addrs, port);
    var svcs := seq(|addrs|, i requires 0 <= i < |addrs| => Service(Some(addrs[i]), Some(port), "imc+udp", None));
    forall i | 0 <= i < |urls|
      ensures ';' !in urls[i] && ParseService(urls[i]) == Ok(svcs[i])
    {
      UrlParses(addrs[i], port);
    }
    UpdateServicesOfAll(urls, svcs, "imc+udp");
  }
}
