/** The device registry: a map from a device's socket address to the open
    connection the daemon holds for it, and the `devices` listing of its keys. */
module Registry {
  import opened Wrappers
  import opened Bytes
  import opened Decimal
  import opened Text

  /** `std::net::IpAddr`. */
  datatype IpAddr = V4(octets: Octets) | V6(segments: Segments)

  /** The four octets of an `Ipv4Addr`. */
  type Octets = s: seq<byte> | |s| == 4 witness [0, 0, 0, 0]

  /** The eight 16-bit segments of an `Ipv6Addr`. */
  type Segments = s: seq<u16> | |s| == 8 witness [0, 0, 0, 0, 0, 0, 0, 0]

  /** The fields of `std::net::SocketAddr`: an IP address, a port and, for an IPv6
      address, its scope (`SocketAddrV6::scope_id`). The IPv6 flow label is always
      0 on the addresses this program builds and is not represented. */
  datatype SockAddr = SockAddr(ip: IpAddr, port: u16, scopeId: u32)

  /** `std::net::SocketAddr`: an IPv4 address carries no scope. */
  type SocketAddr = a: SockAddr | a.ip.V4? ==> a.scopeId == 0
    witness SockAddr(V4([0, 0, 0, 0]), 0, 0)

  /** `SocketAddr::new`: the address with no scope. */
  function SocketAddrOf(ip: IpAddr, port: u16): (a: SocketAddr)
    ensures a.ip == ip && a.port == port && a.scopeId == 0
  {
    SockAddr(ip, port, 0)
  }

  /** An open connection to a device; only its identity matters here. */
  datatype Conn = Conn(handle: nat)

  type Registry = map<SocketAddr, Conn>

  /** The standard library's address text conversions, taken as given:
      `str::parse::<IpAddr>`, `IpAddr`'s `Display`, and `str::parse::<SocketAddr>`. */
  datatype StdNet = StdNet(
    parseIp: string -> Option<IpAddr>,
    showIp: IpAddr -> string,
    parseSocketAddr: string -> Option<SocketAddr>)

  /** The `%scope` part of an IPv6 address's text: empty for scope 0. */
  function ScopeText(scopeId: u32): string
  {
    if scopeId == 0 then "" else "%" + ToDecimal(scopeId)
  }

  /** `SocketAddr`'s `Display`: `ip:port`, with an IPv6 address in brackets and
      its scope, when it has one, after a `%` inside them. */
  function ShowAddr(net: StdNet, a: SocketAddr): (s: string)
    ensures var port := ToDecimal(a.port);
      |s| > |port| && s[|s| - |port| - 1] == ':' && s[|s| - |port|..] == port
    ensures a.ip.V6? ==> s[0] == '['
  {
    match a.ip
    case V4(_) => net.showIp(a.ip) + ":" + ToDecimal(a.port)
    case V6(_) => "[" + net.showIp(a.ip) + ScopeText(a.scopeId) + "]:" + ToDecimal(a.port)
  }

  /** Two IPv6 addresses that differ only in their scope are shown differently,
      so the listing tells apart entries the registry keeps apart. */
  lemma ShowAddrScopes(net: StdNet, a: SocketAddr, b: SocketAddr)
    requires a.ip.V6? && a.ip == b.ip && a.port == b.port && a.scopeId != b.scopeId
    ensures ShowAddr(net, a) != ShowAddr(net, b)
  {
    var pre := "[" + net.showIp(a.ip);
    var post := "]:" + ToDecimal(a.port);
    var sa, sb := ScopeText(a.scopeId), ScopeText(b.scopeId);
    assert ShowAddr(net, a) == pre + sa + post;
    assert ShowAddr(net, b) == pre + sb + post;
    if pre + sa + post == pre + sb + post {
      assert |sa| == |sb|;
      assert sa == (pre + sa + post)[|pre|..|pre| + |sa|];
      assert sb == (pre + sb + post)[|pre|..|pre| + |sb|];
      if a.scopeId == 0 || b.scopeId == 0 {
        assert false;
      } else {
        assert sa[1..] == ToDecimal(a.scopeId) && sb[1..] == ToDecimal(b.scopeId);
        ToDecimalValue(a.scopeId);
        ToDecimalValue(b.scopeId);
      }
    }
  }

  /** `HashMap::insert`: the address now maps to the new connection, replacing any
      earlier one, and every other entry is as it was. */
  function Insert(reg: Registry, addr: SocketAddr, conn: Conn): (r: Registry)
    ensures addr in r && r[addr] == conn
    ensures r.Keys == reg.Keys + {addr}
    ensures forall a :: a in reg && a != addr ==> r[a] == reg[a]
    ensures |r| == if addr in reg then |reg| else |reg| + 1
  {
    var r := reg[addr := conn];
    if addr in reg then
      assert r.Keys == reg.Keys;
      r
    else
      assert r.Keys == reg.Keys + {addr};
      r
  }

  /** No address occurs twice. */
  predicate Distinct(order: seq<SocketAddr>)
  {
    forall i, j :: 0 <= i < j < |order| ==> order[i] != order[j]
  }

  /** `order` is one way a `HashMap` may iterate over `keys`: each key exactly once,
      in an unspecified order. */
  predicate Enumerates(order: seq<SocketAddr>, keys: set<SocketAddr>)
  {
    && Distinct(order)
    && (forall a :: a in keys ==> a in order)
    && (forall i :: 0 <= i < |order| ==> order[i] in keys)
  }

  /** An enumeration has as many entries as there are keys. */
  lemma {:induction false} EnumerationSize(order: seq<SocketAddr>, keys: set<SocketAddr>)
    requires Enumerates(order, keys)
    ensures |order| == |keys|
    decreases |order|
  {
    if |order| > 0 {
      var last := order[|order| - 1];
      var prefix := order[..|order| - 1];
      assert Enumerates(prefix, keys - {last}) by {
        forall a ensures a in keys - {last} <==> a in prefix {
          if a in order && a != last {
            var i :| 0 <= i < |order| && order[i] == a;
            assert i < |order| - 1;
          }
        }
      }
      EnumerationSize(prefix, keys - {last});
    }
  }

  /** In an enumeration of `keys`, every key occurs exactly once. */
  lemma {:induction false} EnumerationOnce(order: seq<SocketAddr>, keys: set<SocketAddr>, a: SocketAddr)
    requires Enumerates(order, keys)
    ensures multiset(order)[a] == if a in keys then 1 else 0
    decreases |order|
  {
    if |order| > 0 {
      var last := order[|order| - 1];
      var prefix := order[..|order| - 1];
      assert order == prefix + [last];
      assert Enumerates(prefix, keys - {last}) by {
        forall b ensures b in keys - {last} <==> b in prefix {
          if b in order && b != last {
            var i :| 0 <= i < |order| && order[i] == b;
            assert i < |order| - 1;
          }
        }
      }
      EnumerationOnce(prefix, keys - {last}, a);
    }
  }

  const Header: string := "Connected devices:\n"

  /** The listing line of one address. */
  function Line(net: StdNet, a: SocketAddr): string
  {
    "\t" + ShowAddr(net, a) + "\n"
  }

  function Lines(net: StdNet, order: seq<SocketAddr>): string
  {
    if |order| == 0 then "" else Line(net, order[0]) + Lines(net, order[1..])
  }

  /** The reply to `devices`: the header, then one line per address in `order`. */
  function Listing(net: StdNet, order: seq<SocketAddr>): (text: string)
    ensures StartsWith(text, Header)
    ensures |order| == 0 ==> text == Header
  {
    Header + Lines(net, order)
  }

  lemma {:induction false} LinesAppend(net: StdNet, order: seq<SocketAddr>, a: SocketAddr)
    ensures Lines(net, order + [a]) == Lines(net, order) + Line(net, a)
    decreases |order|
  {
    if |order| == 0 {
      assert [a][1..] == [];
    } else {
      assert (order + [a])[1..] == order[1..] + [a];
      LinesAppend(net, order[1..], a);
    }
  }

  /** Listing one more address appends its line. */
  lemma ListingAppend(net: StdNet, order: seq<SocketAddr>, a: SocketAddr)
    ensures Listing(net, order + [a]) == Listing(net, order) + Line(net, a)
  {
    LinesAppend(net, order, a);
    ConcatAssoc(Header, Lines(net, order), Line(net, a));
  }

  /** The text of each line without its newline. */
  function LineTexts(net: StdNet, order: seq<SocketAddr>): (ts: seq<string>)
    ensures |ts| == |order|
  {
    if |order| == 0 then [] else ["\t" + ShowAddr(net, order[0])] + LineTexts(net, order[1..])
  }

  /** True when `Display` never produces a line break for the addresses listed. */
  predicate SingleLine(net: StdNet, order: seq<SocketAddr>)
  {
    forall a :: a in order ==> '\n' !in net.showIp(a.ip)
  }

  lemma DigitsSingleLine(s: string)
    requires AllDigits(s)
    ensures '\n' !in s
  {
  }

  lemma {:induction false} LineTextsSingleLine(net: StdNet, order: seq<SocketAddr>)
    requires SingleLine(net, order)
    ensures FreeOf(LineTexts(net, order), '\n')
    decreases |order|
  {
    if |order| > 0 {
      var a := order[0];
      DigitsSingleLine(ToDecimal(a.port));
      var t := "\t" + ShowAddr(net, a);
      assert '\n' !in t by {
        match a.ip
        case V4(_) =>
          assert t == "\t" + net.showIp(a.ip) + ":" + ToDecimal(a.port);
        case V6(_) =>
          if a.scopeId != 0 {
            DigitsSingleLine(ToDecimal(a.scopeId));
          }
          assert t == "\t[" + net.showIp(a.ip) + ScopeText(a.scopeId) + "]:" + ToDecimal(a.port);
      }
      assert SingleLine(net, order[1..]) by {
        forall b | b in order[1..] ensures '\n' !in net.showIp(b.ip) {
          assert b in order;
        }
      }
      LineTextsSingleLine(net, order[1..]);
    }
  }

  lemma {:induction false} LinesAsJoin(net: StdNet, order: seq<SocketAddr>)
    ensures Lines(net, order) == Join(LineTexts(net, order) + [""], '\n')
    decreases |order|
  {
    if |order| > 0 {
      LinesAsJoin(net, order[1..]);
      var ts := LineTexts(net, order) + [""];
      assert ts[1..] == LineTexts(net, order[1..]) + [""];
    }
  }

  /** The lines of a listing: the header without its newline, one text per listed
      address, and the empty text after the final newline. */
  function ListingParts(net: StdNet, order: seq<SocketAddr>): seq<string>
  {
    ["Connected devices:"] + (LineTexts(net, order) + [""])
  }

  lemma ListingAsJoin(net: StdNet, order: seq<SocketAddr>)
    ensures Listing(net, order) == Join(ListingParts(net, order), '\n')
  {
    var parts := ListingParts(net, order);
    LinesAsJoin(net, order);
    assert parts[1..] == LineTexts(net, order) + [""];
    assert Header == "Connected devices:" + ['\n'];
  }

  lemma ListingPartsFree(net: StdNet, order: seq<SocketAddr>)
    requires SingleLine(net, order)
    ensures FreeOf(ListingParts(net, order), '\n')
  {
    var texts := LineTexts(net, order);
    var parts := ListingParts(net, order);
    LineTextsSingleLine(net, order);
    forall i | 0 <= i < |parts| ensures '\n' !in parts[i] {
      if 0 < i <= |texts| {
        assert parts[i] == texts[i - 1];
      }
    }
  }

  /** Split at line breaks, the listing is the header, one line per listed address
      in listing order, and the empty text after the final newline; so it holds
      exactly 1 + |order| newlines. */
  lemma ListingLines(net: StdNet, order: seq<SocketAddr>)
    requires SingleLine(net, order)
    ensures Split(Listing(net, order), '\n') == ["Connected devices:"] + LineTexts(net, order) + [""]
    ensures Occurrences(Listing(net, order), '\n') == 1 + |order|
  {
    var parts := ListingParts(net, order);
    ListingAsJoin(net, order);
    ListingPartsFree(net, order);
    SplitJoin(parts, '\n');
    assert parts == ["Connected devices:"] + LineTexts(net, order) + [""];
    assert |parts| == |order| + 2;
  }

  /** Appending a fresh address to an enumeration enumerates one more key. */
  lemma EnumerationExtend(order: seq<SocketAddr>, keys: set<SocketAddr>, a: SocketAddr)
    requires Enumerates(order, keys) && a !in keys
    ensures Enumerates(order + [a], keys + {a})
  {
    var order' := order + [a];
    forall i, j | 0 <= i < j < |order'| ensures order'[i] != order'[j] {
      if j == |order| {
        assert order'[i] == order[i];
      } else {
        assert order'[i] == order[i] && order'[j] == order[j];
      }
    }
    forall b | b in keys + {a} ensures b in order' {
      if b != a {
        var i :| 0 <= i < |order| && order[i] == b;
        assert order'[i] == b;
      } else {
        assert order'[|order|] == a;
      }
    }
  }

  /** `devices`: walks the registry's keys in the map's own (unspecified) order
      and appends one line per key after the header. The registry is only read. */
  method Devices(reg: Registry, net: StdNet) returns (text: string, ghost order: seq<SocketAddr>)
    ensures Enumerates(order, reg.Keys)
    ensures text == Listing(net, order)
    ensures StartsWith(text, Header)
    ensures |reg| == 0 ==> text == Header
  {
    text := Header;
    order := [];
    var remaining := reg.Keys;
    while remaining != {}
      invariant remaining <= reg.Keys
      invariant Enumerates(order, reg.Keys - remaining)
      invariant text == Listing(net, order)
      decreases remaining
    {
      var a :| a in remaining;
      ListingAppend(net, order, a);
      EnumerationExtend(order, reg.Keys - remaining, a);
      assert reg.Keys - (remaining - {a}) == (reg.Keys - remaining) + {a};
      text := text + Line(net, a);
      order := order + [a];
      remaining := remaining - {a};
    }
    assert reg.Keys - remaining == reg.Keys;
  }
}
