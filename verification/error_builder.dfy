/** The `Error` builder and `Server::bind` of
    2_idioms/2_4_generic_in_type_out/src/main.rs. The `&mut Self` that the
    setters hand back for chaining becomes the returned value. */
module ErrorBuilder {
  import opened Base
  import opened Text

  datatype Error = Error(code: string, status: u16, message: string)

  const UNKNOWN_CODE: string := "UNKNOWN"
  const UNKNOWN_STATUS: u16 := 500
  const UNKNOWN_MESSAGE: string := "Unknown error has happened."

  /** `Error::default()`. */
  function Default(): (r: Error)
    ensures r.code == UNKNOWN_CODE && r.status == UNKNOWN_STATUS && r.message == UNKNOWN_MESSAGE
  {
    Error(UNKNOWN_CODE, UNKNOWN_STATUS, UNKNOWN_MESSAGE)
  }

  /** `Error::new(code)`: the default with only the code replaced. */
  function New(code: string): (r: Error)
    ensures r.code == code && r.status == Default().status && r.message == Default().message
  {
    Default().(code := code)
  }

  /** `status(s)`: replaces only the status. */
  function Status(e: Error, s: u16): (r: Error)
    ensures r.status == s && r.code == e.code && r.message == e.message
  {
    e.(status := s)
  }

  /** `message(m)`: replaces only the message. */
  function Message(e: Error, m: string): (r: Error)
    ensures r.message == m && r.code == e.code && r.status == e.status
  {
    e.(message := m)
  }

  /** The setters touch different fields, so their order does not matter, and
      a second call to the same setter overrides the first. */
  lemma SettersCommuteAndOverride(e: Error, s: u16, s2: u16, m: string, m2: string)
    ensures Message(Status(e, s), m) == Status(Message(e, m), s)
    ensures Status(Status(e, s), s2) == Status(e, s2)
    ensures Message(Message(e, m), m2) == Message(e, m2)
  {
  }

  /** Any error can be rebuilt from `new` and the two setters. */
  lemma BuilderReachesEveryError(e: Error)
    ensures Message(Status(New(e.code), e.status), e.message) == e
  {
  }

  /** `Error::new("NO_USER")` then `.status(404).message("User not found")`. */
  lemma MainChain()
    ensures Message(Status(New("NO_USER"), 404), "User not found") == Error("NO_USER", 404, "User not found")
  {
  }

  /** The eight 16-bit groups of an IPv6 address. */
  type Ipv6Groups = g: seq<u16> | |g| == 8 witness [0, 0, 0, 0, 0, 0, 0, 0]

  /** An IP address: four octets, or eight 16-bit groups. */
  datatype IpAddr = V4(a: u8, b: u8, c: u8, d: u8) | V6(groups: Ipv6Groups)

  datatype SocketAddr = SocketAddr(ip: IpAddr, port: u16)

  datatype Server = Server(addr: Option<SocketAddr>)

  /** `Server::default()`: not bound to any address. */
  function DefaultServer(): (r: Server)
    ensures r.addr.None?
  {
    Server(None)
  }

  /** `Server::bind(ip, port)`: the new address replaces any earlier one. */
  function Bind(s: Server, ip: IpAddr, port: u16): (r: Server)
    ensures r.addr == Some(SocketAddr(ip, port))
  {
    Server(Some(SocketAddr(ip, port)))
  }

  /** Only the last bind counts. */
  lemma LastBindWins(s: Server, ip: IpAddr, port: u16, ip2: IpAddr, port2: u16)
    ensures Bind(Bind(s, ip, port), ip2, port2) == Bind(s, ip2, port2)
    ensures Bind(s, ip, port) == Bind(DefaultServer(), ip, port)
  {
  }

  /** `Display` of an IPv4 socket address: dotted octets, a colon, the port. */
  function ShowV4(addr: SocketAddr): (r: string)
    requires addr.ip.V4?
    ensures ':' in r && r[|r| - 1] != ':'
  {
    var ip := addr.ip;
    NatToString(ip.a) + "." + NatToString(ip.b) + "." + NatToString(ip.c) + "." + NatToString(ip.d)
      + ":" + NatToString(addr.port)
  }

  /** The test's first bind shows as `127.0.0.1:8080`. */
  lemma BindLoopback()
    ensures Bind(DefaultServer(), V4(127, 0, 0, 1), 8080).addr.Some?
    ensures ShowV4(Bind(DefaultServer(), V4(127, 0, 0, 1), 8080).addr.value) == "127.0.0.1:8080"
  {
    assert NatToString(127) == "127";
    assert NatToString(0) == "0";
    assert NatToString(1) == "1";
    assert NatToString(8080) == "8080";
  }
}
