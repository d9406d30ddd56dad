/** The transport opener of machine-connection.cc: a connection descriptor
    is first tried as a serial device ("path[,[b]rate]") and, when that
    fails, as a TCP address ("host[:port]").  The system calls are answered
    by an environment. */
module Connection {
  import opened Wrappers
  import opened Text
  import opened Speed

  /** What the operating system answers to the calls the opener makes. */
  datatype Env = Env(
    opens: string -> bool,               // open(path, O_RDWR | O_NOCTTY | O_SYNC) succeeds
    isTty: string -> bool,               // tcgetattr() succeeds on the opened file
    configures: (string, Baud) -> bool,  // tcsetattr() accepts the raw 8-N-1 set-up at that speed
    connects: (string, string) -> bool)  // getaddrinfo(), socket() and connect() succeed for host and port

  /** An open machine connection: the file descriptor the opener returns. */
  datatype Channel = Serial(path: string, speed: Baud) | Tcp(host: string, port: string)

  datatype TtyParts = TtyParts(path: string, params: string)
  datatype TcpParts = TcpParts(host: string, port: string)

  const DefaultPort: string := "8888"

  /** The descriptor the program uses when it is given none. */
  const DefaultDescriptor: string := "/dev/ttyUSB0,b115200"

  /** OpenTTY's split: the path is the text before the first ',', the
      parameters the text after it, or nothing when there is no ','. */
  function SplitTty(descriptor: string): (r: TtyParts)
    ensures ',' !in r.path
    ensures ',' in descriptor ==> descriptor == r.path + [','] + r.params
    ensures ',' !in descriptor ==> r.path == descriptor && r.params == ""
  {
    var comma := IndexOf(descriptor, ',');
    if comma < |descriptor| then
      assert descriptor == descriptor[..comma] + [','] + descriptor[comma + 1..];
      TtyParts(descriptor[..comma], descriptor[comma + 1..])
    else
      assert descriptor[..comma] == descriptor;
      TtyParts(descriptor, "")
  }

  /** OpenTCPSocket's split: the host is the text before the first ':',
      the port the text after it; without a ':' the whole text is the host
      and the port is 8888. */
  function SplitTcp(descriptor: string): (r: TcpParts)
    ensures ':' !in r.host
    ensures ':' in descriptor ==> descriptor == r.host + [':'] + r.port
    ensures ':' !in descriptor ==> r.host == descriptor && r.port == DefaultPort
  {
    var colon := IndexOf(descriptor, ':');
    if colon < |descriptor| then
      assert descriptor == descriptor[..colon] + [':'] + descriptor[colon + 1..];
      TcpParts(descriptor[..colon], descriptor[colon + 1..])
    else
      assert descriptor[..colon] == descriptor;
      TcpParts(descriptor, DefaultPort)
  }

  /** SetTTYParams on the file opened at `path`: the speed is checked first,
      and a refused speed fails before the terminal is touched; then
      tcgetattr() and tcsetattr() must both succeed. */
  function SetTtyParams(env: Env, path: string, params: string): (r: Option<Baud>)
    ensures r.Some? <==> SelectSpeed(params).Some? && env.isTty(path) && env.configures(path, SelectSpeed(params).value)
    ensures r.Some? ==> r == SelectSpeed(params)
  {
    match SelectSpeed(params)
    case None => None
    case Some(speed) =>
      if env.isTty(path) && env.configures(path, speed) then Some(speed) else None
  }

  /** OpenTTY: opens the path before the first ',' and configures it from
      the text after it.  A failed open or a failed configuration (an
      invalid rate included) is a failure. */
  function OpenTty(env: Env, descriptor: string): (r: Option<Channel>)
    ensures r.Some? ==> r.value.Serial? && r.value.path == SplitTty(descriptor).path
    ensures r.Some? <==>
              env.opens(SplitTty(descriptor).path) &&
              SetTtyParams(env, SplitTty(descriptor).path, SplitTty(descriptor).params).Some?
    ensures r.Some? ==> Some(r.value.speed) == SelectSpeed(SplitTty(descriptor).params)
  {
    var parts := SplitTty(descriptor);
    if !env.opens(parts.path) then None
    else
      match SetTtyParams(env, parts.path, parts.params)
      case None => None
      case Some(speed) => Some(Serial(parts.path, speed))
  }

  /** OpenTCPSocket: resolves and connects to the host and port of the
      descriptor. */
  function OpenTcpSocket(env: Env, descriptor: string): (r: Option<Channel>)
    ensures r.Some? <==> env.connects(SplitTcp(descriptor).host, SplitTcp(descriptor).port)
    ensures r.Some? ==> r.value == Tcp(SplitTcp(descriptor).host, SplitTcp(descriptor).port)
  {
    var parts := SplitTcp(descriptor);
    if env.connects(parts.host, parts.port) then Some(Tcp(parts.host, parts.port)) else None
  }

  /** OpenMachineConnection: no descriptor (a null pointer) yields no
      connection; otherwise the serial device is tried first and, only if
      that fails, TCP with the whole, unmodified descriptor. */
  function OpenMachineConnection(env: Env, descriptor: Option<string>): (r: Option<Channel>)
    ensures descriptor.None? ==> r.None?
    ensures descriptor.Some? && OpenTty(env, descriptor.value).Some? ==>
              r == OpenTty(env, descriptor.value)
    ensures descriptor.Some? && OpenTty(env, descriptor.value).None? ==>
              r == OpenTcpSocket(env, descriptor.value)
    ensures r.Some? && r.value.Tcp? ==> descriptor.Some? && OpenTty(env, descriptor.value).None?
  {
    match descriptor
    case None => None
    case Some(d) =>
      var tty := OpenTty(env, d);
      if tty.Some? then tty else OpenTcpSocket(env, d)
  }

  /** A descriptor whose serial device opens but whose rate is not on the
      whitelist is not rejected outright: it falls through to TCP. */
  lemma InvalidRateFallsBackToTcp(env: Env, d: string)
    requires env.opens(SplitTty(d).path)
    requires SelectSpeed(SplitTty(d).params).None?
    ensures OpenMachineConnection(env, Some(d)) == OpenTcpSocket(env, d)
  {
  }

  /** A serial device that opens and accepts the speed its parameters ask
      for is the connection, and TCP is not tried. */
  lemma SerialOpened(env: Env, path: string, params: string, b: Baud)
    requires ',' !in path
    requires SelectSpeed(params) == Some(b)
    requires env.opens(path) && env.isTty(path) && env.configures(path, b)
    ensures OpenMachineConnection(env, Some(path + [','] + params)) == Some(Serial(path, b))
  {
    SerialParts(path, params);
  }

  /** "path,rate" and "path,brate" open the same serial device at the same
      speed, for every whitelisted rate, when the device accepts it. */
  lemma SerialDescriptor(env: Env, path: string, b: Baud)
    requires ',' !in path
    requires env.opens(path) && env.isTty(path) && env.configures(path, b)
    ensures OpenMachineConnection(env, Some(path + [','] + DecimalString(Rate(b)))) == Some(Serial(path, b))
    ensures OpenMachineConnection(env, Some(path + [','] + (['b'] + DecimalString(Rate(b))))) == Some(Serial(path, b))
  {
    WhitelistAccepted(b);
    SerialOpened(env, path, DecimalString(Rate(b)), b);
    SerialOpened(env, path, ['b'] + DecimalString(Rate(b)), b);
  }

  /** A descriptor "path,params" splits back into its path and params. */
  lemma SerialParts(path: string, params: string)
    requires ',' !in path
    ensures SplitTty(path + [','] + params) == TtyParts(path, params)
  {
    var d := path + [','] + params;
    assert d[|path|] == ',';
    IndexOfSplit(path, ',', params);
    assert d[..|path|] == path;
    assert d[|path| + 1..] == params;
  }

  /** A descriptor "host:port" splits back into its host and port. */
  lemma AddressParts(host: string, port: string)
    requires ':' !in host
    ensures SplitTcp(host + [':'] + port) == TcpParts(host, port)
  {
    var d := host + [':'] + port;
    assert d[|host|] == ':';
    IndexOfSplit(host, ':', port);
    assert d[..|host|] == host;
    assert d[|host| + 1..] == port;
  }

  /** No ':' means the default port 8888. */
  lemma DefaultTcpPort(env: Env, host: string)
    requires ':' !in host && env.connects(host, DefaultPort)
    ensures OpenTcpSocket(env, host) == Some(Tcp(host, "8888"))
  {
  }

  /** "host:port" where no file of that name opens: the serial attempt
      fails and the opener connects to that port of that host. */
  lemma TcpFallback(env: Env, host: string, port: string)
    requires ':' !in host
    requires !env.opens(SplitTty(host + [':'] + port).path)
    requires env.connects(host, port)
    ensures OpenMachineConnection(env, Some(host + [':'] + port)) == Some(Tcp(host, port))
  {
    AddressParts(host, port);
  }

  /** "localhost:4444" with no file of that name connects to port 4444. */
  lemma LocalhostFallback(env: Env, d: string)
    requires d == "localhost:4444"
    requires !env.opens(d) && env.connects("localhost", "4444")
    ensures OpenMachineConnection(env, Some(d)) == Some(Tcp("localhost", "4444"))
  {
    assert d == "localhost" + [':'] + "4444";
    assert ',' !in d;
    TcpFallback(env, "localhost", "4444");
  }

  /** The default descriptor names /dev/ttyUSB0 at 115200 bit/s. */
  lemma DefaultDescriptorParts(d: string)
    requires d == DefaultDescriptor
    ensures SplitTty(d) == TtyParts("/dev/ttyUSB0", "b115200")
    ensures SelectSpeed(SplitTty(d).params) == Some(B115200)
  {
    assert SplitTty(d) == TtyParts("/dev/ttyUSB0", "b115200") by {
      DefaultDescriptorSplit(d, "/dev/ttyUSB0", "b115200");
    }
    DefaultRateSelected("b115200");
  }

  lemma DefaultDescriptorSplit(d: string, path: string, params: string)
    requires d == DefaultDescriptor && path == "/dev/ttyUSB0" && params == "b115200"
    ensures SplitTty(d) == TtyParts(path, params)
  {
    assert d == path + [','] + params;
    SerialParts(path, params);
  }

  lemma DefaultRateSelected(params: string)
    requires params == "b115200"
    ensures SelectSpeed(params) == Some(B115200)
  {
    DefaultRateDigits();
    assert params == ['b'] + DecimalString(115200);
    WhitelistAccepted(B115200);
  }

  lemma DefaultRateDigits()
    ensures DecimalString(115200) == "115200"
  {
    assert DecimalString(1) == "1";
    assert DecimalString(11) == "11";
    assert DecimalString(115) == "115";
    assert DecimalString(1152) == "1152";
    assert DecimalString(11520) == "11520";
  }
}
