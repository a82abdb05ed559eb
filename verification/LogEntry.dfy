/** vermouth/log_entry.go: a log entry as bytes, two for the option, two unused, then the body; and Apply's dispatch. */
module LogEntry {
  import opened Text
  import opened Gateway

  newtype byte = x: int | 0 <= x < 0x100
  newtype uint16 = x: int | 0 <= x < 0x1_0000

  const HEADER_SIZE := 4

  function BigEndian(b: seq<byte>): uint16
    requires |b| >= 2
  {
    b[0] as uint16 * 0x100 + b[1] as uint16
  }

  function Encoded(opt: uint16, data: seq<byte>): seq<byte> {
    [(opt / 0x100) as byte, (opt % 0x100) as byte, 0, 0] + data
  }

  /** None when the slice is too short for its header and Go panics. */
  function Decoded(bytes: seq<byte>): Option<(uint16, seq<byte>)> {
    if |bytes| < HEADER_SIZE then None else Some((BigEndian(bytes), bytes[HEADER_SIZE..]))
  }

  class LogEntry {
    var Opt: uint16
    var Data: seq<byte>

    constructor (opt: uint16, data: seq<byte>)
      ensures Opt == opt && Data == data
    {
      Opt, Data := opt, data;
    }

    /** Encode fills a header and appends the body. */
    method Encode() returns (bytes: seq<byte>)
      ensures bytes == Encoded(Opt, Data)
      ensures Decoded(bytes) == Some((Opt, Data))
    {
      var buf := new byte[HEADER_SIZE](_ => 0);
      buf[0] := (Opt / 0x100) as byte;
      buf[1] := (Opt % 0x100) as byte;
      bytes := buf[..] + Data;
      RoundTrip(Opt, Data);
    }

    /** Decode; false when it panics, which for a slice of two or three bytes is after the option has been read. */
    method Decode(data: seq<byte>) returns (ok: bool)
      modifies this
      ensures ok == Decoded(data).Some?
      ensures ok ==> (Opt, Data) == Decoded(data).value
      ensures !ok ==> Data == old(Data) && Opt == if |data| < 2 then old(Opt) else BigEndian(data)
    {
      if |data| < 2 {
        return false;
      }
      Opt := BigEndian(data);
      if |data| < 4 {
        return false;
      }
      Data := data[4..];
      return true;
    }
  }

  /** Every option and body comes back. */
  lemma RoundTrip(opt: uint16, data: seq<byte>)
    ensures Decoded(Encoded(opt, data)) == Some((opt, data))
  {
    var bytes := Encoded(opt, data);
    assert bytes[4..] == data;
    assert opt as int == opt as int / 0x100 * 0x100 + opt as int % 0x100;
  }

  /** Encoding loses nothing. */
  lemma EncodedIsInjective(opt: uint16, data: seq<byte>, opt': uint16, data': seq<byte>)
    requires Encoded(opt, data) == Encoded(opt', data')
    ensures opt == opt' && data == data'
  {
    RoundTrip(opt, data);
    RoundTrip(opt', data');
  }

  /** The other way about: bytes are an encoding exactly when they have a header with two zero bytes in it. */
  lemma DecodedEncodes(bytes: seq<byte>)
    ensures (exists opt, data :: bytes == Encoded(opt, data)) <==> |bytes| >= 4 && bytes[2] == 0 && bytes[3] == 0
    ensures |bytes| >= 4 && bytes[2] == 0 && bytes[3] == 0 ==>
              Decoded(bytes).Some? && Encoded(Decoded(bytes).value.0, Decoded(bytes).value.1) == bytes
  {
    if |bytes| >= 4 && bytes[2] == 0 && bytes[3] == 0 {
      Halves(bytes[0], bytes[1]);
      assert Encoded(BigEndian(bytes), bytes[4..]) == bytes;
    }
  }

  lemma Halves(high: byte, low: byte)
    ensures var n := high as uint16 * 0x100 + low as uint16; (n / 0x100) as byte == high && (n % 0x100) as byte == low
  {
    var h, l := high as int, low as int;
    assert (h * 0x100 + l) / 0x100 == h && (h * 0x100 + l) % 0x100 == l;
  }

  // ---------------------------------------------------------------- bodies and handlers

  const ADD_HTTP_PROXY: uint16 := 0x0001
  const ADD_HTTP_PROXY_PREFIX: uint16 := 0x0002
  const ADD_HTTP_PROXY_HOST: uint16 := 0x0003
  const ADD_HTTP_BLACK_LIST: uint16 := 0x0004
  const RMV_HTTP_PROXY_PREFIX: uint16 := 0x0005
  const RMV_HTTP_PROXY_HOST: uint16 := 0x0006
  const RMV_HTTP_BLACK_LIST: uint16 := 0x0007
  const RMV_HTTP_PROXY: uint16 := 0x0008
  const SET_RATE_LIMITER: uint16 := 0x0009
  const CHG_STATIC: uint16 := 0x0010
  const CHG_LB: uint16 := 0x0011
  const CHG_STATE: uint16 := 0x0012

  /** The structs that entries carry (vermouth/log_entry_structs.go). Adding and removing share theirs. */
  datatype Body =
    | ProxyBody(port: int, prefixType: string)
    | PrefixBody(port: int, isStatic: bool, prefix: string, balanceType: string, proxyPass: seq<string>)
    | HostBody(port: int, prefix: string, host: string)
    | BlackListBody(port: int, ips: seq<string>)
    | RemovePrefixBody(port: int, prefix: string)
    | RemoveProxyBody(port: int)
    | LimiterBody(port: int, prefix: string, url: string, kind: string, volume: int, speed: int)
    | StaticBody(port: int, prefix: string)
    | LbBody(port: int, prefix: string, lb: string)
    | StateBody(port: int, state: int)

  datatype Shape =
    | ProxyShape | PrefixShape | HostShape | BlackListShape | RemovePrefixShape | RemoveProxyShape | LimiterShape
    | StaticShape | LbShape | StateShape

  function ShapeOf(b: Body): Shape {
    match b
    case ProxyBody(_, _) => ProxyShape
    case PrefixBody(_, _, _, _, _) => PrefixShape
    case HostBody(_, _, _) => HostShape
    case BlackListBody(_, _) => BlackListShape
    case RemovePrefixBody(_, _) => RemovePrefixShape
    case RemoveProxyBody(_) => RemoveProxyShape
    case LimiterBody(_, _, _, _, _, _) => LimiterShape
    case StaticBody(_, _) => StaticShape
    case LbBody(_, _, _) => LbShape
    case StateBody(_, _) => StateShape
  }

  /** gob: a struct as bytes, and bytes read into a struct of a given shape; None is a decoding error. */
  datatype Codec = Codec(encode: Body -> seq<byte>, decode: (Shape, seq<byte>) -> Option<Body>)

  /** All that is asked of gob: what was encoded is read back by a handler that expects its shape. */
  ghost predicate Faithful(c: Codec) { forall b: Body :: c.decode(ShapeOf(b), c.encode(b)) == Some(b) }

  datatype Handler =
    | HandleAddHttpProxy | HandleAddHttpProxyPrefix | HandleAddHttpHost | HandleAddBlackList
    | HandleRemoveHttpProxyPrefix | HandleRemoveHttpProxyHost | HandleRemoveHttpBlackList | HandleRemoveHttpProxy
    | HandleSetRateLimiter | HandleChangeStatic | HandleChangeLb | HandleChangeState

  /** The switch in Apply. After 0x0009 comes 0x0010. */
  function HandlerOf(opt: uint16): Option<Handler> {
    if opt == ADD_HTTP_PROXY then Some(HandleAddHttpProxy)
    else if opt == ADD_HTTP_PROXY_PREFIX then Some(HandleAddHttpProxyPrefix)
    else if opt == ADD_HTTP_PROXY_HOST then Some(HandleAddHttpHost)
    else if opt == ADD_HTTP_BLACK_LIST then Some(HandleAddBlackList)
    else if opt == RMV_HTTP_PROXY_PREFIX then Some(HandleRemoveHttpProxyPrefix)
    else if opt == RMV_HTTP_PROXY_HOST then Some(HandleRemoveHttpProxyHost)
    else if opt == RMV_HTTP_BLACK_LIST then Some(HandleRemoveHttpBlackList)
    else if opt == RMV_HTTP_PROXY then Some(HandleRemoveHttpProxy)
    else if opt == SET_RATE_LIMITER then Some(HandleSetRateLimiter)
    else if opt == CHG_STATIC then Some(HandleChangeStatic)
    else if opt == CHG_LB then Some(HandleChangeLb)
    else if opt == CHG_STATE then Some(HandleChangeState)
    else None
  }

  /** The struct each handler decodes into. */
  function ShapeFor(h: Handler): Shape {
    match h
    case HandleAddHttpProxy => ProxyShape
    case HandleAddHttpProxyPrefix => PrefixShape
    case HandleAddHttpHost => HostShape
    case HandleAddBlackList => BlackListShape
    case HandleRemoveHttpProxyPrefix => RemovePrefixShape
    case HandleRemoveHttpProxyHost => HostShape
    case HandleRemoveHttpBlackList => BlackListShape
    case HandleRemoveHttpProxy => RemoveProxyShape
    case HandleSetRateLimiter => LimiterShape
    case HandleChangeStatic => StaticShape
    case HandleChangeLb => LbShape
    case HandleChangeState => StateShape
  }

  /** What a handler does with its struct; limiters are not part of the state. */
  function Handle(h: Handler, b: Body): Entry {
    match (h, b)
    case (HandleAddHttpProxy, ProxyBody(port, t)) => AddProxy(port, t)
    case (HandleAddHttpProxyPrefix, PrefixBody(port, st, k, t, hosts)) =>
      EditProxy(port, Edit.AddPrefix(k, t, hosts, st))
    case (HandleAddHttpHost, HostBody(port, k, host)) => EditProxy(port, Edit.AddHost(k, host))
    case (HandleAddBlackList, BlackListBody(port, ips)) => EditProxy(port, Edit.AddBlackList(ips))
    case (HandleRemoveHttpProxyPrefix, RemovePrefixBody(port, k)) => EditProxy(port, Edit.RemovePrefix(k))
    case (HandleRemoveHttpProxyHost, HostBody(port, k, host)) => EditProxy(port, Edit.RemoveHost(k, host))
    case (HandleRemoveHttpBlackList, BlackListBody(port, ips)) => EditProxy(port, Edit.RemoveBlackList(ips))
    case (HandleRemoveHttpProxy, RemoveProxyBody(port)) => RemoveProxy(port)
    case (HandleChangeStatic, StaticBody(port, k)) => EditProxy(port, Edit.ChangeStatic(k))
    case (HandleChangeLb, LbBody(port, k, lb)) => EditProxy(port, Edit.ChangeLb(k, lb))
    case (HandleChangeState, StateBody(port, state)) => EditProxy(port, Edit.ChangeState(state))
    case _ => Ignored
  }

  /** What a committed entry means: nothing if its option is unknown or its body cannot be read. */
  function Meaning(c: Codec, opt: uint16, data: seq<byte>): Entry {
    match HandlerOf(opt)
    case None => Ignored
    case Some(h) => (match c.decode(ShapeFor(h), data) case None => Ignored case Some(b) => Handle(h, b))
  }

  /** Apply on the bytes of a committed entry. */
  function ApplyBytes(code: Code, c: Codec, ctx: Context, bytes: seq<byte>): Option<Context> {
    match Decoded(bytes)
    case None => None
    case Some((opt, data)) => Apply(code, ctx, Meaning(c, opt, data))
  }

  // ---------------------------------------------------------------- requests

  /**
   * The option and the struct the state manager appends for a change (vermouth/vermouth_state_manager.go,
   * vermouth/rpc_server.go:63-78). Nothing in the repository appends RMV_HTTP_PROXY; its struct is the handler's.
   */
  function Request(e: Entry): Option<(uint16, Body)> {
    match e
    case Ignored => None
    case AddProxy(port, t) => Some((ADD_HTTP_PROXY, ProxyBody(port, t)))
    case RemoveProxy(port) => Some((RMV_HTTP_PROXY, RemoveProxyBody(port)))
    case EditProxy(port, edit) =>
      (match edit
       case AddPrefix(k, t, hosts, st) => Some((ADD_HTTP_PROXY_PREFIX, PrefixBody(port, st, k, t, hosts)))
       case RemovePrefix(k) => Some((RMV_HTTP_PROXY_PREFIX, RemovePrefixBody(port, k)))
       case AddHost(k, host) => Some((ADD_HTTP_PROXY_HOST, HostBody(port, k, host)))
       case RemoveHost(k, host) => Some((RMV_HTTP_PROXY_HOST, HostBody(port, k, host)))
       case AddBlackList(ips) => Some((ADD_HTTP_BLACK_LIST, BlackListBody(port, ips)))
       case RemoveBlackList(ips) => Some((RMV_HTTP_BLACK_LIST, BlackListBody(port, ips)))
       case ChangeStatic(k) => Some((CHG_STATIC, StaticBody(port, k)))
       case ChangeLb(k, lb) => Some((CHG_LB, LbBody(port, k, lb)))
       case ChangeState(state) => Some((CHG_STATE, StateBody(port, state))))
  }

  predicate Requested(e: Entry) { !e.Ignored? }

  /** AppendLogEntry: the struct is encoded, the entry with it is encoded again. */
  function Appended(c: Codec, e: Entry): seq<byte>
    requires Requested(e)
  {
    var (opt, body) := Request(e).value;
    Encoded(opt, c.encode(body))
  }

  /** Each request reaches the handler that makes the very change it asks for, with the struct it was sent with. */
  lemma RequestIsHandled(e: Entry)
    requires !e.Ignored?
    ensures Request(e).Some?
    ensures var (opt, body) := Request(e).value;
            && HandlerOf(opt).Some? && ShapeFor(HandlerOf(opt).value) == ShapeOf(body)
            && Handle(HandlerOf(opt).value, body) == e
  {
    match e {
      case AddProxy(_, _) =>
      case RemoveProxy(_) =>
      case EditProxy(port, edit) =>
        match edit {
          case AddPrefix(_, _, _, _) =>
          case RemovePrefix(_) =>
          case AddHost(_, _) =>
          case RemoveHost(_, _) =>
          case AddBlackList(_) =>
          case RemoveBlackList(_) =>
          case ChangeStatic(_) =>
          case ChangeLb(_, _) =>
          case ChangeState(_) =>
        }
    }
  }

  /** From request to effect, through both encodings. */
  lemma RequestArrives(code: Code, c: Codec, ctx: Context, e: Entry)
    requires Faithful(c) && !e.Ignored?
    ensures ApplyBytes(code, c, ctx, Appended(c, e)) == Apply(code, ctx, e)
  {
    RequestIsHandled(e);
    var (opt, body) := Request(e).value;
    assert c.decode(ShapeOf(body), c.encode(body)) == Some(body);
    RoundTrip(opt, c.encode(body));
    hide Encoded, Decoded, HandlerOf, Handle, Request, Apply;
  }

  /** Options that change nothing: limiters, and all that no handler is registered for. */
  lemma OtherOptions(code: Code, c: Codec, ctx: Context, opt: uint16, data: seq<byte>)
    ensures opt == SET_RATE_LIMITER || HandlerOf(opt).None? ==>
              ApplyBytes(code, c, ctx, Encoded(opt, data)) == Some(ctx)
    ensures HandlerOf(opt).None? <==> !(ADD_HTTP_PROXY <= opt <= SET_RATE_LIMITER || CHG_STATIC <= opt <= CHG_STATE)
  {
    RoundTrip(opt, data);
    hide Encoded, Decoded;
  }

  function ApplyAllBytes(code: Code, c: Codec, ctx: Context, log: seq<seq<byte>>): Option<Context>
    decreases |log|
  {
    if log == [] then Some(ctx)
    else match ApplyBytes(code, c, ctx, log[0])
         case None => None
         case Some(next) => ApplyAllBytes(code, c, next, log[1..])
  }

  predicate AllRequested(log: seq<Entry>) { forall i :: 0 <= i < |log| ==> Requested(log[i]) }

  function Wire(c: Codec, log: seq<Entry>): seq<seq<byte>>
    requires AllRequested(log)
  {
    seq(|log|, i requires 0 <= i < |log| && AllRequested(log) => Appended(c, log[i]))
  }

  /** Replaying the appended bytes does what the requests ask for, for every log and every faithful body format. */
  lemma {:induction false} BytesReplay(code: Code, c: Codec, ctx: Context, log: seq<Entry>)
    requires Faithful(c) && AllRequested(log)
    ensures ApplyAllBytes(code, c, ctx, Wire(c, log)) == Replay(code, ctx, log)
    decreases |log|
  {
    hide Apply, Appended, ApplyBytes, Faithful;
    if log != [] {
      assert Requested(log[0]) && AllRequested(log[1..]);
      RequestArrives(code, c, ctx, log[0]);
      assert Wire(c, log)[1..] == Wire(c, log[1..]);
      if Apply(code, ctx, log[0]).Some? {
        BytesReplay(code, c, Apply(code, ctx, log[0]).value, log[1..]);
      }
    }
  }

  /** How a request begins on the wire: its option in the second byte. */
  lemma OnTheWire(c: Codec, e: Entry)
    requires Requested(e)
    ensures |Appended(c, e)| >= 4
    ensures Appended(c, e)[..4]
         == [0, match e
                case AddProxy(_, _) => 1
                case RemoveProxy(_) => 8
                case EditProxy(_, edit) =>
                  (match edit
                   case AddPrefix(_, _, _, _) => 2
                   case AddHost(_, _) => 3
                   case AddBlackList(_) => 4
                   case RemovePrefix(_) => 5
                   case RemoveHost(_, _) => 6
                   case RemoveBlackList(_) => 7
                   case ChangeStatic(_) => 16
                   case ChangeLb(_, _) => 17
                   case ChangeState(_) => 18), 0, 0]
  {
  }

  /** Bytes too short for a header are a panic; a body that cannot be read is an error, and nothing changes. */
  lemma UnreadableBytes(code: Code, c: Codec, ctx: Context, opt: uint16, data: seq<byte>, bytes: seq<byte>)
    ensures |bytes| < 4 ==> ApplyBytes(code, c, ctx, bytes) == None
    ensures (forall shape :: c.decode(shape, data) == None) ==>
              ApplyBytes(code, c, ctx, Encoded(opt, data)) == Some(ctx)
  {
    RoundTrip(opt, data);
    hide Encoded;
    if forall shape :: c.decode(shape, data) == None {
      assert HandlerOf(opt).Some? ==> c.decode(ShapeFor(HandlerOf(opt).value), data) == None;
    }
    hide HandlerOf, ShapeFor;
  }
}
