/**
 The registry of open connections over whole runs of API calls: opening and closing devices,
 enumerating, asking a server for its version, sending commands, and setting the version to start with.

 Calls follow each other. The network never gives a connection id twice.
*/
module ConnRegistries {
  import opened Words
  import opened Bytes
  import opened DevIds
  import opened Uris
  import opened Negotiations

  /** What the library knows of a connection. */
  datatype Info = Info(version: u32, dev: DevId)

  /** `tick` counts what has happened on the network. */
  datatype State = State(tick: nat, base: u32, registry: map<u32, Info>)

  /** `junk` is what the device field of a new client holds when the URI does not parse. */
  datatype Call =
    | OpenDevice(uri: bytes, junk: DevId)
    | CloseDevice(conn: u32)
    | Enumerate
    | QueryVersion
    | Command(conn: u32, data: bytes, respLen: u32)
    | SetBase(major: u32, minor: u32, bugfix: u32)

  function DeviceOf(uri: bytes, junk: DevId): DevId {
    match ParseUri(uri)
    case BadUri => junk
    case GoodUri(_, dev) => dev
  }

  function OpeningBy(net: Network, s: State, call: Call): Outcome
    requires call.OpenDevice?
  {
    Opening(net, s.tick, s.base, DeviceOf(call.uri, call.junk), LAST_VERSION)
  }

  /** One call. */
  function Do(net: Network, s: State, call: Call): State {
    match call
    case OpenDevice(uri, junk) =>
      var r := OpeningBy(net, s, call);
      if r.error == 0
      then s.(tick := r.tick, registry := s.registry[r.conn := Info(r.version, DeviceOf(uri, junk))])
      else s.(tick := r.tick)
    case CloseDevice(conn) =>
      if conn in s.registry then s.(tick := s.tick + 1, registry := s.registry - {conn}) else s
    case Enumerate => s.(tick := Enumerating(net, s.tick, s.base, LAST_VERSION).tick)
    case QueryVersion => s.(tick := if net.connect(s.tick) == CONN_INVALID then s.tick + 1 else s.tick + 2)
    case Command(conn, _, _) => if conn in s.registry then s.(tick := s.tick + 1) else s
    case SetBase(major, minor, bugfix) =>
      if Supported(major) && minor == 0 && bugfix == 0 then s.(base := major) else s
  }

  function Run(net: Network, s: State, calls: seq<Call>): State {
    if calls == [] then s else Do(net, Run(net, s, calls[..|calls| - 1]), calls[|calls| - 1])
  }

  function Start(): State {
    State(0, 1, map[])
  }

  /** `id` was given for a connection before `tick`. */
  ghost predicate Given(net: Network, tick: nat, id: u32) {
    exists j: nat :: j < tick && net.connect(j) == id
  }

  ghost predicate Inv(net: Network, s: State) {
    && Supported(s.base)
    && (forall id: u32 :: id in s.registry ==>
          id != CONN_INVALID && Given(net, s.tick, id) && Supported(s.registry[id].version))
  }

  // ---------------------------------------------------------------- single calls

  lemma GivenGrows(net: Network, t: nat, t': nat, id: u32)
    requires Given(net, t, id) && t <= t'
    ensures Given(net, t', id)
  {
    var j: nat :| j < t && net.connect(j) == id;
    assert j < t' && net.connect(j) == id;
  }

  lemma {:induction false} EnumeratingTakesTime(net: Network, tick: nat, v: u32, n: nat)
    requires n > 0
    ensures tick < Enumerating(net, tick, v, n).tick <= tick + 2 * n + 2
    ensures |Enumerating(net, tick, v, n).tried| <= n + 1
    decreases n
  {
    hide TryEnum;
    if net.connect(tick) != CONN_INVALID {
      var a := TryEnum(net, tick + 1, v);
      TryEnumTick(net, tick + 1, v);
      if a.error == ERR_ANOTHER_PROTOCOL {
        TryEnumTick(net, a.tick + 1, a.version);
      } else if (a.error == ERR_RECV_TIMEOUT || a.error == ERR_NO_PROTOCOL) && n > 1 {
        EnumeratingTakesTime(net, a.tick, Decrement(a.version), n - 1);
      }
    }
  }

  lemma TryEnumTick(net: Network, tick: nat, v: u32)
    ensures tick <= TryEnum(net, tick, v).tick <= tick + 1
  {
    hide DecodeIn, EnumRequest;
  }

  lemma TimePasses(net: Network, s: State, call: Call)
    requires Supported(s.base)
    ensures s.tick <= Do(net, s, call).tick
  {
    hide Opening, Enumerating;
    if call.OpenDevice? {
      OpeningEnds(net, s.tick, s.base, DeviceOf(call.uri, call.junk), LAST_VERSION);
    } else if call.Enumerate? {
      EnumeratingTakesTime(net, s.tick, s.base, LAST_VERSION);
    }
  }

  /** A connection that is opened is new, and what becomes known of it is what was negotiated. */
  lemma OpenedIsNew(net: Network, s: State, call: Call)
    requires FreshIds(net) && Inv(net, s) && call.OpenDevice? && OpeningBy(net, s, call).error == 0
    ensures var r := OpeningBy(net, s, call);
            && r.conn !in s.registry && r.conn != CONN_INVALID && Supported(r.version)
            && Given(net, Do(net, s, call).tick, r.conn)
  {
    hide Opening, DeviceOf;
    var r := OpeningBy(net, s, call);
    OpeningEnds(net, s.tick, s.base, DeviceOf(call.uri, call.junk), LAST_VERSION);
    var j: nat :| s.tick <= j < r.tick && net.connect(j) == r.conn;
    if r.conn in s.registry {
      GivenOnce(net, s.tick, j, r.conn);
    }
  }

  lemma GivenOnce(net: Network, tick: nat, j: nat, id: u32)
    requires FreshIds(net) && Given(net, tick, id) && tick <= j && net.connect(j) == id
    ensures id == CONN_INVALID
  {
    var i: nat :| i < tick && net.connect(i) == id;
    assert net.connect(i) == net.connect(j);
  }

  /** Against a server that speaks only version `v`, opening succeeds: the registry gets one more
      connection, with that version. */
  lemma OpeningReachesServer(net: Network, s: State, call: Call, v: u32)
    requires FreshIds(net) && Inv(net, s) && call.OpenDevice? && Supported(v)
    requires SpeaksOnly(net, s.tick, LAST_VERSION, DeviceOf(call.uri, call.junk), v)
    ensures var r := OpeningBy(net, s, call);
            && r.error == 0 && r.version == v && r.conn !in s.registry && |r.tried| <= 3
            && Do(net, s, call).registry == s.registry[r.conn := Info(v, DeviceOf(call.uri, call.junk))]
  {
    hide Opening, SpeaksOnly, Given, DeviceOf;
    NegotiationSucceeds(net, s.tick, s.base, DeviceOf(call.uri, call.junk), v);
    OpenedIsNew(net, s, call);
  }

  lemma CallKeepsInv(net: Network, s: State, call: Call)
    requires FreshIds(net) && Inv(net, s)
    ensures Inv(net, Do(net, s, call))
  {
    hide Opening, Enumerating, DeviceOf, Given;
    var s' := Do(net, s, call);
    TimePasses(net, s, call);
    if call.OpenDevice? && OpeningBy(net, s, call).error == 0 {
      OpenedIsNew(net, s, call);
    }
    forall id: u32 | id in s'.registry
      ensures id != CONN_INVALID && Given(net, s'.tick, id) && Supported(s'.registry[id].version)
    {
      if id in s.registry {
        GivenGrows(net, s.tick, s'.tick, id);
      }
    }
  }

  /** What a call does to the registry: an opening that fails, an enumeration, a version query and a
      change of the base version leave it alone; a successful opening adds exactly the new
      connection; closing removes exactly the connection that is closed. */
  lemma RegistryChange(net: Network, s: State, call: Call)
    requires FreshIds(net) && Inv(net, s)
    ensures var s' := Do(net, s, call);
            match call
            case OpenDevice(_, _) =>
              var r := OpeningBy(net, s, call);
              if r.error != 0 then s'.registry == s.registry
              else |s'.registry| == |s.registry| + 1 && s'.registry - {r.conn} == s.registry
            case CloseDevice(conn) =>
              && conn !in s'.registry
              && (conn in s.registry ==> |s'.registry| == |s.registry| - 1)
              && (forall id: u32 :: id in s.registry && id != conn ==> id in s'.registry && s'.registry[id] == s.registry[id])
              && s'.registry.Keys <= s.registry.Keys
            case _ => s'.registry == s.registry
  {
    hide OpeningBy, Enumerating, DeviceOf, Given, Inv;
    if call.OpenDevice? {
      var r := OpeningBy(net, s, call);
      if r.error == 0 {
        OpenedIsNew(net, s, call);
        AddOne(s.registry, r.conn, Info(r.version, DeviceOf(call.uri, call.junk)));
      }
    } else if call.CloseDevice? && call.conn in s.registry {
      RemoveOne(s.registry, call.conn);
    }
  }

  lemma AddOne<K, V>(m: map<K, V>, k: K, v: V)
    requires k !in m
    ensures |m[k := v]| == |m| + 1 && m[k := v] - {k} == m
  {
    assert m[k := v].Keys == m.Keys + {k};
  }

  lemma RemoveOne<K, V>(m: map<K, V>, k: K)
    requires k in m
    ensures |m - {k}| == |m| - 1
  {
    assert m.Keys == (m - {k}).Keys + {k};
  }

  // ---------------------------------------------------------------- whole runs

  lemma {:induction false} RunKeepsInv(net: Network, s: State, calls: seq<Call>)
    requires FreshIds(net) && Inv(net, s)
    ensures Inv(net, Run(net, s, calls))
  {
    hide Do, Inv, FreshIds;
    if calls != [] {
      RunKeepsInv(net, s, calls[..|calls| - 1]);
      CallKeepsInv(net, Run(net, s, calls[..|calls| - 1]), calls[|calls| - 1]);
    }
  }

  /** Call `i` of a run opened the connection `id`. */
  predicate Opened(net: Network, s: State, calls: seq<Call>, i: nat, id: u32)
    requires i < |calls|
  {
    calls[i].OpenDevice? && var r := OpeningBy(net, Run(net, s, calls[..i]), calls[i]); r.error == 0 && r.conn == id
  }

  /** `id` was opened by call `i`, and not closed since. */
  predicate OpenSince(net: Network, s: State, calls: seq<Call>, i: nat, id: u32)
    requires i < |calls|
  {
    Opened(net, s, calls, i, id) && forall k :: i < k < |calls| ==> calls[k] != CloseDevice(id)
  }

  /** What is known of a connection that call `i` opened. */
  function KnownFrom(net: Network, s: State, calls: seq<Call>, i: nat): Info
    requires i < |calls| && calls[i].OpenDevice?
  {
    Info(OpeningBy(net, Run(net, s, calls[..i]), calls[i]).version, DeviceOf(calls[i].uri, calls[i].junk))
  }

  lemma OpenSincePrefix(net: Network, s: State, calls: seq<Call>, i: nat, id: u32)
    requires i < |calls| - 1
    ensures var p := calls[..|calls| - 1];
            && (OpenSince(net, s, calls, i, id) <==> OpenSince(net, s, p, i, id) && calls[|calls| - 1] != CloseDevice(id))
            && (calls[i].OpenDevice? ==> KnownFrom(net, s, calls, i) == KnownFrom(net, s, p, i))
  {
    hide OpeningBy, DeviceOf, Run;
    var p := calls[..|calls| - 1];
    assert p[..i] == calls[..i] && p[i] == calls[i];
    assert forall k :: 0 <= k < |p| ==> p[k] == calls[k];
  }

  /** Every connection in the registry was opened by some call and not closed since. */
  lemma {:induction false} RegisteredWasOpened(net: Network, calls: seq<Call>, id: u32) returns (i: nat)
    requires FreshIds(net) && id in Run(net, Start(), calls).registry
    ensures i < |calls| && OpenSince(net, Start(), calls, i, id)
    decreases |calls|
  {
    hide OpeningBy, DeviceOf, Enumerating;
    var n := |calls| - 1;
    var p, c := calls[..n], calls[n];
    if c.OpenDevice? && Opened(net, Start(), calls, n, id) {
      i := n;
    } else {
      i := RegisteredWasOpened(net, p, id);
      OpenSincePrefix(net, Start(), calls, i, id);
    }
  }

  /** A connection that was opened and not closed since is in the registry, as it was opened. */
  lemma {:induction false} OpenedIsRegistered(net: Network, calls: seq<Call>, i: nat, id: u32)
    requires FreshIds(net) && i < |calls| && OpenSince(net, Start(), calls, i, id)
    ensures var s := Run(net, Start(), calls);
            id in s.registry && s.registry[id] == KnownFrom(net, Start(), calls, i)
    decreases |calls|
  {
    hide OpeningBy, DeviceOf, Enumerating, Inv;
    var n := |calls| - 1;
    var p, c := calls[..n], calls[n];
    if i < n {
      OpenSincePrefix(net, Start(), calls, i, id);
      OpenedIsRegistered(net, p, i, id);
      StartInv(net);
      RunKeepsInv(net, Start(), p);
      var s := Run(net, Start(), p);
      if c.OpenDevice? && OpeningBy(net, s, c).error == 0 {
        OpenedIsNew(net, s, c);
      }
    }
  }

  lemma StartInv(net: Network)
    ensures Inv(net, Start())
  {
  }

  /**
   After any run, the registry holds exactly the connections that were opened successfully and not
   closed since, each with the version that was negotiated and the device that was named when it
   was opened.
  */
  lemma RegistryIsOpenConnections(net: Network, calls: seq<Call>, id: u32)
    requires FreshIds(net)
    ensures id in Run(net, Start(), calls).registry
       <==> exists i: nat :: i < |calls| && OpenSince(net, Start(), calls, i, id)
    ensures forall i: nat :: i < |calls| && OpenSince(net, Start(), calls, i, id) ==>
              var s := Run(net, Start(), calls);
              id in s.registry && s.registry[id] == KnownFrom(net, Start(), calls, i)
  {
    hide OpenSince, Run, KnownFrom, FreshIds;
    if id in Run(net, Start(), calls).registry {
      var i := RegisteredWasOpened(net, calls, id);
    }
    forall i: nat | i < |calls| && OpenSince(net, Start(), calls, i, id)
      ensures var s := Run(net, Start(), calls);
              id in s.registry && calls[i].OpenDevice? && s.registry[id] == KnownFrom(net, Start(), calls, i)
    {
      OpenSinceOpens(net, Start(), calls, i, id);
      OpenedIsRegistered(net, calls, i, id);
    }
  }

  lemma OpenSinceOpens(net: Network, s: State, calls: seq<Call>, i: nat, id: u32)
    requires i < |calls| && OpenSince(net, s, calls, i, id)
    ensures calls[i].OpenDevice?
  {
  }
}
