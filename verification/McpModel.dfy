/** The MCP session manager as a value.  The lock is held for the whole of a tool load, so a
    load is one step; what another task can see in between is the state CancelledWhileLoading
    leaves. */
module McpModel {
  import opened Numbers

  type ServerName = string
  datatype ToolKey = ToolKey(server: ServerName, tool: string)

  /** What the environment does if a connection attempt is made. */
  datatype Env = MissingKey | OpenFails | OpenCancelled | LoadFails | LoadCancelled | Loads(names: seq<string>)

  datatype Answer = Found | BackoffOverflow | InBackoff | Misconfigured | ConnectionError | ToolMissing | Cancelled

  datatype Manager = Manager(tools: set<ToolKey>, sessions: set<ServerName>, failures: map<ServerName, nat>,
                             lastFailure: map<ServerName, real>)

  function Failures(m: Manager, server: ServerName): nat {
    if server in m.failures then m.failures[server] else 0
  }

  function LastFailure(m: Manager, server: ServerName): real {
    if server in m.lastFailure then m.lastFailure[server] else 0.0
  }

  /** Seconds to wait after the n-th consecutive failure. */
  function Backoff(n: nat): real
    requires n >= 1
  {
    var w := 0.5 * Pow2(n - 1);
    if w < 15.0 then w else 15.0
  }

  function Without(tools: set<ToolKey>, server: ServerName): set<ToolKey> {
    set k | k in tools && k.server != server
  }

  function Named(server: ServerName, names: seq<string>): set<ToolKey> {
    set i | 0 <= i < |names| :: ToolKey(server, names[i])
  }

  /** Session and tools of the server are dropped and the failure is counted from `count`. */
  function Recycle(m: Manager, server: ServerName, count: nat, now: real): Manager {
    Manager(Without(m.tools, server), m.sessions - {server}, m.failures[server := count], m.lastFailure[server := now])
  }

  /** The most failures whose wait the source can compute: beyond them the power of two no longer
      fits a float and multiplying it raises, before the wait is capped. */
  const MAX_COUNT: nat := 1024

  predicate Overflows(m: Manager, server: ServerName) {
    Failures(m, server) > MAX_COUNT
  }

  predicate CoolingDown(m: Manager, server: ServerName, now: real) {
    Failures(m, server) > 0 && now - LastFailure(m, server) < Backoff(Failures(m, server))
  }

  /** A connection attempt is made: nothing cached, the wait computed and over, key configured. */
  predicate Attempts(m: Manager, key: ToolKey, now: real, env: Env) {
    && key !in m.tools && !Overflows(m, key.server) && !CoolingDown(m, key.server, now)
    && !env.MissingKey?
  }

  function Load(m: Manager, server: ServerName, now: real, env: Env): Manager {
    var opens := server !in m.sessions;
    if env.OpenFails? && opens then Recycle(m, server, Failures(m, server) + 1, now)
    else if env.OpenCancelled? && opens then m
    else
      match env
      case Loads(names) =>
        m.(tools := m.tools + Named(server, names), sessions := m.sessions + {server},
           failures := m.failures[server := 0])
      case LoadCancelled => m.(sessions := m.sessions + {server})
      case _ => Recycle(m, server, Failures(m, server) + 1, now)
  }

  function AfterGet(m: Manager, key: ToolKey, now: real, env: Env): Manager {
    if Attempts(m, key, now, env) then Load(m, key.server, now, env) else m
  }

  function AnswerOf(m: Manager, key: ToolKey, now: real, env: Env): Answer {
    if key in m.tools then Found
    else if Overflows(m, key.server) then BackoffOverflow
    else if CoolingDown(m, key.server, now) then InBackoff
    else if env.MissingKey? then Misconfigured
    else if env.LoadCancelled? || (env.OpenCancelled? && key.server !in m.sessions) then Cancelled
    else if !env.Loads? then ConnectionError
    else if key in AfterGet(m, key, now, env).tools then Found
    else ToolMissing
  }

  function AfterCrash(m: Manager, server: ServerName, now: real): Manager {
    Recycle(m, server, Failures(m, server) + 1, now)
  }

  /** Failure counts survive a shutdown. */
  function AfterShutdown(m: Manager): Manager {
    m.(tools := {}, sessions := {})
  }

  datatype Event = Get(key: ToolKey, now: real, env: Env) | Crash(server: ServerName, now: real) | Shutdown

  function Next(m: Manager, e: Event): Manager {
    match e
    case Get(key, now, env) => AfterGet(m, key, now, env)
    case Crash(server, now) => AfterCrash(m, server, now)
    case Shutdown => AfterShutdown(m)
  }

  function After(m: Manager, run: seq<Event>): Manager {
    if run == [] then m else Next(After(m, run[..|run| - 1]), run[|run| - 1])
  }

  const INITIAL := Manager({}, {}, map[], map[])
}
