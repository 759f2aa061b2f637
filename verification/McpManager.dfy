/** The manager object: tool table, sessions and failure records, updated under one lock. */
module McpClient {
  import opened Numbers
  import opened McpModel

  datatype Gate = Open | Closed | Broken

  class MCPManager {
    var tools: set<ToolKey>
    var sessions: set<ServerName>
    var failures: map<ServerName, nat>
    var lastFailureTime: map<ServerName, real>

    ghost function View(): Manager
      reads this
    {
      Manager(tools, sessions, failures, lastFailureTime)
    }

    constructor ()
      ensures View() == INITIAL
    {
      tools, sessions, failures, lastFailureTime := {}, {}, map[], map[];
    }

    method GetTool(key: ToolKey, now: real, env: Env) returns (answer: Answer)
      modifies this
      ensures answer == AnswerOf(old(View()), key, now, env)
      ensures View() == AfterGet(old(View()), key, now, env)
    {
      if key in tools {
        return Found;
      }
      var server := key.server;
      var failCount := if server in failures then failures[server] else 0;
      var gate := CheckBackoff(server, failCount, now);
      if gate != Open {
        return if gate == Broken then BackoffOverflow else InBackoff;
      }
      if env == MissingKey {
        return Misconfigured;
      }
      var opening := server !in sessions;
      if opening && env == OpenCancelled {
        return Cancelled;
      }
      if opening && env != OpenFails {
        sessions := sessions + {server};
      }
      if env == LoadCancelled {
        return Cancelled;
      }
      if env.Loads? {
        AddTools(server, env.names);
        failures := failures[server := 0];
        return if key in tools then Found else ToolMissing;
      }
      failures := failures[server := failCount + 1];
      lastFailureTime := lastFailureTime[server := now];
      DropSession(server);
      return ConnectionError;
    }

    /** Broken: the wait could not be computed. */
    method CheckBackoff(server: ServerName, failCount: nat, now: real) returns (gate: Gate)
      requires failCount == Failures(View(), server)
      ensures gate == if Overflows(View(), server) then Broken
                      else if CoolingDown(View(), server, now) then Closed else Open
    {
      if failCount == 0 {
        return Open;
      }
      var lastFail := if server in lastFailureTime then lastFailureTime[server] else 0.0;
      if failCount - 1 >= MAX_COUNT {
        return Broken;
      }
      var power := Power(failCount - 1);
      var wait := 0.5 * power;
      if wait >= 15.0 {
        wait := 15.0;
      }
      return if now - lastFail < wait then Closed else Open;
    }

    static method Power(n: nat) returns (p: real)
      ensures p == Pow2(n)
    {
      p := 1.0;
      var i := 0;
      while i < n
        invariant 0 <= i <= n && p == Pow2(i)
      {
        p := 2.0 * p;
        i := i + 1;
      }
    }

    method AddTools(server: ServerName, names: seq<string>)
      modifies this`tools
      ensures tools == old(tools) + Named(server, names)
    {
      var i := 0;
      while i < |names|
        invariant 0 <= i <= |names| && tools == old(tools) + Named(server, names[..i])
      {
        tools := tools + {ToolKey(server, names[i])};
        assert Named(server, names[..i + 1]) == Named(server, names[..i]) + {ToolKey(server, names[i])};
        i := i + 1;
      }
      assert names[..i] == names;
    }

    /** Forgets the session and pops the server's tools one by one. */
    method DropSession(server: ServerName)
      modifies this`sessions, this`tools
      ensures sessions == old(sessions) - {server} && tools == Without(old(tools), server)
    {
      sessions := sessions - {server};
      var keysToRemove := set k | k in tools && k.server == server;
      while keysToRemove != {}
        invariant sessions == old(sessions) - {server}
        invariant keysToRemove <= tools <= old(tools)
        invariant forall k | k in keysToRemove :: k.server == server
        invariant forall k | k in old(tools) :: k in tools <==> k.server != server || k in keysToRemove
        decreases |keysToRemove|
      {
        var k :| k in keysToRemove;
        keysToRemove := keysToRemove - {k};
        tools := tools - {k};
      }
    }

    method HandleToolCrash(server: ServerName, now: real)
      modifies this
      ensures View() == AfterCrash(old(View()), server, now)
      ensures sessions == old(sessions) - {server} && lastFailureTime == old(lastFailureTime)[server := now]
      ensures failures == old(failures)[server := (if server in old(failures) then old(failures)[server] else 0) + 1]
      ensures tools == set k | k in old(tools) && k.server != server
    {
      var failCount := (if server in failures then failures[server] else 0) + 1;
      failures := failures[server := failCount];
      lastFailureTime := lastFailureTime[server := now];
      DropSession(server);
    }

    method Shutdown()
      modifies this
      ensures View() == AfterShutdown(old(View()))
      ensures tools == {} && sessions == {} && failures == old(failures) && lastFailureTime == old(lastFailureTime)
    {
      tools := {};
      sessions := {};
    }
  }
}
