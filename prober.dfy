/**
 * `MikroTikPingProber.ping_target`: borrows a pooled SSH session, runs a
 * single ping on the router and decodes its output, turning a missing
 * session into the "down" record.
 */
module Prober {
  import opened Wrappers
  import opened PyStr
  import opened PingParser
  import opened SshPool

  /** The RouterOS command for one ping of `targetIp`. */
  function PingCommand(targetIp: string): (cmd: string)
    ensures |cmd| == |targetIp| + 14
    ensures cmd[..6] == "/ping " && cmd[|cmd| - 8..] == " count=1"
    ensures cmd[6..|cmd| - 8] == targetIp
  {
    "/ping " + targetIp + " count=1"
  }

  class PingProber {
    const pool: Pool

    constructor (pool: Pool)
      ensures this.pool == pool
    {
      this.pool := pool;
    }

    /**
     * `ping_target(target_ip)`.  The oracles: `leaseActive` is the pooled
     * session's liveness when it is taken from the queue, `replacementConnects`
     * whether a replacement session connects, `execActive` the liveness
     * `exec_command` sees, `reconnects` whether its reconnection succeeds,
     * `shell` the router, and `elapsed` the wall time the probe took.
     *
     * Exactly one connection goes back to the pool's tail: the one taken
     * when it was active, a new one otherwise; it keeps its session when
     * that session is active for `exec_command`, and is reconnected
     * otherwise.  The other idle connections are left as they were.  The command is `/ping <ip> count=1`;
     * when no session can be had the result is `_error_result`, else the
     * decoding of the stripped stdout.
     */
    method PingTarget(targetIp: string, leaseActive: bool, replacementConnects: bool,
                      execActive: bool, reconnects: bool,
                      shell: string -> Reply, elapsed: real)
      returns (r: PingResult)
      requires pool.Valid() && |pool.idle| > 0
      modifies pool, pool.idle[0]
      ensures pool.Valid()
      ensures |pool.idle| == old(|pool.idle|) && pool.lent == old(pool.lent)
      ensures pool.idle[..|pool.idle| - 1] == old(pool.idle[1..])
      ensures forall i :: 0 <= i < |pool.idle| - 1 ==> pool.idle[i].ssh == old(pool.idle[i + 1].ssh)
      ensures var back := pool.idle[|pool.idle| - 1];
              var wasActive := old(pool.idle[0].IsActive(leaseActive));
              var hasClient := wasActive || replacementConnects;
              back.ssh == if hasClient && execActive then (if wasActive then old(pool.idle[0].ssh) else back.Connected(true))
                          else back.Connected(reconnects)
      ensures old(pool.idle[0].IsActive(leaseActive)) ==> pool.idle[|pool.idle| - 1] == old(pool.idle[0])
      ensures !old(pool.idle[0].IsActive(leaseActive)) ==> fresh(pool.idle[|pool.idle| - 1])
      ensures var hasClient := old(pool.idle[0].IsActive(leaseActive)) || replacementConnects;
              var runs := (hasClient && execActive) || reconnects;
              r == if runs then ParsePingOutput(Strip(shell(PingCommand(targetIp)).stdout), elapsed)
                   else ErrorResult(elapsed)
    {
      var cmd := PingCommand(targetIp);
      var conn, reply := LeaseAndExec(cmd, leaseActive, replacementConnects, execActive, reconnects, shell);
      pool.Release(conn);
      if reply.Failure? {
        return ErrorResult(elapsed);
      }
      var output := Strip(reply.value.stdout);
      r := ParsePingOutput(output, elapsed);
    }

    /**
     * The body of `with self.pool.connection() as conn:` up to the
     * `exec_command`: the connection is taken (and replaced when inactive)
     * and runs `cmd`.  The other idle connections are not touched.
     */
    method LeaseAndExec(cmd: string, leaseActive: bool, replacementConnects: bool,
                        execActive: bool, reconnects: bool, shell: string -> Reply)
      returns (conn: Connection, reply: Result<Reply, ExecError>)
      requires pool.Valid() && |pool.idle| > 0
      modifies pool, pool.idle[0]
      ensures pool.Valid() && conn in pool.lent
      ensures pool.idle == old(pool.idle[1..]) && pool.lent == old(pool.lent) + multiset{conn}
      ensures forall i :: 0 <= i < |pool.idle| ==> pool.idle[i].ssh == old(pool.idle[i + 1].ssh)
      ensures old(pool.idle[0].IsActive(leaseActive)) ==> conn == old(pool.idle[0])
      ensures !old(pool.idle[0].IsActive(leaseActive)) ==> fresh(conn)
      ensures var wasActive := old(pool.idle[0].IsActive(leaseActive));
              var hasClient := wasActive || replacementConnects;
              && conn.ssh == (if hasClient && execActive then (if wasActive then old(pool.idle[0].ssh) else conn.Connected(true))
                              else conn.Connected(reconnects))
              && (reply.Success? <==> (hasClient && execActive) || reconnects)
      ensures reply.Success? ==> reply.value == shell(cmd)
    {
      ghost var wasActive := pool.idle[0].IsActive(leaseActive);
      ghost var headSsh := pool.idle[0].ssh;
      ghost var hasClient := wasActive || replacementConnects;
      conn := pool.Acquire(leaseActive, replacementConnects);
      assert conn.ssh == if wasActive then headSsh else conn.Connected(replacementConnects);
      assert conn.ssh.Some? <==> hasClient;
      reply := conn.ExecCommand(cmd, execActive, reconnects, shell);
    }
  }
}
