/**
 * The SSH side of the exporter: one session to the MikroTik router
 * (`MikroTikSSHConnection`) and the fixed-capacity pool of sessions that
 * probes borrow (`MikroTikSSHConnectionPool`).
 *
 * The SSH transport is an oracle: whether `paramiko`'s connect succeeds,
 * whether the session's transport reports itself alive at the moment
 * `is_active` asks, and what the router's shell answers to a command, are
 * all inputs of the methods below.
 */
module SshPool {
  import opened Wrappers

  /** A connected `paramiko.SSHClient`, recorded by the host and user it logged in as. */
  datatype SshClient = SshClient(host: string, user: string)

  /** What `exec_command` hands back, once drained: the command's stdout and stderr. */
  datatype Reply = Reply(stdout: string, stderr: string)

  /** `ConnectionError("SSH connection is not active.")` */
  datatype ExecError = ConnectionError

  /** `MikroTikSSHConnection`: `ssh` is a connected client or `None`. */
  class Connection {
    const host: string
    const user: string
    const password: string
    var ssh: Option<SshClient>

    /** The session `connect()` leads to: a client for this host and user, or none when connecting failed. */
    function Connected(succeeds: bool): Option<SshClient> {
      if succeeds then Some(SshClient(host, user)) else None
    }

    /** `__init__` stores the parameters and connects straight away. */
    constructor (host: string, user: string, password: string, connects: bool)
      ensures this.host == host && this.user == user && this.password == password
      ensures ssh == Connected(connects)
    {
      this.host := host;
      this.user := user;
      this.password := password;
      ssh := None;
      new;
      Connect(connects);
    }

    /**
     * `connect()`: replaces `ssh` by a new client; any exception while
     * connecting is caught and leaves `ssh` at `None`.  `succeeds` is
     * whether `paramiko` connected.
     */
    method Connect(succeeds: bool)
      modifies this
      ensures ssh == Connected(succeeds)
      ensures !succeeds ==> forall alive: bool :: !IsActive(alive)
    {
      if succeeds {
        ssh := Some(SshClient(host, user));
      } else {
        ssh := None;
      }
    }

    /**
     * `is_active()`: there is a client and its transport reports itself
     * active.  The transport's report is an oracle, `transportActive`.
     */
    function IsActive(transportActive: bool): (active: bool)
      reads this
      ensures active ==> ssh.Some?
      ensures !transportActive ==> !active
      ensures ssh.Some? && transportActive ==> active
    {
      ssh.Some? && transportActive
    }

    /**
     * `exec_command(cmd)`: reconnects first when the session is not
     * active, then runs `cmd` on the client, or raises `ConnectionError`
     * when there still is none.  `transportActive` is the liveness report,
     * `reconnects` whether the reconnection succeeds, `shell` the router's
     * answer to each command.
     */
    method ExecCommand(cmd: string, transportActive: bool, reconnects: bool,
                       shell: string -> Reply)
      returns (r: Result<Reply, ExecError>)
      modifies this
      ensures old(IsActive(transportActive)) ==> ssh == old(ssh)
      ensures !old(IsActive(transportActive)) ==> ssh == Connected(reconnects)
      ensures r.Failure? <==> ssh.None?
      ensures r.Success? ==> r.value == shell(cmd)
    {
      if !IsActive(transportActive) {
        Connect(reconnects);
      }
      if ssh.Some? {
        return Success(shell(cmd));
      }
      return Failure(ConnectionError);
    }
  }

  /**
   * `MikroTikSSHConnectionPool`: a queue of idle connections, filled
   * eagerly with `maxConnections` of them.  `lent` is the connections
   * currently borrowed through `connection()`; the source does not store
   * them, it is the bookkeeping that the queue's capacity stands for.
   */
  class Pool {
    const maxConnections: nat
    const host: string
    const user: string
    const password: string
    var idle: seq<Connection>
    ghost var lent: multiset<Connection>

    /** Every connection of the pool talks to the configured router with the configured account. */
    ghost predicate Configured(c: Connection) {
      c.host == host && c.user == user && c.password == password
    }

    /**
     * Idle plus lent connections are exactly the capacity, all of them are
     * configured, and each connection is in exactly one place: the queue
     * holds no connection twice, none is lent twice, and no lent one is idle.
     */
    ghost predicate Valid()
      reads this
    {
      && |idle| + |lent| == maxConnections
      && (forall i :: 0 <= i < |idle| ==> Configured(idle[i]))
      && (forall c :: c in lent ==> Configured(c))
      && (forall i, j :: 0 <= i < j < |idle| ==> idle[i] != idle[j])
      && (forall c :: c in lent ==> lent[c] == 1)
      && (forall i :: 0 <= i < |idle| ==> idle[i] !in lent)
    }

    /**
     * `__init__(max_connections)`: puts `maxConnections` connections made
     * by `_create_connection` in the queue; `connects[i]` is whether the
     * i-th of them managed to connect.
     */
    constructor (maxConnections: nat, host: string, user: string, password: string, connects: seq<bool>)
      requires |connects| == maxConnections
      ensures Valid() && lent == multiset{}
      ensures this.maxConnections == maxConnections
      ensures this.host == host && this.user == user && this.password == password
      ensures |idle| == maxConnections
      ensures forall i :: 0 <= i < |idle| ==> fresh(idle[i]) && idle[i].ssh == idle[i].Connected(connects[i])
    {
      this.maxConnections := maxConnections;
      this.host := host;
      this.user := user;
      this.password := password;
      idle := [];
      lent := multiset{};
      new;
      var n := 0;
      while n < maxConnections
        invariant n <= maxConnections && |idle| == n && lent == multiset{}
        invariant forall i :: 0 <= i < n ==> Configured(idle[i])
        invariant forall i, j :: 0 <= i < j < n ==> idle[i] != idle[j]
        invariant forall i :: 0 <= i < n ==> fresh(idle[i]) && idle[i].ssh == idle[i].Connected(connects[i])
      {
        var c := CreateConnection(connects[n]);
        idle := idle + [c];
        n := n + 1;
      }
    }

    /** `_create_connection()`: a new connection with the pool's configuration, connected when `connects`. */
    method CreateConnection(connects: bool) returns (c: Connection)
      ensures fresh(c) && Configured(c)
      ensures c.ssh == c.Connected(connects)
    {
      c := new Connection(host, user, password, connects);
    }

    /**
     * Entering `connection()`: takes the connection at the head of the
     * queue and, when it is not active, swaps it for a new one made by
     * `_create_connection`.  `transportActive` is the head's liveness
     * report, `connects` whether the replacement connects.  The queue's
     * blocking `get` is modelled by requiring an idle connection.
     */
    method Acquire(transportActive: bool, connects: bool) returns (conn: Connection)
      requires Valid() && |idle| > 0
      modifies this
      ensures Valid()
      ensures idle == old(idle[1..])
      ensures lent == old(lent) + multiset{conn}
      ensures forall i :: 0 <= i < |idle| ==> idle[i] != conn
      ensures old(idle[0].IsActive(transportActive)) ==> conn == old(idle[0])
      ensures !old(idle[0].IsActive(transportActive)) ==> fresh(conn) && conn.ssh == conn.Connected(connects)
    {
      conn := idle[0];
      idle := idle[1..];
      if !conn.IsActive(transportActive) {
        conn := CreateConnection(connects);
      }
      lent := lent + multiset{conn};
    }

    /**
     * Leaving `connection()` (its `finally` clause): puts the lent
     * connection back at the tail of the queue.  There is always room,
     * so the `put` never blocks.
     */
    method Release(conn: Connection)
      requires Valid() && conn in lent
      modifies this
      ensures Valid()
      ensures old(|idle|) < maxConnections
      ensures idle == old(idle) + [conn]
      ensures lent == old(lent) - multiset{conn}
    {
      idle := idle + [conn];
      lent := lent - multiset{conn};
    }
  }
}
