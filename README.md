# MikroTik ping exporter — a Dafny model of its probing core

The exporter answers Prometheus probes by logging in to a MikroTik router over
SSH, running `/ping <ip> count=1` there and decoding the reply table. A
companion load-test client fires many probe requests at the exporter and
summarises the results. This project models both cores:

- `ssh_pool.dfy` (module `SshPool`): one SSH session, as the class
  `Connection` with its mutable `ssh` field. The fixed-capacity pool of
  sessions is the class `Pool`. Its queue is a `seq` of idle connections. The
  connections currently lent out are ghost bookkeeping. The transport is an
  oracle, so these things are method parameters:
  whether `paramiko` connects, whether a transport reports itself alive, and
  what the router's shell prints for a command.
- `ping_parser.dfy` (module `PingParser`): decoding the router's ping table
  (`_parse_ping_output`) and the "down" record (`_error_result`). The reply-row
  regular expression is a list of character-class tokens followed by `ms`. It
  is matched line by line. `IsMatch` is the pattern as a relation and
  `MatchLine` is the greedy scanner. The scanner is proved sound (its
  postcondition) and complete (`MatchLineComplete`), so the decoder returns
  the fields of the first matching line.
- `prober.dfy` (module `Prober`): `ping_target`. It borrows a session,
  executes the command, gives the session back and decodes the stripped stdout.
  When no session can be had, the result is the error record.
- `stress.dfy` (module `Stress`): the load-test client's `percentile`, the
  summary partition of the results, the retry loop of `probe_once` (the HTTP
  exchanges are given as a sequence of outcomes), and how the target list is
  chosen.
- `pystr.dfy` (module `PyStr`): the Python string facilities used:
  - `str.strip()`;
  - the `\s` and `\d` classes (all of Python's whitespace; ASCII digits only);
  - line splitting for `re.MULTILINE`;
  - `int()` of digits;
  - `s[:n]`.
- `wrappers.dfy`: `Option` and `Result`.

## Model

| member | source | states |
|---|---|---|
| SshPool.Connection.constructor | main.py:26-31 | stores host, user and password, then connects at once: `ssh` is a client for that host and user exactly when connecting succeeded |
| SshPool.Connection.Connect | main.py:33-41 | replaces `ssh` by a new client, or by none when connecting raises; after a failed connect the session is inactive whatever the transport says |
| SshPool.Connection.IsActive | main.py:43-44 | active exactly when there is a client and its transport reports itself alive; the transport's report is an oracle argument |
| SshPool.Connection.ExecCommand | main.py:46-51 | an active session is kept; an inactive one reconnects first; the command runs on the router exactly when a client exists afterwards, and otherwise `ConnectionError` is raised |
| SshPool.Pool.constructor | main.py:54-58 | the queue holds `max_connections` fresh connections, the i-th connected exactly when its connect succeeded, all with the configured account; nothing is lent |
| SshPool.Pool.CreateConnection | main.py:60-61 | a fresh connection for the configured router and account |
| SshPool.Pool.Acquire | main.py:64-70 | takes the queue's head; an active head is lent as is, an inactive one is replaced by a fresh connection; idle plus lent stays the capacity and no connection is in two places |
| SshPool.Pool.Release | main.py:71-72 | puts the lent connection at the queue's tail; there is always room, so the put never blocks; the capacity invariant, with no connection in two places, is kept |
| Prober.PingCommand | main.py:98 | the command is `/ping `, the target, then ` count=1`, and nothing else |
| Prober.PingProber.LeaseAndExec | main.py:103-104 | the queue's head is lent (or a fresh replacement when inactive) and runs the command; its session afterwards is the kept one when active for `exec_command`, else the reconnection's result; the command's output is returned exactly when a session exists; no other idle connection changes |
| Prober.PingProber.PingTarget | main.py:96-114 | exactly one connection returns to the pool's tail: the one taken if it was active, a fresh one otherwise, holding the session `exec_command` left it with; the other idle connections keep their order and their sessions; the result is the error record when no session can be had, else the decoding of the stripped stdout of `/ping <ip> count=1` |
| PingParser.MatchLine | main.py:117 | every match the scanner reports is a decomposition of the line along the reply-row pattern followed by `ms` |
| PingParser.MatchLineComplete | main.py:117 | every decomposition of a line along the pattern is the one the scanner reports, so the regex's capture groups are unique |
| PingParser.MatchLineIff | main.py:117 | the scanner finds a match exactly when the pattern matches the line |
| PingParser.MatchTokensComplete | main.py:117 | for a token list whose neighbouring classes are disjoint, the greedy scan finds the decomposition; backtracking cannot give another one |
| PingParser.FirstMatchIndexIff | main.py:117 | the scan over the lines stops at a line exactly when some line matches (`re.search` under `re.MULTILINE`) |
| PingParser.ParseFirstMatchingLine | main.py:116-133 | when line i is the first matching line: up is 1; size and ttl are `int` of the first and second groups; rtt in seconds times 1000 is the third group; the duration is passed through |
| PingParser.ParseUnmatched | main.py:124-133 | output where no line matches gives rtt, up, ttl and size 0 with the given duration, which is the error record |
| PingParser.ParseUpIff | main.py:119-125 | the result is up exactly when some line of the output matches |
| PingParser.ParsePingOutput | main.py:116-133 | the duration is passed through and up is 0 or 1 |
| PingParser.ErrorResult | main.py:135-136 | the error record is down and carries the given duration |
| PyStr.StripIsInfix | main.py:105 | `strip()` removes only whitespace: the result is an infix with whitespace alone before and after it |
| PyStr.StripIdempotent | stress.py:120 | stripping a stripped string changes nothing |
| PyStr.StripEmptyIff | stress.py:120 | a line strips to the empty string exactly when it is all whitespace |
| PyStr.LinesRoundTrip | main.py:117 | splitting the output into the lines that `^` anchors to loses nothing: joining them with newlines gives it back |
| PyStr.LinesHaveNoNewline | main.py:117 | no line of the split holds a newline |
| Stress.PercentileOfEmpty | stress.py:28-29 | an empty list has percentile 0.0 |
| Stress.PercentileInterpolates | stress.py:30-37 | below the end, the result is the mean of the neighbours of rank `k`, weighted by `c - k` and `k - f`; the weights lie in [0, 1] and sum to 1 |
| Stress.PercentileAtTop | stress.py:33-34 | with p at least 100, or a single element, the result is the last element |
| Stress.PercentileAtZero | stress.py:30-37 | the 0th percentile is the first element |
| Stress.PercentileBetweenNeighbours | stress.py:35-37 | for sorted input the interpolated value lies between its two neighbours |
| Stress.PercentileWithinRange | stress.py:27-37 | for sorted input the result lies between the minimum and the maximum |
| Stress.PercentileMonotonic | stress.py:27-37 | for sorted input a larger p never gives a smaller percentile (so P50 <= P90 <= P99) |
| Stress.LatenciesOfConcat | stress.py:79 | the latency list keeps result order: it is computed element by element over a concatenation |
| Stress.FailuresOfConcat | stress.py:80 | the failure list keeps result order in the same way |
| Stress.PartitionSizes | stress.py:79-80 | every result is a latency or a failure, never both |
| Stress.FailuresUnsuccessful | stress.py:80 | every failure is an unsuccessful result |
| Stress.FailuresSubMultiset | stress.py:80 | the failures are taken from the results, none more often than it occurs |
| Stress.FailuresComplete | stress.py:80 | every unsuccessful result is among the failures, as often as it occurs among the results |
| Stress.SummaryCounts | stress.py:79-81 | the success count plus the failures is the number of results; the success count is the number of latencies; the failures are exactly the unsuccessful results, each as often as it occurs |
| Stress.OneResult | stress.py:79-80 | a successful result contributes its elapsed time, a failed one itself |
| Stress.FromResponse | stress.py:49-52 | success exactly for a status in [200, 400); status and elapsed are kept; the error text is empty on success, else the first 200 characters of the body |
| Stress.ProbeOnce | stress.py:43-62 | attempts stop at the first response, at most `retries + 1` of them; that response's tuple is returned, or after the last failed attempt `(False, elapsed, 0, err)`; with `retries < 0` nothing is sent and the result is `None` |
| Stress.KeptIsStripped | stress.py:120 | a kept line is non-empty and already stripped |
| Stress.StripNonEmptyLength | stress.py:120 | there are no more targets than lines |
| Stress.StripNonEmptyKept | stress.py:120 | every loaded target is non-empty and already stripped |
| Stress.StripNonEmptyOfConcat | stress.py:120 | the loader keeps file order: it is computed line by line over a concatenation |
| Stress.StripNonEmptyOneLine | stress.py:120 | a line becomes a target, stripped, exactly when it is not all whitespace |
| Stress.LoadTargetsFromFile | stress.py:114-124 | a missing file and a file without targets are the two exits with status 1; otherwise the non-empty list of stripped non-blank lines |
| Stress.LoadedTargetsStripped | stress.py:119-124 | a successful load yields only non-empty, stripped targets |
| Stress.DefaultTargets | stress.py:132 | `concurrency` copies of the base target, none for a negative count |
| Stress.SelectTargets | stress.py:129-132 | a non-empty `--targets-file` means the file's targets; otherwise the base target repeated |

## Left out

- The SSH transport (`paramiko`), the router and the clock are inputs:
  - connect success, transport liveness at each `is_active`, the shell's reply and the elapsed time are parameters;
  - host keys, timeouts and authentication are not modelled.
- `exec_command`'s channel streams are a drained `Reply`. The `decode()` of stdout and stderr is not modelled (strings stand for decoded text). So is the printing of stderr, which only goes to the log.
- Exceptions other than `ConnectionError` escape `ping_target` unchanged in the source: `paramiko.SSHException`, decoding errors and others. They are not modelled.
- `resolve_target_ip` (DNS with an `lru_cache`), the HTTP handler, the Prometheus gauges, `config.yml` loading and the server's threads are outside this model.
- `encrypt_pass.py` is not part of this model.
- SshPool.Pool.Acquire: the blocking `queue.get` becomes the precondition that an idle connection exists. Concurrent borrowers and waiting are not modelled.
- SshPool.Pool.constructor: `max_connections` is taken as a `nat`. A zero or negative capacity, where `queue.Queue` would be unbounded, is not modelled.
- PingParser.MatchLine: the regex is matched within one line. In the source, `\s` also matches a newline, so a match could run across lines; reply rows never span lines. Only the ASCII digits are modelled for `\d` and for `int()`; Python also accepts other Unicode decimal digits there. Whitespace, for both `\s` and `strip()`, is Python's full set.
- PingParser.ParsePingOutput: `float(...) / 1000.0` is exact real division, not IEEE floating point. For a non-match the source's integer `0` for `rtt_sec` is `0.0`.
- Stress.Percentile: requires `p >= 0`. A negative `p` would make `int(k)` truncate a negative rank and index from the end of the list, or raise `IndexError`; that path is not modelled. The client only asks for 50, 90 and 99.
- Stress.ProbeOnce: `attempts` must describe at least `retries + 1` exchanges. The exponential back-off sleep with random jitter between attempts, `time.monotonic()` and the `aiohttp` session are not modelled.
- `run_stress_test`'s concurrent fan-out with `asyncio.gather`, `statistics.mean`, the sorting of latencies, the printed report and `parse_args` are not modelled. Only the summary partition, the success count and `percentile` are.
- Stress.LoadTargetsFromFile: the file is the sequence of lines its iterator yields, and `None` when the path does not exist. Opening, UTF-8 decoding and newline translation are not modelled. `sys.exit(1)` is returned as a `LoadError`.
