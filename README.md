# Host and port monitor — a Dafny model

`monitor.py` reads a list of hosts from `config.json` and keeps the enabled ones. For each host with an ip it runs `ping` once (or, with no `ping` command, tries port 80) and decides from the printed text whether the host answered and with what latency. For a host with declared ports, it then tries a TCP connection to each port, but only while the host is up. Every observation is appended as a row to the CSV log `data/status.csv`. The header row is written when that file is first created.

This project models the three pieces of that program that make decisions:

- **The ping-output interpreter** (`Ping`, built on the Python string operations in `PyStr`). The text printed by `ping` becomes `(alive, latency)`. The host is alive exactly when `ttl=` appears in any letter case. The latency is read after `time=` or, failing that, after `tempo=` (the Portuguese output).
- **The row-derivation policy of `main`** (`Monitor`). It covers the `enabled` filter, skipping hosts without an ip, the single `ONLINE`/`OFFLINE` row of a host without ports, and one `ABERTA`/`FECHADA`/`HOST_INDISPONÍVEL` row per declared port. `main`'s loop over the hosts is `Monitor.Run`, its body `Monitor.RecordHost`, and its inner loop over the ports `Monitor.RecordPorts`. Each is proved to append exactly the rows given by the specification functions `RunRows`, `HostRows` and `PortLines`, and to return the `check_port` calls it made.
- **The append-only log** (`CsvLog`). `LogFile` is a class whose field `lines` is `None` while the file does not exist. `WriteRow` is `write_log_row`.

The outside world is passed in as a value of type `Monitor.Network`, which has three parts:

- `ping`: the outcome of running `ping` for the k-th enabled host. This is either its combined output text or a failure (timeout, spawn error).
- `portOpen`: the result of `check_port` for the j-th port of that host.
- `clock`: the formatted timestamp of each row.

A row is a sequence of cells. Each cell is a text, or an integer in the port column.

Behaviours of the code that the model keeps as written:

- `lower.split("time=")[1]` is the text between the first and the second `time=`, not everything after the first one. So a second `time=` before the next `ms` cuts the latency short (`Ping.MeasuredBetweenMarkers`).
- The latency is whatever text lies between the marker and the next `ms`, stripped. It is not checked to be a number.
- A log file that exists but is empty gets no header, because `os.path.isfile` is true for it (`CsvLog.LogFile.WriteRow`).
- `enabled` is judged by Python truthiness. A string `"false"` therefore enables a host, and `0` or `""` disables it.
- The `except` handlers around the latency extraction (monitor.py:62-63, 68-69) can never run: once the marker is present, `split` yields at least two pieces (`PyStr.Split`).

## Model

| member | source | states |
|---|---|---|
| `PyStr.IndexFrom` | monitor.py:58 | the position found holds the pattern and no earlier position at or after the start does; no position is found exactly when the pattern does not occur there |
| `PyStr.Contains` | monitor.py:54 | Python's `pat in s` holds exactly when the pattern occurs at some position |
| `PyStr.Split` | monitor.py:60 | `s.split(sep)` gives at least one piece; the pieces joined with `sep` give back `s`; no piece contains `sep`; there is a single piece exactly when `sep` does not occur; with more than one piece, the first ends right where the first `sep` starts |
| `PyStr.TakeUntil` | monitor.py:60 | `split("ms")[0]` is a prefix of the text without `ms`; it is all of the text when `ms` does not occur, and otherwise it stops right where the first `ms` starts, as found by `IndexOf` |
| `PyStr.SplitFirst` | monitor.py:60 | the first piece of a split is the text before the first separator |
| `PyStr.IsSpace` | monitor.py:60 | definition of the characters `str.isspace()` accepts, which `strip()` removes; its properties are stated by `PyStr.StripLeft`, `PyStr.StripRight` and `PyStr.Strip` |
| `PyStr.StripLeft` | monitor.py:60 | the result is a suffix of the input; everything removed is whitespace; the result does not start with whitespace |
| `PyStr.StripRight` | monitor.py:60 | the result is a prefix of the input; everything removed is whitespace; the result does not end with whitespace |
| `PyStr.Strip` | monitor.py:60 | `strip()` gives a slice of the input with only whitespace cut off on both sides, and the slice neither starts nor ends with whitespace |
| `PyStr.LowerChar` | monitor.py:54 | definition of `lower()` on one character (ASCII and Latin-1 capitals); its properties are stated by `PyStr.LowerKeepsOccurrence` and `Ping.TtlSurvivesLower` |
| `PyStr.Lower` | monitor.py:56 | definition of `lower()` character by character; its properties are stated by `PyStr.LowerKeepsOccurrence` and `Ping.TtlSurvivesLower` |
| `PyStr.LowerKeepsOccurrence` | monitor.py:54-56 | `lower()` keeps every occurrence of an already lower-case pattern at its position |
| `Ping.TtlSurvivesLower` | monitor.py:54 | a `ttl=` in the raw output is also one in the lower-cased output, so the second test of line 54 never decides anything |
| `Ping.Measured` | monitor.py:60-61 | an extracted latency always ends in `ms`, so it is never the placeholder `-` |
| `Ping.Interpret` | monitor.py:54-73 | alive exactly when the lower-cased output contains `ttl=`; a host that is not alive has latency `-`; a latency other than `-` is reported exactly when the host is alive and `time=` or `tempo=` occurs, so a live host is never downgraded by a missing latency |
| `Ping.PingHost` | monitor.py:47-77 | a timeout or other failure of the `ping` run is unreachable with latency `-`; a completed run is alive exactly when its lower-cased output contains `ttl=` |
| `Ping.MeasuredBetweenMarkers` | monitor.py:60 | the latency is the stripped text after the first marker, up to the next occurrence of that marker or the end, and then up to its first `ms` |
| `Ping.TimeFieldFirst` | monitor.py:58-61 | with `ttl=` present, `time=` is tried first and the latency is read after its first occurrence, even when `tempo=` is present too |
| `Ping.TempoFieldSecond` | monitor.py:64-67 | with `ttl=` present and no `time=`, the latency is read after the first `tempo=` |
| `Ping.SingleTimeField` | monitor.py:56-61 | with a single `time=`, the latency is the stripped text between it and the next `ms` (or the end of the output), followed by `ms` |
| `Ping.SingleTempoField` | monitor.py:64-67 | with no `time=` and a single `tempo=`, the latency is the stripped text between it and the next `ms` (or the end of the output), followed by `ms` |
| `PingSamples.LinuxReply` | monitor.py:54-61 | the Linux reply `ttl=57 time=12.3 ms` is read as alive with latency `12.3ms` |
| `PingSamples.WindowsReply` | monitor.py:54-71 | the Windows reply `time<1ms TTL=128` is read as alive with latency `-`, because neither `time=` nor `tempo=` occurs |
| `PingSamples.PortugueseReply` | monitor.py:54-67 | the Portuguese Windows reply `bytes=32 tempo=4ms TTL=64` is read as alive with latency `4ms`, through the `tempo=` branch |
| `CsvLog.LogFile.WriteRow` | monitor.py:101-109 | the header is written first exactly when no file existed; existing content is kept and exactly one data row is appended |
| `CsvLog.Appended` | monitor.py:104-109 | definition of one `write_log_row` call on the log's content; its properties are stated by `CsvLog.LogFile.WriteRow`, `CsvLog.AppendAllToExisting` and `CsvLog.AppendAllToFresh` |
| `CsvLog.AppendAll` | monitor.py:104-109 | definition of a sequence of `write_log_row` calls; its properties are stated by `CsvLog.AppendAllToExisting`, `CsvLog.AppendAllToFresh`, `CsvLog.AppendAllConcat` and `CsvLog.HeaderOnce` |
| `CsvLog.AppendAllToExisting` | monitor.py:104-109 | any sequence of writes to an existing file leaves its content and adds the rows after it, in order, with no header |
| `CsvLog.AppendAllToFresh` | monitor.py:104-109 | writes to a missing file create it with the header followed by the rows; no write leaves it missing |
| `CsvLog.AppendAllConcat` | monitor.py:104-109 | two batches of calls have the same effect as one batch holding both |
| `CsvLog.HeaderOnce` | monitor.py:107-109 | after any non-empty sequence of calls on a fresh log, none of them the header row, the header is the first line and occurs exactly once |
| `Monitor.Truthy` | monitor.py:117 | definition of Python truthiness of a JSON value; its properties are stated by `Monitor.Enabled` and `Monitor.EnabledSingle` |
| `Monitor.IsEnabled` | monitor.py:117 | definition of `h.get("enabled", True)`, a missing key counting as enabled; its properties are stated by `Monitor.Enabled` and `Monitor.EnabledSingle` |
| `Monitor.NameOf` | monitor.py:124 | definition of `host.get("name", "unnamed")`; its properties are stated by `Monitor.NoPortsOneRow`, `Monitor.PortRows` and `Monitor.Web1` |
| `Monitor.PortsOf` | monitor.py:126 | definition of `host.get("ports", [])`; its properties are stated by `Monitor.NoPortsOneRow`, `Monitor.PortRows` and `Monitor.HostProbesMatchRows` |
| `Monitor.TypeOf` | monitor.py:127 | definition of `host.get("type", "unknown")`; its properties are stated by `Monitor.NoPortsOneRow`, `Monitor.PortRows` and `Monitor.Web1` |
| `Monitor.HasIp` | monitor.py:129 | definition of `if not ip`; its properties are stated by `Monitor.SkippedHost` |
| `Monitor.Enabled` | monitor.py:117 | the filter keeps exactly the hosts whose `enabled` is truthy or missing, and never adds a host |
| `Monitor.EnabledConcat` | monitor.py:117 | filtering two lists one after the other is filtering their concatenation, so the original order is kept |
| `Monitor.EnabledSingle` | monitor.py:117 | a single host is kept exactly when it is enabled |
| `Monitor.NoEnabledHost` | monitor.py:117-121 | with no enabled host (including an empty list) the run writes no row, makes no probe and leaves the log, or its absence, as it was |
| `Monitor.SkippedHost` | monitor.py:129-131 | a host with a missing or empty ip writes no row and makes no probe; the rows and probes of the run continue unchanged with the next host |
| `Monitor.Alive` | monitor.py:135 | definition of the `alive` half of `ping_host(ip)` for the k-th enabled host; its properties are stated by `Ping.PingHost`, `Monitor.NoPortsOneRow` and `Monitor.PortRows` |
| `Monitor.LatencyColumn` | monitor.py:148 | definition of `latency if alive else "-"` on a row without port; its properties are stated by `Monitor.NoPortsOneRow` and `Monitor.RowsAreObservations` |
| `Monitor.DataRow` | monitor.py:141-164 | definition of the seven-cell list handed to `write_log_row` at lines 141-149 and 156-164; its properties are stated by `Monitor.NoPortsOneRow`, `Monitor.PortRows` and `Monitor.RowsAreObservations` |
| `Monitor.PortStatus` | monitor.py:152-154 | `HOST_INDISPONÍVEL` exactly when the host is down; `ABERTA` exactly when it is up and the connection succeeded; `FECHADA` exactly when it is up and the connection failed |
| `Monitor.NoPortsOneRow` | monitor.py:139-149 | a host without ports gives exactly one row with port `-`, `ONLINE` exactly when alive and `OFFLINE` exactly when not, latency `-` when not alive, and no port probe |
| `Monitor.PortRows` | monitor.py:150-164 | a host with N ports gives exactly N rows in declaration order, duplicates kept; when down, every row is `HOST_INDISPONÍVEL` with latency `-` and no port is probed; when up, each port is probed in order and its row is `ABERTA` if the probe connected and `FECHADA` otherwise, with the ping latency |
| `Monitor.HostRows` | monitor.py:124-164 | definition of the rows one pass of the loop body writes; its properties are stated by `Monitor.SkippedHost`, `Monitor.NoPortsOneRow`, `Monitor.PortRows`, `Monitor.HostRowsAreObservations` and `Monitor.RecordHost` |
| `Monitor.PortLine` | monitor.py:151-164 | definition of the row written for one declared port; its properties are stated by `Monitor.PortStatus`, `Monitor.PortRows` and `Monitor.RecordPorts` |
| `Monitor.PortLines` | monitor.py:151-164 | definition of the rows the inner loop writes; its properties are stated by `Monitor.PortRows`, `Monitor.PortLinesProbes` and `Monitor.RecordPorts` |
| `Monitor.PortProbes` | monitor.py:150-154 | definition of the `check_port` calls of the inner loop; its properties are stated by `Monitor.PortLinesProbes` and `Monitor.RecordPorts` |
| `Monitor.HostProbes` | monitor.py:150-154 | definition of the `check_port` calls of one host; its properties are stated by `Monitor.HostProbesMatchRows` and `Monitor.RecordHost` |
| `Monitor.Rows` | monitor.py:123-164 | definition of every row the loop writes for the first n enabled hosts, in order; its properties are stated by `Monitor.SkippedHost`, `Monitor.RowsAreObservations` and `Monitor.Run` |
| `Monitor.RunRows` | monitor.py:117-164 | definition of every row one run writes; its properties are stated by `Monitor.NoEnabledHost`, `Monitor.Run`, `Monitor.RunOnFreshLog` and `Monitor.RunProbesMatchRows` |
| `Monitor.Probes` | monitor.py:123-164 | definition of every `check_port` call for the first n enabled hosts, in order; its properties are stated by `Monitor.SkippedHost` and `Monitor.Run` |
| `Monitor.RunProbes` | monitor.py:117-164 | definition of every `check_port` call of one run; its properties are stated by `Monitor.NoEnabledHost`, `Monitor.Run` and `Monitor.RunProbesMatchRows` |
| `Monitor.RecordHost` | monitor.py:124-164 | one pass of the loop body appends exactly the host's rows to the log, header rules included, and returns exactly the `check_port` calls made |
| `Monitor.RecordPorts` | monitor.py:151-164 | the inner loop appends one row per declared port, in declaration order and with each row's status and latency; it calls `check_port` for every port, in order, exactly when the host is up |
| `Monitor.HostRowsAreObservations` | monitor.py:139-164 | every row one host writes has the observation shape described under `RowsAreObservations` |
| `Monitor.PortLinesProbes` | monitor.py:151-154 | in the inner loop, the port probes are exactly the `ABERTA`/`FECHADA` rows, in order |
| `Monitor.Run` | monitor.py:114-164 | the whole loop appends exactly the rows of the enabled hosts, in order, and returns every `check_port` call made |
| `Monitor.RowsAreObservations` | monitor.py:139-164 | every row written has 7 columns and one of the five statuses; the port is `-` exactly on `ONLINE`/`OFFLINE` rows; a latency other than `-` appears only on rows of a host that answered; no row equals the header |
| `Monitor.RunOnFreshLog` | monitor.py:104-108 | a run on a missing log that writes anything leaves the header as the first line, occurring exactly once; a run that writes nothing creates no file |
| `Monitor.HostProbesMatchRows` | monitor.py:150-154 | a host's `check_port` calls are exactly its `ABERTA`/`FECHADA` rows, in order, so no connection is attempted for a `HOST_INDISPONÍVEL` row |
| `Monitor.RunProbesMatchRows` | monitor.py:123-164 | across a run, a connection is attempted for exactly the rows reporting `ABERTA` or `FECHADA`, to that row's ip and port, in log order |
| `Monitor.Web1` | monitor.py:150-164 | host `web1` at 10.0.0.5 with ports 80 and 443 gives `ABERTA` then `FECHADA` with the latency when up (80 accepting, 443 refusing), and two `HOST_INDISPONÍVEL` rows with latency `-` when down |

## Left out

- Running `ping` is not modelled: `which("ping")`, the `-n`/`-c` flag, the 5-second timeout and process spawning (monitor.py:26-28, 47-51, 74-77). Its combined output text, or its failure, is an input (`Ping.PingOutcome`).
- The fallback when no `ping` command exists (monitor.py:36-45) is not modelled, because it is network I/O. The code reports the host alive whenever `connect_ex` does not raise, whatever error code it returns, so a refused connection still counts as alive.
- The body of `check_port` (monitor.py:80-89) is network I/O. Its answer is the oracle `Network.portOpen`.
- `load_config`, JSON parsing and `sys.exit` (monitor.py:92-98) are file I/O and process control. The configuration is given as a list of `Monitor.Host`. A missing `hosts` key is the empty list.
- Only `enabled` keeps full JSON truthiness. The model takes `name`, `ip` and `type` as strings and `ports` as a list of integers. Other JSON values in those keys (null, numbers as ips, port strings) are not modelled.
- `datetime.now()` formatting (monitor.py:142, 157) is an input: the timestamp of each row comes from `Network.clock`.
- CSV quoting and escaping, UTF-8 encoding and `os.makedirs` (monitor.py:103-106) are library I/O. A row is a sequence of cells, not text.
- A failed write (disk full, permission denied) is not modelled: `WriteRow` always succeeds.
- Two processes appending to the same log at once are not modelled. The existence check and the header write are not atomic in the source.
- All console output (monitor.py:19, 120, 130, 133, 136, 155, 166) is left out.
- PyStr.Lower, PyStr.LowerChar: lower-case only the ASCII and Latin-1 capitals. Python's `str.lower()` also maps other Unicode letters, some of them to two characters. Those letters stay unchanged in the model.
- Monitor.Network: a ping result and a port result are keyed by the host's position in the enabled list and the port's position. So the model allows any answer for every call, but not a dependence on the time at which the call is made.
