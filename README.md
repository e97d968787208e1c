# Network connection report: the record-building and filter pass

This project models the core of a small network-monitoring script: the
function `get_network_connections`. It takes a snapshot of the host's
internet sockets and turns each entry into a four-column row:

- protocol: `TCP` for a stream socket, `UDP` for a datagram socket, `Other` for anything else;
- local address: `ip:port`, or the empty text when absent;
- remote address: same format as the local address;
- status: copied unchanged.

Three checks then reject rows, in this order:

1. active-only: when `show_only_active` is set, the status must be `ESTABLISHED`;
2. IP: the IP text must occur as a substring of the local or the remote address field;
3. port: the port's decimal text must occur as a substring of the local or the remote address field.

Rows that pass all three are appended to the result in snapshot order.

The model keeps two quirks of the source on purpose:

- The port check is a substring test on the whole `ip:port` text. A filter port of 80
  therefore accepts `10.0.0.1:8080`, and it would also accept `10.0.0.80:22`.
- Python truthiness switches filters off. A `filter_ip` of `None` or `""` disables the
  IP check. A `filter_port` of `None` or `0` disables the port check.

Files:

- `builtins.dfy` (module `Builtins`): the two Python built-ins the filter uses.
  - `str(n)` on an integer is `Decimal`. Its inverse `ParseDecimal` comes with a round-trip lemma, and `DecimalUnique` shows `str(n)` is the only canonical text for `n`.
  - `sub in s` on strings is `Contains`. It is proved equivalent to the declarative
    predicate `Occurs` ("`sub` sits at some index of `s`").
- `sitetest.dfy` (module `SiteTest`):
  - the raw socket record `RawConn` and the output `Row`;
  - the filter arguments `FilterConfig`;
  - protocol classification and address formatting;
  - the three checks, stated as the ghost predicate `Admits`;
  - the ghost specification `FilterRows` / `Report`, and the lemmas about it;
  - the method `GetNetworkConnections`. It keeps the Python `for` loop with its
    early `continue`s and its accumulator, and is proved equal to `Report`.

The operating-system call `psutil.net_connections(kind='inet')` becomes the
method's input sequence `connections`. Socket kinds are integer codes with
`SOCK_STREAM = 1` and `SOCK_DGRAM = 2`, the values Linux uses. An address that
the operating system leaves empty (psutil's empty tuple, which is falsy) is
`None`. Ports are unbounded integers, so `Decimal` also covers negative
values, with a leading `-` as Python's `str` writes it.

## Model

| member | source | states |
|---|---|---|
| `Builtins.Decimal` | sitetest.py:23 | `str(n)` starts with `-` exactly when `n` is negative; after that optional sign come one or more digits, with no leading zero unless `n` is 0; the text is canonical and never contains `:` |
| `Builtins.DecimalUnique` | sitetest.py:23 | any canonical text that reads back as `n` is `str(n)` itself, so `str(80)` is `80` and never `080` |
| `Builtins.Digits` | sitetest.py:12-13 | the decimal digits of a port are at least one digit, all digits, with no leading zero unless the number is 0 |
| `Builtins.DecimalRoundTrip` | sitetest.py:23 | `str(n)` read back as a decimal number gives `n` again |
| `Builtins.DecimalInjective` | sitetest.py:23 | two integers with the same decimal text are equal |
| `Builtins.Contains` | sitetest.py:20 | Python's `sub in s` holds exactly when `sub` occurs at some index of `s` (both directions) |
| `SiteTest.Protocol` | sitetest.py:15 | the protocol is `TCP` iff the type is stream, `UDP` iff it is datagram, `Other` iff it is neither |
| `SiteTest.FormatAddr` | sitetest.py:12-13 | an address field is empty exactly when the address is absent |
| `SiteTest.FormatAddrRoundTrip` | sitetest.py:12-13 | the `ip:port` text determines the address: splitting at the last `:` and reading the port back recovers it, and the empty text recovers "absent" |
| `SiteTest.RowsAppend` | sitetest.py:11-15 | rows are built record by record: the rows of two joined snapshots are the two row lists joined |
| `SiteTest.ReportAppend` | sitetest.py:11-28 | records are judged one at a time: the report over two joined snapshots is the two reports joined, with nothing merged, dropped or reordered |
| `SiteTest.Survivors` | sitetest.py:11-26 | the positions of the kept rows are strictly increasing and in range; a position is among them exactly when its row passes every switched-on check |
| `SiteTest.FilterSelectsSurvivors` | sitetest.py:11-28 | the output is exactly the rows at those positions, in that order: an order-preserving subsequence of the input rows |
| `SiteTest.FilterShrinks` | sitetest.py:11-28 | the output is never longer than the input |
| `SiteTest.FilterSound` | sitetest.py:17-26 | every output row passes every switched-on check and is one of the input rows |
| `SiteTest.FilterComplete` | sitetest.py:17-26 | every input row that passes the switched-on checks appears in the output |
| `SiteTest.FilterOne` | sitetest.py:17-26 | a single record yields `[row]` when it passes every switched-on check, `[]` otherwise |
| `SiteTest.FilterOffKeepsAll` | sitetest.py:17-26 | with the active flag false, the IP empty or absent and the port 0 or absent, every row is kept unchanged |
| `SiteTest.IpFilterOffIsNoOp` | sitetest.py:20 | an IP filter of `None` or `""` produces the same output as no IP filter |
| `SiteTest.PortFilterOffIsNoOp` | sitetest.py:23 | a port filter of `None` or `0` produces the same output as no port filter |
| `SiteTest.FilterStagesCompose` | sitetest.py:17-24 | running the active-only, IP and port checks as three successive passes, in that order, gives the combined filter's output |
| `SiteTest.GetNetworkConnections` | sitetest.py:7-28 | the loop returns exactly the specified report of the snapshot; the result is no longer than the snapshot; every result row passes every switched-on check |
| `SiteTest.ActiveOnlyKeepsEstablished` | sitetest.py:17-18 | with `show_only_active`, every output row has status `ESTABLISHED`, and a record with any other status (a UDP entry with empty status, for one) is never in the output |
| `SiteTest.IpFilterKeepsMatches` | sitetest.py:20-21 | with a non-empty IP text, every output row has it in its local or its remote address |
| `SiteTest.PortFilterKeepsMatches` | sitetest.py:23-24 | with a non-zero port, every output row has its decimal text in its local or its remote address |
| `SiteTest.ReportCharacterised` | sitetest.py:11-28 | with no filter switched on, the output is every record's row in order; a record's row is in the output exactly when it passes every switched-on check; every output row is the row of some record |
| `SiteTest.PortMatchIsSubstring` | sitetest.py:23-24 | port filter 80 keeps a record whose local address is `10.0.0.1:8080` |
| `SiteTest.ActiveOnlyScenario` | sitetest.py:11-26 | active-only over an established TCP entry and a UDP entry with empty status keeps only the TCP row |
| `SiteTest.IpScenario` | sitetest.py:20-21 | IP filter `192.168` keeps a record with local address `192.168.1.5:22` and no remote address, whatever its status |

## Left out

- `psutil.net_connections(kind='inet')` (sitetest.py:8) enumerates the operating system's sockets. It is replaced by the input sequence of raw records. If the enumeration fails, the exception propagates; that path is not modelled.
- `print_connections_table` and `log_connections_to_file` (sitetest.py:30-37) are not modelled. They format tables through the external `tabulate` library and append to `network_log.txt`, which is file I/O.
- Argument parsing with `argparse` (sitetest.py:40-47) is not modelled. The three filter arguments are parameters of the method, with the same defaults as the Python function (`None`, `None`, `False`).
- The repeat loop with `time.sleep` and the `KeyboardInterrupt` handler (sitetest.py:49-67) are not modelled. They depend on a clock and on signals.
- The concrete value of `conn.status` comes from psutil and is taken as given. psutil reports `NONE` rather than the empty text for UDP sockets. Both values fail the active-only check, and `ActiveOnlyKeepsEstablished` covers any status other than `ESTABLISHED`.
- Python's dynamic typing is not modelled. `filter_ip` is an optional string and `filter_port` an optional integer, as the command line supplies them.
