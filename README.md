# networkscan: a verified model of the scanning core

`Networkscan` pings every host of an IPv4 network. It can also resolve each live host's MAC address, its hostname and its vendor. This project models the deterministic core of the class:

- **Network sizing and targets** (`network.dfy`, module `Network`). A network is its network address plus its prefix length. It has 2^(32-prefix) addresses. `nbr_host` is that count minus the network and broadcast addresses, and none are removed when the network has two addresses or fewer. `Hosts` is `ipaddress`'s `hosts()`: every address strictly between the network and broadcast addresses, or both addresses of a /31. `Targets` is the list `run` probes. For a one-address network it is the network address itself.
- **Transcript classifiers** (`transcript.dfy`, module `Transcript`). These are the liveness test `"ttl=" in str(stdout_ping).lower()`, the ASCII decoding of the ARP output, the MAC search with the pattern ` (?:[0-9a-fA-F][:-]?){12}` and its normalisation, and the POSIX hostname token `^[\w-]+`. Each regular expression is written out as a matcher. Lemmas tie each matcher to the language of its pattern and to the match Python's `re.findall` lists first.
- **The per-host rule and the scan** (`scanner.dfy`, module `Scanner`). `HostStep` says what one `ping_coroutine` appends or raises. `Scan` runs the hosts in target order. The class `Networkscan` has the fields `network`, `nbr_host` (`nbrHost`) and `list_of_hosts_found` (`listOfHostsFound`). Its constructor computes `nbrHost` in place. `PingCoroutine` appends to the list, and `Run` resets the list and loops over the targets. Like `run`, it checks MACs by default and vendors only on request.
- `text.dfy` (module `Text`) holds the Python string operations used above: `lower`, `upper`, `replace`, `strip` and `in`. `wrappers.dfy` holds `Option` and `Result`.

The outside world is one `Environment` value that answers four questions:

- the ping transcript of an address;
- the raw bytes `arp -a` prints for it;
- `socket.getfqdn` of it;
- the vendor lookup of a MAC, which gives `None` when the lookup raises.

Each coroutine appends at most one record, and asyncio performs each append atomically. So processing the hosts one after another, in target order, is one admissible order of completion. The record order in the model is that order. The source promises no order, so the order-free lemmas matter: which records there are, that no host appears twice, and that there are at most `nbr_host` records.

`Run`'s postcondition does not mention the list's previous contents, so two scans of the same network against the same environment leave the same list.

Three behaviours of the code the model keeps:

- With MAC checking on and vendor checking off, a record still has a `vendor` key, set to `None` (networkscan.py:65, 71-76). In the model that is `WithMac(..., vendor := None, ...)`.
- A record made with a MAC always has a hostname string. The hostname coroutine returns a string or raises, and never returns `None` (networkscan.py:96, 100-108).
- On POSIX, when the ARP text has no leading `[\w-]` token, `hostname` is never bound. The coroutine then raises `UnboundLocalError`, and `run` re-raises it through `asyncio.run`. The model makes this an explicit `Failure` (`HostnameUnbound`) and invents no hostname. A failed vendor lookup and a non-ASCII ARP output are handled the same way. A scan that meets such a failure stops and reports it, keeping the records gathered so far. It does not always complete.

## Model

| member | source | states |
|---|---|---|
| `Text.Lower` | networkscan.py:62 | `lower()` leaves no upper-case letter, keeps every other character, and turns each upper-case letter into the lower-case letter that upper-cases back to it |
| `Text.Upper` | networkscan.py:95 | `upper()` leaves no lower-case letter, keeps every other character, and turns each lower-case letter into the upper-case letter that lower-cases back to it |
| `Text.ReplaceChar` | networkscan.py:95 | after `replace('-', ':')` no `-` is left; every `-` became `:` and every other character is kept |
| `Text.StripLeft` | networkscan.py:95 | the result is a suffix that starts with non-whitespace, and everything dropped is whitespace |
| `Text.StripRight` | networkscan.py:95 | the result is a prefix that ends with non-whitespace, and everything dropped is whitespace |
| `Text.ContainsOccurs` | networkscan.py:62 | the `in` test holds iff the pattern occurs at some index |
| `Network.AddressCount` | networkscan.py:32 | `num_addresses` lies in 1..2^32, and it times 2^prefix is 2^32 |
| `Network.BlockFits` | networkscan.py:26 | an aligned network lies wholly inside the 32-bit address space |
| `Network.Broadcast` | networkscan.py:26 | the broadcast address lies between the network address and the top of the 32-bit space |
| `Network.Hosts` | networkscan.py:140 | `hosts()` is ascending; a /31 yields both addresses, and otherwise exactly the addresses strictly between network and broadcast |
| `Network.UsableHosts` | networkscan.py:32-36 | `nbr_host` is `num_addresses - 2` above two addresses and `num_addresses` otherwise, so 1 <= `nbr_host` <= `num_addresses` |
| `Network.Range` | networkscan.py:140 | `range(lo, hi)` is ascending, has `hi - lo` elements, and contains exactly lo..hi-1 |
| `Network.Targets` | networkscan.py:140-142 | the targets number exactly `nbr_host` and are strictly ascending; they are exactly the addresses strictly inside the network (or all of it for /31 and /32), and a one-address network yields its own address |
| `Network.SlashThirtyTargets` | networkscan.py:140-142 | 10.0.0.0/30 is scanned as 10.0.0.1 and 10.0.0.2 |
| `Network.SlashThirtyOneTargets` | networkscan.py:34 | 10.0.0.4/31 is scanned as both of its addresses |
| `Network.SlashThirtyTwoTargets` | networkscan.py:141-142 | 10.0.0.5/32 is scanned as 10.0.0.5 alone |
| `Transcript.AliveIffTtl` | networkscan.py:62 | a host is alive iff "ttl=" in any capitalisation occurs in its transcript |
| `Transcript.DecodeAscii` | networkscan.py:88 | `decode('ascii')` fails iff some byte is above 127; otherwise it gives ASCII text that encodes back to the same bytes |
| `Transcript.AsciiRoundTrip` | networkscan.py:88 | decoding the ASCII encoding of ASCII text gives the text back |
| `Transcript.MatchGroups` | networkscan.py:89-90 | the greedy matcher's end lies between its start and the end of the text |
| `Transcript.MatchGroupsSound` | networkscan.py:89-90 | what the greedy matcher accepts is in the language of `(?:[0-9a-fA-F][:-]?){k}` |
| `Transcript.MatchGroupsLongest` | networkscan.py:89-90 | if the language has a word at a position, the greedy matcher succeeds there and returns the longest such word |
| `Transcript.FindMac` | networkscan.py:89-90 | a reported match lies within the text and is not empty |
| `Transcript.FindMacLeftmost` | networkscan.py:89-90 | the search finds nothing iff no match starts at or after its start index; otherwise it finds the leftmost-longest match |
| `Transcript.Canon` | networkscan.py:95 | every `-` becomes `:`, every lower-case letter becomes the upper-case letter that lower-cases back to it, and every other character is kept |
| `Transcript.CanonGroups` | networkscan.py:95 | normalising a word of the pattern's language gives a word of `(?:[0-9A-F]:?){k}` |
| `Transcript.NormaliseMatch` | networkscan.py:95 | `replace`/`upper`/`strip` of a match drops exactly its leading space and normalises every other character |
| `Transcript.MacIsFirstMatch` | networkscan.py:89-95 | there is no MAC iff the pattern matches nowhere; otherwise the MAC is the normalised text of the leftmost-longest match, after its space |
| `Transcript.NormalGroupsShape` | networkscan.py:95 | a normalised word of `k` groups has exactly `k` hex digits, all upper case; its other characters are `:` and it starts with a digit |
| `Transcript.MacWellFormed` | networkscan.py:89-95 | a found MAC has exactly 12 upper-case hex digits and 12 to 24 characters; every other character is `:`, there is no `-`, and there is no whitespace at either end |
| `Transcript.TokenEnd` | networkscan.py:104-105 | it returns the end of the maximal run of `[\w-]` characters starting at the given index |
| `Transcript.PosixHostname` | networkscan.py:104-107 | there is no token iff the text is empty or starts with a character outside `[\w-]`; otherwise the token is the maximal non-empty `[\w-]` prefix of the whole text |
| `Scanner.HostnameOf` | networkscan.py:100-108 | Windows gives the FQDN. POSIX gives exactly the `^[\w-]+` token of the ARP text, which exists iff the text starts with `[\w-]`, and raises the unbound-hostname failure otherwise |
| `Scanner.MacAndHostname` | networkscan.py:80-98 | it raises iff the ARP output is not ASCII or a MAC was found and the hostname lookup raises, with that exception; without a MAC both results are None and no hostname lookup happens; otherwise the MAC returned is exactly the ARP text's first match, normalised, and the hostname is the lookup's result |
| `Scanner.HostStep` | networkscan.py:61-78 | a dead host appends nothing; without MAC checking an alive host gives exactly `{'ip': ip}`. With MAC checking, non-ASCII ARP output, a missing POSIX token after a MAC, and a failed vendor lookup each raise their own exception, and these are the only ways to raise. Otherwise no MAC gives nothing, and a MAC gives a record with that MAC, the platform's hostname, and a vendor iff vendor checking is on |
| `Scanner.ScanStopsAtFailure` | networkscan.py:121-124 | once a host has raised, the remaining hosts change neither the records nor the failure |
| `Scanner.ScanRecordsFromHosts` | networkscan.py:145-148 | every record of a scan is the record its own host makes, its ip is a scanned host, and there are no more records than hosts |
| `Scanner.ScanRecordsAscending` | networkscan.py:140-148 | with ascending targets no host is recorded twice, and in the sequential rendering the records come in target order |
| `Scanner.ScanRaises` | networkscan.py:121-124 | a scan raises iff some host raises, and then with the exception of one of those hosts |
| `Scanner.ScanKeepsRecord` | networkscan.py:145-148 | a scan that does not raise still holds the record made by the host at any given position |
| `Scanner.ScanComplete` | networkscan.py:145-148 | a scan that does not raise holds the record of every host that makes one |
| `Scanner.ScanWithoutMac` | networkscan.py:62-78 | with MAC checking off a scan never raises, and it finds exactly `{'ip': h}` for each host whose transcript shows a reply |
| `Scanner.ScanFindsTargets` | networkscan.py:140-148 | a network's scan records only its targets, with none recorded twice and at most `nbr_host` records |
| `Scanner.SlashThirtySingleReply` | networkscan.py:140-148 | on 10.0.0.0/30 with only 10.0.0.1 replying, a scan without MAC checking finds exactly `{'ip': 10.0.0.1}` |
| `Scanner.Networkscan.constructor` | networkscan.py:16-36 | the list starts empty and `nbr_host` is computed in place with `-= 2`; it equals the number of targets a scan probes |
| `Scanner.Networkscan.PingCoroutine` | networkscan.py:38-78 | appends exactly the host's record, or nothing, or reports the exception and leaves the list unchanged |
| `Scanner.Networkscan.Run` | networkscan.py:126-157 | with `run`'s defaults (MAC checking on, vendor checking off), the list is reset and then holds exactly the records of this scan of the targets; it stops at the first exception |

## Left out

- Running `ping` and `arp` in subprocesses (networkscan.py:44-59, 81-87). These are OS I/O, so the `Environment` supplies their output. The ping transcript is taken as the rendered text `str(stdout_ping)`. That text is the repr of a tuple of bytes, so it is ASCII, and ASCII case mapping is exact for it.
- The asyncio machinery: `run_coroutins`, `as_completed`, the task lists `my_tasks`/`my_list_of_tasks` and the event-loop policy (networkscan.py:110-124, 131-138, 150-157). The hosts are processed in target order, which is one admissible completion order. The model does not show other interleavings, or records appended by other hosts still running when an exception ends the scan.
- `AsyncMacLookup().lookup` and `socket.getfqdn` (networkscan.py:70, 102). These are foreign network/DNS calls, so the `Environment` answers them.
- IPv6 networks. `ipaddress.ip_network` (networkscan.py:26) also accepts them, with 2^(128-prefix) addresses. The 32-bit `Block` covers IPv4 only.
- Parsing the "address/prefix" text with `ipaddress.ip_network`, and `sys.exit` on failure (networkscan.py:24-29). The constructor takes the parsed network and requires it to be aligned, which is what strict parsing guarantees.
- `Network.Hosts`: for a /32 it uses the generic `range(network + 1, broadcast)`, which is empty. Python versions differ on this case, and `run` overrides it for one-address networks, so the scan targets do not depend on it.
- `str(host)` dotted-quad rendering (networkscan.py:148). Records and oracles use the numeric address instead.
- Platform detection (networkscan.py:22). The platform is a constructor argument, Windows or anything else.
- The `__main__` printing block (networkscan.py:161-180).
