/**
 * The scanner object of networkscan.py: its construction (the usable-host count,
 * networkscan.py:16-36), the per-host decision of `ping_coroutine` with the helpers it
 * awaits (networkscan.py:38-108), and `run`, which resets the result list and processes
 * every target (networkscan.py:126-157).
 *
 * Everything the code obtains from the operating system or the network is an answer of
 * an `Environment`. The coroutines of a scan each append at most one record and asyncio
 * performs each append atomically, so the scan is modelled as the hosts processed one
 * after another in target order, one admissible order of completion.
 */
module Scanner {
  import opened Wrappers
  import opened Network
  import opened Transcript

  /** Whether `platform.system().lower()` is "windows"; every other system takes the
      POSIX branches. */
  datatype Platform = Windows | Posix

  /** A dictionary appended to `list_of_hosts_found`: `{'ip': ip}`, or
      `{'ip', 'mac', 'vendor', 'hostname'}` once a MAC address was found. */
  datatype Record =
    | IpOnly(ip: nat)
    | WithMac(ip: nat, mac: string, vendor: Option<string>, hostname: string)

  /** The exceptions a host's coroutine can raise, which end `run` (asyncio.run re-raises). */
  datatype Failure =
    | ArpNotAscii(ip: nat)      // `decode('ascii')` meets a byte above 127
    | HostnameUnbound(ip: nat)  // POSIX branch: no `^[\w-]+` token, `hostname` never bound
    | VendorLookup(ip: nat)     // `AsyncMacLookup().lookup(mac)` raises

  /** The answers of the outside world, one per question the scanner asks. */
  datatype Environment = Environment(
    ping: nat -> string,              // `str()` of the (stdout, stderr) of `ping ... ip`
    arp: nat -> seq<byte>,            // stdout of `arp -a ip`
    fqdn: nat -> string,              // `socket.getfqdn(ip)`
    vendor: string -> Option<string>) // `AsyncMacLookup().lookup(mac)`, None when it raises

  /** `hostname_coroutine(ip, arp_out)`: the FQDN on Windows, the leading token of the ARP
      text elsewhere, and an error when that token is missing. */
  function HostnameOf(system: Platform, ip: nat, arpText: string, env: Environment)
    : (r: Result<string, Failure>)
    ensures system == Windows ==> r == Success(env.fqdn(ip))
    ensures system == Posix ==>
      (r.Success? <==> arpText != [] && IsTokenChar(arpText[0])) &&
      (r.Success? ==> 0 < |r.value| <= |arpText| && r.value == arpText[..|r.value|]) &&
      (r.Success? ==> PosixHostname(arpText) == Some(r.value)) &&
      (r.Failure? ==> r.error == HostnameUnbound(ip))
  {
    match system
    case Windows => Success(env.fqdn(ip))
    case Posix =>
      match PosixHostname(arpText)
      case None => Failure(HostnameUnbound(ip))
      case Some(h) => Success(h)
  }

  /** `mac_coroutine(ip)`: the normalised MAC and the hostname, both None when the ARP
      text holds no MAC; the hostname is looked up only once a MAC was found. */
  function MacAndHostname(system: Platform, ip: nat, env: Environment)
    : (r: Result<(Option<string>, Option<string>), Failure>)
    ensures DecodeAscii(env.arp(ip)).None? ==> r == Failure(ArpNotAscii(ip))
    ensures DecodeAscii(env.arp(ip)).Some? && MacOf(DecodeAscii(env.arp(ip)).value).None? ==>
              r == Success((None, None))
    ensures r.Success? ==> (r.value.0.Some? <==> r.value.1.Some?)
    ensures r.Success? ==>
              DecodeAscii(env.arp(ip)).Some? && r.value.0 == MacOf(DecodeAscii(env.arp(ip)).value)
    ensures r.Success? && r.value.0.Some? ==>
              DecodeAscii(env.arp(ip)).Some? && r.value.0 == MacOf(DecodeAscii(env.arp(ip)).value)
    ensures r.Success? && r.value.1.Some? ==>
              DecodeAscii(env.arp(ip)).Some? &&
              HostnameOf(system, ip, DecodeAscii(env.arp(ip)).value, env) == Success(r.value.1.value)
    ensures r.Failure? <==>
              var text := DecodeAscii(env.arp(ip));
              text.None? || (MacOf(text.value).Some? && HostnameOf(system, ip, text.value, env).Failure?)
    ensures r.Failure? && DecodeAscii(env.arp(ip)).Some? ==>
              HostnameOf(system, ip, DecodeAscii(env.arp(ip)).value, env) == Failure(r.error)
    ensures r.Failure? ==> r.error.ip == ip && (r.error.HostnameUnbound? ==> system == Posix)
  {
    match DecodeAscii(env.arp(ip))
    case None => Failure(ArpNotAscii(ip))
    case Some(text) =>
      match MacOf(text)
      case None => Success((None, None))
      case Some(mac) =>
        match HostnameOf(system, ip, text, env)
        case Failure(e) => Failure(e)
        case Success(h) => Success((Some(mac), Some(h)))
  }

  /** What `ping_coroutine(ip, checkmac, checkvendor)` appends, at most one record, or the
      exception it raises. */
  function HostStep(system: Platform, ip: nat, checkMac: bool, checkVendor: bool, env: Environment)
    : (r: Result<Option<Record>, Failure>)
    // a host whose transcript shows no reply appends nothing
    ensures !IsAlive(env.ping(ip)) ==> r == Success(None)
    // without MAC checking an alive host gives exactly {'ip': ip}
    ensures IsAlive(env.ping(ip)) && !checkMac ==> r == Success(Some(IpOnly(ip)))
    // only the MAC stage can raise: on undecodable ARP output, on a missing POSIX hostname
    // token once a MAC was found, or on a failed vendor lookup
    ensures r.Failure? <==>
      var text := DecodeAscii(env.arp(ip));
      IsAlive(env.ping(ip)) && checkMac &&
      (text.None? ||
       (MacOf(text.value).Some? &&
        ((system == Posix && PosixHostname(text.value).None?) ||
         (checkVendor && env.vendor(MacOf(text.value).value).None?))))
    // with MAC checking on, an alive host goes through the stages in order: each raises its
    // own exception, an ARP text without a MAC gives nothing, and a MAC gives a record
    ensures IsAlive(env.ping(ip)) && checkMac ==>
      var text := DecodeAscii(env.arp(ip));
      if text.None? then r == Failure(ArpNotAscii(ip))
      else if MacOf(text.value).None? then r == Success(None)
      else if system == Posix && PosixHostname(text.value).None? then r == Failure(HostnameUnbound(ip))
      else if checkVendor && env.vendor(MacOf(text.value).value).None? then r == Failure(VendorLookup(ip))
      else r.Success? && r.value.Some?
    // a record made with MAC checking carries the MAC found in the ARP text, the hostname
    // of the platform's resolver, and a vendor exactly when vendor checking is on
    ensures checkMac && r.Success? && r.value.Some? ==>
      var rec := r.value.value;
      var text := DecodeAscii(env.arp(ip));
      rec.WithMac? && rec.ip == ip && text.Some? && MacOf(text.value) == Some(rec.mac) &&
      (system == Windows ==> rec.hostname == env.fqdn(ip)) &&
      (system == Posix ==> PosixHostname(text.value) == Some(rec.hostname)) &&
      (rec.vendor.Some? <==> checkVendor) &&
      (checkVendor ==> rec.vendor == env.vendor(rec.mac))
  {
    if !IsAlive(env.ping(ip)) then Success(None)
    else if !checkMac then Success(Some(IpOnly(ip)))
    else
      match MacAndHostname(system, ip, env)
      case Failure(e) => Failure(e)
      case Success((None, _)) => Success(None)
      case Success((Some(mac), hostname)) =>
        if !checkVendor then Success(Some(WithMac(ip, mac, None, hostname.value)))
        else
          match env.vendor(mac)
          case None => Failure(VendorLookup(ip))
          case Some(v) => Success(Some(WithMac(ip, mac, Some(v), hostname.value)))
  }

  /** The outcome of a scan: the records appended, and the exception that ended it. */
  datatype ScanOutcome = ScanOutcome(found: seq<Record>, failure: Option<Failure>)

  /** One more host processed: a scan that already raised stays as it is; otherwise the
      host's record is appended, or its exception ends the scan. */
  function Extend(prev: ScanOutcome, step: Result<Option<Record>, Failure>): ScanOutcome {
    if prev.failure.Some? then prev
    else
      match step
      case Failure(e) => ScanOutcome(prev.found, Some(e))
      case Success(None) => prev
      case Success(Some(rec)) => ScanOutcome(prev.found + [rec], None)
  }

  /** The hosts processed in order: each appends its record, and the first exception stops
      the scan with the records gathered so far. */
  function Scan(system: Platform, hosts: seq<nat>, checkMac: bool, checkVendor: bool, env: Environment)
    : ScanOutcome
    decreases |hosts|
  {
    if hosts == [] then ScanOutcome([], None)
    else
      Extend(Scan(system, hosts[..|hosts| - 1], checkMac, checkVendor, env),
             HostStep(system, hosts[|hosts| - 1], checkMac, checkVendor, env))
  }

  lemma ScanPrefix(system: Platform, hosts: seq<nat>, i: nat, checkMac: bool, checkVendor: bool, env: Environment)
    requires i < |hosts|
    ensures Scan(system, hosts[..i + 1], checkMac, checkVendor, env) ==
            Extend(Scan(system, hosts[..i], checkMac, checkVendor, env),
                   HostStep(system, hosts[i], checkMac, checkVendor, env))
  {
    assert hosts[..i + 1][..i] == hosts[..i];
  }

  /** Once a prefix of the hosts has failed, the rest of the hosts change nothing. */
  lemma {:induction false} ScanStopsAtFailure(system: Platform, hosts: seq<nat>, n: nat,
                                              checkMac: bool, checkVendor: bool, env: Environment)
    requires n <= |hosts|
    requires Scan(system, hosts[..n], checkMac, checkVendor, env).failure.Some?
    ensures Scan(system, hosts, checkMac, checkVendor, env) == Scan(system, hosts[..n], checkMac, checkVendor, env)
    decreases |hosts| - n
  {
    if n < |hosts| {
      assert hosts[..n + 1][..n] == hosts[..n];
      ScanStopsAtFailure(system, hosts, n + 1, checkMac, checkVendor, env);
    } else {
      assert hosts[..n] == hosts;
    }
  }

  /** Every record of a scan is the record its own host's coroutine makes, and there are no
      more records than hosts. */
  lemma {:induction false} ScanRecordsFromHosts(system: Platform, hosts: seq<nat>,
                                                checkMac: bool, checkVendor: bool, env: Environment)
    ensures var out := Scan(system, hosts, checkMac, checkVendor, env);
      |out.found| <= |hosts| &&
      forall k :: 0 <= k < |out.found| ==>
        out.found[k].ip in hosts &&
        HostStep(system, out.found[k].ip, checkMac, checkVendor, env) == Success(Some(out.found[k]))
    decreases |hosts|
  {
    if hosts != [] {
      var init := hosts[..|hosts| - 1];
      ScanRecordsFromHosts(system, init, checkMac, checkVendor, env);
      assert forall h :: h in init ==> h in hosts;
    }
  }

  /** In a scan of ascending hosts no host is recorded twice; the records even come in
      target order in this sequential rendering. */
  lemma {:induction false} ScanRecordsAscending(system: Platform, hosts: seq<nat>,
                                                checkMac: bool, checkVendor: bool, env: Environment)
    requires forall i, j :: 0 <= i < j < |hosts| ==> hosts[i] < hosts[j]
    ensures var out := Scan(system, hosts, checkMac, checkVendor, env);
      forall i, j :: 0 <= i < j < |out.found| ==> out.found[i].ip < out.found[j].ip
    decreases |hosts|
  {
    if hosts != [] {
      var init := hosts[..|hosts| - 1];
      ScanRecordsAscending(system, init, checkMac, checkVendor, env);
      ScanRecordsFromHosts(system, init, checkMac, checkVendor, env);
      var prev := Scan(system, init, checkMac, checkVendor, env);
      forall k | 0 <= k < |prev.found| ensures prev.found[k].ip < hosts[|hosts| - 1] {
        var x :| 0 <= x < |init| && init[x] == prev.found[k].ip;
      }
    }
  }

  /** A scan raises exactly when some host's coroutine raises, and then with the exception
      of one of those hosts. */
  lemma {:induction false} ScanRaises(system: Platform, hosts: seq<nat>,
                                      checkMac: bool, checkVendor: bool, env: Environment)
    ensures var out := Scan(system, hosts, checkMac, checkVendor, env);
      (out.failure.None? <==> forall h :: h in hosts ==> HostStep(system, h, checkMac, checkVendor, env).Success?) &&
      (out.failure.Some? ==>
         exists h :: h in hosts && HostStep(system, h, checkMac, checkVendor, env) == Failure(out.failure.value))
    decreases |hosts|
  {
    if hosts != [] {
      var init, last := hosts[..|hosts| - 1], hosts[|hosts| - 1];
      ScanRaises(system, init, checkMac, checkVendor, env);
      assert hosts == init + [last];
      var prev := Scan(system, init, checkMac, checkVendor, env);
      var step := HostStep(system, last, checkMac, checkVendor, env);
      if prev.failure.Some? {
        var h :| h in init && HostStep(system, h, checkMac, checkVendor, env) == Failure(prev.failure.value);
        assert h in hosts;
      } else if step.Failure? {
        assert last in hosts;
      } else {
        forall h | h in hosts ensures HostStep(system, h, checkMac, checkVendor, env).Success? {
          if h != last {
            assert h in init;
          }
        }
      }
    }
  }

  /** A step that leaves the scan without an exception keeps the records gathered so far
      and adds the step's record, if any. */
  lemma ExtendKeeps(prev: ScanOutcome, step: Result<Option<Record>, Failure>)
    requires Extend(prev, step).failure.None?
    ensures prev.failure.None? && step.Success?
    ensures forall r :: r in prev.found ==> r in Extend(prev, step).found
    ensures step.value.Some? ==> step.value.value in Extend(prev, step).found
  {
  }

  /** A scan that raised nothing holds the record the host at position `i` makes, if any. */
  lemma {:induction false} ScanKeepsRecord(system: Platform, hosts: seq<nat>, i: nat,
                                           checkMac: bool, checkVendor: bool, env: Environment)
    requires i < |hosts|
    ensures var out := Scan(system, hosts, checkMac, checkVendor, env);
      var step := HostStep(system, hosts[i], checkMac, checkVendor, env);
      out.failure.None? && step.Success? && step.value.Some? ==> step.value.value in out.found
    decreases |hosts|
  {
    var out := Scan(system, hosts, checkMac, checkVendor, env);
    if out.failure.None? {
      var init := hosts[..|hosts| - 1];
      var prev := Scan(system, init, checkMac, checkVendor, env);
      ExtendKeeps(prev, HostStep(system, hosts[|hosts| - 1], checkMac, checkVendor, env));
      if i < |hosts| - 1 {
        ScanKeepsRecord(system, init, i, checkMac, checkVendor, env);
      }
    }
  }

  /** A scan that raised nothing holds the record of every host that makes one. */
  lemma ScanComplete(system: Platform, hosts: seq<nat>,
                     checkMac: bool, checkVendor: bool, env: Environment)
    ensures var out := Scan(system, hosts, checkMac, checkVendor, env);
      out.failure.None? ==>
        forall h, rec :: h in hosts && HostStep(system, h, checkMac, checkVendor, env) == Success(Some(rec))
                         ==> rec in out.found
  {
    forall h, rec | h in hosts && HostStep(system, h, checkMac, checkVendor, env) == Success(Some(rec))
      ensures Scan(system, hosts, checkMac, checkVendor, env).failure.None? ==>
              rec in Scan(system, hosts, checkMac, checkVendor, env).found
    {
      var i :| 0 <= i < |hosts| && hosts[i] == h;
      ScanKeepsRecord(system, hosts, i, checkMac, checkVendor, env);
    }
  }

  /** With MAC checking off a scan never raises, and it finds exactly `{'ip': h}` for every
      host `h` whose ping transcript shows a reply. */
  lemma {:induction false} ScanWithoutMac(system: Platform, hosts: seq<nat>, checkVendor: bool, env: Environment)
    ensures var out := Scan(system, hosts, false, checkVendor, env);
      out.failure.None? &&
      (forall r :: r in out.found ==> r == IpOnly(r.ip) && r.ip in hosts && IsAlive(env.ping(r.ip))) &&
      (forall h :: h in hosts && IsAlive(env.ping(h)) ==> IpOnly(h) in out.found)
  {
    ScanRaises(system, hosts, false, checkVendor, env);
    ScanComplete(system, hosts, false, checkVendor, env);
    var out := Scan(system, hosts, false, checkVendor, env);
    ScanRecordsFromHosts(system, hosts, false, checkVendor, env);
    forall r | r in out.found ensures r == IpOnly(r.ip) && r.ip in hosts && IsAlive(env.ping(r.ip)) {
      var k :| 0 <= k < |out.found| && out.found[k] == r;
    }
  }

  /** The records `run` gathers for a network: each is the record of one of its targets,
      no target is recorded twice, and there are at most `nbr_host` of them. */
  lemma ScanFindsTargets(system: Platform, b: Block, checkMac: bool, checkVendor: bool, env: Environment)
    requires Network.Valid(b)
    ensures var out := Scan(system, Targets(b), checkMac, checkVendor, env);
      |out.found| <= UsableHosts(b) &&
      (forall k :: 0 <= k < |out.found| ==> IsTarget(b, out.found[k].ip)) &&
      (forall i, j :: 0 <= i < j < |out.found| ==> out.found[i].ip != out.found[j].ip)
  {
    ScanRecordsFromHosts(system, Targets(b), checkMac, checkVendor, env);
    ScanRecordsAscending(system, Targets(b), checkMac, checkVendor, env);
  }

  /** Scanning 10.0.0.0/30 without MAC checking, where only 10.0.0.1 replies (in a
      Windows-style transcript with an upper-case "TTL="), finds exactly `{'ip': 10.0.0.1}`. */
  lemma SlashThirtySingleReply(system: Platform)
    ensures var env := Environment(
              a => if a == 0x0A00_0001 then "Reply from 10.0.0.1: bytes=1 time<1ms TTL=128" else "",
              a => [], a => "", m => None);
      Scan(system, Targets(Block(0x0A00_0000, 30)), false, false, env) == ScanOutcome([IpOnly(0x0A00_0001)], None)
  {
    var env := Environment(
      a => if a == 0x0A00_0001 then "Reply from 10.0.0.1: bytes=1 time<1ms TTL=128" else "",
      a => [], a => "", m => None);
    SlashThirtyTargets();
    var hosts := [0x0A00_0001, 0x0A00_0002];
    AliveIffTtl(env.ping(0x0A00_0001));
    assert TtlAt(env.ping(0x0A00_0001), 38);
    assert !IsAlive(env.ping(0x0A00_0002));
    assert hosts[..1] == [0x0A00_0001] && hosts[..1][..0] == [];
  }

  /** The scanner object: the network, the usable-host count and the hosts found by the
      latest scan. The task lists and the platform name are not modelled as fields. */
  class Networkscan {
    const system: Platform
    const network: Block
    var nbrHost: int
    var listOfHostsFound: seq<Record>

    ghost predicate Valid()
      reads this
    {
      Network.Valid(network) && nbrHost == UsableHosts(network)
    }

    /** `Networkscan(ip_and_prefix)` once the text parsed to `block`: no host found yet,
        and `nbr_host` counts exactly the addresses a scan will probe. */
    constructor (block: Block, system: Platform)
      requires Network.Valid(block)
      ensures Valid() && network == block && this.system == system
      ensures listOfHostsFound == []
      ensures nbrHost == |Targets(block)|
    {
      this.system := system;
      network := block;
      listOfHostsFound := [];
      nbrHost := AddressCount(block);
      new;
      if AddressCount(block) > 2 {
        nbrHost := nbrHost - 2;
      }
    }

    /** `ping_coroutine(ip, checkmac, checkvendor)`: appends the host's record, if any, or
        reports the exception the coroutine raises. */
    method PingCoroutine(ip: nat, checkMac: bool, checkVendor: bool, env: Environment)
      returns (failure: Option<Failure>)
      modifies this`listOfHostsFound
      ensures ScanOutcome(listOfHostsFound, failure) ==
              Extend(ScanOutcome(old(listOfHostsFound), None), HostStep(system, ip, checkMac, checkVendor, env))
    {
      failure := None;
      if IsAlive(env.ping(ip)) {
        if checkMac {
          var found := MacAndHostname(system, ip, env);
          if found.Failure? {
            failure := Some(found.error);
            return;
          }
          var (mac, hostname) := found.value;
          if mac.Some? {
            var vendor := None;
            if checkVendor {
              vendor := env.vendor(mac.value);
              if vendor.None? {
                failure := Some(VendorLookup(ip));
                return;
              }
            }
            listOfHostsFound := listOfHostsFound + [WithMac(ip, mac.value, vendor, hostname.value)];
          }
        } else {
          listOfHostsFound := listOfHostsFound + [IpOnly(ip)];
        }
      }
    }

    /** `run(mac, vendor)`: forgets the previous scan, then processes every target; the
        hosts found are those of this scan alone. */
    method Run(env: Environment, checkMac: bool := true, checkVendor: bool := false) returns (failure: Option<Failure>)
      requires Valid()
      modifies this`listOfHostsFound
      ensures Valid()
      ensures ScanOutcome(listOfHostsFound, failure) == Scan(system, Targets(network), checkMac, checkVendor, env)
    {
      listOfHostsFound := [];
      var hosts := Hosts(network);
      if AddressCount(network) == 1 {
        hosts := [network.base];
      }
      assert hosts == Targets(network);
      failure := None;
      for i := 0 to |hosts|
        invariant failure.None?
        invariant Scan(system, hosts[..i], checkMac, checkVendor, env) == ScanOutcome(listOfHostsFound, None)
      {
        failure := PingCoroutine(hosts[i], checkMac, checkVendor, env);
        ScanPrefix(system, hosts, i, checkMac, checkVendor, env);
        if failure.Some? {
          ScanStopsAtFailure(system, hosts, i + 1, checkMac, checkVendor, env);
          return;
        }
      }
      assert hosts[..|hosts|] == hosts;
    }
  }
}
