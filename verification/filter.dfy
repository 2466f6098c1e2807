/**
 The access decision of `WhitelistIp` in whitelistip.go: take the host out of
 the peer address, look for an allow-list entry that matches it, and either
 forward the request or answer it with 400 or 403. The HTTP plumbing (writing
 the status and body, calling the wrapped handler) is represented only by the
 `Outcome` value.
 */
module Filter {
  import opened Ip
  import opened NetLib
  import opened Matcher

  const StatusBadRequest := 400
  const StatusForbidden := 403

  /** What the filter does with a request: pass it on untouched, or answer it itself. */
  datatype Outcome = Forward | Reject(status: int, body: string)

  function NotValidIpBody(remoteAddr: string): string {
    remoteAddr + " is not a valid IP address"
  }

  function NotRegisteredBody(host: string): string {
    host + " is not registered in the whitelist IP"
  }

  /* ---------- host extraction ---------- */

  /**
   The first field of `s` split on ':' (Go: `strings.Split(s, ":")[0]`): the
   longest prefix of `s` without a colon.
   */
  function BeforeFirstColon(s: string): (r: string)
    ensures r <= s
    ensures ':' !in r
    ensures |r| == |s| || s[|r|] == ':'
  {
    if s == [] || s[0] == ':' then [] else [s[0]] + BeforeFirstColon(s[1..])
  }

  /**
   The three properties of `BeforeFirstColon` pin it down: any colon-free
   prefix of `s` that ends at the end of `s` or at a colon is that result.
   */
  lemma {:induction false} BeforeFirstColonUnique(s: string, p: string)
    requires p <= s && ':' !in p
    requires |p| == |s| || s[|p|] == ':'
    ensures p == BeforeFirstColon(s)
  {
    var r := BeforeFirstColon(s);
    assert p == s[..|p|] == r;
  }

  /**
   The candidate host of the peer address: the host part when the address
   splits, everything before the first ':' when only the port is missing, and
   nothing when the address is otherwise malformed.
   */
  function ExtractHost(lib: Library, remoteAddr: string): (r: Option<string>)
    ensures r.None? <==> lib.splitHostPort(remoteAddr).OtherError?
    ensures lib.splitHostPort(remoteAddr).HostPort? ==> r == Some(lib.splitHostPort(remoteAddr).host)
    ensures lib.splitHostPort(remoteAddr).MissingPort? ==>
              r.Some? && r.value <= remoteAddr && ':' !in r.value &&
              (r.value == remoteAddr || remoteAddr[|r.value|] == ':')
  {
    match lib.splitHostPort(remoteAddr)
    case HostPort(host, _) => Some(host)
    case MissingPort => Some(BeforeFirstColon(remoteAddr))
    case OtherError => None
  }

  /* ---------- allow-list search ---------- */

  /** Some entry of the allow-list matches the host. */
  predicate Listed(lib: Library, allow: seq<string>, host: string) {
    exists i | 0 <= i < |allow| :: CompareIp(lib, allow[i], host)
  }

  /**
   The allow-list loop as written: walk the entries in order and stop at the
   first that matches. The early exit does not change the answer.
   */
  method ScanAllowList(lib: Library, allow: seq<string>, host: string) returns (found: bool)
    ensures found <==> Listed(lib, allow, host)
  {
    found := false;
    var i := 0;
    while i < |allow|
      invariant 0 <= i <= |allow|
      invariant !found
      invariant forall j | 0 <= j < i :: !CompareIp(lib, allow[j], host)
    {
      if CompareIp(lib, allow[i], host) {
        found := true;
        break;
      }
      i := i + 1;
    }
  }

  /* ---------- the decision ---------- */

  /** The outcome of one request whose peer address is `remoteAddr`. */
  function Decide(lib: Library, allow: seq<string>, remoteAddr: string): (r: Outcome)
    ensures r.Reject? ==> r.status == StatusBadRequest || r.status == StatusForbidden
    // 400 exactly when splitting fails for a reason other than a missing port
    ensures (r.Reject? && r.status == StatusBadRequest) <==> lib.splitHostPort(remoteAddr).OtherError?
    ensures r.Reject? && r.status == StatusBadRequest ==> r.body == NotValidIpBody(remoteAddr)
    // otherwise forwarded exactly when some entry matches the extracted host
    ensures ExtractHost(lib, remoteAddr).Some? ==>
              var host := ExtractHost(lib, remoteAddr).value;
              (r.Forward? <==> Listed(lib, allow, host)) &&
              (r.Reject? ==> r == Reject(StatusForbidden, NotRegisteredBody(host)))
  {
    match ExtractHost(lib, remoteAddr)
    case None => Reject(StatusBadRequest, NotValidIpBody(remoteAddr))
    case Some(host) =>
      if Listed(lib, allow, host) then Forward
      else Reject(StatusForbidden, NotRegisteredBody(host))
  }

  /** The request handler built by `WhitelistIp`, step by step as the source takes them. */
  method Handle(lib: Library, allow: seq<string>, remoteAddr: string) returns (r: Outcome)
    ensures r == Decide(lib, allow, remoteAddr)
  {
    var userIp: string;
    match lib.splitHostPort(remoteAddr) {
      case OtherError =>
        return Reject(StatusBadRequest, NotValidIpBody(remoteAddr));
      case MissingPort =>
        userIp := BeforeFirstColon(remoteAddr);
      case HostPort(host, _) =>
        userIp := host;
    }
    var found := ScanAllowList(lib, allow, userIp);
    if !found {
      return Reject(StatusForbidden, NotRegisteredBody(userIp));
    }
    return Forward;
  }

  /* ---------- properties of the decision ---------- */

  /**
   A peer address without a port is never a bad request: its host is the
   colon-free prefix of the address and the decision goes on to matching.
   */
  lemma MissingPortFallsBackToPrefix(lib: Library, allow: seq<string>, remoteAddr: string)
    requires lib.splitHostPort(remoteAddr).MissingPort?
    ensures ExtractHost(lib, remoteAddr).Some?
    ensures var host := ExtractHost(lib, remoteAddr).value;
            host <= remoteAddr && ':' !in host &&
            (host == remoteAddr || remoteAddr[|host|] == ':')
    ensures !(Decide(lib, allow, remoteAddr).Reject? && Decide(lib, allow, remoteAddr).status == StatusBadRequest)
  {
  }

  /**
   An empty allow-list refuses every request: with 403 unless the peer address
   fails to split for a reason other than a missing port, in which case the
   400 comes first.
   */
  lemma EmptyAllowListRefusesAll(lib: Library, remoteAddr: string)
    ensures Decide(lib, [], remoteAddr).Reject?
    ensures !lib.splitHostPort(remoteAddr).OtherError? ==> Decide(lib, [], remoteAddr).status == StatusForbidden
  {
  }

  /** Matching over a concatenated allow-list is matching over either part. */
  lemma ListedAppend(lib: Library, a: seq<string>, b: seq<string>, host: string)
    ensures Listed(lib, a + b, host) <==> Listed(lib, a, host) || Listed(lib, b, host)
  {
    if Listed(lib, a, host) {
      var i :| 0 <= i < |a| && CompareIp(lib, a[i], host);
      assert (a + b)[i] == a[i];
    }
    if Listed(lib, a + b, host) {
      var i :| 0 <= i < |a + b| && CompareIp(lib, (a + b)[i], host);
      if i >= |a| {
        assert b[i - |a|] == (a + b)[i];
      }
    }
    if Listed(lib, b, host) {
      var j :| 0 <= j < |b| && CompareIp(lib, b[j], host);
      assert (a + b)[|a| + j] == b[j];
    }
  }

  /**
   Order and repetition in the allow-list do not matter: two lists with the
   same entries give the same outcome.
   */
  lemma AllowListOrderIrrelevant(lib: Library, a: seq<string>, b: seq<string>, remoteAddr: string)
    requires forall e :: e in a <==> e in b
    ensures Decide(lib, a, remoteAddr) == Decide(lib, b, remoteAddr)
  {
    if ExtractHost(lib, remoteAddr).Some? {
      var host := ExtractHost(lib, remoteAddr).value;
      SameEntriesSameListed(lib, a, b, host);
      SameEntriesSameListed(lib, b, a, host);
    }
  }

  lemma SameEntriesSameListed(lib: Library, a: seq<string>, b: seq<string>, host: string)
    requires forall e :: e in a ==> e in b
    ensures Listed(lib, a, host) ==> Listed(lib, b, host)
  {
    if Listed(lib, a, host) {
      var i :| 0 <= i < |a| && CompareIp(lib, a[i], host);
      assert a[i] in b;
      var j :| 0 <= j < |b| && b[j] == a[i];
    }
  }

  /** Adding entries to the allow-list never turns a forwarded request away. */
  lemma MoreEntriesNeverRevoke(lib: Library, allow: seq<string>, more: seq<string>, remoteAddr: string)
    requires Decide(lib, allow, remoteAddr).Forward?
    ensures Decide(lib, allow + more, remoteAddr).Forward?
    ensures Decide(lib, more + allow, remoteAddr).Forward?
  {
    var host := ExtractHost(lib, remoteAddr).value;
    ListedAppend(lib, allow, more, host);
    ListedAppend(lib, more, allow, host);
  }

  /**
   A malformed entry is inert wherever it sits in the allow-list: removing it
   changes no outcome, so a bad configuration line narrows nothing and widens
   nothing.
   */
  lemma MalformedEntryChangesNothing(lib: Library, pre: seq<string>, bad: string, post: seq<string>, remoteAddr: string)
    requires Malformed(lib, bad)
    ensures Decide(lib, pre + [bad] + post, remoteAddr) == Decide(lib, pre + post, remoteAddr)
  {
    if ExtractHost(lib, remoteAddr).Some? {
      var host := ExtractHost(lib, remoteAddr).value;
      ListedAppend(lib, pre + [bad], post, host);
      ListedAppend(lib, pre, [bad], host);
      ListedAppend(lib, pre, post, host);
    }
  }

  /* ---------- scenarios ---------- */

  /** A single-address allow-list forwards that address arriving with a port. */
  lemma ScenarioExactAddress(lib: Library)
    requires lib.splitHostPort("10.0.0.5:51342") == HostPort("10.0.0.5", "51342")
    requires lib.parseIP("10.0.0.5") == Some(V4(10, 0, 0, 5))
    ensures Decide(lib, ["10.0.0.5"], "10.0.0.5:51342") == Forward
  {
    assert CompareIp(lib, ["10.0.0.5"][0], "10.0.0.5");
  }

  /** A /24 block forwards an address inside it. */
  lemma ScenarioBlockInside(lib: Library)
    requires lib.splitHostPort("10.0.0.200:8080") == HostPort("10.0.0.200", "8080")
    requires lib.parseIP("10.0.0.200") == Some(V4(10, 0, 0, 200))
    requires lib.parseIP("10.0.0.0/24") == None
    requires lib.parseCIDR("10.0.0.0/24") == Some(IpNet(V4(10, 0, 0, 0), 96 + 24))
    ensures Decide(lib, ["10.0.0.0/24"], "10.0.0.200:8080") == Forward
  {
    var c, n := V4(10, 0, 0, 200), V4(10, 0, 0, 0);
    assert Mask(c, 120) == Mask(n, 120);
    assert CompareIp(lib, ["10.0.0.0/24"][0], "10.0.0.200");
  }

  /** A /24 block refuses an address of the next /24 with 403. */
  lemma ScenarioBlockOutside(lib: Library)
    requires lib.splitHostPort("10.0.1.5:8080") == HostPort("10.0.1.5", "8080")
    requires lib.parseIP("10.0.1.5") == Some(V4(10, 0, 1, 5))
    requires lib.parseIP("10.0.0.0/24") == None
    requires lib.parseCIDR("10.0.0.0/24") == Some(IpNet(V4(10, 0, 0, 0), 96 + 24))
    ensures Decide(lib, ["10.0.0.0/24"], "10.0.1.5:8080")
            == Reject(StatusForbidden, NotRegisteredBody("10.0.1.5"))
  {
    var c, n := V4(10, 0, 1, 5), V4(10, 0, 0, 0);
    assert Mask(c, 120)[14] != Mask(n, 120)[14];
    assert !Listed(lib, ["10.0.0.0/24"], "10.0.1.5");
  }

  /**
   A peer address with no colon that does not parse falls back to the
   missing-port path and is refused with 403, not 400.
   */
  lemma ScenarioUnparsableHostOnly(lib: Library)
    requires lib.splitHostPort("not-an-address") == MissingPort
    requires lib.parseIP("not-an-address") == None
    ensures Decide(lib, ["10.0.0.5"], "not-an-address")
            == Reject(StatusForbidden, NotRegisteredBody("not-an-address"))
  {
    BeforeFirstColonUnique("not-an-address", "not-an-address");
    UnparsableHostRefused(lib, ["10.0.0.5"], "not-an-address", "not-an-address");
  }

  /**
   A bracketed IPv6 literal without a port is cut at its first colon, so its
   host becomes "[" and it is refused even when its address is listed.
   */
  lemma ScenarioBracketedIpv6WithoutPort(lib: Library, allow: seq<string>)
    requires lib.splitHostPort("[::1]") == MissingPort
    requires lib.parseIP("[") == None
    ensures Decide(lib, allow, "[::1]") == Reject(StatusForbidden, NotRegisteredBody("["))
  {
    BeforeFirstColonUnique("[::1]", "[");
    UnparsableHostRefused(lib, allow, "[::1]", "[");
  }

  /** A host that does not parse as an address is refused with 403 whatever the allow-list. */
  lemma UnparsableHostRefused(lib: Library, allow: seq<string>, remoteAddr: string, host: string)
    requires ExtractHost(lib, remoteAddr) == Some(host)
    requires lib.parseIP(host) == None
    ensures Decide(lib, allow, remoteAddr) == Reject(StatusForbidden, NotRegisteredBody(host))
  {
  }
}
