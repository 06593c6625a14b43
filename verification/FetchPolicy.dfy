/** The rules of AssetNetworkFetcher.cpp on URLs, redirects and declared lengths. */
module FetchPolicy {
  import opened Text
  import opened Wrappers

  /** What the rules see of a URL; `extras` is a query or a fragment. */
  datatype Address = Address(
    valid: bool, scheme: string, host: string, port: Option<nat>, path: string, credentials: bool, extras: bool)

  /** The spellings of a loopback host. */
  type Loopback = string -> bool

  function DefaultPort(scheme: string): int {
    if scheme == "https" then 443 else if scheme == "http" then 80 else -1
  }

  function PortOf(a: Address): int {
    if a.port.Some? then a.port.value else DefaultPort(a.scheme)
  }

  predicate SameOrigin(a: Address, b: Address) {
    a.scheme == b.scheme && a.host == b.host && PortOf(a) == PortOf(b)
  }

  /** isSecureOrLoopbackAuthTransport. */
  predicate SecureOrLoopback(loopback: Loopback, a: Address) {
    && !a.credentials && a.host != ""
    && (a.scheme == "https" || (a.scheme == "http" && loopback(a.host)))
  }

  datatype UrlFault = InvalidUrl | UnsupportedScheme | InsecureTransport

  /** validateFetchUrl. */
  function UrlError(loopback: Loopback, a: Address): Option<UrlFault> {
    if !a.valid || a.host == "" then Some(InvalidUrl)
    else if a.scheme != "https" && a.scheme != "http" then Some(UnsupportedScheme)
    else if a.credentials || a.extras then Some(InvalidUrl)
    else if !SecureOrLoopback(loopback, a) then Some(InsecureTransport)
    else None
  }

  predicate RedirectAllowed(loopback: Loopback, original: Address, from: Address, to: Address) {
    || SameOrigin(from, to)
    || to.scheme == "https"
    || (to.scheme == "http" && loopback(to.host) && loopback(original.host))
  }

  /** A place a fetch that started at `original` may ask: over plain http only when both ends are
      loopback. */
  predicate Permitted(loopback: Loopback, original: Address, a: Address) {
    && UrlError(loopback, a).None?
    && (a.scheme == "http" ==> loopback(a.host) && loopback(original.host))
  }

  /** The URLs a chain of redirects asks, each hop accepted by the two rules. */
  predicate IsChain(loopback: Loopback, hops: seq<Address>) {
    && hops != [] && UrlError(loopback, hops[0]).None?
    && forall i | 0 < i < |hops| ::
         UrlError(loopback, hops[i]).None? && RedirectAllowed(loopback, hops[0], hops[i - 1], hops[i])
  }

  lemma HopIsPermitted(loopback: Loopback, original: Address, from: Address, to: Address)
    requires Permitted(loopback, original, from)
    requires UrlError(loopback, to).None? && RedirectAllowed(loopback, original, from, to)
    ensures Permitted(loopback, original, to)
  {
  }

  /** However long the chain: a plain-http hop is to a loopback host, and the chain began at one. */
  lemma {:induction false} ChainIsPermitted(loopback: Loopback, hops: seq<Address>, n: nat)
    requires IsChain(loopback, hops) && n < |hops|
    ensures Permitted(loopback, hops[0], hops[n])
  {
    if n == 0 {
    } else {
      ChainIsPermitted(loopback, hops, n - 1);
      HopIsPermitted(loopback, hops[0], hops[n - 1], hops[n]);
    }
  }

  // ---- Content-Length ----

  /** qint64: arithmetic that leaves the range is an error here. */
  newtype Int64 = x: int | -MAX_INT64 - 1 <= x <= MAX_INT64

  const MAX: Int64 := 0x7FFF_FFFF_FFFF_FFFF

  lemma ValueOfPrefix(s: Bytes, i: nat)
    requires AllDigits(s) && i < |s|
    ensures Value(s[..i + 1]) == Value(s[..i]) * 10 + (s[i] as int - '0' as int)
  {
    assert s[..i + 1][..i] == s[..i];
  }

  lemma {:induction false} ValueGrows(s: Bytes, i: nat)
    requires AllDigits(s) && i <= |s|
    ensures Value(s[..i]) <= Value(s)
    decreases |s| - i
  {
    if i < |s| {
      ValueOfPrefix(s, i);
      ValueGrows(s, i + 1);
    } else {
      assert s[..i] == s;
    }
  }

  /** The header is taken exactly when it is not empty and, trimmed, consists of digits whose value fits
      in 63 bits; then that is the value. A header of nothing but space is taken as zero. */
  method ParseContentLength(header: Bytes) returns (value: Option<Int64>)
    ensures value.Some? <==> header != [] && AllDigits(Trimmed(header)) && Value(Trimmed(header)) <= MAX_INT64
    ensures value.Some? ==> value.value as int == Value(Trimmed(header))
  {
    if header == [] {
      return None;
    }
    var digits := Trimmed(header);
    var parsed: Int64 := 0;
    var i := 0;
    while i < |digits|
      invariant 0 <= i <= |digits| && AllDigits(digits[..i])
      invariant parsed >= 0 && parsed as int == Value(digits[..i])
    {
      var c := digits[i];
      if c < '0' || c > '9' {
        assert !IsDigit(digits[i]);
        return None;
      }
      var digit := c as Int64 - '0' as Int64;
      assert AllDigits(digits[..i + 1]);
      NextValue(digits[..i + 1]);
      assert digits[..i + 1][..i] == digits[..i];
      if parsed > (MAX - digit) / 10 {
        TooLarge(digits, i + 1);
        return None;
      }
      parsed := parsed * 10 + digit;
      i := i + 1;
    }
    assert digits[..i] == digits;
    value := Some(parsed);
  }

  lemma NextValue(s: Bytes)
    requires s != [] && AllDigits(s)
    ensures AllDigits(s[..|s| - 1])
    ensures Value(s) == Value(s[..|s| - 1]) * 10 + (s[|s| - 1] as int - '0' as int)
  {
  }

  lemma TooLarge(digits: Bytes, i: nat)
    requires i <= |digits| && AllDigits(digits[..i]) && Value(digits[..i]) > MAX_INT64
    ensures AllDigits(digits) ==> Value(digits) > MAX_INT64
  {
    if AllDigits(digits) {
      ValueGrows(digits, i);
    }
  }
}
