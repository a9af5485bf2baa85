/** The two recipient filters of the relay's routing rules. A filter holds
    one configured value (the source's `null` is `None`) and decides, from
    the addresses a message is sent to, whether the message is its concern. */
module Filters {
  import opened Wrappers
  import opened Strings

  datatype Filter =
    | /** `DestinationEmailAddressFilter`: one exact address, ignoring case. */
      EmailAddressFilter(address: Option<string>)
    | /** `DestinationDomainFilter`: any address ending in the domain, ignoring case. */
      DomainFilter(domain: Option<string>)

  /** The configured value is neither null nor empty. */
  predicate Configured(f: Filter) {
    match f
    case EmailAddressFilter(a) => a.Some? && a.value != ""
    case DomainFilter(d) => d.Some? && d.value != ""
  }

  /** The test the filter applies to one recipient address. An empty
      address never passes. The address filter passes the configured
      address itself, and only addresses of its length. The domain filter
      passes every address ending in the configured domain, and none
      shorter than the domain. */
  predicate Accepts(f: Filter, to: string)
    requires Configured(f)
    ensures Accepts(f, to) ==> to != ""
    ensures f.EmailAddressFilter? ==> (to == f.address.value ==> Accepts(f, to))
    ensures f.EmailAddressFilter? ==> (Accepts(f, to) ==> |to| == |f.address.value|)
    ensures f.DomainFilter? ==> (EndsWith(to, f.domain.value) ==> Accepts(f, to))
    ensures f.DomainFilter? ==> (Accepts(f, to) ==> |f.domain.value| <= |to|)
  {
    match f
    case EmailAddressFilter(a) => to != "" && EqualsIgnoreCase(to, a.value)
    case DomainFilter(d) =>
      ToLowerKeepsSuffix(to, d.value);
      to != "" && EndsWith(ToLower(to), ToLower(d.value))
  }

  /** `message.To.Any(...)`: the recipients tried first to last. */
  function Any(f: Filter, tos: seq<string>): (r: bool)
    requires Configured(f)
    ensures r ==> |tos| > 0
  {
    if tos == [] then false
    else Accepts(f, tos[0]) || Any(f, tos[1..])
  }

  /** `FilterMatchesMessage`: an unconfigured filter never matches; a
      configured one matches when some recipient passes its test. */
  function FilterMatchesMessage(f: Filter, tos: seq<string>): (r: bool)
    ensures r ==> Configured(f) && |tos| > 0
  {
    Configured(f) && Any(f, tos)
  }

  /** `Any` holds exactly when some recipient passes the test. */
  lemma {:induction false} AnyIsExists(f: Filter, tos: seq<string>)
    requires Configured(f)
    ensures Any(f, tos) <==> exists i :: 0 <= i < |tos| && Accepts(f, tos[i])
    decreases |tos|
  {
    if tos != [] {
      AnyIsExists(f, tos[1..]);
      if Any(f, tos[1..]) {
        var i :| 0 <= i < |tos[1..]| && Accepts(f, tos[1..][i]);
        assert Accepts(f, tos[i + 1]);
      }
      if exists i :: 0 <= i < |tos| && Accepts(f, tos[i]) {
        var i :| 0 <= i < |tos| && Accepts(f, tos[i]);
        if i > 0 {
          assert Accepts(f, tos[1..][i - 1]);
        }
      }
    }
  }

  /** Whether a message matches, stated without the scan: the filter is
      configured and some recipient address is non-empty and passes. */
  lemma MatchesIff(f: Filter, tos: seq<string>)
    ensures FilterMatchesMessage(f, tos) <==>
      Configured(f) && exists i :: 0 <= i < |tos| && tos[i] != "" && Accepts(f, tos[i])
  {
    if Configured(f) {
      AnyIsExists(f, tos);
    }
  }

  /** The recipients of two lists together match when either list does. */
  lemma {:induction false} AnyAppend(f: Filter, a: seq<string>, b: seq<string>)
    requires Configured(f)
    ensures Any(f, a + b) == (Any(f, a) || Any(f, b))
    decreases |a|
  {
    if a == [] {
      assert a + b == b;
    } else {
      assert (a + b)[0] == a[0] && (a + b)[1..] == a[1..] + b;
      AnyAppend(f, a[1..], b);
    }
  }

  /** Adding recipients never turns a match into a non-match. */
  lemma MatchesMonotone(f: Filter, a: seq<string>, b: seq<string>)
    requires FilterMatchesMessage(f, a)
    ensures FilterMatchesMessage(f, a + b) && FilterMatchesMessage(f, b + a)
  {
    AnyAppend(f, a, b);
    AnyAppend(f, b, a);
  }

  /** The order of the recipients does not matter. */
  lemma MatchesIgnoresOrder(f: Filter, a: seq<string>, b: seq<string>)
    requires multiset(a) == multiset(b)
    ensures FilterMatchesMessage(f, a) == FilterMatchesMessage(f, b)
  {
    if Configured(f) {
      AnyIsExists(f, a);
      AnyIsExists(f, b);
      if Any(f, a) {
        var i :| 0 <= i < |a| && Accepts(f, a[i]);
        assert a[i] in multiset(b);
        var j :| 0 <= j < |b| && b[j] == a[i];
      }
      if Any(f, b) {
        var j :| 0 <= j < |b| && Accepts(f, b[j]);
        assert b[j] in multiset(a);
        var i :| 0 <= i < |a| && a[i] == b[j];
      }
    }
  }

  /** The domain test is a plain suffix test: it ignores label boundaries,
      so `x@evilexample.com` is taken as an address in `example.com`. */
  lemma DomainSuffixIgnoresLabels()
    ensures FilterMatchesMessage(DomainFilter(Some("example.com")), ["x@evilexample.com"])
  {
    var to := "x@evilexample.com";
    assert ToLower("example.com") == "example.com";
    assert ToLower(to) == to;
    assert to[|to| - 11..] == "example.com";
  }

  /** The address test ignores case. */
  lemma AddressIgnoresCase()
    ensures FilterMatchesMessage(EmailAddressFilter(Some("Scans@Example.com")), ["scans@example.COM"])
  {
    var a, b := "Scans@Example.com", "scans@example.COM";
    assert ToUpper(a) == "SCANS@EXAMPLE.COM";
    assert ToUpper(b) == "SCANS@EXAMPLE.COM";
  }
}
