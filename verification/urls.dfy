/**
 * `buildSecureUrl`: `https://`, the domain, and `:port` unless the port is 443. A parser
 * of such URLs is its partner: it gives the domain and the port back.
 */
module Urls {

  import opened Wrappers

  const Scheme := "https://"

  /** The port HTTPS uses when none is written. */
  const DefaultPort := 443

  predicate IsDigit(c: char)
  {
    '0' <= c <= '9'
  }

  /** The decimal digit for a value below ten. */
  function DigitChar(d: nat): (c: char)
    requires d < 10
    ensures IsDigit(c) && c as int - '0' as int == d
  {
    ('0' as int + d) as char
  }

  /** A number as JavaScript writes it in a template string: decimal, no leading zero. */
  function Decimal(n: nat): (s: string)
    ensures |s| >= 1 && (s[0] == '0' ==> n == 0)
    ensures forall k | 0 <= k < |s| :: IsDigit(s[k])
  {
    if n < 10 then [DigitChar(n)] else Decimal(n / 10) + [DigitChar(n % 10)]
  }

  /** The value of a string of digits. */
  function DigitsValue(s: string): nat
    requires forall k | 0 <= k < |s| :: IsDigit(s[k])
  {
    if |s| == 0 then 0
    else
      assert IsDigit(s[|s| - 1]);
      DigitsValue(s[..|s| - 1]) * 10 + (s[|s| - 1] as int - '0' as int)
  }

  /** A non-empty string of digits as a number; anything else is `None`. */
  function ParseDecimal(s: string): Option<nat>
  {
    if |s| > 0 && forall k | 0 <= k < |s| :: IsDigit(s[k]) then Some(DigitsValue(s)) else None
  }

  /** Reading back the decimal form of a number gives the number. */
  lemma {:induction false} DecimalRoundTrip(n: nat)
    ensures ParseDecimal(Decimal(n)) == Some(n)
  {
    var s := Decimal(n);
    if n >= 10 {
      DecimalRoundTrip(n / 10);
      assert s[..|s| - 1] == Decimal(n / 10) && s[|s| - 1] == DigitChar(n % 10);
    } else {
      assert s[..0] == [] && s[0] == DigitChar(n);
      assert DigitsValue(s) == DigitsValue(s[..0]) * 10 + n;
    }
  }

  /** Lines 22-25. */
  function BuildSecureUrl(domain: string, port: nat): (url: string)
    ensures |url| >= |Scheme| + |domain| && url[..|Scheme|] == Scheme
    ensures url[|Scheme|..|Scheme| + |domain|] == domain
    ensures port == DefaultPort <==> |url| == |Scheme| + |domain|
  {
    var portString := if port == DefaultPort then "" else ":" + Decimal(port);
    Scheme + domain + portString
  }

  /** The host and port of an HTTPS URL. */
  datatype Endpoint = Endpoint(domain: string, port: nat)

  /** The index of the first `:` in `s`, or `|s|` when there is none. */
  function FirstColon(s: string): (k: nat)
    ensures k <= |s| && ':' !in s[..k]
    ensures k < |s| ==> s[k] == ':'
  {
    if |s| == 0 || s[0] == ':' then 0 else 1 + FirstColon(s[1..])
  }

  /** The domain up to the first `:`, then the decimal port, or 443 when none is written. */
  function ParseSecureUrl(url: string): Option<Endpoint>
  {
    if |url| < |Scheme| || url[..|Scheme|] != Scheme then None
    else
      var rest := url[|Scheme|..];
      var k := FirstColon(rest);
      if k == |rest| then Some(Endpoint(rest, DefaultPort))
      else
        var port :- ParseDecimal(rest[k + 1..]);
        Some(Endpoint(rest[..k], port))
  }

  /** A colon-free domain and its port are read back from the URL built for them. */
  lemma SecureUrlRoundTrip(domain: string, port: nat)
    requires ':' !in domain
    ensures ParseSecureUrl(BuildSecureUrl(domain, port)) == Some(Endpoint(domain, port))
  {
    var url := BuildSecureUrl(domain, port);
    var rest := url[|Scheme|..];
    ColonAfter(domain, rest);
    if port != DefaultPort {
      DecimalRoundTrip(port);
      assert rest == domain + (":" + Decimal(port));
      assert rest[|domain| + 1..] == Decimal(port);
    } else {
      assert rest == domain;
    }
  }

  /** In `domain` followed by anything, the first colon is the first one after the domain. */
  lemma {:induction false} ColonAfter(domain: string, s: string)
    requires ':' !in domain && |domain| <= |s| && s[..|domain|] == domain
    ensures FirstColon(s) >= |domain|
    ensures FirstColon(s) == |domain| <==> (|s| == |domain| || s[|domain|] == ':')
  {
    if |domain| > 0 {
      assert s[0] == domain[0] != ':';
      assert s[1..][..|domain| - 1] == domain[1..];
      ColonAfter(domain[1..], s[1..]);
    }
  }

  /** Two colon-free domains with their ports build the same URL only when they are the same. */
  lemma BuildSecureUrlInjective(d1: string, p1: nat, d2: string, p2: nat)
    requires ':' !in d1 && ':' !in d2
    requires BuildSecureUrl(d1, p1) == BuildSecureUrl(d2, p2)
    ensures d1 == d2 && p1 == p2
  {
    SecureUrlRoundTrip(d1, p1);
    SecureUrlRoundTrip(d2, p2);
  }
}
