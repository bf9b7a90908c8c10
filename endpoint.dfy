/** How `CommunicationServices.__init__` turns the configured endpoint and
    access key into the connection string handed to the email client. */
module Endpoint {
  import opened Text

  const Scheme := "https://"
  const DomainSuffix := ".communication.azure.com/"

  /** Prefixes the scheme when it is missing, then appends the resource domain
      when it is missing. The result always has both. */
  function Normalize(endpoint: string): (e: string)
    ensures StartsWith(e, Scheme) && EndsWith(e, DomainSuffix)
  {
    var withScheme := if StartsWith(endpoint, Scheme) then endpoint else Scheme + endpoint;
    assert StartsWith(withScheme, Scheme);
    if EndsWith(withScheme, DomainSuffix) then withScheme
    else
      assert (withScheme + DomainSuffix)[..|Scheme|] == withScheme[..|Scheme|];
      withScheme + DomainSuffix
  }

  /** Normalisation only ever adds text: the scheme in front exactly when the
      configured endpoint lacks it, and the domain behind exactly when the
      configured endpoint lacks it. (The domain test is made after the scheme
      is added; since the domain begins with a `.` that the scheme does not
      contain, adding the scheme never completes the domain.) */
  lemma NormalizeShape(endpoint: string)
    ensures Normalize(endpoint)
         == (if StartsWith(endpoint, Scheme) then "" else Scheme)
          + endpoint
          + (if EndsWith(endpoint, DomainSuffix) then "" else DomainSuffix)
  {
    if !StartsWith(endpoint, Scheme) {
      SchemeKeepsDomainTest(endpoint);
    }
  }

  /** Adding the scheme in front neither completes nor breaks the domain. */
  lemma SchemeKeepsDomainTest(endpoint: string)
    ensures EndsWith(Scheme + endpoint, DomainSuffix) == EndsWith(endpoint, DomainSuffix)
  {
    var w := Scheme + endpoint;
    if |endpoint| < |DomainSuffix| && |DomainSuffix| <= |w| {
      var k := |w| - |DomainSuffix|;
      assert w[k] == Scheme[k];
      assert w[k] != DomainSuffix[0];
      assert w[k..][0] != DomainSuffix[0];
    } else if |DomainSuffix| <= |endpoint| {
      assert w[|w| - |DomainSuffix|..] == endpoint[|endpoint| - |DomainSuffix|..];
    }
  }

  /** An endpoint already in full form is left as it is. */
  lemma NormalizeKeepsFullForm(endpoint: string)
    requires StartsWith(endpoint, Scheme) && EndsWith(endpoint, DomainSuffix)
    ensures Normalize(endpoint) == endpoint
  {
  }

  /** Normalising twice is normalising once. */
  lemma NormalizeIdempotent(endpoint: string)
    ensures Normalize(Normalize(endpoint)) == Normalize(endpoint)
  {
    NormalizeKeepsFullForm(Normalize(endpoint));
  }

  /** `f"endpoint={endpoint};accessKey={accessKey}"` over the normalised
      endpoint: the string opens with `endpoint=https://`, closes with the key
      exactly as configured, and holds the normalised endpoint between the two
      field labels. */
  function ConnectionString(accessKey: string, endpoint: string): (c: string)
    ensures StartsWith(c, "endpoint=" + Scheme)
    ensures EndsWith(c, ";accessKey=" + accessKey)
    ensures |c| == |"endpoint="| + |Normalize(endpoint)| + |";accessKey=" + accessKey|
    ensures c[|"endpoint="|..|c| - |";accessKey=" + accessKey|] == Normalize(endpoint)
  {
    var e := Normalize(endpoint);
    var c := "endpoint=" + e + ";accessKey=" + accessKey;
    assert c[..|"endpoint="| + |Scheme|] == "endpoint=" + e[..|Scheme|];
    assert c[|c| - |";accessKey=" + accessKey|..] == ";accessKey=" + accessKey;
    c
  }
}
