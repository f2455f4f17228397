/** The face-service client's configuration: a mutable base URL, normalised
    to end with "/" whenever it is set, and an HTTP client built lazily on
    first use that keeps the base URL it saw then. The HTTP calls themselves
    are not part of this model. */
module FaceNetApi {
  import opened Common
  import opened Strings

  /** The base URL before any is set; it has no trailing slash. */
  const InitialBaseUrl: string := "https://sensitive-convergence-bags-human.trycloudflare.com"

  /** The normalisation of `setBaseUrl`: a URL already ending with "/" is
      kept, any other gets one appended. */
  function NormalizeBaseUrl(url: string): (r: string)
    ensures EndsWith(r, "/")
    ensures EndsWith(url, "/") ==> r == url
    ensures !EndsWith(url, "/") ==> r == url + "/"
  {
    if EndsWith(url, "/") then url else url + "/"
  }

  /** Normalising twice is normalising once, and the given URL is always
      kept as a prefix with at most one character added. */
  lemma NormalizeIdempotent(url: string)
    ensures NormalizeBaseUrl(NormalizeBaseUrl(url)) == NormalizeBaseUrl(url)
    ensures var r := NormalizeBaseUrl(url); url <= r && |r| <= |url| + 1
  {
  }

  /** Only URLs differing by a missing final slash are normalised to the same
      value. */
  lemma NormalizeCollapsesOnlyFinalSlash(a: string, b: string)
    requires NormalizeBaseUrl(a) == NormalizeBaseUrl(b)
    ensures a == b || a == b + "/" || b == a + "/"
  {
    if EndsWith(a, "/") && !EndsWith(b, "/") {
      assert a == b + "/";
    } else if !EndsWith(a, "/") && EndsWith(b, "/") {
      assert b == a + "/";
    } else if !EndsWith(a, "/") && !EndsWith(b, "/") {
      assert a == (a + "/")[..|a|] == (b + "/")[..|b|] == b;
    }
  }

  /** The initial URL is the one value `getBaseUrl` can return without a
      trailing slash. */
  lemma InitialBaseUrlLacksSlash()
    ensures !EndsWith(InitialBaseUrl, "/")
  {
    assert InitialBaseUrl[|InitialBaseUrl| - 1] == 'm';
  }

  class FaceNetApiClient {
    var baseUrl: string
    /** The base URL the lazily built client was created with, once it has
        been used. */
    var clientBaseUrl: Option<string>

    ghost predicate Valid()
      reads this
    {
      baseUrl == InitialBaseUrl || EndsWith(baseUrl, "/")
    }

    constructor()
      ensures Valid()
      ensures baseUrl == InitialBaseUrl && clientBaseUrl.None?
    {
      baseUrl := InitialBaseUrl;
      clientBaseUrl := None;
    }

    /** `setBaseUrl`: stores the normalised URL; a client already built keeps
        its own. */
    method SetBaseUrl(url: string)
      modifies this
      ensures Valid()
      ensures baseUrl == NormalizeBaseUrl(url) && EndsWith(baseUrl, "/")
      ensures clientBaseUrl == old(clientBaseUrl)
    {
      baseUrl := NormalizeBaseUrl(url);
    }

    /** `getBaseUrl`: the last value set, or the initial one. */
    method GetBaseUrl() returns (url: string)
      requires Valid()
      ensures url == baseUrl
      ensures url == InitialBaseUrl || EndsWith(url, "/")
    {
      url := baseUrl;
    }

    /** `api`: the first access builds the client from the base URL of that
        moment; every later access returns the same client, whatever has
        been set since. */
    method Api() returns (url: string)
      requires Valid()
      modifies this
      ensures Valid()
      ensures baseUrl == old(baseUrl)
      ensures old(clientBaseUrl).None? ==> url == old(baseUrl)
      ensures old(clientBaseUrl).Some? ==> url == old(clientBaseUrl).value
      ensures clientBaseUrl == Some(url)
    {
      if clientBaseUrl.None? {
        clientBaseUrl := Some(baseUrl);
      }
      url := clientBaseUrl.value;
    }
  }
}
