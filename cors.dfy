/** The API server's CORS origin check: requests without an origin, origins on
    the allow-list, and origins mentioning a Vercel or Render host are allowed;
    every other origin is refused (without an error). */
module Cors {
  import opened JsStrings

  /** The development front ends, always allowed. */
  const LocalOrigins: seq<string> := ["http://localhost:5173", "http://localhost:5174", "http://localhost:3000"]

  const VercelHost := ".vercel.app"

  const RenderHost := ".onrender.com"

  /** `allowedOrigins`: the local origins, then `FRONTEND_URL` when it is set and non-empty. */
  method AllowedOrigins(frontendUrl: Option<string>) returns (origins: seq<string>)
    ensures |origins| == |LocalOrigins| + (if Truthy(frontendUrl) then 1 else 0)
    ensures origins[..|LocalOrigins|] == LocalOrigins
    ensures forall o :: o in origins <==> o in LocalOrigins || (Truthy(frontendUrl) && o == frontendUrl.value)
  {
    origins := LocalOrigins;
    if Truthy(frontendUrl) {
      origins := origins + [frontendUrl.value];
    }
  }

  /** The `origin` callback's verdict for the request's `Origin` header. */
  predicate OriginAllowed(allowedOrigins: seq<string>, origin: Option<string>) {
    if !Truthy(origin) then true
    else if origin.value in allowedOrigins then true
    else if Contains(origin.value, VercelHost) || Contains(origin.value, RenderHost) then true
    else false
  }

  /** The verdict stated with occurrences: allowed exactly when the origin is missing
      or empty, listed, or has one of the two host names anywhere in it. */
  lemma OriginAllowedIff(allowedOrigins: seq<string>, origin: Option<string>)
    ensures OriginAllowed(allowedOrigins, origin) <==>
              origin.None? || origin.value == "" || origin.value in allowedOrigins
              || (exists i :: OccursAt(origin.value, VercelHost, i))
              || (exists i :: OccursAt(origin.value, RenderHost, i))
  {
    if Truthy(origin) {
      var o := origin.value;
      assert Contains(o, VercelHost) <==> exists i :: OccursAt(o, VercelHost, i);
      assert Contains(o, RenderHost) <==> exists i :: OccursAt(o, RenderHost, i);
    }
  }

  /** A pattern holding a character the string lacks does not occur in it. */
  lemma AbsentByChar(s: string, pat: string, c: char)
    requires c in pat && c !in s
    ensures !Contains(s, pat)
  {
  }

  /** A pattern placed between two strings occurs right after the first. */
  lemma OccursBetween(p: string, pat: string, q: string)
    ensures OccursAt(p + pat + q, pat, |p|)
  {
    assert (p + pat + q)[|p|..|p| + |pat|] == pat;
  }

  /** The host test is a substring test: a host merely containing `.vercel.app`
      before its own domain is allowed. */
  lemma HostTestIsSubstring()
    ensures OriginAllowed([], Some("https://x" + VercelHost + ".example.com"))
  {
    OccursBetween("https://x", VercelHost, ".example.com");
  }

  /** An unlisted origin with neither host name is refused. */
  lemma UnlistedOriginRefused()
    ensures !OriginAllowed(LocalOrigins, Some("https://example.com"))
  {
    var o := "https://example.com";
    assert o !in LocalOrigins by {
      assert |o| == 19;
      assert |LocalOrigins[0]| == 21 && |LocalOrigins[1]| == 21 && |LocalOrigins[2]| == 21;
    }
    assert 'r' !in o;
    assert VercelHost[3] == 'r' && RenderHost[3] == 'r';
    AbsentByChar(o, VercelHost, 'r');
    AbsentByChar(o, RenderHost, 'r');
  }
}
