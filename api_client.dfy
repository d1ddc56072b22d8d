/** The front end's API client set-up: the base URL, taken from the build
    environment and made to end in `/api`, and the request interceptor that adds
    the stored admin token as a bearer credential. */
module ApiClient {
  import opened JsStrings

  /** The back end's root when `VITE_API_URL` is not set. */
  const DefaultApiUrl := "http://localhost:5000"

  const ApiSuffix := "/api"

  const AuthorizationHeader := "Authorization"

  /** `import.meta.env.VITE_API_URL || 'http://localhost:5000'` */
  function RawApiUrl(env: Option<string>): (r: string)
    ensures Truthy(env) ==> r == env.value
    ensures !Truthy(env) ==> r == DefaultApiUrl
  {
    Or(env, Some(DefaultApiUrl)).value
  }

  /** `API_URL`: the raw URL, with `/api` appended unless it already ends with it. */
  function ApiUrl(raw: string): (r: string)
    ensures EndsWith(r, ApiSuffix)
    ensures StartsWith(r, raw) && (|r| == |raw| || |r| == |raw| + |ApiSuffix|)
    ensures r == raw <==> EndsWith(raw, ApiSuffix)
  {
    if EndsWith(raw, ApiSuffix) then raw else raw + ApiSuffix
  }

  /** A URL already normalised is left as it is. */
  lemma ApiUrlIdempotent(raw: string)
    ensures ApiUrl(ApiUrl(raw)) == ApiUrl(raw)
  {
  }

  /** Without `VITE_API_URL` (or with it empty) requests go to the local back end's `/api`. */
  lemma DefaultApiUrlNormalised(env: Option<string>)
    requires !Truthy(env)
    ensures ApiUrl(RawApiUrl(env)) == "http://localhost:5000/api"
  {
    assert !EndsWith(DefaultApiUrl, ApiSuffix) by {
      assert DefaultApiUrl[|DefaultApiUrl| - 1] == '0';
    }
  }

  /** Only a suffix of exactly `/api` is recognised: a URL ending in `/api/` gets a
      second `/api` after the slash. */
  lemma TrailingSlashNotRecognised(host: string)
    ensures ApiUrl(host + "/api/") == host + "/api/" + ApiSuffix
  {
    var u := host + "/api/";
    assert u[|u| - 1] == '/';
  }

  /** The `Authorization` value the interceptor writes for `token`. */
  function BearerHeader(token: string): (r: string)
    ensures StartsWith(r, "Bearer ") && r[|"Bearer "|..] == token
  {
    "Bearer " + token
  }

  /** The request configuration the interceptor is handed; only its headers matter here. */
  class RequestConfig {
    var headers: map<string, string>

    /** The instance's default headers. */
    constructor ()
      ensures headers == map["Content-Type" := "application/json"]
    {
      headers := map["Content-Type" := "application/json"];
    }

    /** The request interceptor, given what `localStorage.getItem('adminToken')`
        returned: a truthy token sets `Authorization` to `Bearer <token>`, and any
        other value leaves the headers as they were. */
    method Intercept(token: Option<string>)
      modifies this`headers
      ensures Truthy(token) ==> headers == old(headers)[AuthorizationHeader := BearerHeader(token.value)]
      ensures !Truthy(token) ==> headers == old(headers)
    {
      if Truthy(token) {
        headers := headers[AuthorizationHeader := "Bearer " + token.value];
      }
    }
  }
}
