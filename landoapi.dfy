/**
 * The request-independent parts of landoui/landoapi.py: the client's stored
 * base URL, the headers of a request, and the error raised for an error
 * response (RFC 7807 problem details).
 */
module LandoApi {
  import opened Wrappers
  import opened Json

  /** An `API` client as its constructor leaves it; nothing reassigns these afterwards. */
  datatype Api = Api(url: string, phabricatorApiToken: Option<string>, auth0AccessToken: Option<string>)

  /**
   * `API.__init__`: both branches of the trailing-slash test append "/", so
   * a URL already ending in "/" ends in "//". `url[-1]` of an empty URL
   * raises `IndexError`.
   */
  function NewApi(url: string, phabricatorApiToken: Option<string>, auth0AccessToken: Option<string>)
    : (r: Result<Api, PyError>)
    ensures r.Err? <==> url == ""
    ensures r.Err? ==> r.error == IndexError
    ensures r.Ok? ==> r.value == Api(url + "/", phabricatorApiToken, auth0AccessToken)
  {
    if url == "" then Err(IndexError)
    else
      var stored := if url[|url| - 1] == '/' then url + "/" else url + "/";
      Ok(Api(stored, phabricatorApiToken, auth0AccessToken))
  }

  /** The stored URL always ends in "/", and one given with a trailing "/" ends in "//". */
  lemma StoredUrlSlash(url: string, phab: Option<string>, auth0: Option<string>)
    requires url != ""
    ensures var stored := NewApi(url, phab, auth0).value.url;
      && stored[..|url|] == url && |stored| == |url| + 1 && stored[|url|] == '/'
      && (url[|url| - 1] == '/' ==> stored[|stored| - 2..] == "//")
  {
  }

  /** `if self.phabricator_api_token:`. */
  predicate SendsApiKey(api: Api) {
    api.phabricatorApiToken.Some? && api.phabricatorApiToken.value != ""
  }

  /**
   * The headers `API.request` sends: JSON content type always, a bearer
   * token when Auth0 is required (asserting the token is present), the
   * Phabricator API key when the client has a non-empty one, and then the
   * caller's own headers on top, overriding any of these.
   */
  method RequestHeaders(api: Api, requireAuth0: bool, callerHeaders: map<string, string>)
    returns (r: Result<map<string, string>, PyError>)
    ensures r.Err? <==> requireAuth0 && api.auth0AccessToken.None?
    ensures r.Err? ==> r.error == AssertionError
    ensures r.Ok? ==>
      r.value.Keys == {"Content-Type"}
                      + (if requireAuth0 then {"Authorization"} else {})
                      + (if SendsApiKey(api) then {"X-Phabricator-API-Key"} else {})
                      + callerHeaders.Keys
    ensures r.Ok? ==> forall k :: k in callerHeaders ==> r.value[k] == callerHeaders[k]
    ensures r.Ok? && "Content-Type" !in callerHeaders ==> r.value["Content-Type"] == "application/json"
    ensures r.Ok? && requireAuth0 && "Authorization" !in callerHeaders ==>
      r.value["Authorization"] == "Bearer " + api.auth0AccessToken.value
    ensures r.Ok? && SendsApiKey(api) && "X-Phabricator-API-Key" !in callerHeaders ==>
      r.value["X-Phabricator-API-Key"] == api.phabricatorApiToken.value
  {
    var headers := map["Content-Type" := "application/json"];
    if requireAuth0 {
      if api.auth0AccessToken.None? {
        return Err(AssertionError);
      }
      headers := headers["Authorization" := "Bearer " + api.auth0AccessToken.value];
    }
    if api.phabricatorApiToken.Some? && api.phabricatorApiToken.value != "" {
      headers := headers["X-Phabricator-API-Key" := api.phabricatorApiToken.value];
    }
    headers := headers + callerHeaders;
    r := Ok(headers);
  }

  /** A `LandoAPIError` as its constructor leaves it; `JNull` is Python's `None`. */
  datatype LandoApiError = LandoApiError(
    statusCode: int,
    response: Json,
    detail: Json,
    instance: Json,
    status: Json,
    title: Json,
    errorType: Json,
    message: Json)

  /**
   * `LandoAPIError.__init__`: the five problem-detail fields are read with
   * `data.get`, so a missing key is `None`; data that is not an object has
   * no `get`, and all five stay `None`. The exception message is the detail,
   * or "" when the detail is falsy.
   */
  function NewLandoApiError(statusCode: int, data: Json): (e: LandoApiError)
    ensures e.statusCode == statusCode && e.response == data
    ensures data.JObject? ==>
      && e.detail == Get(data.fields, "detail")
      && e.instance == Get(data.fields, "instance")
      && e.status == Get(data.fields, "status")
      && e.title == Get(data.fields, "title")
      && e.errorType == Get(data.fields, "type")
    ensures !data.JObject? ==>
      e.detail == JNull && e.instance == JNull && e.status == JNull && e.title == JNull && e.errorType == JNull
    ensures Truthy(e.detail) ==> e.message == e.detail
    ensures !Truthy(e.detail) ==> e.message == JStr("")
  {
    var fields :=
      match data
      case JObject(f) => (Get(f, "detail"), Get(f, "instance"), Get(f, "status"), Get(f, "title"), Get(f, "type"))
      case _ => (JNull, JNull, JNull, JNull, JNull);
    LandoApiError(statusCode, data, fields.0, fields.1, fields.2, fields.3, fields.4,
                  if Truthy(fields.0) then fields.0 else JStr(""))
  }

  /** `LandoAPIError.raise_if_error`: nothing below 400, otherwise the error built from the response. */
  function RaiseIfError(statusCode: int, data: Json): (r: Option<LandoApiError>)
    ensures r.None? <==> statusCode < 400
    ensures r.Some? ==> r.value.statusCode == statusCode && r.value.response == data
    ensures r.Some? ==> r.value == NewLandoApiError(statusCode, data)
  {
    if statusCode < 400 then None else Some(NewLandoApiError(statusCode, data))
  }

  /** A problem-details body: its fields are copied, the absent `instance` reads as `None`. */
  lemma ErrorWithDetails()
    ensures var data := JObject(map["detail" := JStr("Couldn't find it"), "status" := JInt(404),
                                    "title" := JStr("Not Found"), "type" := JStr("about:blank")]);
      var e := RaiseIfError(404, data);
      && e.Some?
      && e.value.detail == JStr("Couldn't find it") && e.value.title == JStr("Not Found")
      && e.value.errorType == JStr("about:blank") && e.value.statusCode == 404
      && e.value.response == data && e.value.instance == JNull
      && e.value.message == JStr("Couldn't find it")
  {
  }

  /** A list body still raises, with every problem-detail field `None` and an empty message. */
  lemma ErrorWithListBody()
    ensures var e := RaiseIfError(404, JArray([]));
      && e.Some? && e.value.detail == JNull && e.value.title == JNull && e.value.message == JStr("")
  {
  }
}
