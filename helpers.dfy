/** The standard reply bodies of app/utils/helpers.py. `make_response` and
    `jsonify` only serialise; the status and the body dictionary are modelled. */
module Helpers {
  import opened Values

  /** `success_response(data, message, status)`: `data` is kept unless it is
      None (so `[]`, `0` and `''` are kept), `message` only when truthy. */
  function SuccessResponse(data: Value := Null, message: Value := Null, status: int := 200): (r: Reply)
    ensures r.status == status && r.body.Dict?
    ensures "success" in r.body.entries && r.body.entries["success"] == Bool(true)
    ensures "data" in r.body.entries <==> data != Null
    ensures "data" in r.body.entries ==> r.body.entries["data"] == data
    ensures "message" in r.body.entries <==> Truthy(message)
    ensures "message" in r.body.entries ==> r.body.entries["message"] == message
    ensures r.body.entries.Keys <= {"success", "data", "message"}
  {
    var response := map["success" := Bool(true)];
    var response := if data != Null then response["data" := data] else response;
    var response := if Truthy(message) then response["message" := message] else response;
    Reply(status, Dict(response))
  }

  /** `error_response(message, status, errors)`: `errors` only when truthy. */
  function ErrorResponse(message: Value, status: int := 400, errors: Value := Null): (r: Reply)
    ensures r.status == status && r.body.Dict?
    ensures "success" in r.body.entries && r.body.entries["success"] == Bool(false)
    ensures "error" in r.body.entries && r.body.entries["error"] == message
    ensures "errors" in r.body.entries <==> Truthy(errors)
    ensures "errors" in r.body.entries ==> r.body.entries["errors"] == errors
    ensures r.body.entries.Keys <= {"success", "error", "errors"}
  {
    var response := map["success" := Bool(false), "error" := message];
    var response := if Truthy(errors) then response["errors" := errors] else response;
    Reply(status, Dict(response))
  }

  /** What `query.paginate(...)` hands back; computing it is not part of this model. */
  datatype Pagination<T> = Pagination(items: seq<T>, total: nat, pages: nat, hasNext: bool, hasPrev: bool)

  /** `paginate_response(query, page, per_page)` for the page `p` of the
      query; `toDict` is the items' `to_dict`. */
  function PaginateResponse<T>(p: Pagination<T>, toDict: T -> map<string, Value>,
                               page: int := 1, perPage: int := 10): (r: map<string, Value>)
    ensures r.Keys == {"items", "total", "pages", "current_page", "per_page", "has_next", "has_prev"}
    ensures r["current_page"] == Int(page) && r["per_page"] == Int(perPage)
    ensures r["items"].List? && |r["items"].items| == |p.items|
    ensures forall i :: 0 <= i < |p.items| ==> r["items"].items[i] == Dict(toDict(p.items[i]))
    ensures r["total"] == Int(p.total) && r["pages"] == Int(p.pages)
    ensures r["has_next"] == Bool(p.hasNext) && r["has_prev"] == Bool(p.hasPrev)
  {
    map["items" := List(seq(|p.items|, i requires 0 <= i < |p.items| => Dict(toDict(p.items[i])))),
        "total" := Int(p.total),
        "pages" := Int(p.pages),
        "current_page" := Int(page),
        "per_page" := Int(perPage),
        "has_next" := Bool(p.hasNext),
        "has_prev" := Bool(p.hasPrev)]
  }
}
