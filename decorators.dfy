/** `admin_required` (app/utils/decorators.py): the wrapped view runs only
    for a caller whose user record exists and is an admin. */
module Decorators {
  import opened Values
  import opened UserModel

  const AdminAccessRequired := "Admin access required"

  /** The decision taken before the view: `None` lets the call through,
      `Some(reply)` answers instead of the view. The token is checked first;
      `None` as caller is a request whose token `verify_jwt_in_request`
      refuses. */
  function AdminDecision(caller: Option<nat>, users: map<nat, User>): (r: Option<Reply>)
    ensures r.None? <==> caller.Some? && caller.value in users && users[caller.value].isAdmin
    ensures caller.None? ==> r == Some(FrameworkReply(401))
    ensures caller.Some? && r.Some? ==> r == Some(ErrorReply(403, AdminAccessRequired))
  {
    if caller.None? then Some(FrameworkReply(401))
    else if caller.value !in users || !users[caller.value].isAdmin then
      Some(ErrorReply(403, AdminAccessRequired))
    else None
  }

  /** The decorated view: `view` stands for what `f(*args, **kwargs)` returns. */
  function AdminRequired(caller: Option<nat>, users: map<nat, User>, view: Reply): (r: Reply)
    ensures r == view || r.status == 401 || r.status == 403
  {
    match AdminDecision(caller, users)
    case None => view
    case Some(reply) => reply
  }

  /** The three outcomes of the decorator, and that the view's reply is
      passed back unchanged. */
  lemma AdminRequiredOutcomes(caller: Option<nat>, users: map<nat, User>, view: Reply)
    ensures caller.None? ==> AdminRequired(caller, users, view) == FrameworkReply(401)
    ensures caller.Some? && caller.value !in users ==>
      AdminRequired(caller, users, view) == ErrorReply(403, AdminAccessRequired)
    ensures caller.Some? && caller.value in users && !users[caller.value].isAdmin ==>
      AdminRequired(caller, users, view) == ErrorReply(403, AdminAccessRequired)
    ensures caller.Some? && caller.value in users && users[caller.value].isAdmin ==>
      AdminRequired(caller, users, view) == view
  {
  }

  /** The decision does not depend on the view: two views are treated alike
      unless the call goes through. */
  lemma AdminDecisionIgnoresView(caller: Option<nat>, users: map<nat, User>, v1: Reply, v2: Reply)
    ensures AdminDecision(caller, users).Some? ==>
      AdminRequired(caller, users, v1) == AdminRequired(caller, users, v2)
  {
  }
}
