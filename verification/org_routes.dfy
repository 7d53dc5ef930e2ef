/**
 * The organisation routes: request validation, the gate's result, the
 * route's own 404/403 decisions, the call into the service, and the
 * translation of what the service raises into a response. The gate's
 * result is a parameter, so that the routes can be read for every caller.
 */
module OrgRoutes {
  import opened Wrappers
  import opened ObjectIds
  import opened Tables
  import opened Directory
  import OrgService
  import OrgModel
  import Deps
  import Text

  const Ok: int := 200
  const Created: int := 201

  /** A response body: an organisation view or a message. */
  datatype Body = OrgBody(view: OrgView) | MessageBody(message: string)

  datatype Response = Response(status: int, body: Body)

  /** The status code a request ending in `e` is answered with. */
  function StatusOf(e: Raised): int {
    match e
    case HttpException(status, _, _) => status
    case RequestInvalid(_) => Unprocessable
    case OtherException(_) => ServerError
  }

  /** The message of the `InvalidId` that `ObjectId(text)` raises on a malformed string. */
  function InvalidIdMessage(text: string): string {
    Repr(text) + " is not a valid ObjectId, it must be a 12-byte input or a 24-character hex string"
  }

  /**
   * `except HTTPException: raise` / `except Exception as e: raise
   * HTTPException(500, prefix + str(e))`: HTTP errors pass unchanged, any
   * other exception becomes a 500 carrying its message; the store is as the
   * service left it.
   */
  function Guard<T>(step: Step<T>, prefix: string): (r: Step<T>)
    ensures r.store == step.store
    ensures step.outcome.Success? ==> r.outcome == step.outcome
    ensures r.outcome.Failure? ==> !r.outcome.error.OtherException?
    ensures step.outcome.Failure? && !step.outcome.error.OtherException? ==> r.outcome == step.outcome
    ensures step.outcome.Failure? && step.outcome.error.OtherException? ==>
      r.outcome == Failure(HttpException(ServerError, prefix + step.outcome.error.message, false))
  {
    match step.outcome
    case Failure(OtherException(message)) => Step(step.store, Failure(HttpException(ServerError, prefix + message, false)))
    case _ => step
  }

  /** A returned organisation answered with `status`. */
  function Respond(step: Step<OrgView>, status: int): (r: Step<Response>)
    ensures r.store == step.store
    ensures r.outcome.Success? <==> step.outcome.Success?
    ensures r.outcome.Success? ==> r.outcome.value == Response(status, OrgBody(step.outcome.value))
    ensures r.outcome.Failure? ==> r.outcome.error == step.outcome.error
  {
    match step.outcome
    case Success(view) => Step(step.store, Success(Response(status, OrgBody(view))))
    case Failure(e) => Step(step.store, Failure(e))
  }

  /**
   * `POST /create`: a body that fails validation is 422 with no write;
   * otherwise `create_organization` runs on the trimmed name and a success
   * is answered 201 with the organisation view.
   */
  function CreateOrg(
    s: Store, name: string, email: string, password: string,
    hash: string -> string, adminCreatedAt: Timestamp, orgCreatedAt: Timestamp): (out: Step<Response>)
    ensures OrgModel.ValidateCreate(name, email, password).Failure? ==>
      out.store == s && out.outcome.Failure? && StatusOf(out.outcome.error) == Unprocessable
    ensures OrgModel.ValidateCreate(name, email, password).Success? ==>
      var service := OrgService.Create(s, Text.Strip(name), email, password, hash, adminCreatedAt, orgCreatedAt);
      && out.store == service.store
      && (service.outcome.Success? ==> out.outcome == Success(Response(Created, OrgBody(service.outcome.value))))
      && (service.outcome.Failure? ==> out.outcome == Failure(service.outcome.error))
    ensures out.outcome.Success? ==> out.outcome.value.status == Created
  {
    match OrgModel.ValidateCreate(name, email, password)
    case Failure(fields) => Step(s, Failure(RequestInvalid(fields)))
    case Success(body) =>
      var service := OrgService.Create(s, body.organizationName, body.email, body.password, hash, adminCreatedAt, orgCreatedAt);
      Respond(Guard(service, "Failed to create organization: "), Created)
  }

  /** `GET /{organization_name}`: 200 with the view, or 404 naming the path as given. */
  function GetOrg(s: Store, name: string): (out: Result<Response, Raised>)
    ensures out.Failure? <==>
      forall i :: 0 <= i < |s.organizations| ==> s.organizations[i].rec.organizationName != Text.Strip(name)
    ensures out.Failure? ==> out.error == HttpException(NotFound, "Organization '" + name + "' not found", false)
    ensures out.Success? ==> out.value == Response(Ok, OrgBody(OrgService.Get(s, name).value))
  {
    match OrgService.Get(s, name)
    case None => Failure(HttpException(NotFound, "Organization '" + name + "' not found", false))
    case Some(view) => Success(Response(Ok, OrgBody(view)))
  }

  /** A 200 from the get route describes the first organisation holding the trimmed name. */
  lemma GetOrgFirstMatch(s: Store, name: string)
    ensures GetOrg(s, name).Success? ==>
      exists i :: 0 <= i < |s.organizations|
        && s.organizations[i].rec.organizationName == Text.Strip(name)
        && (forall j :: 0 <= j < i ==> s.organizations[j].rec.organizationName != Text.Strip(name))
        && GetOrg(s, name).value == Response(Ok, OrgBody(ViewOf(s.organizations[i].rec)))
  {
    var found := Find(s.organizations, OrgNamed(Text.Strip(name)));
    if found.Some? {
      var i := found.value;
      assert OrgNamed(Text.Strip(name))(s.organizations[i]);
      forall j | 0 <= j < i
        ensures s.organizations[j].rec.organizationName != Text.Strip(name)
      {
        assert !OrgNamed(Text.Strip(name))(s.organizations[j]);
      }
    }
  }

  /**
   * `PUT /{organization_name}`. The gate's error is the answer; then a body
   * that fails validation is 422; then 404 when the trimmed name is unknown;
   * then 403 unless an organisation named exactly the raw path name belongs
   * to the caller. Only then does `update_organization` run.
   */
  function UpdateOrg(
    s: Store, path: string, gate: Result<Deps.CurrentAdmin, Raised>,
    newName: Option<string>, email: Option<string>, password: Option<string>,
    hash: string -> string): (out: Step<Response>)
    ensures gate.Failure? ==> out == Step(s, Failure(gate.error))
    ensures gate.Success? && OrgModel.ValidateUpdate(newName, email, password).Failure? ==>
      out.store == s && out.outcome.Failure? && StatusOf(out.outcome.error) == Unprocessable
    ensures (gate.Success? && OrgModel.ValidateUpdate(newName, email, password).Success?
             && OrgService.Get(s, path).None?) ==>
      out == Step(s, Failure(HttpException(NotFound, "Organization '" + path + "' not found", false)))
    ensures (gate.Success? && OrgModel.ValidateUpdate(newName, email, password).Success?
             && OrgService.Get(s, path).Some? && Parse(gate.value.adminId).Some?) ==>
      var owned := Find(s.organizations, OrgNamedOwnedBy(path, Parse(gate.value.adminId).value));
      && (owned.None? ==>
            out == Step(s, Failure(HttpException(Forbidden, "Only the organization admin can update this organization", false))))
      && (owned.Some? ==>
            var service := OrgService.Update(s, path, newName, email, password, hash);
            && out.store == service.store
            && (service.outcome.Success? ==> out.outcome == Success(Response(Ok, OrgBody(service.outcome.value))))
            && (service.outcome.Failure? && service.outcome.error.HttpException? ==> out.outcome == Failure(service.outcome.error))
            && (service.outcome.Failure? && service.outcome.error.OtherException? ==>
                  out.outcome == Failure(HttpException(ServerError,
                                                       "Failed to update organization: " + service.outcome.error.message, false))))
    ensures (gate.Success? && OrgModel.ValidateUpdate(newName, email, password).Success?
             && OrgService.Get(s, path).Some? && Parse(gate.value.adminId).None?) ==>
      out == Step(s, Failure(HttpException(ServerError, "Internal Server Error", false)))
    ensures out.store != s ==>
      gate.Success? && OrgService.Get(s, path).Some? && Parse(gate.value.adminId).Some?
      && Find(s.organizations, OrgNamedOwnedBy(path, Parse(gate.value.adminId).value)).Some?
  {
    match gate
    case Failure(e) => Step(s, Failure(e))
    case Success(caller) =>
      match OrgModel.ValidateUpdate(newName, email, password)
      case Failure(fields) => Step(s, Failure(RequestInvalid(fields)))
      case Success(body) =>
        if OrgService.Get(s, path).None? then
          Step(s, Failure(HttpException(NotFound, "Organization '" + path + "' not found", false)))
        else
          match Parse(caller.adminId)
          case None => Step(s, Failure(HttpException(ServerError, "Internal Server Error", false)))
          case Some(callerId) =>
            if Find(s.organizations, OrgNamedOwnedBy(path, callerId)).None? then
              Step(s, Failure(HttpException(Forbidden, "Only the organization admin can update this organization", false)))
            else
              RunUpdate(s, path, body, hash)
  }

  /** The service call of the update route and the translation of what it raises. */
  function RunUpdate(s: Store, path: string, body: OrgModel.OrgUpdate, hash: string -> string): (out: Step<Response>)
    ensures var service := OrgService.Update(s, path, body.newOrganizationName, body.email, body.password, hash);
      && out.store == service.store
      && (service.outcome.Success? ==> out.outcome == Success(Response(Ok, OrgBody(service.outcome.value))))
      && (service.outcome.Failure? && service.outcome.error.HttpException? ==> out.outcome == Failure(service.outcome.error))
      && (service.outcome.Failure? && service.outcome.error.OtherException? ==>
            out.outcome == Failure(HttpException(ServerError,
                                                 "Failed to update organization: " + service.outcome.error.message, false)))
  {
    var service := OrgService.Update(s, path, body.newOrganizationName, body.email, body.password, hash);
    Respond(Guard(service, "Failed to update organization: "), Ok)
  }

  /**
   * `DELETE /{organization_name}`. The gate's error is the answer; the
   * caller's id string is turned back into an ObjectId inside the route's
   * `try`, and the ownership decision is left to `delete_organization`.
   */
  function DeleteOrg(s: Store, path: string, gate: Result<Deps.CurrentAdmin, Raised>): (out: Step<Response>)
    ensures gate.Failure? ==> out == Step(s, Failure(gate.error))
    ensures gate.Success? && Parse(gate.value.adminId).None? ==>
      out == Step(s, Failure(HttpException(ServerError,
                                           "Failed to delete organization: " + InvalidIdMessage(gate.value.adminId), false)))
    ensures gate.Success? && Parse(gate.value.adminId).Some? ==>
      var service := OrgService.Delete(s, path, Parse(gate.value.adminId).value);
      && out.store == service.store
      && (service.outcome.Success? ==> out.outcome == Success(Response(Ok, MessageBody(service.outcome.value))))
      && (service.outcome.Failure? ==> out.outcome == Failure(service.outcome.error))
  {
    match gate
    case Failure(e) => Step(s, Failure(e))
    case Success(caller) =>
      match Parse(caller.adminId)
      case None =>
        Step(s, Failure(HttpException(ServerError, "Failed to delete organization: " + InvalidIdMessage(caller.adminId), false)))
      case Some(callerId) =>
        var service := Guard(OrgService.Delete(s, path, callerId), "Failed to delete organization: ");
        match service.outcome
        case Success(message) => Step(service.store, Success(Response(Ok, MessageBody(message))))
        case Failure(e) => Step(service.store, Failure(e))
  }
}
