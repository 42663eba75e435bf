/**
 Which tenant a request acts on: the middleware that attaches the identity and the tenant
 schema, and the guard that compares every tenant identifier of the request with it.

 The route of a request and the outcomes of the two token parsers are inputs, and the
 parent repository is present. Lower-casing is any function that leaves lower-case ASCII
 letters, digits and underscores alone, and leaves alone what it has produced once.
 */
module TenantContext {
  import opened Common

  type Lower = string -> string

  predicate Plain(s: string) {
    forall c <- s :: 'a' <= c <= 'z' || '0' <= c <= '9' || c == '_'
  }

  ghost predicate LowerCases(lower: Lower) {
    && (forall s :: Plain(s) ==> lower(s) == s)
    && (forall s :: lower(SchemaOf(lower, s)) == SchemaOf(lower, s))
  }

  const PREFIX: string := "tenant_"

  /** The schema of a tenant. */
  function SchemaOf(lower: Lower, tenantId: string): string {
    PREFIX + lower(tenantId)
  }

  // ----- Requests -----

  /** A property of the body, of the query or a header, as JavaScript sees it. */
  datatype Field = Absent | Null | Text(text: string) | Other(printed: string, truthy: bool) {
    predicate Present() {
      Text? || Other?
    }

    predicate Truthy() {
      (Text? && text != "") || (Other? && truthy)
    }

    /** `String(x)` */
    function Printed(): string {
      match this
      case Absent => "undefined"
      case Null => "null"
      case Text(s) => s
      case Other(s, _) => s
    }
  }

  datatype Bag = Bag(tenantId: Field, tenantSchema: Field)

  /** `?tenantSchema=` in the raw URL, decoded. */
  datatype UrlParam = NoParam | Param(value: string) | Malformed

  datatype User = User(sub: string, tenantId: Option<string>, role: string)

  /** `body` and `query` are `None` when they are not objects. */
  datatype Request = Request(body: Option<Bag>, query: Option<Bag>, header: Field, url: UrlParam,
                             user: Option<User>, parent: Option<string>, tenantSchema: Option<string>)

  datatype Route = Public | ParentRegister | ParentArea | ParentDb | TenantContexts | Admin | Onboarding | Business

  /** What the two parsers make of the bearer token. */
  datatype ParentParse = ParentOk(parentId: string) | ParentFailed(audienceMismatch: bool, peeksAsStaff: bool)

  datatype Token = NoToken | Token(staff: Option<User>, parent: ParentParse)

  datatype Binding = Binding(tenantId: string, active: bool)

  /** The active and inactive bindings of a parent, or `None` when the query fails. */
  type Bindings = string -> Option<seq<Binding>>

  datatype Error = Unauthorized | Forbidden | BadUrl

  predicate IsPlatformRole(role: string) {
    role == "platform_admin" || role == "finance_admin"
  }

  /** `/^tenant_[a-z0-9]+$/` */
  predicate SchemaForm(s: string) {
    |s| > 7 && s[..7] == PREFIX && forall c <- s[7..] :: 'a' <= c <= 'z' || '0' <= c <= '9'
  }

  // ----- The middleware -----

  function FilledIn(bag: Option<Bag>, schema: string): Option<Bag> {
    if bag.Some? && !bag.value.tenantSchema.Truthy() then Some(bag.value.(tenantSchema := Text(schema))) else bag
  }

  /** Header, body or URL, the first that is truthy. */
  function ExtractTenantSchema(r: Request): Result<string, Error> {
    if r.url.Malformed? then Err(BadUrl)
    else
      var raw :=
        if r.header.Truthy() then r.header.Printed()
        else if r.body.Some? && r.body.value.tenantSchema.Truthy() then r.body.value.tenantSchema.Printed()
        else if r.url.Param? then r.url.value
        else "";
      if SchemaForm(raw) then Ok(raw) else Err(Unauthorized)
  }

  function WithSchema(r: Request, schema: string): Request {
    r.(tenantSchema := Some(schema), query := FilledIn(r.query, schema), body := FilledIn(r.body, schema))
  }

  function WithParent(r: Request, parentId: string, tenantId: Option<string>): Request {
    r.(user := Some(User(parentId, tenantId, "parent")), parent := Some(parentId))
  }

  predicate Bound(lower: Lower, bs: seq<Binding>, tenantId: string) {
    exists b <- bs :: b.active && lower(b.tenantId) == lower(tenantId)
  }

  function Used(lower: Lower, r: Request, route: Route, token: Token, bindings: Bindings): Result<Request, Error> {
    match route
    case Public => Ok(if token.Token? && token.staff.Some? then r.(user := token.staff) else r)
    case ParentRegister => Ok(if token.Token? && token.staff.Some? then r.(user := token.staff) else r)
    case ParentArea =>
      if token.NoToken? then Err(Unauthorized)
      else if token.parent.ParentOk? then Ok(r.(parent := Some(token.parent.parentId)))
      else if token.parent.audienceMismatch || token.parent.peeksAsStaff || token.staff.None? then Err(Unauthorized)
      else Ok(r.(user := token.staff))
    case ParentDb =>
      if token.NoToken? then Err(Unauthorized)
      else if token.parent.ParentFailed? then (if token.staff.None? then Err(Unauthorized) else Ok(r.(user := token.staff)))
      else
        (match ExtractTenantSchema(r)
         case Err(e) => Err(e)
         case Ok(schema) =>
           var requested := schema[7..];
           var bs := bindings(token.parent.parentId);
           if bs.None? || !Bound(lower, bs.value, requested) then Err(Forbidden)
           else Ok(WithSchema(WithParent(r, token.parent.parentId, Some(requested)), schema)))
    case TenantContexts =>
      if token.NoToken? then Err(Unauthorized)
      else if token.parent.ParentFailed? then (if token.staff.None? then Err(Unauthorized) else Ok(r.(user := token.staff)))
      else Ok(WithParent(r, token.parent.parentId, None))
    case Admin =>
      if token.NoToken? || token.staff.None? then Err(Unauthorized)
      else if token.staff.value.tenantId.Some? || !IsPlatformRole(token.staff.value.role) then Err(Unauthorized)
      else Ok(r.(user := token.staff))
    case Onboarding =>
      if token.NoToken? || token.staff.None? then Err(Unauthorized) else Ok(r.(user := token.staff))
    case Business =>
      if token.NoToken? || token.staff.None? then Err(Unauthorized)
      else if token.staff.value.tenantId.None? || token.staff.value.tenantId.value == "" then Err(Unauthorized)
      else Ok(WithSchema(r.(user := token.staff), SchemaOf(lower, token.staff.value.tenantId.value)))
  }

  class HttpRequest {
    const header: Field
    const url: UrlParam
    var body: Option<Bag>
    var query: Option<Bag>
    var user: Option<User>
    var parent: Option<string>
    var tenantSchema: Option<string>

    /** A request before any middleware has seen it. */
    constructor (body: Option<Bag>, query: Option<Bag>, header: Field, url: UrlParam)
      ensures Value() == Request(body, query, header, url, None, None, None)
    {
      this.body, this.query, this.header, this.url := body, query, header, url;
      user, parent, tenantSchema := None, None, None;
    }

    function Value(): Request
      reads this
    {
      Request(body, query, header, url, user, parent, tenantSchema)
    }

    method BackfillTenantSchema(schema: string)
      modifies this`query, this`body
      ensures query == FilledIn(old(query), schema) && body == FilledIn(old(body), schema)
    {
      if query.Some? && !query.value.tenantSchema.Truthy() {
        query := Some(query.value.(tenantSchema := Text(schema)));
      }
      if body.Some? && !body.value.tenantSchema.Truthy() {
        body := Some(body.value.(tenantSchema := Text(schema)));
      }
    }

    method AttachParentUser(parentId: string, tenantId: Option<string>, schema: Option<string>)
      modifies this
      ensures Value() == var r := WithParent(old(Value()), parentId, tenantId);
                         if schema.Some? then WithSchema(r, schema.value) else r
    {
      user := Some(User(parentId, tenantId, "parent"));
      parent := Some(parentId);
      if schema.Some? {
        tenantSchema := schema;
        BackfillTenantSchema(schema.value);
      }
    }
  }

  /** The middleware. A refused request goes no further, so only the accepted ones say
      what has been written to them. */
  method Use(lower: Lower, req: HttpRequest, route: Route, token: Token, bindings: Bindings) returns (refused: Option<Error>)
    modifies req
    ensures refused.None? <==> Used(lower, old(req.Value()), route, token, bindings).Ok?
    ensures refused.None? ==> Ok(req.Value()) == Used(lower, old(req.Value()), route, token, bindings)
    ensures refused.Some? ==> Err(refused.value) == Used(lower, old(req.Value()), route, token, bindings)
  {
    if route.Public? || route.ParentRegister? {
      if token.Token? && token.staff.Some? {
        req.user := token.staff;
      }
      return None;
    }
    if token.NoToken? {
      return Some(Unauthorized);
    }
    if route.ParentArea? {
      if token.parent.ParentOk? {
        req.parent := Some(token.parent.parentId);
        return None;
      }
      if token.parent.audienceMismatch || token.parent.peeksAsStaff {
        return Some(Unauthorized);
      }
    }
    if (route.ParentDb? || route.TenantContexts?) && token.parent.ParentOk? {
      refused := RequireParentDbUser(lower, req, route, token.parent.parentId, bindings);
      return;
    }
    if token.staff.None? {
      return Some(Unauthorized);
    }
    req.user := token.staff;
    var user := token.staff.value;
    if route.Admin? {
      return if user.tenantId.Some? || !IsPlatformRole(user.role) then Some(Unauthorized) else None;
    }
    if route.Business? {
      if user.tenantId.None? || user.tenantId.value == "" {
        return Some(Unauthorized);
      }
      var schema := SchemaOf(lower, user.tenantId.value);
      req.tenantSchema := Some(schema);
      req.BackfillTenantSchema(schema);
    }
    return None;
  }

  method RequireParentDbUser(lower: Lower, req: HttpRequest, route: Route, parentId: string, bindings: Bindings)
    returns (refused: Option<Error>)
    requires route.ParentDb? || route.TenantContexts?
    modifies req
    ensures var used := Used(lower, old(req.Value()), route, Token(None, ParentOk(parentId)), bindings);
            if refused.None? then used == Ok(req.Value()) else used == Err(refused.value)
  {
    if route.TenantContexts? {
      req.AttachParentUser(parentId, None, None);
      return None;
    }
    var schema := ExtractTenantSchema(req.Value());
    if schema.Err? {
      return Some(schema.error);
    }
    var requestedTenantId := schema.value[7..];
    var bs := bindings(parentId);
    if bs.None? || !Bound(lower, bs.value, requestedTenantId) {
      return Some(Forbidden);
    }
    req.AttachParentUser(parentId, Some(requestedTenantId), Some(schema.value));
    return None;
  }

  // ----- The guard -----

  /** An identifier in the body or the query is missing or is the tenant's id itself. */
  predicate IdAgrees(bag: Option<Bag>, tenantId: string) {
    bag.Some? && bag.value.tenantId.Present() ==> bag.value.tenantId == Text(tenantId)
  }

  /** A schema name is missing or, but for its case, the tenant's. */
  predicate SchemaAgrees(lower: Lower, f: Field, tenantId: string) {
    f.Present() ==> lower(f.Printed()) == SchemaOf(lower, tenantId)
  }

  function Guard(lower: Lower, r: Request): Result<(), Error> {
    if r.user.None? then Err(Unauthorized)
    else if IsPlatformRole(r.user.value.role) then Ok(())
    else if r.user.value.tenantId.None? || r.user.value.tenantId.value == "" then Err(Forbidden)
    else
      var id := r.user.value.tenantId.value;
      if !IdAgrees(r.body, id) then Err(Forbidden)
      else if r.body.Some? && !SchemaAgrees(lower, r.body.value.tenantSchema, id) then Err(Forbidden)
      else if !IdAgrees(r.query, id) then Err(Forbidden)
      else if r.query.Some? && !SchemaAgrees(lower, r.query.value.tenantSchema, id) then Err(Forbidden)
      else if !SchemaAgrees(lower, r.header, id) then Err(Forbidden)
      else Ok(())
  }

  // ----- What passing both means -----

  /** A tenant identifier: an id, or the name of a schema. */
  datatype Identifier = TenantId(f: Field) | SchemaName(f: Field)

  /** Every tenant identifier the request carries when it reaches the handler. */
  function Identifiers(r: Request): seq<Identifier> {
    (if r.body.Some? && r.body.value.tenantId.Present() then [TenantId(r.body.value.tenantId)] else [])
    + (if r.body.Some? && r.body.value.tenantSchema.Present() then [SchemaName(r.body.value.tenantSchema)] else [])
    + (if r.query.Some? && r.query.value.tenantId.Present() then [TenantId(r.query.value.tenantId)] else [])
    + (if r.query.Some? && r.query.value.tenantSchema.Present() then [SchemaName(r.query.value.tenantSchema)] else [])
    + (if r.header.Present() then [SchemaName(r.header)] else [])
    + (if r.tenantSchema.Some? then [SchemaName(Text(r.tenantSchema.value))] else [])
  }

  /** The tenant an identifier names, but for its case. */
  function Named(lower: Lower, i: Identifier): Option<string> {
    match i
    case TenantId(f) => Some(lower(f.Printed()))
    case SchemaName(f) =>
      var s := lower(f.Printed());
      if |s| >= 7 && s[..7] == PREFIX then Some(s[7..]) else None
  }

  predicate Fresh(r: Request) {
    r.user.None? && r.parent.None? && r.tenantSchema.None?
  }

  /** The parent has an active binding to the tenant, whatever the case of its id. */
  predicate ActivelyBound(lower: Lower, bindings: Bindings, parentId: string, tenantId: string) {
    bindings(parentId).Some? &&
    exists b <- bindings(parentId).value :: b.active && lower(b.tenantId) == lower(tenantId)
  }

  /** The tenant comes from a verified source: the staff token, or a binding of the parent. */
  predicate Entitled(lower: Lower, token: Token, bindings: Bindings, user: User, tenantId: string) {
    && token.Token?
    && (token.staff == Some(user)
        || (token.parent == ParentOk(user.sub) && ActivelyBound(lower, bindings, user.sub, tenantId)))
  }

  lemma PrefixIsPlain()
    ensures Plain(PREFIX)
  {
  }

  lemma PlainTenant(lower: Lower, schema: string)
    requires LowerCases(lower) && SchemaForm(schema)
    ensures lower(schema) == schema && lower(schema[7..]) == schema[7..] && schema == PREFIX + schema[7..]
  {
    assert Plain(schema[7..]);
    assert Plain(schema) by {
      forall i | 0 <= i < |schema|
        ensures 'a' <= schema[i] <= 'z' || '0' <= schema[i] <= '9' || schema[i] == '_'
      {
        if i < 7 {
          PrefixIsPlain();
          assert schema[i] == schema[..7][i] && PREFIX[i] in PREFIX;
        } else {
          assert schema[i] == schema[7..][i - 7] && schema[i] in schema[7..];
        }
      }
    }
  }

  /** A request that passes the middleware and then the guard, and is not made by the
      platform, acts on one tenant: every identifier it carries, supplied or filled in,
      names that tenant, and the tenant is the token's own for staff and an actively bound
      one for a parent. */
  lemma OneTenant(lower: Lower, r0: Request, route: Route, token: Token, bindings: Bindings)
    requires LowerCases(lower) && Fresh(r0)
    requires Used(lower, r0, route, token, bindings).Ok?
    requires var r := Used(lower, r0, route, token, bindings).value;
             Guard(lower, r).Ok? && r.user.Some? && !IsPlatformRole(r.user.value.role)
    ensures var r := Used(lower, r0, route, token, bindings).value;
            && r.user.value.tenantId.Some?
            && (forall i <- Identifiers(r) :: Named(lower, i) == Some(lower(r.user.value.tenantId.value)))
            && Entitled(lower, token, bindings, r.user.value, r.user.value.tenantId.value)
  {
    var r := Used(lower, r0, route, token, bindings).value;
    var id := r.user.value.tenantId.value;
    if route.ParentDb? && token.parent.ParentOk? {
      PlainTenant(lower, ExtractTenantSchema(r0).value);
    }
    assert SchemaOf(lower, id)[..7] == PREFIX && SchemaOf(lower, id)[7..] == lower(id);
    assert r.tenantSchema.Some? ==> lower(r.tenantSchema.value) == SchemaOf(lower, id);
  }

  /** Where the middleware resolves a tenant, every handler finds its schema in the body
      and in the query, and it is the resolved one. */
  lemma HandlersFindSchema(lower: Lower, r0: Request, route: Route, token: Token, bindings: Bindings)
    requires LowerCases(lower) && Fresh(r0) && Used(lower, r0, route, token, bindings).Ok?
    requires var r := Used(lower, r0, route, token, bindings).value;
             r.tenantSchema.Some? && Guard(lower, r).Ok? && !IsPlatformRole(r.user.value.role)
    ensures var r := Used(lower, r0, route, token, bindings).value;
            && (r.body.Some? ==> lower(r.body.value.tenantSchema.Printed()) == r.tenantSchema.value)
            && (r.query.Some? ==> lower(r.query.value.tenantSchema.Printed()) == r.tenantSchema.value)
  {
    if route.ParentDb? {
      PlainTenant(lower, ExtractTenantSchema(r0).value);
    }
  }

  // ----- Who passes -----

  predicate Omitted(f: Field) {
    f.Absent? || f.Null?
  }

  /** A value that JavaScript takes for false. */
  predicate Blank(f: Field) {
    Omitted(f) || f == Text("") || (f.Other? && !f.truthy)
  }

  predicate SchemaIs(lower: Lower, f: Field, id: string) {
    lower(f.Printed()) == "tenant_" + lower(id)
  }

  /** Nothing the caller supplies contradicts the tenant: an id must be the tenant's own to the
      letter, a schema its schema in any case. A blank schema in the body or the query is
      replaced before it is looked at, one in the header is not. */
  predicate Consistent(lower: Lower, r: Request, id: string) {
    && (r.body.Some? ==> (Omitted(r.body.value.tenantId) || r.body.value.tenantId == Text(id))
                         && (Blank(r.body.value.tenantSchema) || SchemaIs(lower, r.body.value.tenantSchema, id)))
    && (r.query.Some? ==> (Omitted(r.query.value.tenantId) || r.query.value.tenantId == Text(id))
                          && (Blank(r.query.value.tenantSchema) || SchemaIs(lower, r.query.value.tenantSchema, id)))
    && (Omitted(r.header) || SchemaIs(lower, r.header, id))
  }

  /** Staff requests on business routes pass exactly when the token names a tenant and nothing
      they supply contradicts it. */
  lemma StaffPassesExactly(lower: Lower, r0: Request, user: User, parent: ParentParse, bindings: Bindings)
    requires LowerCases(lower) && Fresh(r0) && !IsPlatformRole(user.role)
    ensures var used := Used(lower, r0, Business, Token(Some(user), parent), bindings);
            (used.Ok? && Guard(lower, used.value).Ok?) <==>
              user.tenantId.Some? && user.tenantId.value != "" && Consistent(lower, r0, user.tenantId.value)
  {
    if user.tenantId.Some? && user.tenantId.value != "" {
      GuardPassesConsistent(lower, r0, user, r0.parent, SchemaOf(lower, user.tenantId.value));
    }
  }

  /** The schema asked for: that of the header, else of the body, else of the URL. */
  function Asked(r: Request): string {
    if !Blank(r.header) then r.header.Printed()
    else if r.body.Some? && !Blank(r.body.value.tenantSchema) then r.body.value.tenantSchema.Printed()
    else if r.url.Param? then r.url.value
    else ""
  }

  /** `tenant_` and one or more lower-case letters or digits. */
  predicate WellFormed(s: string) {
    8 <= |s| && "tenant_" <= s && forall c <- s[7..] :: 'a' <= c <= 'z' || '0' <= c <= '9'
  }

  lemma AskedIsExtracted(r: Request)
    ensures ExtractTenantSchema(r) == if r.url.Malformed? then Err(BadUrl)
                                      else if WellFormed(Asked(r)) then Ok(Asked(r)) else Err(Unauthorized)
  {
    assert SchemaForm(Asked(r)) <==> WellFormed(Asked(r));
  }

  /** With a tenant and its schema attached, the guard lets exactly consistent requests pass. */
  lemma GuardPassesConsistent(lower: Lower, r0: Request, user: User, parent: Option<string>, schema: string)
    requires user.tenantId.Some? && user.tenantId.value != "" && !IsPlatformRole(user.role)
    requires lower(schema) == SchemaOf(lower, user.tenantId.value)
    ensures Guard(lower, WithSchema(r0.(user := Some(user), parent := parent), schema)).Ok? <==>
              Consistent(lower, r0, user.tenantId.value)
  {
  }

  /** A parent's request passes exactly when its URL can be decoded, the schema it asks for is
      well formed and that of a tenant the parent is actively bound to, and nothing else in
      the request contradicts it. */
  lemma ParentPassesExactly(lower: Lower, r0: Request, parentId: string, bindings: Bindings)
    requires LowerCases(lower) && Fresh(r0)
    ensures var used, s := Used(lower, r0, ParentDb, Token(None, ParentOk(parentId)), bindings), Asked(r0);
            (used.Ok? && Guard(lower, used.value).Ok?) <==>
              !r0.url.Malformed? && WellFormed(s) && ActivelyBound(lower, bindings, parentId, s[7..]) && Consistent(lower, r0, s[7..])
  {
    var s := Asked(r0);
    AskedIsExtracted(r0);
    if !r0.url.Malformed? && WellFormed(s) {
      PlainTenant(lower, s);
      GuardPassesConsistent(lower, r0, User(parentId, Some(s[7..]), "parent"), Some(parentId), s);
    }
  }

  /** What a passing parent request is given: the parent's identity, the tenant and its schema. */
  lemma ParentIsAttached(lower: Lower, r0: Request, parentId: string, bindings: Bindings)
    requires Used(lower, r0, ParentDb, Token(None, ParentOk(parentId)), bindings).Ok?
    ensures var r, s := Used(lower, r0, ParentDb, Token(None, ParentOk(parentId)), bindings).value, Asked(r0);
            && r.parent == Some(parentId) && r.tenantSchema == Some(s) && |s| > 7
            && r.user == Some(User(parentId, Some(s[7..]), "parent"))
            && r.header == r0.header && r.url == r0.url
  {
    AskedIsExtracted(r0);
  }

  /** The guard refuses who is not identified, lets the platform act on any tenant, and refuses
      everyone else who has no tenant. */
  lemma GuardByRole(lower: Lower, r: Request)
    ensures r.user.None? ==> Guard(lower, r) == Err(Unauthorized)
    ensures r.user.Some? && (r.user.value.role == "platform_admin" || r.user.value.role == "finance_admin") ==>
              Guard(lower, r) == Ok(())
    ensures (r.user.Some? && r.user.value.role != "platform_admin" && r.user.value.role != "finance_admin"
             && (r.user.value.tenantId.None? || r.user.value.tenantId.value == "")) ==> Guard(lower, r) == Err(Forbidden)
  {
  }

  /** Who gets past the middleware where no tenant is resolved. Public and registration
      routes are open to all; the admin area lets exactly platform staff without a tenant in,
      onboarding any staff, the parent area a parent or else staff whose token is not one for
      the staff application, the list of tenants a parent or staff; without a parent's token
      the routes that parents share with staff are for any staff. */
  lemma PassesByRoute(lower: Lower, r0: Request, route: Route, token: Token, bindings: Bindings)
    requires route.ParentDb? || route.Business? ==> token.NoToken? || (route.ParentDb? && token.parent.ParentFailed?)
    ensures var passes, staff := Used(lower, r0, route, token, bindings).Ok?, token.Token? && token.staff.Some?;
            match route
            case Public => passes
            case ParentRegister => passes
            case Admin =>
              passes <==> staff && token.staff.value.tenantId.None?
                          && (token.staff.value.role == "platform_admin" || token.staff.value.role == "finance_admin")
            case Onboarding => passes <==> staff
            case ParentArea =>
              passes <==> token.Token? && (token.parent.ParentOk? ||
                                           (staff && !token.parent.audienceMismatch && !token.parent.peeksAsStaff))
            case TenantContexts => passes <==> token.Token? && (token.parent.ParentOk? || staff)
            case ParentDb => passes <==> staff
            case Business => !passes
  {
  }

  /** And what they are given: the identity of their token and no tenant; nothing they sent is
      changed. */
  lemma IdentityByRoute(lower: Lower, r0: Request, route: Route, token: Token, bindings: Bindings)
    requires route.ParentDb? ==> token.Token? && token.parent.ParentFailed?
    requires Fresh(r0) && !route.Business? && Used(lower, r0, route, token, bindings).Ok?
    ensures var r := Used(lower, r0, route, token, bindings).value;
            && r.tenantSchema.None? && r.body == r0.body && r.query == r0.query
            && (token.NoToken? ==> r == r0)
            && (token.Token? && (route.ParentArea? || route.TenantContexts?) && token.parent.ParentOk? ==>
                  && r.parent == Some(token.parent.parentId)
                  && r.user == (if route.ParentArea? then None else Some(User(token.parent.parentId, None, "parent"))))
            && (token.Token? && (token.parent.ParentFailed? || !(route.ParentArea? || route.TenantContexts?)) ==>
                  r.user == token.staff && r.parent.None?)
  {
  }
}
