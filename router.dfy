/**
 * Route construction (`createRoute`): the path a route's access rule is
 * looked up under, the access the route ends up with, and the shape of
 * the route object handed to the router. The access table itself
 * (`getRouteConfig`) is a parameter.
 */
module Router {
  import opened Js

  /** The props `createRoute` destructures by name; everything else is `meta`. */
  const NamedProps: set<string> := {"path", "index", "element", "access", "children"}

  /**
   * `path.startsWith('/') ? path : `/${path}``: the lookup path always
   * starts with '/', and a path that already does is left alone.
   */
  function LeadingSlash(path: string): (p: string)
    ensures |p| > 0 && p[0] == '/'
    ensures |path| > 0 && path[0] == '/' ==> p == path
    ensures !(|path| > 0 && path[0] == '/') ==> p[1..] == path
  {
    if |path| > 0 && path[0] == '/' then path else "/" + path
  }

  /** Normalising twice is normalising once. */
  lemma LeadingSlashIdempotent(path: string)
    ensures LeadingSlash(LeadingSlash(path)) == LeadingSlash(path)
  {
  }

  /**
   * The path the access rule is looked up under: "/" for an index route,
   * whatever its `path`; otherwise the path with a leading slash. A
   * non-index route whose `path` is not a string throws (`startsWith` is
   * not a function of it): None.
   */
  function ConfigPath(index: JsValue, path: JsValue): (p: Option<string>)
    ensures IsTruthy(index) ==> p == Some("/")
    ensures !IsTruthy(index) ==> (p.Some? <==> path.Str?)
    ensures !IsTruthy(index) && path.Str? ==> p == Some(LeadingSlash(path.s))
  {
    if IsTruthy(index) then Some("/")
    else if path.Str? then Some(LeadingSlash(path.s))
    else None
  }

  /** The props other than the five named ones (`...meta`). */
  function Meta(props: Fields): (meta: Fields)
    ensures meta.Keys == props.Keys - NamedProps
    ensures forall k :: k in meta ==> meta[k] == props[k]
  {
    map k | k in props && k !in NamedProps :: props[k]
  }

  /** `<Suspense fallback={<div>Loading.....</div>}>{element}</Suspense>` as a value. */
  function Suspended(element: JsValue): JsValue {
    Obj(map["type" := Str("Suspense"), "fallback" := Str("Loading....."), "children" := element])
  }

  /** `children && children.length > 0` */
  predicate HasChildren(children: JsValue)
    ensures children.Arr? ==> (HasChildren(children) <==> |children.elems| > 0)
    ensures !children.Arr? && !children.Str? && !children.Obj? ==> !HasChildren(children)
  {
    IsTruthy(children) && IsPositive(Prop(children, "length"))
  }

  /**
   * `createRoute(props)`, or None when it throws. An index route carries
   * `index: true` and no `path`; any other carries its own path as given.
   * The element is wrapped in a loading boundary when present; `handle`
   * holds every extra prop plus `access`, which is the explicit access if
   * truthy and else the `allow` of the rule found under the lookup path;
   * `children` is attached only when it is a non-empty list.
   */
  function CreateRoute(props: Fields, getRouteConfig: string -> JsValue): (route: Option<Fields>)
    ensures route.None? <==> ConfigPath(Get(props, "index"), Get(props, "path")).None?
    ensures route.Some? ==>
      var r := route.value;
      var configPath := ConfigPath(Get(props, "index"), Get(props, "path")).value;
      && r.Keys == (if IsTruthy(Get(props, "index")) then {"index"} else {"path"}) + {"element", "handle"}
                   + (if HasChildren(Get(props, "children")) then {"children"} else {})
      && (IsTruthy(Get(props, "index")) ==> r["index"] == Bool(true))
      && (!IsTruthy(Get(props, "index")) ==> r["path"] == Get(props, "path"))
      && r["element"] == (if IsTruthy(Get(props, "element")) then Suspended(Get(props, "element")) else Get(props, "element"))
      && r["handle"] == Obj(Meta(props)["access" := Or(Get(props, "access"), Prop(getRouteConfig(configPath), "allow"))])
      && (HasChildren(Get(props, "children")) ==> r["children"] == Get(props, "children"))
  {
    var index := Get(props, "index");
    var path := Get(props, "path");
    var element := Get(props, "element");
    var children := Get(props, "children");
    match ConfigPath(index, path)
    case None => None
    case Some(configPath) =>
      var config := getRouteConfig(configPath);
      var finalAccess := Or(Get(props, "access"), Prop(config, "allow"));
      var head: Fields := if IsTruthy(index) then map["index" := Bool(true)] else map["path" := path];
      var route := head + map[
        "element" := if IsTruthy(element) then Suspended(element) else element,
        "handle" := Obj(Meta(props)["access" := finalAccess])];
      Some(if HasChildren(children) then route["children" := children] else route)
  }

  /** An explicit truthy access wins over the table; a falsy one defers to it. */
  lemma AccessFallback(props: Fields, getRouteConfig: string -> JsValue)
    requires CreateRoute(props, getRouteConfig).Some?
    ensures var handle := CreateRoute(props, getRouteConfig).value["handle"];
      var configPath := ConfigPath(Get(props, "index"), Get(props, "path")).value;
      && handle.Obj? && "access" in handle.fields
      && (IsTruthy(Get(props, "access")) ==> handle.fields["access"] == Get(props, "access"))
      && (!IsTruthy(Get(props, "access")) ==> handle.fields["access"] == Prop(getRouteConfig(configPath), "allow"))
      && (forall k :: k in props && k !in NamedProps ==> k in handle.fields && handle.fields[k] == props[k])
  {
  }

  /** Two routes that differ only in a leading slash look up the same rule. */
  lemma SlashIrrelevant(path: string)
    requires !(|path| > 0 && path[0] == '/')
    ensures ConfigPath(Undefined, Str(path)) == ConfigPath(Undefined, Str("/" + path))
  {
  }

  // ---------------------------------------------------------------------------
  // The route tables

  /** One `createRoute({...})` call of the tables: path, index flag, and the page shown. */
  datatype RouteSpec = RouteSpec(path: string, index: bool, page: string)

  /** The props object such a call passes. */
  function Props(spec: RouteSpec): Fields {
    var base := map["path" := Str(spec.path), "element" := Str(spec.page)];
    if spec.index then base["index" := Bool(true)] else base
  }

  /** The routes under the main layout. */
  const MainRoutes: seq<RouteSpec> := [
    RouteSpec("", true, "Home"),
    RouteSpec("jobs", false, "Jobs"),
    RouteSpec("job/:id", false, "JobDetail"),
    RouteSpec("employers", false, "Employers"),
    RouteSpec("employers/post-job", false, "PostJob"),
    RouteSpec("employers/dashboard", false, "EmployerDashboard"),
    RouteSpec("about", false, "About"),
    RouteSpec("contact", false, "Contact"),
    RouteSpec("*", false, "NotFound")]

  /** The routes beside the main layout, directly under the root shell. */
  const AuthRoutes: seq<RouteSpec> := [
    RouteSpec("login", false, "Login"),
    RouteSpec("signup", false, "Signup"),
    RouteSpec("callback", false, "Callback"),
    RouteSpec("error", false, "ErrorPage"),
    RouteSpec("reset-password/:appId/:fields", false, "ResetPassword"),
    RouteSpec("prompt-password/" + ":appId/:emailAddress/:provider", false, "PromptPassword")]

  /** The route is the index route, or its path does not start with '/'. */
  predicate Relative(spec: RouteSpec) {
    spec.index || |spec.path| == 0 || spec.path[0] != '/'
  }

  /**
   * Every route of both tables is built without throwing, and looks up its
   * access rule under "/" (the home index route) or under "/" followed by
   * its own path.
   */
  lemma TablesBuild(getRouteConfig: string -> JsValue)
    ensures forall spec :: spec in MainRoutes + AuthRoutes ==>
      && CreateRoute(Props(spec), getRouteConfig).Some?
      && ConfigPath(Get(Props(spec), "index"), Get(Props(spec), "path"))
         == Some(if spec.index then "/" else "/" + spec.path)
  {
    assert forall i :: 0 <= i < |MainRoutes| ==> Relative(MainRoutes[i]);
    assert forall i :: 0 <= i < |AuthRoutes| ==> Relative(AuthRoutes[i]) by {
      assert Relative(AuthRoutes[0]) && Relative(AuthRoutes[1]) && Relative(AuthRoutes[2]);
      assert Relative(AuthRoutes[3]) && Relative(AuthRoutes[4]) && Relative(AuthRoutes[5]);
    }
    forall spec | spec in MainRoutes + AuthRoutes
      ensures ConfigPath(Get(Props(spec), "index"), Get(Props(spec), "path"))
              == Some(if spec.index then "/" else "/" + spec.path)
    {
      assert Relative(spec);
      assert Get(Props(spec), "path") == Str(spec.path);
      assert IsTruthy(Get(Props(spec), "index")) <==> spec.index;
    }
  }
}
