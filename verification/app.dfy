/**
 Serving a handler's response: the page's template is looked up and the
 message substituted by `render_page`.

 At startup each template name is bound to a file's text, except that the
 dashboard name is bound to the open file object itself (app.py line 15).
 `render_page` calls `.replace` on its first argument, which a file object
 does not have, so the dashboard can never be rendered as written: every
 successful login ends in a server error. `AsWrittenSite` models the startup
 as written, `FixedSite` the evidently intended one (the file's text).
 */
module App {
  import opened Replace
  import opened Pages
  import opened Hashing
  import opened Auth

  /** What a template name is bound to: a file's text, or an open file. */
  datatype Template = Text(html: string) | OpenFile(path: string)

  /** The templates of the four pages, and whether the server runs in debug
      mode (app.py line 68 starts it with `debug=True`). */
  datatype Site = Site(index: Template, login: Template, register: Template, dashboard: Template, debug: bool)

  /** What goes back to the browser. */
  datatype Reply = Html(body: string) | BadRequest | MethodNotAllowed | ServerError(reason: string)

  /** The error Python raises when `render_page` calls `.replace` on an open text file. */
  const NoReplace: string := "AttributeError: '_io.TextIOWrapper' object has no attribute 'replace'"

  /** The error `request.form[...]` raises for an absent field. In debug mode
      Flask re-raises it instead of answering 400, so the client gets a 500. */
  const NoField: string := "BadRequestKeyError"

  /** The startup bindings as written (app.py lines 11-15): the dashboard is an
      open file. Its effect is stated by `LoginFailsAsWritten`,
      `AsWrittenFailsOnlyOnDashboard` and `FixOnlyTouchesDashboard`. */
  function AsWrittenSite(index: string, login: string, register: string): Site {
    Site(Text(index), Text(login), Text(register), OpenFile("template/dashboard.html"), true)
  }

  /** The startup bindings as intended: every page is its file's text. Stated by
      `LoginWelcomesFixed` and `FixOnlyTouchesDashboard`. */
  function FixedSite(index: string, login: string, register: string, dashboard: string): Site {
    Site(Text(index), Text(login), Text(register), Text(dashboard), true)
  }

  function TemplateFor(site: Site, page: PageId): Template {
    match page
    case IndexPage => site.index
    case LoginPage => site.login
    case RegisterPage => site.register
    case DashboardPage => site.dashboard
  }

  /** `render_page` applied to whatever the template name is bound to. */
  function RenderTemplate(t: Template, message: string, kind: string): (r: Reply)
    ensures r.Html? <==> t.Text?
    ensures t.Text? ==> r == Html(RenderPage(t.html, message, kind))
    ensures t.OpenFile? ==> r.ServerError?
  {
    match t
    case Text(html) => Html(RenderPage(html, message, kind))
    case OpenFile(_) => ServerError(NoReplace)
  }

  /** The reply to a handler's response. An absent form field is a 400 only
      outside debug mode; in debug mode Flask traps it as a server error. */
  function Serve(site: Site, resp: Response): (r: Reply)
    ensures r.BadRequest? <==> resp.MissingField? && !site.debug
    ensures resp.MissingField? && site.debug ==> r.ServerError?
    ensures r.MethodNotAllowed? <==> resp.NotAllowed?
    ensures resp.Show? ==> r == RenderTemplate(TemplateFor(site, resp.page), resp.message, resp.kind)
  {
    match resp
    case Show(page, message, kind) => RenderTemplate(TemplateFor(site, page), message, kind)
    case MissingField(_) => if site.debug then ServerError(NoField) else BadRequest
    case NotAllowed => MethodNotAllowed
  }

  /** As written, a successful login never shows the dashboard: registering
      and then logging in with the same password ends in a server error. */
  lemma LoginFailsAsWritten(index: string, login: string, register: string,
                            users: Users, h: Hasher, username: string, email: string, password: string)
    requires Sound(h)
    requires username !in users && |password| >= 4
    ensures var after := RegisterUser(users, h, username, email, password).users;
      Serve(AsWrittenSite(index, login, register), LoginUser(after, h, username, password)).ServerError?
  {
    RegisterThenLogin(users, h, username, email, password);
  }

  /** With the dashboard bound to its text, the same login shows the dashboard
      with the welcome paragraph in place of its marker. */
  lemma LoginWelcomesFixed(index: string, login: string, register: string, before: string, after: string,
                           users: Users, h: Hasher, username: string, email: string, password: string)
    requires Sound(h)
    requires username !in users && |password| >= 4
    requires Clean(before, Marker) && Free(after, Marker)
    ensures var stored := RegisterUser(users, h, username, email, password).users;
      Serve(FixedSite(index, login, register, before + Marker + after), LoginUser(stored, h, username, password))
        == Html(before + MessageHtml(WelcomeMessage(username), "success") + after)
  {
    var stored := RegisterUser(users, h, username, email, password).users;
    var resp := LoginUser(stored, h, username, password);
    RegisterThenLogin(users, h, username, email, password);
    assert resp == Show(DashboardPage, WelcomeMessage(username), Success);
    var page := RenderPage(before + Marker + after, WelcomeMessage(username), Success);
    assert Serve(FixedSite(index, login, register, before + Marker + after), resp) == Html(page);
    RenderSingleMarker(before, after, WelcomeMessage(username), Success);
  }

  /** The fix changes nothing but the dashboard: every other response is served
      identically by both bindings. */
  lemma FixOnlyTouchesDashboard(index: string, login: string, register: string, dashboard: string, resp: Response)
    requires !(resp.Show? && resp.page == DashboardPage)
    ensures Serve(AsWrittenSite(index, login, register), resp)
         == Serve(FixedSite(index, login, register, dashboard), resp)
  {
  }

  /** As written, a reply is a server error exactly for a dashboard response
      or, in debug mode, a request missing a form field. */
  lemma AsWrittenFailsOnlyOnDashboard(index: string, login: string, register: string, resp: Response)
    ensures Serve(AsWrittenSite(index, login, register), resp).ServerError?
        <==> (resp.Show? && resp.page == DashboardPage) || resp.MissingField?
  {
  }
}
