# agricore portal: credential store, auth handlers and page assembly

A Dafny model of the logic in `app.py` of the agricore farming portal, a small
Flask application. It has three parts:

- **Page assembly.** `render_page` replaces every `<!-- MESSAGE -->` marker in
  a template. With an empty message each marker becomes nothing. Otherwise each
  becomes `<p class="message KIND">MESSAGE</p>`, inserted verbatim with no
  escaping. Markers are found by Python's `str.replace`, which scans left to
  right for non-overlapping occurrences.
- **Registration.** First comes the duplicate-username check, then the minimum
  password length of 4. Success inserts `{email, digest}` under the username
  in the in-memory `users` dict.
- **Login.** This is a read-only check of the stored digest. An unknown user
  and a wrong password get one identical answer.

Files and modules:

- `replace.dfy`, module `Replace`. `ReplaceAll` is the `str.replace` scan. Its
  independent specification is a *leftmost split* (`LeftmostSplit`): the text
  is cut into pieces at exactly the occurrences a left-to-right scan finds. The
  scan's result is those pieces joined by the replacement. `Split` (Python's
  `str.split`) shows such a split always exists.
- `pages.dfy`, module `Pages`. The marker, the message paragraph and
  `RenderPage` (`render_page`).
- `hashing.dfy`, module `Hashing`. werkzeug's `generate_password_hash` and
  `check_password_hash` are a `Hasher` value that the handlers take as a
  parameter. The only property used is `Sound`: a digest generated from a
  password checks against that password. Nothing is assumed about
  injectivity.
- `auth.dfy`, module `Auth`. The store `Users = map<string, User>`. Each
  handler is a pure transition `(store, request) -> (store', response)`.
  `Handle` dispatches the routes and `Run` serves a sequence of requests.
- `app.dfy`, module `App`. Template bindings, the debug flag, and serving a
  response as an HTML body, a 400, a 405 or a server error. It also holds the
  dashboard binding defect (see Findings).

Every marker in a template is replaced, not only the first (app.py:22-23).

Requests are modelled as served one at a time (see `Auth.Run` under
"## Left out").

## Model

| member | source | states |
|---|---|---|
| Replace.ReplaceAll | app.py:22-23 | The `str.replace` scan. It leaves text with no marker unchanged, and replacing a pattern by itself changes nothing. |
| Replace.ReplaceLeftmost | app.py:22-23 | For any cut of the text at its leftmost non-overlapping occurrences, the replaced text is the pieces joined by the replacement. So every occurrence is replaced, and all other characters stay in order. |
| Replace.SplitLeftmost | app.py:22-23 | Every text has such a cut (Python's `str.split`), so the specification above covers every input. |
| Replace.ReplaceIsJoinSplit | app.py:22-23 | Python's identity `s.replace(old, new) == new.join(s.split(old))`. |
| Pages.RenderPage | app.py:19-23 | A template without a marker comes back unchanged. With an empty message the page is never longer than the template. |
| Pages.RemoveShrinks | app.py:23 | Removing markers never makes a page longer. |
| Pages.RenderEmptyRemovesMarkers | app.py:23 | With an empty message, every marker is removed and nothing else changes. The kind has no effect. |
| Pages.RenderInsertsMessage | app.py:20-22 | With a non-empty message, each marker becomes exactly `<p class="message ` + kind + `">` + message + `</p>`. The message is verbatim and all other characters stay in order. |
| Pages.RenderSingleMarker | app.py:19-23 | A template with one marker renders as the text before it, the inserted paragraph (or nothing) and the text after it. |
| Pages.RenderExampleMessage | app.py:20-22 | `<p><!-- MESSAGE --></p>` with "Hi"/"success" renders as `<p><p class="message success">Hi</p></p>`. |
| Pages.RenderExampleEmpty | app.py:23 | The same template with an empty message renders as `<p></p>`. |
| Auth.RegisterUser | app.py:49-58 | Registration only ever adds the given username. Existing records never change. The store changes exactly when the answer is "Registered! Please log in." / success. |
| Auth.Register | app.py:42-59 | The `/register` handler keeps every existing record. It changes the store only on a POST that registers. |
| Auth.LoginUser | app.py:34-39 | A login answer is either the dashboard with "Welcome back, NAME!" / success, or the login page with "Invalid username or password." / error. |
| Auth.Login | app.py:29-40 | The `/login` handler never modifies the store. It reaches the dashboard only for a POST naming an existing user. |
| Auth.Handle | app.py:25-59 | No route updates or deletes a record. Only `/register` can change the store. |
| Auth.HandleAddsAtMostOne | app.py:54-57 | One request adds at most one account. |
| Auth.Run | app.py:8 | Over any sequence of requests, every record is kept. The store grows by at most one account per request. |
| Auth.RegisterDuplicate | app.py:49-50 | A taken username gets "Username already exists." whatever the password, even a short one. The store and the original record are unchanged. |
| Auth.RegisterTooShort | app.py:51-52 | A new username with a password under 4 characters gets "Password too short (min 4 chars)." and the store is unchanged. |
| Auth.RegisterInserts | app.py:53-58 | Success adds exactly one key, holding the email and the password's digest. Every other entry is untouched. |
| Auth.RegisterTwice | app.py:49-57 | Registering a username a second time reports the duplicate and keeps the first record. |
| Auth.LoginSucceedsIff | app.py:34-36 | Login reaches the dashboard if and only if the user exists and the password checks against the stored digest. |
| Auth.LoginFailuresIndistinguishable | app.py:36-39 | Every failed login gets the identical answer, whatever the username, password or store. |
| Auth.UnknownUserLooksLikeWrongPassword | app.py:34-39 | An unknown user and a known user with a wrong password get the same answer. |
| Auth.RegisterThenLogin | app.py:34-57 | With a sound hasher, registering and then logging in with the same password reaches the dashboard. |
| Auth.LoginPersists | app.py:34-36 | A login that succeeds still succeeds after any later sequence of requests. |
| App.RenderTemplate | app.py:11-15 | A template bound to text renders through `render_page`. One bound to an open file cannot be rendered and fails. |
| App.Serve | app.py:25-68 | A missing form field (the `request.form` reads at lines 32-33 and 45-47) becomes a 400 outside debug mode and a server error in debug mode, which is how line 68 starts the server. A method a route does not list (lines 25, 29, 42) becomes a 405. A page response is served as `render_page` of that page's template with the response's message and kind (lines 27, 37-40, 50-59). |
| App.LoginFailsAsWritten | app.py:15-37 | With the bindings as written, a correct login ends in a server error instead of the dashboard. |
| App.LoginWelcomesFixed | app.py:37 | With the dashboard bound to its text, the same login shows the dashboard with the welcome paragraph in place of its marker. |
| App.FixOnlyTouchesDashboard | app.py:11-15 | Fixing the dashboard binding changes how no other response is served. |
| App.AsWrittenFailsOnlyOnDashboard | app.py:11-15 | As written, a reply is a server error exactly when the response is the dashboard or, since the server runs in debug mode, a request missing a form field. |

## Left out

- Auth.Run: requests are modelled as served one at a time. `app.run(debug=True)` (app.py:68) starts a threaded development server. Two registrations of one name can interleave between the duplicate check (app.py:49) and the write (app.py:54), with the slow password hash in between, and the later record then overwrites the earlier. The record-preservation contracts of Run, Handle and RegisterTwice hold only for requests served in sequence.
- Auth.Handle: the promise that no route updates or deletes a record holds only for requests served one at a time, for the reason given under Auth.Run.
- Auth.RegisterTwice: the first record survives only when the two registrations are served one after the other, for the reason given under Auth.Run.
- A missing template file raises at start-up (app.py:11-14); that is file I/O and is not modelled.
- Flask routing, `request.form` storage, `make_response`, headers, `app.run`, `secret_key` and the CSS route: framework plumbing. A missing form field is modelled only as the answer the client gets: a 500 in debug mode, which app.py:68 selects, and a 400 otherwise. The debugger's traceback page is not modelled.
- Loading templates and CSS files at start-up: file I/O. Template texts are parameters.
- The unused `DASHBOARDSTYLE_CSS` binding, which has the same open-file problem as the dashboard: nothing reads it.
- The internals of password hashing: salting, iterations and constant-time comparison belong to a foreign library. The `Hasher` is a parameter, and only the round-trip property `Sound` is assumed where needed.
- Hashing.Hasher: `generate` is modelled as a deterministic function, while werkzeug draws a fresh random salt on every call (app.py:56). So the `h.generate(password)` named in `RegisterInserts` and `RegisterTwice` stands for one of many valid digests. No lemma compares two digests.
- `len(password)` counts code points; Dafny's `string` here is a sequence of Unicode scalar values, the same count. Python strings that contain lone surrogates are not modelled.
- Replace.ReplaceAll: requires a non-empty pattern. Python's behaviour for an empty pattern, which inserts the replacement between characters, is not modelled because the only pattern used is the non-empty marker.
- The SQLite-backed store and the chatbot proxy of later versions of the portal are not in this source file.

## Findings

| source | as written | input that shows it | evidently intended | confidence | as-written member | corrected member |
|---|---|---|---|---|---|---|
| app.py:15 | The dashboard template name is bound to the open file object, not to the file's text. Line 37 then calls `render_page` on it, and the `.replace` call raises `AttributeError`. | Register `alice` / `a@x` / `pass`, then log in as `alice` / `pass`: the server errors instead of showing the dashboard. | Bind the file's text, as lines 11-14 do for the other templates. | high (not executed) | App.LoginFailsAsWritten | App.LoginWelcomesFixed |
