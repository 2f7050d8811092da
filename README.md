# Live-reload development server, modelled in Dafny

The server is a small Bun development server. It serves the static files of
one directory and keeps a set of browser clients connected on an event
stream. When a watched file changes, it pushes a reload event to every one of
them. This project models the two pieces of logic in it:

* **Static routing** (`routing.dfy`, module `Routing`). The `fetch` handler is
  modelled as the pure function `Fetch(root, pathname, lookup)`. `root` is the
  served directory (`PUBLIC_DIR`). `lookup` is an oracle that says whether a
  file exists at a path, is missing, or whether the check threw. The function
  returns a `Response`: a status, a body, and the Content-Type header the
  handler sets. Pathnames are classified in the handler's order:
  1. the live-reload endpoint gets the event stream;
  2. `/` and `/index.html` get the root HTML file;
  3. a joined path that does not start with `root` as a string gets 403
     "Forbidden";
  4. an existing file is served with the Content-Type of its suffix;
  5. anything else gets 404 "Page Not Found".
* **Path joining** (`paths.dfy`, module `Paths`). `path.join` is replaced by a
  small normaliser. It concatenates with `/`, drops empty and `.` segments,
  lets `..` pop a segment (it stays at `/` when nothing is left to pop), and
  writes the path back as `/a/b`. The lemmas prove that cutting and
  re-joining are inverse, that normalising is idempotent, that a join onto a
  normalised base resolves onto the base's segments, and that a relative part
  without `..` stays under the base.
* **Live-reload client registry** (`live_reload.dfy`, module `LiveReload`).
  The class `Hub` holds the `sseClients` set as `clients`. A client is
  identified by the number standing for its stream controller. `outbox` holds
  the messages enqueued on each stream, and `closed` holds the streams the
  server tried to close. The stream hooks become `Connect` and `Cancel`, a
  watcher callback becomes `OnWatchTick(prev, curr, broken)` (whose loop is
  `Broadcast`), and the SIGINT clean-up becomes `Shutdown`. `broken` is the
  oracle for the clients whose enqueue throws.

The containment test is kept exactly as the code writes it: a raw string
prefix test on the joined path. The source's own comment at
server.bun.js:96-97 says the check is meant to stop a path from escaping the
public directory, and calls it a basic check. The code tests only that the
joined path starts with `PUBLIC_DIR` as a string, and the model follows the
code. `ParentStepContainment` states what that means. Under a root
`/srv/app`, the pathname `/../app-old` resolves to `/srv/app-old` and passes
the test, because `app-old` starts with `app`. The pathname `/../other` is
refused. Over a normalised root, only a pathname with a `..` segment can be
refused (`NoParentNeverForbidden`). A pathname taken from a parsed URL never
has one, so through the server itself the 403 branch is not reached (see
"## Left out").

## Model

| member | source | states |
|---|---|---|
| Paths.StartsWith | server.bun.js:98 | A plain prefix test on strings, character by character, as `startsWith`: the path starts with the root's characters, with no check that the match ends at a directory boundary. |
| Paths.EndsWith | server.bun.js:109-113 | A plain suffix test, as `endsWith`: the last characters of the path are exactly the suffix. |
| Paths.Join | server.bun.js:92 | The stand-in for `path.join`: the result is always an absolute path (it starts with `/`) and is already normalised, so normalising it again changes nothing. |
| Paths.TrailingSlashDropped | server.bun.js:92 | Under a normalised base, `/name/` and `/name` join to the same path; this is where the stand-in differs from `path.join`, which keeps the trailing `/`. |
| Paths.SplitConcat | server.bun.js:92 | Splitting `a + "/" + b` at every `/` gives the segments of `a` followed by those of `b`, which is how the join stand-in concatenates its arguments. |
| Paths.UnsplitSplit | server.bun.js:92 | Writing the segments of a string back with `/` between them gives the string again. |
| Paths.SplitUnsplit | server.bun.js:92 | Segments without `/` survive a write-back and a re-split unchanged. |
| Paths.ResolveConcat | server.bun.js:92 | Normalising a list of segments in two parts gives the same result as normalising it at once. |
| Paths.ResolveKeepsPlain | server.bun.js:92 | A normalised path holds only plain segments: no empty, `.` or `..` segment and no `/`. |
| Paths.ResolveExtends | server.bun.js:92 | Without a `..` segment, normalisation never drops a segment already kept. |
| Paths.NormalizeIdempotent | server.bun.js:92 | Normalising an already normalised path changes nothing. |
| Paths.RenderExtends | server.bun.js:98 | A path with more segments starts, as a string, with the path of its leading segments. |
| Paths.JoinOnto | server.bun.js:92 | Joining onto a normalised base resolves the relative part onto the base's own segments. |
| Paths.JoinName | server.bun.js:8 | Joining a plain file name onto any base appends that name, so the result ends with `/` and the name (`HTML_FILE_PATH` ends with `/index.html`). |
| Paths.JoinStaysUnder | server.bun.js:92-100 | A relative part without `..`, joined onto a normalised base, gives a path that starts with the base as a string. |
| Routing.HtmlFilePath | server.bun.js:8 | `HTML_FILE_PATH` is `index.html` joined onto the root, so it ends with `/index.html`. |
| Routing.IsRootPage | server.bun.js:93 | The pathnames `/` and `/index.html`; neither is the live-reload endpoint, so the tests at lines 61 and 93 never overlap. |
| Routing.RequestedFilePath | server.bun.js:92-94 | The path the handler looks up is absolute and normalised. For `/` and `/index.html` it is exactly the root HTML file, which ends with `/index.html`; that this path is the one looked up and served is proved by `RootPagesAgree`. For any other pathname it is exactly the joined path, which the prefix test then checks. |
| Routing.ContentTypeFor | server.bun.js:108-115 | The type is HTML exactly for `.html`, CSS exactly for `.css`, JavaScript exactly for `.js`, and `application/octet-stream` exactly when the path has none of these suffixes. |
| Routing.SuffixesExclusive | server.bun.js:108-115 | No path ends with two of `.html`, `.css` and `.js`, so the order of the tests does not change the chosen type. |
| Routing.Fetch | server.bun.js:55-131 | Every response has status 200, 403 or 404, and status 200 goes exactly with a stream or file body. |
| Routing.LiveReloadOpensStream | server.bun.js:61-89 | `/live-reload-events` always gets status 200, the event stream and `text/event-stream`, whatever the oracle says. |
| Routing.RootPagesAgree | server.bun.js:93-94 | `/` and `/index.html` get the same response and are never refused. They get the root HTML file as HTML when it exists, and 404 otherwise. |
| Routing.HtmlFileIsHtml | server.bun.js:8 | The root HTML file is always served with the HTML content type. |
| Routing.ForbiddenExactlyOutsideRoot | server.bun.js:92-100 | Any other pathname gets 403 "Forbidden" exactly when the joined path does not start with the root as a string. That response is the same under every oracle, so no file is looked up. |
| Routing.ServedOrNotFound | server.bun.js:103-130 | Past the containment test, an existing file is served with status 200 and its suffix's type. A missing file, or a lookup that throws, gives exactly 404 "Page Not Found". |
| Routing.ServedPathStartsWithRoot | server.bun.js:92-120 | A served file is the root HTML file or a path that passed the prefix test, and the oracle reported it as existing. |
| Routing.NoParentNeverForbidden | server.bun.js:92-100 | Over a normalised root, a pathname without a `..` segment is never refused. |
| Routing.ParentStepContainment | server.bun.js:98-100 | Under root `init + [last]`, `/../name` resolves to the sibling `name`. It is refused exactly when `name` does not start with `last`, so a sibling directory that extends the root's name is let through. |
| LiveReload.Hub.constructor | server.bun.js:11 | The registry starts with no clients, no streams and no closed streams. |
| LiveReload.Hub.Connect | server.bun.js:63-67 | A fresh controller that was never handed out joins the set, the set grows by exactly one, and the new stream's outbox is empty. |
| LiveReload.Hub.Cancel | server.bun.js:72-76 | The entry with the matching controller is removed if present (the set shrinks by one) and nothing changes otherwise. No stream is closed and no outbox changes. |
| LiveReload.Hub.OnWatchTick | server.bun.js:26-46 | With equal modification times nothing changes. Otherwise the new set is the old set minus exactly the failed clients, and it shrinks by their number. Each client that succeeded has exactly one more reload event. Failed and departed clients keep their outbox, and the failed clients are closed. |
| LiveReload.Hub.Broadcast | server.bun.js:33-45 | The loop enqueues `data: reload\n\n` on each connected client. It removes and closes each client whose enqueue fails and goes on with the rest. |
| LiveReload.Hub.Shutdown | server.bun.js:155-162 | A close is attempted on every connected client, and then the set is empty. Outboxes are unchanged. |
| LiveReload.RemainingCount | server.bun.js:38 | Removing the failed clients shrinks the set by the number of failed clients in it. |
| LiveReload.DisconnectScenario | server.bun.js:26-80 | Clients A and B connect and a file changes, so both get one reload. A disconnects and the file changes again, so only B gets the second reload. A tick with an unchanged time sends nothing. |
| LiveReload.FailedPushScenario | server.bun.js:33-45 | A client whose push fails gets nothing, is closed and leaves the set, which shrinks from 2 to 1. The next broadcast skips it even though a push to it would now succeed. |

## Left out

- `Bun.serve`, the construction of `Response` and `ReadableStream` objects, and HTTP headers as transport objects are not modelled. A response is described by its status, body and the Content-Type the handler sets. Text responses carry `None`, meaning the runtime's default type.
- `new URL(req.url)` (line 57) is not modelled: the pathname is a given string, so the model also covers pathnames that no parser would produce. The WHATWG URL Standard's path parsing removes every `.` and `..` segment, including the percent-encoded forms such as `%2e%2e`, so no pathname from a parsed URL has a `..` segment. `PUBLIC_DIR` is a normalised absolute directory, so by `NoParentNeverForbidden` the 403 branch (lines 98-100) is never taken for a parsed URL. The sibling-prefix weakness that `ParentStepContainment` shows is therefore not reachable through this server; it would matter only if the pathname reached `path.join` unparsed.
- `path.join` and `path.basename` are replaced by the normaliser in `Paths`. Platform-specific separators are not modelled.
- Join: drops a trailing `/`, where `path.join` keeps it (`/a/` stays `/a/`). So in the model a request for `/style.css/` looks up `…/style.css` and serves it as CSS (`TrailingSlashDropped`), while the source looks up `…/style.css/`, whose suffix gives `application/octet-stream`.
- Join: always returns an absolute path. This agrees with `path.join` only because `PUBLIC_DIR` (`import.meta.dir`) is absolute. A relative `root` passed to `Fetch` gives a different result from Node's, which keeps the path relative.
- `Bun.file`, `file.exists()` and the reading and sending of file bytes are replaced by the `lookup` oracle: found, missing or threw.
- The `fs.watchFile` and `fs.unwatchFile` polling timers, their 500 ms interval, and the fixed list of watched files (lines 15-25) are not modelled. One callback run for one file is the explicit call `OnWatchTick(prev, curr, broken)`, and several files changing in one tick are several calls.
- The modification time `mtimeMs` is a floating-point value in the source. The model uses `int`, because the code only compares the two times for inequality.
- A failing `close()` is caught and ignored by the code in both places (lines 39-43 and 156-160). Its outcome changes nothing, so the model records every close as attempted and has no oracle for close failures.
- The order in which a JavaScript `Set` is iterated is not modelled. The client set is a mathematical set, and the outbox of each client does not depend on the order.
- All `console.*` logging is left out.
- The `error` handler's 500 response (lines 133-136) is raised by the runtime and is left out.
- The SIGINT handler's `unwatchFile` calls, `server.stop` and `process.exit` are left out. Only the handler's effect on the client set is modelled, as `Shutdown`.
- The interleaving of timers and requests on the event loop is not modelled. Each operation is one atomic step.
