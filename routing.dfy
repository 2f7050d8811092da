/**
 The server's `fetch` handler as a pure decision: from the request's pathname,
 the directory the server serves (`root`) and an oracle that answers whether a
 file exists, to a description of the response.
 */
module Routing {
  import opened Paths

  /** The answer of the file-existence check: present, absent, or the check threw. */
  datatype Lookup = Found | Missing | Threw

  /** What the response carries: the event stream, a file's bytes, or a fixed text. */
  datatype Body = EventStream | FileContents(path: string) | Text(text: string)

  datatype Option<T> = None | Some(value: T)

  /**
   The response: its status, its body and the Content-Type header the handler
   sets (None when it sets none and the runtime's default applies).
   */
  datatype Response = Response(status: nat, body: Body, contentType: Option<string>)

  const LiveReloadPath := "/live-reload-events"
  const IndexName := "index.html"

  const EventStreamType := "text/event-stream"
  const HtmlType := "text/html; charset=utf-8"
  const CssType := "text/css; charset=utf-8"
  const JsType := "application/javascript; charset=utf-8"
  const OctetStream := "application/octet-stream"

  const ForbiddenText := "Forbidden"
  const NotFoundText := "Page Not Found"

  /** `HTML_FILE_PATH`: the root HTML file of the served directory. */
  function HtmlFilePath(root: string): (r: string)
    ensures EndsWith(r, "/" + IndexName)
  {
    JoinName(root, IndexName);
    Join(root, IndexName)
  }

  /**
   The two pathnames answered with the root HTML file. Neither is the
   live-reload endpoint, so the order of the two tests does not matter.
   */
  function IsRootPage(pathname: string): (b: bool)
    ensures b ==> pathname != LiveReloadPath && |pathname| >= 1 && pathname[0] == '/'
  {
    pathname == "/" || pathname == "/" + IndexName
  }

  /**
   The Content-Type chosen for a served file. The suffixes are tried in the
   order `.html`, `.css`, `.js`; as no string ends with two of them, the choice
   depends on the suffix alone and not on the order.
   */
  function ContentTypeFor(path: string): (r: string)
    ensures r == HtmlType <==> EndsWith(path, ".html")
    ensures r == CssType <==> EndsWith(path, ".css")
    ensures r == JsType <==> EndsWith(path, ".js")
    ensures r == OctetStream <==> !EndsWith(path, ".html") && !EndsWith(path, ".css") && !EndsWith(path, ".js")
  {
    SuffixesExclusive(path);
    if EndsWith(path, ".html") then HtmlType
    else if EndsWith(path, ".css") then CssType
    else if EndsWith(path, ".js") then JsType
    else OctetStream
  }

  /** No path ends with two of the recognised suffixes. */
  lemma SuffixesExclusive(path: string)
    ensures !(EndsWith(path, ".html") && EndsWith(path, ".css"))
    ensures !(EndsWith(path, ".html") && EndsWith(path, ".js"))
    ensures !(EndsWith(path, ".css") && EndsWith(path, ".js"))
  {
    if EndsWith(path, ".html") { assert path[|path| - 1] == ".html"[4]; }
    if EndsWith(path, ".css") { assert path[|path| - 1] == ".css"[3] && path[|path| - 2] == ".css"[2]; }
    if EndsWith(path, ".js") { assert path[|path| - 1] == ".js"[2] && path[|path| - 2] == ".js"[1]; }
  }

  /**
   The path the handler looks up for a pathname that is not the live-reload
   endpoint: always an absolute, normalised path, and the root HTML file for
   the two root pages.
   */
  function RequestedFilePath(root: string, pathname: string): (r: string)
    ensures |r| >= 1 && r[0] == '/' && Normalize(r) == r
    ensures IsRootPage(pathname) ==> r == HtmlFilePath(root) && EndsWith(r, "/" + IndexName)
    ensures !IsRootPage(pathname) ==> r == Join(root, pathname)
  {
    if IsRootPage(pathname) then HtmlFilePath(root) else Join(root, pathname)
  }

  /** The `fetch` handler, with the existence check of the file as an oracle. */
  function Fetch(root: string, pathname: string, lookup: string -> Lookup): (r: Response)
    ensures r.status == 200 || r.status == 403 || r.status == 404
    ensures r.status == 200 <==> r.body.EventStream? || r.body.FileContents?
  {
    if pathname == LiveReloadPath then
      Response(200, EventStream, Some(EventStreamType))
    else
      var requested := RequestedFilePath(root, pathname);
      if !IsRootPage(pathname) && !StartsWith(requested, root) then
        Response(403, Text(ForbiddenText), None)
      else if lookup(requested) == Found then
        Response(200, FileContents(requested), Some(ContentTypeFor(requested)))
      else
        Response(404, Text(NotFoundText), None)
  }

  // ---------------------------------------------------------------------
  // Properties of the handler

  /** The live-reload pathname always opens the event stream, whatever exists on disk. */
  lemma LiveReloadOpensStream(root: string, lookup: string -> Lookup)
    ensures Fetch(root, LiveReloadPath, lookup) == Response(200, EventStream, Some(EventStreamType))
  {
  }

  /**
   `/` and `/index.html` get the same response, resolved to the root HTML file,
   are never refused, and are served as HTML when that file exists.
   */
  lemma RootPagesAgree(root: string, lookup: string -> Lookup)
    ensures Fetch(root, "/", lookup) == Fetch(root, "/index.html", lookup)
    ensures Fetch(root, "/", lookup).status != 403
    ensures lookup(HtmlFilePath(root)) == Found ==>
      Fetch(root, "/", lookup) == Response(200, FileContents(HtmlFilePath(root)), Some(HtmlType))
    ensures lookup(HtmlFilePath(root)) != Found ==>
      Fetch(root, "/", lookup) == Response(404, Text(NotFoundText), None)
  {
    assert IsRootPage("/") && IsRootPage("/index.html") && "/" != LiveReloadPath && "/index.html" != LiveReloadPath;
    assert RequestedFilePath(root, "/") == HtmlFilePath(root) == RequestedFilePath(root, "/index.html");
    HtmlFileIsHtml(root);
  }

  lemma HtmlFileIsHtml(root: string)
    ensures ContentTypeFor(HtmlFilePath(root)) == HtmlType
  {
    EndsWithTail(HtmlFilePath(root), "/" + IndexName, 5);
    assert ("/" + IndexName)[6..] == ".html";
  }

  /**
   Any other pathname is refused with 403 exactly when the joined path does not
   start with the root as a string; the refusal does not depend on the oracle,
   so no file is looked up.
   */
  lemma ForbiddenExactlyOutsideRoot(root: string, pathname: string, lookup: string -> Lookup, other: string -> Lookup)
    requires pathname != LiveReloadPath && !IsRootPage(pathname)
    ensures Fetch(root, pathname, lookup).status == 403 <==> !StartsWith(Join(root, pathname), root)
    ensures Fetch(root, pathname, lookup).status == 403 ==>
      Fetch(root, pathname, lookup) == Response(403, Text(ForbiddenText), None) &&
      Fetch(root, pathname, other) == Fetch(root, pathname, lookup)
  {
  }

  /**
   A request that is neither refused nor the event stream is answered 404
   "Page Not Found" exactly when the lookup says the file is missing or throws,
   and otherwise with the file and the Content-Type of its suffix.
   */
  lemma ServedOrNotFound(root: string, pathname: string, lookup: string -> Lookup)
    requires pathname != LiveReloadPath
    requires IsRootPage(pathname) || StartsWith(Join(root, pathname), root)
    ensures var path := RequestedFilePath(root, pathname);
      (lookup(path) == Found ==>
         Fetch(root, pathname, lookup) == Response(200, FileContents(path), Some(ContentTypeFor(path)))) &&
      (lookup(path) == Missing || lookup(path) == Threw <==>
         Fetch(root, pathname, lookup) == Response(404, Text(NotFoundText), None))
  {
  }

  /** A file is served only from the root HTML file or from a path that starts with the root. */
  lemma ServedPathStartsWithRoot(root: string, pathname: string, lookup: string -> Lookup)
    ensures var r := Fetch(root, pathname, lookup);
      r.body.FileContents? ==>
        (r.body.path == HtmlFilePath(root) || StartsWith(r.body.path, root)) && lookup(r.body.path) == Found
  {
  }

  /**
   Over a normalised root, a pathname without a `..` segment is never refused:
   403 can only come from a pathname that climbs with `..`.
   */
  lemma NoParentNeverForbidden(rootSegs: seq<string>, pathname: string, lookup: string -> Lookup)
    requires AllPlain(rootSegs) && NoParentSegment(pathname)
    ensures Fetch(Render(rootSegs), pathname, lookup).status != 403
  {
    JoinStaysUnder(rootSegs, pathname);
  }

  /**
   One step up and back down: under a normalised root `init + [last]`, the
   pathname `/../name` resolves to the sibling `name` of the root's last
   directory, and it is refused exactly when `name` does not start with `last`
   as a string. So the containment test lets through a sibling directory whose
   name extends the root's (`/srv/app-old` beside `/srv/app`) and refuses the
   others.
   */
  lemma ParentStepContainment(init: seq<string>, last: string, name: string, lookup: string -> Lookup)
    requires AllPlain(init + [last]) && Plain(name)
    ensures Join(Render(init + [last]), "/../" + name) == Render(init + [name])
    ensures Fetch(Render(init + [last]), "/../" + name, lookup).status == 403 <==> !StartsWith(name, last)
  {
    var root := Render(init + [last]);
    var p := "/../" + name;
    assert Split(p) == ["", "..", name] by {
      assert p == "" + "/" + (".." + "/" + name);
      SplitConcat("", ".." + "/" + name);
      SplitConcat("..", name);
      SplitSingle("..");
      SplitSingle(name);
    }
    JoinOnto(init + [last], p);
    assert (init + [last])[..|init|] == init;
    assert Resolve(init + [last], ["", "..", name]) == Resolve(init, [name]) by {
      assert ["", "..", name][1..] == ["..", name] && ["..", name][1..] == [name];
    }
    ResolveAllPlain(init, [name]);
    RenderSibling(init, last, name);
    assert p[1] == '.';
    assert p != LiveReloadPath by { assert LiveReloadPath[1] == 'l'; }
    assert !IsRootPage(p) by { assert ("/" + IndexName)[1] == 'i'; }
  }

  /** Two paths that differ in their last segment compare as those segments do. */
  lemma RenderSibling(init: seq<string>, last: string, name: string)
    ensures StartsWith(Render(init + [name]), Render(init + [last])) <==> StartsWith(name, last)
  {
    RenderLastSegment(init, name);
    RenderLastSegment(init, last);
    PrefixCancel(Render(init) + (if init == [] then "" else "/"), name, last);
  }

  /** A common prefix does not change a prefix test. */
  lemma PrefixCancel(x: string, a: string, b: string)
    ensures StartsWith(x + a, x + b) <==> StartsWith(a, b)
  {
    if StartsWith(x + a, x + b) {
      assert (x + a)[..|x + b|][|x|..] == a[..|b|];
      assert (x + b)[|x|..] == b;
    }
    if StartsWith(a, b) {
      assert (x + a)[..|x + b|] == x + a[..|b|];
    }
  }
}
