/** The preview helpers of `FS`: the MIME type of a file extension, and the
    pass over live previews that inlines the files their HTML links to with
    `src="..."` as base64 `data:` URLs. The network, the file system, the
    regular expression and the base64 and UTF-8 codecs are parameters. */
module FileSystem {
  import opened Wrappers
  import opened Text

  // ---------------------------------------------------------------------
  // MIME types

  /** `String.mimeType`: the seven extensions a `data:` URL can be made for,
      spelled exactly so. */
  function MimeType(ext: string): Option<string> {
    if ext == "png" then Some("image/png")
    else if ext == "jpg" then Some("image/jpeg")
    else if ext == "gif" then Some("image/gif")
    else if ext == "svg" then Some("image/svg+xml")
    else if ext == "webp" then Some("image/webp")
    else if ext == "js" then Some("text/javascript")
    else if ext == "css" then Some("text/css")
    else None
  }

  /** Exactly the seven extensions have a type, so `jpeg` and upper-case
      spellings have none; images get an `image/` type, scripts and style
      sheets a `text/` one. */
  lemma MimeTypeDomain(ext: string)
    ensures MimeType(ext).Some? <==> ext in ["png", "jpg", "gif", "svg", "webp", "js", "css"]
    ensures MimeType(ext).Some? ==>
      (HasPrefix(MimeType(ext).value, "image/") <==> ext in ["png", "jpg", "gif", "svg", "webp"])
  {
    if ext == "js" || ext == "css" {
      assert MimeType(ext).value[0] == 't';
    }
  }

  /** No two extensions share a type. */
  lemma MimeTypeInjective(a: string, b: string)
    requires MimeType(a).Some? && MimeType(a) == MimeType(b)
    ensures a == b
  {
  }

  // ---------------------------------------------------------------------
  // Paths

  const SourcesMarker: string := "/Sources/"

  /** The directory of the module a path lies in: what comes before the
      first `/Sources/`, then `/Sources/`, the next path component and `/`. */
  function ModulePath(path: string): string
    requires Contains(path, SourcesMarker)
  {
    SplitCount(path, SourcesMarker);
    var parts := Split(path, SourcesMarker);
    parts[0] + SourcesMarker + Split(parts[1], "/")[0] + "/"
  }

  /** The part after the first `/Sources/`. */
  lemma ModulePathPieces(path: string)
    requires Contains(path, SourcesMarker)
    ensures var i := IndexOf(path, SourcesMarker).value;
      var rest := path[i + |SourcesMarker|..];
      path == path[..i] + SourcesMarker + rest &&
      ModulePath(path) == path[..i] + SourcesMarker + Split(Split(rest, SourcesMarker)[0], "/")[0] + "/"
  {
    var i := IndexOf(path, SourcesMarker).value;
    var rest := path[i + |SourcesMarker|..];
    assert Split(path, SourcesMarker) == [path[..i]] + Split(rest, SourcesMarker);
    assert path[i..i + |SourcesMarker|] == SourcesMarker;
  }

  /** The first component of the first piece of `rest`, with a `/` after
      it, starts `rest` with a `/` after it. */
  lemma FirstComponentPrefix(rest: string)
    ensures var name := Split(Split(rest, SourcesMarker)[0], "/")[0];
      '/' !in name && HasPrefix(rest + "/", name + "/")
  {
    var piece := Split(rest, SourcesMarker)[0];
    var name := Split(piece, "/")[0];
    SplitPartsAvoidSeparator(piece, "/");
    ContainsChar(name, '/');
    SplitFirstPiece(rest, SourcesMarker);
    SplitFirstPiece(piece, "/");
    assert rest[..|piece|] == piece;
    assert piece[..|name|] == name;
    if |name| < |piece| {
      assert piece[|name|..|name| + 1] == "/";
      assert rest[|name|] == '/';
    } else if |piece| < |rest| {
      assert rest[|piece|..|piece| + |SourcesMarker|] == SourcesMarker;
      assert rest[|name|] == '/';
    }
    assert (rest + "/")[..|name| + 1] == name + "/";
  }

  /** The module directory is the part of the path up to the first
      `/Sources/` and one `/`-free component after it, closed with `/`: a
      prefix of the path with a `/` appended. */
  lemma ModulePathShape(path: string)
    requires Contains(path, SourcesMarker)
    ensures var i := IndexOf(path, SourcesMarker).value;
      exists name :: '/' !in name && ModulePath(path) == path[..i] + SourcesMarker + name + "/"
    ensures HasPrefix(path + "/", ModulePath(path))
  {
    var i := IndexOf(path, SourcesMarker).value;
    var rest := path[i + |SourcesMarker|..];
    var name := Split(Split(rest, SourcesMarker)[0], "/")[0];
    ModulePathPieces(path);
    FirstComponentPrefix(rest);
    var front := path[..i] + SourcesMarker;
    assert path + "/" == front + (rest + "/");
    assert ModulePath(path) == front + (name + "/");
  }

  /** A file URL: a directory and the path components appended to it. */
  datatype FileUrl = FileUrl(directory: string, components: seq<string>)

  /** The path a file URL stands for. */
  function FilePath(u: FileUrl): string {
    u.directory + Join(u.components, "/")
  }

  /** `pathExtension`: the text after the last `.` of the last component,
      or nothing when that component has no `.`. */
  function PathExtension(name: string): string {
    var last := LastPathComponent(name);
    if Contains(last, ".") then Last(Split(last, ".")) else ""
  }

  /** The non-empty `/`-separated components of a link: every one of them,
      as often as it occurs, and no empty one. */
  function NonEmptyComponents(parts: seq<string>): (r: seq<string>)
    ensures forall k :: 0 <= k < |r| ==> r[k] != "" && r[k] in parts
    ensures "" !in r
    ensures forall c :: c != "" ==> multiset(r)[c] == multiset(parts)[c]
  {
    if parts == [] then []
    else
      var front := parts[..|parts| - 1];
      assert parts == front + [Last(parts)];
      var init := NonEmptyComponents(front);
      if Last(parts) == "" then init else init + [Last(parts)]
  }

  /** The components keep their order: those of a concatenation are those
      of each part, one after the other. */
  lemma {:induction false} NonEmptyComponentsConcat(a: seq<string>, b: seq<string>)
    ensures NonEmptyComponents(a + b) == NonEmptyComponents(a) + NonEmptyComponents(b)
    decreases |b|
  {
    if b == [] {
      assert a + b == a;
    } else {
      var front := b[..|b| - 1];
      assert (a + b)[..|a + b| - 1] == a + front;
      assert Last(a + b) == Last(b);
      NonEmptyComponentsConcat(a, front);
    }
  }

  /** The file a local link names, under the module directory. */
  function LocalFile(modulePath: string, link: string): FileUrl {
    FileUrl(modulePath, NonEmptyComponents(Split(link, "/")))
  }

  /** The local file lies under the module directory, and splitting the
      rest of its path on `/` gives the link's non-empty components. */
  lemma LocalFileComponents(modulePath: string, link: string)
    requires LocalFile(modulePath, link).components != []
    ensures var path := FilePath(LocalFile(modulePath, link));
      HasPrefix(path, modulePath) &&
      Split(path[|modulePath|..], "/") == NonEmptyComponents(Split(link, "/"))
  {
    var parts := Split(link, "/");
    var comps := NonEmptyComponents(parts);
    SplitPartsAvoidSeparator(link, "/");
    forall k | 0 <= k < |comps|
      ensures '/' !in comps[k]
    {
      var j :| 0 <= j < |parts| && parts[j] == comps[k];
      ContainsChar(comps[k], '/');
    }
    var path := FilePath(LocalFile(modulePath, link));
    assert path[|modulePath|..] == Join(comps, "/");
    SplitJoin(comps, '/');
  }

  /** The loop at lines 70-74: append each non-empty component of the link
      to the module directory. */
  method LocalFileOf(modulePath: string, link: string) returns (fileUrl: FileUrl)
    ensures fileUrl == LocalFile(modulePath, link)
    ensures forall k :: 0 <= k < |fileUrl.components| ==> fileUrl.components[k] != ""
  {
    var parts := Split(link, "/");
    fileUrl := FileUrl(modulePath, []);
    for i := 0 to |parts|
      invariant fileUrl == FileUrl(modulePath, NonEmptyComponents(parts[..i]))
    {
      var component := parts[i];
      assert parts[..i + 1][..i] == parts[..i];
      if |component| > 0 {
        fileUrl := fileUrl.(components := fileUrl.components + [component]);
      }
    }
    assert parts[..|parts|] == parts;
  }

  // ---------------------------------------------------------------------
  // What the rewrite asks of the outside world

  /** What `URL(string:)` makes of a link: whether it names a host, and the
      extension of its path. */
  datatype Url = Url(host: Option<string>, pathExtension: string)

  datatype Environment = Environment(
    /** `Data(base64Encoded:)`. */
    decodeBase64: string -> Option<seq<bv8>>,
    /** `String(data:encoding: .utf8)`. */
    decodeUtf8: seq<bv8> -> Option<string>,
    /** `data(using: .utf8)?.base64EncodedString()` on the rewritten HTML. */
    encodeHtml: string -> string,
    /** `base64EncodedString()` on fetched bytes. */
    encodeBase64: seq<bv8> -> string,
    /** The distinct `src="..."` values of the HTML, in the order the loop
        visits them. */
    srcValues: string -> seq<string>,
    /** `URL(string:)`. */
    parseUrl: string -> Option<Url>,
    /** The bytes at a remote URL, from the cache or the network. */
    fetch: string -> Option<seq<bv8>>,
    /** The bytes of a local file. */
    readFile: string -> Option<seq<bv8>>)

  // ---------------------------------------------------------------------
  // The rewrite of one link

  /** The `src` attribute text for a value. */
  function Src(value: string): (r: string)
    ensures |r| > 0
  {
    "src=\"" + value + "\""
  }

  function DataUrl(mime: string, b64: string): string {
    "data:" + mime + ";charset=utf-8;base64, " + b64
  }

  /** The `data:` URL a link is replaced by, when the link parses, its
      extension has a MIME type and its bytes can be loaded: from the network
      when it names a host, from the module directory otherwise. */
  function InlinedLink(link: string, modulePath: string, env: Environment): Option<string> {
    match env.parseUrl(link)
    case None => None
    case Some(u) =>
      if u.host.Some? then
        match MimeType(u.pathExtension)
        case None => None
        case Some(mime) =>
          match env.fetch(link)
          case None => None
          case Some(data) => Some(DataUrl(mime, env.encodeBase64(data)))
      else
        var file := FilePath(LocalFile(modulePath, link));
        match MimeType(PathExtension(file))
        case None => None
        case Some(mime) =>
          match env.readFile(file)
          case None => None
          case Some(data) => Some(DataUrl(mime, env.encodeBase64(data)))
  }

  /** Every `src="link"` in the HTML becomes `src="data:..."` when the link
      can be inlined. */
  function RewriteLink(html: string, link: string, modulePath: string, env: Environment): string {
    match InlinedLink(link, modulePath, env)
    case None => html
    case Some(dataUrl) => ReplaceAll(html, Src(link), Src(dataUrl))
  }

  /** A link is inlined only when it parses, its extension has a MIME type
      and its bytes load, and then into a `data:` URL of that type. */
  lemma InlinedLinkIff(link: string, modulePath: string, env: Environment)
    ensures var file := FilePath(LocalFile(modulePath, link));
      var ext := if env.parseUrl(link).Some? && env.parseUrl(link).value.host.Some?
                 then env.parseUrl(link).value.pathExtension else PathExtension(file);
      var data := if env.parseUrl(link).Some? && env.parseUrl(link).value.host.Some?
                  then env.fetch(link) else env.readFile(file);
      (InlinedLink(link, modulePath, env).Some? <==>
        env.parseUrl(link).Some? && MimeType(ext).Some? && data.Some?) &&
      (InlinedLink(link, modulePath, env).Some? ==>
        InlinedLink(link, modulePath, env).value == DataUrl(MimeType(ext).value, env.encodeBase64(data.value)))
  {
  }

  /** HTML that does not hold `src="link"` is left as it is. */
  lemma RewriteAbsentLink(html: string, link: string, modulePath: string, env: Environment)
    requires !Contains(html, Src(link))
    ensures RewriteLink(html, link, modulePath, env) == html
  {
    SplitCount(html, Src(link));
  }

  /** The links rewritten one after the other. */
  function RewriteLinks(html: string, links: seq<string>, modulePath: string, env: Environment): string {
    if links == [] then html
    else RewriteLink(RewriteLinks(html, links[..|links| - 1], modulePath, env), Last(links), modulePath, env)
  }

  /** The body of the loop at lines 59-83 for one link. */
  method InlineLink(html: string, link: string, modulePath: string, env: Environment) returns (result: string)
    ensures result == RewriteLink(html, link, modulePath, env)
  {
    result := html;
    var parsed := env.parseUrl(link);
    if parsed.None? {
      return;
    }
    var u := parsed.value;
    var mime: Option<string>;
    var retrieved: Option<seq<bv8>>;
    if u.host.Some? {
      mime := MimeType(u.pathExtension);
      if mime.None? {
        return;
      }
      retrieved := env.fetch(link);
    } else {
      var fileUrl := LocalFileOf(modulePath, link);
      var file := FilePath(fileUrl);
      mime := MimeType(PathExtension(file));
      if mime.None? {
        return;
      }
      retrieved := env.readFile(file);
    }
    if retrieved.Some? {
      var replacement := DataUrl(mime.value, env.encodeBase64(retrieved.value));
      result := ReplaceAll(html, Src(link), Src(replacement));
    }
  }

  /** The loop at lines 59-83 over the `src` values of a decoded page. */
  method RewriteHtml(decoded: string, modulePath: string, env: Environment) returns (html: string)
    ensures html == RewriteLinks(decoded, env.srcValues(decoded), modulePath, env)
  {
    var links := env.srcValues(decoded);
    html := decoded;
    for i := 0 to |links|
      invariant html == RewriteLinks(decoded, links[..i], modulePath, env)
    {
      assert links[..i + 1][..i] == links[..i];
      html := InlineLink(html, links[i], modulePath, env);
    }
    assert links[..|links|] == links;
  }

  // ---------------------------------------------------------------------
  // Previews

  /** A live preview. Only its HTML, base64 text, is ever changed. */
  class Preview {
    const width: nat
    const height: nat
    const title: string
    const moduleName: string
    const className: string
    var html: string

    constructor (width: nat, height: nat, title: string, moduleName: string, className: string, html: string)
      ensures this.width == width && this.height == height && this.title == title
      ensures this.moduleName == moduleName && this.className == className && this.html == html
    {
      this.width := width;
      this.height := height;
      this.title := title;
      this.moduleName := moduleName;
      this.className := className;
      this.html := html;
    }
  }

  /** The new HTML of a preview: decoded, its links inlined, encoded again;
      HTML that is not base64 of UTF-8 text is kept as it is. */
  function PreviewHtml(html: string, modulePath: string, env: Environment): string {
    match env.decodeBase64(html)
    case None => html
    case Some(data) =>
      match env.decodeUtf8(data)
      case None => html
      case Some(decoded) => env.encodeHtml(RewriteLinks(decoded, env.srcValues(decoded), modulePath, env))
  }

  /** The HTML after `n` passes over it. */
  function RewrittenTimes(html: string, n: nat, modulePath: string, env: Environment): string {
    if n == 0 then html else PreviewHtml(RewrittenTimes(html, n - 1, modulePath, env), modulePath, env)
  }

  /** HTML that is not base64 of UTF-8 text passes through any number of
      passes unchanged. */
  lemma {:induction false} UndecodablePassesThrough(html: string, n: nat, modulePath: string, env: Environment)
    requires env.decodeBase64(html).None? || env.decodeUtf8(env.decodeBase64(html).value).None?
    ensures RewrittenTimes(html, n, modulePath, env) == html
  {
    if n > 0 {
      UndecodablePassesThrough(html, n - 1, modulePath, env);
    }
  }

  /** Lines 58-94 for one preview. */
  method InlineLinks(preview: Preview, modulePath: string, env: Environment)
    modifies preview
    ensures preview.html == PreviewHtml(old(preview.html), modulePath, env)
  {
    var data := env.decodeBase64(preview.html);
    if data.Some? {
      var decoded := env.decodeUtf8(data.value);
      if decoded.Some? {
        var decodedHtml := RewriteHtml(decoded.value, modulePath, env);
        preview.html := env.encodeHtml(decodedHtml);
      }
    }
  }

  /** `replaceContentLinksToBase64(at:previews:)`: the same previews in the
      same order, each one's HTML rewritten in place. A preview listed
      twice is rewritten twice. A path outside a `Sources` directory
      changes nothing. */
  method ReplaceContentLinksToBase64(path: string, previews: seq<Preview>, env: Environment)
    returns (result: seq<Preview>)
    modifies set p | p in previews
    ensures result == previews
    ensures !Contains(path, SourcesMarker) ==> forall p :: p in previews ==> p.html == old(p.html)
    ensures Contains(path, SourcesMarker) ==> forall p :: p in previews ==>
      p.html == RewrittenTimes(old(p.html), multiset(previews)[p], ModulePath(path), env)
  {
    if !Contains(path, SourcesMarker) {
      return previews;
    }
    var modulePath := ModulePath(path);
    result := [];
    for i := 0 to |previews|
      invariant result == previews[..i]
      invariant forall p :: p in previews ==>
        p.html == RewrittenTimes(old(p.html), multiset(previews[..i])[p], modulePath, env)
    {
      var preview := previews[i];
      CountStep(previews, i);
      label before:
      InlineLinks(preview, modulePath, env);
      forall p | p in previews
        ensures p.html == RewrittenTimes(old(p.html), multiset(previews[..i + 1])[p], modulePath, env)
      {
        if p != preview {
          assert p.html == old@before(p.html);
        }
      }
      result := result + [preview];
    }
    assert previews[..|previews|] == previews;
  }

  lemma CountStep<T>(s: seq<T>, i: nat)
    requires i < |s|
    ensures forall x :: multiset(s[..i + 1])[x] == multiset(s[..i])[x] + (if x == s[i] then 1 else 0)
  {
    assert s[..i + 1] == s[..i] + [s[i]];
  }

  /** An element of a list without repeats occurs in it once. */
  lemma CountOnce<T>(s: seq<T>, x: T)
    requires forall i, j :: 0 <= i < j < |s| ==> s[i] != s[j]
    requires x in s
    ensures multiset(s)[x] == 1
  {
    var k :| 0 <= k < |s| && s[k] == x;
    assert s == s[..k] + [x] + s[k + 1..];
    NotBefore(s, k);
    NotAfter(s, k);
    CountBetween(s[..k], x, s[k + 1..]);
  }

  lemma NotBefore<T>(s: seq<T>, k: nat)
    requires forall i, j :: 0 <= i < j < |s| ==> s[i] != s[j]
    requires k < |s|
    ensures s[k] !in s[..k]
  {
  }

  lemma NotAfter<T>(s: seq<T>, k: nat)
    requires forall i, j :: 0 <= i < j < |s| ==> s[i] != s[j]
    requires k < |s|
    ensures s[k] !in s[k + 1..]
  {
    var back := s[k + 1..];
    forall j | 0 <= j < |back|
      ensures back[j] != s[k]
    {
      assert back[j] == s[k + 1 + j];
    }
  }

  lemma CountBetween<T>(front: seq<T>, x: T, back: seq<T>)
    requires x !in front && x !in back
    ensures multiset(front + [x] + back)[x] == 1
  {
    assert multiset(front + [x] + back) == multiset(front) + multiset{x} + multiset(back);
  }

  /** When no preview is listed twice, each is rewritten exactly once. */
  lemma RewrittenOnce(previews: seq<Preview>, p: Preview, html: string, modulePath: string, env: Environment)
    requires forall i, j :: 0 <= i < j < |previews| ==> previews[i] != previews[j]
    requires p in previews
    ensures RewrittenTimes(html, multiset(previews)[p], modulePath, env) == PreviewHtml(html, modulePath, env)
  {
    CountOnce(previews, p);
  }
}
