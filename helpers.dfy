/** `path_to_mimetype` (src/helpers.rs): the content type of a file,
    inferred from the extension of its path as `std::path::Path` reads it. */
module Helpers {
  import opened Wrappers
  import opened Text

  /** `Path::file_name` on a Unix path: the last component, ignoring
      empty components and `.` components; none when that component
      is `..` or the path has no normal component at all. */
  function FileName(p: string): (r: Option<string>)
    ensures r.Some? ==> r.value != [] && '/' !in r.value && r.value != "." && r.value != ".."
    decreases |p|
  {
    RFindSpec(p, '/');
    match RFind(p, '/')
    case None => if p == "" || p == "." || p == ".." then None else Some(p)
    case Some(i) =>
      var last := p[i + 1..];
      if last == "" || last == "." then FileName(p[..i])
      else if last == ".." then None
      else Some(last)
  }

  /** `Path::extension`: the text after the last `.` of the file name,
      unless that `.` is the name's first character. */
  function Extension(p: string): (r: Option<string>)
    ensures r.Some? ==> '.' !in r.value && '/' !in r.value
  {
    match FileName(p)
    case None => None
    case Some(name) =>
      RFindSpec(name, '.');
      match RFind(name, '.')
      case None => None
      case Some(i) => if i == 0 then None else Some(name[i + 1..])
  }

  /** The nine strings the table can produce. */
  const MIME_TYPES: set<string> :=
    {"text/html", "text/css", "text/javascript", "image/png", "image/jpeg",
     "image/gif", "image/x-icon", "application/pdf", "text/plain"}

  /** The table, matched exactly and case-sensitively. */
  function MimeOfExtension(ext: Option<string>): (m: string)
    ensures m in MIME_TYPES
  {
    match ext
    case Some("html") => "text/html"
    case Some("css") => "text/css"
    case Some("js") => "text/javascript"
    case Some("png") => "image/png"
    case Some("jpg") => "image/jpeg"
    case Some("jpeg") => "image/jpeg"
    case Some("gif") => "image/gif"
    case Some("ico") => "image/x-icon"
    case Some("pdf") => "application/pdf"
    case _ => "text/plain"
  }

  /** `path_to_mimetype`: total, and always one of the nine table entries. */
  function PathToMimetype(path: string): (m: string)
    ensures m in MIME_TYPES
  {
    MimeOfExtension(Extension(path))
  }

  /** A name without `/` at the end of a path (after a `/` or on its
      own) is the path's file name, unless it is `.` or `..`. */
  lemma FileNameOfName(dir: string, name: string)
    requires dir == "" || dir[|dir| - 1] == '/'
    requires name != "" && '/' !in name && name != "." && name != ".."
    ensures FileName(dir + name) == Some(name)
  {
    var p := dir + name;
    if dir == "" {
      assert p == name;
      RFindSpec(name, '/');
    } else {
      assert p[|dir| - 1] == '/';
      assert p[|dir|..] == name;
      RFindAt(p, '/', |dir| - 1);
    }
  }

  /** A simple file name `stem.ext` at the end of a path has extension
      `ext`: the text after its last dot. */
  lemma ExtensionOfName(dir: string, stem: string, ext: string)
    requires dir == "" || dir[|dir| - 1] == '/'
    requires stem != "" && '/' !in stem && stem != "."
    requires '/' !in ext && '.' !in ext
    ensures Extension(dir + stem + "." + ext) == Some(ext)
  {
    var name := stem + "." + ext;
    assert dir + stem + "." + ext == dir + name;
    assert '/' !in name by {
      forall k | 0 <= k < |name| ensures name[k] != '/' {
        if k < |stem| { assert name[k] == stem[k]; }
        else if k > |stem| { assert name[k] == ext[k - |stem| - 1]; }
      }
    }
    assert name != "." && name != ".." by {
      if |name| == 2 { assert stem == [name[0]]; }
    }
    FileNameOfName(dir, name);
    assert name[|stem|] == '.' && name[|stem| + 1..] == ext;
    RFindAt(name, '.', |stem|);
  }

  /** The table applied to a simple file name `stem.ext`. */
  lemma MimetypeOfName(dir: string, stem: string, ext: string)
    requires dir == "" || dir[|dir| - 1] == '/'
    requires stem != "" && '/' !in stem && stem != "."
    requires '/' !in ext && '.' !in ext
    ensures ext == "html" ==> PathToMimetype(dir + stem + "." + ext) == "text/html"
    ensures ext == "css" ==> PathToMimetype(dir + stem + "." + ext) == "text/css"
    ensures ext == "js" ==> PathToMimetype(dir + stem + "." + ext) == "text/javascript"
    ensures ext == "png" ==> PathToMimetype(dir + stem + "." + ext) == "image/png"
    ensures ext in {"jpg", "jpeg"} ==> PathToMimetype(dir + stem + "." + ext) == "image/jpeg"
    ensures ext == "gif" ==> PathToMimetype(dir + stem + "." + ext) == "image/gif"
    ensures ext == "ico" ==> PathToMimetype(dir + stem + "." + ext) == "image/x-icon"
    ensures ext == "pdf" ==> PathToMimetype(dir + stem + "." + ext) == "application/pdf"
    ensures ext !in {"html", "css", "js", "png", "jpg", "jpeg", "gif", "ico", "pdf"} ==>
              PathToMimetype(dir + stem + "." + ext) == "text/plain"
  {
    ExtensionOfName(dir, stem, ext);
  }

  /** A path with no extension gets the fallback. */
  lemma MimetypeWithoutExtension(path: string)
    requires Extension(path) == None
    ensures PathToMimetype(path) == "text/plain"
  {
  }

  /** Only the last extension counts. */
  lemma MimetypeLastExtension()
    ensures PathToMimetype("/static/a.min.js") == "text/javascript"
  {
    assert "/static/" + "a.min" + "." + "js" == "/static/a.min.js";
    assert '/' !in "a.min" && '/' !in "js" && '.' !in "js";
    MimetypeOfName("/static/", "a.min", "js");
  }

  /** Matching is exact and case-sensitive. */
  lemma MimetypeCaseSensitive()
    ensures PathToMimetype("/index.HTML") == "text/plain"
  {
    assert "/" + "index" + "." + "HTML" == "/index.HTML";
    assert '/' !in "index" && '/' !in "HTML" && '.' !in "HTML";
    MimetypeOfName("/", "index", "HTML");
  }

  /** A leading dot does not start an extension. */
  lemma MimetypeDotFile()
    ensures PathToMimetype("/.html") == "text/plain"
  {
    RFindAt("/.html", '/', 0);
    assert "/.html"[1..] == ".html";
    RFindAt(".html", '.', 0);
  }

  /** Trailing `/` components are skipped, as `Path` skips them. */
  lemma MimetypeTrailingSlash()
    ensures PathToMimetype("/img/logo.png/") == "image/png"
  {
    RFindAt("/img/logo.png/", '/', 13);
    assert "/img/logo.png/"[14..] == "";
    assert "/img/logo.png/"[..13] == "/img/" + "logo" + "." + "png";
    assert '/' !in "logo" && '/' !in "png" && '.' !in "png";
    MimetypeOfName("/img/", "logo", "png");
  }

  /** A path ending in `..` has no file name and so no extension. */
  lemma MimetypeParentDir()
    ensures PathToMimetype("/a.css/..") == "text/plain"
  {
    RFindAt("/a.css/..", '/', 6);
    assert "/a.css/.."[7..] == "..";
  }
}
