/** The string side of publishing an artifact (storage/storage.go,
    `UploadFile`): where in the bucket a local file goes and the public URL
    handed back. */
module Storage {
  import opened Wrappers
  import opened Strings

  /** The bucket folder every artifact is uploaded into, `DaXSome/datasets`. */
  const Root: string := "DaXSome"
  const Datasets: string := "datasets"
  const Folder: string := Root + "/" + Datasets

  /** The download endpoint of the configured bucket `exacheer-c9099.appspot.com`. */
  const UrlPrefix: string := "https://firebasestorage.googleapis.com/v0/b/exacheer-c9099.appspot.com/o/"

  /** Asks the endpoint for the object's bytes rather than its metadata. */
  const UrlSuffix: string := "?alt=media"

  /** What each `/` of the object path becomes in the URL. */
  const EncodedSlash: string := "%2F"

  // ---------------------------------------------------------------------------
  // filepath.Base
  // ---------------------------------------------------------------------------

  /** `path` without its trailing slashes. */
  function TrimTrailingSlashes(path: string): (r: string)
    ensures |r| <= |path| && r == path[..|r|]
    ensures r == "" || r[|r| - 1] != '/'
    ensures forall i :: |r| <= i < |path| ==> path[i] == '/'
    decreases |path|
  {
    if |path| > 0 && path[|path| - 1] == '/' then TrimTrailingSlashes(path[..|path| - 1]) else path
  }

  /** The text after the last slash of `path`. */
  function LastElement(path: string): (r: string)
    ensures |r| <= |path| && r == path[|path| - |r|..]
    ensures '/' !in r
    ensures |r| < |path| ==> path[|path| - |r| - 1] == '/'
    decreases |path|
  {
    if |path| == 0 || path[|path| - 1] == '/' then ""
    else LastElement(path[..|path| - 1]) + [path[|path| - 1]]
  }

  /** `filepath.Base` with `/` as the separator: the last element after
      trailing slashes are dropped; `.` for the empty path and `/` for a
      path of slashes only. */
  function Base(path: string): (r: string)
    ensures r != ""
    ensures r == "/" <==> path != "" && forall i :: 0 <= i < |path| ==> path[i] == '/'
    ensures r != "/" ==> '/' !in r
  {
    if path == "" then "."
    else
      var trimmed := TrimTrailingSlashes(path);
      if trimmed == "" then "/"
      else
        assert trimmed[|trimmed| - 1] !in "/";
        LastElement(trimmed)
  }

  /** A base name that `filepath.Join` keeps as it is: not empty, no slash,
      and neither `.` nor `..`. */
  predicate OrdinaryName(name: string) {
    name != "" && '/' !in name && name != "." && name != ".."
  }

  /** The directory part of a path does not reach its base name. */
  lemma BaseIgnoresDirectory(dir: string, name: string)
    requires name != "" && '/' !in name
    ensures Base(dir + "/" + name) == name
  {
    var path := dir + "/" + name;
    assert path[|path| - 1] == name[|name| - 1];
    assert TrimTrailingSlashes(path) == path;
    LastElementAfterSlash(dir, name);
  }

  /** A name without slashes is its own base name. */
  lemma BaseOfName(name: string)
    requires name != "" && '/' !in name
    ensures Base(name) == name
  {
    assert name[|name| - 1] in name;
    assert TrimTrailingSlashes(name) == name;
    LastElementWhole(name);
  }

  lemma {:induction false} LastElementAfterSlash(dir: string, name: string)
    requires '/' !in name
    ensures LastElement(dir + "/" + name) == name
    decreases |name|
  {
    var path := dir + "/" + name;
    if |name| > 0 {
      var init := name[..|name| - 1];
      assert path[..|path| - 1] == dir + "/" + init;
      assert '/' !in init by {
        forall i | 0 <= i < |init|
          ensures init[i] != '/'
        {
          assert init[i] == name[i];
        }
      }
      assert path[|path| - 1] == name[|name| - 1];
      assert name[|name| - 1] in name;
      LastElementAfterSlash(dir, init);
      assert name == init + [name[|name| - 1]];
    }
  }

  lemma {:induction false} LastElementWhole(name: string)
    requires '/' !in name
    ensures LastElement(name) == name
    decreases |name|
  {
    if |name| > 0 {
      var init := name[..|name| - 1];
      assert '/' !in init by {
        forall i | 0 <= i < |init|
          ensures init[i] != '/'
        {
          assert init[i] == name[i];
        }
      }
      assert name[|name| - 1] in name;
      LastElementWhole(init);
      assert name == init + [name[|name| - 1]];
    }
  }

  /** Taking the base name twice changes nothing. */
  lemma BaseIdempotent(path: string)
    ensures Base(Base(path)) == Base(path)
  {
    var b := Base(path);
    if b == "/" {
      assert TrimTrailingSlashes(b) == TrimTrailingSlashes("");
    } else {
      BaseOfName(b);
    }
  }

  // ---------------------------------------------------------------------------
  // Object path and URL
  // ---------------------------------------------------------------------------

  /** `filepath.Join("DaXSome", "datasets", filepath.Base(file))`. `Join`
      cleans its result, so a base of `.` or `/` names the folder itself and
      a base of `..` its parent; any other base is appended as it is. */
  function ObjectPath(file: string): (r: string)
    ensures OrdinaryName(Base(file)) ==> r == Folder + "/" + Base(file)
    ensures Base(file) == "." || Base(file) == "/" ==> r == Folder
    ensures Base(file) == ".." ==> r == Root
  {
    var b := Base(file);
    if b == "." || b == "/" then Folder
    else if b == ".." then Root
    else Folder + "/" + b
  }

  /** An object uploaded under an ordinary base name keeps that name: the
      object path's own base name is the file's. */
  lemma ObjectKeepsBase(file: string)
    requires OrdinaryName(Base(file))
    ensures Base(ObjectPath(file)) == Base(file)
  {
    BaseIgnoresDirectory(Folder, Base(file));
  }

  /** `strings.ReplaceAll(path, "/", "%2F")`: the encoded path holds no
      slash, and a path without slashes is left as it is. */
  function EncodePath(path: string): (r: string)
    ensures '/' !in r
    ensures '/' !in path ==> r == path
  {
    EncodeFacts(path);
    ReplaceAll(path, "/", EncodedSlash)
  }

  lemma EncodeFacts(path: string)
    ensures '/' !in ReplaceAll(path, "/", EncodedSlash)
    ensures '/' !in path ==> ReplaceAll(path, "/", EncodedSlash) == path
  {
    ReplaceAllSingleChar(path, '/', EncodedSlash);
    assert '/' !in EncodedSlash;
    ReplaceCharRemoves(path, '/', EncodedSlash);
    if '/' !in path {
      ReplaceCharAbsent(path, '/', EncodedSlash);
    }
  }

  /** Each slash between two parts becomes `%2F`; the parts are encoded on
      their own. */
  lemma EncodeJoin(a: string, b: string)
    ensures EncodePath(a + "/" + b) == EncodePath(a) + EncodedSlash + EncodePath(b)
  {
    ReplaceAllSingleChar(a + "/" + b, '/', EncodedSlash);
    ReplaceAllSingleChar(a, '/', EncodedSlash);
    ReplaceAllSingleChar(b, '/', EncodedSlash);
    ReplaceCharAppend(a + "/", b, '/', EncodedSlash);
    ReplaceCharAppend(a, "/", '/', EncodedSlash);
    assert ReplaceChar("/", '/', EncodedSlash) == EncodedSlash + ReplaceChar("", '/', EncodedSlash);
  }

  /** The public download URL of an uploaded file: the fixed prefix, the
      encoded object path, and `?alt=media`. Between prefix and suffix there
      is no slash, so the whole object path is one URL segment. */
  function PublicUrl(file: string): (r: string)
    ensures |r| > |UrlPrefix| + |UrlSuffix|
    ensures r[..|UrlPrefix|] == UrlPrefix
    ensures r[|r| - |UrlSuffix|..] == UrlSuffix
    ensures '/' !in r[|UrlPrefix|..|r| - |UrlSuffix|]
  {
    var path := ObjectPath(file);
    var encoded := EncodePath(path);
    EncodedNonEmpty(path);
    Framed(UrlPrefix, encoded, UrlSuffix);
    UrlPrefix + encoded + UrlSuffix
  }

  /** The three parts of `pre + mid + suf` can be read back by position. */
  lemma Framed(pre: string, mid: string, suf: string)
    ensures var s := pre + mid + suf;
            && |s| == |pre| + |mid| + |suf|
            && s[..|pre|] == pre
            && s[|pre|..|s| - |suf|] == mid
            && s[|s| - |suf|..] == suf
  {
  }

  lemma EncodedNonEmpty(path: string)
    requires |path| > 0
    ensures |EncodePath(path)| > 0
  {
    ReplaceAllSingleChar(path, '/', EncodedSlash);
  }

  /** The URL of a file with an ordinary base name: the folder, encoded,
      then the base name. */
  lemma OrdinaryUrl(file: string)
    requires OrdinaryName(Base(file))
    ensures PublicUrl(file) == UrlPrefix + Root + EncodedSlash + Datasets + EncodedSlash + Base(file) + UrlSuffix
  {
    var b := Base(file);
    EncodedObjectPath(b);
    var e := EncodePath(Folder + "/" + b);
    assert PublicUrl(file) == UrlPrefix + e + UrlSuffix;
  }

  /** The encoded object path of an ordinary base name. */
  lemma EncodedObjectPath(b: string)
    requires OrdinaryName(b)
    ensures EncodePath(Folder + "/" + b) == Root + EncodedSlash + Datasets + EncodedSlash + b
  {
    EncodeJoin(Folder, b);
    EncodedFolder();
  }

  lemma EncodedFolder()
    ensures EncodePath(Folder) == Root + EncodedSlash + Datasets
  {
    EncodeJoin(Root, Datasets);
    assert '/' !in Root && '/' !in Datasets;
  }

  /** Files in different directories with the same base name share a URL:
      the second upload overwrites the first object. */
  lemma UrlIgnoresDirectory(dir: string, name: string)
    requires OrdinaryName(name)
    ensures PublicUrl(dir + "/" + name) == PublicUrl(name)
  {
    BaseIgnoresDirectory(dir, name);
    BaseOfName(name);
  }

  /** For ordinary base names the URL determines the base name: files in
      any two directories get the same URL exactly when their names agree. */
  lemma UrlInjective(dir1: string, n1: string, dir2: string, n2: string)
    requires OrdinaryName(n1) && OrdinaryName(n2)
    ensures PublicUrl(dir1 + "/" + n1) == PublicUrl(dir2 + "/" + n2) <==> n1 == n2
  {
    UrlIgnoresDirectory(dir1, n1);
    UrlIgnoresDirectory(dir2, n2);
    NameUrlInjective(n1, n2);
  }

  lemma NameUrlInjective(n1: string, n2: string)
    requires OrdinaryName(n1) && OrdinaryName(n2)
    ensures PublicUrl(n1) == PublicUrl(n2) <==> n1 == n2
  {
    BaseOfName(n1);
    BaseOfName(n2);
    OrdinaryUrl(n1);
    OrdinaryUrl(n2);
    var pre := UrlPrefix + Root + EncodedSlash + Datasets + EncodedSlash;
    if PublicUrl(n1) == PublicUrl(n2) {
      Cancel(pre, n1, n2, UrlSuffix);
    }
  }

  /** Equal texts that share a prefix and a suffix agree in between. */
  lemma Cancel(pre: string, m1: string, m2: string, suf: string)
    requires pre + m1 + suf == pre + m2 + suf
    ensures m1 == m2
  {
    var u := pre + m1 + suf;
    assert |m1| == |m2|;
    assert m1 == u[|pre|..|pre| + |m1|];
  }

  /** The object path computed for the empty path and for `.`: both have
      base name `.`, and `Join` cleans `DaXSome/datasets/.` to the folder
      itself. */
  lemma DotPathIsFolder()
    ensures ObjectPath("") == Folder && ObjectPath(".") == Folder
  {
    BaseOfName(".");
  }

  /** The object path computed for `/`: its base name is `/`, and `Join`
      cleans the doubled slash away, leaving the folder itself. */
  lemma SlashPathIsFolder()
    ensures ObjectPath("/") == Folder
  {
    assert TrimTrailingSlashes("/") == TrimTrailingSlashes("");
  }

  /** The object path computed for `..`: the parent of the folder. */
  lemma DotDotPathIsRoot()
    ensures ObjectPath("..") == Root
  {
    BaseOfName("..");
  }

  // ---------------------------------------------------------------------------
  // UploadFile
  // ---------------------------------------------------------------------------

  /** The steps of an upload that can fail, with the error each reports. */
  datatype UploadError =
    | OpenFailed(cause: string)
    | CopyFailed(cause: string)
    | AclFailed(cause: string)

  /** How the I/O steps of one upload turn out: `None` when the step
      succeeds, otherwise the cause of its error. Opening the local file,
      streaming it into the object, and making the object public happen in
      this order. */
  datatype UploadIO = UploadIO(open: Option<string>, copy: Option<string>, acl: Option<string>)

  /** `UploadFile(ctx, file)`: the first failing step decides the error and
      the URL is then empty; when every step succeeds the URL is the public
      download URL of the file's object. */
  function UploadFile(file: string, io: UploadIO): (r: Returns<string, UploadError>)
    ensures r.err.None? <==> io.open.None? && io.copy.None? && io.acl.None?
    ensures r.err.Some? <==> r.value == ""
    ensures r.err.None? ==> r.value == PublicUrl(file)
    ensures io.open.Some? ==> r.err == Some(OpenFailed(io.open.value))
    ensures io.open.None? && io.copy.Some? ==> r.err == Some(CopyFailed(io.copy.value))
    ensures io.open.None? && io.copy.None? && io.acl.Some? ==> r.err == Some(AclFailed(io.acl.value))
  {
    if io.open.Some? then Returns("", Some(OpenFailed(io.open.value)))
    else if io.copy.Some? then Returns("", Some(CopyFailed(io.copy.value)))
    else if io.acl.Some? then Returns("", Some(AclFailed(io.acl.value)))
    else Returns(PublicUrl(file), None)
  }
}
