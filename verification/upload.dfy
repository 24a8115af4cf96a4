/** Admin image upload: the extension whitelist on pathlib's suffix, the
    size cap, and the generated file name and URL.  Writing the file is
    left to the caller. */
module Upload {
  import opened Wrappers
  import opened Text

  const AllowedExtensions: set<string> := {".jpg", ".jpeg", ".png", ".webp"}

  /** 5 MiB. */
  const MaxFileSize: nat := 5 * 1024 * 1024

  const UploadPrefix: string := "/uploads/"

  /** The components of a POSIX path, split on every '/'. */
  function SplitSlash(s: string): (r: seq<string>)
    ensures |r| >= 1
    ensures forall i :: 0 <= i < |r| ==> '/' !in r[i]
    decreases |s|
  {
    if |s| == 0 then [""]
    else if s[|s| - 1] == '/' then SplitSlash(s[..|s| - 1]) + [""]
    else
      var p := SplitSlash(s[..|s| - 1]);
      p[..|p| - 1] + [p[|p| - 1] + [s[|s| - 1]]]
  }

  function JoinSlash(parts: seq<string>): string
    requires |parts| >= 1
  {
    if |parts| == 1 then parts[0] else JoinSlash(parts[..|parts| - 1]) + "/" + parts[|parts| - 1]
  }

  /** Splitting loses nothing: joining the components back gives the path. */
  lemma {:induction false} SplitJoin(s: string)
    ensures JoinSlash(SplitSlash(s)) == s
    decreases |s|
  {
    if |s| > 0 {
      var init, c := s[..|s| - 1], s[|s| - 1];
      var p := SplitSlash(init);
      SplitJoin(init);
      assert s == init + [c];
      if c == '/' {
        var q := p + [""];
        assert SplitSlash(s) == q;
        assert q[..|q| - 1] == p;
        assert JoinSlash(q) == JoinSlash(p) + "/" + "";
      } else {
        assert SplitSlash(s) == p[..|p| - 1] + [p[|p| - 1] + [c]];
        JoinExtendLast(p, c);
      }
    }
  }

  /** Appending a character to the last component appends it to the path. */
  lemma JoinExtendLast(p: seq<string>, c: char)
    requires |p| >= 1
    ensures JoinSlash(p[..|p| - 1] + [p[|p| - 1] + [c]]) == JoinSlash(p) + [c]
  {
    var q := p[..|p| - 1] + [p[|p| - 1] + [c]];
    if |p| > 1 {
      assert q[..|q| - 1] == p[..|p| - 1];
    }
  }

  /** Components pathlib drops: empty ones (repeated or trailing slashes)
      and ".". */
  predicate Dropped(part: string) {
    part == "" || part == "."
  }

  /** The last component pathlib keeps, or "" when there is none. */
  function LastKept(parts: seq<string>): (r: string)
    ensures r == "" || (r in parts && !Dropped(r))
    ensures r == "" <==> forall i :: 0 <= i < |parts| ==> Dropped(parts[i])
    ensures r != "" ==> exists i :: 0 <= i < |parts| && parts[i] == r && forall j :: i < j < |parts| ==> Dropped(parts[j])
  {
    if |parts| == 0 then ""
    else if Dropped(parts[|parts| - 1]) then
      var init := parts[..|parts| - 1];
      var r := LastKept(init);
      if r != "" then
        var i :| 0 <= i < |init| && init[i] == r && forall j :: i < j < |init| ==> Dropped(init[j]);
        assert parts[i] == r && forall j :: i < j < |parts| ==> Dropped(parts[j]);
        r
      else r
    else parts[|parts| - 1]
  }

  /** `PurePosixPath(filename).name`. */
  function PathName(filename: string): (r: string)
    ensures '/' !in r
    ensures r != "."
  {
    var parts := SplitSlash(filename);
    var r := LastKept(parts);
    assert r == "" || exists i :: 0 <= i < |parts| && parts[i] == r;
    r
  }

  /** `str.rfind('.')`: the index of the last dot, or -1. */
  function LastDot(s: string): (r: int)
    ensures -1 <= r < |s|
    ensures r == -1 <==> forall k :: 0 <= k < |s| ==> s[k] != '.'
    ensures r >= 0 ==> s[r] == '.' && forall k :: r < k < |s| ==> s[k] != '.'
  {
    LastDotBefore(s, |s|)
  }

  /** The last dot among the first `n` characters, or -1. */
  function LastDotBefore(s: string, n: nat): (r: int)
    requires n <= |s|
    ensures -1 <= r < n
    ensures r == -1 <==> forall k :: 0 <= k < n ==> s[k] != '.'
    ensures r >= 0 ==> s[r] == '.' && forall k :: r < k < n ==> s[k] != '.'
  {
    if n == 0 then -1
    else if s[n - 1] == '.' then n - 1
    else LastDotBefore(s, n - 1)
  }

  /** `PurePath.suffix`: from the last dot on, provided the dot neither
      starts the name nor ends it. */
  function Suffix(name: string): (r: string)
    ensures r != "" <==> 0 < LastDot(name) < |name| - 1
    ensures r != "" ==> |r| >= 2 && r[0] == '.' && forall k :: 1 <= k < |r| ==> r[k] != '.'
    ensures r != "" ==> |r| < |name| && name == name[..|name| - |r|] + r
  {
    var i := LastDot(name);
    if 0 < i < |name| - 1 then name[i..] else ""
  }

  /** The extension the route checks: the lower-cased suffix of the name. */
  function Extension(filename: string): (r: string)
    ensures r != "" <==> 0 < LastDot(PathName(filename)) < |PathName(filename)| - 1
    ensures r != "" ==> |r| >= 2 && r[0] == '.' && forall k :: 1 <= k < |r| ==> r[k] != '.'
    ensures forall k :: 0 <= k < |r| ==> !('A' <= r[k] <= 'Z')
  {
    var sfx := Suffix(PathName(filename));
    LowerShape(sfx);
    Lower(sfx)
  }

  /** The JSON body of a successful upload. */
  datatype Uploaded = Uploaded(url: string, filename: string, size: nat, mimeType: Option<string>)

  /** `upload_file`, with the generated id (the text of `uuid.uuid4()`)
      as an input.  The extension is checked before the size. */
  function UploadFile(filename: string, content: seq<bv8>, id: string, contentType: Option<string>)
    : (r: Result<Uploaded>)
    ensures r.Err? <==> Extension(filename) !in AllowedExtensions || |content| > MaxFileSize
    ensures r.Err? ==> (r.status == BadRequest <==> Extension(filename) !in AllowedExtensions)
    ensures r.Err? ==> (r.status == PayloadTooLarge <==> Extension(filename) in AllowedExtensions)
    ensures r.Ok? ==>
      && r.value.url == UploadPrefix + r.value.filename
      && r.value.filename == id + Extension(filename)
      && |r.value.filename| > |id| && r.value.filename[..|id|] == id
      && r.value.size == |content| <= MaxFileSize
      && r.value.mimeType == contentType
  {
    var ext := Extension(filename);
    if ext !in AllowedExtensions then Err(BadRequest)
    else if |content| > MaxFileSize then Err(PayloadTooLarge)
    else
      var stored := id + ext;
      Ok(Uploaded(UploadPrefix + stored, stored, |content|, contentType))
  }

  /** A bad extension is refused whatever the size. */
  lemma BadExtensionAnySize(filename: string, content: seq<bv8>, id: string, contentType: Option<string>)
    requires Extension(filename) !in AllowedExtensions
    ensures UploadFile(filename, content, id, contentType) == Err(BadRequest)
  {
  }

  /** With an allowed extension, the cap is inclusive. */
  lemma SizeBoundary(filename: string, content: seq<bv8>, id: string, contentType: Option<string>)
    requires Extension(filename) in AllowedExtensions
    ensures UploadFile(filename, content, id, contentType).Ok? <==> |content| <= MaxFileSize
    ensures |content| == MaxFileSize ==> UploadFile(filename, content, id, contentType).Ok?
  {
  }

  /** A name with no dot has no suffix, and is refused. */
  lemma NoSuffixRejected(filename: string, content: seq<bv8>, id: string, contentType: Option<string>)
    requires '.' !in PathName(filename)
    ensures UploadFile(filename, content, id, contentType) == Err(BadRequest)
  {
    assert Suffix(PathName(filename)) == "";
  }

  /** Every allowed extension is a dot followed by lower-case letters. */
  lemma AllowedShape(ext: string)
    requires ext in AllowedExtensions
    ensures |ext| >= 2 && ext[0] == '.' && forall k :: 1 <= k < |ext| ==> 'a' <= ext[k] <= 'z'
  {
    assert ext == ".jpg" || ext == ".jpeg" || ext == ".png" || ext == ".webp";
  }

  lemma DotWordShape(ext: string)
    requires |ext| >= 2 && ext[0] == '.' && forall k :: 1 <= k < |ext| ==> 'a' <= ext[k] <= 'z'
    ensures Lower(ext) == ext && '/' !in ext
    ensures LastDot(ext) == 0
  {
    assert forall k :: 0 <= k < |ext| ==> LowerChar(ext[k]) == ext[k];
  }

  /** The stored name keeps the uploaded extension: read back by the same
      rule, the name the route generates has the extension that was
      accepted, so the stored file passes the whitelist again.  The id must
      be non-empty and free of '/', as a UUID's text is. */
  lemma StoredNameKeepsExtension(filename: string, content: seq<bv8>, id: string, contentType: Option<string>)
    requires id != "" && '/' !in id
    requires UploadFile(filename, content, id, contentType).Ok?
    ensures var u := UploadFile(filename, content, id, contentType).value;
      Extension(u.filename) == Extension(filename) && Extension(u.filename) in AllowedExtensions
  {
    var ext := Extension(filename);
    assert ext in AllowedExtensions;
    assert UploadFile(filename, content, id, contentType).value.filename == id + ext;
    StoredExtension(id, ext);
  }

  lemma StoredExtension(id: string, ext: string)
    requires id != "" && '/' !in id && ext in AllowedExtensions
    ensures Extension(id + ext) == ext
  {
    AllowedShape(ext);
    WordAfterId(id, ext);
  }

  /** A dot followed by lower-case letters, appended to a plain id, is read
      back as the extension. */
  lemma WordAfterId(id: string, ext: string)
    requires id != "" && '/' !in id
    requires |ext| >= 2 && ext[0] == '.' && forall k :: 1 <= k < |ext| ==> 'a' <= ext[k] <= 'z'
    ensures Extension(id + ext) == ext
  {
    var stored := id + ext;
    DotWordShape(ext);
    assert forall k :: 0 <= k < |stored| ==> stored[k] == if k < |id| then id[k] else ext[k - |id|];
    assert '/' !in stored;
    PlainName(stored);
    LastDotAppend(id, ext);
    assert stored[|id|..] == ext;
    assert Suffix(stored) == ext;
  }

  /** The last dot of `a + b` is the last dot of `b`, when `b` has one. */
  lemma LastDotAppend(a: string, b: string)
    requires LastDot(b) >= 0
    ensures LastDot(a + b) == |a| + LastDot(b)
  {
    var ab := a + b;
    var i := |a| + LastDot(b);
    assert ab[i] == '.';
    assert forall k :: i < k < |ab| ==> ab[k] == b[k - |a|];
  }

  lemma {:induction false} NoSlashSingle(s: string)
    requires '/' !in s
    ensures SplitSlash(s) == [s]
    decreases |s|
  {
    if |s| > 0 {
      NoSlashSingle(s[..|s| - 1]);
      assert s == s[..|s| - 1] + [s[|s| - 1]];
    }
  }

  /** A name without '/' that is neither empty nor "." is its own
      `PurePosixPath(...).name`. */
  lemma PlainName(s: string)
    requires '/' !in s && s != "" && s != "."
    ensures PathName(s) == s
  {
    NoSlashSingle(s);
  }

  /** An upper-case extension is accepted and stored lower-cased. */
  lemma UpperCaseAccepted()
    ensures Extension("photo.JPG") == ".jpg"
  {
    PlainName("photo.JPG");
    PhotoSuffix();
    LowerJpg();
  }

  lemma PhotoSuffix()
    ensures Suffix("photo.JPG") == ".JPG"
  {
    assert LastDotBefore("photo.JPG", 9) == 5;
  }

  lemma LowerJpg()
    ensures Lower(".JPG") == ".jpg"
  {
    var low := Lower(".JPG");
    assert low[0] == LowerChar('.') == '.';
    assert low[1] == LowerChar('J') == 'j';
    assert low[2] == LowerChar('P') == 'p';
    assert low[3] == LowerChar('G') == 'g';
  }

  /** Only the last suffix counts. */
  lemma LastSuffixCounts()
    ensures Extension("archive.tar.png") == ".png"
  {
    PlainName("archive.tar.png");
    ArchiveSuffix();
    DotWordShape(".png");
  }

  lemma ArchiveSuffix()
    ensures Suffix("archive.tar.png") == ".png"
  {
    assert LastDotBefore("archive.tar.png", 15) == 11;
  }

  /** A hidden file named after an extension has no suffix, so it is refused. */
  lemma HiddenFileRejected()
    ensures Extension(".png") == ""
  {
    PlainName(".png");
    assert LastDotBefore(".png", 4) == 0;
  }

  /** A trailing dot gives no suffix. */
  lemma TrailingDotRejected()
    ensures Extension("photo.") == ""
  {
    PlainName("photo.");
    assert LastDotBefore("photo.", 6) == 5;
  }

  /** Only the last component is looked at: a directory's dots do not count. */
  lemma DirectoryIgnored(dir: string, name: string)
    requires '/' !in dir && '/' !in name && !Dropped(name)
    ensures PathName(dir + "/" + name) == name
  {
    var d := dir + "/";
    NoSlashSingle(dir);
    assert d[..|d| - 1] == dir;
    assert SplitSlash(d) == [dir, ""];
    SplitAfterSlash(d, name);
    assert SplitSlash(d + name) == [dir, name];
  }

  lemma DirectoryDotIgnored()
    ensures Extension("dir.jpg/photo") == ""
  {
    DirectoryIgnored("dir.jpg", "photo");
    assert "dir.jpg" + "/" + "photo" == "dir.jpg/photo";
    assert LastDotBefore("photo", 5) == -1;
  }

  /** Characters after the last slash extend only the last component. */
  lemma {:induction false} SplitAfterSlash(dir: string, tail: string)
    requires |dir| > 0 && dir[|dir| - 1] == '/' && '/' !in tail
    ensures SplitSlash(dir + tail) == SplitSlash(dir)[..|SplitSlash(dir)| - 1] + [tail]
    decreases |tail|
  {
    if |tail| == 0 {
      assert dir + tail == dir;
      assert SplitSlash(dir)[|SplitSlash(dir)| - 1] == "";
      assert SplitSlash(dir) == SplitSlash(dir)[..|SplitSlash(dir)| - 1] + [""];
    } else {
      var s := dir + tail;
      var t' := tail[..|tail| - 1];
      SplitAfterSlash(dir, t');
      assert s[..|s| - 1] == dir + t';
      assert t' + [tail[|tail| - 1]] == tail;
    }
  }
}
