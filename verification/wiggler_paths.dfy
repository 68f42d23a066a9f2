/**
 * How wiggler.py finds an image on disk: `_resolve_existing` tries the
 * common extensions on a base name, and `_resolve_gif_or_first_jpg` maps a
 * GIF result (or an extension-less name) back to its first source frame.
 * The file system is the predicate `onDisk` (`os.path.exists`); the POSIX `os.path` helpers
 * the resolver uses are modelled on strings.
 */
module WigglerPaths {
  import opened Common

  /** `_COMMON_EXTS`, in the order they are tried. */
  const CommonExts: seq<string> := [".jpg", ".jpeg", ".png"]

  // ---------------------------------------------------------------------
  // The first existing candidate
  // ---------------------------------------------------------------------

  /** The first candidate the file system has, if any. */
  function FirstExisting(cands: seq<string>, onDisk: string -> bool): (r: Option<string>)
    ensures r.None? <==> forall i :: 0 <= i < |cands| ==> !onDisk(cands[i])
    ensures r.Some? ==> exists i :: (0 <= i < |cands| && cands[i] == r.value && onDisk(r.value)
      && forall j :: 0 <= j < i ==> !onDisk(cands[j]))
  {
    if |cands| == 0 then None
    else if onDisk(cands[0]) then Some(cands[0])
    else
      var r := FirstExisting(cands[1..], onDisk);
      assert forall i :: 1 <= i < |cands| ==> cands[i] == cands[1..][i - 1];
      r
  }

  /** Searching a concatenation searches the first part, then the second. */
  lemma {:induction false} FirstExistingAppend(a: seq<string>, b: seq<string>, onDisk: string -> bool)
    ensures FirstExisting(a + b, onDisk)
      == if FirstExisting(a, onDisk).Some? then FirstExisting(a, onDisk) else FirstExisting(b, onDisk)
  {
    if |a| > 0 {
      assert (a + b)[0] == a[0];
      assert (a + b)[1..] == a[1..] + b;
      FirstExistingAppend(a[1..], b, onDisk);
    } else {
      assert a + b == b;
    }
  }

  lemma FirstExistingCons(c: string, rest: seq<string>, onDisk: string -> bool)
    ensures FirstExisting([c] + rest, onDisk) == if onDisk(c) then Some(c) else FirstExisting(rest, onDisk)
  {
    assert ([c] + rest)[1..] == rest;
  }

  /** The paths `_resolve_existing` tries for a base name. */
  function WithExts(base: string): (cs: seq<string>)
    ensures |cs| == |CommonExts|
    ensures forall i :: 0 <= i < |cs| ==> cs[i] == base + CommonExts[i]
  {
    [base + CommonExts[0], base + CommonExts[1], base + CommonExts[2]]
  }

  /** `_resolve_existing(base)`: the loop over the extensions with its early return. */
  method ResolveExisting(base: string, onDisk: string -> bool) returns (r: Option<string>)
    ensures r == FirstExisting(WithExts(base), onDisk)
  {
    var cs := WithExts(base);
    for i := 0 to |CommonExts|
      invariant FirstExisting(cs, onDisk) == FirstExisting(cs[i..], onDisk)
    {
      var p := base + CommonExts[i];
      assert cs[i..] == [p] + cs[i + 1..];
      FirstExistingCons(p, cs[i + 1..], onDisk);
      if onDisk(p) {
        return Some(p);
      }
    }
    return None;
  }

  // ---------------------------------------------------------------------
  // POSIX os.path on strings
  // ---------------------------------------------------------------------

  /** Position of the last `c` in s. */
  function LastIndex(s: string, c: char): (r: Option<nat>)
    ensures r.None? <==> c !in s
    ensures r.Some? ==> r.value < |s| && s[r.value] == c && c !in s[r.value + 1..]
  {
    if |s| == 0 then None
    else if s[|s| - 1] == c then Some(|s| - 1)
    else
      var r := LastIndex(s[..|s| - 1], c);
      assert s == s[..|s| - 1] + [s[|s| - 1]];
      if r.Some? then
        assert s[r.value + 1..] == s[..|s| - 1][r.value + 1..] + [s[|s| - 1]];
        r
      else r
  }

  predicate AllSlashes(s: string) {
    forall i :: 0 <= i < |s| ==> s[i] == '/'
  }

  /** `s.rstrip('/')`. */
  function RStripSlashes(s: string): (r: string)
    ensures |r| <= |s| && r == s[..|r|]
    ensures forall i :: |r| <= i < |s| ==> s[i] == '/'
    ensures |r| == 0 || r[|r| - 1] != '/'
  {
    if |s| == 0 || s[|s| - 1] != '/' then s
    else
      var r := RStripSlashes(s[..|s| - 1]);
      r
  }

  /**
   * `os.path.split(p)`: everything after the last slash is the tail; the
   * head loses its trailing slashes unless it is nothing but slashes.
   */
  function Split(p: string): (r: (string, string))
    ensures '/' !in r.1
    ensures |r.1| <= |p| && r.1 == p[|p| - |r.1|..]
    ensures r.0 == "" <==> '/' !in p
  {
    var i := match LastIndex(p, '/') case None => 0 case Some(k) => k + 1;
    var head, tail := p[..i], p[i..];
    if head != "" && !AllSlashes(head) then
      var h := RStripSlashes(head);
      assert h != "";
      (h, tail)
    else
      assert head != "" ==> head[|head| - 1] == '/';
      (head, tail)
  }

  /** `os.path.splitext(name)` for a name without slashes: leading dots do not start an extension. */
  function SplitExt(name: string): (r: (string, string))
    ensures r.0 + r.1 == name
    ensures r.1 == "" || (r.1[0] == '.' && '.' !in r.1[1..])
  {
    match LastIndex(name, '.')
    case None => (name, "")
    case Some(k) =>
      if exists i :: 0 <= i < k && name[i] != '.' then
        assert name[..k] + name[k..] == name;
        assert name[k..][1..] == name[k + 1..];
        (name[..k], name[k..])
      else (name, "")
  }

  /** `os.path.join(a, b)`: an absolute b replaces a; otherwise one slash separates them. */
  function Join(a: string, b: string): (r: string)
    ensures |b| > 0 && b[0] == '/' ==> r == b
    ensures |r| >= |b| && r[|r| - |b|..] == b
  {
    if |b| > 0 && b[0] == '/' then b
    else if a == "" || a[|a| - 1] == '/' then a + b
    else a + "/" + b
  }

  /** Characters appended after the last `c` do not move it, as long as they hold no `c`. */
  lemma {:induction false} LastIndexAppend(a: string, b: string, c: char)
    requires c !in b
    ensures LastIndex(a + b, c) == LastIndex(a, c)
  {
    if |b| > 0 {
      var b' := b[..|b| - 1];
      assert (a + b)[..|a + b| - 1] == a + b';
      assert (a + b)[|a + b| - 1] == b[|b| - 1];
      LastIndexAppend(a, b', c);
    } else {
      assert a + b == a;
    }
  }

  /** Joining a directory and a plain name, then splitting, gives them back. */
  lemma SplitJoin(dir: string, name: string)
    requires dir != "" && dir[|dir| - 1] != '/'
    requires '/' !in name
    ensures Split(Join(dir, name)) == (dir, name)
  {
    var p := Join(dir, name);
    var d := dir + "/";
    assert p == d + name;
    LastIndexAppend(d, name, '/');
    assert LastIndex(d, '/') == Some(|dir|);
    assert p[..|dir| + 1] == d && p[|dir| + 1..] == name;
    assert !AllSlashes(d) by {
      assert d[|dir| - 1] != '/';
    }
    assert RStripSlashes(d) == dir by {
      assert d[..|d| - 1] == dir;
    }
  }

  /** A dot in a name after some other character starts its extension. */
  lemma SplitExtOfAppended(stem: string, ext: string)
    requires |ext| >= 1 && ext[0] == '.' && '.' !in ext[1..]
    requires exists i :: 0 <= i < |stem| && stem[i] != '.'
    ensures SplitExt(stem + ext) == (stem, ext)
  {
    var name := stem + ext;
    var d := stem + ".";
    assert name == d + ext[1..];
    LastIndexAppend(d, ext[1..], '.');
    assert LastIndex(d, '.') == Some(|stem|);
    var i :| 0 <= i < |stem| && stem[i] != '.';
    assert name[i] != '.';
    assert name[..|stem|] == stem && name[|stem|..] == ext;
  }

  /** `ext.lower() == ".gif"`. Only ASCII letters lower-case onto g, i and f, so ASCII folding is exact here. */
  predicate IsGifExt(ext: string) {
    |ext| == 4 && ext[0] == '.' && (ext[1] == 'g' || ext[1] == 'G')
    && (ext[2] == 'i' || ext[2] == 'I') && (ext[3] == 'f' || ext[3] == 'F')
  }

  // ---------------------------------------------------------------------
  // _resolve_gif_or_first_jpg
  // ---------------------------------------------------------------------

  /** `_try_first_in(dir)`: the `<stem>_1` images in one folder. */
  function FirstFrames(dir: string, stem: string): (cs: seq<string>)
    ensures |cs| == 3
  {
    WithExts(Join(dir, stem + "_1"))
  }

  /** The folders tried in turn: next to the path when it has a folder, then the images and raws folders. */
  function FrameCandidates(baseDir: string, stem: string, imagesDir: string, rawsDir: string): (cs: seq<string>)
    ensures |cs| == (if baseDir != "" then 9 else 6)
  {
    (if baseDir != "" then FirstFrames(baseDir, stem) else [])
    + (FirstFrames(imagesDir, stem) + FirstFrames(rawsDir, stem))
  }

  /** What the resolver searches once `path` itself is missing; empty for other extensions. */
  function Candidates(path: string, imagesDir: string, rawsDir: string): seq<string> {
    var (baseDir, name) := Split(path);
    var (stem, ext) := SplitExt(name);
    if IsGifExt(ext) then FrameCandidates(baseDir, stem, imagesDir, rawsDir)
    else if ext == "" then [path + ".gif"] + FrameCandidates(baseDir, stem, imagesDir, rawsDir)
    else []
  }

  /**
   * `_resolve_gif_or_first_jpg(path)`: nothing for an empty path, the path
   * itself when it exists, and otherwise the first existing candidate. The
   * folders stand for IMAGES_DIR and RAWS_DIR.
   */
  method ResolveGifOrFirstJpg(path: string, onDisk: string -> bool, imagesDir: string, rawsDir: string)
    returns (r: Option<string>)
    ensures path == "" ==> r.None?
    ensures path != "" && onDisk(path) ==> r == Some(path)
    ensures path != "" && !onDisk(path) ==> r == FirstExisting(Candidates(path, imagesDir, rawsDir), onDisk)
    ensures r.Some? ==> onDisk(r.value)
  {
    if path == "" {
      return None;
    }
    if onDisk(path) {
      return Some(path);
    }
    var (baseDir, name) := Split(path);
    var (stem, ext) := SplitExt(name);
    var cs := FrameCandidates(baseDir, stem, imagesDir, rawsDir);
    if IsGifExt(ext) {
      r := TryFrames(baseDir, stem, imagesDir, rawsDir, onDisk);
      return;
    }
    if ext == "" {
      var gifTry := path + ".gif";
      FirstExistingAppend([gifTry], cs, onDisk);
      if onDisk(gifTry) {
        return Some(gifTry);
      }
      r := TryFrames(baseDir, stem, imagesDir, rawsDir, onDisk);
      return;
    }
    return None;
  }

  /** The three `_try_first_in` steps, each returning as soon as it finds a file. */
  method TryFrames(baseDir: string, stem: string, imagesDir: string, rawsDir: string, onDisk: string -> bool)
    returns (r: Option<string>)
    ensures r == FirstExisting(FrameCandidates(baseDir, stem, imagesDir, rawsDir), onDisk)
  {
    var near := if baseDir != "" then FirstFrames(baseDir, stem) else [];
    var images, raws := FirstFrames(imagesDir, stem), FirstFrames(rawsDir, stem);
    FirstExistingAppend(near, images + raws, onDisk);
    FirstExistingAppend(images, raws, onDisk);
    if baseDir != "" {
      r := ResolveExisting(Join(baseDir, stem + "_1"), onDisk);
      if r.Some? {
        return;
      }
    }
    r := ResolveExisting(Join(imagesDir, stem + "_1"), onDisk);
    if r.Some? {
      return;
    }
    r := ResolveExisting(Join(rawsDir, stem + "_1"), onDisk);
  }

  /**
   * A missing GIF in a folder resolves to the first existing
   * `<folder>/<stem>_1.{jpg,jpeg,png}`, the folder itself tried first.
   */
  lemma GifResolvesToFirstFrame(dir: string, stem: string, imagesDir: string, rawsDir: string, onDisk: string -> bool)
    requires dir != "" && dir[|dir| - 1] != '/'
    requires '/' !in stem && exists i :: 0 <= i < |stem| && stem[i] != '.'
    ensures var path := Join(dir, stem + ".gif");
      Candidates(path, imagesDir, rawsDir) == FrameCandidates(dir, stem, imagesDir, rawsDir)
  {
    var name := stem + ".gif";
    assert '/' !in name by {
      assert name[|stem|..] == ".gif";
    }
    SplitJoin(dir, name);
    assert '.' !in ".gif"[1..];
    SplitExtOfAppended(stem, ".gif");
    assert IsGifExt(".gif");
    GifCandidates(Join(dir, name), imagesDir, rawsDir);
  }

  /** When the name has a GIF extension, the candidates are the first frames of its stem. */
  lemma GifCandidates(path: string, imagesDir: string, rawsDir: string)
    requires IsGifExt(SplitExt(Split(path).1).1)
    ensures Candidates(path, imagesDir, rawsDir)
      == FrameCandidates(Split(path).0, SplitExt(Split(path).1).0, imagesDir, rawsDir)
  {
  }

  /** A path with any other extension (`.jpg`, `.txt`, …) that does not exist resolves to nothing. */
  lemma OtherExtensionResolvesToNothing(path: string, imagesDir: string, rawsDir: string)
    requires var ext := SplitExt(Split(path).1).1; ext != "" && !IsGifExt(ext)
    ensures Candidates(path, imagesDir, rawsDir) == []
  {
  }
}
