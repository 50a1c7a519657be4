/**
 * Upload gatekeeping: the three static checks of `SecurityManager`
 * (filename sanitisation, the size ceiling and the extension allow-list).
 * The extension check follows `pathlib.PurePosixPath(...).suffix`.
 */
module Security {
  import opened Text

  const MaxFilenameLength: nat := 100
  const MaxFileSizeMb: nat := 100
  const MaxFileSize: nat := MaxFileSizeMb * 1024 * 1024
  const AllowedExtensions: seq<string> := [".mp4", ".mov", ".avi", ".mp3", ".wav", ".m4a", ".webm"]

  // ---------------------------------------------------------------------
  // sanitize_filename: re.sub(r'[^\w\-_\.]', '_', name)[:100]
  // ---------------------------------------------------------------------

  /** `\w`, over ASCII. */
  predicate IsWordChar(c: char) {
    ('a' <= c <= 'z') || ('A' <= c <= 'Z') || ('0' <= c <= '9') || c == '_'
  }

  /** The characters the substitution keeps. */
  predicate IsSafeChar(c: char) {
    IsWordChar(c) || c == '-' || c == '.'
  }

  function SanitizeFilename(filename: string): (r: string)
    ensures |r| == if |filename| <= MaxFilenameLength then |filename| else MaxFilenameLength
    ensures forall i :: 0 <= i < |r| ==> IsSafeChar(r[i])
    ensures forall i :: 0 <= i < |r| ==> (r[i] == filename[i] <==> IsSafeChar(filename[i]))
    ensures forall i :: 0 <= i < |r| && !IsSafeChar(filename[i]) ==> r[i] == '_'
    ensures '/' !in r && '\\' !in r
  {
    var replaced := seq(|filename|, i requires 0 <= i < |filename| =>
                          if IsSafeChar(filename[i]) then filename[i] else '_');
    if |replaced| <= MaxFilenameLength then replaced else replaced[..MaxFilenameLength]
  }

  /** Sanitising a sanitised name changes nothing. */
  lemma SanitizeIdempotent(filename: string)
    ensures SanitizeFilename(SanitizeFilename(filename)) == SanitizeFilename(filename)
  {
    var once := SanitizeFilename(filename);
    var twice := SanitizeFilename(once);
    assert |twice| == |once|;
    forall i | 0 <= i < |once| ensures twice[i] == once[i] {
      assert IsSafeChar(once[i]);
    }
  }

  // ---------------------------------------------------------------------
  // validate_file_size
  // ---------------------------------------------------------------------

  function ValidateFileSize(fileSize: int): (ok: bool)
    ensures ok <==> fileSize <= 104_857_600
  {
    fileSize <= MaxFileSize
  }

  // ---------------------------------------------------------------------
  // validate_file_extension: Path(filename).suffix.lower() in allow-list
  // ---------------------------------------------------------------------

  /** Python's `s.rfind(c)` for a single character. */
  function LastIndexOf(s: string, c: char): (r: Option<nat>)
    ensures r.Some? ==> r.value < |s| && s[r.value] == c
    ensures r.Some? ==> forall j :: r.value < j < |s| ==> s[j] != c
    ensures r.None? <==> c !in s
  {
    if |s| == 0 then None
    else if s[|s| - 1] == c then Some(|s| - 1)
    else
      var r := LastIndexOf(s[..|s| - 1], c);
      assert r.None? ==> c !in s by {
        if r.None? {
          assert forall j :: 0 <= j < |s| - 1 ==> s[j] == s[..|s| - 1][j];
        }
      }
      r
  }

  /** Every component of `s` between its '/'s is "" or ".": nothing `name` could return. */
  predicate OnlyEmptyOrDot(s: string) {
    forall i :: 0 <= i < |s| ==> SeparatorOrLoneDot(s, i)
  }

  /** `s[i]` is a '/' or a '.' with a '/' or an end of `s` on each side. */
  predicate SeparatorOrLoneDot(s: string, i: nat)
    requires i < |s|
  {
    s[i] == '/' || (s[i] == '.' && (i == 0 || s[i - 1] == '/') && (i == |s| - 1 || s[i + 1] == '/'))
  }

  /** `name` is the whole component of `path` starting at `k`, and only "" or "." follow it. */
  predicate LastComponentAt(path: string, name: string, k: nat) {
    && k + |name| <= |path| && path[k..k + |name|] == name
    && (k == 0 || path[k - 1] == '/')
    && (k + |name| == |path| || path[k + |name|] == '/')
    && OnlyEmptyOrDot(path[k + |name|..])
  }

  /** `PurePosixPath(path).name`: the last component that is neither empty nor ".". */
  function FinalName(path: string): (name: string)
    ensures '/' !in name
    ensures name != "."
    ensures name != [] ==> exists k: nat :: LastComponentAt(path, name, k)
    ensures name == [] <==> OnlyEmptyOrDot(path)
    decreases |path|
  {
    match LastIndexOf(path, '/')
    case None =>
      if path == "." then ""
      else
        WholeComponent(path);
        path
    case Some(k) =>
      var last := path[k + 1..];
      assert forall j :: 0 <= j < |last| ==> last[j] == path[k + 1 + j];
      if last == "" || last == "." then
        var name := FinalName(path[..k]);
        NameOfInit(path, k, name);
        name
      else
        assert LastComponentAt(path, last, k + 1);
        ComponentIsNotNoise(path, last, k + 1);
        last
  }

  /** A path without '/', other than "" and ".", is its own last component. */
  lemma WholeComponent(path: string)
    requires '/' !in path && path != "."
    ensures path != [] ==> LastComponentAt(path, path, 0)
    ensures path == [] <==> OnlyEmptyOrDot(path)
  {
    if path != [] {
      assert LastComponentAt(path, path, 0);
      ComponentIsNotNoise(path, path, 0);
    }
  }

  /** What holds of the name of `path[..k]` holds for `path`, when "/" or "/." follows it. */
  lemma NameOfInit(path: string, k: nat, name: string)
    requires k < |path| && path[k] == '/' && (path[k + 1..] == "" || path[k + 1..] == ".")
    requires name != [] ==> exists j: nat :: LastComponentAt(path[..k], name, j)
    requires name == [] <==> OnlyEmptyOrDot(path[..k])
    ensures name != [] ==> exists j: nat :: LastComponentAt(path, name, j)
    ensures name == [] <==> OnlyEmptyOrDot(path)
  {
    NoiseExtended(path, k);
    if name != [] {
      var j: nat :| LastComponentAt(path[..k], name, j);
      ComponentLifted(path, k, name, j);
    }
  }

  /** A component other than "" and "." breaks the noise. */
  lemma ComponentIsNotNoise(path: string, name: string, k: nat)
    requires LastComponentAt(path, name, k) && name != [] && name != "." && '/' !in name
    ensures !OnlyEmptyOrDot(path)
  {
    assert path[k] == name[0] && name[0] in name;
    if name[0] == '.' {
      assert |name| >= 2 && path[k + 1] == name[1] && name[1] in name;
    }
    assert !SeparatorOrLoneDot(path, k);
  }

  /** Appending "/" or "/." changes nothing about whether only "" and "." components occur. */
  lemma NoiseExtended(path: string, k: nat)
    requires k < |path| && path[k] == '/' && (path[k + 1..] == "" || path[k + 1..] == ".")
    ensures OnlyEmptyOrDot(path) <==> OnlyEmptyOrDot(path[..k])
  {
    var a := path[..k];
    forall i | 0 <= i < k ensures SeparatorOrLoneDot(a, i) <==> SeparatorOrLoneDot(path, i) {
      assert a[i] == path[i];
      if i > 0 {
        assert a[i - 1] == path[i - 1];
      }
      if i + 1 < k {
        assert a[i + 1] == path[i + 1];
      }
    }
    assert SeparatorOrLoneDot(path, k);
    if k + 1 < |path| {
      assert path[k + 1] == path[k + 1..][0];
      assert SeparatorOrLoneDot(path, k + 1);
    }
  }

  /** A last component of `path[..k]`, where "/" or "/." ends `path`, is one of `path`. */
  lemma ComponentLifted(path: string, k: nat, name: string, j: nat)
    requires k < |path| && path[k] == '/' && (path[k + 1..] == "" || path[k + 1..] == ".")
    requires LastComponentAt(path[..k], name, j)
    ensures LastComponentAt(path, name, j)
  {
    var e := j + |name|;
    assert path[j..e] == path[..k][j..e];
    var t := path[e..];
    assert t[..k - e] == path[..k][e..];
    assert t[k - e + 1..] == path[k + 1..];
    NoiseExtended(t, k - e);
  }

  /** `PurePath.suffix` of a final component: from the last '.', unless it is leading or trailing. */
  function Suffix(name: string): (ext: string)
    ensures ext == [] || (2 <= |ext| < |name| && ext == name[|name| - |ext|..])
    ensures ext != [] ==> ext[0] == '.' && forall j :: 1 <= j < |ext| ==> ext[j] != '.'
    ensures ext == [] <==> match LastIndexOf(name, '.')
                           case None => true
                           case Some(i) => i == 0 || i == |name| - 1
  {
    match LastIndexOf(name, '.')
    case None => ""
    case Some(i) => if 0 < i < |name| - 1 then name[i..] else ""
  }

  function ValidateFileExtension(filename: string): (ok: bool)
  {
    Lower(Suffix(FinalName(filename))) in AllowedExtensions
  }

  /** The final component ends, ignoring ASCII case, in an allowed extension that is not all of it. */
  ghost predicate HasAllowedEnding(name: string) {
    exists e :: e in AllowedExtensions && EndsWithIgnoringCase(name, e)
  }

  /** `name` is `e` preceded by at least one character, letter case aside. */
  predicate EndsWithIgnoringCase(name: string, e: string) {
    |e| < |name| && Lower(name[|name| - |e|..]) == e
  }

  lemma AllowedExtensionShape(e: string)
    requires e in AllowedExtensions
    ensures 2 <= |e| && e[0] == '.' && forall j :: 1 <= j < |e| ==> e[j] != '.'
  {
  }

  /**
   * The extension check, stated without `rfind`: a name is accepted exactly when its final
   * component ends, in any letter case, with one of the seven extensions and has at least one
   * character before it ("clip.MP4" yes, ".mp4" and "clip.mp4.exe" no).
   */
  lemma ExtensionCheckByEnding(filename: string)
    ensures ValidateFileExtension(filename) <==> HasAllowedEnding(FinalName(filename))
  {
    var name := FinalName(filename);
    if ValidateFileExtension(filename) {
      AcceptedHasEnding(name);
    }
    if HasAllowedEnding(name) {
      EndingAccepted(name);
    }
  }

  lemma EndingAccepted(name: string)
    requires HasAllowedEnding(name)
    ensures Lower(Suffix(name)) in AllowedExtensions
  {
    var e :| e in AllowedExtensions && EndsWithIgnoringCase(name, e);
    AllowedExtensionShape(e);
    EndingLocatesSuffix(name, e);
  }

  lemma AcceptedHasEnding(name: string)
    requires Lower(Suffix(name)) in AllowedExtensions
    ensures HasAllowedEnding(name)
  {
    var ext := Suffix(name);
    var e := Lower(ext);
    assert [] !in AllowedExtensions;
    assert ext != [];
    assert name[|name| - |e|..] == ext;
    assert EndsWithIgnoringCase(name, e);
  }

  /** A dot-led ending with no further dot, preceded by something, is what `suffix` returns. */
  lemma EndingLocatesSuffix(name: string, e: string)
    requires 2 <= |e| < |name| && e[0] == '.' && forall j :: 1 <= j < |e| ==> e[j] != '.'
    requires Lower(name[|name| - |e|..]) == e
    ensures Suffix(name) == name[|name| - |e|..]
  {
    var i := |name| - |e|;
    var tail := name[i..];
    assert name[i] == '.' by {
      assert Lower(tail)[0] == LowerChar(tail[0]);
    }
    forall j | i < j < |name| ensures name[j] != '.' {
      assert Lower(tail)[j - i] == LowerChar(name[j]);
    }
    assert LastIndexOf(name, '.') == Some(i);
  }

  // --- case-insensitivity ---------------------------------------------------

  lemma LastIndexOfLower(s: string, c: char)
    requires !('A' <= c <= 'Z') && !('a' <= c <= 'z')
    ensures LastIndexOf(Lower(s), c) == LastIndexOf(s, c)
  {
    var l := Lower(s);
    assert forall j :: 0 <= j < |s| ==> (l[j] == c <==> s[j] == c);
    LastIndexOfSame(l, s, c);
  }

  /** Two strings with `c` in the same places have the same last `c`. */
  lemma {:induction false} LastIndexOfSame(a: string, b: string, c: char)
    requires |a| == |b| && forall j :: 0 <= j < |a| ==> (a[j] == c <==> b[j] == c)
    ensures LastIndexOf(a, c) == LastIndexOf(b, c)
  {
    if |a| > 0 && a[|a| - 1] != c {
      var a', b' := a[..|a| - 1], b[..|b| - 1];
      assert forall j :: 0 <= j < |a'| ==> a'[j] == a[j] && b'[j] == b[j];
      LastIndexOfSame(a', b', c);
    }
  }

  lemma {:induction false} FinalNameLower(path: string)
    ensures FinalName(Lower(path)) == Lower(FinalName(path))
    decreases |path|
  {
    var l := Lower(path);
    LastIndexOfLower(path, '/');
    match LastIndexOf(path, '/')
    case None =>
      assert l == "." <==> path == ".";
    case Some(k) =>
      LowerAroundSlash(path, k);
      if path[k + 1..] == "" || path[k + 1..] == "." {
        FinalNameLower(path[..k]);
      }
  }

  /** Lower-casing commutes with cutting a path at a '/'; "" and "." stay what they were. */
  lemma LowerAroundSlash(path: string, k: nat)
    requires k < |path|
    ensures Lower(path)[k + 1..] == Lower(path[k + 1..])
    ensures Lower(path)[..k] == Lower(path[..k])
    ensures Lower(path[k + 1..]) == "" <==> path[k + 1..] == ""
    ensures Lower(path[k + 1..]) == "." <==> path[k + 1..] == "."
  {
    var last := path[k + 1..];
    LowerSlice(path, k + 1, |path|);
    LowerSlice(path, 0, k);
    assert Lower(last) == "." ==> last[0] == '.';
  }

  lemma AllowedEndingIgnoresCase(name: string)
    ensures HasAllowedEnding(Lower(name)) <==> HasAllowedEnding(name)
  {
    forall e ensures EndsWithIgnoringCase(Lower(name), e) <==> EndsWithIgnoringCase(name, e) {
      if |e| < |name| {
        LowerTail(name, |e|);
      }
    }
  }

  lemma LowerTail(name: string, n: nat)
    requires n <= |name|
    ensures Lower(Lower(name)[|name| - n..]) == Lower(name[|name| - n..])
  {
    LowerSlice(name, |name| - n, |name|);
    LowerIdempotent(name[|name| - n..]);
  }

  /** Two names that differ only in letter case get the same verdict (".MP4" is ".mp4"). */
  lemma ExtensionCheckIgnoresCase(p: string, q: string)
    requires Lower(p) == Lower(q)
    ensures ValidateFileExtension(p) == ValidateFileExtension(q)
  {
    ExtensionCheckByEnding(p);
    ExtensionCheckByEnding(q);
    FinalNameLower(p);
    FinalNameLower(q);
    AllowedEndingIgnoresCase(FinalName(p));
    AllowedEndingIgnoresCase(FinalName(q));
  }

  /** An upper-case extension is accepted. */
  lemma UpperCaseAccepted()
    ensures ValidateFileExtension("interview.MP4")
  {
    var n := "interview.MP4";
    assert '/' !in n;
    assert FinalName(n) == n;
    assert n[9..] == ".MP4";
    assert EndsWithIgnoringCase(n, ".mp4");
    ExtensionCheckByEnding(n);
  }

  /** A name that is only an extension has no suffix, so it is refused. */
  lemma HiddenFileRefused()
    ensures !ValidateFileExtension(".mp4")
  {
    assert FinalName(".mp4") == ".mp4";
    assert LastIndexOf(".mp4", '.') == Some(0);
    assert Lower("") !in AllowedExtensions;
  }
}
