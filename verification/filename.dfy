/**
 Output-name derivation: Go's `filepath.Ext` and `strings.TrimSuffix`,
 the program's `fileNameWithoutExtension`, and the `_squared` name built
 from them. Paths use `/` as their only separator.
 */
module FileName {
  import opened Options

  /** The only path separator. */
  const Separator := '/'

  /** Extending a slice by one character other than `c` does not add `c` to it. */
  lemma NotInExtended(a: string, lo: nat, i: nat, c: char)
    requires lo < i <= |a| && a[i - 1] != c
    ensures (c !in a[lo..i]) <==> (c !in a[lo..i - 1])
  {
  }

  /** The start of the final path element of `path[..i]`: one past its last separator, or 0. */
  function ElementStart(path: string, i: nat): (s: nat)
    requires i <= |path|
    ensures s <= i
    ensures Separator !in path[s..i]
    ensures s == 0 || path[s - 1] == Separator
    decreases i
  {
    if i == 0 || path[i - 1] == Separator then i
    else
      var s := ElementStart(path, i - 1);
      NotInExtended(path, s, i, Separator);
      s
  }

  /** The final element of `path`: everything after its last separator. */
  function FinalElement(path: string): string {
    path[ElementStart(path, |path|)..]
  }

  /** A single extension: a `.` followed by neither `.` nor a separator. */
  predicate IsExtension(e: string) {
    |e| > 0 && e[0] == '.' && '.' !in e[1..] && Separator !in e
  }

  /**
   The backward scan of `filepath.Ext` from position `i`: it stops at a
   separator or the start and answers the suffix of the whole path that
   begins at the first `.` it meets, or "" if it meets none.
   */
  function ExtFrom(path: string, i: nat): (e: string)
    requires i <= |path|
    ensures |e| <= |path| && e == path[|path| - |e|..]
    ensures e == "" <==> '.' !in path[ElementStart(path, i)..i]
    ensures e != "" ==>
              && ElementStart(path, i) <= |path| - |e| < i
              && e[0] == '.'
              && '.' !in path[|path| - |e| + 1..i]
    decreases i
  {
    if i == 0 || path[i - 1] == Separator then ""
    else if path[i - 1] == '.' then path[i - 1..]
    else
      var e := ExtFrom(path, i - 1);
      var s := ElementStart(path, i - 1);
      NotInExtended(path, s, i, '.');
      if e == "" then e
      else
        NotInExtended(path, |path| - |e| + 1, i, '.');
        e
  }

  /**
   `filepath.Ext`: the suffix of `path` that starts at the last `.` of its
   final element, or "" when that element has no `.`.
   */
  function Ext(path: string): (e: string)
    ensures |e| <= |path| && e == path[|path| - |e|..]
    ensures e == "" <==> '.' !in FinalElement(path)
    ensures e != "" ==> IsExtension(e)
  {
    var e := ExtFrom(path, |path|);
    var s := ElementStart(path, |path|);
    SliceSplit(path, s, |path| - |e|);
    SliceTail(path, |path| - |e|);
    e
  }

  /** A suffix slice is the concatenation of the two slices either side of `k`. */
  lemma SliceSplit(a: string, s: nat, k: nat)
    requires s <= k <= |a|
    ensures a[s..] == a[s..k] + a[k..]
    ensures a[s..|a|] == a[s..]
  {
  }

  /** Dropping the first element of the suffix from `k` leaves the suffix from `k + 1`. */
  lemma SliceTail(a: string, k: nat)
    requires k <= |a|
    ensures k < |a| ==> a[k..][1..] == a[k + 1..|a|]
  {
  }

  predicate HasSuffix(s: string, suffix: string) {
    |suffix| <= |s| && s[|s| - |suffix|..] == suffix
  }

  /** `strings.TrimSuffix`: `s` without `suffix` when it ends with it, `s` itself otherwise. */
  function TrimSuffix(s: string, suffix: string): (r: string)
    ensures HasSuffix(s, suffix) ==> r + suffix == s
    ensures !HasSuffix(s, suffix) ==> r == s
  {
    if HasSuffix(s, suffix) then s[..|s| - |suffix|] else s
  }

  /**
   `fileNameWithoutExtension`: the name with its one extension removed.
   Putting the extension back gives the name again, and the name is
   unchanged exactly when its final element has no `.`.
   */
  function FileNameWithoutExtension(f: string): (r: string)
    ensures r + Ext(f) == f
    ensures r == f <==> '.' !in FinalElement(f)
  {
    TrimSuffix(f, Ext(f))
  }

  /** Removing the extension of `stem + ext` gives `stem`, whatever dots `stem` holds. */
  lemma StripsLastExtensionOnly(stem: string, ext: string)
    requires IsExtension(ext)
    ensures FileNameWithoutExtension(stem + ext) == stem
  {
    ExtOfAppended(stem, ext);
    var r := FileNameWithoutExtension(stem + ext);
    assert r + ext == stem + ext;
    assert |r| == |stem|;
    assert r == (r + ext)[..|r|];
  }

  /** Only the last extension is removed, and a dot in a directory name is not an extension. */
  lemma OneExtensionStripped()
    ensures FileNameWithoutExtension("a.b.c") == "a.b"
    ensures FileNameWithoutExtension("photos.old/pic") == "photos.old/pic"
  {
    StripsLastExtensionOnly("a.b", ".c");
    assert "a.b" + ".c" == "a.b.c";
    assert ElementStart("photos.old/pic", 14) == 11;
    assert '.' !in FinalElement("photos.old/pic");
  }

  /** An extension appended to any name is the extension `Ext` finds. */
  lemma ExtOfAppended(x: string, e: string)
    requires IsExtension(e)
    ensures Ext(x + e) == e
  {
    var p := x + e;
    assert p[|x|] == '.';
    var s := ElementStart(p, |p|);
    assert FinalElement(p)[|x| - s] == '.';
    var f := Ext(p);
    assert p[|p| - |f|] == '.';
  }

  /** The marker added to a padded image's name. */
  const Squared := "_squared"

  /** The extension written for a decoded image type: `.jpg` for "jpeg", `.png` for "png". */
  function FormatExtension(imageType: string): (r: Option<string>)
    ensures r.Some? <==> imageType == "jpeg" || imageType == "png"
    ensures imageType == "jpeg" ==> r == Some(".jpg")
    ensures imageType == "png" ==> r == Some(".png")
    ensures r.Some? ==> IsExtension(r.value)
  {
    if imageType == "jpeg" then Some(".jpg")
    else if imageType == "png" then Some(".png")
    else None
  }

  /**
   The name of the padded copy: `root`, the input name without its
   extension, `_squared`, and the extension of the decoded type; no name
   for any other type.
   */
  function OutputName(root: string, name: string, imageType: string): (r: Option<string>)
    ensures r.Some? <==> imageType == "jpeg" || imageType == "png"
    ensures r.Some? ==> Ext(r.value) == FormatExtension(imageType).value
    ensures imageType == "jpeg" ==> Ext(r.value) == ".jpg"
    ensures imageType == "png" ==> Ext(r.value) == ".png"
    ensures r.Some? ==> FileNameWithoutExtension(r.value) == root + FileNameWithoutExtension(name) + Squared
  {
    match FormatExtension(imageType)
    case None => None
    case Some(ext) =>
      var stem := root + FileNameWithoutExtension(name) + Squared;
      ExtOfAppended(stem, ext);
      Some(stem + ext)
  }
}
