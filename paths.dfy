/** File-name rules of the server: which sidecar belongs to an image
    (`getTextFilePath`), which directory entries are images, and which are
    sidecars. */
module Paths {
  import opened JsText

  /** Index of the last occurrence of `c` in `s`, or -1 when there is none. */
  function LastIndexOf(s: string, c: char): (i: int)
    ensures -1 <= i < |s|
    ensures i >= 0 ==> s[i] == c
    ensures forall k :: i < k < |s| ==> s[k] != c
  {
    if s == [] then -1
    else if s[|s| - 1] == c then |s| - 1
    else LastIndexOf(s[..|s| - 1], c)
  }

  function TrimTrailingSlashes(p: string): (q: string)
    ensures |q| <= |p| && q == p[..|q|]
    ensures q == [] || q[|q| - 1] != '/'
  {
    if p != [] && p[|p| - 1] == '/' then TrimTrailingSlashes(p[..|p| - 1]) else p
  }

  /** `path.parse(p).base` on POSIX: the last segment, trailing slashes ignored. */
  function BaseName(p: string): (base: string)
    ensures '/' !in base
    ensures '/' !in p ==> base == p
  {
    var q := TrimTrailingSlashes(p);
    var k := LastIndexOf(q, '/');
    assert '/' !in p ==> k == -1 && q == p;
    q[k + 1..]
  }

  /** `path.parse(base).name`: the base without its extension, which starts at
      the last dot unless that dot is the first character or the base is `..`. */
  function Stem(base: string): (name: string)
    ensures |name| <= |base| && name == base[..|name|]
  {
    var d := LastIndexOf(base, '.');
    if d <= 0 || base == ".." then base else base[..d]
  }

  /** `getTextFilePath`: the sidecar's name within the media directory. */
  function SidecarName(imageFile: string): (sidecar: string)
    ensures EndsWith(sidecar, ".txt")
    ensures '/' !in sidecar
  {
    var name := Stem(BaseName(imageFile));
    assert (name + ".txt")[|name|..] == ".txt";
    name + ".txt"
  }

  /** An image's last extension is swapped for `.txt`. */
  lemma SidecarSwapsExtension(stem: string, ext: string)
    requires stem != [] && stem != "." && '/' !in stem
    requires '/' !in ext && '.' !in ext
    ensures SidecarName(stem + "." + ext) == stem + ".txt"
  {
    var f := stem + "." + ext;
    assert '/' !in f;
    StemBeforeExtension(stem, ext);
  }

  /** The stem of `stem.ext` is `stem`, unless the stem is empty or a lone dot. */
  lemma StemBeforeExtension(stem: string, ext: string)
    requires stem != [] && stem != "." && '.' !in ext
    ensures Stem(stem + "." + ext) == stem
  {
    var f := stem + "." + ext;
    LastDotBeforeExtension(stem, ext);
    assert |f| == 2 ==> stem == f[..1];
    assert f[..|stem|] == stem;
  }

  /** The dot in front of a dot-free extension is the name's last dot. */
  lemma LastDotBeforeExtension(stem: string, ext: string)
    requires '.' !in ext
    ensures LastIndexOf(stem + "." + ext, '.') == |stem|
  {
    var f := stem + "." + ext;
    var i := LastIndexOf(f, '.');
    assert f[|stem|] == '.';
  }

  /** Two images that differ only in their extension share one sidecar. */
  lemma SharedSidecar(stem: string, ext1: string, ext2: string)
    requires stem != [] && stem != "." && '/' !in stem
    requires '/' !in ext1 && '.' !in ext1 && '/' !in ext2 && '.' !in ext2
    ensures SidecarName(stem + "." + ext1) == SidecarName(stem + "." + ext2)
  {
    SidecarSwapsExtension(stem, ext1);
    SidecarSwapsExtension(stem, ext2);
  }

  /** The extensions of `/\.(jpe?g|png|gif|webp)$/i`. */
  const ImageExtensions: seq<string> := ["jpg", "jpeg", "png", "gif", "webp"]

  /** The regular expression's meaning: the name ends, ignoring ASCII case, in a
      dot and one of the image extensions. */
  ghost predicate HasImageExtension(f: string) {
    exists e :: e in ImageExtensions && EndsWith(Lower(f), "." + e)
  }

  /** The image filter of the media listing and of thumbnail generation. */
  function IsImageName(f: string): (r: bool)
    ensures r <==> HasImageExtension(f)
  {
    var l := Lower(f);
    assert "." + ImageExtensions[0] == ".jpg" && "." + ImageExtensions[1] == ".jpeg";
    assert "." + ImageExtensions[2] == ".png" && "." + ImageExtensions[3] == ".gif";
    assert "." + ImageExtensions[4] == ".webp";
    EndsWith(l, ".jpg") || EndsWith(l, ".jpeg") || EndsWith(l, ".png") || EndsWith(l, ".gif") || EndsWith(l, ".webp")
  }

  /** `file.endsWith('.txt')`, case-sensitive: the entries the tag scans read. */
  predicate IsTextFile(f: string) {
    EndsWith(f, ".txt")
  }

  /** Every sidecar is seen by the scans over `.txt` files. */
  lemma SidecarIsTextFile(imageFile: string)
    ensures IsTextFile(SidecarName(imageFile))
  {
  }

  /** No image is read as a sidecar, and an image's sidecar is never the image
      itself. */
  lemma ImageIsNotText(f: string)
    requires IsImageName(f)
    ensures !IsTextFile(f)
    ensures '/' !in f ==> SidecarName(f) != f
  {
    var l := Lower(f);
    var n := |f|;
    assert n >= 4 && (l[n - 1] == 'g' || l[n - 1] == 'f' || l[n - 1] == 'p');
    assert l[n - 1] == LowerChar(f[n - 1]) && LowerChar('t') == 't';
    assert IsTextFile(f) <==> f[n - 4..] == ".txt";
    assert f[n - 4..][3] == f[n - 1];
  }
}
