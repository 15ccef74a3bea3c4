/**
 * The content locators of the theme parser: the CDN root, the image URL built
 * from a texture's file name, and the file names cut out of stored paths with
 * JavaScript's `String.prototype.split`.
 */
module Paths {
  import opened Wrappers

  const CdnUrl: string := "https://wakfu.cdn.ankama.com/gamedata/"
  const ImagesMarker: string := "theme/images/"
  const TgaExtension: string := ".tga"
  const SkinMarker: string := "theme/appSkin/"
  const PngExtension: string := ".png"

  /** `sep` occurs in `s` starting at index `i`. */
  predicate OccursAt(s: string, sep: string, i: int)
  {
    0 <= i && i + |sep| <= |s| && s[i..i + |sep|] == sep
  }

  predicate Contains(s: string, sep: string)
  {
    exists i | 0 <= i <= |s| :: OccursAt(s, sep, i)
  }

  /** The first index at or after `from` where `sep` occurs, as `indexOf` finds it. */
  function IndexOfFrom(s: string, sep: string, from: nat): (r: Option<nat>)
    ensures r.Some? ==> from <= r.value && r.value + |sep| <= |s|
    decreases |s| - from
  {
    if from + |sep| > |s| then None
    else if s[from..from + |sep|] == sep then Some(from)
    else IndexOfFrom(s, sep, from + 1)
  }

  lemma {:induction false} IndexOfFromSpec(s: string, sep: string, from: nat)
    ensures var r := IndexOfFrom(s, sep, from);
            && (r.Some? ==> from <= r.value && OccursAt(s, sep, r.value))
            && (forall i | from <= i && (r.None? || i < r.value) :: !OccursAt(s, sep, i))
    decreases |s| - from
  {
    if from + |sep| <= |s| && s[from..from + |sep|] != sep {
      IndexOfFromSpec(s, sep, from + 1);
    }
  }

  /** `s.indexOf(sep)`, with `None` for -1. */
  function IndexOf(s: string, sep: string): (r: Option<nat>)
    ensures r.Some? ==> r.value + |sep| <= |s|
  {
    IndexOfFrom(s, sep, 0)
  }

  /** `indexOf` finds the first occurrence, and finds none exactly when there is none. */
  lemma IndexOfSpec(s: string, sep: string)
    ensures var r := IndexOf(s, sep);
            && (r.Some? ==> OccursAt(s, sep, r.value))
            && (r.None? <==> !Contains(s, sep))
            && (forall i | 0 <= i && r.Some? && i < r.value :: !OccursAt(s, sep, i))
  {
    IndexOfFromSpec(s, sep, 0);
  }

  /** `s.split(sep)[0]`: what comes before the first `sep`, or all of `s`. */
  function FirstPiece(s: string, sep: string): (r: string)
    requires sep != ""
    ensures r <= s
  {
    match IndexOf(s, sep)
    case None => s
    case Some(i) => s[..i]
  }

  /** The first piece is a prefix free of `sep`, ended by the first `sep` when there is one. */
  lemma FirstPieceSpec(s: string, sep: string)
    requires sep != ""
    ensures var r := FirstPiece(s, sep);
            && r <= s
            && !Contains(r, sep)
            && (Contains(s, sep) ==> OccursAt(s, sep, |r|))
            && (!Contains(s, sep) ==> r == s)
  {
    IndexOfSpec(s, sep);
    if IndexOf(s, sep).Some? {
      var i := IndexOf(s, sep).value;
      forall j | OccursAt(s[..i], sep, j) ensures OccursAt(s, sep, j) {
        assert s[..i][j..j + |sep|] == s[j..j + |sep|];
      }
    }
  }

  /** `s.split(sep)[1]`: the text between the first and the second `sep`; `undefined` without a first one. */
  function SecondPiece(s: string, sep: string): (r: Option<string>)
    requires sep != ""
    ensures r.Some? <==> IndexOf(s, sep).Some?
    ensures r.Some? ==> r.value <= s[IndexOf(s, sep).value + |sep|..]
  {
    match IndexOf(s, sep)
    case None => None
    case Some(i) => Some(FirstPiece(s[i + |sep|..], sep))
  }

  /**
   * There is a second piece exactly when `sep` occurs. It starts right after
   * the first `sep`, holds none, and ends at the next `sep` or at the end.
   */
  lemma SecondPieceSpec(s: string, sep: string)
    requires sep != ""
    ensures var r := SecondPiece(s, sep);
            && (r.Some? <==> Contains(s, sep))
            && (r.Some? ==> !Contains(r.value, sep) && r.value <= s[IndexOf(s, sep).value + |sep|..])
    ensures var r := SecondPiece(s, sep);
            r.Some? ==>
              var rest := s[IndexOf(s, sep).value + |sep|..];
              && (Contains(rest, sep) ==> OccursAt(rest, sep, |r.value|))
              && (!Contains(rest, sep) ==> r.value == rest)
  {
    IndexOfSpec(s, sep);
    if IndexOf(s, sep).Some? {
      FirstPieceSpec(s[IndexOf(s, sep).value + |sep|..], sep);
    }
  }

  /** An occurrence in a prefix is an occurrence in the whole string. */
  lemma OccursInLonger(a: string, b: string, sep: string, i: int)
    requires a <= b && OccursAt(a, sep, i)
    ensures OccursAt(b, sep, i)
  {
    assert b[i..i + |sep|] == a[i..i + |sep|];
  }

  /** A prefix of a string free of `sep` is free of `sep`. */
  lemma AbsentFromPrefix(a: string, b: string, sep: string)
    requires a <= b && !Contains(b, sep)
    ensures !Contains(a, sep)
  {
    forall i | 0 <= i <= |a| && OccursAt(a, sep, i) ensures false {
      OccursInLonger(a, b, sep, i);
    }
  }

  /**
   * `path.split(marker)[1].split(ext)[0]`, when the marker occurs: a prefix of
   * what follows the first marker, free of both separators, that ends at the
   * next `ext`, at the next marker, or at the end of the path.
   */
  lemma {:induction false} CutSpec(path: string, marker: string, ext: string)
    requires marker != "" && ext != ""
    requires Contains(path, marker)
    ensures SecondPiece(path, marker).Some?
    ensures var tail := path[IndexOf(path, marker).value + |marker|..];
            var name := FirstPiece(SecondPiece(path, marker).value, ext);
            && name <= tail && !Contains(name, marker) && !Contains(name, ext)
            && (|name| == |tail| || OccursAt(tail, ext, |name|) || OccursAt(tail, marker, |name|))
  {
    SecondPieceSpec(path, marker);
    var tail := path[IndexOf(path, marker).value + |marker|..];
    var piece := SecondPiece(path, marker).value;
    FirstPieceSpec(piece, ext);
    var name := FirstPiece(piece, ext);
    AbsentFromPrefix(name, piece, marker);
    if Contains(piece, ext) {
      OccursInLonger(piece, tail, ext, |name|);
    }
  }

  /**
   * `themeImageFileName`: the file name between `theme/images/` and `.tga`.
   * A path without the marker makes the source call `split` on `undefined`.
   */
  function ThemeImageFileName(path: string): (r: Result<string>)
    ensures r.Err? ==> r.error == MissingMarker(path)
  {
    match SecondPiece(path, ImagesMarker)
    case None => Err(MissingMarker(path))
    case Some(rest) => Ok(FirstPiece(rest, TgaExtension))
  }

  /**
   * A texture path has a file name exactly when it holds `theme/images/`;
   * the name starts right after the first marker, holds neither the marker
   * nor `.tga`, and ends at the next `.tga`, the next marker or the end.
   */
  lemma ImageFileNameCut(path: string)
    ensures ThemeImageFileName(path).Ok? <==> Contains(path, ImagesMarker)
    ensures ThemeImageFileName(path).Ok? ==>
              var tail := path[IndexOf(path, ImagesMarker).value + |ImagesMarker|..];
              var name := ThemeImageFileName(path).value;
              && name <= tail && !Contains(name, ImagesMarker) && !Contains(name, TgaExtension)
              && (|name| == |tail| || OccursAt(tail, TgaExtension, |name|) || OccursAt(tail, ImagesMarker, |name|))
  {
    SecondPieceSpec(path, ImagesMarker);
    if Contains(path, ImagesMarker) {
      CutSpec(path, ImagesMarker, TgaExtension);
    }
  }

  /** `themeSkinPartFileName`: the file name between `theme/appSkin/` and `.png`. */
  function ThemeSkinPartFileName(path: string): (r: Result<string>)
    ensures r.Err? ==> r.error == MissingMarker(path)
  {
    match SecondPiece(path, SkinMarker)
    case None => Err(MissingMarker(path))
    case Some(rest) => Ok(FirstPiece(rest, PngExtension))
  }

  /**
   * A skin part path has a file name exactly when it holds `theme/appSkin/`;
   * the name starts right after the first marker, holds neither the marker
   * nor `.png`, and ends at the next `.png`, the next marker or the end.
   */
  lemma SkinPartFileNameCut(path: string)
    ensures ThemeSkinPartFileName(path).Ok? <==> Contains(path, SkinMarker)
    ensures ThemeSkinPartFileName(path).Ok? ==>
              var tail := path[IndexOf(path, SkinMarker).value + |SkinMarker|..];
              var name := ThemeSkinPartFileName(path).value;
              && name <= tail && !Contains(name, SkinMarker) && !Contains(name, PngExtension)
              && (|name| == |tail| || OccursAt(tail, PngExtension, |name|) || OccursAt(tail, SkinMarker, |name|))
  {
    SecondPieceSpec(path, SkinMarker);
    if Contains(path, SkinMarker) {
      CutSpec(path, SkinMarker, PngExtension);
    }
  }

  /** `themeImagePath`: the CDN URL of the PNG image a texture file name stands for. */
  function ThemeImagePath(name: string): (url: string)
    ensures |url| == |CdnUrl| + |ImagesMarker| + |name| + |PngExtension|
    ensures url[..|CdnUrl| + |ImagesMarker|] == CdnUrl + ImagesMarker
    ensures url[|CdnUrl| + |ImagesMarker|..|url| - |PngExtension|] == name
    ensures url[|url| - |PngExtension|..] == PngExtension
  {
    CdnUrl + ImagesMarker + name + PngExtension
  }

  /** Distinct file names give distinct image URLs, so two textures share an image URL only when they share a file name. */
  lemma ImagePathInjective(a: string, b: string)
    requires ThemeImagePath(a) == ThemeImagePath(b)
    ensures a == b
  {
    var head := CdnUrl + ImagesMarker;
    assert ThemeImagePath(a) == head + a + PngExtension;
    assert ThemeImagePath(b) == head + b + PngExtension;
    assert |a| == |b|;
    assert a == ThemeImagePath(a)[|head|..|head| + |a|];
    assert b == ThemeImagePath(b)[|head|..|head| + |b|];
  }

  /** The `assetUrl` of a skin part: the CDN root joined with its raw path. */
  function AssetUrl(path: string): string
  {
    CdnUrl + path
  }

  /** Distinct skin part paths give distinct asset URLs: the path can be read back after the CDN root. */
  lemma AssetUrlInjective(a: string, b: string)
    requires AssetUrl(a) == AssetUrl(b)
    ensures a == b
  {
    assert a == AssetUrl(a)[|CdnUrl|..];
    assert b == AssetUrl(b)[|CdnUrl|..];
  }

  /** No proper prefix of `sep` is also a suffix of it, because its first character never comes back. */
  predicate UniqueHead(sep: string)
  {
    |sep| > 0 && forall i | 0 < i < |sep| :: sep[i] != sep[0]
  }

  /**
   * A separator that is absent from `a` and whose head character does not
   * recur is first found in `a + sep + b` right after `a`.
   */
  lemma FirstOccurrenceAfter(a: string, sep: string, b: string)
    requires UniqueHead(sep) && !Contains(a, sep)
    ensures IndexOf(a + sep + b, sep) == Some(|a|)
  {
    var s := a + sep + b;
    IndexOfSpec(s, sep);
    assert s[|a|..|a| + |sep|] == sep;
    assert OccursAt(s, sep, |a|);
    forall i | 0 <= i < |a| ensures !OccursAt(s, sep, i) {
      if i + |sep| <= |a| {
        // the window lies inside `a`, where `sep` never occurs
        assert !OccursAt(a, sep, i);
        assert s[i..i + |sep|] == a[i..i + |sep|];
      } else if i + |sep| <= |s| {
        // the window would put the head of `sep` at offset |a| - i of `sep`
        assert s[i..i + |sep|][|a| - i] == s[|a|] == sep[0];
        assert sep[|a| - i] != sep[0];
      }
    }
  }

  /**
   * Appending a tail that lacks the separator's last character cannot create
   * an occurrence: every occurrence would end inside that tail.
   */
  lemma NoOccurrenceAcross(n: string, tail: string, sep: string)
    requires sep != "" && !Contains(n, sep)
    requires forall j | 0 <= j < |tail| :: tail[j] != sep[|sep| - 1]
    ensures !Contains(n + tail, sep)
  {
    var s := n + tail;
    forall i | 0 <= i <= |s| ensures !OccursAt(s, sep, i) {
      var e := i + |sep| - 1;
      if e < |n| {
        // the window lies inside `n`
        assert !OccursAt(n, sep, i);
        assert s[i..i + |sep|] == n[i..i + |sep|];
      } else if e < |s| {
        // the window would end in `tail` on the last character of `sep`
        assert s[i..i + |sep|][|sep| - 1] == s[e] == tail[e - |n|];
        assert tail[e - |n|] != sep[|sep| - 1];
      }
    }
  }

  /**
   * The generic round trip of a `split(marker)[1].split(ext)[0]` helper:
   * with the marker absent from the prefix and from the name, and the
   * extension absent from the name, the name comes back out.
   */
  lemma {:induction false} SplitRoundTrip(p: string, marker: string, n: string, ext: string)
    requires UniqueHead(marker) && UniqueHead(ext)
    requires forall j | 0 <= j < |ext| :: ext[j] != marker[|marker| - 1]
    requires !Contains(p, marker) && !Contains(n, marker) && !Contains(n, ext)
    ensures SecondPiece(p + marker + n + ext, marker) == Some(n + ext)
    ensures FirstPiece(n + ext, ext) == n
  {
    FirstOccurrenceAfter(p, marker, n + ext);
    assert p + marker + n + ext == p + marker + (n + ext);
    var s := p + marker + n + ext;
    assert s[|p| + |marker|..] == n + ext;
    NoOccurrenceAcross(n, ext, marker);
    FirstPieceSpec(s[|p| + |marker|..], marker);
    FirstOccurrenceAfter(n, ext, []);
    assert n + ext + [] == n + ext;
  }

  /** `themeImageFileName(p + "theme/images/" + n + ".tga") == n`. */
  lemma {:induction false} ImageFileNameRoundTrip(p: string, n: string)
    requires !Contains(p, ImagesMarker) && !Contains(n, ImagesMarker) && !Contains(n, TgaExtension)
    ensures ThemeImageFileName(p + ImagesMarker + n + TgaExtension) == Ok(n)
  {
    assert UniqueHead(ImagesMarker);
    assert UniqueHead(TgaExtension);
    SplitRoundTrip(p, ImagesMarker, n, TgaExtension);
  }

  /** `themeSkinPartFileName(p + "theme/appSkin/" + n + ".png") == n`. */
  lemma {:induction false} SkinPartFileNameRoundTrip(p: string, n: string)
    requires !Contains(p, SkinMarker) && !Contains(n, SkinMarker) && !Contains(n, PngExtension)
    ensures ThemeSkinPartFileName(p + SkinMarker + n + PngExtension) == Ok(n)
  {
    assert UniqueHead(SkinMarker);
    assert UniqueHead(PngExtension);
    SplitRoundTrip(p, SkinMarker, n, PngExtension);
  }
}
