/**
 * What the loaders of the theme parser register, as functions of the theme
 * descriptor: the pairs each loader sets in its registry, and `Resolve`, the
 * whole resolution that runs once a theme is in place. The class in module
 * `Parser` performs the same steps as loops and is proved equal to these.
 */
module Loading {
  import opened Wrappers
  import opened ThemeData
  import opened Registry
  import opened Paths
  import opened ColorResolver
  import opened Flattening

  /** The texture's path holds `theme/images/`, so that its file name can be cut out. */
  predicate TextureOk(t: Texture)
  {
    ThemeImageFileName(t.path).Ok?
  }

  function TextureFileName(t: Texture): string
    requires TextureOk(t)
  {
    ThemeImageFileName(t.path).value
  }

  /** A texture as `loadTextures` uses it: its id and the file name cut out of its path. */
  function Named(t: Texture): (string, string)
    requires TextureOk(t)
  {
    (t.id, TextureFileName(t))
  }

  /** The ids and file names of textures that all have a file name, in order. */
  function NamedAll(ts: seq<Texture>): (ns: seq<(string, string)>)
    requires forall i | 0 <= i < |ts| :: TextureOk(ts[i])
    ensures |ns| == |ts|
    decreases |ts|
  {
    if ts == [] then [] else NamedAll(ts[..|ts| - 1]) + [Named(ts[|ts| - 1])]
  }

  lemma NamedAllSnoc(ts: seq<Texture>, i: nat)
    requires i < |ts| && forall j | 0 <= j <= i :: TextureOk(ts[j])
    ensures NamedAll(ts[..i + 1]) == NamedAll(ts[..i]) + [Named(ts[i])]
  {
    assert ts[..i + 1][..i] == ts[..i];
  }

  /** The image `getImage` resolves for a texture file name: the PNG at the URL it stands for. */
  function TextureImage(name: string, getImage: string -> Image): Image
  {
    getImage(ThemeImagePath(name))
  }

  /** The two pairs `loadTextures` sets for a texture: its image under its id, then under its file name. */
  function TexturePairs(n: (string, string), getImage: string -> Image): seq<(string, Image)>
  {
    [(n.0, TextureImage(n.1, getImage)), (n.1, TextureImage(n.1, getImage))]
  }

  /** The pairs `loadTextures` sets for textures named `ns`, in order. */
  function TextureEntries(ns: seq<(string, string)>, getImage: string -> Image): (r: seq<(string, Image)>)
    ensures |r| == 2 * |ns|
    decreases |ns|
  {
    if ns == [] then []
    else TextureEntries(ns[..|ns| - 1], getImage) + TexturePairs(ns[|ns| - 1], getImage)
  }

  /** One more texture adds its two pairs: the step of the `loadTextures` loop. */
  lemma TextureEntriesSnoc(ns: seq<(string, string)>, n: (string, string), getImage: string -> Image)
    ensures TextureEntries(ns + [n], getImage) == TextureEntries(ns, getImage) + TexturePairs(n, getImage)
  {
    assert (ns + [n])[..|ns|] == ns;
  }

  /** One more texture with a file name: the registry gains its image under its id, then under its file name. */
  lemma TexturesStep(m: map<string, Image>, ts: seq<Texture>, getImage: string -> Image, i: nat)
    requires i < |ts| && forall j | 0 <= j <= i :: TextureOk(ts[j])
    ensures var image := TextureImage(TextureFileName(ts[i]), getImage);
            Insert(m, TextureEntries(NamedAll(ts[..i + 1]), getImage))
            == Insert(m, TextureEntries(NamedAll(ts[..i]), getImage))[ts[i].id := image][TextureFileName(ts[i]) := image]
  {
    var image := TextureImage(TextureFileName(ts[i]), getImage);
    var done := TextureEntries(NamedAll(ts[..i]), getImage);
    NamedAllSnoc(ts, i);
    TextureEntriesSnoc(NamedAll(ts[..i]), Named(ts[i]), getImage);
    InsertSnoc(m, done, (ts[i].id, image));
    InsertSnoc(m, done + [(ts[i].id, image)], (TextureFileName(ts[i]), image));
    assert done + [(ts[i].id, image)] + [(TextureFileName(ts[i]), image)] == done + TexturePairs(Named(ts[i]), getImage);
  }

  /**
   * `loadTextures` stores the same image under a texture's id and its file
   * name, when no later texture reuses either key.
   */
  lemma {:induction false} TextureRegistered(m: map<string, Image>, ns: seq<(string, string)>, getImage: string -> Image, i: nat)
    requires i < |ns|
    requires forall j | i < j < |ns| ::
               && ns[j].0 != ns[i].0 && ns[j].0 != ns[i].1
               && ns[j].1 != ns[i].0 && ns[j].1 != ns[i].1
    ensures var reg := Insert(m, TextureEntries(ns, getImage));
            && ns[i].0 in reg && reg[ns[i].0] == TextureImage(ns[i].1, getImage)
            && ns[i].1 in reg && reg[ns[i].1] == TextureImage(ns[i].1, getImage)
    decreases |ns|
  {
    var init := ns[..|ns| - 1];
    var last := ns[|ns| - 1];
    assert ns == init + [last];
    TextureEntriesSnoc(init, last, getImage);
    var done := TextureEntries(init, getImage);
    var pairs := TexturePairs(last, getImage);
    InsertSnoc(m, done, pairs[0]);
    InsertSnoc(m, done + [pairs[0]], pairs[1]);
    assert done + [pairs[0]] + [pairs[1]] == done + pairs;
    if i < |ns| - 1 {
      assert init[i] == ns[i];
      forall j | i < j < |init|
        ensures && init[j].0 != init[i].0 && init[j].0 != init[i].1
                && init[j].1 != init[i].0 && init[j].1 != init[i].1
      {
        assert init[j] == ns[j];
      }
      TextureRegistered(m, init, getImage, i);
    }
  }

  lemma {:induction false} NamedAllAt(ts: seq<Texture>, j: nat)
    requires forall i | 0 <= i < |ts| :: TextureOk(ts[i])
    requires j < |ts|
    ensures NamedAll(ts)[j] == Named(ts[j])
    decreases |ts|
  {
    if j < |ts| - 1 {
      assert ts[..|ts| - 1][j] == ts[j];
      NamedAllAt(ts[..|ts| - 1], j);
    }
  }

  /**
   * After `loadTextures` over a theme whose paths all hold `theme/images/`,
   * texture `i` can be found under its id and under its file name, both
   * with the image of its file name, when no later texture reuses either key.
   */
  lemma TextureOfThemeRegistered(m: map<string, Image>, ts: seq<Texture>, getImage: string -> Image, i: nat)
    requires forall j | 0 <= j < |ts| :: TextureOk(ts[j])
    requires i < |ts|
    requires forall j | i < j < |ts| ::
               && Named(ts[j]).0 != ts[i].id && Named(ts[j]).0 != TextureFileName(ts[i])
               && Named(ts[j]).1 != ts[i].id && Named(ts[j]).1 != TextureFileName(ts[i])
    ensures var reg := Insert(m, TextureEntries(NamedAll(ts), getImage));
            && ts[i].id in reg && reg[ts[i].id] == TextureImage(TextureFileName(ts[i]), getImage)
            && TextureFileName(ts[i]) in reg && reg[TextureFileName(ts[i])] == TextureImage(TextureFileName(ts[i]), getImage)
  {
    var ns := NamedAll(ts);
    NamedAllAt(ts, i);
    forall j | i < j < |ns|
      ensures && ns[j].0 != ns[i].0 && ns[j].0 != ns[i].1
              && ns[j].1 != ns[i].0 && ns[j].1 != ns[i].1
    {
      NamedAllAt(ts, j);
    }
    TextureRegistered(m, ns, getImage, i);
  }

  /** The pairs `loadPixmaps` sets: each pixmap under its id, with its image bound. */
  function PixmapEntries(textures: map<string, Image>, ps: seq<Pixmap>): seq<(string, Pixmap)>
  {
    seq(|ps|, i requires 0 <= i < |ps| => (ps[i].id, BindImage(textures, ps[i])))
  }

  /** A registered pixmap carries the image of the texture it names, or none when that texture is unknown. */
  lemma PixmapRegistered(m: map<string, Pixmap>, textures: map<string, Image>, ps: seq<Pixmap>, i: nat)
    requires i < |ps|
    requires forall j | i < j < |ps| :: ps[j].id != ps[i].id
    ensures var reg := Insert(m, PixmapEntries(textures, ps));
            && ps[i].id in reg
            && reg[ps[i].id] == ps[i].(image := Lookup(textures, ps[i].texture))
            && (reg[ps[i].id].image.Some? <==> ps[i].texture in textures)
  {
    InsertLast(m, PixmapEntries(textures, ps), i);
  }

  /** The pairs `loadColors` sets: each colour under its id. */
  function ColorEntries(cs: seq<Color>): seq<(string, Color)>
  {
    seq(|cs|, i requires 0 <= i < |cs| => (cs[i].id, cs[i]))
  }

  /** The pairs `loadThemeElements` sets: the flattened record of each root, under the root's id. */
  function ElementEntries(textures: map<string, Image>, es: seq<Element>): seq<(string, FlatElement)>
  {
    seq(|es|, i requires 0 <= i < |es| => (es[i].id, FlatRecord(textures, es[i])))
  }

  /** One more root adds its record: the step of the `loadThemeElements` loop. */
  lemma ElementEntriesSnoc(textures: map<string, Image>, es: seq<Element>, i: nat)
    requires i < |es|
    ensures ElementEntries(textures, es[..i + 1])
            == ElementEntries(textures, es[..i]) + [(es[i].id, FlatRecord(textures, es[i]))]
  {
    var a, b := ElementEntries(textures, es[..i + 1]), ElementEntries(textures, es[..i]) + [(es[i].id, FlatRecord(textures, es[i]))];
    forall j | 0 <= j < i + 1 ensures a[j] == b[j] {
      assert es[..i + 1][j] == es[j];
      if j < i {
        assert es[..i][j] == es[j];
      }
    }
  }

  /** Only root elements get a record: the keys added are exactly the roots' ids. */
  lemma ElementKeys(textures: map<string, Image>, es: seq<Element>)
    ensures KeysOf(ElementEntries(textures, es)) == set i | 0 <= i < |es| :: es[i].id
  {
    var kvs := ElementEntries(textures, es);
    assert forall i | 0 <= i < |es| :: kvs[i].0 == es[i].id;
  }

  /** The skin part's path holds `theme/appSkin/`, so that its id can be cut out. */
  predicate SkinPartOk(p: RawSkinPart)
  {
    ThemeSkinPartFileName(p.path).Ok?
  }

  /** The copy `loadAppSkinParts` registers: its file name as `id`, the CDN URL of its path as `assetUrl`. */
  function SkinPartOf(p: RawSkinPart): SkinPart
    requires SkinPartOk(p)
  {
    SkinPart(ThemeSkinPartFileName(p.path).value, p.path, AssetUrl(p.path), p.attrs - {"id", "assetUrl"})
  }

  /**
   * The copy of a part stored at `p + "theme/appSkin/" + n + ".png"` has id
   * `n`, keeps the path, has an asset URL that reads back to that path after
   * the CDN root, and keeps every other key with its value.
   */
  lemma SkinPartOfRoundTrip(p: string, n: string, attrs: Attributes)
    requires !Contains(p, SkinMarker) && !Contains(n, SkinMarker) && !Contains(n, PngExtension)
    ensures var raw := RawSkinPart(p + SkinMarker + n + PngExtension, attrs);
            && SkinPartOk(raw)
            && SkinPartOf(raw).id == n
            && SkinPartOf(raw).path == raw.path
            && |SkinPartOf(raw).assetUrl| >= |CdnUrl|
            && SkinPartOf(raw).assetUrl[..|CdnUrl|] == CdnUrl
            && SkinPartOf(raw).assetUrl[|CdnUrl|..] == raw.path
            && SkinPartOf(raw).attrs.Keys == attrs.Keys - {"id", "assetUrl"}
            && (forall k | k in SkinPartOf(raw).attrs :: SkinPartOf(raw).attrs[k] == attrs[k])
  {
    SkinPartFileNameRoundTrip(p, n);
    var raw := RawSkinPart(p + SkinMarker + n + PngExtension, attrs);
    assert AssetUrl(raw.path)[|CdnUrl|..] == raw.path;
  }

  /** The pair `loadAppSkinParts` sets for one skin part: its copy under its id. */
  function SkinPartEntry(p: RawSkinPart): (string, SkinPart)
    requires SkinPartOk(p)
  {
    (SkinPartOf(p).id, SkinPartOf(p))
  }

  function SkinPartEntries(ps: seq<RawSkinPart>): seq<(string, SkinPart)>
    requires forall i | 0 <= i < |ps| :: SkinPartOk(ps[i])
  {
    seq(|ps|, i requires 0 <= i < |ps| => SkinPartEntry(ps[i]))
  }

  /** A skin part whose id no later part shares is registered under its file name, with its copy. */
  lemma SkinPartRegistered(m: map<string, SkinPart>, ps: seq<RawSkinPart>, i: nat)
    requires forall j | 0 <= j < |ps| :: SkinPartOk(ps[j])
    requires i < |ps|
    requires forall j | i < j < |ps| :: ThemeSkinPartFileName(ps[j].path) != ThemeSkinPartFileName(ps[i].path)
    ensures var reg := Insert(m, SkinPartEntries(ps));
            && ThemeSkinPartFileName(ps[i].path).value in reg
            && reg[ThemeSkinPartFileName(ps[i].path).value] == SkinPartOf(ps[i])
  {
    var kvs := SkinPartEntries(ps);
    forall j | i < j < |kvs| ensures kvs[j].0 != kvs[i].0 {
      assert ThemeSkinPartFileName(ps[j].path) != ThemeSkinPartFileName(ps[i].path);
    }
    InsertLast(m, kvs, i);
  }

  /** One more skin part adds its pair: the step of the `loadAppSkinParts` loop. */
  lemma SkinPartEntriesSnoc(ps: seq<RawSkinPart>, i: nat)
    requires i < |ps| && forall j | 0 <= j <= i :: SkinPartOk(ps[j])
    ensures SkinPartEntries(ps[..i + 1]) == SkinPartEntries(ps[..i]) + [SkinPartEntry(ps[i])]
  {
    var a, b := SkinPartEntries(ps[..i + 1]), SkinPartEntries(ps[..i]) + [SkinPartEntry(ps[i])];
    forall j | 0 <= j < i + 1 ensures a[j] == b[j] {
      assert ps[..i + 1][j] == ps[j];
      if j < i {
        assert ps[..i][j] == ps[j];
      }
    }
  }

  /** The custom colours saved in storage; nothing saved reads as `{}`. */
  function CustomColorList(stored: Option<seq<(string, CustomColor)>>): seq<(string, CustomColor)>
  {
    if stored.Some? then stored.value else []
  }

  /** The registries of the parser. */
  datatype Registries = Registries(
    textures: map<string, Image>,
    pixmaps: map<string, Pixmap>,
    colors: map<string, Color>,
    modified: map<string, Color>,
    themeElements: map<string, FlatElement>,
    appSkinParts: map<string, SkinPart>)

  /** Saved custom colours can be resolved against the colours the theme adds: there are none, or no alias cycle. */
  ghost predicate CanResolve(colors: map<string, Color>, d: Descriptor, stored: seq<(string, CustomColor)>)
  {
    stored == [] || Acyclic(Insert(colors, ColorEntries(d.colors)))
  }

  /**
   * Resolution of theme `d`: textures, then pixmaps, colours, saved custom
   * colours, theme elements and skin parts. A step that throws leaves the
   * registries of the later steps as they were and reports the fault.
   */
  function Resolve(r: Registries, d: Descriptor, getImage: string -> Image, stored: seq<(string, CustomColor)>)
    : (res: (Registries, Option<Fault>))
    requires CanResolve(r.colors, d, stored)
    ensures var n := PrefixWhere(d.textures, TextureOk);
            n < |d.textures| ==> res == (r.(textures := res.0.textures), Some(MissingMarker(d.textures[n].path)))
    ensures res.1.None? ==> forall i | 0 <= i < |d.textures| :: TextureOk(d.textures[i])
  {
    var n := PrefixWhere(d.textures, TextureOk);
    var withTextures := r.(textures := Insert(r.textures, TextureEntries(NamedAll(d.textures[..n]), getImage)));
    if n < |d.textures| then (withTextures, Some(MissingMarker(d.textures[n].path)))
    else ResolveAfterTextures(withTextures, d, stored)
  }

  /** The steps after `loadTextures`: pixmaps, colours and saved custom colours, then the rest. */
  function ResolveAfterTextures(r: Registries, d: Descriptor, stored: seq<(string, CustomColor)>)
    : (res: (Registries, Option<Fault>))
    requires CanResolve(r.colors, d, stored)
    ensures res.0.textures == r.textures
    ensures res.1.Some? && res.1.value.UnknownColor? ==>
              res.0.themeElements == r.themeElements && res.0.appSkinParts == r.appSkinParts
    ensures res.1.None? ==> forall j | 0 <= j < |stored| :: stored[j].0 in res.0.colors
  {
    var colors := Insert(r.colors, ColorEntries(d.colors));
    var (modified, fault) := ApplyCustomColors(colors, r.modified, stored);
    var withColors := r.(pixmaps := Insert(r.pixmaps, PixmapEntries(r.textures, d.pixmaps)),
                         colors := colors, modified := modified);
    if fault.Some? then (withColors, fault)
    else ResolveElementsAndParts(withColors, d)
  }

  /**
   * The steps after `loadTextures` finish without a throw exactly when
   * every saved custom colour names a theme colour whose original alias
   * chain is intact, and every skin part path holds `theme/appSkin/`.
   */
  lemma ResolveAfterTexturesSucceeds(r: Registries, d: Descriptor, stored: seq<(string, CustomColor)>)
    requires CanResolve(r.colors, d, stored)
    ensures var colors := Insert(r.colors, ColorEntries(d.colors));
            ResolveAfterTextures(r, d, stored).1.None? <==>
              && (stored == [] ||
                  forall j | 0 <= j < |stored| ::
                    stored[j].0 in colors && ChannelOfColor(colors, map[], colors[stored[j].0].id, true, Red).Ok?)
              && (forall i | 0 <= i < |d.appSkinParts| :: SkinPartOk(d.appSkinParts[i]))
  {
    if stored != [] {
      ApplyCustomColorsSucceeds(Insert(r.colors, ColorEntries(d.colors)), r.modified, stored);
    }
  }

  /** The last two steps: theme elements, then skin parts. */
  function ResolveElementsAndParts(r: Registries, d: Descriptor): (res: (Registries, Option<Fault>))
    ensures res.0 == r.(themeElements := res.0.themeElements, appSkinParts := res.0.appSkinParts)
    ensures res.1.Some? ==> res.1.value.MissingMarker?
    ensures res.1.None? <==> forall i | 0 <= i < |d.appSkinParts| :: SkinPartOk(d.appSkinParts[i])
  {
    var k := PrefixWhere(d.appSkinParts, SkinPartOk);
    (r.(themeElements := Insert(r.themeElements, ElementEntries(r.textures, d.themeElement)),
        appSkinParts := Insert(r.appSkinParts, SkinPartEntries(d.appSkinParts[..k]))),
     if k < |d.appSkinParts| then Some(MissingMarker(d.appSkinParts[k].path)) else None)
  }

  /** The last two steps, as the registries and the fault the two loaders leave. */
  lemma ElementsAndPartsStep(r: Registries, d: Descriptor, elements: map<string, FlatElement>,
                             parts: map<string, SkinPart>, fault: Option<Fault>)
    requires elements == Insert(r.themeElements, ElementEntries(r.textures, d.themeElement))
    requires var k := PrefixWhere(d.appSkinParts, SkinPartOk);
             && parts == Insert(r.appSkinParts, SkinPartEntries(d.appSkinParts[..k]))
             && fault == if k < |d.appSkinParts| then Some(MissingMarker(d.appSkinParts[k].path)) else None
    ensures ResolveElementsAndParts(r, d) == (r.(themeElements := elements, appSkinParts := parts), fault)
  {
  }

  lemma PixmapKeys(textures: map<string, Image>, ps: seq<Pixmap>)
    ensures KeysOf(PixmapEntries(textures, ps)) == set i | 0 <= i < |ps| :: ps[i].id
  {
    var kvs := PixmapEntries(textures, ps);
    assert forall i | 0 <= i < |ps| :: kvs[i].0 == ps[i].id;
  }

  lemma ColorKeys(cs: seq<Color>)
    ensures KeysOf(ColorEntries(cs)) == set i | 0 <= i < |cs| :: cs[i].id
  {
    var kvs := ColorEntries(cs);
    assert forall i | 0 <= i < |cs| :: kvs[i].0 == cs[i].id;
  }

  /**
   * A resolution without fault saw a file name in every texture and skin
   * part path, registered every pixmap and colour of the theme under its id,
   * and every root element, and nothing else, under its id.
   */
  lemma ResolveComplete(r: Registries, d: Descriptor, getImage: string -> Image, stored: seq<(string, CustomColor)>)
    requires CanResolve(r.colors, d, stored)
    requires Resolve(r, d, getImage, stored).1.None?
    ensures forall i | 0 <= i < |d.textures| :: TextureOk(d.textures[i])
    ensures forall i | 0 <= i < |d.appSkinParts| :: SkinPartOk(d.appSkinParts[i])
    ensures var out := Resolve(r, d, getImage, stored).0;
            && out.pixmaps.Keys == r.pixmaps.Keys + (set i | 0 <= i < |d.pixmaps| :: d.pixmaps[i].id)
            && out.colors.Keys == r.colors.Keys + (set i | 0 <= i < |d.colors| :: d.colors[i].id)
            && out.themeElements.Keys == r.themeElements.Keys + (set i | 0 <= i < |d.themeElement| :: d.themeElement[i].id)
  {
    var out := Resolve(r, d, getImage, stored).0;
    assert PrefixWhere(d.textures, TextureOk) == |d.textures|;
    assert d.textures[..|d.textures|] == d.textures;
    var textures := Insert(r.textures, TextureEntries(NamedAll(d.textures), getImage));
    assert out.pixmaps == Insert(r.pixmaps, PixmapEntries(textures, d.pixmaps));
    assert out.colors == Insert(r.colors, ColorEntries(d.colors));
    assert out.themeElements == Insert(r.themeElements, ElementEntries(textures, d.themeElement));
    assert PrefixWhere(d.appSkinParts, SkinPartOk) == |d.appSkinParts|;
    InsertKeys(r.pixmaps, PixmapEntries(textures, d.pixmaps));
    PixmapKeys(textures, d.pixmaps);
    InsertKeys(r.colors, ColorEntries(d.colors));
    ColorKeys(d.colors);
    InsertKeys(r.themeElements, ElementEntries(textures, d.themeElement));
    ElementKeys(textures, d.themeElement);
  }
}
