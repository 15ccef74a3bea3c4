/**
 * The theme parser object: the loaded descriptor and the registries it fills,
 * the loaders that fill them, and the custom colour overrides.
 */
module Parser {
  import opened Wrappers
  import opened ThemeData
  import opened Registry
  import opened Paths
  import opened ColorResolver
  import opened Flattening
  import opened Loading
  import opened ThemeCache

  class ThemeParser {
    var theme: Option<Descriptor>
    var textures: map<string, Image>
    var pixmaps: map<string, Pixmap>
    var colors: map<string, Color>
    var modified: map<string, Color>
    var themeElements: map<string, FlatElement>
    var appSkinParts: map<string, SkinPart>

    /**
     * Theme colours are registered under their own ids, and no override
     * aliases another colour. Every method keeps this. It is what lets an
     * override be resolved at all: see `OverridesResolve`.
     */
    ghost predicate Valid()
      reads this
    {
      && (forall k | k in colors :: colors[k].id == k)
      && OverridesConcrete(modified)
    }

    /**
     * In a valid parser over acyclic theme colours, the resolution that
     * prefers overrides is acyclic too, so the resolvers are defined on it;
     * and an overridden colour resolves to the override's own components.
     */
    lemma OverridesResolve()
      requires Valid() && Acyclic(colors)
      ensures Acyclic(View(colors, modified, false))
      ensures forall k | k in modified ::
                && ChannelOfColor(colors, modified, k, false, Red) == Ok(modified[k].red)
                && ChannelOfColor(colors, modified, k, false, Green) == Ok(modified[k].green)
                && ChannelOfColor(colors, modified, k, false, Blue) == Ok(modified[k].blue)
                && AlphaOfColor(colors, modified, k, false) == Ok(modified[k].alpha)
    {
      OverlayAcyclic(colors, modified);
      forall k | k in modified
        ensures && ChannelOfColor(colors, modified, k, false, Red) == Ok(modified[k].red)
                && ChannelOfColor(colors, modified, k, false, Green) == Ok(modified[k].green)
                && ChannelOfColor(colors, modified, k, false, Blue) == Ok(modified[k].blue)
                && AlphaOfColor(colors, modified, k, false) == Ok(modified[k].alpha)
      {
        DeclarationReadsResolvers(colors, modified, k, false);
      }
    }

    /** A parser with no theme and empty registries. */
    constructor()
      ensures theme == None && Valid()
      ensures textures == map[] && pixmaps == map[] && colors == map[] && modified == map[]
      ensures themeElements == map[] && appSkinParts == map[]
    {
      theme := None;
      textures := map[];
      pixmaps := map[];
      colors := map[];
      modified := map[];
      themeElements := map[];
      appSkinParts := map[];
    }

    function Snapshot(): Registries
      reads this
    {
      Registries(textures, pixmaps, colors, modified, themeElements, appSkinParts)
    }

    /**
     * `loadTextures`: registers each texture's image under its id and its
     * file name, and throws at the first texture whose path has no
     * `theme/images/`, keeping what the earlier textures registered.
     */
    method LoadTextures(getImage: string -> Image) returns (fault: Option<Fault>)
      requires theme.Some?
      modifies this`textures
      ensures var ts := theme.value.textures;
              var n := PrefixWhere(ts, TextureOk);
              && textures == Insert(old(textures), TextureEntries(NamedAll(ts[..n]), getImage))
              && fault == if n < |ts| then Some(MissingMarker(ts[n].path)) else None
    {
      var ts := theme.value.textures;
      var i := 0;
      while i < |ts|
        invariant 0 <= i <= |ts|
        invariant forall j | 0 <= j < i :: TextureOk(ts[j])
        invariant textures == Insert(old(textures), TextureEntries(NamedAll(ts[..i]), getImage))
      {
        var name := ThemeImageFileName(ts[i].path);
        if name.Err? {
          PrefixWhereAt(ts, TextureOk, i);
          return Some(name.error);
        }
        var image := getImage(ThemeImagePath(name.value));
        TexturesStep(old(textures), ts, getImage, i);
        textures := textures[ts[i].id := image];
        textures := textures[name.value := image];
        i := i + 1;
      }
      PrefixWhereAt(ts, TextureOk, i);
      assert ts[..i] == ts;
      fault := None;
    }

    /** `loadPixmaps`: registers each pixmap under its id, with the image of its texture bound. */
    method LoadPixmaps()
      requires theme.Some?
      modifies this`pixmaps
      ensures pixmaps == Insert(old(pixmaps), PixmapEntries(textures, theme.value.pixmaps))
    {
      var ps := theme.value.pixmaps;
      for i := 0 to |ps|
        invariant pixmaps == Insert(old(pixmaps), PixmapEntries(textures, ps[..i]))
      {
        assert PixmapEntries(textures, ps[..i + 1])
            == PixmapEntries(textures, ps[..i]) + [(ps[i].id, BindImage(textures, ps[i]))];
        InsertSnoc(old(pixmaps), PixmapEntries(textures, ps[..i]), (ps[i].id, BindImage(textures, ps[i])));
        pixmaps := pixmaps[ps[i].id := BindImage(textures, ps[i])];
      }
      assert ps[..|ps|] == ps;
    }

    /** `loadColors`: registers each theme colour under its id. */
    method LoadColors()
      requires theme.Some? && Valid()
      modifies this`colors
      ensures colors == Insert(old(colors), ColorEntries(theme.value.colors))
      ensures Valid()
    {
      var cs := theme.value.colors;
      for i := 0 to |cs|
        invariant colors == Insert(old(colors), ColorEntries(cs[..i]))
        invariant forall k | k in colors :: colors[k].id == k
      {
        assert ColorEntries(cs[..i + 1]) == ColorEntries(cs[..i]) + [(cs[i].id, cs[i])];
        InsertSnoc(old(colors), ColorEntries(cs[..i]), (cs[i].id, cs[i]));
        colors := colors[cs[i].id := cs[i]];
      }
      assert cs[..|cs|] == cs;
    }

    /** `removeCustomColor`: deletes the override of `name`, and only that one. */
    method RemoveCustomColor(name: string)
      requires Valid()
      modifies this`modified
      ensures modified == old(modified) - {name}
      ensures Valid()
    {
      modified := modified - {name};
    }

    /** `clearCustomColors`: no colour is overridden any more. */
    method ClearCustomColors()
      requires Valid()
      modifies this`modified
      ensures modified == map[]
      ensures Valid()
    {
      modified := map[];
    }

    /** `colorIsOverrided`: whether `getColor(name)` answers with an override rather than the theme colour. */
    function ColorIsOverrided(name: string): (b: bool)
      reads this
      ensures b ==> name in modified && GetColor(colors, modified, name, false) == Some(modified[name])
      ensures !b ==> GetColor(colors, modified, name, false) == GetColor(colors, modified, name, true)
    {
      name in modified
    }

    /**
     * `addCustomColor(name, data)`: drops the override of `name` when the
     * data equals the original colour, else installs the new override; an
     * unknown `name` throws.
     */
    method AddCustomColor(name: string, data: CustomColor) returns (r: Result<Color>)
      requires Valid() && Acyclic(colors)
      modifies this`modified
      ensures Valid()
      ensures var step := AddOverride(colors, old(modified), name, data);
              && (step.Err? ==> r == Err(step.error) && modified == old(modified))
              && (step.Ok? ==> r == Ok(step.value.1) && modified == step.value.0)
    {
      var color := Lookup(colors, name);
      if color.None? {
        return Err(UnknownColor(name));
      }
      var same := SameAsOriginal(colors, modified, color.value.id, data);
      if same.Err? {
        return Err(same.error);
      }
      if same.value {
        if name in modified {
          RemoveCustomColor(name);
        }
        r := Ok(color.value);
      } else {
        var o := OverrideOf(color.value, data);
        modified := modified[name := o];
        r := Ok(o);
      }
    }

    /** `loadCustomColors`: `addCustomColor` for each saved entry in order, until one throws. */
    method LoadCustomColors(stored: Option<seq<(string, CustomColor)>>) returns (fault: Option<Fault>)
      requires Valid()
      requires CustomColorList(stored) == [] || Acyclic(colors)
      modifies this`modified
      ensures Valid()
      ensures (modified, fault) == ApplyCustomColors(colors, old(modified), CustomColorList(stored))
    {
      var entries := CustomColorList(stored);
      var i := 0;
      while i < |entries|
        invariant 0 <= i <= |entries|
        invariant Valid()
        invariant ApplyCustomColors(colors, old(modified), entries) == ApplyCustomColors(colors, modified, entries[i..])
      {
        assert entries[i..][0] == entries[i] && entries[i..][1..] == entries[i + 1..];
        var r := AddCustomColor(entries[i].0, entries[i].1);
        if r.Err? {
          return Some(r.error);
        }
        i := i + 1;
      }
      fault := None;
    }

    /**
     * `flattenThemeElement(flattened, element)`: appends to `flattened` the
     * pixmaps of `element`'s subtree in pre-order, each with its image bound.
     */
    method FlattenThemeElement(flattened: seq<Pixmap>, element: Element) returns (result: seq<Pixmap>)
      ensures result == flattened + Flatten(textures, element)
      decreases element
    {
      result := flattened;
      var own := OwnPixmaps(element);
      for i := 0 to |own|
        invariant result == flattened + BindAll(textures, own[..i])
      {
        BindAllSnoc(textures, own, i);
        result := result + [BindImage(textures, own[i])];
      }
      assert own[..|own|] == own;
      var children := Children(element);
      for i := 0 to |children|
        invariant result == flattened + BindAll(textures, own) + FlattenChildren(textures, element, i)
      {
        ChildIsSmaller(element, i);
        FlattenChildrenSnoc(textures, element, i, flattened + BindAll(textures, own));
        result := FlattenThemeElement(result, children[i]);
      }
      FlattenAfter(textures, element, flattened);
    }

    /** `loadThemeElements`: registers, under each root's id, a copy of the root with its subtree's pixmaps. */
    method LoadThemeElements()
      requires theme.Some?
      modifies this`themeElements
      ensures themeElements == Insert(old(themeElements), ElementEntries(textures, theme.value.themeElement))
    {
      var es := theme.value.themeElement;
      for i := 0 to |es|
        invariant themeElements == Insert(old(themeElements), ElementEntries(textures, es[..i]))
      {
        var pixmapsOfRoot := FlattenThemeElement([], es[i]);
        var record := FlatElement(es[i], pixmapsOfRoot);
        assert record == FlatRecord(textures, es[i]);
        ElementEntriesSnoc(textures, es, i);
        InsertSnoc(old(themeElements), ElementEntries(textures, es[..i]), (es[i].id, record));
        themeElements := themeElements[es[i].id := record];
      }
      assert es[..|es|] == es;
    }

    /**
     * `loadAppSkinParts`: registers a copy of each skin part under its file
     * name, with its CDN URL; throws at the first path without
     * `theme/appSkin/`, keeping what the earlier parts registered.
     */
    method LoadAppSkinParts() returns (fault: Option<Fault>)
      requires theme.Some?
      modifies this`appSkinParts
      ensures var ps := theme.value.appSkinParts;
              var n := PrefixWhere(ps, SkinPartOk);
              && appSkinParts == Insert(old(appSkinParts), SkinPartEntries(ps[..n]))
              && fault == if n < |ps| then Some(MissingMarker(ps[n].path)) else None
    {
      var ps := theme.value.appSkinParts;
      var i := 0;
      while i < |ps|
        invariant 0 <= i <= |ps|
        invariant forall j | 0 <= j < i :: SkinPartOk(ps[j])
        invariant appSkinParts == Insert(old(appSkinParts), SkinPartEntries(ps[..i]))
      {
        var id := ThemeSkinPartFileName(ps[i].path);
        if id.Err? {
          PrefixWhereAt(ps, SkinPartOk, i);
          return Some(id.error);
        }
        var part := SkinPart(id.value, ps[i].path, AssetUrl(ps[i].path), ps[i].attrs - {"id", "assetUrl"});
        assert (id.value, part) == SkinPartEntry(ps[i]);
        SkinPartEntriesSnoc(ps, i);
        InsertSnoc(old(appSkinParts), SkinPartEntries(ps[..i]), (id.value, part));
        appSkinParts := appSkinParts[id.value := part];
        i := i + 1;
      }
      PrefixWhereAt(ps, SkinPartOk, i);
      assert ps[..i] == ps;
      fault := None;
    }

    /** The loaders `loadTheme` runs once the theme is in place, stopping at the first that throws. */
    method ResolveTheme(getImage: string -> Image, stored: Option<seq<(string, CustomColor)>>)
      returns (fault: Option<Fault>)
      requires theme.Some? && Valid()
      requires CanResolve(colors, theme.value, CustomColorList(stored))
      modifies this`textures, this`pixmaps, this`colors, this`modified, this`themeElements, this`appSkinParts
      ensures Valid()
      ensures (Snapshot(), fault) == Resolve(old(Snapshot()), theme.value, getImage, CustomColorList(stored))
    {
      fault := LoadTextures(getImage);
      if fault.Some? {
        return;
      }
      fault := ResolveAfterTexturesLoaded(stored);
    }

    /** The part of `loadTheme`'s callback that runs after `loadTextures`. */
    method ResolveAfterTexturesLoaded(stored: Option<seq<(string, CustomColor)>>) returns (fault: Option<Fault>)
      requires theme.Some? && Valid()
      requires CanResolve(colors, theme.value, CustomColorList(stored))
      modifies this`pixmaps, this`colors, this`modified, this`themeElements, this`appSkinParts
      ensures Valid()
      ensures (Snapshot(), fault) == ResolveAfterTextures(old(Snapshot()), theme.value, CustomColorList(stored))
    {
      ghost var d, entries, before := theme.value, CustomColorList(stored), Snapshot();
      LoadPixmaps();
      LoadColors();
      fault := LoadCustomColors(stored);
      ghost var after := Snapshot();
      assert after == before.(pixmaps := pixmaps, colors := colors, modified := modified);
      if fault.Some? {
        return;
      }
      assert ResolveAfterTextures(before, d, entries) == ResolveElementsAndParts(after, d);
      fault := ResolveElementsAndPartsLoaded();
    }

    /** The last two loaders of `loadTheme`'s callback. */
    method ResolveElementsAndPartsLoaded() returns (fault: Option<Fault>)
      requires theme.Some?
      modifies this`themeElements, this`appSkinParts
      ensures (Snapshot(), fault) == ResolveElementsAndParts(old(Snapshot()), theme.value)
    {
      ghost var before := Snapshot();
      LoadThemeElements();
      fault := LoadAppSkinParts();
      ElementsAndPartsStep(before, theme.value, themeElements, appSkinParts, fault);
      assert Snapshot() == before.(themeElements := themeElements, appSkinParts := appSkinParts);
    }

    /**
     * `loadTheme(force)`: keeps a resident theme unless forced, else reads
     * a saved theme that is at most 30 minutes old at `now`, else takes
     * `fetched` (the theme `theme.json` holds) and saves it with
     * `fetchedAt`, the clock read again once the response has arrived;
     * then resolves the theme. Returns where the theme came from and the
     * storage afterwards.
     */
    method LoadTheme(force: bool, storage: Storage, now: int, fetched: Descriptor, fetchedAt: int,
                     getImage: string -> Image)
      returns (source: LoadSource, storage': Storage, fault: Option<Fault>)
      requires Valid()
      requires Decide(force, theme.Some?, storage, now) == FromCache ==>
                 CanResolve(colors, storage.themeData.value, CustomColorList(storage.customColors))
      requires Decide(force, theme.Some?, storage, now) == FromNetwork ==>
                 CanResolve(colors, fetched, CustomColorList(storage.customColors))
      modifies this
      ensures Valid() && theme.Some?
      ensures source == Decide(force, old(theme).Some?, storage, now)
      ensures source == AlreadyLoaded ==>
                unchanged(this) && storage' == storage && fault == None
      ensures source == FromCache ==>
                && theme == storage.themeData && storage' == storage
                && (Snapshot(), fault)
                   == Resolve(old(Snapshot()), theme.value, getImage, CustomColorList(storage.customColors))
      ensures source == FromNetwork ==>
                && theme == Some(fetched) && storage' == AfterFetch(storage, fetched, fetchedAt)
                && (Snapshot(), fault)
                   == Resolve(old(Snapshot()), fetched, getImage, CustomColorList(storage.customColors))
    {
      source := Decide(force, theme.Some?, storage, now);
      storage' := storage;
      fault := None;
      if source == AlreadyLoaded {
        return;
      }
      if source == FromCache {
        theme := storage.themeData;
      } else {
        theme := Some(fetched);
        storage' := AfterFetch(storage, fetched, fetchedAt);
      }
      fault := ResolveTheme(getImage, storage'.customColors);
    }
  }
}
