# Wakfu theme parser, modelled in Dafny

This project models the theme engine of the Wakfu theme viewer: the
`ThemeParserClass` singleton of `src/core/theme-parser.js`. Its parts are:

- **Loading.** The engine takes a theme descriptor (`theme.json`) from the
  browser's storage cache or from the CDN.
- **Registries.** It fills six registries, all JavaScript `Map`s:
  - texture images, under each texture's id and under its file name;
  - pixmaps, each with its image bound from the textures;
  - theme colours;
  - user colour overrides;
  - flattened theme elements;
  - application skin parts.
- **Colour answers.** It resolves colour components through `colorUsed`
  alias chains, gives a colour's hex form and its Wakfu declaration, and
  keeps a layer of user overrides on top of the theme colours.

The model has these parts:

- `wrappers.dfy`: `Option`, `Result`, and the two ways the source throws.
  - `UnknownColor(id)`: a property is read from the `undefined` colour of an
    unknown id.
  - `MissingMarker(path)`: `split(marker)[1]` is `undefined` because the path
    lacks the marker.
- `registry.dfy`: `Insert`, a loop of `Map.set` calls written as a function,
  with its laws:
  - last writer wins;
  - keys no pair sets are kept;
  - the registry's keys are the old keys plus the keys that were set;
  - `PrefixWhere`, which says where a loader loop stops when an element
    throws.
- `paths.dfy`: the CDN locators and the file names cut out by
  `split(marker)[1].split(ext)[0]`, with JavaScript's `indexOf`/`split`
  semantics.
- `theme_data.dfy`: the records of the descriptor.
- `color_resolver.dfy`: `getColor`, the recursive component, alpha and hex
  resolvers, `getColorDeclaration`, and the pure part of `addCustomColor`.
  These are all functions of the two maps `colors` and `modified`.
- `flattening.dfy`: flattening of an element tree, and its pre-order
  characterisation.
- `theme_cache.dfy`: `loadTheme`'s choice between the resident theme, the
  cache and the network, and the storage items it writes.
- `loading.dfy`: the pairs each loader sets, as functions of the
  descriptor. `Resolve` chains the whole resolution.
- `theme_parser.dfy`: class `ThemeParser`, with the registries as fields.
  - The loaders are loops that `Map.set` into those fields.
  - `flattenThemeElement` is a recursive method with an accumulator.
  - The override operations change `modified` in place.
  - `loadTheme` decides, writes the storage, then resolves.
  - Every method is proved equal to the function that specifies it.

Inputs the source reads from the outside world are parameters:

| Source input | Model parameter |
|---|---|
| the fetched `theme.json` | `fetched: Descriptor` |
| images loaded by `getImage` | `getImage: string -> Image` |
| the storage items | a `Storage` value |
| `Date.now()` when choosing the source | `now` |
| `Date.now()` once `theme.json` has arrived | `fetchedAt` |
| `RGBAToHexA` | `HexEncoder` |
| `colorToWakfuColor` and `colorDeclaration` | `DeclarationCodec` |

Colour semantics follow the code:

- JavaScript truthiness decides every branch. A `colorUsed` counts only when
  it is a non-empty string. An alpha or component counts only when it is
  present and non-zero.
- `getRedOfColor` and its siblings read `color.colorUsed` before their null
  check. An unknown id therefore throws (`Err(UnknownColor)`) rather than
  returning `null`, and the model keeps that behaviour.

In two places the model follows what the code does:

- `loadThemeElements` stores a deep copy of the whole root element. That copy
  still holds its `childrenThemeElements`, and the flattened pixmaps are
  added beside them.
- `loadCustomColors` calls `addCustomColor` on the singleton, which is the
  same object (`this`).

## Model

| member | source | states |
|---|---|---|
| Paths.IndexOf | src/core/theme-parser.js:14-15 | an index `indexOf` finds leaves room for the whole separator; `IndexOfSpec` characterises it |
| Paths.IndexOfSpec | src/core/theme-parser.js:14-15 | `indexOf` returns the first occurrence of the separator, and returns nothing exactly when the separator does not occur |
| Paths.FirstPiece | src/core/theme-parser.js:14-15 | `split(sep)[0]` is a prefix of the string; `FirstPieceSpec` says where it ends |
| Paths.FirstPieceSpec | src/core/theme-parser.js:14-15 | `split(sep)[0]` is a prefix with no `sep` in it; it is the whole string when there is no `sep`, and otherwise ends where the first `sep` starts |
| Paths.SecondPiece | src/core/theme-parser.js:14-15 | `split(sep)[1]` exists exactly when `indexOf` finds `sep`, and is a prefix of what follows the first `sep` |
| Paths.SecondPieceSpec | src/core/theme-parser.js:14-15 | `split(sep)[1]` exists exactly when `sep` occurs; it starts right after the first `sep`, holds no `sep`, and ends at the next `sep` or, when there is none, at the end of the string |
| Paths.CutSpec | src/core/theme-parser.js:14-15 | `split(marker)[1].split(ext)[0]` of a path holding the marker is a prefix of what follows the first marker, holds neither separator, and ends at the next `ext`, the next marker or the end of the path |
| Paths.ThemeImageFileName | src/core/theme-parser.js:14 | a failure is always the missing `theme/images/` marker of that path |
| Paths.ImageFileNameCut | src/core/theme-parser.js:14 | a texture path has a file name iff it contains `theme/images/`; the name starts right after the first marker, holds neither the marker nor `.tga`, and ends at the next `.tga`, the next marker or the end of the path |
| Paths.ImageFileNameRoundTrip | src/core/theme-parser.js:14 | `themeImageFileName(p + "theme/images/" + n + ".tga") == n` when the marker is absent from `p` and `n`, and `.tga` is absent from `n` |
| Paths.ThemeSkinPartFileName | src/core/theme-parser.js:15 | a failure is always the missing `theme/appSkin/` marker of that path |
| Paths.SkinPartFileNameCut | src/core/theme-parser.js:15 | a skin part path has an id iff it contains `theme/appSkin/`; the id starts right after the first marker, holds neither the marker nor `.png`, and ends at the next `.png`, the next marker or the end of the path |
| Paths.SkinPartFileNameRoundTrip | src/core/theme-parser.js:15 | `themeSkinPartFileName(p + "theme/appSkin/" + n + ".png") == n` under the same absence conditions |
| Paths.SplitRoundTrip | src/core/theme-parser.js:14-15 | the generic round trip of `split(marker)[1].split(ext)[0]` for markers whose first character does not recur |
| Paths.FirstOccurrenceAfter | src/core/theme-parser.js:14-15 | a separator that is absent from `a`, and whose first character does not recur, is first found in `a + sep + b` right after `a` |
| Paths.NoOccurrenceAcross | src/core/theme-parser.js:14-15 | appending a tail that lacks the separator's last character creates no occurrence |
| Paths.ThemeImagePath | src/core/theme-parser.js:13 | the URL starts with the CDN root and `theme/images/`, ends with `.png`, and holds exactly the file name between the two |
| Paths.ImagePathInjective | src/core/theme-parser.js:13 | `themeImagePath` gives distinct URLs to distinct file names |
| Paths.AssetUrlInjective | src/core/theme-parser.js:170 | distinct skin part paths give distinct asset URLs: the path reads back after the CDN root |
| Registry.Insert | src/core/theme-parser.js:99-102 | a loader never removes a key: the old keys are all still there |
| Registry.InsertSnoc | src/core/theme-parser.js:99-102 | setting one more pair is one more map update |
| Registry.InsertAppend | src/core/theme-parser.js:115-118 | setting the pairs of `a + b` is setting those of `a` and then those of `b` |
| Registry.InsertKeys | src/core/theme-parser.js:99-102 | after a loader, the keys are exactly the old keys plus the keys it set |
| Registry.InsertLast | src/core/theme-parser.js:99-102 | last writer wins: a key holds the value of the last pair that sets it |
| Registry.InsertKeeps | src/core/theme-parser.js:99-102 | a key that no pair sets keeps its old value, or stays absent |
| Registry.InsertOrigin | src/core/theme-parser.js:99-102 | every registry entry is an old entry or one of the pairs that were set |
| Registry.PrefixWhere | src/core/theme-parser.js:82-84 | a loader loop stops at the first element that throws; every earlier element passed |
| Registry.PrefixWhereAt | src/core/theme-parser.js:166-169 | a loop that checked every element before `i` and fails at `i` (or ends there) stops where `PrefixWhere` says |
| ColorResolver.GetColor | src/core/theme-parser.js:241-247 | the override when one exists and overrides may be used, otherwise the theme colour; it is a lookup in the overlaid view |
| ColorResolver.ChainFrom | src/core/theme-parser.js:332-341 | in an acyclic view, every id starts either an alias chain that ends at a concrete colour or one that reaches a missing id |
| ColorResolver.ChannelOfColor | src/core/theme-parser.js:332-377 | a component resolution fails only with `UnknownColor` of an id missing from the view |
| ColorResolver.ResolvesAlike | src/core/theme-parser.js:332-396 | red, green and blue throw together, since they walk the same chain; alpha never throws when red resolves |
| ColorResolver.ChannelOnResolvedChain | src/core/theme-parser.js:332-377 | red, green and blue resolve to the component of the colour at the end of the alias chain |
| ColorResolver.ChannelOnBrokenChain | src/core/theme-parser.js:332-341 | a chain that reaches a missing id throws for that id; the `return null` branch is never reached |
| ColorResolver.AlphaOfColor | src/core/theme-parser.js:387-396 | an alpha resolution fails only with `UnknownColor` of an id missing from the view |
| ColorResolver.AlphaOnChain | src/core/theme-parser.js:387-396 | alpha is the alpha of the first colour on the chain whose own alpha is truthy (a local alpha wins even on an alias), else the alpha of the chain's end |
| ColorResolver.AlphaOnBrokenChain | src/core/theme-parser.js:387-396 | with no truthy alpha before the break, alpha throws for the missing id |
| ColorResolver.HexOfColor | src/core/theme-parser.js:405-419 | a broken red chain throws; a hex that resolves is present exactly when red, green and blue all resolve to truthy numbers |
| ColorResolver.HexOnResolvedChain | src/core/theme-parser.js:405-419 | the hex is `null` exactly when a component of the chain's end is falsy (absent or 0); otherwise it is the encoder applied to the components and the resolved alpha, which may be absent |
| ColorResolver.HexOnBrokenChain | src/core/theme-parser.js:405-407 | on a broken chain the hex throws, since red is resolved first |
| ColorResolver.HexOfColorIntended | src/core/theme-parser.js:398-419 | the corrected hex: a broken red chain throws; a hex that resolves is present exactly when red, green and blue all resolve to numbers, 0 included |
| ColorResolver.HexIntendedOnResolvedChain | src/core/theme-parser.js:398-419 | the corrected hex is `null` exactly when a component is absent; a zero component is encoded |
| ColorResolver.HexThrowsWithRed | src/core/theme-parser.js:405-419 | both hex functions throw exactly when red throws |
| ColorResolver.BlackHasNoHex | src/core/theme-parser.js:405-413 | black has no hex as written, but has one in the corrected version |
| ColorResolver.AliasCode | src/core/theme-parser.js:432-436 | the colour code of an alias is the aliased id, with `@` and the alpha fraction appended exactly when the colour's own alpha is truthy and not 100 |
| ColorResolver.ColorDeclaration | src/core/theme-parser.js:429-449 | an unknown name throws and a known one always yields a declaration. An aliasing colour is declared by `AliasCode`: its target id plus an alpha suffix, never the chain's components. A concrete colour is declared by its own four values |
| ColorResolver.DeclarationReadsResolvers | src/core/theme-parser.js:332-396 | for a colour that does not alias, the red, green, blue and alpha resolvers never throw and answer with that colour's own fields, which are the values a concrete declaration is built from |
| ColorResolver.OverlayAcyclic | src/core/theme-parser.js:241-247 | concrete overrides on top of acyclic theme colours leave the overlaid view acyclic |
| ColorResolver.OriginalIgnoresOverrides | src/core/theme-parser.js:241-247 | resolution with `originalOnly` gives the same components and alpha whatever the overrides are |
| ColorResolver.OverrideOf | src/core/theme-parser.js:471-487 | an override keeps the colour's id and has no `colorUsed`; its components are the given red, green, blue and alpha; it copies every attribute key except the excluded ones, each with the original's value |
| ColorResolver.SameAsOriginal | src/core/theme-parser.js:459-465 | the test holds iff the original-only red, green, blue and alpha equal the given values; an absent original alpha never compares equal; a broken red chain throws, and every throw is an unknown colour |
| ColorResolver.SameAsOriginalThrows | src/core/theme-parser.js:459-464 | the test throws exactly when the original alias chain of the colour's id breaks |
| ColorResolver.AddOverride | src/core/theme-parser.js:458-492 | unknown name: throws. Known name: throws exactly when the original chain of its colour's id breaks. Same as the original: drops the override and returns the original colour. Otherwise: installs and returns `OverrideOf`. No other override changes |
| ColorResolver.OverridePrecedence | src/core/theme-parser.js:458-492 | after a new override, the override-using resolution returns its values, and the original-only resolution is unchanged |
| ColorResolver.ApplyCustomColors | src/core/theme-parser.js:134-140 | a fault is always an unknown colour, and without a fault every saved name was a theme colour |
| ColorResolver.ApplyCustomColorsSucceeds | src/core/theme-parser.js:134-140 | a load of saved custom colours throws exactly when some entry names no theme colour, or names one whose original red chain breaks; otherwise it finishes without a fault |
| ColorResolver.ApplyCustomColorsFrame | src/core/theme-parser.js:134-140 | loading saved custom colours keeps every override concrete and changes no override it does not name |
| ColorResolver.ApplyCustomColorsUntouched | src/core/theme-parser.js:134-140 | a name that no saved entry mentions keeps its override, or its lack of one |
| ColorResolver.SameAsOriginalIgnoresOverrides | src/core/theme-parser.js:459-464 | the original-only test gives the same answer whatever overrides are installed |
| ColorResolver.ApplyCustomColorsOutcome | src/core/theme-parser.js:134-140 | after a load that does not throw, the last saved entry for a name decides: the name is a theme colour, and it ends with no override when that entry's values equal its original components, else with the override `addCustomColor` builds from that entry |
| Flattening.Flatten | src/core/theme-parser.js:147-160 | a node's own pixmaps, bound, come before all of its descendants' |
| Flattening.OwnOfAllAppend | src/core/theme-parser.js:147-160 | the own pixmaps of a concatenation of node lists are the concatenation of their own pixmaps |
| Flattening.FlattenIsPreorder | src/core/theme-parser.js:147-160 | a flattened subtree is the own pixmaps of its nodes in pre-order: the node first, then each child's subtree from left to right |
| Flattening.FlattenChildrenIsPreorder | src/core/theme-parser.js:155-159 | the flattened first `n` children are the own pixmaps of their subtrees' nodes, in pre-order |
| Flattening.FlattenBound | src/core/theme-parser.js:148-152 | every flattened pixmap carries the image of the texture it names, or none |
| Flattening.FlatRecord | src/core/theme-parser.js:127-130 | a root's record is a copy of the root whose pixmaps are the pre-order pixmaps of its subtree |
| Flattening.FlattenTwoChildren | src/core/theme-parser.js:147-160 | a root with one pixmap and two leaf children flattens to the three pixmaps, in that order |
| Loading.TextureEntriesSnoc | src/core/theme-parser.js:82-88 | one more texture adds its two pairs: under its id, then under its file name |
| Loading.TexturesStep | src/core/theme-parser.js:83-87 | one more texture updates the registry under its id and then under its file name, both with the same image |
| Loading.TextureRegistered | src/core/theme-parser.js:83-87 | a texture that no later texture overwrites is found under its id and under its file name, with the image of its file name |
| Loading.TextureOfThemeRegistered | src/core/theme-parser.js:82-88 | the same, for the textures of a theme whose paths all hold the marker |
| Loading.PixmapRegistered | src/core/theme-parser.js:99-102 | a pixmap that no later pixmap overwrites is registered with `image` bound; it has an image iff its texture is registered |
| Loading.PixmapKeys | src/core/theme-parser.js:99-102 | `loadPixmaps` sets exactly the pixmap ids |
| Loading.ColorKeys | src/core/theme-parser.js:114-119 | `loadColors` sets exactly the colour ids |
| Loading.ElementEntriesSnoc | src/core/theme-parser.js:125-131 | one more root adds its flattened record under its id |
| Loading.ElementKeys | src/core/theme-parser.js:124-132 | `loadThemeElements` sets records under the root ids only |
| Loading.SkinPartOfRoundTrip | src/core/theme-parser.js:166-172 | the copy of a part stored at `p + "theme/appSkin/" + n + ".png"` has id `n`, keeps its path, has an asset URL made of the CDN root followed by that path, and keeps every other key with its value |
| Loading.SkinPartRegistered | src/core/theme-parser.js:166-172 | a part whose file name no later part shares is found under that file name, with its copy |
| Loading.SkinPartEntriesSnoc | src/core/theme-parser.js:166-172 | one more skin part adds its pair under its file name |
| Loading.Resolve | src/core/theme-parser.js:63-69 | a texture path without the marker stops the resolution: only the texture registry has changed, and the fault names the first such path; no fault means every texture had a file name |
| Loading.ResolveAfterTextures | src/core/theme-parser.js:64-68 | the texture registry is untouched; a throw in `loadCustomColors` leaves elements and skin parts unloaded; no fault means every saved custom colour names a colour |
| Loading.ResolveAfterTexturesSucceeds | src/core/theme-parser.js:64-68 | the steps after `loadTextures` finish without a throw exactly when every saved custom colour names a theme colour with an intact original chain, and every skin part path holds `theme/appSkin/` |
| Loading.ResolveElementsAndParts | src/core/theme-parser.js:67-68 | only the element and skin part registries change; a fault is a missing marker, and there is none exactly when every skin part path holds `theme/appSkin/` |
| Loading.ElementsAndPartsStep | src/core/theme-parser.js:67-68 | the last two resolution steps are the registries and the fault that the two loaders leave |
| Loading.ResolveComplete | src/core/theme-parser.js:63-70 | when nothing throws, every texture and skin part path held its marker, and the pixmap, colour and element registries gain exactly the theme's ids |
| ThemeCache.IsFresh | src/core/theme-parser.js:42-43 | a saved theme is fresh iff at most 30 minutes have passed since its fetch |
| ThemeCache.Decide | src/core/theme-parser.js:35-56 | keep the theme iff not forced and one is resident; use the cache iff not forced, none is resident, both items are stored and the fetch is at most 1800000 ms old; forced means the network |
| ThemeCache.AfterFetch | src/core/theme-parser.js:58-62 | the network branch stores the fetched theme and the fetch time, and keeps the custom colours |
| ThemeCache.FetchServesCache | src/core/theme-parser.js:17 | a fetched theme is served from the cache up to and including 30 minutes after the fetch, and not later |
| Parser.ThemeParser.constructor | src/core/theme-parser.js:19-26 | no theme and empty registries |
| Parser.ThemeParser.LoadTextures | src/core/theme-parser.js:79-93 | the texture registry gains the pairs of every texture up to the first path without the marker, and the fault names that path |
| Parser.ThemeParser.LoadPixmaps | src/core/theme-parser.js:98-103 | the pixmap registry gains every pixmap, with its image bound, under its id |
| Parser.ThemeParser.LoadColors | src/core/theme-parser.js:114-119 | the colour registry gains every theme colour under its id; colours stay keyed by their ids |
| Parser.ThemeParser.RemoveCustomColor | src/core/theme-parser.js:498-500 | exactly the override of `name` is deleted |
| Parser.ThemeParser.ClearCustomColors | src/core/theme-parser.js:515-517 | no colour is overridden |
| Parser.ThemeParser.ColorIsOverrided | src/core/theme-parser.js:508-510 | if true, `getColor(name)` answers with the override; if false, it answers as `getColor(name, true)` |
| Parser.ThemeParser.OverridesResolve | src/core/theme-parser.js:241-247 | in a valid parser over acyclic theme colours, resolution that prefers overrides is acyclic, and an overridden colour resolves to its override's own red, green, blue and alpha |
| Parser.ThemeParser.AddCustomColor | src/core/theme-parser.js:458-492 | the overrides and the returned colour are those of `AddOverride`; on a throw the overrides are unchanged |
| Parser.ThemeParser.LoadCustomColors | src/core/theme-parser.js:134-140 | the overrides and the fault are those of `ApplyCustomColors` over the saved entries (none saved reads as `{}`) |
| Parser.ThemeParser.FlattenThemeElement | src/core/theme-parser.js:147-160 | the accumulator gains exactly `Flatten` of the element |
| Parser.ThemeParser.LoadThemeElements | src/core/theme-parser.js:124-132 | the element registry gains the flattened record of every root under its id |
| Parser.ThemeParser.LoadAppSkinParts | src/core/theme-parser.js:165-173 | the skin part registry gains the copy of every part up to the first path without the marker, and the fault names that path |
| Parser.ThemeParser.ResolveTheme | src/core/theme-parser.js:63-70 | the registries and the fault are those of `Resolve`, which stops at the first loader that throws |
| Parser.ThemeParser.ResolveAfterTexturesLoaded | src/core/theme-parser.js:64-69 | the loaders after `loadTextures` leave the registries and fault of `ResolveAfterTextures` |
| Parser.ThemeParser.ResolveElementsAndPartsLoaded | src/core/theme-parser.js:67-68 | the last two loaders leave the registries and fault of `ResolveElementsAndParts` |
| Parser.ThemeParser.LoadTheme | src/core/theme-parser.js:35-72 | the source is `Decide`'s choice. Resident: nothing changes. Cache: the stored theme is resolved. Network: the fetched theme is stored with `fetchedAt`, the time read once it arrived, and resolved |

## Left out

- Network, Promise and storage plumbing are not modelled.
  - `getJson`, `getImage`, `Promise.all`, `localStorage`, `JSON.parse`/`JSON.stringify` and `Date.now` become parameters: a `Descriptor`, a `getImage` function, a `Storage` value, and `now` and `fetchedAt` for the two clock reads.
  - Network failures are not modelled; the source does not handle them either.
- Asynchronous order is not modelled. The texture images arrive in `then` callbacks. The model registers them in theme order, which is the order of the final registry only when no two textures race for the same key.
- Loaders after a throw are not modelled as running. When `loadTextures` or a later loader throws inside the callback, the rest of the callback does not run and `loadTheme`'s promise never settles. The model returns the fault and stops.
- Floating-point alpha is not modelled. `colorData.a * 100` is taken as an integer percent (`CustomColor.a100`). The text of `alpha / 100` in a declaration is an opaque parameter (`alphaFraction`).
- `requester.js` and the bodies of `RGBAToHexA`, `colorToWakfuColor` and `colorDeclaration` from `utils.js` are not part of this model. They appear as the `HexEncoder` and `DeclarationCodec` parameters.
- The per-colour closures of `addMethodsOfColor` (lines 254-323) are not modelled. They only forward to the singleton's resolvers, so colours are plain records.
- The getters at lines 179-232 are not modelled. They are plain reads of the registries.
- In-place binding is not modelled. `loadPixmaps` and `flattenThemeElement` write `pixmap.image` into the descriptor's own pixmap objects, so a pixmap shared between the two sees both writes. The model binds a fresh copy in each place, and the descriptor keeps no images.
- Key order of a colour's attributes (`for...in`) and of the saved custom colours (`Object.keys`) is taken as the order of the stored sequence.
- The acyclicity preconditions below are global. A `colorUsed` cycle anywhere in the view, or anywhere among the theme colours, is excluded. The source only overflows its stack when the chain it is resolving reaches such a cycle, and handles every other input. The model does not cover inputs that contain a cycle no resolved chain reaches.
- ColorResolver.ChannelOfColor: requires the alias graph of the whole view to be acyclic, as in the first line of this group.
- ColorResolver.AlphaOfColor: requires an acyclic view, as in the first line of this group.
- ColorResolver.HexOfColor: requires an acyclic view, as in the first line of this group.
- ColorResolver.SameAsOriginal: requires acyclic theme colours, as in the first line of this group.
- ColorResolver.AddOverride: requires acyclic theme colours, as in the first line of this group.
- ColorResolver.ApplyCustomColors: requires acyclic theme colours when there are saved entries, as in the first line of this group.
- ColorResolver.ApplyCustomColorsOutcome: requires acyclic theme colours, as in the first line of this group.
- ColorResolver.ApplyCustomColorsSucceeds: requires acyclic theme colours, as in the first line of this group.
- Parser.ThemeParser.AddCustomColor: requires acyclic theme colours, as in the first line of this group.
- Parser.ThemeParser.OverridesResolve: requires acyclic theme colours, as in the first line of this group.
- Parser.ThemeParser.LoadCustomColors: requires acyclic theme colours when there are saved entries, as in the first line of this group.
- Parser.ThemeParser.ResolveTheme: requires the theme's colours to be acyclic when custom colours are saved, as in the first line of this group.
- Parser.ThemeParser.LoadTheme: requires the same of the theme it resolves: of the stored theme when it reads the cache, and of the fetched theme when it goes to the network.
- A descriptor always has its five lists: textures, pixmaps, colors, theme elements and skin parts. The model assumes they are present. A `theme.json` that lacks one makes its loader throw "not iterable" (lines 82, 99, 115, 125, 166), and that throw is not modelled.
- The overrides the parser installs are plain colours with integer components. Values of other JavaScript types in a saved custom colour are not modelled.

## Findings

| source | as written | input that shows it | evidently intended | confidence | as-written member | corrected member |
|---|---|---|---|---|---|---|
| src/core/theme-parser.js:405-413 | `getHexOfColor` returns `null` when red, green or blue is falsy (`!red`), and `0` is falsy | a theme colour `{id: "black", red: 0, green: 0, blue: 0}`: `getHexOfColor("black")` is `null` | `null` only when a component is missing (per the doc comment, "null if color isn't exist"), so black encodes as `RGBAToHexA(0, 0, 0, undefined)` | medium, not executed | ColorResolver.HexOfColor, ColorResolver.BlackHasNoHex | ColorResolver.HexOfColorIntended, ColorResolver.HexIntendedOnResolvedChain |
