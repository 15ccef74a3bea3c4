/**
 * The records of a theme descriptor (`theme.json`) as the parser sees them.
 * Every JSON key the parser does not read is kept, with an opaque value, in
 * an `attrs` map so that copies and overrides can be seen to carry it over.
 */
module ThemeData {
  import opened Wrappers

  /** An opaque handle to a decoded image, as `getImage` resolves it. */
  datatype Image = Image(handle: nat)

  /** The JSON keys of a record that the parser copies but never interprets. */
  type Attributes = map<string, string>

  datatype Texture = Texture(id: string, path: string)

  /** A pixmap; `image` is the non-persisted field the parser binds on load. */
  datatype Pixmap = Pixmap(id: string, texture: string, attrs: Attributes, image: Option<Image>)

  /**
   * A colour: either it declares its components or `colorUsed` names the
   * colour it stands for. Absent keys are `None`; alpha is a percentage.
   */
  datatype Color = Color(
    id: string,
    red: Option<int>,
    green: Option<int>,
    blue: Option<int>,
    alpha: Option<int>,
    colorUsed: Option<string>,
    attrs: Attributes)

  /** A node of a theme element tree; both lists may be absent from the JSON. */
  datatype Element = Element(
    id: string,
    attrs: Attributes,
    specificPixmaps: Option<seq<Pixmap>>,
    childrenThemeElements: ElementList)

  /** The optional `childrenThemeElements` list, as its own datatype so that a child is seen to be smaller than its parent. */
  datatype ElementList = Absent | Present(elements: seq<Element>)

  /** The record kept for a root element: a copy of the root plus the collected `pixmaps`. */
  datatype FlatElement = FlatElement(element: Element, pixmaps: seq<Pixmap>)

  datatype RawSkinPart = RawSkinPart(path: string, attrs: Attributes)

  /** A registered skin part, with the `id` and `assetUrl` derived from its path. */
  datatype SkinPart = SkinPart(id: string, path: string, assetUrl: string, attrs: Attributes)

  /** The parsed `theme.json`. */
  datatype Descriptor = Descriptor(
    textures: seq<Texture>,
    pixmaps: seq<Pixmap>,
    colors: seq<Color>,
    themeElement: seq<Element>,
    appSkinParts: seq<RawSkinPart>)

  /** A stored custom colour: `r`, `g`, `b` as given, `a100` the alpha already scaled to a percentage. */
  datatype CustomColor = CustomColor(r: int, g: int, b: int, a100: int)

  /** `pixmap.image = textures.get(pixmap.texture)`. */
  function BindImage(textures: map<string, Image>, p: Pixmap): Pixmap
  {
    p.(image := Lookup(textures, p.texture))
  }
}
