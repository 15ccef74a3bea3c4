/**
 * Colour resolution of the theme parser: theme colours (`colors`) may stand
 * for other colours through `colorUsed`, and user overrides (`modified`)
 * replace theme colours unless only the original declarations are asked for.
 * Every function here is a pure function of the two maps.
 */
module ColorResolver {
  import opened Wrappers
  import opened ThemeData

  /** JavaScript truthiness of an optional number: `undefined` and `0` are falsy. */
  predicate TruthyNumber(n: Option<int>)
  {
    n.Some? && n.value != 0
  }

  /** JavaScript truthiness of an optional string: `undefined` and `""` are falsy. */
  predicate TruthyString(s: Option<string>)
  {
    s.Some? && s.value != ""
  }

  /** `color.colorUsed` is truthy: the colour stands for the colour it names. */
  predicate Aliases(c: Color)
  {
    TruthyString(c.colorUsed)
  }

  function Target(c: Color): string
    requires Aliases(c)
  {
    c.colorUsed.value
  }

  /** The colours that `getColor(_, originalOnly)` sees: overrides shadow theme colours unless `originalOnly`. */
  function View(colors: map<string, Color>, modified: map<string, Color>, originalOnly: bool): map<string, Color>
  {
    if originalOnly then colors else colors + modified
  }

  /** `getColor(name, originalOnly)`: the override if there is one and it may be used, else the theme colour. */
  function GetColor(colors: map<string, Color>, modified: map<string, Color>, name: string, originalOnly: bool)
    : (r: Option<Color>)
    ensures r == Lookup(View(colors, modified, originalOnly), name)
    ensures originalOnly || name !in modified ==> r == Lookup(colors, name)
    ensures !originalOnly && name in modified ==> r == Some(modified[name])
  {
    if !originalOnly && name in modified then Some(modified[name]) else Lookup(colors, name)
  }

  /** `rank` decreases along every alias of `view`. */
  ghost predicate Ranked(view: map<string, Color>, rank: string -> nat)
  {
    forall id | id in view && Aliases(view[id]) :: rank(Target(view[id])) < rank(id)
  }

  /**
   * No chain of `colorUsed` references in `view` is cyclic. The source has no
   * guard against cycles (it recurses until the stack overflows), so
   * resolution is only modelled on views where this holds.
   */
  ghost predicate Acyclic(view: map<string, Color>)
  {
    exists rank: string -> nat :: Ranked(view, rank)
  }

  ghost function RankOf(view: map<string, Color>): (rank: string -> nat)
    requires Acyclic(view)
    ensures Ranked(view, rank)
  {
    var rank :| Ranked(view, rank); rank
  }

  /** Every id of `path` but the last is present in `view` and aliases the next id. */
  ghost predicate Links(view: map<string, Color>, path: seq<string>)
  {
    forall i | 0 <= i < |path| - 1 ::
      path[i] in view && Aliases(view[path[i]]) && Target(view[path[i]]) == path[i + 1]
  }

  /** The whole alias chain from `path[0]`, ending at a colour that declares its own components. */
  ghost predicate ResolvedChain(view: map<string, Color>, path: seq<string>)
  {
    |path| > 0 && Links(view, path) && path[|path| - 1] in view && !Aliases(view[path[|path| - 1]])
  }

  /** The alias chain from `path[0]` up to an id that has no colour. */
  ghost predicate BrokenChain(view: map<string, Color>, path: seq<string>)
  {
    |path| > 0 && Links(view, path) && path[|path| - 1] !in view
  }

  lemma LinksTail(view: map<string, Color>, path: seq<string>)
    requires |path| > 0 && Links(view, path)
    ensures Links(view, path[1..])
  {
    forall i | 0 <= i < |path| - 2
      ensures path[1..][i] in view && Aliases(view[path[1..][i]]) && Target(view[path[1..][i]]) == path[1..][i + 1]
    {
      assert path[1..][i] == path[i + 1] && path[1..][i + 1] == path[i + 2];
    }
  }

  /** Every id in an acyclic view starts either a resolved chain or a broken one. */
  lemma {:induction false} ChainFrom(view: map<string, Color>, name: string) returns (path: seq<string>)
    requires Acyclic(view)
    ensures |path| > 0 && path[0] == name
    ensures ResolvedChain(view, path) || BrokenChain(view, path)
    decreases RankOf(view)(name)
  {
    if name in view && Aliases(view[name]) {
      var rest := ChainFrom(view, Target(view[name]));
      path := [name] + rest;
      forall i | 0 <= i < |path| - 1
        ensures path[i] in view && Aliases(view[path[i]]) && Target(view[path[i]]) == path[i + 1]
      {
        if i > 0 {
          assert path[i] == rest[i - 1] && path[i + 1] == rest[i];
        }
      }
      assert path[|path| - 1] == rest[|rest| - 1];
    } else {
      path := [name];
    }
  }

  datatype Channel = Red | Green | Blue

  function Component(c: Color, ch: Channel): Option<int>
  {
    match ch
    case Red => c.red
    case Green => c.green
    case Blue => c.blue
  }

  /**
   * `getRedOfColor` / `getGreenOfColor` / `getBlueOfColor`: follow
   * `colorUsed` while it is truthy, then return the colour's own component.
   * An unknown id throws, since `color.colorUsed` is read before the
   * `color != null` test.
   */
  function ChannelOfColor(colors: map<string, Color>, modified: map<string, Color>, name: string,
                          originalOnly: bool, ch: Channel): (r: Result<Option<int>>)
    requires Acyclic(View(colors, modified, originalOnly))
    ensures r.Err? ==> r.error.UnknownColor? && r.error.id !in View(colors, modified, originalOnly)
    decreases RankOf(View(colors, modified, originalOnly))(name)
  {
    match GetColor(colors, modified, name, originalOnly)
    case None => Err(UnknownColor(name))
    case Some(c) =>
      if Aliases(c) then ChannelOfColor(colors, modified, Target(c), originalOnly, ch)
      else Ok(Component(c, ch))
  }

  /**
   * `getAlphaOfColor`: like the components, but an aliasing colour whose own
   * alpha is truthy answers with that alpha instead of following the alias.
   */
  function AlphaOfColor(colors: map<string, Color>, modified: map<string, Color>, name: string,
                        originalOnly: bool): (r: Result<Option<int>>)
    requires Acyclic(View(colors, modified, originalOnly))
    ensures r.Err? ==> r.error.UnknownColor? && r.error.id !in View(colors, modified, originalOnly)
    decreases RankOf(View(colors, modified, originalOnly))(name)
  {
    match GetColor(colors, modified, name, originalOnly)
    case None => Err(UnknownColor(name))
    case Some(c) =>
      if Aliases(c) && !TruthyNumber(c.alpha) then AlphaOfColor(colors, modified, Target(c), originalOnly)
      else Ok(c.alpha)
  }

  /**
   * The three components and the alpha walk the same alias chain, so they
   * all throw or all resolve; alpha may stop earlier, but never throws when
   * red resolves.
   */
  lemma {:induction false} ResolvesAlike(colors: map<string, Color>, modified: map<string, Color>, name: string,
                                        originalOnly: bool)
    requires Acyclic(View(colors, modified, originalOnly))
    ensures ChannelOfColor(colors, modified, name, originalOnly, Green).Ok?
            == ChannelOfColor(colors, modified, name, originalOnly, Red).Ok?
    ensures ChannelOfColor(colors, modified, name, originalOnly, Blue).Ok?
            == ChannelOfColor(colors, modified, name, originalOnly, Red).Ok?
    ensures ChannelOfColor(colors, modified, name, originalOnly, Red).Ok?
            ==> AlphaOfColor(colors, modified, name, originalOnly).Ok?
    decreases RankOf(View(colors, modified, originalOnly))(name)
  {
    var view := View(colors, modified, originalOnly);
    if name in view && Aliases(view[name]) {
      ResolvesAlike(colors, modified, Target(view[name]), originalOnly);
    }
  }

  /** A resolution that answers with a truthy number: not a throw, not `undefined`, not 0. */
  predicate TruthyAnswer(res: Result<Option<int>>)
  {
    res.Ok? && TruthyNumber(res.value)
  }

  /** A resolution that answers with a number, 0 included. */
  predicate NumberAnswer(res: Result<Option<int>>)
  {
    res.Ok? && res.value.Some?
  }

  /** A component resolves to the component of the colour its alias chain ends at. */
  lemma {:induction false} ChannelOnResolvedChain(colors: map<string, Color>, modified: map<string, Color>,
                                                 originalOnly: bool, path: seq<string>, ch: Channel)
    requires Acyclic(View(colors, modified, originalOnly))
    requires ResolvedChain(View(colors, modified, originalOnly), path)
    ensures ChannelOfColor(colors, modified, path[0], originalOnly, ch)
         == Ok(Component(View(colors, modified, originalOnly)[path[|path| - 1]], ch))
    decreases |path|
  {
    if |path| > 1 {
      LinksTail(View(colors, modified, originalOnly), path);
      ChannelOnResolvedChain(colors, modified, originalOnly, path[1..], ch);
    }
  }

  /** A component of a colour whose alias chain breaks throws for the missing id. */
  lemma {:induction false} ChannelOnBrokenChain(colors: map<string, Color>, modified: map<string, Color>,
                                               originalOnly: bool, path: seq<string>, ch: Channel)
    requires Acyclic(View(colors, modified, originalOnly))
    requires BrokenChain(View(colors, modified, originalOnly), path)
    ensures ChannelOfColor(colors, modified, path[0], originalOnly, ch) == Err(UnknownColor(path[|path| - 1]))
    decreases |path|
  {
    if |path| > 1 {
      LinksTail(View(colors, modified, originalOnly), path);
      ChannelOnBrokenChain(colors, modified, originalOnly, path[1..], ch);
    }
  }

  /**
   * Alpha resolves to the alpha of the first colour on the chain whose alpha
   * is truthy, or, when there is none, of the colour the chain ends at.
   */
  lemma {:induction false} AlphaOnChain(colors: map<string, Color>, modified: map<string, Color>,
                                       originalOnly: bool, path: seq<string>, k: nat)
    requires Acyclic(View(colors, modified, originalOnly))
    requires Links(View(colors, modified, originalOnly), path)
    requires k < |path| && path[k] in View(colors, modified, originalOnly)
    requires forall j | 0 <= j < k :: !TruthyNumber(View(colors, modified, originalOnly)[path[j]].alpha)
    requires TruthyNumber(View(colors, modified, originalOnly)[path[k]].alpha)
          || !Aliases(View(colors, modified, originalOnly)[path[k]])
    ensures AlphaOfColor(colors, modified, path[0], originalOnly) == Ok(View(colors, modified, originalOnly)[path[k]].alpha)
    decreases k
  {
    if k > 0 {
      var view := View(colors, modified, originalOnly);
      LinksTail(view, path);
      forall j | 0 <= j < k - 1 ensures !TruthyNumber(view[path[1..][j]].alpha) {
        assert path[1..][j] == path[j + 1];
      }
      AlphaOnChain(colors, modified, originalOnly, path[1..], k - 1);
    }
  }

  /** With no truthy alpha before the break, alpha throws for the missing id too. */
  lemma {:induction false} AlphaOnBrokenChain(colors: map<string, Color>, modified: map<string, Color>,
                                             originalOnly: bool, path: seq<string>)
    requires Acyclic(View(colors, modified, originalOnly))
    requires BrokenChain(View(colors, modified, originalOnly), path)
    requires forall j | 0 <= j < |path| - 1 :: !TruthyNumber(View(colors, modified, originalOnly)[path[j]].alpha)
    ensures AlphaOfColor(colors, modified, path[0], originalOnly) == Err(UnknownColor(path[|path| - 1]))
    decreases |path|
  {
    if |path| > 1 {
      var view := View(colors, modified, originalOnly);
      LinksTail(view, path);
      forall j | 0 <= j < |path| - 2 ensures !TruthyNumber(view[path[1..][j]].alpha) {
        assert path[1..][j] == path[j + 1];
      }
      AlphaOnBrokenChain(colors, modified, originalOnly, path[1..]);
    }
  }

  /** The imported `RGBAToHexA(red, green, blue, alpha)`, whose body is not part of this model. */
  type HexEncoder = (int, int, int, Option<int>) -> string

  /**
   * `getHexOfColor`: `null` (here `Ok(None)`) as soon as red, green or blue
   * resolves to a falsy value, absent or 0; otherwise the encoder applied to
   * the three components and the alpha, which may be absent.
   */
  function HexOfColor(colors: map<string, Color>, modified: map<string, Color>, name: string,
                      originalOnly: bool, rgbaToHex: HexEncoder): (r: Result<Option<string>>)
    requires Acyclic(View(colors, modified, originalOnly))
    ensures ChannelOfColor(colors, modified, name, originalOnly, Red).Err? ==> r.Err?
    ensures r.Ok? ==> (r.value.Some? <==>
                         && TruthyAnswer(ChannelOfColor(colors, modified, name, originalOnly, Red))
                         && TruthyAnswer(ChannelOfColor(colors, modified, name, originalOnly, Green))
                         && TruthyAnswer(ChannelOfColor(colors, modified, name, originalOnly, Blue)))
  {
    var red :- ChannelOfColor(colors, modified, name, originalOnly, Red);
    if !TruthyNumber(red) then Ok(None) else
    var green :- ChannelOfColor(colors, modified, name, originalOnly, Green);
    if !TruthyNumber(green) then Ok(None) else
    var blue :- ChannelOfColor(colors, modified, name, originalOnly, Blue);
    if !TruthyNumber(blue) then Ok(None) else
    var alpha :- AlphaOfColor(colors, modified, name, originalOnly);
    Ok(Some(rgbaToHex(red.value, green.value, blue.value, alpha)))
  }

  /**
   * On a resolved chain that ends at colour `c`, the hex is `null` exactly
   * when one of `c`'s components is falsy, and otherwise encodes `c`'s
   * components with the alpha `AlphaOnChain` finds.
   */
  lemma {:induction false} HexOnResolvedChain(colors: map<string, Color>, modified: map<string, Color>,
                                             originalOnly: bool, path: seq<string>, k: nat, rgbaToHex: HexEncoder)
    requires Acyclic(View(colors, modified, originalOnly))
    requires ResolvedChain(View(colors, modified, originalOnly), path)
    requires k < |path|
    requires forall j | 0 <= j < k :: !TruthyNumber(View(colors, modified, originalOnly)[path[j]].alpha)
    requires TruthyNumber(View(colors, modified, originalOnly)[path[k]].alpha) || k == |path| - 1
    ensures var c := View(colors, modified, originalOnly)[path[|path| - 1]];
            HexOfColor(colors, modified, path[0], originalOnly, rgbaToHex)
            == if TruthyNumber(c.red) && TruthyNumber(c.green) && TruthyNumber(c.blue)
               then Ok(Some(rgbaToHex(c.red.value, c.green.value, c.blue.value,
                                      View(colors, modified, originalOnly)[path[k]].alpha)))
               else Ok(None)
  {
    ChannelOnResolvedChain(colors, modified, originalOnly, path, Red);
    ChannelOnResolvedChain(colors, modified, originalOnly, path, Green);
    ChannelOnResolvedChain(colors, modified, originalOnly, path, Blue);
    AlphaOnChain(colors, modified, originalOnly, path, k);
  }

  /** On a broken chain the hex throws for the missing id: red is resolved first. */
  lemma {:induction false} HexOnBrokenChain(colors: map<string, Color>, modified: map<string, Color>,
                                           originalOnly: bool, path: seq<string>, rgbaToHex: HexEncoder)
    requires Acyclic(View(colors, modified, originalOnly))
    requires BrokenChain(View(colors, modified, originalOnly), path)
    ensures HexOfColor(colors, modified, path[0], originalOnly, rgbaToHex) == Err(UnknownColor(path[|path| - 1]))
  {
    ChannelOnBrokenChain(colors, modified, originalOnly, path, Red);
  }

  /**
   * `getHexOfColor` as its doc comment (`null if color isn't exist`, line
   * 403) intends it: `null` only when a component is missing, so that a zero
   * component (black, pure blue, ...) still has a hex.
   */
  function HexOfColorIntended(colors: map<string, Color>, modified: map<string, Color>, name: string,
                              originalOnly: bool, rgbaToHex: HexEncoder): (r: Result<Option<string>>)
    requires Acyclic(View(colors, modified, originalOnly))
    ensures ChannelOfColor(colors, modified, name, originalOnly, Red).Err? ==> r.Err?
    ensures r.Ok? ==> (r.value.Some? <==>
                         && NumberAnswer(ChannelOfColor(colors, modified, name, originalOnly, Red))
                         && NumberAnswer(ChannelOfColor(colors, modified, name, originalOnly, Green))
                         && NumberAnswer(ChannelOfColor(colors, modified, name, originalOnly, Blue)))
  {
    var red :- ChannelOfColor(colors, modified, name, originalOnly, Red);
    if red.None? then Ok(None) else
    var green :- ChannelOfColor(colors, modified, name, originalOnly, Green);
    if green.None? then Ok(None) else
    var blue :- ChannelOfColor(colors, modified, name, originalOnly, Blue);
    if blue.None? then Ok(None) else
    var alpha :- AlphaOfColor(colors, modified, name, originalOnly);
    Ok(Some(rgbaToHex(red.value, green.value, blue.value, alpha)))
  }

  /** The intended hex is `null` exactly when the colour the chain ends at lacks a component. */
  lemma {:induction false} HexIntendedOnResolvedChain(colors: map<string, Color>, modified: map<string, Color>,
                                                     originalOnly: bool, path: seq<string>, k: nat,
                                                     rgbaToHex: HexEncoder)
    requires Acyclic(View(colors, modified, originalOnly))
    requires ResolvedChain(View(colors, modified, originalOnly), path)
    requires k < |path|
    requires forall j | 0 <= j < k :: !TruthyNumber(View(colors, modified, originalOnly)[path[j]].alpha)
    requires TruthyNumber(View(colors, modified, originalOnly)[path[k]].alpha) || k == |path| - 1
    ensures var c := View(colors, modified, originalOnly)[path[|path| - 1]];
            HexOfColorIntended(colors, modified, path[0], originalOnly, rgbaToHex)
            == if c.red.Some? && c.green.Some? && c.blue.Some?
               then Ok(Some(rgbaToHex(c.red.value, c.green.value, c.blue.value,
                                      View(colors, modified, originalOnly)[path[k]].alpha)))
               else Ok(None)
  {
    ChannelOnResolvedChain(colors, modified, originalOnly, path, Red);
    ChannelOnResolvedChain(colors, modified, originalOnly, path, Green);
    ChannelOnResolvedChain(colors, modified, originalOnly, path, Blue);
    AlphaOnChain(colors, modified, originalOnly, path, k);
  }

  /** Both hex functions throw exactly when red does: the other components and alpha walk red's chain. */
  lemma HexThrowsWithRed(colors: map<string, Color>, modified: map<string, Color>, name: string,
                         originalOnly: bool, rgbaToHex: HexEncoder)
    requires Acyclic(View(colors, modified, originalOnly))
    ensures HexOfColor(colors, modified, name, originalOnly, rgbaToHex).Ok?
            <==> ChannelOfColor(colors, modified, name, originalOnly, Red).Ok?
    ensures HexOfColorIntended(colors, modified, name, originalOnly, rgbaToHex).Ok?
            <==> ChannelOfColor(colors, modified, name, originalOnly, Red).Ok?
  {
    ResolvesAlike(colors, modified, name, originalOnly);
  }

  /** Black: the source's hex is `null`, the intended one encodes (0, 0, 0). */
  lemma BlackHasNoHex(rgbaToHex: HexEncoder)
    ensures var black := Color("black", Some(0), Some(0), Some(0), None, None, map[]);
            var colors := map["black" := black];
            Acyclic(colors)
            && HexOfColor(colors, map[], "black", true, rgbaToHex) == Ok(None)
            && HexOfColorIntended(colors, map[], "black", true, rgbaToHex) == Ok(Some(rgbaToHex(0, 0, 0, None)))
  {
    var black := Color("black", Some(0), Some(0), Some(0), None, None, map[]);
    var colors := map["black" := black];
    var rank: string -> nat := _ => 0;
    assert Ranked(colors, rank);
    ResolvedBlack(colors, black, rgbaToHex);
  }

  lemma ResolvedBlack(colors: map<string, Color>, black: Color, rgbaToHex: HexEncoder)
    requires black == Color("black", Some(0), Some(0), Some(0), None, None, map[])
    requires colors == map["black" := black] && Acyclic(colors)
    ensures HexOfColor(colors, map[], "black", true, rgbaToHex) == Ok(None)
    ensures HexOfColorIntended(colors, map[], "black", true, rgbaToHex) == Ok(Some(rgbaToHex(0, 0, 0, None)))
  {
    assert ResolvedChain(View(colors, map[], true), ["black"]);
    ChannelOnResolvedChain(colors, map[], true, ["black"], Red);
    ChannelOnResolvedChain(colors, map[], true, ["black"], Green);
    ChannelOnResolvedChain(colors, map[], true, ["black"], Blue);
    AlphaOnChain(colors, map[], true, ["black"], 0);
  }

  /** The imported text helpers `getColorDeclaration` uses; their bodies are not part of this model. */
  datatype DeclarationCodec = DeclarationCodec(
    colorToWakfuColor: (Option<int>, Option<int>, Option<int>, Option<int>, bool) -> string,
    colorDeclaration: (string, string) -> string,
    alphaFraction: int -> string)   // the text of `alpha / 100`

  /** The colour code of an alias: the aliased id, suffixed by `@` and the alpha fraction for a truthy alpha other than 100. */
  function AliasCode(c: Color, alphaFraction: int -> string): (code: string)
    requires Aliases(c)
    ensures TruthyNumber(c.alpha) && c.alpha.value != 100 ==> code == c.colorUsed.value + "@" + alphaFraction(c.alpha.value)
    ensures !TruthyNumber(c.alpha) || c.alpha.value == 100 ==> code == c.colorUsed.value
  {
    Target(c) + (if TruthyNumber(c.alpha) && c.alpha.value != 100 then "@" + alphaFraction(c.alpha.value) else "")
  }

  /**
   * `getColorDeclaration`: an aliasing colour is declared by reference to
   * the id it aliases, never by the chain's components; any other colour by
   * its own components. The code asks `getRedOfColor(name)` and its siblings
   * for those, which look up the same colour and, since it does not alias,
   * answer with its own fields without following any link.
   */
  function ColorDeclaration(colors: map<string, Color>, modified: map<string, Color>, name: string,
                            useHex: bool, originalOnly: bool, codec: DeclarationCodec): (r: Result<string>)
    ensures name !in View(colors, modified, originalOnly) ==> r == Err(UnknownColor(name))
    ensures name in View(colors, modified, originalOnly) ==> r.Ok?
    ensures name in View(colors, modified, originalOnly) && !Aliases(View(colors, modified, originalOnly)[name]) ==>
              var c := View(colors, modified, originalOnly)[name];
              r.value == codec.colorDeclaration(name, codec.colorToWakfuColor(c.red, c.green, c.blue, c.alpha, useHex))
    ensures name in View(colors, modified, originalOnly) && Aliases(View(colors, modified, originalOnly)[name]) ==>
              r.value == codec.colorDeclaration(name, AliasCode(View(colors, modified, originalOnly)[name], codec.alphaFraction))
  {
    match GetColor(colors, modified, name, originalOnly)
    case None => Err(UnknownColor(name))
    case Some(c) =>
      if Aliases(c) then Ok(codec.colorDeclaration(name, AliasCode(c, codec.alphaFraction)))
      else Ok(codec.colorDeclaration(name, codec.colorToWakfuColor(c.red, c.green, c.blue, c.alpha, useHex)))
  }

  /**
   * The components `getColorDeclaration` reads for a colour that does not
   * alias are what the resolvers answer for it: none of them throws, and
   * each returns the colour's own field.
   */
  lemma DeclarationReadsResolvers(colors: map<string, Color>, modified: map<string, Color>, name: string,
                                  originalOnly: bool)
    requires Acyclic(View(colors, modified, originalOnly))
    requires name in View(colors, modified, originalOnly) && !Aliases(View(colors, modified, originalOnly)[name])
    ensures var c := View(colors, modified, originalOnly)[name];
            && ChannelOfColor(colors, modified, name, originalOnly, Red) == Ok(c.red)
            && ChannelOfColor(colors, modified, name, originalOnly, Green) == Ok(c.green)
            && ChannelOfColor(colors, modified, name, originalOnly, Blue) == Ok(c.blue)
            && AlphaOfColor(colors, modified, name, originalOnly) == Ok(c.alpha)
  {
  }

  /** Every override is concrete: none of them aliases another colour. */
  ghost predicate OverridesConcrete(modified: map<string, Color>)
  {
    forall k | k in modified :: !Aliases(modified[k])
  }

  /** Concrete overrides cannot close a cycle: the override view is acyclic when the theme colours are. */
  lemma OverlayAcyclic(colors: map<string, Color>, modified: map<string, Color>)
    requires Acyclic(colors) && OverridesConcrete(modified)
    ensures Acyclic(View(colors, modified, false))
  {
    var rank := RankOf(colors);
    var view := View(colors, modified, false);
    forall id | id in view && Aliases(view[id]) ensures rank(Target(view[id])) < rank(id) {
      assert id !in modified && view[id] == colors[id];
    }
    assert Ranked(view, rank);
  }

  /** Resolution with `originalOnly` never reads the overrides. */
  lemma {:induction false} OriginalIgnoresOverrides(colors: map<string, Color>, m1: map<string, Color>,
                                                   m2: map<string, Color>, name: string)
    requires Acyclic(colors)
    ensures forall ch :: ChannelOfColor(colors, m1, name, true, ch) == ChannelOfColor(colors, m2, name, true, ch)
    ensures AlphaOfColor(colors, m1, name, true) == AlphaOfColor(colors, m2, name, true)
    decreases RankOf(colors)(name)
  {
    if name in colors && Aliases(colors[name]) {
      OriginalIgnoresOverrides(colors, m1, m2, Target(colors[name]));
    }
  }

  /** The keys `addCustomColor` does not copy from the original colour into an override. */
  const NonCopiedKeys: set<string> := {
    "red", "green", "blue", "alpha",
    "resolveRed", "resolveGreen", "resolveBlue", "resolveAlpha",
    "resolveHex", "resolveColorDeclaration", "colorUsed", "hasCustomColor"}

  /** The override `addCustomColor` builds: the given components, the original's other keys, no `colorUsed`. */
  function OverrideOf(c: Color, data: CustomColor): (o: Color)
    ensures !Aliases(o) && o.id == c.id
    ensures o.red == Some(data.r) && o.green == Some(data.g) && o.blue == Some(data.b) && o.alpha == Some(data.a100)
    ensures o.attrs.Keys == c.attrs.Keys - NonCopiedKeys
    ensures forall k | k in o.attrs :: o.attrs[k] == c.attrs[k]
  {
    Color(c.id, Some(data.r), Some(data.g), Some(data.b), Some(data.a100), None, c.attrs - NonCopiedKeys)
  }

  /**
   * The test of `addCustomColor`: do the original-only red, green, blue and
   * alpha of `id` equal the given values? The comparisons short-circuit, so a
   * later resolution that would throw is not reached after a mismatch.
   */
  function SameAsOriginal(colors: map<string, Color>, modified: map<string, Color>, id: string,
                          data: CustomColor): (r: Result<bool>)
    requires Acyclic(colors)
    ensures r == Ok(true) <==>
              && ChannelOfColor(colors, modified, id, true, Red) == Ok(Some(data.r))
              && ChannelOfColor(colors, modified, id, true, Green) == Ok(Some(data.g))
              && ChannelOfColor(colors, modified, id, true, Blue) == Ok(Some(data.b))
              && AlphaOfColor(colors, modified, id, true) == Ok(Some(data.a100))
    ensures AlphaOfColor(colors, modified, id, true) == Ok(None) ==> r != Ok(true)
    ensures ChannelOfColor(colors, modified, id, true, Red).Err? ==> r.Err?
    ensures r.Err? ==> r.error.UnknownColor?
  {
    var red :- ChannelOfColor(colors, modified, id, true, Red);
    if red != Some(data.r) then Ok(false) else
    var green :- ChannelOfColor(colors, modified, id, true, Green);
    if green != Some(data.g) then Ok(false) else
    var blue :- ChannelOfColor(colors, modified, id, true, Blue);
    if blue != Some(data.b) then Ok(false) else
    var alpha :- AlphaOfColor(colors, modified, id, true);
    Ok(alpha == Some(data.a100))
  }

  /**
   * The test throws exactly when the original alias chain of `id` breaks:
   * all four resolutions walk that one chain.
   */
  lemma SameAsOriginalThrows(colors: map<string, Color>, modified: map<string, Color>, id: string,
                             data: CustomColor)
    requires Acyclic(colors)
    ensures SameAsOriginal(colors, modified, id, data).Ok? <==> ChannelOfColor(colors, modified, id, true, Red).Ok?
  {
    ResolvesAlike(colors, modified, id, true);
  }

  /**
   * What `addCustomColor(name, data)` does to the overrides, and the colour
   * it returns: the original colour after dropping a now redundant override,
   * or the new override.
   */
  function AddOverride(colors: map<string, Color>, modified: map<string, Color>, name: string,
                       data: CustomColor): (r: Result<(map<string, Color>, Color)>)
    requires Acyclic(colors)
    ensures name !in colors ==> r == Err(UnknownColor(name))
    ensures r.Err? ==> r.error.UnknownColor?
    ensures name in colors ==> (r.Ok? <==> ChannelOfColor(colors, modified, colors[name].id, true, Red).Ok?)
    ensures r.Ok? ==> forall k | k != name :: Lookup(r.value.0, k) == Lookup(modified, k)
    ensures r.Ok? ==> (name !in r.value.0 <==> SameAsOriginal(colors, modified, colors[name].id, data) == Ok(true))
    ensures r.Ok? && name !in r.value.0 ==> r.value.1 == colors[name]
    ensures r.Ok? && name in r.value.0 ==> r.value.1 == r.value.0[name] == OverrideOf(colors[name], data)
  {
    match Lookup(colors, name)
    case None => Err(UnknownColor(name))
    case Some(c) =>
      SameAsOriginalThrows(colors, modified, c.id, data);
      var same :- SameAsOriginal(colors, modified, c.id, data);
      if same then Ok((modified - {name}, c))
      else
        var o := OverrideOf(c, data);
        Ok((modified[name := o], o))
  }

  /**
   * Override precedence: once an override is installed, the resolution that
   * may use overrides returns its components, and the original-only
   * resolution is what it was before.
   */
  lemma OverridePrecedence(colors: map<string, Color>, modified: map<string, Color>, name: string,
                           data: CustomColor)
    requires Acyclic(colors) && OverridesConcrete(modified)
    requires AddOverride(colors, modified, name, data).Ok?
    requires name in AddOverride(colors, modified, name, data).value.0
    ensures var m := AddOverride(colors, modified, name, data).value.0;
            Acyclic(View(colors, m, false))
    ensures var m := AddOverride(colors, modified, name, data).value.0;
            && ChannelOfColor(colors, m, name, false, Red) == Ok(Some(data.r))
            && ChannelOfColor(colors, m, name, false, Green) == Ok(Some(data.g))
            && ChannelOfColor(colors, m, name, false, Blue) == Ok(Some(data.b))
            && AlphaOfColor(colors, m, name, false) == Ok(Some(data.a100))
    ensures var m := AddOverride(colors, modified, name, data).value.0;
            && (forall ch :: ChannelOfColor(colors, m, name, true, ch) == ChannelOfColor(colors, modified, name, true, ch))
            && AlphaOfColor(colors, m, name, true) == AlphaOfColor(colors, modified, name, true)
  {
    var m := AddOverride(colors, modified, name, data).value.0;
    assert OverridesConcrete(m) by {
      forall k | k in m ensures !Aliases(m[k]) {
        if k != name { assert Lookup(m, k) == Lookup(modified, k); }
      }
    }
    OverlayAcyclic(colors, m);
    OriginalIgnoresOverrides(colors, m, modified, name);
  }

  /** `loadCustomColors`: `addCustomColor` for every stored entry in order, stopping at the first that throws. */
  function ApplyCustomColors(colors: map<string, Color>, modified: map<string, Color>,
                             entries: seq<(string, CustomColor)>): (r: (map<string, Color>, Option<Fault>))
    requires entries == [] || Acyclic(colors)
    ensures r.1.Some? ==> r.1.value.UnknownColor?
    ensures r.1.None? ==> forall j | 0 <= j < |entries| :: entries[j].0 in colors
    decreases |entries|
  {
    if entries == [] then (modified, None)
    else
      match AddOverride(colors, modified, entries[0].0, entries[0].1)
      case Err(e) => (modified, Some(e))
      case Ok(res) => ApplyCustomColors(colors, res.0, entries[1..])
  }

  /** Loading stored custom colours keeps every override concrete and touches no colour it does not name. */
  lemma {:induction false} ApplyCustomColorsFrame(colors: map<string, Color>, modified: map<string, Color>,
                                                 entries: seq<(string, CustomColor)>)
    requires entries == [] || Acyclic(colors)
    requires OverridesConcrete(modified)
    ensures OverridesConcrete(ApplyCustomColors(colors, modified, entries).0)
    ensures forall k | forall j | 0 <= j < |entries| :: entries[j].0 != k ::
              Lookup(ApplyCustomColors(colors, modified, entries).0, k) == Lookup(modified, k)
    decreases |entries|
  {
    if entries != [] {
      var step := AddOverride(colors, modified, entries[0].0, entries[0].1);
      if step.Ok? {
        var m := step.value.0;
        assert OverridesConcrete(m) by {
          forall k | k in m ensures !Aliases(m[k]) {
            if k != entries[0].0 { assert Lookup(m, k) == Lookup(modified, k); }
          }
        }
        ApplyCustomColorsFrame(colors, m, entries[1..]);
      }
      forall k | forall j | 0 <= j < |entries| :: entries[j].0 != k
        ensures Lookup(ApplyCustomColors(colors, modified, entries).0, k) == Lookup(modified, k)
      {
        ApplyCustomColorsUntouched(colors, modified, entries, k);
      }
    }
  }

  /**
   * A load of saved custom colours throws exactly when some entry names no
   * theme colour, or names one whose original alias chain breaks.
   */
  lemma {:induction false} ApplyCustomColorsSucceeds(colors: map<string, Color>, modified: map<string, Color>,
                                                    entries: seq<(string, CustomColor)>)
    requires Acyclic(colors)
    ensures ApplyCustomColors(colors, modified, entries).1.None? <==>
              forall j | 0 <= j < |entries| ::
                entries[j].0 in colors && ChannelOfColor(colors, map[], colors[entries[j].0].id, true, Red).Ok?
    decreases |entries|
  {
    if entries != [] {
      var k := entries[0].0;
      if k in colors {
        OriginalIgnoresOverrides(colors, modified, map[], colors[k].id);
      }
      var step := AddOverride(colors, modified, k, entries[0].1);
      if step.Ok? {
        ApplyCustomColorsSucceeds(colors, step.value.0, entries[1..]);
        assert forall j | 1 <= j < |entries| :: entries[j] == entries[1..][j - 1];
      }
    }
  }

  /** A name no stored entry mentions keeps its override, or its lack of one. */
  lemma {:induction false} ApplyCustomColorsUntouched(colors: map<string, Color>, modified: map<string, Color>,
                                                     entries: seq<(string, CustomColor)>, k: string)
    requires entries == [] || Acyclic(colors)
    requires forall j | 0 <= j < |entries| :: entries[j].0 != k
    ensures Lookup(ApplyCustomColors(colors, modified, entries).0, k) == Lookup(modified, k)
    decreases |entries|
  {
    if entries != [] {
      var step := AddOverride(colors, modified, entries[0].0, entries[0].1);
      if step.Ok? {
        assert entries[0].0 != k;
        forall j | 0 <= j < |entries[1..]| ensures entries[1..][j].0 != k {
          assert entries[1..][j] == entries[j + 1];
        }
        ApplyCustomColorsUntouched(colors, step.value.0, entries[1..], k);
      }
    }
  }

  /** The original-only test does not depend on which overrides are installed. */
  lemma SameAsOriginalIgnoresOverrides(colors: map<string, Color>, m1: map<string, Color>, m2: map<string, Color>,
                                       id: string, data: CustomColor)
    requires Acyclic(colors)
    ensures SameAsOriginal(colors, m1, id, data) == SameAsOriginal(colors, m2, id, data)
  {
    OriginalIgnoresOverrides(colors, m1, m2, id);
  }

  /**
   * The outcome of a load that does not throw, for a saved name: the last
   * entry naming it decides. If its values equal the name's original
   * components, the name ends with no override; otherwise its override is
   * built from that entry.
   */
  lemma {:induction false} ApplyCustomColorsOutcome(colors: map<string, Color>, modified: map<string, Color>,
                                                   entries: seq<(string, CustomColor)>, j: int)
    requires Acyclic(colors)
    requires 0 <= j < |entries|
    requires forall i | j < i < |entries| :: entries[i].0 != entries[j].0
    requires ApplyCustomColors(colors, modified, entries).1.None?
    ensures entries[j].0 in colors
    ensures var k := entries[j].0;
            var m := ApplyCustomColors(colors, modified, entries).0;
            if SameAsOriginal(colors, modified, colors[k].id, entries[j].1) == Ok(true) then k !in m
            else k in m && m[k] == OverrideOf(colors[k], entries[j].1)
    decreases |entries|
  {
    var step := AddOverride(colors, modified, entries[0].0, entries[0].1);
    var m := step.value.0;
    if j == 0 {
      forall i | 0 <= i < |entries[1..]| ensures entries[1..][i].0 != entries[0].0 {
        assert entries[1..][i] == entries[i + 1];
      }
      ApplyCustomColorsUntouched(colors, m, entries[1..], entries[0].0);
    } else {
      forall i | j - 1 < i < |entries[1..]| ensures entries[1..][i].0 != entries[1..][j - 1].0 {
        assert entries[1..][i] == entries[i + 1];
      }
      ApplyCustomColorsOutcome(colors, m, entries[1..], j - 1);
      SameAsOriginalIgnoresOverrides(colors, m, modified, colors[entries[j].0].id, entries[j].1);
    }
  }
}
