/**
  The style sheet of the theme engine (public/theme-engine.js, `generateThemeCSS`): a fixed
  list of rule blocks whose values come from a theme's colours and header font, rendered in the
  layout of the template.
*/
module ThemeSheet {
  import opened Wrappers
  import opened JsStrings

  /** The colour properties the template reads; any of them may be missing. */
  datatype ThemeColors = ThemeColors(bodyBg: Option<string>, background: Option<string>,
                                     headerText: Option<string>, decorHeader: Option<string>,
                                     sticker: Option<string>, accent: Option<string>)

  /** A theme entry of `themes.json`; `colors` and `fonts.header` may be missing. */
  datatype ThemeEntry = ThemeEntry(name: Option<string>, description: Option<string>,
                                   colors: Option<ThemeColors>, headerFont: Option<string>)

  datatype Decl = Decl(property: string, value: string)

  datatype Block = Block(selector: string, decls: seq<Decl>)

  /** Each declaration on its own line, indented by six. */
  function RenderDecls(ds: seq<Decl>): string {
    if ds == [] then []
    else "\n      " + ds[0].property + ": " + ds[0].value + ";" + RenderDecls(ds[1..])
  }

  /** A block: the selector on a line indented by four, the declarations, the closing brace. */
  function RenderBlock(b: Block): string {
    "\n    " + b.selector + " {" + RenderDecls(b.decls) + "\n    }"
  }

  function RenderBlocks(bs: seq<Block>): string {
    if bs == [] then [] else RenderBlock(bs[0]) + RenderBlocks(bs[1..])
  }

  /** The blocks, followed by the template's last line break and indentation. */
  function RenderSheet(bs: seq<Block>): (r: string)
    ensures r != []
  {
    RenderBlocks(bs) + "\n  "
  }

  const DefaultHeaderFont := "'Pacifico', cursive"

  /** The rule blocks of the template, in its order. A missing colour is written as
      `undefined`, except the page background, which falls back to white. */
  function ThemeBlocks(c: ThemeColors, headerFont: Option<string>): seq<Block> {
    [ Block("body", [Decl("background", OrElse(c.bodyBg, "#fff"))]),
      Block(".note-page", [Decl("background", Interpolate(c.background))]),
      Block(".note-header", [Decl("color", Interpolate(c.headerText)),
                             Decl("font-family", OrElse(headerFont, DefaultHeaderFont))]),
      Block(".decor-header", [Decl("color", Interpolate(c.decorHeader))]),
      Block(".sub-header", [Decl("color", Interpolate(c.decorHeader))]),
      Block(".sticker", [Decl("background", Interpolate(c.sticker))]),
      Block(".btn-primary", [Decl("background", Interpolate(c.accent))]),
      Block(".btn-primary:hover", [Decl("background", Interpolate(c.decorHeader))]),
      Block(".section-block", [Decl("background", Interpolate(c.background) + "22")]) ]
  }

  /** `generateThemeCSS(theme)`: nothing without a theme or without colours. */
  function GenerateThemeCss(theme: Option<ThemeEntry>): (r: string)
    ensures r == [] <==> theme.None? || theme.value.colors.None?
  {
    if theme.None? || theme.value.colors.None? then ""
    else RenderSheet(ThemeBlocks(theme.value.colors.value, theme.value.headerFont))
  }

  /** The value the sheet gives `property` in the block for `selector`: that of its first
      declaration of the property in the first block with the selector. */
  function ValueOf(bs: seq<Block>, selector: string, property: string): Option<string> {
    if bs == [] then None
    else if bs[0].selector == selector then DeclValue(bs[0].decls, property)
    else ValueOf(bs[1..], selector, property)
  }

  function DeclValue(ds: seq<Decl>, property: string): Option<string> {
    if ds == [] then None
    else if ds[0].property == property then Some(ds[0].value)
    else DeclValue(ds[1..], property)
  }

  /** The rendered text of a list of blocks is that of the blocks before `i`, then block `i`,
      then the blocks after it. */
  lemma {:induction false} RenderedBlockIn(bs: seq<Block>, i: nat)
    requires i < |bs|
    ensures RenderBlocks(bs) == RenderBlocks(bs[..i]) + RenderBlock(bs[i]) + RenderBlocks(bs[i + 1..])
  {
    if i == 0 {
      assert bs[..0] == [] && bs[1..] == bs[i + 1..];
    } else {
      var tail := bs[1..];
      RenderedBlockIn(tail, i - 1);
      assert tail[..i - 1] == bs[..i][1..] && tail[i - 1] == bs[i] && tail[i..] == bs[i + 1..];
      assert bs[..i][0] == bs[0];
      Regroup(RenderBlock(bs[0]), RenderBlocks(tail[..i - 1]), RenderBlock(bs[i]), RenderBlocks(bs[i + 1..]));
    }
  }

  lemma Regroup(h: string, x: string, y: string, z: string)
    ensures h + (x + y + z) == (h + x) + y + z
  {
  }

  /** The block found for a selector is the first one that has it. */
  lemma {:induction false} ValueOfFirst(bs: seq<Block>, selector: string, property: string, k: nat)
    requires k < |bs| && bs[k].selector == selector
    requires forall i :: 0 <= i < k ==> bs[i].selector != selector
    ensures ValueOf(bs, selector, property) == DeclValue(bs[k].decls, property)
  {
    if k > 0 {
      ValueOfFirst(bs[1..], selector, property, k - 1);
    }
  }

  /** The page background: `bodyBg`, or white when the theme has none. */
  lemma BodyBackground(c: ThemeColors, headerFont: Option<string>)
    ensures ValueOf(ThemeBlocks(c, headerFont), "body", "background")
            == Some(if Truthy(c.bodyBg) then c.bodyBg.value else "#fff")
  {
  }

  /** The header font: the theme's, or Pacifico when it names none. */
  lemma HeaderFontDefault(c: ThemeColors, headerFont: Option<string>)
    ensures ValueOf(ThemeBlocks(c, headerFont), ".note-header", "font-family")
            == Some(if Truthy(headerFont) then headerFont.value else DefaultHeaderFont)
  {
    var bs := ThemeBlocks(c, headerFont);
    assert bs[0].selector[0] != '.' && |bs[1].selector| != |".note-header"|;
    ValueOfFirst(bs, ".note-header", "font-family", 2);
    var ds := bs[2].decls;
    assert ds[0].property[0] != 'f';
    assert DeclValue(ds, "font-family") == DeclValue(ds[1..], "font-family");
  }

  /** The section background is the theme background with the `22` alpha suffix. */
  lemma SectionBackground(c: ThemeColors, headerFont: Option<string>)
    ensures ValueOf(ThemeBlocks(c, headerFont), ".section-block", "background")
            == Some(Interpolate(c.background) + "22")
  {
    var bs := ThemeBlocks(c, headerFont);
    assert forall i :: 0 <= i < 8 ==> bs[i].selector != ".section-block";
    ValueOfFirst(bs, ".section-block", "background", 8);
  }

  /** The sheet of a theme with colours holds each of the template's rules, rendered, in
      the template's order: the rules before it, the rule, the rules after it, and the
      closing line break. */
  lemma SheetHoldsRule(theme: ThemeEntry, i: nat)
    requires theme.colors.Some? && i < 9
    ensures var bs := ThemeBlocks(theme.colors.value, theme.headerFont);
      GenerateThemeCss(Some(theme))
        == RenderBlocks(bs[..i]) + RenderBlock(bs[i]) + (RenderBlocks(bs[i + 1..]) + "\n  ")
  {
    SheetSplit(ThemeBlocks(theme.colors.value, theme.headerFont), i);
  }

  lemma SheetSplit(bs: seq<Block>, i: nat)
    requires i < |bs|
    ensures RenderSheet(bs)
      == RenderBlocks(bs[..i]) + RenderBlock(bs[i]) + (RenderBlocks(bs[i + 1..]) + "\n  ")
  {
    RenderedBlockIn(bs, i);
  }
}
