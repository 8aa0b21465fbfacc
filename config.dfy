/** Plugin configuration and the resolution of the metadata attribute names. */
module Config {
  import opened Wrappers

  /** `PluginConfig`: naming mode, ignored component names, per-name overrides and the
      styled-wrapper flag (kept, but never read by the visitor). */
  datatype PluginConfig = PluginConfig(
    native: bool,
    ignoredComponents: seq<string>,
    componentAttr: Option<string>,
    elementAttr: Option<string>,
    sourceFileAttr: Option<string>,
    sourcePathAttr: Option<string>,
    rewriteEmotionStyled: bool)

  /** The derived `Default`: every flag off, no ignored names, no overrides. */
  function Default(): (c: PluginConfig)
    ensures !c.native && !c.rewriteEmotionStyled
    ensures c.ignoredComponents == []
    ensures c.componentAttr.None? && c.elementAttr.None?
    ensures c.sourceFileAttr.None? && c.sourcePathAttr.None?
  {
    PluginConfig(false, [], None, None, None, None, false)
  }

  /** True when no attribute name is overridden. */
  predicate NoOverrides(c: PluginConfig) {
    c.componentAttr.None? && c.elementAttr.None? && c.sourceFileAttr.None? && c.sourcePathAttr.None?
  }

  /** The name an override, or else the naming mode, selects. */
  function Resolve(custom: Option<string>, native: bool, camel: string, kebab: string): (r: string)
    ensures custom.Some? ==> r == custom.value
    ensures custom.None? && native ==> r == camel
    ensures custom.None? && !native ==> r == kebab
  {
    if custom.Some? then custom.value else if native then camel else kebab
  }

  function ComponentAttrName(c: PluginConfig): (r: string)
    ensures c.componentAttr.Some? ==> r == c.componentAttr.value
    ensures c.componentAttr.None? && c.native ==> r == "dataComponent"
    ensures c.componentAttr.None? && !c.native ==> r == "data-component"
  {
    Resolve(c.componentAttr, c.native, "dataComponent", "data-component")
  }

  function ElementAttrName(c: PluginConfig): (r: string)
    ensures c.elementAttr.Some? ==> r == c.elementAttr.value
    ensures c.elementAttr.None? && c.native ==> r == "dataElement"
    ensures c.elementAttr.None? && !c.native ==> r == "data-element"
  {
    Resolve(c.elementAttr, c.native, "dataElement", "data-element")
  }

  function SourceFileAttrName(c: PluginConfig): (r: string)
    ensures c.sourceFileAttr.Some? ==> r == c.sourceFileAttr.value
    ensures c.sourceFileAttr.None? && c.native ==> r == "dataSourceFile"
    ensures c.sourceFileAttr.None? && !c.native ==> r == "data-source-file"
  {
    Resolve(c.sourceFileAttr, c.native, "dataSourceFile", "data-source-file")
  }

  function SourcePathAttrName(c: PluginConfig): (r: string)
    ensures c.sourcePathAttr.Some? ==> r == c.sourcePathAttr.value
    ensures c.sourcePathAttr.None? && c.native ==> r == "dataSourcePath"
    ensures c.sourcePathAttr.None? && !c.native ==> r == "data-source-path"
  {
    Resolve(c.sourcePathAttr, c.native, "dataSourcePath", "data-source-path")
  }

  /** Without overrides the four resolved names are pairwise distinct, in either mode;
      in particular the element and component names always differ. */
  lemma DefaultNamesDistinct(c: PluginConfig)
    requires NoOverrides(c)
    ensures ComponentAttrName(c) != ElementAttrName(c)
    ensures ComponentAttrName(c) != SourceFileAttrName(c)
    ensures ComponentAttrName(c) != SourcePathAttrName(c)
    ensures ElementAttrName(c) != SourceFileAttrName(c)
    ensures ElementAttrName(c) != SourcePathAttrName(c)
    ensures SourceFileAttrName(c) != SourcePathAttrName(c)
  {
    if c.native {
      assert ComponentAttrName(c)[4] == 'C' && ElementAttrName(c)[4] == 'E';
      assert SourceFileAttrName(c)[4] == 'S' && SourcePathAttrName(c)[4] == 'S';
      assert SourceFileAttrName(c)[10] == 'F' && SourcePathAttrName(c)[10] == 'P';
    } else {
      assert ComponentAttrName(c)[5] == 'c' && ElementAttrName(c)[5] == 'e';
      assert SourceFileAttrName(c)[5] == 's' && SourcePathAttrName(c)[5] == 's';
      assert SourceFileAttrName(c)[12] == 'f' && SourcePathAttrName(c)[12] == 'p';
    }
  }

  /** The default configuration resolves to the kebab-case web names. */
  lemma DefaultNames()
    ensures ComponentAttrName(Default()) == "data-component"
    ensures ElementAttrName(Default()) == "data-element"
    ensures SourceFileAttrName(Default()) == "data-source-file"
    ensures SourcePathAttrName(Default()) == "data-source-path"
  {
  }

  /** The configuration of the sentry fixture: three overrides on top of the default. */
  function SentryConfig(): (c: PluginConfig)
    ensures c.componentAttr == Some("data-sentry-component")
    ensures c.elementAttr == Some("data-sentry-element")
    ensures c.sourceFileAttr == Some("data-sentry-source-file")
  {
    Default().(componentAttr := Some("data-sentry-component"),
               elementAttr := Some("data-sentry-element"),
               sourceFileAttr := Some("data-sentry-source-file"))
  }

  /** Overrides flow through unchanged; the one left unset keeps its default. */
  lemma SentryNames()
    ensures ComponentAttrName(SentryConfig()) == "data-sentry-component"
    ensures ElementAttrName(SentryConfig()) == "data-sentry-element"
    ensures SourceFileAttrName(SentryConfig()) == "data-sentry-source-file"
    ensures SourcePathAttrName(SentryConfig()) == "data-source-path"
  {
  }
}
