/** The repository's fixtures, reduced to the elements that show each rule, evaluated
    on the model. Every fixture runs with the display name `test.jsx` and a set of known
    markup tags that contains the tags it uses. */
module Fixtures {
  import opened Wrappers
  import opened Ast
  import opened Config
  import opened JsxUtils
  import opened Rules
  import opened Traversal
  import opened TraversalProps

  /** A tag without attributes. */
  function Tag(n: string, children: seq<Child>): Element {
    Element(Ident(n), [], children)
  }

  function StrAttr(n: string, v: string): Attr {
    JsxAttr(AttrIdent(n), StrValue(v))
  }

  /** A declarator `const name = () => { return <root/>; }`. */
  function ArrowComponent(name: string, root: Element): VarDeclarator {
    VarDeclarator(PatIdent(name), Some(Arrow(BlockBody([Return(Some(JsxElementExpr(root)))]))))
  }

  function ReturnsRoot(root: Element): seq<Stmt> {
    [Return(Some(JsxElementExpr(root)))]
  }

  // ---------------------------------------------------------------------------------
  // Steps shared by the fixtures

  /** An element whose children are all text or expressions only has its own list changed. */
  lemma LeafElement(ctx: Context, scope: Option<string>, el: Element)
    requires forall i :: 0 <= i < |el.children| ==> el.children[i].ChildOther?
    ensures ProcessElement(ctx, scope, el) == el.(attrs := AnnotateAttrs(ctx, scope, el.name, el.attrs))
  {
    assert ProcessElement(ctx, scope, el).children == el.children;
  }

  /** A fresh known root in a component scope gets the component name and the file. */
  lemma ScopedKnownRootAttrs(ctx: Context, component: string, name: ElementName)
    requires !Skipped(ctx, Some(component), name) && KnownTag(ctx, name) && ctx.sourceFileName.Some?
    requires ComponentAttrName(ctx.config) != SourceFileAttrName(ctx.config)
    ensures AnnotateAttrs(ctx, Some(component), name, [])
      == [ComponentAttr(ctx, component), SourceFileAttr(ctx, ctx.sourceFileName.value)]
  {
  }

  /** A fresh custom element outside any scope gets its display name and the file. */
  lemma UnscopedCustomAttrs(ctx: Context, name: ElementName)
    requires !Skipped(ctx, None, name) && !KnownTag(ctx, name) && ctx.sourceFileName.Some?
    requires ElementAttrName(ctx.config) != SourceFileAttrName(ctx.config)
    ensures AnnotateAttrs(ctx, None, name, [])
      == [ElementAttr(ctx, name), SourceFileAttr(ctx, ctx.sourceFileName.value)]
  {
  }

  /** An arrow component returning one root: the root is processed in the component's
      scope, and the generic walk adds nothing when that scope is not ignored. */
  lemma ArrowComponentVisit(ctx: Context, name: string, root: Element)
    requires Harmless(ctx, Some(name))
    ensures VisitVarDeclarator(ctx, None, ArrowComponent(name, root))
      == ArrowComponent(name, ProcessElement(ctx, Some(name), root))
  {
    var out := ProcessElement(ctx, Some(name), root);
    ElementSecondPassHarmless(ctx, Some(name), root);
    assert ScopedBody(ctx, Some(name), ReturnsRoot(root)) == ReturnsRoot(out);
    assert WalkBody(ctx, None, ReturnsRoot(out)) == ReturnsRoot(out);
  }

  /** A function component returning one root: the scoped pass, then the scope-less walk. */
  lemma FnComponentVisit(ctx: Context, name: string, root: Element)
    ensures VisitFnDecl(ctx, None, FnDecl(name, Some(ReturnsRoot(root))))
      == FnDecl(name, Some(ReturnsRoot(ProcessElement(ctx, None, ProcessElement(ctx, Some(name), root)))))
  {
    var out := ProcessElement(ctx, Some(name), root);
    assert ScopedBody(ctx, Some(name), ReturnsRoot(root)) == ReturnsRoot(out);
    assert WalkBody(ctx, None, ReturnsRoot(out)) == ReturnsRoot(ProcessElement(ctx, None, out));
  }

  /** A class whose only member is a `render` method returning one root. */
  lemma ClassComponentVisit(ctx: Context, name: string, root: Element)
    requires Harmless(ctx, Some(name))
    ensures var render := Method(PropIdent("render"), Some(ReturnsRoot(root)));
      VisitClassDecl(ctx, None, ClassDecl(name, [render]))
      == ClassDecl(name, [Method(PropIdent("render"), Some(ReturnsRoot(ProcessElement(ctx, Some(name), root))))])
  {
    var render := Method(PropIdent("render"), Some(ReturnsRoot(root)));
    var out := ProcessElement(ctx, Some(name), root);
    assert IsRender(render);
    assert ClassDecl(name, [render]).members[0] == render;
    assert ClassSeeds(ClassDecl(name, [render]));
    ElementSecondPassHarmless(ctx, Some(name), root);
    assert ScopedBody(ctx, Some(name), ReturnsRoot(root)) == ReturnsRoot(out);
    assert WalkBody(ctx, None, ReturnsRoot(out)) == ReturnsRoot(out);
  }

  // ---------------------------------------------------------------------------------
  // The fixtures

  /** `react_fragments`, first component: the real root is named; the children of a
      `React.Fragment` element child lose the scope; the children of a `<>` child keep it. */
  lemma FragmentsFixture(known: set<string>)
    requires {"div", "h1", "h3"} <= known
    ensures
      var ctx := Context(Default(), Some("test.jsx"), known, {});
      var h1 := Tag("h1", [ChildOther]);
      var named := Element(Member(ObjIdent("React"), "Fragment"), [], [ChildElement(h1)]);
      var root := Tag("div", [ChildElement(named), ChildFragment(Fragment([ChildElement(Tag("h3", [ChildOther]))]))]);
      var h3Out := Element(Ident("h3"), [StrAttr("data-component", "MyComponent"), StrAttr("data-source-file", "test.jsx")], [ChildOther]);
      var rootOut := Element(Ident("div"), [StrAttr("data-component", "MyComponent"), StrAttr("data-source-file", "test.jsx")],
                             [ChildElement(named), ChildFragment(Fragment([ChildElement(h3Out)]))]);
      VisitVarDeclarator(ctx, None, ArrowComponent("MyComponent", root)) == ArrowComponent("MyComponent", rootOut)
  {
    var ctx := Context(Default(), Some("test.jsx"), known, {});
    var scope := Some("MyComponent");
    var h1 := Tag("h1", [ChildOther]);
    var named := Element(Member(ObjIdent("React"), "Fragment"), [], [ChildElement(h1)]);
    var h3 := Tag("h3", [ChildOther]);
    var inner := Fragment([ChildElement(h3)]);
    var root := Tag("div", [ChildElement(named), ChildFragment(inner)]);
    var h3Out := Element(Ident("h3"), [StrAttr("data-component", "MyComponent"), StrAttr("data-source-file", "test.jsx")], [ChildOther]);
    DefaultNames();
    // the element child `React.Fragment` is reached with no scope and hands none on
    LeafElement(ctx, None, h1);
    UnscopedKnownTagUntouched(ctx, h1.name, []);
    assert ProcessElement(ctx, None, named).children == [ChildElement(h1)];
    // the `<>` child keeps the component's scope
    LeafElement(ctx, scope, h3);
    ScopedKnownRootAttrs(ctx, "MyComponent", h3.name);
    assert ProcessFragment(ctx, scope, inner).children == [ChildElement(h3Out)];
    ScopedKnownRootAttrs(ctx, "MyComponent", root.name);
    assert ProcessElement(ctx, scope, root).children == [ChildElement(named), ChildFragment(Fragment([ChildElement(h3Out)]))];
    ArrowComponentVisit(ctx, "MyComponent", root);
  }

  // ---------------------------------------------------------------------------------
  // The configuration each fixture directory runs with

  /** tests/test.rs as written: the sentry overrides for `react_sentry_attrs`, the
      derived default for every other directory. No directory gets an ignore list. */
  function RunnerConfig(dir: string): (c: PluginConfig)
    ensures c.ignoredComponents == []
    ensures c.componentAttr.Some? <==> dir == "react_sentry_attrs"
  {
    if dir == "react_sentry_attrs" then SentryConfig() else Default()
  }

  /** The components that tests/fixture/react_ignored_components/output.jsx leaves bare. */
  function IgnoredFixtureNames(): seq<string> {
    ["IgnoredComponent", "AnotherIgnoredComponent", "IgnoredClassComponent"]
  }

  /** The runner with the ignore list that the ignored-components output implies; every
      other directory runs as before. */
  function IntendedRunnerConfig(dir: string): (c: PluginConfig)
    ensures dir == "react_ignored_components" ==> c == Default().(ignoredComponents := IgnoredFixtureNames())
    ensures dir != "react_ignored_components" ==> c == RunnerConfig(dir)
    ensures NoOverrides(c) <==> dir != "react_sentry_attrs"
  {
    if dir == "react_ignored_components" then Default().(ignoredComponents := IgnoredFixtureNames())
    else RunnerConfig(dir)
  }

  /** The visitor's context for `react_ignored_components` under the intended runner: the
      ignored set is built from the configured list, as the visitor's constructor does. */
  function IgnoredFixtureContext(known: set<string>): (ctx: Context)
    ensures ctx.config == IntendedRunnerConfig("react_ignored_components")
    ensures ctx.ignoredComponents == set n | n in ctx.config.ignoredComponents
    ensures "IgnoredComponent" in ctx.ignoredComponents && "Card" !in ctx.ignoredComponents
  {
    var config := IntendedRunnerConfig("react_ignored_components");
    assert config.ignoredComponents[0] == "IgnoredComponent";
    Context(config, Some("test.jsx"), known, set n | n in config.ignoredComponents)
  }

  /** As the runner is written, `react_ignored_components` has an empty ignore list, so
      the root of `IgnoredComponent` is named after it; the expected output has no
      attributes there. */
  lemma IgnoredFixtureAsRun(known: set<string>)
    requires "div" in known
    ensures
      var ctx := Context(RunnerConfig("react_ignored_components"), Some("test.jsx"), known, {});
      var d := FnDecl("IgnoredComponent", Some(ReturnsRoot(Tag("div", [ChildOther]))));
      var out := Element(Ident("div"),
        [StrAttr("data-component", "IgnoredComponent"), StrAttr("data-source-file", "test.jsx")], [ChildOther]);
      && VisitFnDecl(ctx, None, d) == FnDecl("IgnoredComponent", Some(ReturnsRoot(out)))
      && VisitFnDecl(ctx, None, d) != d
  {
    var ctx := Context(RunnerConfig("react_ignored_components"), Some("test.jsx"), known, {});
    var root := Tag("div", [ChildOther]);
    DefaultNames();
    LeafElement(ctx, Some("IgnoredComponent"), root);
    ScopedKnownRootAttrs(ctx, "IgnoredComponent", root.name);
    var out := ProcessElement(ctx, Some("IgnoredComponent"), root);
    ElementSecondPassHarmless(ctx, Some("IgnoredComponent"), root);
    FnComponentVisit(ctx, "IgnoredComponent", root);
    assert |out.attrs| != |root.attrs|;
  }

  /** `react_ignored_components` under the intended ignore list: a component named in it
      whose root is a known tag comes out unchanged. */
  lemma IgnoredComponentFixture(known: set<string>)
    requires "div" in known
    ensures
      var ctx := IgnoredFixtureContext(known);
      var d := FnDecl("IgnoredComponent", Some(ReturnsRoot(Tag("div", [ChildOther]))));
      VisitFnDecl(ctx, None, d) == d
  {
    var ctx := IgnoredFixtureContext(known);
    var root := Tag("div", [ChildOther]);
    LeafElement(ctx, Some("IgnoredComponent"), root);
    LeafElement(ctx, None, root);
    UnscopedKnownTagUntouched(ctx, root.name, []);
    FnComponentVisit(ctx, "IgnoredComponent", root);
  }

  /** The same ignored component with a custom root: the scoped pass leaves it alone, but
      the generic walk that follows reaches it with no scope and adds the element and
      source-file attributes. */
  lemma IgnoredComponentCustomRoot(known: set<string>)
    requires "Card" !in known
    ensures
      var ctx := IgnoredFixtureContext(known);
      var body := ReturnsRoot(Tag("Card", []));
      && ScopedBody(ctx, Some("IgnoredComponent"), body) == body
      && VisitFnDecl(ctx, None, FnDecl("IgnoredComponent", Some(body)))
         == FnDecl("IgnoredComponent", Some(ReturnsRoot(Element(Ident("Card"),
              [StrAttr("data-element", "Card"), StrAttr("data-source-file", "test.jsx")], []))))
  {
    var ctx := IgnoredFixtureContext(known);
    var root := Tag("Card", []);
    DefaultNamesDistinct(ctx.config);
    LeafElement(ctx, Some("IgnoredComponent"), root);
    assert ScopedBody(ctx, Some("IgnoredComponent"), ReturnsRoot(root)) == ReturnsRoot(root);
    LeafElement(ctx, None, root);
    UnscopedCustomAttrs(ctx, root.name);
    FnComponentVisit(ctx, "IgnoredComponent", root);
  }

  /** `react_sentry_attrs`: the overridden names are used; a custom child of the root
      gets the element attribute and the file, a known child gets nothing. */
  lemma SentryFixture(known: set<string>)
    requires {"div", "h1"} <= known && "CustomButton" !in known
    ensures
      var ctx := Context(SentryConfig(), Some("test.jsx"), known, {});
      var h1 := Tag("h1", [ChildOther]);
      var root := Tag("div", [ChildElement(h1), ChildElement(Tag("CustomButton", [ChildOther]))]);
      var buttonOut := Element(Ident("CustomButton"),
        [StrAttr("data-sentry-element", "CustomButton"), StrAttr("data-sentry-source-file", "test.jsx")], [ChildOther]);
      var rootOut := Element(Ident("div"),
        [StrAttr("data-sentry-component", "SentryComponent"), StrAttr("data-sentry-source-file", "test.jsx")],
        [ChildElement(h1), ChildElement(buttonOut)]);
      VisitVarDeclarator(ctx, None, ArrowComponent("SentryComponent", root)) == ArrowComponent("SentryComponent", rootOut)
  {
    var ctx := Context(SentryConfig(), Some("test.jsx"), known, {});
    var scope := Some("SentryComponent");
    var h1 := Tag("h1", [ChildOther]);
    var button := Tag("CustomButton", [ChildOther]);
    var root := Tag("div", [ChildElement(h1), ChildElement(button)]);
    var buttonOut := Element(Ident("CustomButton"),
      [StrAttr("data-sentry-element", "CustomButton"), StrAttr("data-sentry-source-file", "test.jsx")], [ChildOther]);
    SentryNames();
    assert ComponentAttrName(ctx.config)[12] == 'c' && ElementAttrName(ctx.config)[12] == 'e';
    assert SourceFileAttrName(ctx.config)[12] == 's';
    LeafElement(ctx, None, h1);
    UnscopedKnownTagUntouched(ctx, h1.name, []);
    LeafElement(ctx, None, button);
    UnscopedCustomAttrs(ctx, button.name);
    ScopedKnownRootAttrs(ctx, "SentryComponent", root.name);
    assert ProcessElement(ctx, scope, root).children == [ChildElement(h1), ChildElement(buttonOut)];
    ArrowComponentVisit(ctx, "SentryComponent", root);
  }

  /** `react_class_component`: the root returned by `render` is named after the class;
      its known child is left alone. */
  lemma ClassComponentFixture(known: set<string>)
    requires {"div", "h1"} <= known
    ensures
      var ctx := Context(Default(), Some("test.jsx"), known, {});
      var h1 := Tag("h1", [ChildOther]);
      var c := ClassDecl("MyClassComponent", [Method(PropIdent("render"), Some(ReturnsRoot(Tag("div", [ChildElement(h1)]))))]);
      var rootOut := Element(Ident("div"),
        [StrAttr("data-component", "MyClassComponent"), StrAttr("data-source-file", "test.jsx")], [ChildElement(h1)]);
      VisitClassDecl(ctx, None, c) == ClassDecl("MyClassComponent", [Method(PropIdent("render"), Some(ReturnsRoot(rootOut)))])
  {
    var ctx := Context(Default(), Some("test.jsx"), known, {});
    var h1 := Tag("h1", [ChildOther]);
    var root := Tag("div", [ChildElement(h1)]);
    DefaultNames();
    LeafElement(ctx, None, h1);
    UnscopedKnownTagUntouched(ctx, h1.name, []);
    ScopedKnownRootAttrs(ctx, "MyClassComponent", root.name);
    assert ProcessElement(ctx, Some("MyClassComponent"), root).children == [ChildElement(h1)];
    ClassComponentVisit(ctx, "MyClassComponent", root);
  }

  /** `react_member_expressions`: a nested member name outside any scope is tagged with
      its full dotted path. */
  lemma MemberExpressionFixture(known: set<string>)
    requires "Components.UI.Card.Header" !in known
    ensures
      var ctx := Context(Default(), Some("test.jsx"), known, {});
      var name := Member(ObjMember(ObjMember(ObjIdent("Components"), "UI"), "Card"), "Header");
      AnnotateAttrs(ctx, None, name, [])
      == [StrAttr("data-element", "Components.UI.Card.Header"), StrAttr("data-source-file", "test.jsx")]
  {
    var ctx := Context(Default(), Some("test.jsx"), known, {});
    var name := Member(ObjMember(ObjMember(ObjIdent("Components"), "UI"), "Card"), "Header");
    assert ElementNameText(name) == "Components.UI.Card.Header";
    DefaultNames();
    UnscopedCustomAttrs(ctx, name);
  }

  /** `react_inline_styled_component`: the attributes land after an existing spread. */
  lemma SpreadFixture(known: set<string>)
    requires "button" in known
    ensures
      var ctx := Context(Default(), Some("test.jsx"), known, {});
      AnnotateAttrs(ctx, Some("Button"), Ident("button"), [Spread])
      == [Spread, StrAttr("data-component", "Button"), StrAttr("data-source-file", "test.jsx")]
  {
    DefaultNames();
  }
}
