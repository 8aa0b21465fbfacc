/** The attribute injection rules of `add_attributes_to_element`, as a function of the
    visitor's context and the current component scope. */
module Rules {
  import opened Wrappers
  import opened Ast
  import opened Config
  import opened JsxUtils

  /** What the rules read besides the element and the scope: the configuration, the
      file's display name, the known markup tags and the ignored component names. */
  datatype Context = Context(
    config: PluginConfig,
    sourceFileName: Option<string>,
    ignoredElements: set<string>,
    ignoredComponents: set<string>)

  /** One guarded push: append `name=value` when `cond` holds and no attribute of that
      name is present yet. */
  function AppendIfAbsent(attrs: seq<Attr>, n: string, v: string, cond: bool): (r: seq<Attr>)
    ensures r == attrs || r == attrs + [CreateJsxAttr(n, v)]
    ensures r != attrs <==> cond && !HasAttribute(attrs, n)
    ensures HasAttribute(r, n) <==> HasAttribute(attrs, n) || cond
  {
    HasAttributeAfterAppend(attrs, n, v, n);
    if cond && !HasAttribute(attrs, n) then attrs + [CreateJsxAttr(n, v)] else attrs
  }

  /** True when the rules leave the element alone: a named fragment, an ignored
      scope, or an ignored element name. */
  predicate Skipped(ctx: Context, scope: Option<string>, name: ElementName) {
    IsReactFragment(name)
    || (scope.Some? && scope.value in ctx.ignoredComponents)
    || ElementNameText(name) in ctx.ignoredComponents
  }

  predicate KnownTag(ctx: Context, name: ElementName) {
    ElementNameText(name) in ctx.ignoredElements
  }

  /** Guard of the element attribute. */
  predicate WantsElementAttr(ctx: Context, scope: Option<string>, name: ElementName) {
    !KnownTag(ctx, name)
    && (ComponentAttrName(ctx.config) != ElementAttrName(ctx.config) || scope.None?)
  }

  /** Guard of the source-file attribute (besides a known file name). */
  predicate WantsSourceFileAttr(ctx: Context, scope: Option<string>, name: ElementName) {
    scope.Some? || !KnownTag(ctx, name)
  }

  /** The attribute list after `add_attributes_to_element`: element, component and
      source-file attributes, each pushed under its guard, in that order. */
  function AnnotateAttrs(ctx: Context, scope: Option<string>, name: ElementName, attrs: seq<Attr>): (r: seq<Attr>)
    ensures |attrs| <= |r| <= |attrs| + 3
    ensures r[..|attrs|] == attrs
  {
    if Skipped(ctx, scope, name) then attrs
    else
      var display := ElementNameText(name);
      var a1 := AppendIfAbsent(attrs, ElementAttrName(ctx.config), display, WantsElementAttr(ctx, scope, name));
      var a2 := if scope.Some? then AppendIfAbsent(a1, ComponentAttrName(ctx.config), scope.value, true) else a1;
      var a3 :=
        if ctx.sourceFileName.Some? then
          AppendIfAbsent(a2, SourceFileAttrName(ctx.config), ctx.sourceFileName.value, WantsSourceFileAttr(ctx, scope, name))
        else a2;
      assert a1[..|attrs|] == attrs && a2[..|a1|] == a1 && a3[..|a2|] == a2;
      a3
  }

  function ElementAttr(ctx: Context, name: ElementName): Attr {
    CreateJsxAttr(ElementAttrName(ctx.config), ElementNameText(name))
  }

  function ComponentAttr(ctx: Context, component: string): Attr {
    CreateJsxAttr(ComponentAttrName(ctx.config), component)
  }

  function SourceFileAttr(ctx: Context, file: string): Attr {
    CreateJsxAttr(SourceFileAttrName(ctx.config), file)
  }

  /** The attributes the rules may add, in their fixed order. */
  function Candidates(ctx: Context, scope: Option<string>, name: ElementName): seq<Attr> {
    [ElementAttr(ctx, name)]
    + ((if scope.Some? then [ComponentAttr(ctx, scope.value)] else [])
       + (if ctx.sourceFileName.Some? then [SourceFileAttr(ctx, ctx.sourceFileName.value)] else []))
  }

  /** `a` is `b` with some entries dropped, order kept. */
  predicate Subsequence<T(==)>(a: seq<T>, b: seq<T>)
    decreases |b|
  {
    if |a| == 0 then true
    else if |b| == 0 then false
    else (a[0] == b[0] && Subsequence(a[1..], b[1..])) || Subsequence(a, b[1..])
  }

  /** Everything that was there stays, and what is added is drawn, in order, from
      element, component, source-file. */
  lemma AnnotateAppendsInOrder(ctx: Context, scope: Option<string>, name: ElementName, attrs: seq<Attr>)
    ensures var r := AnnotateAttrs(ctx, scope, name, attrs);
      r[..|attrs|] == attrs && Subsequence(r[|attrs|..], Candidates(ctx, scope, name))
  {
    var r := AnnotateAttrs(ctx, scope, name, attrs);
    if !Skipped(ctx, scope, name) {
      var a1 := AppendIfAbsent(attrs, ElementAttrName(ctx.config), ElementNameText(name), WantsElementAttr(ctx, scope, name));
      var a2 := if scope.Some? then AppendIfAbsent(a1, ComponentAttrName(ctx.config), scope.value, true) else a1;
      var c2 := if scope.Some? then [ComponentAttr(ctx, scope.value)] else [];
      var c3 := if ctx.sourceFileName.Some? then [SourceFileAttr(ctx, ctx.sourceFileName.value)] else [];
      AppendPiece(attrs, ElementAttrName(ctx.config), ElementNameText(name), WantsElementAttr(ctx, scope, name));
      if scope.Some? { AppendPiece(a1, ComponentAttrName(ctx.config), scope.value, true); }
      if ctx.sourceFileName.Some? {
        AppendPiece(a2, SourceFileAttrName(ctx.config), ctx.sourceFileName.value, WantsSourceFileAttr(ctx, scope, name));
      }
      SlicesOfThree(attrs, a1, a2, r);
      SubsequenceOfThree(a1[|attrs|..], a2[|a1|..], r[|a2|..], [ElementAttr(ctx, name)], c2, c3);
    }
  }

  /** What one guarded push adds: nothing, or the one attribute. */
  lemma AppendPiece(attrs: seq<Attr>, n: string, v: string, cond: bool)
    ensures var r := AppendIfAbsent(attrs, n, v, cond);
      |attrs| <= |r| && r[..|attrs|] == attrs && (r[|attrs|..] == [] || r[|attrs|..] == [CreateJsxAttr(n, v)])
  {
  }

  /** The part of `d` past `a` is made of the three successive extensions. */
  lemma SlicesOfThree<T>(a: seq<T>, b: seq<T>, c: seq<T>, d: seq<T>)
    requires |a| <= |b| <= |c| <= |d|
    requires b[..|a|] == a && c[..|b|] == b && d[..|c|] == c
    ensures d[|a|..] == b[|a|..] + (c[|b|..] + d[|c|..])
  {
    assert c[|a|..] == b[|a|..] + c[|b|..];
  }

  lemma SubsequenceOfThree<T>(d1: seq<T>, d2: seq<T>, d3: seq<T>, c1: seq<T>, c2: seq<T>, c3: seq<T>)
    requires |c1| <= 1 && |c2| <= 1 && |c3| <= 1
    requires (d1 == [] || d1 == c1) && (d2 == [] || d2 == c2) && (d3 == [] || d3 == c3)
    ensures Subsequence(d1 + (d2 + d3), c1 + (c2 + c3))
  {
    SubsequenceSingle(d3, c3);
    SubsequencePiece(d2, c2, d3, c3);
    SubsequencePiece(d1, c1, d2 + d3, c2 + c3);
  }

  lemma SubsequenceSingle<T>(d: seq<T>, c: seq<T>)
    requires |c| <= 1 && (d == [] || d == c)
    ensures Subsequence(d, c)
  {
    if d == c && |c| == 1 {
      assert d[1..] == [];
    }
  }

  /** A piece that is empty or equal to its at most one-entry candidate, in front of a
      subsequence of the remaining candidates. */
  lemma SubsequencePiece<T>(d: seq<T>, c: seq<T>, rest: seq<T>, crest: seq<T>)
    requires |c| <= 1 && (d == [] || d == c)
    requires Subsequence(rest, crest)
    ensures Subsequence(d + rest, c + crest)
  {
    if |c| == 1 {
      assert (c + crest)[1..] == crest;
      if d == c {
        assert (d + rest)[1..] == rest;
      } else {
        assert d + rest == rest;
      }
    } else {
      assert d + rest == rest && c + crest == crest;
    }
  }

  /** Appending keeps every name that was present. */
  lemma AppendKeepsNames(attrs: seq<Attr>, n: string, v: string, cond: bool, m: string)
    requires HasAttribute(attrs, m)
    ensures HasAttribute(AppendIfAbsent(attrs, n, v, cond), m)
  {
    HasAttributeAfterAppend(attrs, n, v, m);
  }

  /** What one call establishes: each attribute whose guard held is present afterwards
      (pushed now or already there). */
  lemma AnnotateEstablishes(ctx: Context, scope: Option<string>, name: ElementName, attrs: seq<Attr>)
    requires !Skipped(ctx, scope, name)
    ensures var r := AnnotateAttrs(ctx, scope, name, attrs);
      && (WantsElementAttr(ctx, scope, name) ==> HasAttribute(r, ElementAttrName(ctx.config)))
      && (scope.Some? ==> HasAttribute(r, ComponentAttrName(ctx.config)))
      && (ctx.sourceFileName.Some? && WantsSourceFileAttr(ctx, scope, name) ==> HasAttribute(r, SourceFileAttrName(ctx.config)))
  {
    var e, c, f := ElementAttrName(ctx.config), ComponentAttrName(ctx.config), SourceFileAttrName(ctx.config);
    var display := ElementNameText(name);
    var a1 := AppendIfAbsent(attrs, e, display, WantsElementAttr(ctx, scope, name));
    var a2 := if scope.Some? then AppendIfAbsent(a1, c, scope.value, true) else a1;
    if WantsElementAttr(ctx, scope, name) && scope.Some? {
      AppendKeepsNames(a1, c, scope.value, true, e);
    }
    if ctx.sourceFileName.Some? {
      var v := ctx.sourceFileName.value;
      var w := WantsSourceFileAttr(ctx, scope, name);
      if WantsElementAttr(ctx, scope, name) { AppendKeepsNames(a2, f, v, w, e); }
      if scope.Some? { AppendKeepsNames(a2, f, v, w, c); }
    }
  }

  /** A call changes nothing exactly when the element is skipped or every guarded
      attribute is unwanted or already present. */
  lemma AnnotateUnchangedExactly(ctx: Context, scope: Option<string>, name: ElementName, attrs: seq<Attr>)
    ensures AnnotateAttrs(ctx, scope, name, attrs) == attrs <==>
      Skipped(ctx, scope, name)
      || (&& (WantsElementAttr(ctx, scope, name) ==> HasAttribute(attrs, ElementAttrName(ctx.config)))
          && (scope.Some? ==> HasAttribute(attrs, ComponentAttrName(ctx.config)))
          && (ctx.sourceFileName.Some? && WantsSourceFileAttr(ctx, scope, name) ==> HasAttribute(attrs, SourceFileAttrName(ctx.config))))
  {
    var r := AnnotateAttrs(ctx, scope, name, attrs);
    if !Skipped(ctx, scope, name) && r == attrs {
      AnnotateEstablishes(ctx, scope, name, attrs);
    }
  }

  /** A second call in the same scope adds nothing. */
  lemma AnnotateIdempotent(ctx: Context, scope: Option<string>, name: ElementName, attrs: seq<Attr>)
    ensures var r := AnnotateAttrs(ctx, scope, name, attrs);
      AnnotateAttrs(ctx, scope, name, r) == r
  {
    var r := AnnotateAttrs(ctx, scope, name, attrs);
    if !Skipped(ctx, scope, name) {
      AnnotateEstablishes(ctx, scope, name, attrs);
      AnnotateUnchangedExactly(ctx, scope, name, r);
    }
  }

  /** The scope-less revisit adds nothing to an element first annotated without a scope
      or in the scope of a component that is not ignored. */
  lemma AnnotateSecondPassHarmless(ctx: Context, scope: Option<string>, name: ElementName, attrs: seq<Attr>)
    requires scope.None? || scope.value !in ctx.ignoredComponents
    ensures var r := AnnotateAttrs(ctx, scope, name, attrs);
      AnnotateAttrs(ctx, None, name, r) == r
  {
    var r := AnnotateAttrs(ctx, scope, name, attrs);
    if scope.None? {
      AnnotateIdempotent(ctx, scope, name, attrs);
    } else if !Skipped(ctx, scope, name) {
      AnnotateEstablishes(ctx, scope, name, attrs);
      AnnotateUnchangedExactly(ctx, None, name, r);
    }
  }

  /** Annotating in a scope, then without, twice over, is the same as doing it once:
      the per-element step behind the idempotence of the whole pass. */
  lemma AnnotateRepeatedPasses(ctx: Context, scope: Option<string>, name: ElementName, attrs: seq<Attr>)
    ensures var b := AnnotateAttrs(ctx, None, name, AnnotateAttrs(ctx, scope, name, attrs));
      AnnotateAttrs(ctx, None, name, AnnotateAttrs(ctx, scope, name, b)) == b
  {
    var a1 := AnnotateAttrs(ctx, scope, name, attrs);
    if scope.Some? && scope.value in ctx.ignoredComponents {
      AnnotateIdempotent(ctx, None, name, attrs);
    } else {
      AnnotateSecondPassHarmless(ctx, scope, name, attrs);
      AnnotateIdempotent(ctx, scope, name, attrs);
    }
  }

  /** A named fragment, an element inside an ignored component's scope and an element
      whose own display name is ignored keep their attribute list as it was. */
  lemma AnnotateIgnored(ctx: Context, scope: Option<string>, name: ElementName, attrs: seq<Attr>)
    requires IsReactFragment(name) || (scope.Some? && scope.value in ctx.ignoredComponents)
      || ElementNameText(name) in ctx.ignoredComponents
    ensures AnnotateAttrs(ctx, scope, name, attrs) == attrs
  {
  }

  /** A known markup tag outside any component scope (a nested `<h1>`) gets nothing. */
  lemma UnscopedKnownTagUntouched(ctx: Context, name: ElementName, attrs: seq<Attr>)
    requires KnownTag(ctx, name)
    ensures AnnotateAttrs(ctx, None, name, attrs) == attrs
  {
    AnnotateUnchangedExactly(ctx, None, name, attrs);
  }

  /** When the element attribute is not wanted (a known tag, or a scope while the element
      and component names coincide) only component and source-file attributes can be
      added, in that order. */
  lemma NoElementAttrUnlessWanted(ctx: Context, scope: Option<string>, name: ElementName, attrs: seq<Attr>)
    requires !WantsElementAttr(ctx, scope, name)
    ensures var r := AnnotateAttrs(ctx, scope, name, attrs);
      Subsequence(r[|attrs|..], Candidates(ctx, scope, name)[1..])
  {
    var r := AnnotateAttrs(ctx, scope, name, attrs);
    var c2 := if scope.Some? then [ComponentAttr(ctx, scope.value)] else [];
    var c3 := if ctx.sourceFileName.Some? then [SourceFileAttr(ctx, ctx.sourceFileName.value)] else [];
    assert Candidates(ctx, scope, name)[1..] == c2 + c3;
    if !Skipped(ctx, scope, name) {
      var a2 := if scope.Some? then AppendIfAbsent(attrs, ComponentAttrName(ctx.config), scope.value, true) else attrs;
      var d2 := a2[|attrs|..];
      var d3 := r[|a2|..];
      assert r[|attrs|..] == d2 + d3;
      SubsequenceSingle(d3, c3);
      SubsequencePiece(d2, c2, d3, c3);
    }
  }

  /** Outside any scope, a custom element that is not ignored and lacks the element
      attribute gets it first, with its display name as value. */
  lemma UnscopedCustomElementNamed(ctx: Context, name: ElementName, attrs: seq<Attr>)
    requires !Skipped(ctx, None, name) && !KnownTag(ctx, name)
    requires !HasAttribute(attrs, ElementAttrName(ctx.config))
    ensures var r := AnnotateAttrs(ctx, None, name, attrs);
      |r| > |attrs| && r[|attrs|] == ElementAttr(ctx, name)
  {
  }

  /** In a scope whose component is not ignored, the component attribute is present
      afterwards and carries the component name unless one was there before. */
  lemma ScopedElementNamesComponent(ctx: Context, component: string, name: ElementName, attrs: seq<Attr>)
    requires !Skipped(ctx, Some(component), name)
    requires !HasAttribute(attrs, ComponentAttrName(ctx.config))
    ensures var r := AnnotateAttrs(ctx, Some(component), name, attrs);
      ComponentAttr(ctx, component) in r[|attrs|..]
  {
    var e := ElementAttrName(ctx.config);
    var c := ComponentAttrName(ctx.config);
    var display := ElementNameText(name);
    var a1 := AppendIfAbsent(attrs, e, display, WantsElementAttr(ctx, Some(component), name));
    var a2 := AppendIfAbsent(a1, c, component, true);
    var r := AnnotateAttrs(ctx, Some(component), name, attrs);
    assert !HasAttribute(a1, c) by {
      HasAttributeAfterAppend(attrs, e, display, c);
    }
    assert a2 == a1 + [ComponentAttr(ctx, component)];
    assert r[..|a2|] == a2;
    assert r[|a1|] == ComponentAttr(ctx, component);
  }

  /** Every pushed attribute carries a name that no earlier entry has. */
  ghost predicate FreshAppends(before: seq<Attr>, after: seq<Attr>) {
    && |before| <= |after| && after[..|before|] == before
    && forall i :: |before| <= i < |after| ==>
         after[i].JsxAttr? && after[i].name.AttrIdent? && !HasAttribute(after[..i], after[i].name.name)
  }

  lemma AppendIfAbsentFresh(attrs: seq<Attr>, n: string, v: string, cond: bool)
    ensures FreshAppends(attrs, AppendIfAbsent(attrs, n, v, cond))
  {
    var r := AppendIfAbsent(attrs, n, v, cond);
    if r != attrs { assert r[..|attrs|] == attrs; }
  }

  lemma FreshAppendsTrans(a: seq<Attr>, b: seq<Attr>, c: seq<Attr>)
    requires FreshAppends(a, b) && FreshAppends(b, c)
    ensures FreshAppends(a, c)
  {
    forall i | |a| <= i < |c|
      ensures c[i].JsxAttr? && c[i].name.AttrIdent? && !HasAttribute(c[..i], c[i].name.name)
    {
      if i < |b| {
        assert c[..|b|] == b;
        assert c[i] == b[i];
        assert c[..i] == b[..i];
      }
    }
    assert c[..|a|] == b[..|a|];
  }

  /** No call ever pushes an attribute whose name is already on the element, nor two
      attributes of the same name. */
  lemma AnnotateNeverDuplicates(ctx: Context, scope: Option<string>, name: ElementName, attrs: seq<Attr>)
    ensures FreshAppends(attrs, AnnotateAttrs(ctx, scope, name, attrs))
  {
    if !Skipped(ctx, scope, name) {
      var display := ElementNameText(name);
      var w := WantsElementAttr(ctx, scope, name);
      var a1 := AppendIfAbsent(attrs, ElementAttrName(ctx.config), display, w);
      AppendIfAbsentFresh(attrs, ElementAttrName(ctx.config), display, w);
      var a2 := a1;
      if scope.Some? {
        a2 := AppendIfAbsent(a1, ComponentAttrName(ctx.config), scope.value, true);
        AppendIfAbsentFresh(a1, ComponentAttrName(ctx.config), scope.value, true);
        FreshAppendsTrans(attrs, a1, a2);
      }
      if ctx.sourceFileName.Some? {
        var w3 := WantsSourceFileAttr(ctx, scope, name);
        AppendIfAbsentFresh(a2, SourceFileAttrName(ctx.config), ctx.sourceFileName.value, w3);
        FreshAppendsTrans(attrs, a2, AppendIfAbsent(a2, SourceFileAttrName(ctx.config), ctx.sourceFileName.value, w3));
      }
    } else {
      assert attrs[..|attrs|] == attrs;
    }
  }
}
