/** Properties of the annotation pass: how scope reaches children, that the second,
    scope-less walk is harmless, and that running the pass twice changes nothing. */
module TraversalProps {
  import opened Wrappers
  import opened Ast
  import opened Config
  import opened JsxUtils
  import opened Rules
  import opened Traversal

  // ---------------------------------------------------------------------------------
  // Scope propagation

  /** Element children of a real element are visited with no scope, those of a named
      fragment with the element's scope; fragment children keep the scope; other
      children are untouched. */
  lemma ChildScopes(ctx: Context, scope: Option<string>, el: Element, i: nat)
    requires i < |el.children|
    ensures var c := el.children[i];
      var r := ProcessElement(ctx, scope, el).children[i];
      && (c.ChildElement? && !IsReactFragment(el.name) ==> r == ChildElement(ProcessElement(ctx, None, c.element)))
      && (c.ChildElement? && IsReactFragment(el.name) ==> r == ChildElement(ProcessElement(ctx, scope, c.element)))
      && (c.ChildFragment? ==> r == ChildFragment(ProcessFragment(ctx, scope, c.fragment)))
      && (c.ChildOther? ==> r == c)
  {
  }

  /** A named fragment gets no attribute of its own. */
  lemma NamedFragmentUnannotated(ctx: Context, scope: Option<string>, el: Element)
    requires IsReactFragment(el.name)
    ensures ProcessElement(ctx, scope, el).attrs == el.attrs
  {
    AnnotateIgnored(ctx, scope, el.name, el.attrs);
  }

  /** A bare `<>` hands the component scope to its element children: each one that is
      not exempt carries the component attribute afterwards. */
  lemma FragmentPassesScope(ctx: Context, component: string, f: Fragment, i: nat)
    requires i < |f.children| && f.children[i].ChildElement?
    requires !Skipped(ctx, Some(component), f.children[i].element.name)
    ensures ProcessFragment(ctx, Some(component), f).children[i].ChildElement?
    ensures HasAttribute(ProcessFragment(ctx, Some(component), f).children[i].element.attrs, ComponentAttrName(ctx.config))
  {
    AnnotateEstablishes(ctx, Some(component), f.children[i].element.name, f.children[i].element.attrs);
  }

  /** The same for a named `Fragment` or `React.Fragment`: its element children are
      visited in the component's scope and, unless exempt, carry the component attribute. */
  lemma NamedFragmentPassesScope(ctx: Context, component: string, el: Element, i: nat)
    requires IsReactFragment(el.name)
    requires i < |el.children| && el.children[i].ChildElement?
    requires !Skipped(ctx, Some(component), el.children[i].element.name)
    ensures ProcessElement(ctx, Some(component), el).children[i].ChildElement?
    ensures HasAttribute(ProcessElement(ctx, Some(component), el).children[i].element.attrs, ComponentAttrName(ctx.config))
  {
    AnnotateEstablishes(ctx, Some(component), el.children[i].element.name, el.children[i].element.attrs);
  }

  /** True when no element anywhere in the tree has an attribute named `n`. */
  ghost predicate ElementLacks(el: Element, n: string)
    decreases el
  {
    !HasAttribute(el.attrs, n) && forall i :: 0 <= i < |el.children| ==> ChildLacks(el.children[i], n)
  }

  ghost predicate ChildLacks(c: Child, n: string)
    decreases c
  {
    match c
    case ChildElement(e) => ElementLacks(e, n)
    case ChildFragment(f) => FragmentLacks(f, n)
    case ChildOther => true
  }

  ghost predicate FragmentLacks(f: Fragment, n: string)
    decreases f
  {
    forall i :: 0 <= i < |f.children| ==> ChildLacks(f.children[i], n)
  }

  /** The only names a call can add are the element, component (in a scope) and
      source-file (with a known file) attribute names. */
  lemma AnnotateAddsOnlyItsNames(ctx: Context, scope: Option<string>, name: ElementName, attrs: seq<Attr>, n: string)
    requires HasAttribute(AnnotateAttrs(ctx, scope, name, attrs), n)
    ensures HasAttribute(attrs, n) || n == ElementAttrName(ctx.config)
      || (scope.Some? && n == ComponentAttrName(ctx.config))
      || (ctx.sourceFileName.Some? && n == SourceFileAttrName(ctx.config))
  {
    if !Skipped(ctx, scope, name) {
      var e, c, f := ElementAttrName(ctx.config), ComponentAttrName(ctx.config), SourceFileAttrName(ctx.config);
      var display := ElementNameText(name);
      var a1 := AppendIfAbsent(attrs, e, display, WantsElementAttr(ctx, scope, name));
      var a2 := if scope.Some? then AppendIfAbsent(a1, c, scope.value, true) else a1;
      HasAttributeAfterAppend(attrs, e, display, n);
      if scope.Some? { HasAttributeAfterAppend(a1, c, scope.value, n); }
      if ctx.sourceFileName.Some? { HasAttributeAfterAppend(a2, f, ctx.sourceFileName.value, n); }
    }
  }

  /** Markup visited with no scope never gains a component attribute anywhere below,
      as long as that name is distinct from the element and source-file names (always
      so without overrides). */
  lemma {:induction false} UnscopedSubtreeGetsNoComponentAttr(ctx: Context, el: Element)
    requires ComponentAttrName(ctx.config) != ElementAttrName(ctx.config)
    requires ComponentAttrName(ctx.config) != SourceFileAttrName(ctx.config)
    requires ElementLacks(el, ComponentAttrName(ctx.config))
    ensures ElementLacks(ProcessElement(ctx, None, el), ComponentAttrName(ctx.config))
    decreases el
  {
    var n := ComponentAttrName(ctx.config);
    var r := ProcessElement(ctx, None, el);
    if HasAttribute(r.attrs, n) {
      AnnotateAddsOnlyItsNames(ctx, None, el.name, el.attrs, n);
    }
    forall i | 0 <= i < |r.children| ensures ChildLacks(r.children[i], n) {
      UnscopedChildGetsNoComponentAttr(ctx, el.children[i]);
    }
  }

  lemma {:induction false} UnscopedChildGetsNoComponentAttr(ctx: Context, c: Child)
    requires ComponentAttrName(ctx.config) != ElementAttrName(ctx.config)
    requires ComponentAttrName(ctx.config) != SourceFileAttrName(ctx.config)
    requires ChildLacks(c, ComponentAttrName(ctx.config))
    ensures ChildLacks(ProcessChild(ctx, None, None, c), ComponentAttrName(ctx.config))
    decreases c
  {
    match c
    case ChildElement(e) => UnscopedSubtreeGetsNoComponentAttr(ctx, e);
    case ChildFragment(f) =>
      var r := ProcessFragment(ctx, None, f);
      forall i | 0 <= i < |r.children| ensures ChildLacks(r.children[i], ComponentAttrName(ctx.config)) {
        UnscopedChildGetsNoComponentAttr(ctx, f.children[i]);
      }
    case ChildOther =>
  }

  /** Below a real element the component scope is gone: an element child (and all
      markup beneath it) gains no component attribute, whatever the scope of the parent,
      as long as the component name differs from the element and source-file names. */
  lemma ComponentAttrStopsAtRealElement(ctx: Context, scope: Option<string>, el: Element, i: nat)
    requires ComponentAttrName(ctx.config) != ElementAttrName(ctx.config)
    requires ComponentAttrName(ctx.config) != SourceFileAttrName(ctx.config)
    requires !IsReactFragment(el.name) && i < |el.children| && el.children[i].ChildElement?
    requires ElementLacks(el.children[i].element, ComponentAttrName(ctx.config))
    ensures ProcessElement(ctx, scope, el).children[i].ChildElement?
    ensures ElementLacks(ProcessElement(ctx, scope, el).children[i].element, ComponentAttrName(ctx.config))
  {
    ChildScopes(ctx, scope, el, i);
    UnscopedSubtreeGetsNoComponentAttr(ctx, el.children[i].element);
  }

  // ---------------------------------------------------------------------------------
  // Idempotence of the markup visitor

  /** Visiting the same markup twice in the same scope adds nothing the second time. */
  lemma {:induction false} ElementIdempotent(ctx: Context, scope: Option<string>, el: Element)
    ensures ProcessElement(ctx, scope, ProcessElement(ctx, scope, el)) == ProcessElement(ctx, scope, el)
    decreases el
  {
    var r := ProcessElement(ctx, scope, el);
    var r2 := ProcessElement(ctx, scope, r);
    AnnotateIdempotent(ctx, scope, el.name, el.attrs);
    var es := if IsReactFragment(el.name) then scope else None;
    forall i | 0 <= i < |el.children| ensures r2.children[i] == r.children[i] {
      ChildIdempotent(ctx, scope, es, el.children[i]);
    }
  }

  lemma {:induction false} ChildIdempotent(ctx: Context, scope: Option<string>, es: Option<string>, c: Child)
    ensures ProcessChild(ctx, scope, es, ProcessChild(ctx, scope, es, c)) == ProcessChild(ctx, scope, es, c)
    decreases c
  {
    match c
    case ChildElement(e) => ElementIdempotent(ctx, es, e);
    case ChildFragment(f) => FragmentIdempotent(ctx, scope, f);
    case ChildOther =>
  }

  lemma {:induction false} FragmentIdempotent(ctx: Context, scope: Option<string>, f: Fragment)
    ensures ProcessFragment(ctx, scope, ProcessFragment(ctx, scope, f)) == ProcessFragment(ctx, scope, f)
    decreases f
  {
    var r := ProcessFragment(ctx, scope, f);
    var r2 := ProcessFragment(ctx, scope, r);
    forall i | 0 <= i < |f.children| ensures r2.children[i] == r.children[i] {
      ChildIdempotent(ctx, scope, scope, f.children[i]);
    }
  }

  // ---------------------------------------------------------------------------------
  // The scope-less second visit

  /** A scope the second visit cannot disturb: none, or a component that is not ignored. */
  predicate Harmless(ctx: Context, scope: Option<string>) {
    scope.None? || scope.value !in ctx.ignoredComponents
  }

  /** Markup first visited in a harmless scope is left as it is by the generic walk's
      scope-less revisit. */
  lemma {:induction false} ElementSecondPassHarmless(ctx: Context, scope: Option<string>, el: Element)
    requires Harmless(ctx, scope)
    ensures ProcessElement(ctx, None, ProcessElement(ctx, scope, el)) == ProcessElement(ctx, scope, el)
    decreases el
  {
    var r := ProcessElement(ctx, scope, el);
    var r2 := ProcessElement(ctx, None, r);
    AnnotateSecondPassHarmless(ctx, scope, el.name, el.attrs);
    var es := if IsReactFragment(el.name) then scope else None;
    forall i | 0 <= i < |el.children| ensures r2.children[i] == r.children[i] {
      ChildSecondPassHarmless(ctx, scope, es, el.children[i]);
    }
  }

  lemma {:induction false} ChildSecondPassHarmless(ctx: Context, scope: Option<string>, es: Option<string>, c: Child)
    requires Harmless(ctx, scope) && (es == scope || es == None)
    ensures ProcessChild(ctx, None, None, ProcessChild(ctx, scope, es, c)) == ProcessChild(ctx, scope, es, c)
    decreases c
  {
    match c
    case ChildElement(e) => ElementSecondPassHarmless(ctx, es, e);
    case ChildFragment(f) => FragmentSecondPassHarmless(ctx, scope, f);
    case ChildOther =>
  }

  lemma {:induction false} FragmentSecondPassHarmless(ctx: Context, scope: Option<string>, f: Fragment)
    requires Harmless(ctx, scope)
    ensures ProcessFragment(ctx, None, ProcessFragment(ctx, scope, f)) == ProcessFragment(ctx, scope, f)
    decreases f
  {
    var r := ProcessFragment(ctx, scope, f);
    var r2 := ProcessFragment(ctx, None, r);
    forall i | 0 <= i < |f.children| ensures r2.children[i] == r.children[i] {
      ChildSecondPassHarmless(ctx, scope, scope, f.children[i]);
    }
  }

  // ---------------------------------------------------------------------------------
  // Scoped pass then walk, repeated: the step behind idempotence of the whole pass

  lemma {:induction false} ElementRepeatedPasses(ctx: Context, scope: Option<string>, el: Element)
    ensures var once := ProcessElement(ctx, None, ProcessElement(ctx, scope, el));
      ProcessElement(ctx, None, ProcessElement(ctx, scope, once)) == once
    decreases el
  {
    var once := ProcessElement(ctx, None, ProcessElement(ctx, scope, el));
    var twice := ProcessElement(ctx, None, ProcessElement(ctx, scope, once));
    AnnotateRepeatedPasses(ctx, scope, el.name, el.attrs);
    var es := if IsReactFragment(el.name) then scope else None;
    forall i | 0 <= i < |el.children| ensures twice.children[i] == once.children[i] {
      ChildRepeatedPasses(ctx, scope, es, el.children[i]);
    }
  }

  lemma {:induction false} ChildRepeatedPasses(ctx: Context, scope: Option<string>, es: Option<string>, c: Child)
    requires es == scope || es == None
    ensures var once := ProcessChild(ctx, None, None, ProcessChild(ctx, scope, es, c));
      ProcessChild(ctx, None, None, ProcessChild(ctx, scope, es, once)) == once
    decreases c
  {
    match c
    case ChildElement(e) => ElementRepeatedPasses(ctx, es, e);
    case ChildFragment(f) => FragmentRepeatedPasses(ctx, scope, f);
    case ChildOther =>
  }

  lemma {:induction false} FragmentRepeatedPasses(ctx: Context, scope: Option<string>, f: Fragment)
    ensures var once := ProcessFragment(ctx, None, ProcessFragment(ctx, scope, f));
      ProcessFragment(ctx, None, ProcessFragment(ctx, scope, once)) == once
    decreases f
  {
    var once := ProcessFragment(ctx, None, ProcessFragment(ctx, scope, f));
    var twice := ProcessFragment(ctx, None, ProcessFragment(ctx, scope, once));
    forall i | 0 <= i < |f.children| ensures twice.children[i] == once.children[i] {
      ChildRepeatedPasses(ctx, scope, scope, f.children[i]);
    }
  }

  // ---------------------------------------------------------------------------------
  // Expressions, bodies and declarations

  /** The generic walk is idempotent. */
  lemma {:induction false} WalkIdempotent(ctx: Context, scope: Option<string>, e: Expr)
    ensures WalkExpr(ctx, scope, WalkExpr(ctx, scope, e)) == WalkExpr(ctx, scope, e)
    decreases e
  {
    match e
    case JsxElementExpr(el) => ElementIdempotent(ctx, scope, el);
    case JsxFragmentExpr(f) => FragmentIdempotent(ctx, scope, f);
    case Cond(t, c, a) =>
      WalkIdempotent(ctx, scope, t);
      WalkIdempotent(ctx, scope, c);
      WalkIdempotent(ctx, scope, a);
    case Paren(x) => WalkIdempotent(ctx, scope, x);
    case OtherExpr(ops) =>
      var r := WalkExpr(ctx, scope, e);
      var r2 := WalkExpr(ctx, scope, r);
      forall i | 0 <= i < |ops| ensures r2.operands[i] == r.operands[i] {
        WalkIdempotent(ctx, scope, ops[i]);
      }
  }

  /** A returned expression: scoped pass then walk, done twice, is done once. */
  lemma {:induction false} ReturnRepeatedPasses(ctx: Context, scope: Option<string>, e: Expr)
    ensures var once := WalkExpr(ctx, None, ScopedReturn(ctx, scope, e));
      WalkExpr(ctx, None, ScopedReturn(ctx, scope, once)) == once
    decreases e
  {
    match e
    case JsxElementExpr(el) => ElementRepeatedPasses(ctx, scope, el);
    case JsxFragmentExpr(f) => FragmentRepeatedPasses(ctx, scope, f);
    case Cond(t, c, a) =>
      WalkIdempotent(ctx, None, t);
      ReturnRepeatedPasses(ctx, scope, c);
      ReturnRepeatedPasses(ctx, scope, a);
    case Paren(x) => ReturnRepeatedPasses(ctx, scope, x);
    case OtherExpr(_) => WalkIdempotent(ctx, None, e);
  }

  lemma StmtRepeatedPasses(ctx: Context, scope: Option<string>, s: Stmt)
    ensures var once := WalkStmt(ctx, None, ScopedStmt(ctx, scope, s));
      WalkStmt(ctx, None, ScopedStmt(ctx, scope, once)) == once
  {
    match s
    case Return(arg) => if arg.Some? { ReturnRepeatedPasses(ctx, scope, arg.value); }
    case ExprStmt(e) => WalkIdempotent(ctx, None, e);
    case OtherStmt =>
  }

  lemma BodyRepeatedPasses(ctx: Context, scope: Option<string>, stmts: seq<Stmt>)
    ensures var once := WalkBody(ctx, None, ScopedBody(ctx, scope, stmts));
      WalkBody(ctx, None, ScopedBody(ctx, scope, once)) == once
  {
    var once := WalkBody(ctx, None, ScopedBody(ctx, scope, stmts));
    var twice := WalkBody(ctx, None, ScopedBody(ctx, scope, once));
    forall i | 0 <= i < |stmts| ensures twice[i] == once[i] {
      StmtRepeatedPasses(ctx, scope, stmts[i]);
    }
  }

  lemma WalkStmtIdempotent(ctx: Context, scope: Option<string>, s: Stmt)
    ensures WalkStmt(ctx, scope, WalkStmt(ctx, scope, s)) == WalkStmt(ctx, scope, s)
  {
    match s
    case Return(arg) => if arg.Some? { WalkIdempotent(ctx, scope, arg.value); }
    case ExprStmt(e) => WalkIdempotent(ctx, scope, e);
    case OtherStmt =>
  }

  lemma WalkBodyIdempotent(ctx: Context, scope: Option<string>, stmts: seq<Stmt>)
    ensures WalkBody(ctx, scope, WalkBody(ctx, scope, stmts)) == WalkBody(ctx, scope, stmts)
  {
    var r := WalkBody(ctx, scope, stmts);
    var r2 := WalkBody(ctx, scope, r);
    forall i | 0 <= i < |stmts| ensures r2[i] == r[i] {
      WalkStmtIdempotent(ctx, scope, stmts[i]);
    }
  }

  lemma WalkInitIdempotent(ctx: Context, scope: Option<string>, init: Init)
    ensures WalkInit(ctx, scope, WalkInit(ctx, scope, init)) == WalkInit(ctx, scope, init)
  {
    match init
    case Arrow(BlockBody(stmts)) => WalkBodyIdempotent(ctx, scope, stmts);
    case Arrow(ExprBody(e)) => WalkIdempotent(ctx, scope, e);
    case FnExpr(body) => if body.Some? { WalkBodyIdempotent(ctx, scope, body.value); }
    case PlainInit(e) => WalkIdempotent(ctx, scope, e);
  }

  lemma FnDeclIdempotent(ctx: Context, d: FnDecl)
    ensures VisitFnDecl(ctx, None, VisitFnDecl(ctx, None, d)) == VisitFnDecl(ctx, None, d)
  {
    if d.body.Some? { BodyRepeatedPasses(ctx, Some(d.ident), d.body.value); }
  }

  lemma VarDeclaratorIdempotent(ctx: Context, d: VarDeclarator)
    ensures VisitVarDeclarator(ctx, None, VisitVarDeclarator(ctx, None, d)) == VisitVarDeclarator(ctx, None, d)
  {
    if d.init.Some? {
      var init := d.init.value;
      if d.binding.PatIdent? {
        var n := Some(d.binding.name);
        match init
        case Arrow(BlockBody(stmts)) => BodyRepeatedPasses(ctx, n, stmts);
        case Arrow(ExprBody(e)) => ReturnRepeatedPasses(ctx, n, e);
        case FnExpr(body) => if body.Some? { BodyRepeatedPasses(ctx, n, body.value); }
        case PlainInit(e) => WalkIdempotent(ctx, None, e);
      } else {
        WalkInitIdempotent(ctx, None, init);
      }
    }
  }

  lemma MemberRepeatedPasses(ctx: Context, component: string, m: ClassMember)
    ensures var once := WalkMember(ctx, None, ScopedMember(ctx, component, m));
      WalkMember(ctx, None, ScopedMember(ctx, component, once)) == once
  {
    if IsRender(m) {
      BodyRepeatedPasses(ctx, Some(component), m.body.value);
    } else if m.Method? && m.body.Some? {
      WalkBodyIdempotent(ctx, None, m.body.value);
    }
  }

  lemma ClassDeclIdempotent(ctx: Context, c: ClassDecl)
    ensures VisitClassDecl(ctx, None, VisitClassDecl(ctx, None, c)) == VisitClassDecl(ctx, None, c)
  {
    var once := VisitClassDecl(ctx, None, c);
    var twice := VisitClassDecl(ctx, None, once);
    forall i | 0 <= i < |c.members| ensures twice.members[i] == once.members[i] {
      MemberRepeatedPasses(ctx, c.ident, c.members[i]);
    }
  }

  lemma ItemIdempotent(ctx: Context, item: Item)
    ensures VisitItem(ctx, None, VisitItem(ctx, None, item)) == VisitItem(ctx, None, item)
  {
    match item
    case FnItem(d) => FnDeclIdempotent(ctx, d);
    case VarItem(d) => VarDeclaratorIdempotent(ctx, d);
    case ClassItem(c) => ClassDeclIdempotent(ctx, c);
    case ExprItem(e) => WalkIdempotent(ctx, None, e);
    case OtherItem =>
  }

  /** Starting from no scope, every handler leaves no scope behind, so each item is
      visited with none. */
  lemma {:induction false} VisitItemsWithoutScope(ctx: Context, items: seq<Item>)
    ensures forall i :: 0 <= i < |items| ==> VisitItems(ctx, None, items)[i] == VisitItem(ctx, None, items[i])
    decreases |items|
  {
    if |items| > 0 {
      assert ScopeAfterItem(None, items[0]) == None;
      VisitItemsWithoutScope(ctx, items[1..]);
      var r := VisitItems(ctx, None, items);
      forall i | 0 <= i < |items| ensures r[i] == VisitItem(ctx, None, items[i]) {
        if i > 0 { assert items[1..][i - 1] == items[i]; }
      }
    }
  }

  /** Running the annotation pass over its own output changes nothing: no attribute is
      ever added twice. */
  lemma ProgramIdempotent(ctx: Context, items: seq<Item>)
    ensures VisitItems(ctx, None, VisitItems(ctx, None, items)) == VisitItems(ctx, None, items)
  {
    var once := VisitItems(ctx, None, items);
    var twice := VisitItems(ctx, None, once);
    VisitItemsWithoutScope(ctx, items);
    VisitItemsWithoutScope(ctx, once);
    forall i | 0 <= i < |items| ensures twice[i] == once[i] {
      ItemIdempotent(ctx, items[i]);
    }
  }
}
