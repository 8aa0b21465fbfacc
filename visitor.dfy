/** `ReactComponentAnnotateVisitor`: the visitor object whose one mutable field, the
    current component name, is seeded by the declaration handlers, taken and restored
    around the children of real elements, and cleared when a handler is done. Every
    rewritten subtree is returned; each method is proved equal to its counterpart in
    module Traversal, evaluated in the scope the field holds on entry. */
module Visitor {
  import opened Wrappers
  import opened Ast
  import opened Config
  import opened JsxUtils
  import opened PathUtils
  import opened Rules
  import opened Traversal

  class ReactComponentAnnotateVisitor {
    const config: PluginConfig
    const sourceFileName: Option<string>
    var currentComponentName: Option<string>
    const ignoredElements: set<string>
    const ignoredComponentsSet: set<string>

    /** The pre-computed set holds exactly the configured ignored component names. */
    ghost predicate Valid() {
      ignoredComponentsSet == (set c | c in config.ignoredComponents)
    }

    /** What the rules read from the visitor, apart from the scope field. */
    function Ctx(): (ctx: Context)
      ensures ctx.config == config && ctx.sourceFileName == sourceFileName
      ensures ctx.ignoredElements == ignoredElements && ctx.ignoredComponents == ignoredComponentsSet
    {
      Context(config, sourceFileName, ignoredElements, ignoredComponentsSet)
    }

    /** `new`: the short file name, no scope, the known tags and the ignored names as a
        set. The known tags come in as a parameter. */
    constructor (config: PluginConfig, filename: string, ignoredElements: set<string>)
      ensures Valid()
      ensures this.config == config && this.ignoredElements == ignoredElements
      ensures sourceFileName == ExtractCustomFilename(filename)
      ensures currentComponentName == None
    {
      this.config := config;
      this.sourceFileName := ExtractCustomFilename(filename);
      this.currentComponentName := None;
      this.ignoredElements := ignoredElements;
      this.ignoredComponentsSet := set c | c in config.ignoredComponents;
    }

    function ShouldIgnoreComponent(componentName: string): (b: bool)
      requires Valid()
      ensures b <==> exists i :: 0 <= i < |config.ignoredComponents| && config.ignoredComponents[i] == componentName
    {
      componentName in ignoredComponentsSet
    }

    function ShouldIgnoreElement(elementName: string): (b: bool)
      ensures b <==> KnownTag(Ctx(), Ident(elementName))
    {
      elementName in ignoredElements
    }

    /** `add_attributes_to_element`, with its early returns and its three guarded pushes. */
    method AddAttributesToElement(el: Element) returns (r: Element)
      requires Valid()
      ensures r == el.(attrs := AnnotateAttrs(Ctx(), currentComponentName, el.name, el.attrs))
    {
      var elementName := ElementNameText(el.name);
      if IsReactFragment(el.name) {
        return el;
      }
      if currentComponentName.Some? && ShouldIgnoreComponent(currentComponentName.value) {
        return el;
      }
      if ShouldIgnoreComponent(elementName) {
        return el;
      }
      var isIgnoredHtml := ShouldIgnoreElement(elementName);
      var attrs := el.attrs;
      if !isIgnoredHtml && !HasAttribute(attrs, ElementAttrName(config))
        && (ComponentAttrName(config) != ElementAttrName(config) || currentComponentName.None?)
      {
        attrs := attrs + [CreateJsxAttr(ElementAttrName(config), elementName)];
      }
      if currentComponentName.Some? {
        if !HasAttribute(attrs, ComponentAttrName(config)) {
          attrs := attrs + [CreateJsxAttr(ComponentAttrName(config), currentComponentName.value)];
        }
      }
      if sourceFileName.Some? {
        if (currentComponentName.Some? || !isIgnoredHtml) && !HasAttribute(attrs, SourceFileAttrName(config)) {
          attrs := attrs + [CreateJsxAttr(SourceFileAttrName(config), sourceFileName.value)];
        }
      }
      r := el.(attrs := attrs);
    }

    /** `process_jsx_element`: annotate unless a named fragment, then visit the children;
        around a real element's element children the scope is taken and restored. */
    method ProcessJsxElement(el: Element) returns (r: Element)
      requires Valid()
      modifies this
      ensures currentComponentName == old(currentComponentName)
      ensures r == ProcessElement(Ctx(), currentComponentName, el)
      decreases el, 1
    {
      var scope := currentComponentName;
      var isFragment := IsReactFragment(el.name);
      var opening := el;
      if !isFragment {
        opening := AddAttributesToElement(el);
      }
      ghost var elementScope := if isFragment then scope else None;
      var children: seq<Child> := [];
      var i := 0;
      while i < |el.children|
        invariant 0 <= i <= |el.children|
        invariant currentComponentName == scope
        invariant |children| == i
        invariant forall j :: 0 <= j < i ==> children[j] == ProcessChild(Ctx(), scope, elementScope, el.children[j])
      {
        var child := el.children[i];
        assert child in el.children;
        match child {
          case ChildElement(e) =>
            var e2;
            if isFragment {
              e2 := VisitMutJsxElement(e);
            } else {
              var prevComponent := currentComponentName;
              currentComponentName := None;
              e2 := VisitMutJsxElement(e);
              currentComponentName := prevComponent;
            }
            children := children + [ChildElement(e2)];
          case ChildFragment(f) =>
            var f2 := VisitMutJsxFragment(f);
            children := children + [ChildFragment(f2)];
          case ChildOther =>
            children := children + [child];
        }
        i := i + 1;
      }
      r := Element(el.name, opening.attrs, children);
    }

    /** `process_jsx_fragment`: every child is visited in the current scope. */
    method ProcessJsxFragment(f: Fragment) returns (r: Fragment)
      requires Valid()
      modifies this
      ensures currentComponentName == old(currentComponentName)
      ensures r == ProcessFragment(Ctx(), currentComponentName, f)
      decreases f, 1
    {
      var scope := currentComponentName;
      var children: seq<Child> := [];
      var i := 0;
      while i < |f.children|
        invariant 0 <= i <= |f.children|
        invariant currentComponentName == scope
        invariant |children| == i
        invariant forall j :: 0 <= j < i ==> children[j] == ProcessChild(Ctx(), scope, scope, f.children[j])
      {
        var child := f.children[i];
        assert child in f.children;
        match child {
          case ChildElement(e) =>
            var e2 := VisitMutJsxElement(e);
            children := children + [ChildElement(e2)];
          case ChildFragment(g) =>
            var g2 := VisitMutJsxFragment(g);
            children := children + [ChildFragment(g2)];
          case ChildOther =>
            children := children + [child];
        }
        i := i + 1;
      }
      r := Fragment(children);
    }

    /** `visit_mut_jsx_element`. */
    method VisitMutJsxElement(el: Element) returns (r: Element)
      requires Valid()
      modifies this
      ensures currentComponentName == old(currentComponentName)
      ensures r == ProcessElement(Ctx(), currentComponentName, el)
      decreases el, 2
    {
      r := ProcessJsxElement(el);
    }

    /** `visit_mut_jsx_fragment`. */
    method VisitMutJsxFragment(f: Fragment) returns (r: Fragment)
      requires Valid()
      modifies this
      ensures currentComponentName == old(currentComponentName)
      ensures r == ProcessFragment(Ctx(), currentComponentName, f)
      decreases f, 2
    {
      r := ProcessJsxFragment(f);
    }

    /** `process_return_expression`. */
    method ProcessReturnExpression(e: Expr) returns (r: Expr)
      requires Valid()
      modifies this
      ensures currentComponentName == old(currentComponentName)
      ensures r == ScopedReturn(Ctx(), currentComponentName, e)
      decreases e
    {
      match e
      case JsxElementExpr(el) =>
        var el2 := VisitMutJsxElement(el);
        r := JsxElementExpr(el2);
      case JsxFragmentExpr(f) =>
        var f2 := VisitMutJsxFragment(f);
        r := JsxFragmentExpr(f2);
      case Cond(test, cons, alt) =>
        var cons2 := ProcessReturnExpression(cons);
        var alt2 := ProcessReturnExpression(alt);
        r := Cond(test, cons2, alt2);
      case Paren(inner) =>
        var inner2 := ProcessReturnExpression(inner);
        r := Paren(inner2);
      case OtherExpr(_) =>
        r := e;
    }

    /** The loop every handler runs over a body: the argument of each `return` goes to
        `process_return_expression`. */
    method ProcessReturns(stmts: seq<Stmt>) returns (r: seq<Stmt>)
      requires Valid()
      modifies this
      ensures currentComponentName == old(currentComponentName)
      ensures r == ScopedBody(Ctx(), currentComponentName, stmts)
    {
      var scope := currentComponentName;
      r := [];
      var i := 0;
      while i < |stmts|
        invariant 0 <= i <= |stmts|
        invariant currentComponentName == scope
        invariant |r| == i
        invariant forall j :: 0 <= j < i ==> r[j] == ScopedStmt(Ctx(), scope, stmts[j])
      {
        var stmt := stmts[i];
        if stmt.Return? && stmt.arg.Some? {
          var arg := ProcessReturnExpression(stmt.arg.value);
          stmt := Return(Some(arg));
        }
        r := r + [stmt];
        i := i + 1;
      }
    }

    /** `find_jsx_in_function_body`: a body is seeded with the name, scanned, and the
        scope cleared; without a body nothing happens. */
    method FindJsxInFunctionBody(body: Option<seq<Stmt>>, componentName: string) returns (r: Option<seq<Stmt>>)
      requires Valid()
      modifies this
      ensures r == FindJsxInBody(Ctx(), body, componentName)
      ensures currentComponentName == if body.Some? then None else old(currentComponentName)
    {
      r := body;
      if body.Some? {
        currentComponentName := Some(componentName);
        var stmts := ProcessReturns(body.value);
        r := Some(stmts);
        currentComponentName := None;
      }
    }

    /** `visit_mut_fn_decl`: the scoped pass, then the generic walk. */
    method VisitMutFnDecl(d: FnDecl) returns (r: FnDecl)
      requires Valid()
      modifies this
      ensures r == VisitFnDecl(Ctx(), old(currentComponentName), d)
      ensures currentComponentName == ScopeAfterFnDecl(old(currentComponentName), d)
    {
      var body := FindJsxInFunctionBody(d.body, d.ident);
      r := FnDecl(d.ident, WalkOptBody(Ctx(), currentComponentName, body));
    }

    /** `visit_mut_var_declarator`: an identifier bound to an arrow function or a function
        expression is a component; then the generic walk. */
    method VisitMutVarDeclarator(d: VarDeclarator) returns (r: VarDeclarator)
      requires Valid()
      modifies this
      ensures r == VisitVarDeclarator(Ctx(), old(currentComponentName), d)
      ensures currentComponentName == ScopeAfterDeclarator(old(currentComponentName), d)
    {
      var d1 := d;
      if d.binding.PatIdent? && d.init.Some? {
        var componentName := d.binding.name;
        match d.init.value
        case Arrow(body) =>
          currentComponentName := Some(componentName);
          match body {
            case BlockBody(stmts) =>
              var stmts2 := ProcessReturns(stmts);
              d1 := d.(init := Some(Arrow(BlockBody(stmts2))));
            case ExprBody(e) =>
              var e2 := ProcessReturnExpression(e);
              d1 := d.(init := Some(Arrow(ExprBody(e2))));
          }
          currentComponentName := None;
        case FnExpr(fnBody) =>
          var fnBody2 := FindJsxInFunctionBody(fnBody, componentName);
          d1 := d.(init := Some(FnExpr(fnBody2)));
        case PlainInit(_) =>
      }
      r := WalkDeclarator(Ctx(), currentComponentName, d1);
    }

    /** `visit_mut_class_decl`: every `render` method with a body is scanned in the scope
        of the class name, then the generic walk runs over all members. */
    method VisitMutClassDecl(c: ClassDecl) returns (r: ClassDecl)
      requires Valid()
      modifies this
      ensures r == VisitClassDecl(Ctx(), old(currentComponentName), c)
      ensures currentComponentName == ScopeAfterClassDecl(old(currentComponentName), c)
    {
      var scope := currentComponentName;
      var members: seq<ClassMember> := [];
      var i := 0;
      while i < |c.members|
        invariant 0 <= i <= |c.members|
        invariant |members| == i
        invariant forall j :: 0 <= j < i ==> members[j] == ScopedMember(Ctx(), c.ident, c.members[j])
        invariant currentComponentName == if exists j :: 0 <= j < i && IsRender(c.members[j]) then None else scope
      {
        var member := c.members[i];
        if IsRender(member) {
          currentComponentName := Some(c.ident);
          var stmts := ProcessReturns(member.body.value);
          member := member.(body := Some(stmts));
          currentComponentName := None;
        }
        members := members + [member];
        i := i + 1;
      }
      var after := currentComponentName;
      assert after == ScopeAfterClassDecl(scope, c);
      r := ClassDecl(c.ident, seq(|members|, j requires 0 <= j < |members| => WalkMember(Ctx(), after, members[j])));
    }

    /** One module item: a declaration goes to its handler, an expression to the
        generic walk. */
    method VisitMutItem(item: Item) returns (r: Item)
      requires Valid()
      modifies this
      ensures r == VisitItem(Ctx(), old(currentComponentName), item)
      ensures currentComponentName == ScopeAfterItem(old(currentComponentName), item)
    {
      match item
      case FnItem(d) =>
        var d2 := VisitMutFnDecl(d);
        r := FnItem(d2);
      case VarItem(d) =>
        var d2 := VisitMutVarDeclarator(d);
        r := VarItem(d2);
      case ClassItem(c) =>
        var c2 := VisitMutClassDecl(c);
        r := ClassItem(c2);
      case ExprItem(e) =>
        r := ExprItem(WalkExpr(Ctx(), currentComponentName, e));
      case OtherItem =>
        r := item;
    }

    /** `program.visit_mut_with(visitor)`: the items in order, the scope field carried
        from each handler to the next. */
    method VisitProgram(items: seq<Item>) returns (r: seq<Item>)
      requires Valid()
      modifies this
      ensures r == VisitItems(Ctx(), old(currentComponentName), items)
      ensures currentComponentName == ScopeAfterItems(old(currentComponentName), items)
    {
      r := [];
      var i := 0;
      while i < |items|
        invariant 0 <= i <= |items|
        invariant VisitItems(Ctx(), old(currentComponentName), items) == r + VisitItems(Ctx(), currentComponentName, items[i..])
        invariant ScopeAfterItems(old(currentComponentName), items) == ScopeAfterItems(currentComponentName, items[i..])
      {
        assert items[i..][1..] == items[i + 1..];
        var item := VisitMutItem(items[i]);
        r := r + [item];
        i := i + 1;
      }
      assert items[i..] == [];
    }
  }

  /** The visitor part of `process_transform`: a fresh visitor over the whole module. */
  method AnnotateProgram(config: PluginConfig, filename: string, ignoredElements: set<string>, items: seq<Item>)
    returns (r: seq<Item>)
    ensures r == VisitItems(Context(config, ExtractCustomFilename(filename), ignoredElements,
                                    set c | c in config.ignoredComponents), None, items)
  {
    var visitor := new ReactComponentAnnotateVisitor(config, filename, ignoredElements);
    r := visitor.VisitProgram(items);
  }
}
