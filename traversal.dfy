/** The annotation pass on values. The scope the visitor keeps in its mutable field is
    threaded here as a parameter; module Visitor proves its methods equal to these
    functions. Two passes are described: the scoped pass a declaration handler runs over
    its returned markup, and the generic child walk that follows it
    (`visit_mut_children_with`), which reaches the same markup again with the scope the
    handler left behind. */
module Traversal {
  import opened Wrappers
  import opened Ast
  import opened JsxUtils
  import opened Rules

  // ---------------------------------------------------------------------------------
  // Markup: process_jsx_element and process_jsx_fragment

  /** `process_jsx_element` entered with `scope`: a named fragment is left alone and
      passes its scope to its element children; any other element is annotated and
      its element children are visited with no scope. Fragment children always keep
      the scope. */
  function ProcessElement(ctx: Context, scope: Option<string>, el: Element): (r: Element)
    ensures r.name == el.name && |r.children| == |el.children|
    ensures r.attrs == AnnotateAttrs(ctx, scope, el.name, el.attrs)
    decreases el
  {
    var transparent := IsReactFragment(el.name);
    var attrs := if transparent then el.attrs else AnnotateAttrs(ctx, scope, el.name, el.attrs);
    var elementScope := if transparent then scope else None;
    Element(el.name, attrs,
      seq(|el.children|, i requires 0 <= i < |el.children| =>
        ProcessChild(ctx, scope, elementScope, el.children[i])))
  }

  /** One child: an element child is visited in `elementScope`, a fragment child in
      `scope`, anything else is left as it is. */
  function ProcessChild(ctx: Context, scope: Option<string>, elementScope: Option<string>, c: Child): (r: Child)
    ensures r.ChildElement? <==> c.ChildElement?
    ensures r.ChildFragment? <==> c.ChildFragment?
    ensures c.ChildOther? ==> r == c
    decreases c
  {
    match c
    case ChildElement(e) => ChildElement(ProcessElement(ctx, elementScope, e))
    case ChildFragment(f) => ChildFragment(ProcessFragment(ctx, scope, f))
    case ChildOther => c
  }

  /** `process_jsx_fragment`: every child keeps the scope. */
  function ProcessFragment(ctx: Context, scope: Option<string>, f: Fragment): (r: Fragment)
    ensures |r.children| == |f.children|
    decreases f
  {
    Fragment(seq(|f.children|, i requires 0 <= i < |f.children| =>
      ProcessChild(ctx, scope, scope, f.children[i])))
  }

  // ---------------------------------------------------------------------------------
  // The scoped pass of a declaration: process_return_expression over return statements

  /** `process_return_expression`: markup is processed, both branches of `?:` and the
      inside of parentheses are followed, every other shape is left alone. */
  function ScopedReturn(ctx: Context, scope: Option<string>, e: Expr): (r: Expr)
    ensures e.Cond? ==> r.Cond? && r.test == e.test
    ensures e.OtherExpr? ==> r == e
    decreases e
  {
    match e
    case JsxElementExpr(el) => JsxElementExpr(ProcessElement(ctx, scope, el))
    case JsxFragmentExpr(f) => JsxFragmentExpr(ProcessFragment(ctx, scope, f))
    case Cond(test, cons, alt) => Cond(test, ScopedReturn(ctx, scope, cons), ScopedReturn(ctx, scope, alt))
    case Paren(inner) => Paren(ScopedReturn(ctx, scope, inner))
    case OtherExpr(_) => e
  }

  function ScopedStmt(ctx: Context, scope: Option<string>, s: Stmt): (r: Stmt)
    ensures !(s.Return? && s.arg.Some?) ==> r == s
  {
    if s.Return? && s.arg.Some? then Return(Some(ScopedReturn(ctx, scope, s.arg.value))) else s
  }

  /** The loop over a body's statements: only its own `return` statements are looked at. */
  function ScopedBody(ctx: Context, scope: Option<string>, stmts: seq<Stmt>): (r: seq<Stmt>)
    ensures |r| == |stmts|
    ensures forall i :: 0 <= i < |stmts| ==> r[i] == ScopedStmt(ctx, scope, stmts[i])
  {
    seq(|stmts|, i requires 0 <= i < |stmts| => ScopedStmt(ctx, scope, stmts[i]))
  }

  /** `find_jsx_in_function_body`: a body, if there is one, in the scope of the name. */
  function FindJsxInBody(ctx: Context, body: Option<seq<Stmt>>, component: string): (r: Option<seq<Stmt>>)
    ensures r.Some? <==> body.Some?
  {
    if body.Some? then Some(ScopedBody(ctx, Some(component), body.value)) else None
  }

  // ---------------------------------------------------------------------------------
  // The generic child walk (swc's visit_mut_children_with)

  /** The generic walk of an expression: every sub-expression is searched, and the first
      markup reached on each path is handed to the markup visitor in `scope`. */
  function WalkExpr(ctx: Context, scope: Option<string>, e: Expr): (r: Expr)
    ensures e.Cond? ==> r.Cond?
    ensures e.Paren? ==> r.Paren?
    ensures e.OtherExpr? ==> r.OtherExpr? && |r.operands| == |e.operands|
    decreases e
  {
    match e
    case JsxElementExpr(el) => JsxElementExpr(ProcessElement(ctx, scope, el))
    case JsxFragmentExpr(f) => JsxFragmentExpr(ProcessFragment(ctx, scope, f))
    case Cond(test, cons, alt) => Cond(WalkExpr(ctx, scope, test), WalkExpr(ctx, scope, cons), WalkExpr(ctx, scope, alt))
    case Paren(inner) => Paren(WalkExpr(ctx, scope, inner))
    case OtherExpr(ops) => OtherExpr(seq(|ops|, i requires 0 <= i < |ops| => WalkExpr(ctx, scope, ops[i])))
  }

  /** The walk of one statement: the expression of a `return` or an expression
      statement is searched; anything else is left alone. */
  function WalkStmt(ctx: Context, scope: Option<string>, s: Stmt): (r: Stmt)
    ensures s.Return? <==> r.Return?
    ensures s.Return? ==> (r.arg.Some? <==> s.arg.Some?)
    ensures s.OtherStmt? ==> r == s
  {
    match s
    case Return(arg) => if arg.Some? then Return(Some(WalkExpr(ctx, scope, arg.value))) else s
    case ExprStmt(e) => ExprStmt(WalkExpr(ctx, scope, e))
    case OtherStmt => s
  }

  function WalkBody(ctx: Context, scope: Option<string>, stmts: seq<Stmt>): (r: seq<Stmt>)
    ensures |r| == |stmts|
    ensures forall i :: 0 <= i < |stmts| ==> r[i] == WalkStmt(ctx, scope, stmts[i])
  {
    seq(|stmts|, i requires 0 <= i < |stmts| => WalkStmt(ctx, scope, stmts[i]))
  }

  function WalkOptBody(ctx: Context, scope: Option<string>, body: Option<seq<Stmt>>): (r: Option<seq<Stmt>>)
    ensures r.Some? <==> body.Some?
    ensures body.Some? ==> |r.value| == |body.value|
  {
    if body.Some? then Some(WalkBody(ctx, scope, body.value)) else None
  }

  function WalkInit(ctx: Context, scope: Option<string>, init: Init): (r: Init)
    ensures r.Arrow? <==> init.Arrow?
    ensures r.FnExpr? <==> init.FnExpr?
    ensures init.Arrow? ==> (r.body.BlockBody? <==> init.body.BlockBody?)
  {
    match init
    case Arrow(BlockBody(stmts)) => Arrow(BlockBody(WalkBody(ctx, scope, stmts)))
    case Arrow(ExprBody(e)) => Arrow(ExprBody(WalkExpr(ctx, scope, e)))
    case FnExpr(body) => FnExpr(WalkOptBody(ctx, scope, body))
    case PlainInit(e) => PlainInit(WalkExpr(ctx, scope, e))
  }

  /** The walk of a declarator reaches its initialiser; the binding is left alone. */
  function WalkDeclarator(ctx: Context, scope: Option<string>, d: VarDeclarator): (r: VarDeclarator)
    ensures r.binding == d.binding
    ensures r.init.Some? <==> d.init.Some?
  {
    if d.init.Some? then d.(init := Some(WalkInit(ctx, scope, d.init.value))) else d
  }

  /** The walk of a class member reaches a method's body; other members are left alone. */
  function WalkMember(ctx: Context, scope: Option<string>, m: ClassMember): (r: ClassMember)
    ensures r.Method? <==> m.Method?
    ensures m.Method? ==> r.key == m.key && (r.body.Some? <==> m.body.Some?)
    ensures !m.Method? ==> r == m
  {
    if m.Method? then m.(body := WalkOptBody(ctx, scope, m.body)) else m
  }

  // ---------------------------------------------------------------------------------
  // Declaration handlers: the scoped pass, then the generic walk

  /** `visit_mut_fn_decl`. */
  function VisitFnDecl(ctx: Context, scope: Option<string>, d: FnDecl): (r: FnDecl)
    ensures r.ident == d.ident
    ensures r.body.Some? <==> d.body.Some?
    ensures d.body.Some? ==> |r.body.value| == |d.body.value|
  {
    var body := FindJsxInBody(ctx, d.body, d.ident);
    FnDecl(d.ident, WalkOptBody(ctx, ScopeAfterFnDecl(scope, d), body))
  }

  /** The scope field after a handler: cleared when the handler seeded it. */
  function ScopeAfterFnDecl(scope: Option<string>, d: FnDecl): Option<string> {
    if d.body.Some? then None else scope
  }

  /** The arrow or function-expression initialiser in the scope of the binding's name. */
  function ScopedInit(ctx: Context, component: string, init: Init): (r: Init)
    ensures r.Arrow? <==> init.Arrow?
    ensures r.FnExpr? <==> init.FnExpr?
    ensures init.FnExpr? ==> (r.fnBody.Some? <==> init.fnBody.Some?)
    ensures init.PlainInit? ==> r == init
  {
    match init
    case Arrow(BlockBody(stmts)) => Arrow(BlockBody(ScopedBody(ctx, Some(component), stmts)))
    case Arrow(ExprBody(e)) => Arrow(ExprBody(ScopedReturn(ctx, Some(component), e)))
    case FnExpr(body) => FnExpr(FindJsxInBody(ctx, body, component))
    case PlainInit(_) => init
  }

  predicate DeclaratorSeeds(d: VarDeclarator) {
    d.binding.PatIdent? && d.init.Some? &&
    (d.init.value.Arrow? || (d.init.value.FnExpr? && d.init.value.fnBody.Some?))
  }

  function ScopeAfterDeclarator(scope: Option<string>, d: VarDeclarator): Option<string> {
    if DeclaratorSeeds(d) then None else scope
  }

  /** `visit_mut_var_declarator`. */
  function VisitVarDeclarator(ctx: Context, scope: Option<string>, d: VarDeclarator): (r: VarDeclarator)
    ensures r.binding == d.binding
    ensures r.init.Some? <==> d.init.Some?
    ensures d.init.Some? && d.init.value.PlainInit? ==> r.init.value.PlainInit?
  {
    var d1 :=
      if d.binding.PatIdent? && d.init.Some? then d.(init := Some(ScopedInit(ctx, d.binding.name, d.init.value)))
      else d;
    WalkDeclarator(ctx, ScopeAfterDeclarator(scope, d), d1)
  }

  /** A method named `render` (by identifier) that has a body. */
  predicate IsRender(m: ClassMember) {
    m.Method? && m.key == PropIdent("render") && m.body.Some?
  }

  function ScopedMember(ctx: Context, component: string, m: ClassMember): (r: ClassMember)
    ensures !IsRender(m) ==> r == m
    ensures IsRender(m) ==> IsRender(r) && |r.body.value| == |m.body.value|
  {
    if IsRender(m) then m.(body := Some(ScopedBody(ctx, Some(component), m.body.value))) else m
  }

  predicate ClassSeeds(c: ClassDecl) {
    exists i :: 0 <= i < |c.members| && IsRender(c.members[i])
  }

  function ScopeAfterClassDecl(scope: Option<string>, c: ClassDecl): Option<string> {
    if ClassSeeds(c) then None else scope
  }

  /** `visit_mut_class_decl`: every `render` method in the scope of the class name, then
      the generic walk over all members. */
  function VisitClassDecl(ctx: Context, scope: Option<string>, c: ClassDecl): (r: ClassDecl)
    ensures r.ident == c.ident && |r.members| == |c.members|
    ensures forall i :: 0 <= i < |c.members| ==> (r.members[i].Method? <==> c.members[i].Method?)
  {
    var after := ScopeAfterClassDecl(scope, c);
    ClassDecl(c.ident, seq(|c.members|, i requires 0 <= i < |c.members| =>
      WalkMember(ctx, after, ScopedMember(ctx, c.ident, c.members[i]))))
  }

  /** One module item goes to the handler for its kind; an expression item only gets the
      generic walk. */
  function VisitItem(ctx: Context, scope: Option<string>, item: Item): (r: Item)
    ensures r.FnItem? <==> item.FnItem?
    ensures r.VarItem? <==> item.VarItem?
    ensures r.ClassItem? <==> item.ClassItem?
    ensures r.ExprItem? <==> item.ExprItem?
    ensures item.OtherItem? ==> r == item
  {
    match item
    case FnItem(d) => FnItem(VisitFnDecl(ctx, scope, d))
    case VarItem(d) => VarItem(VisitVarDeclarator(ctx, scope, d))
    case ClassItem(c) => ClassItem(VisitClassDecl(ctx, scope, c))
    case ExprItem(e) => ExprItem(WalkExpr(ctx, scope, e))
    case OtherItem => item
  }

  /** The scope field after one item's handler: cleared by a handler that seeded it,
      kept otherwise. */
  function ScopeAfterItem(scope: Option<string>, item: Item): (r: Option<string>)
    ensures r == scope || r.None?
    ensures item.ExprItem? || item.OtherItem? ==> r == scope
  {
    match item
    case FnItem(d) => ScopeAfterFnDecl(scope, d)
    case VarItem(d) => ScopeAfterDeclarator(scope, d)
    case ClassItem(c) => ScopeAfterClassDecl(scope, c)
    case _ => scope
  }

  /** The whole module, items in order, the scope field carried from one to the next. */
  function VisitItems(ctx: Context, scope: Option<string>, items: seq<Item>): (r: seq<Item>)
    ensures |r| == |items|
    decreases |items|
  {
    if |items| == 0 then []
    else [VisitItem(ctx, scope, items[0])] + VisitItems(ctx, ScopeAfterItem(scope, items[0]), items[1..])
  }

  /** The scope field after the whole module: each handler leaves either the scope it
      found or none, so a module entered with no scope ends with none. */
  function ScopeAfterItems(scope: Option<string>, items: seq<Item>): (r: Option<string>)
    ensures r == scope || r.None?
    decreases |items|
  {
    if |items| == 0 then scope else ScopeAfterItems(ScopeAfterItem(scope, items[0]), items[1..])
  }
}
