/** The part of the swc syntax tree the annotator looks at. Every shape it does not
    recognise is collapsed into an inert `Other…` alternative. */
module Ast {
  import opened Wrappers

  /** The object of a member tag: `A` in `A.B`, or a nested `A.B` in `A.B.C`. */
  datatype JsxObject = ObjIdent(name: string) | ObjMember(obj: JsxObject, prop: string)

  /** A tag reference: `Foo`, `A.B.C`, or `ns:name`. */
  datatype ElementName =
    | Ident(name: string)
    | Member(obj: JsxObject, prop: string)
    | Namespaced(ns: string, local: string)

  datatype AttrName = AttrIdent(name: string) | AttrNamespaced(ns: string, local: string)

  /** `NoValue` is a bare `disabled`; `ExprValue` an expression container or markup value. */
  datatype AttrValue = NoValue | StrValue(s: string) | ExprValue

  /** An entry of an opening element's attribute list: `name=value` or `{...spread}`. */
  datatype Attr = JsxAttr(name: AttrName, value: AttrValue) | Spread

  /** A markup element: tag, ordered attributes, children. */
  datatype Element = Element(name: ElementName, attrs: seq<Attr>, children: seq<Child>)

  /** A bare `<>…</>` fragment. */
  datatype Fragment = Fragment(children: seq<Child>)

  /** A child of an element or fragment; text, expression containers and spread
      children are `ChildOther`. */
  datatype Child = ChildElement(element: Element) | ChildFragment(fragment: Fragment) | ChildOther

  /** Expressions. `OtherExpr` is any other shape (call, `&&`, arrow, ...) together with
      those of its sub-expressions that the generic walk descends into. */
  datatype Expr =
    | JsxElementExpr(element: Element)
    | JsxFragmentExpr(fragment: Fragment)
    | Cond(test: Expr, cons: Expr, alt: Expr)
    | Paren(inner: Expr)
    | OtherExpr(operands: seq<Expr>)

  /** Statements of a function body: `return e;`, `return;`, a statement whose
      expression only the generic walk reaches, and an inert one. */
  datatype Stmt = Return(arg: Option<Expr>) | ExprStmt(expr: Expr) | OtherStmt

  datatype ArrowBody = BlockBody(stmts: seq<Stmt>) | ExprBody(expr: Expr)

  /** The initialiser of a variable binding. */
  datatype Init = Arrow(body: ArrowBody) | FnExpr(fnBody: Option<seq<Stmt>>) | PlainInit(expr: Expr)

  datatype Pat = PatIdent(name: string) | OtherPat

  datatype VarDeclarator = VarDeclarator(binding: Pat, init: Option<Init>)

  /** A function declaration; `body` is `None` for a declaration without one. */
  datatype FnDecl = FnDecl(ident: string, body: Option<seq<Stmt>>)

  datatype PropName = PropIdent(name: string) | OtherPropName

  datatype ClassMember = Method(key: PropName, body: Option<seq<Stmt>>) | OtherMember

  datatype ClassDecl = ClassDecl(ident: string, members: seq<ClassMember>)

  /** A top-level item of a module. */
  datatype Item =
    | FnItem(fnDecl: FnDecl)
    | VarItem(declarator: VarDeclarator)
    | ClassItem(classDecl: ClassDecl)
    | ExprItem(expr: Expr)
    | OtherItem
}
