/** Structural helpers over markup nodes. */
module JsxUtils {
  import opened Ast
  import opened Strings

  /** `is_react_fragment`: the identifier `Fragment`, or `React.Fragment` with
      `React` a plain identifier. */
  predicate IsReactFragment(n: ElementName) {
    match n
    case Ident(name) => name == "Fragment"
    case Member(obj, prop) => obj.ObjIdent? && obj.name == "React" && prop == "Fragment"
    case Namespaced(_, _) => false
  }

  /** `get_member_expression_name`: every segment, left to right, joined with `.`. */
  function MemberExpressionName(obj: JsxObject, prop: string): (r: string)
    ensures EndsWith(r, "." + prop)
  {
    match obj
    case ObjIdent(name) => name + "." + prop
    case ObjMember(inner, innerProp) => MemberExpressionName(inner, innerProp) + "." + prop
  }

  /** `get_element_name`: the display name of a tag. */
  function ElementNameText(n: ElementName): (r: string)
    ensures n.Ident? ==> r == n.name
    ensures n.Namespaced? ==> r == n.ns + ":" + n.local
    ensures n.Member? ==> EndsWith(r, "." + n.prop)
  {
    match n
    case Ident(name) => name
    case Member(obj, prop) => MemberExpressionName(obj, prop)
    case Namespaced(ns, local) => ns + ":" + local
  }

  /** The identifier segments of a member object, outermost first. */
  function Segments(obj: JsxObject): (r: seq<string>)
    ensures |r| >= 1
  {
    match obj
    case ObjIdent(name) => [name]
    case ObjMember(inner, prop) => Segments(inner) + [prop]
  }

  /** One segment per member level. */
  function Depth(obj: JsxObject): nat {
    match obj
    case ObjIdent(_) => 1
    case ObjMember(inner, _) => Depth(inner) + 1
  }

  /** A JavaScript identifier never holds `.` or `:`; the model's strings may, so the
      lemmas that need it say so. */
  predicate IdentText(s: string) {
    '.' !in s && ':' !in s
  }

  predicate WellFormedObject(obj: JsxObject) {
    match obj
    case ObjIdent(name) => IdentText(name)
    case ObjMember(inner, prop) => WellFormedObject(inner) && IdentText(prop)
  }

  predicate WellFormedName(n: ElementName) {
    match n
    case Ident(name) => IdentText(name)
    case Member(obj, prop) => WellFormedObject(obj) && IdentText(prop)
    case Namespaced(ns, local) => IdentText(ns) && IdentText(local)
  }

  lemma {:induction false} SegmentsDepth(obj: JsxObject)
    ensures |Segments(obj)| == Depth(obj)
  {
    match obj
    case ObjIdent(_) =>
    case ObjMember(inner, _) => SegmentsDepth(inner);
  }

  lemma {:induction false} JoinAppend(parts: seq<string>, last: string, sep: char)
    requires |parts| >= 1
    ensures Join(parts + [last], sep) == Join(parts, sep) + [sep] + last
  {
    if |parts| > 1 {
      JoinAppend(parts[1..], last, sep);
      assert (parts + [last])[1..] == parts[1..] + [last];
    }
  }

  /** The member display name is the segments joined with `.`, one segment for the
      object's every level plus the property: `Components.UI.Card.Header`. */
  lemma {:induction false} MemberNameIsJoin(obj: JsxObject, prop: string)
    ensures MemberExpressionName(obj, prop) == Join(Segments(obj) + [prop], '.')
    ensures |Segments(obj) + [prop]| == Depth(obj) + 1
  {
    SegmentsDepth(obj);
    match obj
    case ObjIdent(name) =>
      assert [name] + [prop] == [name, prop];
    case ObjMember(inner, innerProp) =>
      MemberNameIsJoin(inner, innerProp);
      JoinAppend(Segments(inner) + [innerProp], prop, '.');
  }

  lemma {:induction false} SegmentsWellFormed(obj: JsxObject)
    requires WellFormedObject(obj)
    ensures forall i :: 0 <= i < |Segments(obj)| ==> IdentText(Segments(obj)[i])
  {
    match obj
    case ObjIdent(_) =>
    case ObjMember(inner, _) => SegmentsWellFormed(inner);
  }

  /** Splitting a member display name at `.` gives back exactly its segments: the name
      holds one dot per member level. */
  lemma MemberNameSplits(obj: JsxObject, prop: string)
    requires WellFormedObject(obj) && IdentText(prop)
    ensures Split(MemberExpressionName(obj, prop), '.') == Segments(obj) + [prop]
    ensures |Split(MemberExpressionName(obj, prop), '.')| == Depth(obj) + 1
  {
    MemberNameIsJoin(obj, prop);
    SegmentsWellFormed(obj);
    var parts := Segments(obj) + [prop];
    assert forall i :: 0 <= i < |parts| ==> '.' !in parts[i] by {
      forall i | 0 <= i < |parts| ensures '.' !in parts[i] {
        if i < |Segments(obj)| { assert parts[i] == Segments(obj)[i]; }
      }
    }
    SplitJoin(parts, '.');
  }

  /** Recognising a named fragment is the same as its display name being `Fragment`
      or `React.Fragment`, for tags made of identifiers. */
  lemma FragmentByDisplayName(n: ElementName)
    requires WellFormedName(n)
    ensures IsReactFragment(n) <==> ElementNameText(n) == "Fragment" || ElementNameText(n) == "React.Fragment"
  {
    match n
    case Ident(name) =>
      assert "React.Fragment"[5] == '.';
    case Namespaced(ns, local) =>
      NamespacedNotFragment(ns, local);
    case Member(obj, prop) =>
      MemberFragmentText(obj, prop);
  }

  lemma NamespacedNotFragment(ns: string, local: string)
    ensures ns + ":" + local != "Fragment" && ns + ":" + local != "React.Fragment"
  {
    var t := ns + ":" + local;
    assert t[|ns|] == ':';
    assert ':' !in "Fragment" && ':' !in "React.Fragment";
  }

  lemma MemberFragmentText(obj: JsxObject, prop: string)
    requires WellFormedObject(obj) && IdentText(prop)
    ensures (obj == ObjIdent("React") && prop == "Fragment") <==>
      (MemberExpressionName(obj, prop) == "Fragment" || MemberExpressionName(obj, prop) == "React.Fragment")
  {
    var t := MemberExpressionName(obj, prop);
    if t == "React.Fragment" {
      MemberReactFragment(obj, prop);
    }
    if t == "Fragment" {
      MemberNotFragment(obj, prop);
    }
  }

  lemma MemberReactFragment(obj: JsxObject, prop: string)
    requires WellFormedObject(obj) && IdentText(prop)
    requires MemberExpressionName(obj, prop) == "React.Fragment"
    ensures obj == ObjIdent("React") && prop == "Fragment"
  {
    SplitReactFragment();
    MemberTwoSegments(obj, prop, "React", "Fragment");
  }

  lemma MemberTwoSegments(obj: JsxObject, prop: string, a: string, b: string)
    requires WellFormedObject(obj) && IdentText(prop)
    requires Split(MemberExpressionName(obj, prop), '.') == [a, b]
    ensures obj == ObjIdent(a) && prop == b
  {
    MemberNameSplits(obj, prop);
    var segs := Segments(obj);
    assert segs + [prop] == [a, b];
    assert |segs| == 1;
    match obj
    case ObjIdent(name) =>
      assert segs == [name];
      assert (segs + [prop])[0] == name && (segs + [prop])[1] == prop;
    case ObjMember(_, _) =>
  }

  /** A member display name always holds a dot, so it is never `Fragment`. */
  lemma MemberNotFragment(obj: JsxObject, prop: string)
    ensures '.' in MemberExpressionName(obj, prop)
    ensures MemberExpressionName(obj, prop) != "Fragment"
  {
    var t := MemberExpressionName(obj, prop);
    assert t[|t| - |prop| - 1..] == "." + prop;
    assert t[|t| - |prop| - 1] == '.';
    assert '.' !in "Fragment";
  }

  lemma SplitReactFragment()
    ensures Split("React.Fragment", '.') == ["React", "Fragment"]
  {
    SplitJoin(["React", "Fragment"], '.');
    assert Join(["React", "Fragment"], '.') == "React.Fragment";
  }

  /** True iff `attr` is a `name=...` attribute with identifier name `n`. */
  predicate NamedAttr(attr: Attr, n: string) {
    attr.JsxAttr? && attr.name == AttrIdent(n)
  }

  /** `has_attribute`: some entry is an attribute with identifier name `n`; spreads
      and namespaced names never match, and the value is not looked at. */
  function HasAttribute(attrs: seq<Attr>, n: string): (b: bool)
    ensures b <==> exists i :: 0 <= i < |attrs| && NamedAttr(attrs[i], n)
  {
    if |attrs| == 0 then false
    else NamedAttr(attrs[0], n) || HasAttribute(attrs[1..], n)
  }

  /** `create_jsx_attr`: an identifier-named attribute with a string value. */
  function CreateJsxAttr(n: string, value: string): (a: Attr)
    ensures NamedAttr(a, n) && a.value == StrValue(value)
  {
    JsxAttr(AttrIdent(n), StrValue(value))
  }

  /** After appending `create_jsx_attr(n, v)`, exactly the names present before and `n`
      test present. */
  lemma HasAttributeAfterAppend(attrs: seq<Attr>, n: string, v: string, m: string)
    ensures HasAttribute(attrs + [CreateJsxAttr(n, v)], m) <==> HasAttribute(attrs, m) || m == n
  {
    var r := attrs + [CreateJsxAttr(n, v)];
    if HasAttribute(attrs, m) {
      var i :| 0 <= i < |attrs| && NamedAttr(attrs[i], m);
      assert r[i] == attrs[i];
    }
    if m == n { assert NamedAttr(r[|attrs|], m); }
    if HasAttribute(r, m) {
      var i :| 0 <= i < |r| && NamedAttr(r[i], m);
      if i < |attrs| { assert attrs[i] == r[i]; }
    }
  }
}
