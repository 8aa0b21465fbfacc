# swc-plugin-component-annotate, modelled in Dafny

This project models the core of the swc plugin `swc-plugin-component-annotate`. The plugin walks a JavaScript/JSX module and adds metadata attributes to JSX elements:

- `data-element`: the element's display name;
- `data-component`: the name of the React component whose returned root the element is;
- `data-source-file`: the short name of the file being transformed.

The model follows the plugin's own structure:

- `wrappers.dfy`, `strings.dfy`: `Option`, and string splitting and joining (the `split`/`collect` the path helpers use).
- `config.dfy` (module `Config`): `PluginConfig`, its derived default, and the four attribute-name resolvers. Each resolver returns an override, else the camelCase native name, else the kebab-case web name.
- `ast.dfy` (module `Ast`): a small closed JSX/ECMAScript tree. It has elements, fragments and children; expressions with `?:`, parentheses and an inert "other" shape that still holds sub-expressions; return and expression statements; function declarations; variable declarators with arrow or function-expression initialisers; classes with methods; and module items.
- `jsx_utils.dfy` (module `JsxUtils`): fragment recognition, display names (including dotted member paths and `ns:name`), the attribute-existence test and string-attribute construction.
- `path_utils.dfy` (module `PathUtils`): separator detection and the `FileName::Custom` branch of `extract_filename`, including the `index.*` parent-prefix rule.
- `rules.dfy` (module `Rules`): the attribute-injection decision of `add_attributes_to_element`, as a function of the visitor's context, the current scope, the element name and the attribute list. The lemmas cover:
  - prefix preservation, order and the bound of three;
  - idempotence and the exact condition for "nothing changes";
  - no duplicate names;
  - the exemption of ignored components, known tags and named fragments.
- `traversal.dfy` (module `Traversal`): the traversal on values, with the scope field threaded as a parameter. It has two parts:
  - the scoped pass that a declaration handler runs over its `return` statements;
  - the generic child walk (`visit_mut_children_with`) that follows it with the scope the handler left behind, which is none after a handler has seeded it.
- `traversal_props.dfy` (module `TraversalProps`): properties of the whole traversal:
  - how scope reaches children (real elements clear it; named fragments and `<>` pass it on);
  - the component attribute never appears below a real element;
  - the scope-less second visit adds nothing after a harmless first visit;
  - the whole pass is idempotent on a module.
- `visitor.dfy` (module `Visitor`): the class `ReactComponentAnnotateVisitor`. Its one mutable field `currentComponentName` is seeded, taken and restored, and cleared exactly where the source does it. Every handler is a method. Each method is proved to return what the value-level function in `Traversal` computes, and to leave the field where the source leaves it.
- `fixtures.dfy` (module `Fixtures`): the repository's fixtures, each reduced to the elements that show a rule, proved on the model.

### Ignored components with custom roots

The configuration documents `ignored_components` as the component names that annotation skips (src/config.rs:9-11). The ignored-components fixture only has ignored components whose roots are known markup tags (tests/fixture/react_ignored_components/input.jsx:3-29). The early return for an ignored component (src/lib.rs:111-115) fires only in the scoped pass, while `current_component_name` holds the declaration's name.

After the scoped pass, every declaration handler calls `visit_mut_children_with` (src/lib.rs:204, 244, 274). That walk reaches the same root again with `current_component_name` already `None`. On that visit, a root whose tag is not a known markup tag, such as `<Card/>`, is not exempt. It receives `data-element` and `data-source-file`. A root that is a known tag, such as `<div>`, still gets nothing, which is what the ignored-components fixture shows.

The model describes this behaviour as the code has it. `Fixtures.IgnoredComponentCustomRoot` states both halves: the scoped pass leaves `<Card/>` alone, and the whole handler adds the two attributes.

### Which configuration the ignored-components fixture runs with

The fixture runner gives the sentry overrides to `react_sentry_attrs` and `PluginConfig::default()`, whose ignore list is empty, to every other directory (tests/test.rs:38-48). Under that configuration nothing is ignored, so `IgnoredComponent`'s `<div>` gets `data-component` and `data-source-file`, which its expected output does not show. `Fixtures.RunnerConfig` models the runner as written, and `Fixtures.IgnoredFixtureAsRun` proves what it produces. `Fixtures.IntendedRunnerConfig` adds the ignore list that the expected output implies: `IgnoredComponent`, `AnotherIgnoredComponent` and `IgnoredClassComponent`. `Fixtures.IgnoredComponentFixture` and `Fixtures.IgnoredComponentCustomRoot` assume that configuration. See "## Findings".

## Model

| member | source | states |
|---|---|---|
| Config.Default | src/config.rs:3-32 | the derived default: not native, no ignored names, no overrides, rewrite flag off |
| Config.Resolve | src/config.rs:35-43 | an override wins; otherwise the camelCase name in native mode and the kebab-case name otherwise |
| Config.ComponentAttrName | src/config.rs:35-43 | override verbatim, else `dataComponent` when native, else `data-component` |
| Config.ElementAttrName | src/config.rs:45-53 | override verbatim, else `dataElement` when native, else `data-element` |
| Config.SourceFileAttrName | src/config.rs:55-63 | override verbatim, else `dataSourceFile` when native, else `data-source-file` |
| Config.SourcePathAttrName | src/config.rs:65-73 | override verbatim, else `dataSourcePath` when native, else `data-source-path` |
| Config.DefaultNamesDistinct | src/config.rs:35-73 | without overrides the four resolved names are pairwise distinct in either mode, so the element and component names always differ |
| Config.DefaultNames | src/config.rs:35-73 | the default configuration resolves to the four kebab-case names |
| Config.SentryConfig | tests/test.rs:41-45 | the sentry test configuration sets the component, element and source-file overrides |
| Config.SentryNames | tests/test.rs:41-45 | the overrides flow through; the unset source-path name keeps its default |
| Strings.StartsWith | src/path_utils.rs:55 | the `starts_with` test: the string begins with the prefix |
| Strings.Split | src/path_utils.rs:4-10 | `str::split`: at least one piece, none containing the separator |
| Strings.JoinSplit | src/path_utils.rs:4-10 | joining the pieces with the separator gives back the input |
| Strings.SplitJoin | src/path_utils.rs:4-10 | splitting a join of separator-free pieces gives back the pieces |
| PathUtils.ParseUnixPath | src/path_utils.rs:4-6 | the pieces between `/`: joining them gives the path back, and none holds `/` |
| PathUtils.ParseWindowsPath | src/path_utils.rs:8-10 | the pieces between `\`: joining them gives the path back, and none holds `\` |
| PathUtils.Separator | src/path_utils.rs:13-19 | a backslash when the path holds one, a forward slash otherwise |
| PathUtils.ParsePathWithDetection | src/path_utils.rs:13-19 | splits on `\` when the path holds one and on `/` otherwise; the pieces rejoin to the path and none holds a backslash |
| PathUtils.FilePart | src/path_utils.rs:48-52 | the last piece, which is a suffix of the input (the whole input when there is one piece) |
| PathUtils.ExtractCustomFilename | src/path_utils.rs:44-72 | the Custom branch always yields a name, and the name never holds a backslash |
| PathUtils.IndexFileGetsParent | src/path_utils.rs:55-68 | an `index.*` last piece with a parent yields `parent/file` |
| PathUtils.OtherFileIsLastSegment | src/path_utils.rs:48-52 | a last piece not starting with `index.` is the result |
| PathUtils.BareNameUnchanged | src/path_utils.rs:48-52 | a name without separators is returned as it is |
| PathUtils.TestFileName | tests/test.rs:19 | `test.jsx` yields `test.jsx` |
| PathUtils.DetectedParts | src/path_utils.rs:13-19 | pieces free of both separators, joined by either one, are split back into exactly those pieces |
| PathUtils.IndexPathOfThree | src/path_utils.rs:55-68 | `dir`, `parent`, `index.*` joined by `/` or by `\` both yield `parent/index.*` with a forward slash |
| PathUtils.LoneIndexExample | src/path_utils.rs:64-68 | a lone `index.tsx` is returned unchanged |
| JsxUtils.IsReactFragment | src/jsx_utils.rs:6-20 | `Fragment`, or the member `React.Fragment` with an identifier object; never a namespaced name (its meaning by display name is `JsxUtils.FragmentByDisplayName`) |
| JsxUtils.MemberExpressionName | src/jsx_utils.rs:37-50 | the dotted name always ends with `.` and the property |
| JsxUtils.ElementNameText | src/jsx_utils.rs:24-34 | an identifier's own text; `ns:name` for a namespaced name; a dotted path ending in the property for a member name |
| JsxUtils.Segments | src/jsx_utils.rs:37-50 | the object's segments, left to right, one per member level |
| JsxUtils.SegmentsDepth | src/jsx_utils.rs:37-50 | there is one segment per member level |
| JsxUtils.MemberNameIsJoin | src/jsx_utils.rs:37-50 | the member name is every segment and the property joined with `.` |
| JsxUtils.MemberNameSplits | src/jsx_utils.rs:37-50 | for identifier segments, splitting the name at `.` recovers exactly the segments and the property (one dot per level) |
| JsxUtils.FragmentByDisplayName | src/jsx_utils.rs:6-20 | for well-formed names, the fragment test holds exactly when the display name is `Fragment` or `React.Fragment` |
| JsxUtils.NamespacedNotFragment | src/jsx_utils.rs:18 | a namespaced name is never a fragment, and its display name is neither fragment spelling |
| JsxUtils.MemberFragmentText | src/jsx_utils.rs:9-17 | for identifier paths, a member name has object `React` and property `Fragment` exactly when its display name is one of the two fragment spellings |
| JsxUtils.MemberReactFragment | src/jsx_utils.rs:9-14 | `React.Fragment` is a fragment |
| JsxUtils.MemberNotFragment | src/jsx_utils.rs:37-50 | a member display name always holds a dot, so it is never the bare `Fragment` |
| JsxUtils.HasAttribute | src/jsx_utils.rs:54-60 | true exactly when some entry is an attribute with that identifier name; spreads and namespaced names never match |
| JsxUtils.CreateJsxAttr | src/jsx_utils.rs:64-74 | an identifier-named attribute with the given string value |
| JsxUtils.HasAttributeAfterAppend | src/jsx_utils.rs:54-74 | after appending `create_jsx_attr(n, v)`, exactly the names present before and `n` are present |
| Rules.Skipped | src/lib.rs:106-121 | the three early returns: a named fragment, an ignored scope, or an ignored display name |
| Rules.KnownTag | src/lib.rs:123 | the display name is one of the known markup tags |
| Rules.WantsElementAttr | src/lib.rs:126-130 | the element attribute's guard: not a known tag, and either the component and element names differ or there is no scope |
| Rules.WantsSourceFileAttr | src/lib.rs:148-151 | the source-file attribute's guard: a scope, or a tag that is not a known one |
| Rules.AppendIfAbsent | src/lib.rs:125-157 | one guarded push: it appends exactly when the guard holds and the name is absent, and the name is present afterwards exactly when it was before or the guard held |
| Rules.AnnotateAttrs | src/lib.rs:103-158 | the original list is a prefix of the result, and at most three entries are added |
| Rules.AnnotateAppendsInOrder | src/lib.rs:126-157 | what is added is drawn, in order, from element, component and source-file attributes |
| Rules.AnnotateEstablishes | src/lib.rs:123-157 | each attribute whose guard held is present afterwards |
| Rules.AnnotateUnchangedExactly | src/lib.rs:103-158 | nothing changes exactly when the element is exempt or every wanted attribute is already present |
| Rules.AnnotateIdempotent | src/lib.rs:125-157 | a second call in the same scope changes nothing |
| Rules.AnnotateSecondPassHarmless | src/lib.rs:103-158 | the scope-less revisit adds nothing after a first call with no scope or a non-ignored scope |
| Rules.AnnotateRepeatedPasses | src/lib.rs:103-158 | a scoped call followed by a scope-less one, done twice, equals doing it once |
| Rules.AnnotateIgnored | src/lib.rs:106-121 | a named fragment, an ignored scope or an ignored display name leaves the list untouched |
| Rules.UnscopedKnownTagUntouched | src/lib.rs:123-157 | a known markup tag outside any scope gets nothing |
| Rules.NoElementAttrUnlessWanted | src/lib.rs:126-130 | when the element attribute is unwanted (a known tag, or a scope with equal names), only component and source-file attributes can be added, in that order |
| Rules.UnscopedCustomElementNamed | src/lib.rs:126-135 | without a scope, a custom element that is not exempt and lacks the element attribute gets it first, with its display name |
| Rules.ScopedElementNamesComponent | src/lib.rs:137-145 | in a non-ignored scope, the component attribute carrying the scope's name is added when it was missing |
| Rules.AppendIfAbsentFresh | src/lib.rs:125-157 | a push adds only a name not yet present |
| Rules.AnnotateNeverDuplicates | src/lib.rs:103-158 | every appended attribute carries a name no earlier entry has |
| Traversal.ProcessElement | src/lib.rs:57-86 | the name and the number of children are kept, and the attribute list is the one the rules give in the entry scope |
| Traversal.ProcessChild | src/lib.rs:65-83 | a child keeps its kind, and a text or expression child is left as it is |
| Traversal.ProcessFragment | src/lib.rs:88-101 | the number of children is kept (that the scope reaches its element children is `TraversalProps.FragmentPassesScope`) |
| Traversal.ScopedReturn | src/lib.rs:177-195 | the test of `?:` is never touched, and any shape other than markup, `?:` or parentheses is left alone |
| Traversal.ScopedStmt | src/lib.rs:164-171 | only a `return` with an argument is changed |
| Traversal.ScopedBody | src/lib.rs:164-171 | every top-level statement goes through the return handling, and only those |
| Traversal.FindJsxInBody | src/lib.rs:160-175 | the result has a body exactly when the input has one (the scan itself is `Visitor.ReactComponentAnnotateVisitor.FindJsxInFunctionBody` and `Fixtures.FnComponentVisit`) |
| Traversal.ScopeAfterFnDecl | src/lib.rs:161-173 | the field is cleared after a function with a body and left as it was without one |
| Traversal.DeclaratorSeeds | src/lib.rs:209-237 | a declarator seeds the field exactly when an identifier is bound to an arrow, or to a function expression with a body |
| Traversal.ScopeAfterDeclarator | src/lib.rs:209-237 | the field is cleared after a declarator that seeded it and left as it was otherwise |
| Traversal.IsRender | src/lib.rs:250-255 | a member is scanned exactly when it is a method keyed by the identifier `render` and has a body |
| Traversal.ClassSeeds | src/lib.rs:249-268 | a class seeds the field exactly when some member is such a `render` method |
| Traversal.ScopeAfterClassDecl | src/lib.rs:249-268 | the field is cleared after a class that seeded it and left as it was otherwise |
| Traversal.WalkExpr | src/lib.rs:244 | the generic walk of an expression keeps its shape: `?:`, parentheses and other shapes with the same number of operands |
| Traversal.WalkStmt | src/lib.rs:204 | a `return` stays a `return` with or without its argument, and an inert statement is left alone |
| Traversal.WalkBody | src/lib.rs:204 | the generic walk visits every statement of a body |
| Traversal.WalkOptBody | src/lib.rs:204 | a missing body stays missing, and a present one keeps its length |
| Traversal.WalkInit | src/lib.rs:244 | an initialiser keeps its kind, and an arrow keeps its kind of body |
| Traversal.WalkDeclarator | src/lib.rs:244 | the binding is untouched, and an initialiser is present afterwards exactly when it was before |
| Traversal.WalkMember | src/lib.rs:274 | a method keeps its key and the presence of its body; any other member is untouched |
| Traversal.VisitFnDecl | src/lib.rs:201-205 | the function keeps its name, the presence of its body and its number of statements |
| Traversal.ScopedInit | src/lib.rs:212-240 | an initialiser keeps its kind; a function expression keeps the presence of its body; a plain expression is untouched |
| Traversal.VisitVarDeclarator | src/lib.rs:207-245 | the binding is untouched, the initialiser's presence is kept, and a plain expression stays one |
| Traversal.ScopedMember | src/lib.rs:252-268 | only a `render` method with a body is scanned, and it stays one with as many statements |
| Traversal.VisitClassDecl | src/lib.rs:247-275 | the class keeps its name, its number of members and which members are methods |
| Traversal.VisitItem | src/lib.rs:201-275 | every item keeps its kind, and an item of no handled kind is untouched |
| Traversal.ScopeAfterItem | src/lib.rs:201-275 | each handler leaves the scope field as it found it or clears it; an expression item or an unhandled item leaves it as it was |
| Traversal.ScopeAfterItems | src/lib.rs:311-313 | after the whole module the field holds its initial value or none, so a visitor that starts without a scope ends without one |
| Traversal.VisitItems | src/lib.rs:311-313 | the module's items come out one for one |
| TraversalProps.ChildScopes | src/lib.rs:66-82 | an element child of a real element is visited with no scope; one of a named fragment is visited in the fragment's scope; a fragment child is visited in the parent's scope |
| TraversalProps.NamedFragmentUnannotated | src/lib.rs:61-63 | a named fragment's own attributes are never changed |
| TraversalProps.AnnotateAddsOnlyItsNames | src/lib.rs:103-158 | the only names that can appear are the element name, the component name (with a scope) and the source-file name (with a file) |
| TraversalProps.UnscopedSubtreeGetsNoComponentAttr | src/lib.rs:66-82 | a subtree visited without a scope never gains the component attribute |
| TraversalProps.UnscopedChildGetsNoComponentAttr | src/lib.rs:66-82 | the same for a child visited without a scope |
| TraversalProps.ComponentAttrStopsAtRealElement | src/lib.rs:72-77 | whenever the component name differs from the element and source-file names (so without overrides and in the sentry configuration), no element child of a real element, nor anything below it, gains the component attribute |
| TraversalProps.FragmentPassesScope | src/lib.rs:88-101 | every element child of a bare `<>` entered in a component's scope that is not exempt carries the component attribute afterwards |
| TraversalProps.NamedFragmentPassesScope | src/lib.rs:66-71 | the same for the element children of a named `Fragment` or `React.Fragment` |
| TraversalProps.ElementIdempotent | src/lib.rs:57-86 | processing an element twice in the same scope equals processing it once |
| TraversalProps.ChildIdempotent | src/lib.rs:65-83 | the same for a child |
| TraversalProps.FragmentIdempotent | src/lib.rs:88-101 | the same for a fragment |
| TraversalProps.ElementSecondPassHarmless | src/lib.rs:201-275 | markup first visited with no scope or a non-ignored one is left unchanged by the scope-less revisit |
| TraversalProps.ChildSecondPassHarmless | src/lib.rs:201-275 | the same for a child |
| TraversalProps.FragmentSecondPassHarmless | src/lib.rs:201-275 | the same for a fragment |
| TraversalProps.ElementRepeatedPasses | src/lib.rs:57-86 | a scoped visit plus the scope-less revisit, done twice, equals doing them once (any scope, ignored ones included) |
| TraversalProps.ChildRepeatedPasses | src/lib.rs:65-83 | the same for a child |
| TraversalProps.FragmentRepeatedPasses | src/lib.rs:88-101 | the same for a fragment |
| TraversalProps.WalkIdempotent | src/lib.rs:201-275 | the generic walk of an expression is idempotent |
| TraversalProps.ReturnRepeatedPasses | src/lib.rs:177-195 | a returned expression's scoped pass and the walk after it, done twice, equal doing them once |
| TraversalProps.StmtRepeatedPasses | src/lib.rs:164-171 | the same for a statement |
| TraversalProps.BodyRepeatedPasses | src/lib.rs:164-171 | the same for a body |
| TraversalProps.WalkStmtIdempotent | src/lib.rs:204 | the generic walk of a statement is idempotent |
| TraversalProps.WalkBodyIdempotent | src/lib.rs:204 | the generic walk of a body is idempotent |
| TraversalProps.WalkInitIdempotent | src/lib.rs:244 | the generic walk of an initialiser is idempotent |
| TraversalProps.FnDeclIdempotent | src/lib.rs:201-205 | visiting a function declaration's output again changes nothing |
| TraversalProps.VarDeclaratorIdempotent | src/lib.rs:207-245 | visiting a declarator's output again changes nothing |
| TraversalProps.MemberRepeatedPasses | src/lib.rs:252-274 | a class member's render pass and walk, done twice, equal doing them once |
| TraversalProps.ClassDeclIdempotent | src/lib.rs:247-275 | visiting a class declaration's output again changes nothing |
| TraversalProps.ItemIdempotent | src/lib.rs:201-275 | visiting any module item's output again changes nothing |
| TraversalProps.VisitItemsWithoutScope | src/lib.rs:201-275 | starting without a scope, every item is visited without one, because each handler clears what it seeded |
| TraversalProps.ProgramIdempotent | src/lib.rs:311-313 | running the plugin over its own output changes nothing |
| Visitor.ReactComponentAnnotateVisitor.Valid | src/lib.rs:35-36 | the pre-computed ignored set holds exactly the names of the configured list |
| Visitor.ReactComponentAnnotateVisitor.Ctx | src/lib.rs:22-28 | the rules' context is exactly the visitor's configuration, file name and two sets |
| Visitor.ReactComponentAnnotateVisitor.constructor | src/lib.rs:31-45 | the file name comes from the Custom extraction, there is no scope, and the ignored set holds exactly the configured names |
| Visitor.ReactComponentAnnotateVisitor.ShouldIgnoreComponent | src/lib.rs:48-50 | true exactly when the name is in the configured ignore list |
| Visitor.ReactComponentAnnotateVisitor.ShouldIgnoreElement | src/lib.rs:53-55 | true exactly when the name is a known markup tag |
| Visitor.ReactComponentAnnotateVisitor.AddAttributesToElement | src/lib.rs:103-158 | the early returns and three pushes give the element the rules' attribute list in the current scope |
| Visitor.ReactComponentAnnotateVisitor.ProcessJsxElement | src/lib.rs:57-86 | the take/restore loop returns the element as the traversal function gives it, and the scope field is as it was on entry |
| Visitor.ReactComponentAnnotateVisitor.ProcessJsxFragment | src/lib.rs:88-101 | every child is visited in the current scope, and the field is unchanged |
| Visitor.ReactComponentAnnotateVisitor.VisitMutJsxElement | src/lib.rs:277-279 | delegates to the element handler, with the same result and field |
| Visitor.ReactComponentAnnotateVisitor.VisitMutJsxFragment | src/lib.rs:281-283 | delegates to the fragment handler, with the same result and field |
| Visitor.ReactComponentAnnotateVisitor.ProcessReturnExpression | src/lib.rs:177-195 | follows both branches of `?:` and the inside of parentheses, and leaves the field unchanged |
| Visitor.ReactComponentAnnotateVisitor.ProcessReturns | src/lib.rs:164-171 | the loop over a body's statements handles exactly its `return` arguments |
| Visitor.ReactComponentAnnotateVisitor.FindJsxInFunctionBody | src/lib.rs:160-175 | a body is scanned in the name's scope and the field is then `None`; without a body nothing changes |
| Visitor.ReactComponentAnnotateVisitor.VisitMutFnDecl | src/lib.rs:201-205 | the scoped pass then the generic walk; the field ends `None` when there was a body |
| Visitor.ReactComponentAnnotateVisitor.VisitMutVarDeclarator | src/lib.rs:207-245 | an identifier bound to an arrow or a function expression is a component; the field ends `None` exactly when the handler seeded it |
| Visitor.ReactComponentAnnotateVisitor.VisitMutClassDecl | src/lib.rs:247-275 | every `render` method with a body is scanned in the class's scope; the field ends `None` when there was one |
| Visitor.ReactComponentAnnotateVisitor.VisitMutItem | src/lib.rs:201-275 | each item goes to its handler, and the field ends where that handler leaves it |
| Visitor.ReactComponentAnnotateVisitor.VisitProgram | src/lib.rs:311-313 | the items in order, with the field carried from each handler to the next; the field ends as `Traversal.ScopeAfterItems` gives, so it is `None` when it started `None` |
| Visitor.AnnotateProgram | src/lib.rs:311-313 | a fresh visitor over a module returns what the traversal function gives with no initial scope |
| Fixtures.LeafElement | src/lib.rs:57-86 | an element whose children are all text or expressions only has its own attribute list changed |
| Fixtures.ScopedKnownRootAttrs | src/lib.rs:123-157 | a fresh known-tag root in a component scope gets exactly the component name, then the file |
| Fixtures.UnscopedCustomAttrs | src/lib.rs:123-157 | a fresh custom element outside any scope gets exactly its display name, then the file |
| Fixtures.ArrowComponentVisit | src/lib.rs:207-245 | an arrow component's root is processed in the component's scope, and the walk after it adds nothing |
| Fixtures.FnComponentVisit | src/lib.rs:201-205 | a function component's root is processed in the component's scope, then once more without one |
| Fixtures.ClassComponentVisit | src/lib.rs:247-275 | a class `render` root is processed in the class's scope, and the walk after it adds nothing |
| Fixtures.FragmentsFixture | tests/fixture/react_fragments/output.jsx:3-18 | the root `<div>` and the `<h3>` inside `<>` are named after the component; the `<h1>` inside `<React.Fragment>` gets nothing |
| Fixtures.RunnerConfig | tests/test.rs:38-48 | the runner as written: the sentry overrides exactly for `react_sentry_attrs`, and no ignore list for any directory |
| Fixtures.IntendedRunnerConfig | tests/fixture/react_ignored_components/output.jsx:3-29 | the runner with the three components the expected output leaves bare as the ignore list of `react_ignored_components`; every other directory as before |
| Fixtures.IgnoredFixtureContext | tests/test.rs:16-24 | the visitor context the intended runner builds for `react_ignored_components`: its configuration, and the ignored set taken from that configuration's list |
| Fixtures.IgnoredFixtureAsRun | tests/test.rs:38-48 | under the runner as written, `IgnoredComponent`'s `<div>` gets the component and file attributes, so the output differs from the input |
| Fixtures.IgnoredComponentFixture | tests/fixture/react_ignored_components/output.jsx:3-6 | under the intended ignore list, an ignored function component with a `<div>` root comes out unchanged |
| Fixtures.IgnoredComponentCustomRoot | src/lib.rs:111-115 | an ignored component's custom root is skipped by the scoped pass but gets the element and source-file attributes from the walk after it |
| Fixtures.SentryFixture | tests/fixture/react_sentry_attrs/output.jsx:2-6 | the sentry names are used; the known child gets nothing and the custom child gets its element name and the file |
| Fixtures.ClassComponentFixture | tests/fixture/react_class_component/output.jsx:3-8 | the `render` root is named after the class, and its `<h1>` child is left alone |
| Fixtures.MemberExpressionFixture | tests/fixture/react_member_expressions/output.jsx:21 | `Components.UI.Card.Header` outside a scope is tagged with its full dotted name and the file |
| Fixtures.SpreadFixture | tests/fixture/react_inline_styled_component/output.jsx:5 | the component and file attributes land after an existing spread |

## Left out

- `process_transform` (src/lib.rs:291-314): parsing the JSON configuration, asking the host for the file name and the plugin macro glue are I/O and foreign calls. The model keeps only the visitor run (`Visitor.AnnotateProgram`). The configuration and file name are parameters.
- The `FileName::Real` branch and the other `FileName` variants of `extract_filename`: they depend on the operating system's path semantics, and the plugin only ever builds `FileName::Custom`.
- `default_ignored_elements` (in `src/constants.rs`): src/constants.rs is not part of this model. The known markup tags are a `set<string>` parameter of the visitor's constructor.
- The styled-wrapper rewrite and the source-path attribute: the visitor never reads `experimental_rewrite_emotion_styled` or `source_path_attr_name`, so neither is modelled beyond the configuration field and its resolver.
- The generic walk (`visit_mut_children_with`): this is swc library code, modelled by the `Walk*` functions on the part of the tree the model has. Nested function, variable and class declarations inside bodies are inert statements. So are statements other than `return` and expression statements, class members other than methods, attribute values and function parameters. The walk does not re-enter the declaration handlers for them.
- JSX expression containers, text and spread children are one inert `ChildOther`, matching the element and fragment handlers, which do not look into them.
- In-place mutation of the tree: elements, expressions and declarations are values that each method returns rewritten. Only the visitor's scope field is mutable state. Aliasing between tree nodes does not arise in the model.
- Spans, `raw` fields, interned atoms, `Cow` and hashing: names are plain strings, and the hash sets are Dafny sets.
- `export default function F() {}` and `export default class C {}`: swc parses these as `DefaultDecl::Fn` and `DefaultDecl::Class`, not as `FnDecl` or `ClassDecl`, so the handlers never seed a scope for them and only the scope-less generic walk reaches their markup. The model has no item for them; they are written as an `ExprItem` holding their markup, which `Traversal.VisitItem` sends to the walk alone.
- Visitor.ReactComponentAnnotateVisitor.ShouldIgnoreComponent: requires the constructor's invariant that the set holds exactly the configured names, which the source establishes once in `new`. Every visitor method carries the same requirement, because `AddAttributesToElement` calls it.

## Findings

| source | as written | input that shows it | evidently intended | confidence | as-written member | corrected member |
|---|---|---|---|---|---|---|
| tests/test.rs:38-48 | every fixture directory except `react_sentry_attrs` runs with `PluginConfig::default()`, whose ignore list is empty | `react_ignored_components`: `function IgnoredComponent() { return <div>…</div>; }` comes out with `data-component="IgnoredComponent"` and `data-source-file="test.jsx"`, but output.jsx:5 expects no attributes | the runner gives `react_ignored_components` the ignore list its output implies (`IgnoredComponent`, `AnotherIgnoredComponent`, `IgnoredClassComponent`) | not executed; medium (the runner and the expected output cannot both hold) | Fixtures.IgnoredFixtureAsRun | Fixtures.IgnoredComponentFixture |
