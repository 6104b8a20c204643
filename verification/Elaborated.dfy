/** Elaborated declarations, with the parts `lsp_unused.rs` looks at: types, kinds and patterns are
    dropped, and a solved unification variable holds its solution as a subtree. */
module Elaborated {
  import opened Wrappers
  import opened SourcePositions

  datatype Expression =
    | Prim
    | Rel(index: nat)
    | Named(id: nat)
    | ModProj
    | App(function_: Expression, argument: Expression)
    | Abs(body: Expression)
    | CApp(body: Expression)
    | CAbs(body: Expression)
    | KAbs(body: Expression)
    | KApp(body: Expression)
    | Record(fields: seq<Expression>)
    | Field(body: Expression)
    | Concat(left: Expression, right: Expression)
    | Cut(body: Expression)
    | CutMulti(body: Expression)
    | Case(discriminee: Expression, arms: seq<Expression>)
    | Error
    | Unif(solution: Option<Expression>)
    | Hole
    | Let(bindings: seq<LetBinding>, body: Expression)

  datatype LetBinding = LetVal(value: Expression) | LetValRec(values: seq<Expression>)

  datatype Signature =
    | SignatureConst(items: seq<SignatureItem>)
    | SignatureVar
    | SignatureFun(result: Signature)
    | SignatureWhere(inner: Signature)
    | SignatureProj
    | SignatureError

  datatype SignatureItem =
    | StructureItem(signature: Signature)
    | NamedSignatureItem(signature: Signature)
    | OtherItem

  datatype RecBinding = RecBinding(name: string, id: nat, body: Expression)

  /** `Other` stands for the variants that name no expression: constructors, datatypes, constraints,
      sequences, databases, styles, cookies, error handlers and foreign functions. */
  datatype Declaration =
    | Val(name: string, id: nat, body: Expression)
    | ValRec(bindings: seq<RecBinding>)
    | SignatureDeclaration(signature: Signature)
    | StructureDeclaration(structure: Structure)
    | FfiStructure(signature: Signature)
    | Export(structure: Structure)
    | Table(expression: Expression, primaryKey: Expression)
    | View(query: Expression)
    | Index(left: Expression, right: Expression)
    | Task(left: Expression, right: Expression)
    | Policy(query: Expression)
    | Other

  datatype LocatedDeclaration = LocatedDeclaration(node: Declaration, span: Span)

  datatype Structure =
    | StructureConst(declarations: seq<LocatedDeclaration>)
    | StructureVar
    | StructureProj(inner: Structure)
    | StructureFun(result: Structure)
    | StructureApp(left: Structure, right: Structure)
    | StructureError

  type File = seq<LocatedDeclaration>

  // ----- Named ids

  function NamedIds(e: Expression): set<nat>
    decreases e
  {
    match e
    case Named(id) => {id}
    case App(f, a) => NamedIds(f) + NamedIds(a)
    case Abs(b) => NamedIds(b)
    case CApp(b) => NamedIds(b)
    case CAbs(b) => NamedIds(b)
    case KAbs(b) => NamedIds(b)
    case KApp(b) => NamedIds(b)
    case Record(fields) => NamedIdsOfAll(fields)
    case Field(b) => NamedIds(b)
    case Concat(l, r) => NamedIds(l) + NamedIds(r)
    case Cut(b) => NamedIds(b)
    case CutMulti(b) => NamedIds(b)
    case Case(d, arms) => NamedIds(d) + NamedIdsOfAll(arms)
    case Unif(Some(inner)) => NamedIds(inner)
    case Let(bindings, b) => NamedIdsOfBindings(bindings) + NamedIds(b)
    case _ => {}
  }

  function NamedIdsOfAll(es: seq<Expression>): set<nat>
    decreases es
  {
    if es == [] then {} else NamedIdsOfAll(es[..|es| - 1]) + NamedIds(es[|es| - 1])
  }

  function NamedIdsOfBindings(bs: seq<LetBinding>): set<nat>
    decreases bs
  {
    if bs == [] then {} else NamedIdsOfBindings(bs[..|bs| - 1]) + NamedIdsOfBinding(bs[|bs| - 1])
  }

  function NamedIdsOfBinding(b: LetBinding): set<nat>
    decreases b
  {
    match b
    case LetVal(e) => NamedIds(e)
    case LetValRec(es) => NamedIdsOfAll(es)
  }

  // ----- Root declarations

  /** Ids named by a root declaration. Value bindings, and all of a signature, name none. */
  function RootIds(d: Declaration): set<nat>
    decreases d
  {
    match d
    case StructureDeclaration(structure) => RootIdsOfStructure(structure)
    case Export(structure) => RootIdsOfStructure(structure)
    case Table(e, primaryKey) => NamedIds(e) + NamedIds(primaryKey)
    case View(e) => NamedIds(e)
    case Index(l, r) => NamedIds(l) + NamedIds(r)
    case Task(l, r) => NamedIds(l) + NamedIds(r)
    case Policy(e) => NamedIds(e)
    case _ => {}
  }

  function RootIdsOfAll(ds: seq<LocatedDeclaration>): set<nat>
    decreases ds
  {
    if ds == [] then {} else RootIdsOfAll(ds[..|ds| - 1]) + RootIdsOfLocated(ds[|ds| - 1])
  }

  function RootIdsOfLocated(d: LocatedDeclaration): set<nat>
    decreases d
  {
    RootIds(d.node)
  }

  function RootIdsOfStructure(s: Structure): set<nat>
    decreases s
  {
    match s
    case StructureConst(ds) => RootIdsOfAll(ds)
    case StructureProj(inner) => RootIdsOfStructure(inner)
    case StructureFun(result) => RootIdsOfStructure(result)
    case StructureApp(l, r) => RootIdsOfStructure(l) + RootIdsOfStructure(r)
    case _ => {}
  }

  // ----- Value bindings

  datatype ValueBinding = ValueBinding(name: string, id: nat, body: Expression, span: Span, recursive: bool)

  function RecBindings(d: LocatedDeclaration, k: nat): (r: seq<ValueBinding>)
    requires d.node.ValRec? && k <= |d.node.bindings|
    ensures |r| == k
  {
    seq(k, i requires 0 <= i < k =>
      var b := d.node.bindings[i]; ValueBinding(b.name, b.id, b.body, d.span, true))
  }

  function BindingsOf(d: LocatedDeclaration): seq<ValueBinding> {
    match d.node
    case Val(name, id, body) => [ValueBinding(name, id, body, d.span, false)]
    case ValRec(bindings) => RecBindings(d, |bindings|)
    case _ => []
  }

  /** Every top-level value binding of the file, group members included, in source order. */
  function ValueBindings(file: File): seq<ValueBinding> {
    if file == [] then [] else ValueBindings(file[..|file| - 1]) + BindingsOf(file[|file| - 1])
  }
}
