/** What the walks of `lsp_unused.rs` collect, read off the declarations themselves: an id is named
    where a path of subexpressions leads to its use. */
module NamedPaths {
  import opened Wrappers
  import opened Elaborated

  // ----- Subexpressions

  ghost predicate IsBound(b: LetBinding, e: Expression) {
    match b
    case LetVal(value) => e == value
    case LetValRec(values) => e in values
  }

  /** `part` is an immediate subexpression of `e`. */
  ghost predicate IsPart(e: Expression, part: Expression) {
    match e
    case App(f, a) => part == f || part == a
    case Abs(b) => part == b
    case CApp(b) => part == b
    case CAbs(b) => part == b
    case KAbs(b) => part == b
    case KApp(b) => part == b
    case Record(fields) => part in fields
    case Field(b) => part == b
    case Concat(l, r) => part == l || part == r
    case Cut(b) => part == b
    case CutMulti(b) => part == b
    case Case(d, arms) => part == d || part in arms
    case Unif(solution) => solution == Some(part)
    case Let(bindings, b) => part == b || exists k | 0 <= k < |bindings| :: IsBound(bindings[k], part)
    case Prim => false
    case Rel(_) => false
    case Named(_) => false
    case ModProj => false
    case Error => false
    case Hole => false
  }

  /** A path from an expression down to a use of the id. */
  ghost predicate IsUse(path: seq<Expression>, e: Expression, id: nat) {
    && path != [] && path[0] == e && path[|path| - 1] == Named(id)
    && forall i | 0 <= i < |path| - 1 :: IsPart(path[i], path[i + 1])
  }

  ghost predicate Uses(e: Expression, id: nat) { exists path :: IsUse(path, e, id) }

  lemma {:induction false} NamedInAll(es: seq<Expression>, id: nat)
    ensures id in NamedIdsOfAll(es) <==> exists k | 0 <= k < |es| :: id in NamedIds(es[k])
    decreases |es|
  {
    if es != [] {
      var n := |es| - 1;
      NamedInAll(es[..n], id);
      assert forall k | 0 <= k < n :: es[..n][k] == es[k];
    }
  }

  lemma {:induction false} NamedInBindings(bs: seq<LetBinding>, id: nat)
    ensures id in NamedIdsOfBindings(bs) <==> exists k | 0 <= k < |bs| :: id in NamedIdsOfBinding(bs[k])
    decreases |bs|
  {
    if bs != [] {
      var n := |bs| - 1;
      NamedInBindings(bs[..n], id);
      assert forall k | 0 <= k < n :: bs[..n][k] == bs[k];
    }
  }

  lemma BoundNames(b: LetBinding, e: Expression, id: nat)
    requires IsBound(b, e) && id in NamedIds(e)
    ensures id in NamedIdsOfBinding(b)
  {
    if b.LetValRec? {
      NamedInAll(b.values, id);
    }
  }

  /** An expression names what its parts name. */
  lemma PartNames(e: Expression, part: Expression, id: nat)
    requires IsPart(e, part) && id in NamedIds(part)
    ensures id in NamedIds(e)
  {
    match e {
      case Record(fields) => NamedInAll(fields, id);
      case Case(_, arms) => NamedInAll(arms, id);
      case Let(bindings, b) =>
        NamedInBindings(bindings, id);
        if part != b {
          var k :| 0 <= k < |bindings| && IsBound(bindings[k], part);
          BoundNames(bindings[k], part, id);
        }
      case _ =>
    }
  }

  lemma {:induction false} UseIsNamed(path: seq<Expression>, e: Expression, id: nat)
    requires IsUse(path, e, id)
    ensures id in NamedIds(e)
    decreases |path|
  {
    if |path| > 1 {
      assert forall i | 0 <= i < |path| - 2 :: IsPart(path[1..][i], path[1..][i + 1]) by {
        forall i | 0 <= i < |path| - 2 ensures IsPart(path[1..][i], path[1..][i + 1]) {
          assert path[1..][i] == path[i + 1] && path[1..][i + 1] == path[i + 2];
        }
      }
      UseIsNamed(path[1..], path[1], id);
      PartNames(e, path[1], id);
    }
  }

  lemma UseThroughPart(e: Expression, part: Expression, id: nat)
    requires IsPart(e, part) && Uses(part, id)
    ensures Uses(e, id)
  {
    var path :| IsUse(path, part, id);
    assert IsUse([e] + path, e, id);
  }

  lemma {:induction false} NamedIsUsed(e: Expression, id: nat)
    requires id in NamedIds(e)
    ensures Uses(e, id)
    decreases e
  {
    match e {
      case Named(_) => assert IsUse([e], e, id);
      case App(f, a) => if id in NamedIds(f) { UsedPart(e, f, id); } else { UsedPart(e, a, id); }
      case Abs(b) => UsedPart(e, b, id);
      case CApp(b) => UsedPart(e, b, id);
      case CAbs(b) => UsedPart(e, b, id);
      case KAbs(b) => UsedPart(e, b, id);
      case KApp(b) => UsedPart(e, b, id);
      case Record(fields) => UsedAmong(e, fields, id);
      case Field(b) => UsedPart(e, b, id);
      case Concat(l, r) => if id in NamedIds(l) { UsedPart(e, l, id); } else { UsedPart(e, r, id); }
      case Cut(b) => UsedPart(e, b, id);
      case CutMulti(b) => UsedPart(e, b, id);
      case Case(d, arms) => if id in NamedIds(d) { UsedPart(e, d, id); } else { UsedAmong(e, arms, id); }
      case Unif(Some(inner)) => UsedPart(e, inner, id);
      case Let(bindings, b) => if id in NamedIds(b) { UsedPart(e, b, id); } else { UsedInBindings(e, id); }
      case _ =>
    }
  }

  lemma {:induction false} UsedPart(e: Expression, part: Expression, id: nat)
    requires part < e && IsPart(e, part) && id in NamedIds(part)
    ensures Uses(e, id)
    decreases e, 0
  {
    NamedIsUsed(part, id);
    UseThroughPart(e, part, id);
  }

  lemma {:induction false} UsedAmong(e: Expression, parts: seq<Expression>, id: nat)
    requires forall k | 0 <= k < |parts| :: parts[k] < e && IsPart(e, parts[k])
    requires id in NamedIdsOfAll(parts)
    ensures Uses(e, id)
    decreases e, 1
  {
    NamedInAll(parts, id);
    var k :| 0 <= k < |parts| && id in NamedIds(parts[k]);
    UsedPart(e, parts[k], id);
  }

  lemma {:induction false} UsedInBindings(e: Expression, id: nat)
    requires e.Let? && id in NamedIdsOfBindings(e.bindings)
    ensures Uses(e, id)
    decreases e, 2
  {
    NamedInBindings(e.bindings, id);
    var k :| 0 <= k < |e.bindings| && id in NamedIdsOfBinding(e.bindings[k]);
    match e.bindings[k] {
      case LetVal(value) => UsedPart(e, value, id);
      case LetValRec(values) => UsedAmong(e, values, id);
    }
  }

  /** An expression names an id exactly when a path of subexpressions leads to a use of it. */
  lemma NamedExactly(e: Expression, id: nat)
    ensures id in NamedIds(e) <==> Uses(e, id)
  {
    if id in NamedIds(e) {
      NamedIsUsed(e, id);
    }
    if Uses(e, id) {
      var path :| IsUse(path, e, id);
      UseIsNamed(path, e, id);
    }
  }

  // ----- Root declarations, those inside structures included

  datatype Node = DeclarationNode(declaration: Declaration) | StructureNode(structure: Structure)

  /** `inner` stands immediately inside `node`. Values bound in a structure lead nowhere. */
  ghost predicate IsInside(node: Node, inner: Node) {
    match node
    case DeclarationNode(StructureDeclaration(s)) => inner == StructureNode(s)
    case DeclarationNode(Export(s)) => inner == StructureNode(s)
    case StructureNode(StructureConst(ds)) => exists i | 0 <= i < |ds| :: inner == DeclarationNode(ds[i].node)
    case StructureNode(StructureProj(s)) => inner == StructureNode(s)
    case StructureNode(StructureFun(s)) => inner == StructureNode(s)
    case StructureNode(StructureApp(l, r)) => inner == StructureNode(l) || inner == StructureNode(r)
    case _ => false
  }

  /** The expressions of a table, view, index, task or policy. */
  ghost predicate IsRootExpression(node: Node, e: Expression) {
    match node
    case DeclarationNode(Table(expression, primaryKey)) => e == expression || e == primaryKey
    case DeclarationNode(View(query)) => e == query
    case DeclarationNode(Index(l, r)) => e == l || e == r
    case DeclarationNode(Task(l, r)) => e == l || e == r
    case DeclarationNode(Policy(query)) => e == query
    case _ => false
  }

  /** A path from a declaration or structure in to a root expression that uses the id. */
  ghost predicate IsRootUse(path: seq<Node>, node: Node, id: nat) {
    && path != [] && path[0] == node
    && (forall i | 0 <= i < |path| - 1 :: IsInside(path[i], path[i + 1]))
    && exists e :: IsRootExpression(path[|path| - 1], e) && Uses(e, id)
  }

  ghost predicate HasRootUse(node: Node, id: nat) { exists path :: IsRootUse(path, node, id) }

  function NodeIds(node: Node): set<nat> {
    match node
    case DeclarationNode(d) => RootIds(d)
    case StructureNode(s) => RootIdsOfStructure(s)
  }

  lemma {:induction false} RootInAll(ds: seq<LocatedDeclaration>, id: nat)
    ensures id in RootIdsOfAll(ds) <==> exists k | 0 <= k < |ds| :: id in RootIds(ds[k].node)
    decreases |ds|
  {
    if ds != [] {
      var n := |ds| - 1;
      RootInAll(ds[..n], id);
      assert forall k | 0 <= k < n :: ds[..n][k] == ds[k];
    }
  }

  lemma RootExpressionNames(node: Node, e: Expression, id: nat)
    requires IsRootExpression(node, e) && Uses(e, id)
    ensures id in NodeIds(node)
  {
    NamedExactly(e, id);
  }

  lemma InsideNames(node: Node, inner: Node, id: nat)
    requires IsInside(node, inner) && id in NodeIds(inner)
    ensures id in NodeIds(node)
  {
    if node.StructureNode? && node.structure.StructureConst? {
      RootInAll(node.structure.declarations, id);
    }
  }

  lemma {:induction false} RootUseIsNamed(path: seq<Node>, node: Node, id: nat)
    requires IsRootUse(path, node, id)
    ensures id in NodeIds(node)
    decreases |path|
  {
    if |path| == 1 {
      var e :| IsRootExpression(node, e) && Uses(e, id);
      RootExpressionNames(node, e, id);
    } else {
      forall i | 0 <= i < |path| - 2 ensures IsInside(path[1..][i], path[1..][i + 1]) {
        assert path[1..][i] == path[i + 1] && path[1..][i + 1] == path[i + 2];
      }
      RootUseIsNamed(path[1..], path[1], id);
      InsideNames(node, path[1], id);
    }
  }

  lemma RootUseThrough(node: Node, inner: Node, id: nat)
    requires IsInside(node, inner) && HasRootUse(inner, id)
    ensures HasRootUse(node, id)
  {
    var path :| IsRootUse(path, inner, id);
    assert IsRootUse([node] + path, node, id);
  }

  lemma RootUseHere(node: Node, e: Expression, id: nat)
    requires IsRootExpression(node, e) && id in NamedIds(e)
    ensures HasRootUse(node, id)
  {
    NamedExactly(e, id);
    assert IsRootUse([node], node, id);
  }

  lemma {:induction false} DeclarationRootUse(d: Declaration, id: nat)
    requires id in RootIds(d)
    ensures HasRootUse(DeclarationNode(d), id)
    decreases d
  {
    var node := DeclarationNode(d);
    match d {
      case StructureDeclaration(s) =>
        StructureRootUse(s, id);
        RootUseThrough(node, StructureNode(s), id);
      case Export(s) =>
        StructureRootUse(s, id);
        RootUseThrough(node, StructureNode(s), id);
      case Table(e, primaryKey) => RootUseHere(node, if id in NamedIds(e) then e else primaryKey, id);
      case View(e) => RootUseHere(node, e, id);
      case Index(l, r) => RootUseHere(node, if id in NamedIds(l) then l else r, id);
      case Task(l, r) => RootUseHere(node, if id in NamedIds(l) then l else r, id);
      case Policy(e) => RootUseHere(node, e, id);
      case _ =>
    }
  }

  lemma {:induction false} StructureRootUse(s: Structure, id: nat)
    requires id in RootIdsOfStructure(s)
    ensures HasRootUse(StructureNode(s), id)
    decreases s
  {
    var node := StructureNode(s);
    match s {
      case StructureConst(ds) =>
        RootInAll(ds, id);
        var k :| 0 <= k < |ds| && id in RootIds(ds[k].node);
        DeclarationRootUse(ds[k].node, id);
        RootUseThrough(node, DeclarationNode(ds[k].node), id);
      case StructureProj(inner) =>
        StructureRootUse(inner, id);
        RootUseThrough(node, StructureNode(inner), id);
      case StructureFun(inner) =>
        StructureRootUse(inner, id);
        RootUseThrough(node, StructureNode(inner), id);
      case StructureApp(l, r) =>
        var side := if id in RootIdsOfStructure(l) then l else r;
        StructureRootUse(side, id);
        RootUseThrough(node, StructureNode(side), id);
      case _ =>
    }
  }

  /** The roots of a file are the ids used by an expression of a table, view, index, task or policy that
      stands in the file, in a structure of it or in an export, at any depth. */
  lemma RootsExactly(file: File, id: nat)
    ensures id in RootIdsOfAll(file) <==>
              exists k | 0 <= k < |file| :: HasRootUse(DeclarationNode(file[k].node), id)
  {
    RootInAll(file, id);
    forall k | 0 <= k < |file| && id in RootIds(file[k].node) ensures HasRootUse(DeclarationNode(file[k].node), id) {
      DeclarationRootUse(file[k].node, id);
    }
    forall k | 0 <= k < |file| && HasRootUse(DeclarationNode(file[k].node), id) ensures id in RootIds(file[k].node) {
      var path :| IsRootUse(path, DeclarationNode(file[k].node), id);
      RootUseIsNamed(path, DeclarationNode(file[k].node), id);
    }
  }

  // ----- Bindings

  /** The binding stands in the declaration, alone or as a member of its group. */
  ghost predicate BindsIn(d: LocatedDeclaration, b: ValueBinding) {
    && b.span == d.span
    && match d.node
       case Val(name, id, body) => b.name == name && b.id == id && b.body == body && !b.recursive
       case ValRec(bindings) => b.recursive && RecBinding(b.name, b.id, b.body) in bindings
       case _ => false
  }

  lemma BindingsOfExactly(d: LocatedDeclaration, b: ValueBinding)
    ensures b in BindingsOf(d) <==> BindsIn(d, b)
  {
    if d.node.ValRec? {
      var bs := RecBindings(d, |d.node.bindings|);
      if BindsIn(d, b) {
        var k :| 0 <= k < |d.node.bindings| && d.node.bindings[k] == RecBinding(b.name, b.id, b.body);
        assert bs[k] == b;
      }
    }
  }

  /** The analysis looks at each top-level `val` and each member of a top-level `val rec`, and at no
      other value. */
  lemma {:induction false} BindingsExactly(file: File, b: ValueBinding)
    ensures b in ValueBindings(file) <==> exists k | 0 <= k < |file| :: BindsIn(file[k], b)
    decreases |file|
  {
    if file != [] {
      var n := |file| - 1;
      BindingsExactly(file[..n], b);
      BindingsOfExactly(file[n], b);
      assert forall k | 0 <= k < n :: file[..n][k] == file[k];
    }
  }
}
