/**
  The syntax trees the codemods work on: the ESTree/Babel node shapes that
  jscodeshift's TypeScript parser produces, reduced to the node types the
  rules look at. A node is its span, its type (with the scalar fields the
  rules read) and its child nodes in the order ast-types visits the fields.
*/
module Ast {

  /** `loc.start.index` and `loc.end.index` of a parsed node; nodes built by a
      codemod have no location. */
  datatype Loc = NoLoc | Span(start: nat, end: nat)

  datatype Kind =
    | Identifier(name: string)
    | StringLiteral(value: string)
    | NumericLiteral(number: nat)
    | BigIntLiteral(value: string)          // `1n` has value "1"
    | CallExpression                        // children: callee, arguments...
    | MemberExpression(computed: bool)      // children: object, property
    | BinaryExpression(operator: string)    // children: left, right
    | LogicalExpression(operator: string)   // children: left, right
    | UnaryExpression(operator: string)     // children: argument
    | AssignmentExpression(operator: string) // children: left, right
    | TSNonNullExpression                   // children: expression
    | OtherExpression(nodeType: string)     // any other expression form
    | TSBigIntKeyword
    | TSTypeReference                       // children: typeName
    | VariableDeclaration(declKind: string) // children: declarations...
    | VariableDeclarator                    // children: id, init?
    | ClassProperty                         // children: key, value?
    | ImportDeclaration                     // children: specifiers..., source
    | ImportDefaultSpecifier                // children: local
    | OtherNode(nodeType: string)           // statements, patterns, other types

  /** A type annotation `: T` is an `OtherNode("TSTypeAnnotation")` holding
      the type (`TSBigIntKeyword`, `TSTypeReference`, ...) as its child; it
      is a further child of the identifier, function or class property it
      annotates, after the children listed above. */
  datatype Node = Node(loc: Loc, kind: Kind, children: seq<Node>)

  /** The program: its top-level statements. */
  datatype Program = Program(body: seq<Node>)

  /** ast-types' `namedTypes.Expression.check`: the node types that are expressions. */
  predicate IsExpression(k: Kind) {
    match k
    case Identifier(_) => true
    case StringLiteral(_) => true
    case NumericLiteral(_) => true
    case BigIntLiteral(_) => true
    case CallExpression => true
    case MemberExpression(_) => true
    case BinaryExpression(_) => true
    case LogicalExpression(_) => true
    case UnaryExpression(_) => true
    case AssignmentExpression(_) => true
    case TSNonNullExpression => true
    case OtherExpression(_) => true
    case _ => false
  }

  predicate IsCall(k: Kind) {
    k == CallExpression
  }

  /** The number of children each node type has, as the parser builds it for
      JavaScript, where no type annotation occurs. */
  predicate ArityOk(k: Kind, n: nat) {
    match k
    case Identifier(_) => n == 0
    case StringLiteral(_) => n == 0
    case NumericLiteral(_) => n == 0
    case BigIntLiteral(_) => n == 0
    case TSBigIntKeyword => n == 0
    case CallExpression => n >= 1
    case MemberExpression(_) => n == 2
    case BinaryExpression(_) => n == 2
    case LogicalExpression(_) => n == 2
    case AssignmentExpression(_) => n == 2
    case UnaryExpression(_) => n == 1
    case TSNonNullExpression => n == 1
    case TSTypeReference => n == 1
    case ImportDefaultSpecifier => n == 1
    case VariableDeclarator => 1 <= n <= 2
    case ClassProperty => 1 <= n <= 2
    case ImportDeclaration => n >= 1
    case _ => true
  }

  /** A tree as the parser produces it for a JavaScript file: every node has
      its arity. */
  predicate WellFormed(n: Node) {
    ArityOk(n.kind, |n.children|) && forall i :: 0 <= i < |n.children| ==> WellFormed(n.children[i])
  }

  // Builders for the nodes the codemods create (jscodeshift's `j.identifier`,
  // `j.callExpression`, ...); created nodes carry no location.

  function Ident(name: string): Node { Node(NoLoc, Identifier(name), []) }
  function Str(value: string): Node { Node(NoLoc, StringLiteral(value), []) }
  function Num(number: nat): Node { Node(NoLoc, NumericLiteral(number), []) }
  function Call(callee: Node, args: seq<Node>): Node { Node(NoLoc, CallExpression, [callee] + args) }
  function Member(obj: Node, property: Node): Node { Node(NoLoc, MemberExpression(false), [obj, property]) }
  function Binary(op: string, left: Node, right: Node): Node { Node(NoLoc, BinaryExpression(op), [left, right]) }
  function Logical(op: string, left: Node, right: Node): Node { Node(NoLoc, LogicalExpression(op), [left, right]) }
  function Assign(op: string, left: Node, right: Node): Node { Node(NoLoc, AssignmentExpression(op), [left, right]) }

  /** `JSBI.<name>` */
  function JsbiMember(name: string): Node { Member(Ident("JSBI"), Ident(name)) }

  /** `JSBI.BigInt(<args>)` */
  function JsbiBigInt(args: seq<Node>): Node { Call(JsbiMember("BigInt"), args) }

  /** The name the labeler gives its marker function. */
  const MarkerName := "__BIGINT__"

  /** `__BIGINT__(e)`: the marker the labeler wraps around a big-integer expression. */
  function Mark(e: Node): Node { Call(Ident(MarkerName), [e]) }

  predicate IsIdentNamed(n: Node, name: string) {
    n.kind == Identifier(name)
  }

  /** Some node of the tree satisfies `P`. */
  predicate Anywhere(n: Node, P: Node -> bool)
    decreases n
  {
    P(n) || exists i :: 0 <= i < |n.children| && Anywhere(n.children[i], P)
  }

  /** `Anywhere` depends only on what the test says of each node. */
  lemma {:induction false} AnywhereSame(n: Node, P: Node -> bool, Q: Node -> bool)
    requires forall m :: P(m) == Q(m)
    ensures Anywhere(n, P) == Anywhere(n, Q)
    decreases n
  {
    forall i | 0 <= i < |n.children| ensures Anywhere(n.children[i], P) == Anywhere(n.children[i], Q) {
      AnywhereSame(n.children[i], P, Q);
    }
  }

  /** The tree with every location dropped: what a print and a re-parse can
      be expected to keep. */
  function StripLocs(n: Node): Node
    decreases n
  {
    Node(NoLoc, n.kind, seq(|n.children|, i requires 0 <= i < |n.children| => StripLocs(n.children[i])))
  }

  /** The program as the root of the tree the passes walk. */
  function ProgramRoot(prog: Program): Node {
    Node(NoLoc, OtherNode("Program"), prog.body)
  }

  /** A call of `JSBI.<name>` has a node satisfying `P` only where its
      arguments have one, when `P` holds of none of the new nodes. */
  lemma JsbiCallAvoids(name: string, args: seq<Node>, P: Node -> bool)
    requires !P(Ident("JSBI")) && !P(Ident(name)) && !P(JsbiMember(name)) && !P(Call(JsbiMember(name), args))
    requires forall a <- args :: !Anywhere(a, P)
    ensures !Anywhere(Call(JsbiMember(name), args), P)
  {
    var c := Call(JsbiMember(name), args);
    assert !Anywhere(JsbiMember(name).children[0], P) && !Anywhere(JsbiMember(name).children[1], P);
    assert !Anywhere(JsbiMember(name), P);
    forall i | 0 <= i < |c.children| ensures !Anywhere(c.children[i], P) {
      if i > 0 {
        assert c.children[i] == args[i - 1];
      }
    }
  }
}
