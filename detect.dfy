/**
  `detectBigint` of misc/detect-bigint.ts: walks the TypeScript syntax tree of
  a source file children first and records every expression node whose type
  the checker renders as `bigint`, with its text, its offsets and its 1-based
  line:column positions. The type checker is the parameter `typeName`.
*/
module DetectBigint {
  import opened Wrappers
  import opened Positions

  /** `ts.SyntaxKind`: the kinds `isExpressionNode` lists, the non-expression
      kinds a source file is made of, and any other kind by name. */
  datatype SyntaxKind =
    | SuperKeyword | NullKeyword | TrueKeyword | FalseKeyword
    | RegularExpressionLiteral | ArrayLiteralExpression | ObjectLiteralExpression
    | PropertyAccessExpression | ElementAccessExpression | CallExpression
    | NewExpression | TaggedTemplateExpression | AsExpression
    | TypeAssertionExpression | SatisfiesExpression | NonNullExpression
    | ParenthesizedExpression | FunctionExpression | ClassExpression
    | ArrowFunction | VoidExpression | DeleteExpression | TypeOfExpression
    | PrefixUnaryExpression | PostfixUnaryExpression | BinaryExpression
    | ConditionalExpression | SpreadElement | TemplateExpression
    | OmittedExpression | JsxElement | JsxSelfClosingElement | JsxFragment
    | YieldExpression | AwaitExpression | MetaProperty
    | ExpressionWithTypeArguments | QualifiedName | JSDocMemberName
    | PrivateIdentifier | Identifier | NumericLiteral | BigIntLiteral
    | StringLiteral | NoSubstitutionTemplateLiteral | ThisKeyword
    | SourceFile | Block | VariableStatement | VariableDeclarationList
    | VariableDeclaration | ExpressionStatement | ReturnStatement
    | Parameter | PropertyDeclaration | TypeReference | BigIntKeyword
    | OtherKind(name: string)

  /** `isExpressionNode` */
  predicate IsExpressionNode(k: SyntaxKind) {
    match k
    case SuperKeyword | NullKeyword | TrueKeyword | FalseKeyword
      | RegularExpressionLiteral | ArrayLiteralExpression | ObjectLiteralExpression
      | PropertyAccessExpression | ElementAccessExpression | CallExpression
      | NewExpression | TaggedTemplateExpression | AsExpression
      | TypeAssertionExpression | SatisfiesExpression | NonNullExpression
      | ParenthesizedExpression | FunctionExpression | ClassExpression
      | ArrowFunction | VoidExpression | DeleteExpression | TypeOfExpression
      | PrefixUnaryExpression | PostfixUnaryExpression | BinaryExpression
      | ConditionalExpression | SpreadElement | TemplateExpression
      | OmittedExpression | JsxElement | JsxSelfClosingElement | JsxFragment
      | YieldExpression | AwaitExpression | MetaProperty
      | ExpressionWithTypeArguments | QualifiedName | JSDocMemberName
      | PrivateIdentifier | Identifier | NumericLiteral | BigIntLiteral
      | StringLiteral | NoSubstitutionTemplateLiteral | ThisKeyword => true
    case _ => false
  }

  /** The forty-six kinds listed as expressions, in the order of the switch,
      eight at a time. */
  const ListedKinds1: set<SyntaxKind> := {SuperKeyword, NullKeyword, TrueKeyword, FalseKeyword, RegularExpressionLiteral, ArrayLiteralExpression, ObjectLiteralExpression, PropertyAccessExpression}
  const ListedKinds2: set<SyntaxKind> := {ElementAccessExpression, CallExpression, NewExpression, TaggedTemplateExpression, AsExpression, TypeAssertionExpression, SatisfiesExpression, NonNullExpression}
  const ListedKinds3: set<SyntaxKind> := {ParenthesizedExpression, FunctionExpression, ClassExpression, ArrowFunction, VoidExpression, DeleteExpression, TypeOfExpression, PrefixUnaryExpression}
  const ListedKinds4: set<SyntaxKind> := {PostfixUnaryExpression, BinaryExpression, ConditionalExpression, SpreadElement, TemplateExpression, OmittedExpression, JsxElement, JsxSelfClosingElement}
  const ListedKinds5: set<SyntaxKind> := {JsxFragment, YieldExpression, AwaitExpression, MetaProperty, ExpressionWithTypeArguments, QualifiedName, JSDocMemberName, PrivateIdentifier}
  const ListedKinds6: set<SyntaxKind> := {Identifier, NumericLiteral, BigIntLiteral, StringLiteral, NoSubstitutionTemplateLiteral, ThisKeyword}

  const ExpressionKinds: set<SyntaxKind> :=
    ListedKinds1 + ListedKinds2 + ListedKinds3 + ListedKinds4 + ListedKinds5 + ListedKinds6


  /** Every kind `isExpressionNode` accepts is one of the listed kinds. */
  lemma ExpressionIsListed(k: SyntaxKind)
    requires IsExpressionNode(k)
    ensures k in ExpressionKinds
  {
    match k
    case SuperKeyword =>
    case NullKeyword =>
    case TrueKeyword =>
    case FalseKeyword =>
    case RegularExpressionLiteral =>
    case ArrayLiteralExpression =>
    case ObjectLiteralExpression =>
    case PropertyAccessExpression =>
    case ElementAccessExpression =>
    case CallExpression =>
    case NewExpression =>
    case TaggedTemplateExpression =>
    case AsExpression =>
    case TypeAssertionExpression =>
    case SatisfiesExpression =>
    case NonNullExpression =>
    case ParenthesizedExpression =>
    case FunctionExpression =>
    case ClassExpression =>
    case ArrowFunction =>
    case VoidExpression =>
    case DeleteExpression =>
    case TypeOfExpression =>
    case PrefixUnaryExpression =>
    case PostfixUnaryExpression =>
    case BinaryExpression =>
    case ConditionalExpression =>
    case SpreadElement =>
    case TemplateExpression =>
    case OmittedExpression =>
    case JsxElement =>
    case JsxSelfClosingElement =>
    case JsxFragment =>
    case YieldExpression =>
    case AwaitExpression =>
    case MetaProperty =>
    case ExpressionWithTypeArguments =>
    case QualifiedName =>
    case JSDocMemberName =>
    case PrivateIdentifier =>
    case Identifier =>
    case NumericLiteral =>
    case BigIntLiteral =>
    case StringLiteral =>
    case NoSubstitutionTemplateLiteral =>
    case ThisKeyword =>
    case SourceFile =>
    case Block =>
    case VariableStatement =>
    case VariableDeclarationList =>
    case VariableDeclaration =>
    case ExpressionStatement =>
    case ReturnStatement =>
    case Parameter =>
    case PropertyDeclaration =>
    case TypeReference =>
    case BigIntKeyword =>
    case OtherKind(_) =>
  }

  /** Every listed kind is accepted. */
  lemma ListedIsExpression(k: SyntaxKind)
    requires k in ExpressionKinds
    ensures IsExpressionNode(k)
  {
    if k in ListedKinds1 {
      ListedKindsAccepted1(k);
    } else if k in ListedKinds2 {
      ListedKindsAccepted2(k);
    } else if k in ListedKinds3 {
      ListedKindsAccepted3(k);
    } else if k in ListedKinds4 {
      ListedKindsAccepted4(k);
    } else if k in ListedKinds5 {
      ListedKindsAccepted5(k);
    } else if k in ListedKinds6 {
      ListedKindsAccepted6(k);
    }
  }

  lemma ListedKindsAccepted1(k: SyntaxKind)
    requires k in ListedKinds1
    ensures IsExpressionNode(k)
  {
  }

  lemma ListedKindsAccepted2(k: SyntaxKind)
    requires k in ListedKinds2
    ensures IsExpressionNode(k)
  {
  }

  lemma ListedKindsAccepted3(k: SyntaxKind)
    requires k in ListedKinds3
    ensures IsExpressionNode(k)
  {
  }

  lemma ListedKindsAccepted4(k: SyntaxKind)
    requires k in ListedKinds4
    ensures IsExpressionNode(k)
  {
  }

  lemma ListedKindsAccepted5(k: SyntaxKind)
    requires k in ListedKinds5
    ensures IsExpressionNode(k)
  {
  }

  lemma ListedKindsAccepted6(k: SyntaxKind)
    requires k in ListedKinds6
    ensures IsExpressionNode(k)
  {
  }

  /** `isExpressionNode` holds for exactly the listed kinds; the `bigint` type
      keyword is not an expression while a `1n` literal is. */
  lemma ExpressionNodeExactly(k: SyntaxKind)
    ensures IsExpressionNode(k) <==> k in ExpressionKinds
    ensures !IsExpressionNode(BigIntKeyword) && IsExpressionNode(BigIntLiteral)
  {
    if IsExpressionNode(k) {
      ExpressionIsListed(k);
    }
    if k in ExpressionKinds {
      ListedIsExpression(k);
    }
  }

  /** A node of the TypeScript tree: its kind, `getStart()` (after leading
      trivia), `getEnd()`, and its children in source order. */
  datatype TsNode = TsNode(kind: SyntaxKind, start: nat, end: nat, children: seq<TsNode>)

  /** The `Detection` record: the node's text, `[start, end]`, and the
      `path line:column` links of both ends. */
  datatype Detection = Detection(text: string, range: (nat, nat), rangePretty: (string, string))

  /** `String.prototype.substring`: both ends clamped to the text, swapped
      when the start lies after the end. */
  function Substring(s: string, a: nat, b: nat): (r: string)
    ensures a <= b <= |s| ==> r == s[a..b]
    ensures |r| <= |s|
  {
    var x := if a < |s| then a else |s|;
    var y := if b < |s| then b else |s|;
    if x <= y then s[x..y] else s[y..x]
  }

  function Digit(d: nat): char
    requires d < 10
  {
    ('0' as int + d) as char
  }

  /** Decimal notation of a natural number, as a template literal prints it. */
  function NatToString(n: nat): (s: string)
    ensures |s| >= 1 && forall i :: 0 <= i < |s| ==> '0' <= s[i] <= '9'
    decreases n
  {
    if n < 10 then [Digit(n)] else NatToString(n / 10) + [Digit(n % 10)]
  }

  /** The value of a string of decimal digits. */
  function ParseNat(s: string): nat
    requires forall i :: 0 <= i < |s| ==> '0' <= s[i] <= '9'
    decreases |s|
  {
    if s == [] then 0 else ParseNat(s[..|s| - 1]) * 10 + (s[|s| - 1] as int - '0' as int)
  }

  /** The decimal notation reads back as the number, and has no leading zero. */
  lemma {:induction false} NatToStringRoundTrip(n: nat)
    ensures ParseNat(NatToString(n)) == n
    ensures NatToString(n)[0] == '0' <==> n == 0
    decreases n
  {
    if n >= 10 {
      NatToStringRoundTrip(n / 10);
      var s := NatToString(n);
      assert s[..|s| - 1] == NatToString(n / 10);
    }
  }

  /** A template literal's rendering of an integer. */
  function IntToString(i: int): string {
    if i < 0 then "-" + NatToString(-i) else NatToString(i)
  }

  /** `${path} ${l + 1}:${c + 1}` */
  function Pretty(path: string, line: nat, column: int): string {
    path + " " + IntToString(line + 1) + ":" + IntToString(column + 1)
  }

  /** The record of a kept node, or None when converting one of its offsets
      throws. */
  function RecordOf(source: string, path: string, n: TsNode): Option<Detection> {
    var acc := LineStarts(Split(source));
    var a := Locate(acc, n.start, 0);
    var b := Locate(acc, n.end, 0);
    if a.None? || b.None? then None
    else Some(Detection(Substring(source, n.start, n.end), (n.start, n.end),
      (Pretty(path, a.value.0, a.value.1), Pretty(path, b.value.0, b.value.1))))
  }

  /** The filter: an expression node whose type renders exactly as `bigint`. */
  predicate Kept(n: TsNode, typeName: TsNode -> string) {
    IsExpressionNode(n.kind) && typeName(n) == "bigint"
  }

  /** The order in which the visitor tests nodes: the children's subtrees
      first, then the node itself. */
  function PostOrder(n: TsNode): seq<TsNode>
    decreases n, 1
  {
    PostOrderAll(n.children) + [n]
  }

  function PostOrderAll(cs: seq<TsNode>): seq<TsNode>
    decreases cs, 0
  {
    if cs == [] then [] else PostOrder(cs[0]) + PostOrderAll(cs[1..])
  }

  /** Both lists, or None if either failed. */
  function Cat(a: Option<seq<Detection>>, b: Option<seq<Detection>>): (r: Option<seq<Detection>>)
    ensures r.Some? <==> a.Some? && b.Some?
    ensures r.Some? ==> r.value == a.value + b.value
  {
    if a.Some? && b.Some? then Some(a.value + b.value) else None
  }

  /** Each node's record, as the visitor makes it. */
  function RecordIn(source: string, path: string): TsNode -> Option<Detection> {
    (n: TsNode) => RecordOf(source, path, n)
  }

  /** The detections recorded while the listed nodes are tested in order,
      `rec` making the record of each kept node. */
  function Gather(ns: seq<TsNode>, typeName: TsNode -> string, rec: TsNode -> Option<Detection>): Option<seq<Detection>>
    decreases |ns|
  {
    if ns == [] then Some([])
    else
      var head := if !Kept(ns[0], typeName) then Some([])
        else match rec(ns[0]) case None => None case Some(d) => Some([d]);
      Cat(head, Gather(ns[1..], typeName, rec))
  }

  /** The detections recorded while the listed nodes of `source` are tested. */
  function Collect(source: string, path: string, typeName: TsNode -> string, ns: seq<TsNode>): Option<seq<Detection>> {
    Gather(ns, typeName, RecordIn(source, path))
  }

  /** The detections of a whole tree: None when the source throws. */
  function Detections(source: string, path: string, typeName: TsNode -> string, root: TsNode): Option<seq<Detection>> {
    Collect(source, path, typeName, PostOrder(root))
  }

  lemma CatAssoc(a: Option<seq<Detection>>, b: Option<seq<Detection>>, c: Option<seq<Detection>>)
    ensures Cat(a, Cat(b, c)) == Cat(Cat(a, b), c)
  {
    if a.Some? && b.Some? && c.Some? {
      assert a.value + (b.value + c.value) == (a.value + b.value) + c.value;
    }
  }

  lemma CollectAppend(source: string, path: string, typeName: TsNode -> string, xs: seq<TsNode>, ys: seq<TsNode>)
    ensures Collect(source, path, typeName, xs + ys) ==
      Cat(Collect(source, path, typeName, xs), Collect(source, path, typeName, ys))
  {
    GatherAppend(typeName, RecordIn(source, path), xs, ys);
  }

  lemma {:induction false} GatherAppend(typeName: TsNode -> string, rec: TsNode -> Option<Detection>, xs: seq<TsNode>, ys: seq<TsNode>)
    ensures Gather(xs + ys, typeName, rec) == Cat(Gather(xs, typeName, rec), Gather(ys, typeName, rec))
    decreases |xs|
  {
    var b := Gather(ys, typeName, rec);
    if xs == [] {
      assert xs + ys == ys;
      if b.Some? {
        assert [] + b.value == b.value;
      }
    } else {
      assert (xs + ys)[1..] == xs[1..] + ys;
      GatherAppend(typeName, rec, xs[1..], ys);
      var head := if !Kept(xs[0], typeName) then Some([])
        else match rec(xs[0]) case None => None case Some(d) => Some([d]);
      CatAssoc(head, Gather(xs[1..], typeName, rec), b);
    }
  }

  lemma PostOrderAllSnoc(cs: seq<TsNode>, i: nat)
    requires i < |cs|
    ensures PostOrderAll(cs[..i + 1]) == PostOrderAll(cs[..i]) + PostOrder(cs[i])
    decreases i
  {
    if i > 0 {
      assert cs[..i + 1][1..] == cs[1..][..i];
      assert cs[..i][1..] == cs[1..][..i - 1];
      PostOrderAllSnoc(cs[1..], i - 1);
    }
  }

  lemma PostOrderAllSplit(cs: seq<TsNode>, i: nat)
    requires i <= |cs|
    ensures PostOrderAll(cs) == PostOrderAll(cs[..i]) + PostOrderAll(cs[i..])
    decreases i
  {
    if i > 0 {
      assert cs[..i][1..] == cs[1..][..i - 1];
      assert cs[i..] == cs[1..][i - 1..];
      PostOrderAllSplit(cs[1..], i - 1);
    }
  }

  /** The nodes the filter keeps, in visiting order. */
  function KeptNodes(ns: seq<TsNode>, typeName: TsNode -> string): (r: seq<TsNode>)
    ensures forall x <- r :: x in ns && Kept(x, typeName)
    ensures forall x <- ns :: Kept(x, typeName) ==> x in r
    decreases |ns|
  {
    if ns == [] then []
    else (if Kept(ns[0], typeName) then [ns[0]] else []) + KeptNodes(ns[1..], typeName)
  }

  /** A node throws when one of its offsets lies beyond the end of the text. */
  predicate OutOfRange(source: string, n: TsNode) {
    n.start > |source| || n.end > |source|
  }

  lemma RecordOfSpec(source: string, path: string, n: TsNode)
    ensures RecordOf(source, path, n).None? <==> OutOfRange(source, n)
  {
    SplitJoin(source);
    LocateLines(Split(source), n.start);
    LocateLines(Split(source), n.end);
  }

  /** A node is recorded iff it passes the filter: the list holds one record
      per kept node, in the visiting order, each with the node's offsets, its
      text and its 1-based positions; and the whole run fails iff some kept
      node has an offset past the end of the text. */
  lemma CollectSpec(source: string, path: string, typeName: TsNode -> string, ns: seq<TsNode>)
    ensures var r := Collect(source, path, typeName, ns);
      (r.None? <==> exists x <- ns :: Kept(x, typeName) && OutOfRange(source, x)) &&
      (r.Some? ==>
        var kept := KeptNodes(ns, typeName);
        |r.value| == |kept| &&
        forall k :: 0 <= k < |kept| ==> RecordOf(source, path, kept[k]) == Some(r.value[k]))
  {
    var rec := RecordIn(source, path);
    GatherFails(typeName, rec, ns);
    GatherRecords(typeName, rec, ns);
    forall x | x in ns ensures rec(x).None? <==> OutOfRange(source, x) {
      RecordOfSpec(source, path, x);
    }
  }

  /** The run fails iff `rec` fails on some kept node. */
  lemma {:induction false} GatherFails(typeName: TsNode -> string, rec: TsNode -> Option<Detection>, ns: seq<TsNode>)
    ensures Gather(ns, typeName, rec).None? <==> exists x <- ns :: Kept(x, typeName) && rec(x).None?
    decreases |ns|
  {
    if ns != [] {
      GatherFails(typeName, rec, ns[1..]);
      if exists x <- ns :: Kept(x, typeName) && rec(x).None? {
        var x :| x in ns && Kept(x, typeName) && rec(x).None?;
        if x != ns[0] {
          assert x in ns[1..];
        }
      }
    }
  }

  /** A successful run holds one record per kept node, in order. */
  lemma {:induction false} GatherRecords(typeName: TsNode -> string, rec: TsNode -> Option<Detection>, ns: seq<TsNode>)
    ensures var r := Gather(ns, typeName, rec);
      r.Some? ==>
        var kept := KeptNodes(ns, typeName);
        |r.value| == |kept| &&
        forall k :: 0 <= k < |kept| ==> rec(kept[k]) == Some(r.value[k])
    decreases |ns|
  {
    if ns != [] {
      GatherRecords(typeName, rec, ns[1..]);
      var r := Gather(ns, typeName, rec);
      var rest := Gather(ns[1..], typeName, rec);
      if r.Some? {
        var kept := KeptNodes(ns, typeName);
        var kept' := KeptNodes(ns[1..], typeName);
        if Kept(ns[0], typeName) {
          assert kept == [ns[0]] + kept';
          assert r.value == [rec(ns[0]).value] + rest.value;
          ConsRecords(ns[0], kept', rec(ns[0]).value, rest.value, rec);
        } else {
          assert kept == kept';
        }
      }
    }
  }

  /** Records listed one for one stay so with one more in front. */
  lemma ConsRecords(x: TsNode, xs: seq<TsNode>, d: Detection, ds: seq<Detection>, rec: TsNode -> Option<Detection>)
    requires rec(x) == Some(d) && |ds| == |xs|
    requires forall k :: 0 <= k < |xs| ==> rec(xs[k]) == Some(ds[k])
    ensures forall k :: 0 <= k < |xs| + 1 ==> rec(([x] + xs)[k]) == Some(([d] + ds)[k])
  {
    forall k | 0 <= k < |xs| + 1 ensures rec(([x] + xs)[k]) == Some(([d] + ds)[k]) {
      if k > 0 {
        assert ([x] + xs)[k] == xs[k - 1] && ([d] + ds)[k] == ds[k - 1];
      }
    }
  }

  /** What a kept node's record holds: its offsets, its text, and the line
      and column of each end, each plus one. */
  lemma RecordFields(source: string, path: string, n: TsNode)
    requires !OutOfRange(source, n)
    ensures RecordOf(source, path, n).Some?
    ensures var d := RecordOf(source, path, n).value;
      var acc := LineStarts(Split(source));
      var a := Locate(acc, n.start, 0).value;
      var b := Locate(acc, n.end, 0).value;
      d.range == (n.start, n.end) &&
      d.text == Substring(source, n.start, n.end) &&
      0 <= a.1 && 0 <= b.1 &&
      d.rangePretty == (path + " " + NatToString(a.0 + 1) + ":" + NatToString(a.1 + 1),
                        path + " " + NatToString(b.0 + 1) + ":" + NatToString(b.1 + 1))
  {
    var acc := LineStarts(Split(source));
    SplitJoin(source);
    LocateLines(Split(source), n.start);
    LocateLines(Split(source), n.end);
    var a := Locate(acc, n.start, 0).value;
    var b := Locate(acc, n.end, 0).value;
    assert IntToString(a.1 + 1) == NatToString(a.1 + 1);
    assert IntToString(b.1 + 1) == NatToString(b.1 + 1);
  }

  /** The visitor: `traversal.visitChildren()` first, then the test of the
      node itself. */
  method Visit(conv: PositionConverter, path: string, typeName: TsNode -> string, n: TsNode)
    returns (r: Option<seq<Detection>>)
    requires conv.Valid()
    ensures r == Collect(conv.source, path, typeName, PostOrder(n))
    decreases n
  {
    var dets: seq<Detection> := [];
    for i := 0 to |n.children|
      invariant Collect(conv.source, path, typeName, PostOrderAll(n.children[..i])) == Some(dets)
    {
      var ri := Visit(conv, path, typeName, n.children[i]);
      PostOrderAllSnoc(n.children, i);
      CollectAppend(conv.source, path, typeName, PostOrderAll(n.children[..i]), PostOrder(n.children[i]));
      if ri.None? {
        PostOrderAllSplit(n.children, i + 1);
        CollectAppend(conv.source, path, typeName, PostOrderAll(n.children[..i + 1]), PostOrderAll(n.children[i + 1..]));
        CollectAppend(conv.source, path, typeName, PostOrderAll(n.children), [n]);
        return None;
      }
      dets := dets + ri.value;
    }
    assert n.children[..|n.children|] == n.children;
    CollectAppend(conv.source, path, typeName, PostOrderAll(n.children), [n]);
    assert [n][1..] == [];
    if Kept(n, typeName) {
      var a := conv.OffsetToLineColumn(n.start);
      if a.None? {
        return None;
      }
      var b := conv.OffsetToLineColumn(n.end);
      if b.None? {
        return None;
      }
      var d := Detection(Substring(conv.source, n.start, n.end), (n.start, n.end),
        (Pretty(path, a.value.0, a.value.1), Pretty(path, b.value.0, b.value.1)));
      assert RecordOf(conv.source, path, n) == Some(d);
      assert [d] + [] == [d];
      assert Collect(conv.source, path, typeName, [n]) == Some([d]);
      dets := dets + [d];
    } else {
      assert Collect(conv.source, path, typeName, [n]) == Some([]);
      assert dets + [] == dets;
    }
    return Some(dets);
  }

  /** `detectBigint`, with the source file given as its full text, its path
      and its tree, and the type checker as `typeName`. */
  method Detect(source: string, path: string, root: TsNode, typeName: TsNode -> string)
    returns (r: Option<seq<Detection>>)
    ensures r == Detections(source, path, typeName, root)
  {
    var conv := new PositionConverter(source);
    r := Visit(conv, path, typeName, root);
  }

  /** A node's detections are those of its children's subtrees, in order,
      followed by its own: children are tested before their parent. */
  lemma ChildrenFirst(source: string, path: string, typeName: TsNode -> string, n: TsNode, i: nat)
    requires i < |n.children|
    ensures PostOrder(n)[|PostOrder(n)| - 1] == n
    ensures var before := PostOrderAll(n.children[..i]);
      |before| + |PostOrder(n.children[i])| < |PostOrder(n)| &&
      PostOrder(n)[|before|..|before| + |PostOrder(n.children[i])|] == PostOrder(n.children[i])
  {
    PostOrderAllSplit(n.children, i);
    var rest := n.children[i..];
    assert PostOrderAll(rest) == PostOrder(n.children[i]) + PostOrderAll(rest[1..]);
  }
}
