/**
 * The data model of the notation (identifiers, predicates, statements) and its canonical
 * text form, as rendered by the `Display` implementations of src/predicates.rs.
 * The predicate type is generic over any displayable argument in the source; here it is
 * instantiated at `Id`, the only argument type statements use.
 */
module Predicates {
  import opened Strings

  const Quote: char := '\''

  /** A predicate argument: a quoted constant or a bare variable name. */
  datatype Id = Literal(text: string) | Variable(name: string)

  /** A predicate: a name applied to an ordered list of arguments. */
  datatype Pred = Pred(name: string, ids: seq<Id>)

  /** A statement of the logic language. The rule body may be empty: nothing forbids it. */
  datatype Stmt = Fact(pred: Pred) | Rule(head: Pred, body: seq<Pred>) | Query(pred: Pred)

  // ---------------------------------------------------------------- construction and accessors

  function NewPred(name: string, ids: seq<Id>): Pred
  {
    Pred(name, ids)
  }

  function Len(p: Pred): nat
  {
    |p.ids|
  }

  function Name(p: Pred): string
  {
    p.name
  }

  function Ids(p: Pred): seq<Id>
  {
    p.ids
  }

  function IsEmpty(p: Pred): (b: bool)
    ensures b <==> Len(p) == 0
  {
    |p.ids| == 0
  }

  /** The accessors give back exactly what the predicate was built from. */
  lemma NewPredAccessors(name: string, ids: seq<Id>)
    ensures Name(NewPred(name, ids)) == name
    ensures Ids(NewPred(name, ids)) == ids
    ensures Len(NewPred(name, ids)) == |ids|
    ensures IsEmpty(NewPred(name, ids)) <==> ids == []
  {
  }

  // ---------------------------------------------------------------- canonical text (specification)

  /** A literal is quoted verbatim, with no escaping; a variable is written bare. */
  function RenderId(id: Id): string
  {
    match id
    case Literal(x) => [Quote] + x + [Quote]
    case Variable(x) => x
  }

  function RenderIds(ids: seq<Id>): (r: seq<string>)
    ensures |r| == |ids|
    ensures forall i :: 0 <= i < |ids| ==> r[i] == RenderId(ids[i])
  {
    seq(|ids|, i requires 0 <= i < |ids| => RenderId(ids[i]))
  }

  /** `name(a,b,c)`: arguments separated by a comma and no space. */
  function RenderPred(p: Pred): string
  {
    p.name + "(" + Join(RenderIds(p.ids), ",") + ")"
  }

  function RenderPreds(ps: seq<Pred>): (r: seq<string>)
    ensures |r| == |ps|
    ensures forall i :: 0 <= i < |ps| ==> r[i] == RenderPred(ps[i])
  {
    seq(|ps|, i requires 0 <= i < |ps| => RenderPred(ps[i]))
  }

  lemma RenderIdsPrefix(ids: seq<Id>, i: nat)
    requires i < |ids|
    ensures RenderIds(ids[..i + 1]) == RenderIds(ids[..i]) + [RenderId(ids[i])]
  {
  }

  lemma RenderPredsPrefix(ps: seq<Pred>, i: nat)
    requires i < |ps|
    ensures RenderPreds(ps[..i + 1]) == RenderPreds(ps[..i]) + [RenderPred(ps[i])]
  {
  }

  /** `p.` for a fact, `head :- b1, b2.` for a rule, `p?` for a query. */
  function RenderStmt(s: Stmt): string
  {
    match s
    case Fact(p) => RenderPred(p) + "."
    case Rule(head, body) => RenderPred(head) + " :- " + Join(RenderPreds(body), ", ") + "."
    case Query(p) => RenderPred(p) + "?"
  }

  // ---------------------------------------------------------------- the Display implementations

  /** Writes the predicate step by step, as its formatter does: the first argument bare, every later one after a comma. */
  method FmtPred(p: Pred) returns (out: string)
    ensures out == RenderPred(p)
  {
    out := p.name + "(";
    ghost var prefix := out;
    var i := 0;
    while i < |p.ids|
      invariant 0 <= i <= |p.ids|
      invariant out == prefix + Join(RenderIds(p.ids[..i]), ",")
    {
      ghost var done := Join(RenderIds(p.ids[..i]), ",");
      var ch := RenderId(p.ids[i]);
      RenderIdsPrefix(p.ids, i);
      if i == 0 {
        assert out == prefix;
        out := out + ch;
      } else {
        JoinSnoc(RenderIds(p.ids[..i]), ch, ",");
        AppendAssoc(prefix, done, ",");
        AppendAssoc(prefix, done + ",", ch);
        out := out + "," + ch;
      }
      i := i + 1;
    }
    assert p.ids[..i] == p.ids;
    out := out + ")";
  }

  /** Writes a rule body: the `fold` over the body whose `first` flag puts `", "` only between elements. */
  method FmtTail(tail: seq<Pred>) returns (out: string)
    ensures out == Join(RenderPreds(tail), ", ")
  {
    out := "";
    var first := true;
    var i := 0;
    while i < |tail|
      invariant 0 <= i <= |tail|
      invariant first <==> i == 0
      invariant out == Join(RenderPreds(tail[..i]), ", ")
    {
      var elem := FmtPred(tail[i]);
      RenderPredsPrefix(tail, i);
      if !first {
        JoinSnoc(RenderPreds(tail[..i]), elem, ", ");
        out := out + ", ";
      }
      out := out + elem;
      first := false;
      i := i + 1;
    }
    assert tail[..i] == tail;
  }

  /** Writes the statement piece by piece: the head, then the folded body for a rule, then the terminator. */
  method FmtStmt(s: Stmt) returns (out: string)
    ensures out == RenderStmt(s)
  {
    match s
    case Fact(p) =>
      var t := FmtPred(p);
      out := t + ".";
    case Rule(head, tail) =>
      var h := FmtPred(head);
      out := h + " :- ";
      var body := FmtTail(tail);
      out := out + body;
      out := out + ".";
    case Query(p) =>
      var t := FmtPred(p);
      out := t + "?";
  }

  // ---------------------------------------------------------------- properties of the text form

  /** A predicate with no arguments renders as `name()`. */
  lemma EmptyPredRendering(name: string)
    ensures RenderPred(Pred(name, [])) == name + "()"
  {
  }

  /** A rule with an empty body is not rejected; it renders with nothing between `:-` and `.`. */
  lemma EmptyRuleBodyRendering(head: Pred)
    ensures RenderStmt(Rule(head, [])) == RenderPred(head) + " :- ."
  {
  }

  /** The renderings the unit tests pin down. */
  lemma FactExamples()
    ensures RenderStmt(Fact(Pred("foo", [Literal("bar"), Literal("baz")]))) == "foo('bar','baz')."
    ensures RenderStmt(Fact(Pred("foo", [Literal("bar")]))) == "foo('bar')."
  {
    TestPredicates();
  }

  lemma QueryExamples()
    ensures RenderStmt(Query(Pred("foo", [Literal("bar"), Literal("baz")]))) == "foo('bar','baz')?"
    ensures RenderStmt(Query(Pred("foo", [Literal("bar")]))) == "foo('bar')?"
  {
    TestPredicates();
  }

  lemma TestPredicates()
    ensures RenderPred(Pred("foo", [Literal("bar"), Literal("baz")])) == "foo('bar','baz')"
    ensures RenderPred(Pred("foo", [Literal("bar")])) == "foo('bar')"
  {
    var bar, baz := RenderId(Literal("bar")), RenderId(Literal("baz"));
    assert bar == "'bar'";
    assert baz == "'baz'";
    var two := RenderIds([Literal("bar"), Literal("baz")]);
    assert two == [bar, baz];
    assert two[..1] == [bar];
    assert Join(two, ",") == bar + "," + baz;
    assert RenderIds([Literal("bar")]) == [bar];
  }

  /** The character `c` occurs in no name, literal or variable of the predicate. */
  predicate PredAvoids(p: Pred, c: char)
  {
    c !in p.name && forall i :: 0 <= i < |p.ids| ==> c !in RenderId(p.ids[i])
  }

  predicate StmtAvoids(s: Stmt, c: char)
  {
    match s
    case Fact(p) => PredAvoids(p, c)
    case Rule(head, body) => PredAvoids(head, c) && forall i :: 0 <= i < |body| ==> PredAvoids(body[i], c)
    case Query(p) => PredAvoids(p, c)
  }

  /** Arity is visible in the text: when no name or argument contains a comma, there are exactly `len - 1` commas. */
  lemma PredCommaCount(p: Pred)
    requires PredAvoids(p, ',')
    ensures Count(RenderPred(p), ',') == if Len(p) == 0 then 0 else Len(p) - 1
  {
    var args := Join(RenderIds(p.ids), ",");
    var open := p.name + "(";
    JoinCount(RenderIds(p.ids), ",", ',');
    assert Count(",", ',') == 1;
    CountAbsent(p.name, ',');
    CountAbsent("(", ',');
    CountAbsent(")", ',');
    CountConcat(p.name, "(", ',');
    CountConcat(open, args, ',');
    CountConcat(open + args, ")", ',');
  }

  /** A predicate whose parts avoid a character that is not punctuation of the notation renders without it. */
  lemma PredRenderingAvoids(p: Pred, c: char)
    requires PredAvoids(p, c)
    requires c !in "(),"
    ensures c !in RenderPred(p)
  {
    var args := Join(RenderIds(p.ids), ",");
    JoinCount(RenderIds(p.ids), ",", c);
    CountAbsent(",", c);
    CountAbsent(args, c);
  }

  /** The same for statements, whose own punctuation is `:-`, `, `, `.` and `?`. */
  lemma StmtRenderingAvoids(s: Stmt, c: char)
    requires StmtAvoids(s, c)
    requires c !in "(),:-.? "
    ensures c !in RenderStmt(s)
  {
    match s
    case Fact(p) =>
      PredRenderingAvoids(p, c);
    case Query(p) =>
      PredRenderingAvoids(p, c);
    case Rule(head, body) =>
      PredRenderingAvoids(head, c);
      BodyRenderingAvoids(body, c);
      assert c !in " :- " && c !in ".";
  }

  lemma BodyRenderingAvoids(body: seq<Pred>, c: char)
    requires forall i :: 0 <= i < |body| ==> PredAvoids(body[i], c)
    requires c !in "(), "
    ensures c !in Join(RenderPreds(body), ", ")
  {
    var parts := RenderPreds(body);
    forall i | 0 <= i < |parts|
      ensures c !in parts[i]
    {
      PredRenderingAvoids(body[i], c);
    }
    JoinCount(parts, ", ", c);
    CountAbsent(", ", c);
    CountAbsent(Join(parts, ", "), c);
  }
}
