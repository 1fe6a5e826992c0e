/**
 * The statement writer of src/writer.rs: an output it owns, to which `Add` appends one
 * rendered statement and a newline per call. The file is modelled as its text.
 */
module Writer {
  import opened Strings
  import opened Predicates

  /** The text one `Add` call appends: the statement's rendering and a newline. */
  function Line(s: Stmt): string
  {
    RenderStmt(s) + "\n"
  }

  /** What is appended for each kind of statement, as the three arms of the writer spell it out. */
  lemma LineShapes(s: Stmt)
    ensures s.Fact? ==> Line(s) == RenderPred(s.pred) + ".\n"
    ensures s.Query? ==> Line(s) == RenderPred(s.pred) + "?\n"
    ensures s.Rule? ==> Line(s) == RenderPred(s.head) + " :- " + Join(RenderPreds(s.body), ", ") + ".\n"
  {
  }

  /** The text of a file holding the lines of `stmts`, in order, after a fresh start. */
  function Lines(stmts: seq<Stmt>): string
    decreases |stmts|
  {
    if |stmts| == 0 then "" else Line(stmts[0]) + Lines(stmts[1..])
  }

  /** Writing two batches one after the other gives the two batches' texts in that order. */
  lemma {:induction false} LinesConcat(a: seq<Stmt>, b: seq<Stmt>)
    ensures Lines(a + b) == Lines(a) + Lines(b)
    decreases |a|
  {
    if |a| == 0 {
      assert a + b == b;
    } else {
      assert (a + b)[1..] == a[1..] + b;
      assert (a + b)[0] == a[0];
      LinesConcat(a[1..], b);
    }
  }

  lemma LinesSnoc(stmts: seq<Stmt>, s: Stmt)
    ensures Lines(stmts + [s]) == Lines(stmts) + Line(s)
  {
    LinesConcat(stmts, [s]);
    assert [s][1..] == [];
  }

  /** When no statement's names, literals or variables contain a newline, there is one newline per statement. */
  lemma {:induction false} LinesNewlineCount(stmts: seq<Stmt>)
    requires forall i :: 0 <= i < |stmts| ==> StmtAvoids(stmts[i], '\n')
    ensures Count(Lines(stmts), '\n') == |stmts|
    decreases |stmts|
  {
    if |stmts| > 0 {
      var first, rest := stmts[0], stmts[1..];
      LinesNewlineCount(rest);
      StmtRenderingAvoids(first, '\n');
      CountAbsent(RenderStmt(first), '\n');
      CountConcat(RenderStmt(first), "\n", '\n');
      CountConcat(Line(first), Lines(rest), '\n');
    }
  }

  class FileWriter {
    /** Everything written so far. */
    var file: string
    /** The statements added so far, in call order. */
    ghost var written: seq<Stmt>

    ghost predicate Valid()
      reads this
    {
      file == Lines(written)
    }

    /** Creating the file truncates it: the writer starts from empty contents. */
    constructor ()
      ensures Valid() && written == [] && file == ""
    {
      file := "";
      written := [];
    }

    /** Writes a rule body: the `fold` over the body whose `first` flag puts `", "` only between elements. */
    method WriteTail(tail: seq<Pred>)
      modifies this`file
      ensures file == old(file) + Join(RenderPreds(tail), ", ")
    {
      ghost var prefix := file;
      var first := true;
      var i := 0;
      while i < |tail|
        invariant 0 <= i <= |tail|
        invariant first <==> i == 0
        invariant file == prefix + Join(RenderPreds(tail[..i]), ", ")
      {
        ghost var done := Join(RenderPreds(tail[..i]), ", ");
        var elem := FmtPred(tail[i]);
        RenderPredsPrefix(tail, i);
        if !first {
          JoinSnoc(RenderPreds(tail[..i]), elem, ", ");
          AppendAssoc(prefix, done, ", ");
          file := file + ", ";
          AppendAssoc(prefix, done + ", ", elem);
        } else {
          assert file == prefix;
        }
        file := file + elem;
        first := false;
        i := i + 1;
      }
      assert tail[..i] == tail;
    }

    /** Writes the rendering of `statement` piece by piece: the head, the folded body for a rule, the terminator. */
    method WriteStmt(statement: Stmt)
      modifies this`file
      ensures file == old(file) + RenderStmt(statement)
    {
      ghost var start := file;
      match statement {
      case Fact(pred) =>
        var p := FmtPred(pred);
        file := file + p;
        AppendAssoc(start, p, ".");
        file := file + ".";
      case Rule(head, tail) =>
        var h := FmtPred(head);
        file := file + h;
        AppendAssoc(start, h, " :- ");
        file := file + " :- ";
        WriteTail(tail);
        ghost var body := Join(RenderPreds(tail), ", ");
        AppendAssoc(start, h + " :- ", body);
        AppendAssoc(start, h + " :- " + body, ".");
        file := file + ".";
      case Query(pred) =>
        var p := FmtPred(pred);
        file := file + p;
        AppendAssoc(start, p, "?");
        file := file + "?";
      }
    }

    /** Appends the rendering of `statement` and ends the line, as `writeln!` does. */
    method Add(statement: Stmt)
      requires Valid()
      modifies this
      ensures Valid() && written == old(written) + [statement]
      ensures file == old(file) + Line(statement)
    {
      WriteStmt(statement);
      AppendAssoc(old(file), RenderStmt(statement), "\n");
      file := file + "\n";
      LinesSnoc(written, statement);
      written := written + [statement];
    }
  }
}
