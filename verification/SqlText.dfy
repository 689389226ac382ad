/** The two kinds of statement that are rewritten, what their texts mean, and the rewritten texts. */
module SqlText {
  import Arithmetic
  import opened Results
  import opened Text

  // ---- Texts ----------------------------------------------------------------

  function Repeat(t: string, n: nat): string {
    if n == 0 then "" else t + Repeat(t, n - 1)
  }

  lemma {:induction false} RepeatLength(t: string, n: nat)
    ensures |Repeat(t, n)| == n * |t|
  {
    if n > 0 {
      RepeatLength(t, n - 1);
      Distribute(n - 1, |t|);
    }
  }

  lemma Distribute(n: nat, m: nat)
    ensures (n + 1) * m == n * m + m
  {
  }

  lemma {:induction false} RepeatBack(t: string, n: nat)
    ensures t + Repeat(t, n) == Repeat(t, n) + t
    ensures Repeat(t, n + 1) == Repeat(t, n) + t
  {
    if n > 0 {
      RepeatBack(t, n - 1);
      JoinThree(t, Repeat(t, n - 1), t);
    }
  }

  /** A parameter list, such as ?, ?, ? */
  function MarkList(n: nat): string
    requires 1 <= n
  {
    "?" + Repeat(", ?", n - 1)
  }

  function Tuple(n: nat): string
    requires 1 <= n
  {
    "(" + MarkList(n) + ")"
  }

  /** Cutting the last comma from marks that are each followed by one leaves a parameter list. */
  lemma {:induction false} MarksWithoutComma(n: nat)
    requires 1 <= n
    ensures Repeat("?, ", n) == MarkList(n) + ", "
  {
    if n == 1 {
      assert Repeat("?, ", 0) == "" && Repeat(", ?", 0) == "";
    } else {
      MarksWithoutComma(n - 1);
      RepeatBack(", ?", n - 2);
      assert "?, " + ("?" + Repeat(", ?", n - 2) + ", ") == "?" + (", ?" + Repeat(", ?", n - 2)) + ", ";
    }
  }

  /** cmdb_create_multi: a single-row INSERT of n columns, widened to rows rows. */
  function WidenedInsert(single: string, n: nat, rows: nat): string
    requires 1 <= n && 1 <= rows
  {
    single + Repeat(", " + Tuple(n), rows - 1)
  }

  /** cmdb_create_delete_multi: the text before the comparison, then IN and a parameter list. */
  function WidenedDelete(head: string, total: nat): string
    requires 1 <= total
  {
    head + "IN (" + MarkList(total) + ")"
  }

  /** How many parameters a text has. */
  function Marks(s: string): nat {
    if s == "" then 0 else (if s[0] == '?' then 1 else 0) + Marks(s[1..])
  }

  lemma {:induction false} MarksAppend(a: string, b: string)
    ensures Marks(a + b) == Marks(a) + Marks(b)
  {
    if a == "" {
      assert a + b == b;
    } else {
      assert (a + b)[0] == a[0] && (a + b)[1..] == a[1..] + b;
      MarksAppend(a[1..], b);
    }
  }

  lemma {:induction false} MarksRepeat(t: string, n: nat)
    ensures Marks(Repeat(t, n)) == n * Marks(t)
  {
    if n > 0 {
      MarksRepeat(t, n - 1);
      MarksAppend(t, Repeat(t, n - 1));
      Distribute(n - 1, Marks(t));
    }
  }

  lemma MarksOfTuple(n: nat)
    requires 1 <= n
    ensures Marks(MarkList(n)) == n && Marks(Tuple(n)) == n && Marks(", " + Tuple(n)) == n
    ensures |Tuple(n)| == 3 * n
  {
    MarksRepeat(", ?", n - 1);
    RepeatLength(", ?", n - 1);
    assert Marks(", ?") == 1 by { assert ", ?"[1..] == " ?" && " ?"[1..] == "?"; }
    MarksAppend("?", Repeat(", ?", n - 1));
    MarksAppend("(", MarkList(n));
    MarksAppend("(" + MarkList(n), ")");
    MarksAppend(", ", Tuple(n));
    assert ", "[1..] == " ";
  }

  lemma WholeRows(total: nat, n: nat)
    requires 1 <= n <= total
    ensures 1 <= total / n && total / n * n == total - total % n
  {
    Arithmetic.DivisionParts(total, n);
  }

  /** The widened text has as many parameters as there are values exactly when whole rows make up the values. */
  lemma WidenedInsertMarks(single: string, n: nat, total: nat)
    requires 1 <= n <= total && Marks(single) == n
    ensures Marks(WidenedInsert(single, n, total / n)) == total / n * n
    ensures Marks(WidenedInsert(single, n, total / n)) == total <==> total % n == 0
  {
    WholeRows(total, n);
    var rows := total / n;
    hide Tuple;
    MarksOfTuple(n);
    MarksRepeat(", " + Tuple(n), rows - 1);
    MarksAppend(single, Repeat(", " + Tuple(n), rows - 1));
    Distribute(rows - 1, n);
  }

  lemma WidenedDeleteMarks(head: string, total: nat)
    requires 1 <= total && Marks(head) == 0
    ensures Marks(WidenedDelete(head, total)) == total
  {
    MarksOfTuple(total);
    MarksAppend(head, "IN (");
    MarksAppend(head + "IN (", MarkList(total));
    MarksAppend(head + "IN (" + MarkList(total), ")");
    assert Marks("IN (") == 0 by { assert "IN ("[1..] == "N (" && "N ("[1..] == " (" && " ("[1..] == "("; }
  }
}
