/**
 * An editor that reads and writes whole numbers: it meets the law of number texts
 * the rule editor's theorems ask for (`apps/admin/src/rules.ts`).
 */
module WholeNumbers {
  import opened Text
  import opened Values
  import opened Expr
  import opened RuleRows

  function WholeNumberOf(t: string): Number {
    if t != "" && AllDigits(t) then Fin(Decimal(t) as real) else NaN
  }

  function WholeNumberText(n: Number): string {
    if n.Fin? && n.r >= 0.0 && n.r.Floor as real == n.r then DecimalText(n.r.Floor)
    else if n == NaN then "NaN"
    else "another"
  }

  lemma WholeNumbersReadBack(n: Number)
    requires exists t :: WholeNumberOf(t) == n
    ensures var t := WholeNumberText(n);
            && WholeNumberOf(t) == n && t != "" && Trimmed(t) && t != "true" && t != "false"
            && forall m :: WholeNumberText(m) == t ==> m == n
  {
    forall m
      ensures var t := WholeNumberText(m); AllDigits(t) ==> t != "" && m == Fin(Decimal(t) as real)
    {
      assert !IsDigit("NaN"[0]) && "NaN"[0] in "NaN" && !IsDigit("another"[0]) && "another"[0] in "another";
      if m.Fin? && m.r >= 0.0 && m.r.Floor as real == m.r {
        DecimalReadsBack(m.r.Floor);
      }
    }
    if n.Fin? {
      var t :| WholeNumberOf(t) == n;
      assert n.r == Decimal(t) as real && n.r.Floor == Decimal(t);
      DecimalReadsBack(n.r.Floor);
      DigitsAreTrimmed(WholeNumberText(n));
    }
  }

  lemma DigitsAreTrimmed(t: string)
    requires t != "" && AllDigits(t)
    ensures Trimmed(t) && t != "true" && t != "false" && t != "NaN" && t != "another"
  {
    assert t[0] in t && t[|t| - 1] in t;
  }

  /** The law of texts can be met: by an editor that knows the whole numbers, whatever else its host does. */
  lemma SomeEditorReadsBack(h: Host)
    ensures exists ed: Editor :: NumbersReadBack(ed) && forall n: nat :: ed.numOf(DecimalText(n)) == Fin(n as real)
  {
    var ed := Editor(h.(numText := WholeNumberText), WholeNumberOf);
    forall n: Number | Denoted(ed, n)
      ensures var t := ed.h.numText(n);
              && t != "" && t != "true" && t != "false" && Trimmed(t) && ed.numOf(t) == n
              && forall m :: ed.h.numText(m) == t ==> m == n
    {
      WholeNumbersReadBack(n);
    }
    forall n: nat
      ensures ed.numOf(DecimalText(n)) == Fin(n as real)
    {
      DecimalReadsBack(n);
    }
    assert NumbersReadBack(ed);
  }
}
