/** The three truth values of SQL. */
module SqlLogic {
  datatype Truth = True | False | Unknown

  function SqlNot(a: Truth): Truth {
    match a
    case True => False
    case False => True
    case Unknown => Unknown
  }

  function SqlAnd(a: Truth, b: Truth): Truth {
    if a == False || b == False then False
    else if a == Unknown || b == Unknown then Unknown
    else True
  }

  function SqlOr(a: Truth, b: Truth): Truth {
    SqlNot(SqlAnd(SqlNot(a), SqlNot(b)))
  }

  function SqlOrAll(conditions: seq<Truth>): Truth {
    if conditions == [] then False else SqlOr(conditions[0], SqlOrAll(conditions[1..]))
  }

  lemma {:induction false} OrAllTrue(conditions: seq<Truth>)
    ensures SqlOrAll(conditions) == True <==> True in conditions
    ensures SqlOrAll(conditions) == False <==> forall c :: c in conditions ==> c == False
  {
    if conditions != [] {
      OrAllTrue(conditions[1..]);
      var a, b := conditions[0], SqlOrAll(conditions[1..]);
      assert SqlOr(a, b) == False <==> a == False && b == False;
      assert SqlOr(a, b) == True <==> a == True || b == True;
      assert forall c :: c in conditions <==> c == a || c in conditions[1..];
      if forall c :: c in conditions ==> c == False {
        assert a in conditions;
        assert forall c :: c in conditions[1..] ==> c in conditions;
      }
    }
  }
}
