/**
 * Person: the immutable identity shared by patients and doctors, and the way
 * a person is described ("lastName firstName (ssn)").
 */
module Persons {

  /** The three final fields; the getters are the destructors. */
  datatype Person = Person(firstName: string, lastName: string, ssn: string)

  /** Person.toString. */
  function Describe(p: Person): (r: string)
    ensures |r| == |p.lastName| + |p.firstName| + |p.ssn| + 4
    ensures r[..|p.lastName|] == p.lastName && r[|p.lastName|] == ' '
    ensures r[|r| - |p.ssn| - 2..] == "(" + p.ssn + ")"
  {
    p.lastName + " " + p.firstName + " (" + p.ssn + ")"
  }

  /** Cutting at the first space recovers both sides when the left side has no space. */
  lemma SplitAtSpace(x: string, y: string, x': string, y': string)
    requires ' ' !in x && ' ' !in x'
    requires x + " " + y == x' + " " + y'
    ensures x == x' && y == y'
  {
    var s := x + " " + y;
    assert |x| == |x'| by {
      assert forall k :: 0 <= k < |x| ==> s[k] == x[k] != ' ';
      assert forall k :: 0 <= k < |x'| ==> s[k] == x'[k] != ' ';
      assert s[|x|] == ' ' && s[|x'|] == ' ';
    }
    assert x == s[..|x|] && x' == s[..|x'|];
    assert y == s[|x| + 1..] && y' == s[|x'| + 1..];
  }

  /**
   * The description identifies the person as long as neither name contains a
   * space: the last name ends at the first space, the first name at the next
   * one, and the SSN sits between the parentheses that close the text.
   */
  lemma DescribeInjective(p: Person, q: Person)
    requires ' ' !in p.firstName && ' ' !in p.lastName
    requires ' ' !in q.firstName && ' ' !in q.lastName
    requires Describe(p) == Describe(q)
    ensures p == q
  {
    var tp := p.firstName + " " + ("(" + p.ssn + ")");
    var tq := q.firstName + " " + ("(" + q.ssn + ")");
    assert Describe(p) == p.lastName + " " + tp;
    assert Describe(q) == q.lastName + " " + tq;
    SplitAtSpace(p.lastName, tp, q.lastName, tq);
    SplitAtSpace(p.firstName, "(" + p.ssn + ")", q.firstName, "(" + q.ssn + ")");
    assert p.ssn == ("(" + p.ssn + ")")[1..|p.ssn| + 1];
    assert q.ssn == ("(" + q.ssn + ")")[1..|q.ssn| + 1];
  }
}
