/** The two orders the program asks for: years newest first (`ORDER BY year DESC`
    on the server, `sort((a, b) => b - a)` on the client) and category codes in
    ascending code order (`ORDER BY code`). */
module Ordering {

  /** A set that is not empty has an element (stated so that every set meets it). */
  lemma HasElement<T>(s: set<T>)
    ensures s == {} || exists y :: y in s
  {
    if forall y :: y !in s { assert s == {}; }
  }

  /** The same for integers. Instantiated at `int`, the generic lemma's witness is a
      boxed value, and `:|` over an integer set does not pick it up; this copy states
      the fact on unboxed integers. */
  lemma HasInt(s: set<int>)
    ensures s == {} || exists y :: y in s
  {
    if forall y :: y !in s { assert s == {}; }
  }

  // ---------------------------------------------------------------- years

  predicate StrictlyDescending(s: seq<int>)
  {
    forall i, j :: 0 <= i < j < |s| ==> s[i] > s[j]
  }

  /** Every non-empty finite set of integers has a largest element. */
  lemma MaxExists(s: set<int>)
    requires s != {}
    ensures exists m :: m in s && forall x :: x in s ==> x <= m
  {
    var m := LargestOf(s);
  }

  /** The largest element, found by setting one element aside and comparing it with
      the largest of the rest. */
  lemma {:induction false} LargestOf(s: set<int>) returns (m: int)
    requires s != {}
    ensures m in s && forall x :: x in s ==> x <= m
    decreases |s|
  {
    HasInt(s);
    var y :| y in s;
    var rest := s - {y};
    if rest == {} {
      assert s == {y};
      m := y;
    } else {
      var k := LargestOf(rest);
      m := if k < y then y else k;
      forall x | x in s ensures x <= m {
        if x != y { assert x in rest; }
      }
    }
  }

  /** The largest element of a non-empty set. */
  function MaxOf(s: set<int>): (m: int)
    requires s != {}
    ensures m in s && forall x :: x in s ==> x <= m
  {
    MaxExists(s);
    var m :| m in s && forall x :: x in s ==> x <= m;
    m
  }

  /** The elements of `s`, largest first. */
  function SortedDesc(s: set<int>): (r: seq<int>)
    ensures StrictlyDescending(r)
    ensures forall x :: x in r <==> x in s
    ensures |r| == |s|
    decreases |s|
  {
    if s == {} then []
    else
      var m := MaxOf(s);
      [m] + SortedDesc(s - {m})
  }

  // ---------------------------------------------------------------- codes

  /** Strict lexicographic order on strings, character by character. */
  predicate CodeBefore(a: string, b: string)
    decreases |a|
  {
    if a == [] then b != []
    else b != [] && (a[0] < b[0] || (a[0] == b[0] && CodeBefore(a[1..], b[1..])))
  }

  lemma {:induction false} CodeBeforeIrreflexive(a: string)
    ensures !CodeBefore(a, a)
    decreases |a|
  {
    if a != [] { CodeBeforeIrreflexive(a[1..]); }
  }

  lemma {:induction false} CodeBeforeTransitive(a: string, b: string, c: string)
    requires CodeBefore(a, b) && CodeBefore(b, c)
    ensures CodeBefore(a, c)
    decreases |a|
  {
    if a != [] && a[0] == b[0] && b[0] == c[0] {
      CodeBeforeTransitive(a[1..], b[1..], c[1..]);
    }
  }

  lemma {:induction false} CodeBeforeTotal(a: string, b: string)
    requires a != b
    ensures CodeBefore(a, b) || CodeBefore(b, a)
    decreases |a|
  {
    if a != [] && b != [] && a[0] == b[0] {
      assert a == [a[0]] + a[1..] && b == [b[0]] + b[1..];
      CodeBeforeTotal(a[1..], b[1..]);
    }
  }

  predicate StrictlyAscending(s: seq<string>)
  {
    forall i, j :: 0 <= i < j < |s| ==> CodeBefore(s[i], s[j])
  }

  /** Every non-empty finite set of strings has a first element in code order. */
  lemma {:induction false} FirstExists(s: set<string>)
    requires s != {}
    ensures exists m :: m in s && forall x :: x in s && x != m ==> CodeBefore(m, x)
  {
    HasElement(s);
    var y :| y in s;
    var rest := s - {y};
    HasElement(rest);
    if rest != {} {
      FirstExists(rest);
      var m :| m in rest && forall x :: x in rest && x != m ==> CodeBefore(m, x);
      CodeBeforeTotal(m, y);
      if CodeBefore(y, m) {
        forall x | x in s && x != y ensures CodeBefore(y, x) {
          if x != m { assert x in rest; CodeBeforeTransitive(y, m, x); }
        }
      } else {
        forall x | x in s && x != m ensures CodeBefore(m, x) {
          if x != y { assert x in rest; }
        }
      }
    } else {
      assert s == {y};
    }
  }

  /** The first element of a non-empty set of strings in code order. */
  function FirstOf(s: set<string>): (m: string)
    requires s != {}
    ensures m in s && forall x :: x in s && x != m ==> CodeBefore(m, x)
  {
    FirstExists(s);
    CodeBeforeAsymmetric();
    var m :| m in s && forall x :: x in s && x != m ==> CodeBefore(m, x);
    m
  }

  lemma CodeBeforeAsymmetric()
    ensures forall a, b :: CodeBefore(a, b) ==> !CodeBefore(b, a)
  {
    forall a, b | CodeBefore(a, b) ensures !CodeBefore(b, a) {
      if CodeBefore(b, a) {
        CodeBeforeTransitive(a, b, a);
        CodeBeforeIrreflexive(a);
      }
    }
  }

  /** The elements of `s` in ascending code order. */
  function SortedCodes(s: set<string>): (r: seq<string>)
    ensures StrictlyAscending(r)
    ensures forall x :: x in r <==> x in s
    ensures |r| == |s|
    decreases |s|
  {
    if s == {} then []
    else
      var m := FirstOf(s);
      var rest := SortedCodes(s - {m});
      assert forall j :: 0 <= j < |rest| ==> CodeBefore(m, rest[j]) by {
        forall j | 0 <= j < |rest| ensures CodeBefore(m, rest[j]) {
          assert rest[j] in s - {m};
        }
      }
      [m] + rest
  }
}
