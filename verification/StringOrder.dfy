/** The order Go gives strings. */
module StringOrder {
  /** Lexicographic order of strings. */
  predicate LexLess(a: string, b: string) {
    if b == [] then false
    else if a == [] then true
    else if a[0] != b[0] then a[0] < b[0]
    else LexLess(a[1..], b[1..])
  }

  /** `a` and `b` agree on their first `k` characters, and then `a` runs out or has the smaller character. */
  predicate LessAt(a: string, b: string, k: nat) {
    k <= |a| && k < |b| && a[..k] == b[..k] && (k == |a| || a[k] < b[k])
  }

  lemma {:induction false} LessAtIsLess(a: string, b: string, k: nat)
    requires LessAt(a, b, k)
    ensures LexLess(a, b)
  {
    if k > 0 {
      assert a[0] == a[..k][0] == b[..k][0] == b[0];
      assert a[1..][..k - 1] == a[..k][1..] && b[1..][..k - 1] == b[..k][1..];
      LessAtIsLess(a[1..], b[1..], k - 1);
    }
  }

  lemma {:induction false} LessSomewhere(a: string, b: string) returns (k: nat)
    requires LexLess(a, b)
    ensures LessAt(a, b, k)
  {
    k := 0;
    if a != [] && a[0] == b[0] {
      var n := LessSomewhere(a[1..], b[1..]);
      assert a[..n + 1] == [a[0]] + a[1..][..n] && b[..n + 1] == [b[0]] + b[1..][..n];
      k := n + 1;
    }
  }

  lemma LexLessIsLexicographic(a: string, b: string)
    ensures LexLess(a, b) <==> exists k :: LessAt(a, b, k)
  {
    if LexLess(a, b) {
      var k := LessSomewhere(a, b);
    }
    forall k | LessAt(a, b, k)
      ensures LexLess(a, b)
    {
      LessAtIsLess(a, b, k);
    }
  }

  lemma {:induction false} LexTotal(a: string, b: string)
    ensures a == b || LexLess(a, b) || LexLess(b, a)
    ensures !(LexLess(a, b) && LexLess(b, a))
  {
    if a != [] && b != [] && a[0] == b[0] {
      LexTotal(a[1..], b[1..]);
      if a[1..] == b[1..] {
        assert a == [a[0]] + a[1..] && b == [b[0]] + b[1..];
      }
    }
  }

  lemma {:induction false} LexTransitive(a: string, b: string, c: string)
    requires !LexLess(b, a) && !LexLess(c, b)
    ensures !LexLess(c, a)
  {
    if a != [] && b != [] && c != [] && a[0] == b[0] && b[0] == c[0] {
      LexTransitive(a[1..], b[1..], c[1..]);
    }
  }
}
