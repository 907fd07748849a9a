/** Sizes of finite sets. */
module Sets {
  /** A subset that lacks an element is smaller. */
  lemma {:induction false} Smaller<T>(a: set<T>, b: set<T>, x: T)
    requires x in b && a <= b - {x}
    ensures |a| < |b|
  {
    if a != {} {
      var y :| y in a;
      Smaller(a - {y}, b - {y}, x);
    }
  }

  lemma {:induction false} NoLarger<T>(a: set<T>, b: set<T>)
    requires a <= b
    ensures |a| <= |b|
  {
    if a != {} {
      var y :| y in a;
      NoLarger(a - {y}, b - {y});
    }
  }
}
