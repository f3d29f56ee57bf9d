/** Cardinality of finite sets, and of the sets of a sequence's elements. */
module Sets {
  lemma {:induction false} SubsetSize<T>(a: set<T>, b: set<T>)
    requires a <= b
    ensures |a| <= |b|
  {
    if x :| x in a { SubsetSize(a - {x}, b - {x}); }
  }

  ghost predicate NoDup<T>(l: seq<T>) {
    forall j, k :: 0 <= j < k < |l| ==> l[j] != l[k]
  }

  ghost function SetOf<T>(l: seq<T>): set<T> {
    set v | v in l
  }

  lemma {:induction false} NoDupSet<T>(l: seq<T>)
    requires NoDup(l)
    ensures |SetOf(l)| == |l|
  {
    if l == [] {
      assert SetOf(l) == {};
    } else {
      var rest := l[1..];
      assert NoDup(rest);
      NoDupSet(rest);
      assert l[0] !in SetOf(rest);
      assert SetOf(l) == SetOf(rest) + {l[0]} by { assert l == [l[0]] + rest; }
    }
  }
}
