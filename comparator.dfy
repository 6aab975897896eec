/**
 * The comparator algebra of the csv tool: three-way comparison of ordered
 * values, lexicographic composition of comparators (seqCmp) and reversal.
 * A comparator returns a negative, zero or positive int; it is modelled on
 * the values it compares rather than on their indices in the record slice.
 */
module CsvComparator {

  /** boolAsInt: false is 0, true is 1. */
  function BoolAsInt(v: bool): int
  {
    if !v then 0 else 1
  }

  /** Through boolAsInt, false orders before true. */
  lemma BoolAsIntOrders(a: bool, b: bool)
    ensures BoolAsInt(a) < BoolAsInt(b) <==> !a && b
    ensures BoolAsInt(a) == BoolAsInt(b) <==> a == b
  {
  }

  /** cmpValue: 0 for equal values, 1 when `i > j` under `greater`, else -1. */
  function CmpValue<T(==)>(i: T, j: T, greater: (T, T) -> bool): int
  {
    if i == j then 0 else if greater(i, j) then 1 else -1
  }

  /** `greater` orders i and j strictly and totally: exactly one way when they differ, neither way when equal. */
  predicate StrictOn<T(==)>(greater: (T, T) -> bool, i: T, j: T)
  {
    (i == j ==> !greater(i, j)) && (i != j ==> (greater(i, j) <==> !greater(j, i)))
  }

  /**
   * For a strict total order, cmpValue is 0, 1 or -1 exactly for equal, greater
   * and less, and swapping its arguments negates it.
   */
  lemma CmpValueMeaning<T>(i: T, j: T, greater: (T, T) -> bool)
    requires StrictOn(greater, i, j)
    ensures CmpValue(i, j, greater) == 0 <==> i == j
    ensures CmpValue(i, j, greater) == 1 <==> greater(i, j)
    ensures CmpValue(i, j, greater) == -1 <==> greater(j, i)
    ensures CmpValue(i, j, greater) == -CmpValue(j, i, greater)
  {
  }

  /** `greater` is transitive on a, b, c. */
  predicate TransitiveAt<T>(greater: (T, T) -> bool, a: T, b: T, c: T)
  {
    greater(a, b) && greater(b, c) ==> greater(a, c)
  }

  /** cmpValue of a strict total order is transitive as a `<=` relation. */
  lemma CmpValueTransitive<T>(a: T, b: T, c: T, greater: (T, T) -> bool)
    requires StrictOn(greater, a, b) && StrictOn(greater, b, c) && StrictOn(greater, a, c)
    requires TransitiveAt(greater, c, b, a)
    requires CmpValue(a, b, greater) <= 0 && CmpValue(b, c, greater) <= 0
    ensures CmpValue(a, c, greater) <= 0
  {
  }

  /** Go's `>` on ints. */
  function IntGreater(a: int, b: int): bool
  {
    a > b
  }

  /** Go's `>` on float64, read as reals. */
  function RealGreater(a: real, b: real): bool
  {
    a > b
  }

  /** Go's `<` on strings: lexicographic by character (byte order of UTF-8 is code-point order). */
  function StrLess(a: string, b: string): bool
  {
    if a == [] then b != []
    else if b == [] then false
    else if a[0] != b[0] then a[0] < b[0]
    else StrLess(a[1..], b[1..])
  }

  /** Go's `>` on strings. */
  function StrGreater(a: string, b: string): bool
  {
    StrLess(b, a)
  }

  lemma {:induction false} StrLessStrict(a: string, b: string)
    ensures StrictOn(StrGreater, a, b)
  {
    if a != [] && b != [] && a[0] == b[0] {
      StrLessStrict(a[1..], b[1..]);
      assert a == [a[0]] + a[1..] && b == [b[0]] + b[1..];
    }
  }

  lemma {:induction false} StrLessTransitive(a: string, b: string, c: string)
    requires StrLess(a, b) && StrLess(b, c)
    ensures StrLess(a, c)
  {
    if a != [] && a[0] == b[0] && b[0] == c[0] {
      StrLessTransitive(a[1..], b[1..], c[1..]);
    }
  }

  /** Three-way comparison of strings is antisymmetric and transitive. */
  lemma StrCmpPreorder(a: string, b: string, c: string)
    ensures CmpValue(a, b, StrGreater) == -CmpValue(b, a, StrGreater)
    ensures CmpValue(a, b, StrGreater) <= 0 && CmpValue(b, c, StrGreater) <= 0 ==> CmpValue(a, c, StrGreater) <= 0
  {
    StrLessStrict(a, b);
    StrLessStrict(b, c);
    StrLessStrict(a, c);
    CmpValueMeaning(a, b, StrGreater);
    if StrGreater(c, b) && StrGreater(b, a) {
      StrLessTransitive(a, b, c);
    }
    if CmpValue(a, b, StrGreater) <= 0 && CmpValue(b, c, StrGreater) <= 0 {
      CmpValueTransitive(a, b, c, StrGreater);
    }
  }

  /** seqCmp applied to a and b: the first nonzero component result, or 0. */
  function SeqCmpAt<T>(cs: seq<(T, T) -> int>, a: T, b: T): (r: int)
    ensures r == 0 <==> forall k :: 0 <= k < |cs| ==> cs[k](a, b) == 0
    ensures r != 0 ==> exists k :: 0 <= k < |cs| && cs[k](a, b) == r && forall j :: 0 <= j < k ==> cs[j](a, b) == 0
  {
    if cs == [] then 0
    else if cs[0](a, b) != 0 then cs[0](a, b)
    else
      var r := SeqCmpAt(cs[1..], a, b);
      assert r != 0 ==> exists k :: 0 < k < |cs| && cs[k](a, b) == r && forall j :: 0 <= j < k ==> cs[j](a, b) == 0 by {
        if r != 0 {
          var k' :| 0 <= k' < |cs[1..]| && cs[1..][k'](a, b) == r && forall j :: 0 <= j < k' ==> cs[1..][j](a, b) == 0;
          assert cs[k' + 1](a, b) == r;
          forall j | 0 <= j < k' + 1 ensures cs[j](a, b) == 0 {
            if j > 0 { assert cs[j] == cs[1..][j - 1]; }
          }
        }
      }
      r
  }

  /** seqCmp: the lexicographic composition of comparators. */
  function SeqCmp<T>(cs: seq<(T, T) -> int>): (T, T) -> int
  {
    (a: T, b: T) => SeqCmpAt(cs, a, b)
  }

  /**
   * Earlier comparators take priority: when the first k components call a
   * and b equal and component k does not, seqCmp gives component k's result.
   */
  lemma {:induction false} SeqCmpPriority<T>(cs: seq<(T, T) -> int>, a: T, b: T, k: nat)
    requires k < |cs| && cs[k](a, b) != 0
    requires forall j :: 0 <= j < k ==> cs[j](a, b) == 0
    ensures SeqCmp(cs)(a, b) == cs[k](a, b)
  {
    if k > 0 {
      assert forall j :: 0 <= j < k - 1 ==> cs[1..][j] == cs[j + 1];
      SeqCmpPriority(cs[1..], a, b, k - 1);
    }
  }

  /** reverse: the comparator with every result negated. */
  function Reverse<T>(cmp: (T, T) -> int): (T, T) -> int
  {
    (a: T, b: T) => -cmp(a, b)
  }

  /** Reversing twice gives back the comparator's results. */
  lemma ReverseTwice<T>(cmp: (T, T) -> int, a: T, b: T)
    ensures Reverse(Reverse(cmp))(a, b) == cmp(a, b)
  {
  }

  /** With no comparators, seqCmp says every pair is equal. */
  lemma SeqCmpEmpty<T>(a: T, b: T)
    ensures SeqCmp<T>([])(a, b) == 0
  {
  }

  /** Swapping the arguments negates the result, for values in `dom`. */
  ghost predicate AntisymmetricOn<T(!new)>(cmp: (T, T) -> int, dom: set<T>)
  {
    forall a, b :: a in dom && b in dom ==> cmp(a, b) == -cmp(b, a)
  }

  /** "Not greater" is transitive, for values in `dom`. */
  ghost predicate TransitiveOn<T(!new)>(cmp: (T, T) -> int, dom: set<T>)
  {
    forall a, b, c :: a in dom && b in dom && c in dom && cmp(a, b) <= 0 && cmp(b, c) <= 0 ==> cmp(a, c) <= 0
  }

  /** The comparator orders `dom` as a total preorder. */
  ghost predicate PreorderOn<T(!new)>(cmp: (T, T) -> int, dom: set<T>)
  {
    AntisymmetricOn(cmp, dom) && TransitiveOn(cmp, dom)
  }

  /** If every component is antisymmetric, so is their seqCmp. */
  lemma {:induction false} SeqCmpAntisymmetric<T(!new)>(cs: seq<(T, T) -> int>, dom: set<T>)
    requires forall k :: 0 <= k < |cs| ==> AntisymmetricOn(cs[k], dom)
    ensures AntisymmetricOn(SeqCmp(cs), dom)
  {
    if cs != [] {
      SeqCmpAntisymmetric(cs[1..], dom);
      forall a, b | a in dom && b in dom ensures SeqCmp(cs)(a, b) == -SeqCmp(cs)(b, a) {
        assert AntisymmetricOn(cs[0], dom);
        assert SeqCmp(cs[1..])(a, b) == -SeqCmp(cs[1..])(b, a);
      }
    }
  }

  /** Reversing keeps antisymmetry. */
  lemma ReverseAntisymmetric<T(!new)>(cmp: (T, T) -> int, dom: set<T>)
    requires AntisymmetricOn(cmp, dom)
    ensures AntisymmetricOn(Reverse(cmp), dom)
  {
  }

  /**
   * For a total preorder, chaining two "not greater" steps gives "not
   * greater", and "equal" exactly when both steps are "equal".
   */
  lemma PreorderChain<T(!new)>(cmp: (T, T) -> int, dom: set<T>, a: T, b: T, c: T)
    requires PreorderOn(cmp, dom) && a in dom && b in dom && c in dom
    requires cmp(a, b) <= 0 && cmp(b, c) <= 0
    ensures cmp(a, c) <= 0
    ensures cmp(a, c) == 0 <==> cmp(a, b) == 0 && cmp(b, c) == 0
  {
    if cmp(a, c) == 0 {
      assert cmp(c, a) == 0;
      assert cmp(c, b) <= 0;
      assert cmp(b, a) <= 0;
    }
    if cmp(a, b) == 0 && cmp(b, c) == 0 {
      assert cmp(c, b) <= 0 && cmp(b, a) <= 0;
      assert cmp(c, a) <= 0;
    }
  }

  /** If every component is a total preorder on `dom`, so is their seqCmp. */
  lemma {:induction false} SeqCmpPreorder<T(!new)>(cs: seq<(T, T) -> int>, dom: set<T>)
    requires forall k :: 0 <= k < |cs| ==> PreorderOn(cs[k], dom)
    ensures PreorderOn(SeqCmp(cs), dom)
  {
    SeqCmpAntisymmetric(cs, dom);
    if cs != [] {
      SeqCmpPreorder(cs[1..], dom);
      var s, t, head := SeqCmp(cs), SeqCmp(cs[1..]), cs[0];
      assert PreorderOn(head, dom);
      forall a, b, c | a in dom && b in dom && c in dom && s(a, b) <= 0 && s(b, c) <= 0
        ensures s(a, c) <= 0
      {
        assert head(a, b) <= 0 && head(b, c) <= 0;
        PreorderChain(head, dom, a, b, c);
        if head(a, b) == 0 && head(b, c) == 0 {
          assert t(a, b) <= 0 && t(b, c) <= 0;
        }
      }
    }
  }

  /** Reversing a total preorder gives a total preorder. */
  lemma ReversePreorder<T(!new)>(cmp: (T, T) -> int, dom: set<T>)
    requires PreorderOn(cmp, dom)
    ensures PreorderOn(Reverse(cmp), dom)
  {
    var r := Reverse(cmp);
    forall a, b, c | a in dom && b in dom && c in dom && r(a, b) <= 0 && r(b, c) <= 0
      ensures r(a, c) <= 0
    {
      assert cmp(c, b) <= 0 && cmp(b, a) <= 0;
    }
  }
}
