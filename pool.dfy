/**
 * The sliding-window freshness tracker of export_ip_pool.
 *
 * A pool remembers every value ever put into it (`data`) and keeps, for the
 * last `capacity` puts, one freshness bit each (`ch`, a bounded FIFO): 1 when
 * the put introduced a new value, 0 when the value was already known. `fresh`
 * (here `freshSum`, since `fresh` is a Dafny keyword) is the running sum of the
 * bits in the window.
 */
module Pool {

  /** Sum of a sequence of freshness bits. */
  function Sum(bits: seq<int>): int
  {
    if bits == [] then 0 else bits[0] + Sum(bits[1..])
  }

  /** Every element is a freshness bit. */
  predicate IsBits(s: seq<int>)
  {
    forall i :: 0 <= i < |s| ==> s[i] == 0 || s[i] == 1
  }

  /** freshCount: the bit recorded for one put. */
  function FreshCount(isNew: bool): int
  {
    if isNew then 1 else 0
  }

  /** The bit a put of `v` records when `seen` holds the values put before. */
  function FreshBit(seen: set<string>, v: string): int
  {
    FreshCount(v !in seen)
  }

  /**
   * The window after one put recording bit `c`: with capacity 0 no window is
   * kept; a full window first drops its oldest bit.
   */
  function Slide(window: seq<int>, capacity: nat, c: int): seq<int>
  {
    if capacity == 0 then window
    else if |window| == capacity then window[1..] + [c]
    else window + [c]
  }

  /** The freshness rate of a window: 1 for an empty window, else the fraction of 1-bits. */
  function Rate(window: seq<int>): real
  {
    if |window| > 0 then Sum(window) as real / |window| as real else 1.0
  }

  lemma {:induction false} SumAppend(s: seq<int>, c: int)
    ensures Sum(s + [c]) == Sum(s) + c
  {
    if s != [] {
      assert (s + [c])[1..] == s[1..] + [c];
      SumAppend(s[1..], c);
    }
  }

  lemma {:induction false} SumBounds(s: seq<int>)
    requires IsBits(s)
    ensures 0 <= Sum(s) <= |s|
  {
    if s != [] {
      SumBounds(s[1..]);
    }
  }

  /** The freshness rate always lies between 0 and 1. */
  lemma RateInUnit(window: seq<int>)
    requires IsBits(window)
    ensures 0.0 <= Rate(window) <= 1.0
  {
    SumBounds(window);
    if |window| > 0 {
      var n := |window| as real;
      assert Sum(window) as real <= n;
      assert Sum(window) as real / n <= n / n;
    }
  }

  /**
   * One put keeps the window bounded by the capacity; when capacity is
   * positive the new bit is last, a full window loses exactly its oldest bit,
   * and the sum moves by the new bit minus the evicted one.
   */
  lemma SlideKeepsWindow(window: seq<int>, capacity: nat, c: int)
    requires IsBits(window) && |window| <= capacity && (c == 0 || c == 1)
    ensures IsBits(Slide(window, capacity, c))
    ensures |Slide(window, capacity, c)| <= capacity
    ensures capacity > 0 ==> Slide(window, capacity, c)[|Slide(window, capacity, c)| - 1] == c
    ensures capacity > 0 && |window| < capacity ==> |Slide(window, capacity, c)| == |window| + 1
    ensures capacity > 0 && |window| == capacity ==> |Slide(window, capacity, c)| == capacity
    ensures Sum(Slide(window, capacity, c)) ==
      Sum(window)
      - (if capacity > 0 && |window| == capacity then window[0] else 0)
      + (if capacity > 0 then c else 0)
  {
    if capacity > 0 {
      if |window| == capacity {
        SumAppend(window[1..], c);
      } else {
        SumAppend(window, c);
      }
    }
  }

  class Pool {
    var data: set<string>
    var ch: seq<int>
    const capacity: nat
    var freshSum: int

    /** `fresh` is the sum of the bits held, which never exceed the capacity. */
    ghost predicate Valid()
      reads this
    {
      IsBits(ch) && |ch| <= capacity && freshSum == Sum(ch)
    }

    /** NewPool */
    constructor (capacity: nat)
      ensures Valid()
      ensures this.capacity == capacity && data == {} && ch == [] && freshSum == 0
    {
      this.capacity := capacity;
      data := {};
      ch := [];
      freshSum := 0;
    }

    /**
     * Put records one observation and returns the freshness rate after it;
     * with capacity 0 it returns the freshness bit itself.
     */
    method Put(val: string) returns (r: real)
      requires Valid()
      modifies this
      ensures Valid()
      ensures data == old(data) + {val}
      ensures ch == Slide(old(ch), capacity, FreshBit(old(data), val))
      ensures r == if capacity == 0 then FreshBit(old(data), val) as real else Rate(ch)
      ensures 0 <= freshSum <= |ch| <= capacity
    {
      var isFresh := val !in data;
      data := data + {val};
      var c := FreshCount(isFresh);
      SlideKeepsWindow(ch, capacity, c);
      if capacity == 0 {
        SumBounds(ch);
        return c as real;
      }
      if |ch| == capacity {
        var outFresh := ch[0];
        ch := ch[1..];
        freshSum := freshSum - outFresh;
      }
      SumAppend(ch, c);
      ch := ch + [c];
      freshSum := freshSum + c;
      SumBounds(ch);
      var n;
      r, n := FreshRate();
    }

    /** The rate of the current window, computed from the running sum, and the window length. */
    method FreshRate() returns (rate: real, n: nat)
      requires Valid()
      ensures n == |ch| <= capacity
      ensures rate == Rate(ch)
      ensures 0.0 <= rate <= 1.0
    {
      RateInUnit(ch);
      if |ch| > 0 {
        return freshSum as real / |ch| as real, |ch|;
      }
      return 1.0, |ch|;
    }

    /** GetAll lists every distinct value ever put, each exactly once. */
    method GetAll() returns (arr: seq<string>)
      ensures (set x | x in arr) == data
      ensures forall i, j :: 0 <= i < j < |arr| ==> arr[i] != arr[j]
    {
      arr := [];
      var rest := data;
      while rest != {}
        invariant rest <= data
        invariant (set x | x in arr) == data - rest
        invariant forall i :: 0 <= i < |arr| ==> arr[i] !in rest
        invariant forall i, j :: 0 <= i < j < |arr| ==> arr[i] != arr[j]
        decreases rest
      {
        var key :| key in rest;
        assert (set x | x in arr + [key]) == (set x | x in arr) + {key};
        arr := arr + [key];
        rest := rest - {key};
      }
    }
  }

  lemma TraceSums()
    ensures Sum([1, 0]) == 1 && Sum([1, 0, 0]) == 1 && Sum([1, 0, 0, 0]) == 1
    ensures Sum([1, 0, 0, 0, 0]) == 1 && Sum([0, 0, 0, 0, 0]) == 0
  {
    assert [0, 0, 0, 0, 0][1..] == [0, 0, 0, 0] && [0, 0, 0, 0][1..] == [0, 0, 0];
    assert [0, 0, 0][1..] == [0, 0] && [0, 0][1..] == [0];
    assert [1, 0, 0, 0, 0][1..] == [0, 0, 0, 0] && [1, 0, 0, 0][1..] == [0, 0, 0];
    assert [1, 0, 0][1..] == [0, 0] && [1, 0][1..] == [0];
  }

  /** The rates of the windows in the unit test's trace. */
  lemma TraceRates()
    ensures Rate([1]) == 1.0 && Rate([1, 0]) == 1.0 / 2.0 && Rate([1, 0, 0]) == 1.0 / 3.0
    ensures Rate([1, 0, 0, 0]) == 1.0 / 4.0 && Rate([1, 0, 0, 0, 0]) == 1.0 / 5.0
    ensures Rate([0, 0, 0, 0, 0]) == 0.0
  {
    TraceSums();
    assert [1][1..] == [];
  }

  /**
   * The unit test's trace: five puts of the same value into a pool of
   * capacity 5 return 1, 1/2, 1/3, 1/4, 1/5; the window then holds 5 bits and
   * a sixth put returns 0.
   */
  method RepeatedPutTrace() returns (rates: seq<real>, total: nat, last: real)
    ensures rates == [1.0, 1.0 / 2.0, 1.0 / 3.0, 1.0 / 4.0, 1.0 / 5.0]
    ensures total == 5
    ensures last == 0.0
  {
    TraceRates();
    var p := new Pool(5);
    var r1 := p.Put("a");
    assert p.ch == [1] && p.data == {"a"};
    var r2 := p.Put("a");
    assert p.ch == [1, 0] && p.data == {"a"};
    var r3 := p.Put("a");
    assert p.ch == [1, 0, 0] && p.data == {"a"};
    var r4 := p.Put("a");
    assert p.ch == [1, 0, 0, 0] && p.data == {"a"};
    var r5 := p.Put("a");
    assert p.ch == [1, 0, 0, 0, 0] && p.data == {"a"};
    rates := [r1, r2, r3, r4, r5];
    var r;
    r, total := p.FreshRate();
    last := p.Put("a");
    assert p.ch == [0, 0, 0, 0, 0];
  }
}
