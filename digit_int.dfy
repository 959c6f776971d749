/** `Int`: a non-negative integer stored as its decimal digits in a
    `LinkedList<int>`, the ones digit at the head. */
module DigitInts {
  import opened SeqSpec
  import opened LinkedLists

  /** The C++ `int` the constructor takes. */
  newtype int32 = x: int | -0x8000_0000 <= x < 0x8000_0000

  /** The decimal digits of `n`, least significant first, as the do-while
      loop produces them: always at least one digit, so `0` gives `[0]`. */
  function Digits(n: nat): seq<int>
    decreases n
  {
    [n % 10] + (if n / 10 == 0 then [] else Digits(n / 10))
  }

  /** The digits still to be pushed once the loop has reduced `n` to `m`. */
  function PendingDigits(m: nat): seq<int>
  {
    if m == 0 then [] else Digits(m)
  }

  /** The integer a digit sequence stands for, head digit worth 1. */
  function DigitsValue(ds: seq<int>): int
  {
    if ds == [] then 0 else ds[0] + 10 * DigitsValue(ds[1..])
  }

  function Pow10(k: nat): nat
  {
    if k == 0 then 1 else 10 * Pow10(k - 1)
  }

  /** A well-formed digit sequence: non-empty, every entry a decimal digit,
      and no leading zero at the most significant end unless it is `[0]`. */
  ghost predicate Canonical(ds: seq<int>)
  {
    |ds| >= 1 && (forall k :: 0 <= k < |ds| ==> 0 <= ds[k] <= 9) &&
    (|ds| > 1 ==> ds[|ds| - 1] != 0)
  }

  /** The digits of any `n` form a canonical digit sequence. */
  lemma {:induction false} DigitsCanonical(n: nat)
    ensures Canonical(Digits(n))
    ensures n > 0 ==> Digits(n)[|Digits(n)| - 1] != 0
  {
    var ds := Digits(n);
    if n / 10 != 0 {
      DigitsCanonical(n / 10);
      assert ds[|ds| - 1] == Digits(n / 10)[|Digits(n / 10)| - 1];
    } else {
      assert ds == [n];
    }
  }

  /** One turn of the digit loop: pushing `m % 10` to the front and dividing
      `m` by ten keeps "reversed list followed by pending digits" fixed. */
  lemma PushDigit(list: seq<int>, m: nat)
    requires m > 0
    ensures Reversed([m % 10] + list) + PendingDigits(m / 10) == Reversed(list) + PendingDigits(m)
  {
    var d, rest := m % 10, PendingDigits(m / 10);
    assert Digits(m) == [d] + rest by {
      if m / 10 == 0 {
        assert rest == [];
      } else {
        assert rest == Digits(m / 10);
      }
    }
    assert PendingDigits(m) == Digits(m);
    ReversedConsThen(d, list, rest);
  }

  /** One turn of the `value()` loop: the part still to be added shrinks by
      the head digit, and the weight of the rest grows tenfold. */
  lemma AddDigit(acc: int, exp: int, ds: seq<int>)
    requires ds != []
    ensures acc + exp * DigitsValue(ds) == (acc + exp * ds[0]) + (exp * 10) * DigitsValue(ds[1..])
  {
    var rest := DigitsValue(ds[1..]);
    calc {
      exp * DigitsValue(ds);
      exp * (ds[0] + 10 * rest);
      exp * ds[0] + exp * (10 * rest);
      { assert exp * (10 * rest) == (exp * 10) * rest; }
      exp * ds[0] + (exp * 10) * rest;
    }
  }

  /** Reading the digits of `n` back gives `n`. */
  lemma {:induction false} DigitsRoundTrip(n: nat)
    ensures DigitsValue(Digits(n)) == n
  {
    var ds := Digits(n);
    assert ds[1..] == PendingDigits(n / 10);
    if n / 10 != 0 {
      DigitsRoundTrip(n / 10);
    }
  }

  /** A canonical sequence whose top digit is not zero stands for a positive number. */
  lemma {:induction false} CanonicalValuePositive(ds: seq<int>)
    requires Canonical(ds) && ds[|ds| - 1] != 0
    ensures DigitsValue(ds) > 0
  {
    if |ds| > 1 {
      assert ds[1..][|ds| - 2] == ds[|ds| - 1];
      CanonicalValuePositive(ds[1..]);
    }
  }

  /** The other direction: every canonical digit sequence is the digit
      sequence of the number it stands for. */
  lemma {:induction false} CanonicalRoundTrip(ds: seq<int>)
    requires Canonical(ds)
    ensures DigitsValue(ds) >= 0 && Digits(DigitsValue(ds)) == ds
  {
    if |ds| == 1 {
      assert DigitsValue(ds) == ds[0];
    } else {
      var rest := ds[1..];
      assert rest[|rest| - 1] == ds[|ds| - 1];
      CanonicalRoundTrip(rest);
      CanonicalValuePositive(rest);
      var m := DigitsValue(rest);
      var n := ds[0] + 10 * m;
      assert n % 10 == ds[0] && n / 10 == m;
      assert ds == [ds[0]] + rest;
    }
  }

  class Int {
    var num: LinkedList<int>

    /** The digit list is a valid list holding a canonical digit sequence. */
    ghost predicate Valid()
      reads this, num, num.nodes
    {
      num.Valid() && Canonical(num.contents)
    }

    /** The digit loop of `Int(int n)` once `n` is known not to be negative:
        push `n % 10` to the front until `n` is used up (at least once),
        then reverse, which leaves the ones digit at the head. */
    constructor (n: nat)
      ensures Valid() && fresh(num)
      ensures num.contents == Digits(n)
    {
      num := new LinkedList<int>();
      new;
      var m := n;
      num.AddFront(m % 10);
      m := m / 10;
      assert Reversed(num.contents) == [n % 10];
      while m > 0
        invariant num.Valid() && fresh(num) && fresh(num.nodes)
        invariant Reversed(num.contents) + PendingDigits(m) == Digits(n)
        decreases m
      {
        PushDigit(num.contents, m);
        num.AddFront(m % 10);
        m := m / 10;
      }
      assert Reversed(num.contents) == Digits(n);
      num.Reverse();
      DigitsCanonical(n);
    }

    /** `Int(int n)`: the range error for a negative `n`, otherwise an
        `Int` whose digit list holds the digits of `n`. */
    static method FromInt(n: int32) returns (r: Result<Int>)
      ensures r.Err? <==> n < 0
      ensures r.Err? ==> r.error == NegativeNumber
      ensures r.Ok? ==> fresh(r.value) && r.value.Valid() &&
                        r.value.num.contents == Digits(n as nat)
    {
      if n < 0 {
        return Err(NegativeNumber);
      }
      var x := new Int(n as nat);
      return Ok(x);
    }

    /** `value()`: walks the digit list from the head, adding each digit
        times the current power of ten. */
    method Value() returns (v: int)
      requires Valid()
      ensures v == DigitsValue(num.contents)
    {
      ghost var N, C := num.nodes, num.contents;
      var exp := 1;
      var acc := 0;
      var ptr := num.head;
      ghost var i := 0;
      while ptr != null
        invariant 0 <= i <= |N|
        invariant ptr == (if i < |N| then N[i] else null)
        invariant exp == Pow10(i)
        invariant acc + exp * DigitsValue(C[i..]) == DigitsValue(C)
        decreases |N| - i
      {
        assert C[i..][1..] == C[i + 1..];
        AddDigit(acc, exp, C[i..]);
        acc := acc + exp * ptr.value;
        exp := exp * 10;
        ptr := ptr.next;
        i := i + 1;
      }
      assert C[i..] == [];
      v := acc;
    }

    /** Constructing an `Int` from `n` and reading it back with `value()`
        gives `n`, and a negative `n` is refused. */
    static method ValueRoundTrip(n: int32) returns (r: Result<int>)
      ensures r.Err? <==> n < 0
      ensures r.Ok? ==> r.value == n as int
    {
      var x := FromInt(n);
      if x.Err? {
        return Err(x.error);
      }
      var v := x.value.Value();
      DigitsRoundTrip(n as nat);
      return Ok(v);
    }
  }
}
