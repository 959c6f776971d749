/** Value-level meaning of the list operations: the sequence a list holds
    after `reverse` and after `deleteKey`, with the facts the list proofs use. */
module SeqSpec {

  /** The elements of `s` in the opposite order. */
  function Reversed<T>(s: seq<T>): (r: seq<T>)
    ensures |r| == |s|
  {
    if s == [] then [] else Reversed(s[1..]) + [s[0]]
  }

  /** Position `k` of the reversal holds position `|s| - 1 - k` of the input. */
  lemma {:induction false} ReversedAt<T>(s: seq<T>, k: nat)
    requires k < |s|
    ensures Reversed(s)[k] == s[|s| - 1 - k]
  {
    if k < |s| - 1 {
      ReversedAt(s[1..], k);
    }
  }

  /** Reversal moves elements but neither adds nor drops any. */
  lemma {:induction false} ReversedElements<T>(s: seq<T>)
    ensures multiset(Reversed(s)) == multiset(s)
  {
    if s != [] {
      ReversedElements(s[1..]);
      assert s == [s[0]] + s[1..];
    }
  }

  /** Reversing `[x] + s` puts `x` last. */
  lemma ReversedCons<T>(x: T, s: seq<T>)
    ensures Reversed([x] + s) == Reversed(s) + [x]
  {
    assert ([x] + s)[1..] == s;
  }

  /** Moving `x` from the front of the reversed part to the front of what follows it. */
  lemma ReversedConsThen<T>(x: T, s: seq<T>, t: seq<T>)
    ensures Reversed([x] + s) + t == Reversed(s) + ([x] + t)
  {
    ReversedCons(x, s);
    assert (Reversed(s) + [x]) + t == Reversed(s) + ([x] + t);
  }

  /** Reversing twice gives back the original order. */
  lemma {:induction false} ReversedTwice<T>(s: seq<T>)
    ensures Reversed(Reversed(s)) == s
  {
    forall k | 0 <= k < |s|
      ensures Reversed(Reversed(s))[k] == s[k]
    {
      ReversedAt(Reversed(s), k);
      ReversedAt(s, |s| - 1 - k);
    }
  }

  /** Sequences of length 0 or 1 are their own reversal. */
  lemma ReversedShort<T>(s: seq<T>)
    requires |s| <= 1
    ensures Reversed(s) == s
  {
    if s != [] {
      assert Reversed(s) == Reversed(s[1..]) + [s[0]];
      assert s[1..] == [];
    }
  }

  /** The position of the first occurrence of `x` in `s`. */
  function FirstIndex<T(==)>(s: seq<T>, x: T): (i: nat)
    requires x in s
    ensures i < |s| && s[i] == x && x !in s[..i]
  {
    if s[0] == x then 0 else FirstIndex(s[1..], x) + 1
  }

  /** The first occurrence is the only position holding `x` with no `x` before it. */
  lemma {:induction false} FirstIndexAt<T>(s: seq<T>, x: T, i: nat)
    requires i < |s| && s[i] == x && x !in s[..i]
    ensures x in s && FirstIndex(s, x) == i
  {
    if i > 0 {
      assert s[0] in s[..i];
      assert s[1..][..i - 1] == s[1..i];
      FirstIndexAt(s[1..], x, i - 1);
    }
  }

  /** `s` with its first occurrence of `x` removed; `s` itself when `x` does not occur. */
  function RemoveFirst<T(==)>(s: seq<T>, x: T): seq<T>
  {
    if s == [] then []
    else if s[0] == x then s[1..]
    else [s[0]] + RemoveFirst(s[1..], x)
  }

  /** Removing an absent element changes nothing. */
  lemma {:induction false} RemoveFirstAbsent<T>(s: seq<T>, x: T)
    requires x !in s
    ensures RemoveFirst(s, x) == s
  {
    if s != [] {
      RemoveFirstAbsent(s[1..], x);
    }
  }

  /** Removing a present element cuts out exactly its first occurrence:
      what precedes it and what follows it keep their order. */
  lemma {:induction false} RemoveFirstAt<T>(s: seq<T>, x: T, i: nat)
    requires i < |s| && s[i] == x && x !in s[..i]
    ensures RemoveFirst(s, x) == s[..i] + s[i + 1..]
  {
    if i > 0 {
      assert s[1..][..i - 1] == s[1..i];
      RemoveFirstAt(s[1..], x, i - 1);
      assert s[1..][i..] == s[i + 1..];
    }
  }

  /** Removal takes away one copy of `x` when there is one, and nothing else. */
  lemma {:induction false} RemoveFirstElements<T>(s: seq<T>, x: T)
    ensures multiset(RemoveFirst(s, x)) == multiset(s) - multiset{x}
    ensures |RemoveFirst(s, x)| == if x in s then |s| - 1 else |s|
  {
    if s != [] {
      assert s == [s[0]] + s[1..];
      if s[0] != x {
        RemoveFirstElements(s[1..], x);
        assert x in s <==> x in s[1..];
      }
    }
  }
}
