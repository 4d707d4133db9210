/**
 * The abstract meaning of the linked-list operations: each operation of the
 * mutable list is specified as a function on the sequence of values (or of
 * nodes) that the chain spells out from head to tail.
 */
module ListSpec {

  datatype Option<T> = None | Some(value: T)

  /** `s` with `x` spliced in so that it lands at index `k`. */
  function Splice<A>(s: seq<A>, k: nat, x: A): (r: seq<A>)
    requires k <= |s|
    ensures |r| == |s| + 1 && r[k] == x
    ensures forall i :: 0 <= i < k ==> r[i] == s[i]
    ensures forall i :: k < i < |r| ==> r[i] == s[i - 1]
  {
    s[..k] + [x] + s[k..]
  }

  /**
   * Reference definition of "delete the first occurrence": walk from the
   * front, drop the first element equal to `x`, keep everything else.
   */
  function RemoveFirst<A(==)>(s: seq<A>, x: A): seq<A>
  {
    if s == [] then []
    else if s[0] == x then s[1..]
    else [s[0]] + RemoveFirst(s[1..], x)
  }

  /**
   * The index of the first element equal to `x`, or |s| when there is none.
   */
  function IndexOf<A(==)>(s: seq<A>, x: A): (k: nat)
    ensures k <= |s|
    ensures k < |s| <==> x in s
    ensures k < |s| ==> s[k] == x
    ensures x !in s[..k]
  {
    if s == [] then 0
    else if s[0] == x then 0
    else 1 + IndexOf(s[1..], x)
  }

  /** `s` without its element at index k. */
  function Without<A>(s: seq<A>, k: nat): (r: seq<A>)
    requires k < |s|
    ensures |r| == |s| - 1
    ensures forall i :: 0 <= i < k ==> r[i] == s[i]
    ensures forall i :: k <= i < |r| ==> r[i] == s[i + 1]
  {
    s[..k] + s[k + 1..]
  }

  /** Removing a later element keeps the first one in front. */
  lemma WithoutFirst<A>(s: seq<A>, k: nat)
    requires 0 < k < |s|
    ensures Without(s, k) == [s[0]] + Without(s[1..], k - 1)
  {
    assert s[..k] == [s[0]] + s[1..][..k - 1];
    assert s[k + 1..] == s[1..][k..];
  }

  /** k is the index of the first element of `s` equal to `x`. */
  predicate IsFirst<A(==)>(s: seq<A>, x: A, k: nat)
  {
    k < |s| && s[k] == x && forall j :: 0 <= j < k ==> s[j] != x
  }

  /** The first index holding `x` is the one IndexOf finds. */
  lemma IndexOfFirst<A>(s: seq<A>, x: A, k: nat)
    requires IsFirst(s, x, k)
    ensures IndexOf(s, x) == k
  {
  }

  /** Absent value: nothing is removed. */
  lemma {:induction false} RemoveFirstAbsent<A>(s: seq<A>, x: A)
    requires x !in s
    ensures RemoveFirst(s, x) == s
  {
    if s != [] {
      assert s[0] != x;
      assert x !in s[1..];
      RemoveFirstAbsent(s[1..], x);
    }
  }

  /** When `k` is the index of the first `x`, exactly `s[k]` is removed. */
  lemma {:induction false} RemoveFirstAt<A>(s: seq<A>, x: A, k: nat)
    requires IsFirst(s, x, k)
    ensures RemoveFirst(s, x) == Without(s, k)
  {
    if k == 0 {
      assert Without(s, 0) == s[1..];
    } else {
      assert IsFirst(s[1..], x, k - 1);
      RemoveFirstAt(s[1..], x, k - 1);
      WithoutFirst(s, k);
    }
  }

  /** Delete-first as removal at the first matching index. */
  lemma RemoveFirstIndex<A>(s: seq<A>, x: A)
    ensures RemoveFirst(s, x) == if IndexOf(s, x) < |s| then Without(s, IndexOf(s, x)) else s
  {
    var k := IndexOf(s, x);
    if k < |s| {
      assert IsFirst(s, x, k) by {
        forall j | 0 <= j < k ensures s[j] != x {
          assert s[j] == s[..k][j];
        }
      }
      RemoveFirstAt(s, x, k);
    } else {
      RemoveFirstAbsent(s, x);
    }
  }

  /** A present value: exactly one occurrence goes, nothing else does. */
  lemma {:induction false} RemoveFirstPresent<A>(s: seq<A>, x: A)
    requires x in s
    ensures |RemoveFirst(s, x)| == |s| - 1
    ensures multiset(RemoveFirst(s, x)) == multiset(s) - multiset{x}
  {
    if s[0] != x {
      assert s == [s[0]] + s[1..];
      RemoveFirstPresent(s[1..], x);
    } else {
      assert s == [s[0]] + s[1..];
    }
  }

  /**
   * The index a new element gets from the positional insert of the full
   * list classes. A position p >= 0 is a 0-based index (0 is the head); a
   * negative position makes the walk `range(p - 1)` empty, so the element
   * goes right after the head, at index 1.
   */
  function Slot(p: int): nat
  {
    if p < 0 then 1 else p
  }

  /**
   * Positional insert of the full list classes: the walk to the node before
   * the slot must not run off the end, so the insert is accepted exactly when
   * the slot is at most |s|; otherwise it is rejected (None).
   */
  function InsertAt<A>(s: seq<A>, p: int, x: A): Option<seq<A>>
  {
    if Slot(p) <= |s| then Some(Splice(s, Slot(p), x)) else None
  }

  /** Accepted exactly for 0 <= p <= |s|, or a negative p on a non-empty list. */
  lemma InsertAtAccepted<A>(s: seq<A>, p: int, x: A)
    ensures InsertAt(s, p, x).Some? <==> (0 <= p <= |s| || (p < 0 && s != []))
    ensures p > |s| ==> InsertAt(s, p, x) == None
    ensures s == [] && p != 0 ==> InsertAt(s, p, x) == None
  {
  }

  /** An accepted position p in 1..|s| puts x at index p, shifting the tail back. */
  lemma InsertAtMiddle<A>(s: seq<A>, p: int, x: A)
    requires 1 <= p <= |s|
    ensures InsertAt(s, p, x) == Some(s[..p] + [x] + s[p..])
  {
  }

  /** Inserting at position 0 is prepending. */
  lemma InsertAtFront<A>(s: seq<A>, x: A)
    ensures InsertAt(s, 0, x) == Some([x] + s)
  {
    assert s[..0] == [] && s[0..] == s;
    assert Splice(s, 0, x) == [x] + s;
  }

  /** Inserting at position |s| is appending. */
  lemma InsertAtEnd<A>(s: seq<A>, x: A)
    ensures InsertAt(s, |s|, x) == Some(s + [x])
  {
    if s != [] {
      assert s[..|s|] == s && s[|s|..] == [];
      assert Splice(s, |s|, x) == s + [x];
      assert InsertAt(s, |s|, x) == Some(Splice(s, |s|, x));
    } else {
      assert Splice(s, 0, x) == s + [x];
    }
  }

  /** Reference definition of reversal: the last element comes first. */
  function Reversed<A>(s: seq<A>): seq<A>
  {
    if s == [] then [] else [s[|s| - 1]] + Reversed(s[..|s| - 1])
  }

  /** Element k of the reversal is element |s|-1-k of the original. */
  lemma {:induction false} ReverseAt<A>(s: seq<A>, k: nat)
    requires k < |s|
    ensures |Reversed(s)| == |s|
    ensures Reversed(s)[k] == s[|s| - 1 - k]
  {
    ReverseLength(s);
    if k > 0 {
      ReverseAt(s[..|s| - 1], k - 1);
    }
  }

  lemma {:induction false} ReverseLength<A>(s: seq<A>)
    ensures |Reversed(s)| == |s|
  {
    if s != [] {
      ReverseLength(s[..|s| - 1]);
    }
  }

  /** A sequence equals the reversal of `s` exactly when it lists `s` backwards. */
  lemma ReverseCharacterised<A>(s: seq<A>, r: seq<A>)
    requires |r| == |s|
    requires forall k :: 0 <= k < |s| ==> r[k] == s[|s| - 1 - k]
    ensures r == Reversed(s)
  {
    ReverseLength(s);
    forall k | 0 <= k < |s|
      ensures r[k] == Reversed(s)[k]
    {
      ReverseAt(s, k);
    }
  }

  /** Reversing twice restores the original order. */
  lemma ReverseInvolution<A>(s: seq<A>)
    ensures Reversed(Reversed(s)) == s
  {
    ReverseLength(s);
    ReverseLength(Reversed(s));
    forall k | 0 <= k < |s|
      ensures Reversed(Reversed(s))[k] == s[k]
    {
      ReverseAt(Reversed(s), k);
      ReverseAt(s, |s| - 1 - k);
    }
  }

  /** Reversal keeps every element, with its multiplicity. */
  lemma {:induction false} ReverseMultiset<A>(s: seq<A>)
    ensures multiset(Reversed(s)) == multiset(s)
  {
    if s != [] {
      ReverseMultiset(s[..|s| - 1]);
      assert s == s[..|s| - 1] + [s[|s| - 1]];
    }
  }
}
