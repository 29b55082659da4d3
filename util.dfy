/**
 * Model of msra::util::bytereverse, byteswap and attempt (basetypes.h).
 * A value's object representation is an array of bytes; bytereverse reverses
 * it in place, byteswap does so for every element of a vector. attempt runs a
 * restartable body until it succeeds or the retry budget is used up.
 */
module Util {

  type Byte = bv8

  /** s backwards. */
  function Reversed<X>(s: seq<X>): (r: seq<X>)
    ensures |r| == |s|
  {
    if s == [] then [] else Reversed(s[1..]) + [s[0]]
  }

  lemma {:induction false} ReversedAt<X>(s: seq<X>, k: nat)
    requires k < |s|
    ensures Reversed(s)[k] == s[|s| - 1 - k]
    decreases |s|
  {
    if k < |s| - 1 {
      ReversedAt(s[1..], k);
    }
  }

  /** Reversing twice gives back the original bytes. */
  lemma ReversedTwice<X>(s: seq<X>)
    ensures Reversed(Reversed(s)) == s
  {
    var r := Reversed(s);
    forall k | 0 <= k < |s| ensures Reversed(r)[k] == s[k] {
      ReversedAt(r, k);
      ReversedAt(s, |s| - 1 - k);
    }
  }

  lemma {:induction false} ReversedSnoc<X>(s: seq<X>, x: X)
    ensures Reversed(s + [x]) == [x] + Reversed(s)
    decreases |s|
  {
    if s == [] {
      assert [] + [x] == [x];
      assert [x][1..] == [];
    } else {
      assert (s + [x])[1..] == s[1..] + [x];
      ReversedSnoc(s[1..], x);
    }
  }

  /** bytereverse(v): swaps byte k with byte size-1-k for k < size/2. */
  method ByteReverse(v: array<Byte>)
    modifies v
    ensures v[..] == Reversed(old(v[..]))
  {
    var elemsize := v.Length;
    for k := 0 to elemsize / 2
      invariant forall i :: 0 <= i < k ==> v[i] == old(v[elemsize - 1 - i]) && v[elemsize - 1 - i] == old(v[i])
      invariant forall i :: k <= i < elemsize - k ==> v[i] == old(v[i])
    {
      v[k], v[elemsize - 1 - k] := v[elemsize - 1 - k], v[k];
    }
    ghost var was := old(v[..]);
    forall i | 0 <= i < elemsize ensures v[..][i] == Reversed(was)[i] {
      ReversedAt(was, i);
    }
  }

  /** The elements of vs are separate objects, as the elements of a vector are in memory. */
  ghost predicate Disjoint(vs: seq<array<Byte>>)
  {
    forall i, j :: 0 <= i < j < |vs| ==> vs[i] != vs[j]
  }

  /**
   * byteswap(v): bytereverse every element of v. The element objects stay
   * where they are; only their bytes change.
   */
  method ByteSwap(vs: seq<array<Byte>>)
    requires Disjoint(vs)
    modifies set i | 0 <= i < |vs| :: vs[i]
    ensures forall i :: 0 <= i < |vs| ==> vs[i][..] == Reversed(old(vs[i][..]))
  {
    for i := 0 to |vs|
      invariant forall k :: 0 <= k < i ==> vs[k][..] == Reversed(old(vs[k][..]))
      invariant forall k :: i <= k < |vs| ==> vs[k][..] == old(vs[k][..])
    {
      ByteReverse(vs[i]);
    }
  }

  // ---------------------------------------------------------------------------
  // attempt(retries, body)
  // ---------------------------------------------------------------------------

  /** What one run of the body does: return, throw a std::exception, or throw something else. */
  datatype BodyResult<E> = Returned | StdException(error: E) | OtherException(error: E)

  /** The most calls attempt makes: retries, but at least one. */
  function MaxCalls(retries: int): nat
  {
    if retries < 1 then 1 else retries
  }

  /**
   * attempt: calls body (the k-th call returning body(k)) until it returns,
   * giving up after MaxCalls(retries) calls. Returns how many calls were made
   * and how the last one ended: Returned, or the exception that escapes.
   */
  method Attempt<E>(retries: int, body: nat -> BodyResult<E>) returns (calls: nat, last: BodyResult<E>)
    ensures 1 <= calls <= MaxCalls(retries)
    ensures forall k :: 1 <= k < calls ==> body(k).StdException?
    ensures last == body(calls)
    ensures last.Returned? || last.OtherException? || calls == MaxCalls(retries)
  {
    var attempt := 1;
    while true
      invariant 1 <= attempt <= MaxCalls(retries)
      invariant forall k :: 1 <= k < attempt ==> body(k).StdException?
      decreases MaxCalls(retries) - attempt
    {
      var outcome := body(attempt);
      if !outcome.StdException? {
        // returned (break), or an exception that the catch clause does not take
        return attempt, outcome;
      }
      if attempt >= retries {
        return attempt, outcome;   // failed retries times: rethrow
      }
      attempt := attempt + 1;
    }
  }
}
