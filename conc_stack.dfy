/**
 * Model of conc_stack<T> (basetypes.h), a pool of reusable objects: a stack
 * guarded by a mutex. Only the sequential behaviour is modelled; the top of
 * the stack is the last element of the sequence (std::stack over std::deque
 * pushes to and pops from the back).
 */
module ConcStacks {
  import opened Wrappers
  import Util

  class ConcStack<T> {
    var stack: seq<T>   // m_stack

    /** conc_stack(): an empty pool. */
    constructor ()
      ensures stack == []
    {
      stack := [];
    }

    /**
     * pop_or_create(factory): on an empty pool, returns factory() and leaves
     * the pool empty; otherwise removes and returns the top item.
     */
    method PopOrCreate(factory: () -> T) returns (res: T)
      modifies this
      ensures old(stack) == [] ==> res == factory() && stack == []
      ensures old(stack) != [] ==> res == old(stack)[|old(stack)| - 1] && stack == old(stack)[..|old(stack)| - 1]
      ensures Apply(old(stack), PopOrCreateOp(factory())) == Step(stack, Some(res), old(stack) == [])
    {
      if |stack| == 0 {
        return factory();
      }
      res := stack[|stack| - 1];
      stack := stack[..|stack| - 1];
    }

    /** push(item): item goes on top; nothing else changes. */
    method Push(item: T)
      modifies this
      ensures stack == old(stack) + [item]
      ensures Apply(old(stack), PushOp(item)) == Step(stack, None, false)
    {
      stack := stack + [item];
    }
  }

  // ---------------------------------------------------------------------------
  // Histories of calls on one pool
  // ---------------------------------------------------------------------------

  /** A call on the pool; for pop_or_create, the value the factory would make. */
  datatype Op<T> = PushOp(item: T) | PopOrCreateOp(made: T)

  /** The pool after one call, what the call returned, and whether the factory ran. */
  datatype Step<T> = Step(pool: seq<T>, returned: Option<T>, created: bool)

  /** The sequential meaning of one call. */
  function Apply<T>(pool: seq<T>, op: Op<T>): (r: Step<T>)
    ensures r.returned.None? <==> op.PushOp?
    ensures r.created ==> op.PopOrCreateOp? && pool == [] && r.returned == Some(op.made)
  {
    match op
    case PushOp(x) => Step(pool + [x], None, false)
    case PopOrCreateOp(made) =>
      if pool == [] then Step([], Some(made), true)
      else Step(pool[..|pool| - 1], Some(pool[|pool| - 1]), false)
  }

  /** The outcome of a whole history: final pool, values returned, values the factory made. */
  datatype Trace<T> = Trace(pool: seq<T>, returned: seq<T>, created: seq<T>)

  function Run<T>(pool: seq<T>, ops: seq<Op<T>>): (r: Trace<T>)
    ensures |r.created| <= |r.returned|
    decreases |ops|
  {
    if ops == [] then Trace(pool, [], [])
    else
      var s := Apply(pool, ops[0]);
      var t := Run(s.pool, ops[1..]);
      Trace(t.pool,
            (if s.returned.Some? then [s.returned.value] else []) + t.returned,
            (if s.created then [ops[0].made] else []) + t.created)
  }

  /** The items the history pushes, in order. */
  function Pushed<T>(ops: seq<Op<T>>): seq<T>
    decreases |ops|
  {
    if ops == [] then [] else (if ops[0].PushOp? then [ops[0].item] else []) + Pushed(ops[1..])
  }

  /** Number of pop_or_create calls in the history. */
  function Pops<T>(ops: seq<Op<T>>): nat
    decreases |ops|
  {
    if ops == [] then 0 else (if ops[0].PopOrCreateOp? then 1 else 0) + Pops(ops[1..])
  }

  /** Push then pop_or_create hands back the same item and restores the pool. */
  lemma PushThenPop<T>(pool: seq<T>, x: T, made: T)
    ensures Run(pool, [PushOp(x), PopOrCreateOp(made)]) == Trace(pool, [x], [])
  {
    var ops := [PushOp(x), PopOrCreateOp(made)];
    assert ops[1..] == [PopOrCreateOp(made)];
    assert ops[1..][1..] == [];
    assert Apply(pool, PushOp(x)) == Step(pool + [x], None, false);
    assert (pool + [x])[..|pool|] == pool;
    assert Apply(pool + [x], PopOrCreateOp(made)) == Step(pool, Some(x), false);
    assert Run(pool + [x], ops[1..]) == Trace(pool, [x], []);
  }

  /** On an empty pool pop_or_create returns the factory's value and the pool stays empty. */
  lemma PopEmpty<T>(made: T)
    ensures Run([], [PopOrCreateOp(made)]) == Trace([], [made], [made])
  {
    assert [PopOrCreateOp(made)][1..] == [];
  }

  /**
   * No item is lost or duplicated: what was in the pool, plus what was pushed,
   * plus what the factory made, is what is in the pool now plus what was handed out.
   */
  lemma {:induction false} Conservation<T>(pool: seq<T>, ops: seq<Op<T>>)
    ensures var t := Run(pool, ops);
      multiset(pool) + multiset(Pushed(ops)) + multiset(t.created)
        == multiset(t.pool) + multiset(t.returned)
    decreases |ops|
  {
    if ops != [] {
      var s := Apply(pool, ops[0]);
      var t := Run(s.pool, ops[1..]);
      Conservation(s.pool, ops[1..]);
      var ret := if s.returned.Some? then [s.returned.value] else [];
      var made := if s.created then [ops[0].made] else [];
      var pushed := if ops[0].PushOp? then [ops[0].item] else [];
      assert Run(pool, ops) == Trace(t.pool, ret + t.returned, made + t.created);
      assert Pushed(ops) == pushed + Pushed(ops[1..]);
      ConservationStep(pool, ops[0], s, pushed, made, ret);
      Rebalance(multiset(pool), multiset(pushed), multiset(made), multiset(s.pool), multiset(ret),
                multiset(Pushed(ops[1..])), multiset(t.created), multiset(t.pool), multiset(t.returned));
    }
  }

  lemma Rebalance<T>(pool: multiset<T>, pushed: multiset<T>, made: multiset<T>, mid: multiset<T>, ret: multiset<T>,
                     pushed': multiset<T>, made': multiset<T>, final: multiset<T>, ret': multiset<T>)
    requires pool + pushed + made == mid + ret
    requires mid + pushed' + made' == final + ret'
    ensures pool + (pushed + pushed') + (made + made') == final + (ret + ret')
  {
    calc {
      pool + (pushed + pushed') + (made + made');
    ==
      (pool + pushed + made) + pushed' + made';
    ==
      ret + (mid + pushed' + made');
    ==
      final + (ret + ret');
    }
  }

  /** One call keeps the balance: pool + pushed + made == new pool + returned. */
  lemma ConservationStep<T>(pool: seq<T>, op: Op<T>, s: Step<T>, pushed: seq<T>, made: seq<T>, ret: seq<T>)
    requires s == Apply(pool, op)
    requires pushed == (if op.PushOp? then [op.item] else [])
    requires made == (if s.created then [op.made] else [])
    requires ret == (if s.returned.Some? then [s.returned.value] else [])
    ensures multiset(pool) + multiset(pushed) + multiset(made) == multiset(s.pool) + multiset(ret)
  {
    if op.PopOrCreateOp? && pool != [] {
      assert pool == s.pool + [s.returned.value];
    }
  }

  /** Every value the factory made along a history was handed out to a caller. */
  lemma {:induction false} RunCreatedHandedOut<T>(pool: seq<T>, ops: seq<Op<T>>)
    ensures multiset(Run(pool, ops).created) <= multiset(Run(pool, ops).returned)
    decreases |ops|
  {
    if ops != [] {
      RunCreatedHandedOut(Apply(pool, ops[0]).pool, ops[1..]);
    }
  }

  /** Every pop_or_create returns exactly one value: handed out = pops. */
  lemma {:induction false} EachPopReturnsOne<T>(pool: seq<T>, ops: seq<Op<T>>)
    ensures |Run(pool, ops).returned| == Pops(ops)
    ensures |Run(pool, ops).created| <= Pops(ops)
    decreases |ops|
  {
    if ops != [] {
      EachPopReturnsOne(Apply(pool, ops[0]).pool, ops[1..]);
    }
  }

  /** Every call of the history is a pop_or_create. */
  predicate OnlyPops<T>(ops: seq<Op<T>>)
    decreases |ops|
  {
    ops == [] || (ops[0].PopOrCreateOp? && OnlyPops(ops[1..]))
  }

  /** The factory runs only when the pool is empty, so a pool holding k items serves k pops without it, top first. */
  lemma PopsServedFromPool<T>(pool: seq<T>, ops: seq<Op<T>>)
    requires OnlyPops(ops)
    requires |ops| <= |pool|
    ensures Run(pool, ops).created == []
    ensures Run(pool, ops).returned == Util.Reversed(pool[|pool| - |ops|..])
    ensures Run(pool, ops).pool == pool[..|pool| - |ops|]
  {
    PopsLeaveBottom(pool, ops);
    PopsReturnTop(pool, ops);
  }

  /** k pops from a pool of at least k items never call the factory and leave the bottom of the pool. */
  lemma {:induction false} PopsLeaveBottom<T>(pool: seq<T>, ops: seq<Op<T>>)
    requires OnlyPops(ops)
    requires |ops| <= |pool|
    ensures Run(pool, ops).created == []
    ensures Run(pool, ops).pool == pool[..|pool| - |ops|]
    decreases |ops|
  {
    var n, k := |pool|, |ops|;
    if ops == [] {
      assert pool[..n] == pool;
    } else {
      PopFromPool(pool, ops);
      PopsLeaveBottom(pool[..n - 1], ops[1..]);
      assert pool[..n - 1][..n - 1 - (k - 1)] == pool[..n - k];
    }
  }

  /** k pops from a pool of at least k items return its top k items, last pushed first. */
  lemma {:induction false} PopsReturnTop<T>(pool: seq<T>, ops: seq<Op<T>>)
    requires OnlyPops(ops)
    requires |ops| <= |pool|
    ensures Run(pool, ops).returned == Util.Reversed(pool[|pool| - |ops|..])
    decreases |ops|
  {
    var n, k := |pool|, |ops|;
    if ops == [] {
      assert pool[n..] == [];
    } else {
      var t := Run(pool[..n - 1], ops[1..]);
      PopFromPool(pool, ops);
      PopsReturnTop(pool[..n - 1], ops[1..]);
      PopSlices(pool, k, t.returned);
    }
  }

  /** A history starting with pop_or_create on a non-empty pool hands out the top first. */
  lemma PopFromPool<T>(pool: seq<T>, ops: seq<Op<T>>)
    requires ops != [] && ops[0].PopOrCreateOp? && pool != []
    ensures var t := Run(pool[..|pool| - 1], ops[1..]);
      Run(pool, ops) == Trace(t.pool, [pool[|pool| - 1]] + t.returned, t.created)
  {
    assert Apply(pool, ops[0]) == Step(pool[..|pool| - 1], Some(pool[|pool| - 1]), false);
  }

  /** One more pop: the top item goes in front of the items popped from the rest. */
  lemma PopSlices<T>(pool: seq<T>, k: nat, popped: seq<T>)
    requires 0 < k <= |pool|
    requires popped == Util.Reversed(pool[..|pool| - 1][|pool| - 1 - (k - 1)..])
    ensures [pool[|pool| - 1]] + popped == Util.Reversed(pool[|pool| - k..])
  {
    var n := |pool|;
    var mid := pool[n - k..n - 1];
    assert pool[..n - 1][n - 1 - (k - 1)..] == mid;
    assert pool[n - k..] == mid + [pool[n - 1]];
    Util.ReversedSnoc(mid, pool[n - 1]);
  }
}
