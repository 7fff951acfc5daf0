/** Which openings of a list of lines are still open: bracket matching, without a stack. */
module Brackets {
  datatype Mark = Opens | Closes | Neither

  function Weight(m: Mark): int {
    match m
    case Opens => 1
    case Closes => -1
    case Neither => 0
  }

  /** Openings less closings among the lines behind `p` and before `q`. */
  function Excess(ms: seq<Mark>, p: nat, q: nat): int
    requires q <= |ms|
  {
    if q <= p + 1 then 0 else Excess(ms, p, q - 1) + Weight(ms[q - 1])
  }

  /** Line `p` opens, and before line `n` no closing is left over for it. */
  ghost predicate StillOpen(ms: seq<Mark>, p: nat, n: nat) {
    && p < n <= |ms| && ms[p].Opens?
    && forall q: nat :: p < q <= n ==> Excess(ms, p, q) >= 0
  }

  /** Line `p` is the last of those still open before line `n`. */
  ghost predicate Innermost(ms: seq<Mark>, p: nat, n: nat) {
    StillOpen(ms, p, n) && forall later: nat :: p < later < n ==> !StillOpen(ms, later, n)
  }

  /** Line `q` is the closing of line `p`; the end of the list closes what is left. */
  ghost predicate ClosedAt(ms: seq<Mark>, p: nat, q: nat) {
    StillOpen(ms, p, q) && (q == |ms| || !StillOpen(ms, p, q + 1))
  }

  // ---- as a stack ----

  /** `ps` are the lines still open before line `n`, in order. */
  ghost predicate IsStack(ms: seq<Mark>, n: nat, ps: seq<nat>) {
    && n <= |ms|
    && (forall i, j :: 0 <= i < j < |ps| ==> ps[i] < ps[j])
    && (forall k :: 0 <= k < |ps| ==> StillOpen(ms, ps[k], n) && Excess(ms, ps[k], n) == |ps| - 1 - k)
    && (forall p: nat :: StillOpen(ms, p, n) ==> p in ps)
  }

  function StackAfter(ps: seq<nat>, n: nat, m: Mark): seq<nat> {
    match m
    case Opens => ps + [n]
    case Closes => if ps == [] then ps else ps[..|ps| - 1]
    case Neither => ps
  }

  lemma EmptyStack(ms: seq<Mark>)
    ensures IsStack(ms, 0, [])
  {
  }

  lemma StillOpenStep(ms: seq<Mark>, p: nat, n: nat)
    requires n < |ms|
    ensures StillOpen(ms, n, n + 1) <==> ms[n].Opens?
    ensures Excess(ms, n, n + 1) == 0
    ensures p < n ==>
              && Excess(ms, p, n + 1) == Excess(ms, p, n) + Weight(ms[n])
              && (StillOpen(ms, p, n + 1) <==> StillOpen(ms, p, n) && Excess(ms, p, n + 1) >= 0)
  {
  }

  lemma OpensBefore(ms: seq<Mark>, p: nat, n: nat)
    requires StillOpen(ms, p, n)
    ensures p < n <= |ms| && ms[p].Opens?
  {
  }

  /** A line pushes itself, pops the innermost, or changes nothing. */
  lemma StackStep(ms: seq<Mark>, n: nat, ps: seq<nat>)
    requires IsStack(ms, n, ps) && n < |ms|
    ensures IsStack(ms, n + 1, StackAfter(ps, n, ms[n]))
  {
    hide Excess, StillOpen;
    var after := StackAfter(ps, n, ms[n]);
    forall k | 0 <= k < |ps|
      ensures ps[k] < n && Excess(ms, ps[k], n + 1) == |ps| - 1 - k + Weight(ms[n])
      ensures StillOpen(ms, ps[k], n + 1) <==> Excess(ms, ps[k], n + 1) >= 0
    {
      OpensBefore(ms, ps[k], n);
      StillOpenStep(ms, ps[k], n);
    }
    StillOpenStep(ms, n, n);
    forall p: nat | StillOpen(ms, p, n + 1)
      ensures p in after
    {
      OpensBefore(ms, p, n + 1);
      StillOpenStep(ms, p, n);
      if p < n {
        var k :| 0 <= k < |ps| && ps[k] == p;
        assert after[k] == p;
      } else {
        assert after[|ps|] == n;
      }
    }
  }

  /** The top of the stack is the innermost line, and the one that a closing closes. */
  lemma TopIsInnermost(ms: seq<Mark>, n: nat, ps: seq<nat>)
    requires IsStack(ms, n, ps)
    ensures forall p: nat :: Innermost(ms, p, n) <==> ps != [] && p == ps[|ps| - 1]
  {
    hide Excess, StillOpen;
    forall k | 0 <= k < |ps|
      ensures ps[k] < n
    {
      OpensBefore(ms, ps[k], n);
    }
    forall p: nat
      ensures Innermost(ms, p, n) <==> ps != [] && p == ps[|ps| - 1]
    {
      if StillOpen(ms, p, n) {
        var k :| 0 <= k < |ps| && ps[k] == p;
        if k < |ps| - 1 {
          assert StillOpen(ms, ps[|ps| - 1], n);
        }
      }
    }
  }

  /** A closing closes the top of the stack, and the end of the list all of it. */
  lemma TopIsClosed(ms: seq<Mark>, n: nat, ps: seq<nat>)
    requires IsStack(ms, n, ps)
    ensures n < |ms| ==> forall p: nat :: ClosedAt(ms, p, n) <==> ms[n].Closes? && ps != [] && p == ps[|ps| - 1]
    ensures n == |ms| ==> forall p: nat :: ClosedAt(ms, p, n) <==> p in ps
  {
    hide Excess, StillOpen;
    if n < |ms| {
      StackStep(ms, n, ps);
      StackLoses(ps, n, ms[n]);
      var after := StackAfter(ps, n, ms[n]);
      forall p: nat
        ensures StillOpen(ms, p, n) <==> p in ps
        ensures StillOpen(ms, p, n + 1) <==> p in after
      {
      }
    }
  }

  lemma StackLoses(ps: seq<nat>, n: nat, m: Mark)
    requires forall i, j :: 0 <= i < j < |ps| ==> ps[i] < ps[j]
    ensures forall p :: p in ps && p !in StackAfter(ps, n, m) <==> m.Closes? && ps != [] && p == ps[|ps| - 1]
  {
    if ps != [] {
      var init := ps[..|ps| - 1];
      assert ps == init + [ps[|ps| - 1]];
      assert forall k :: 0 <= k < |init| ==> init[k] != ps[|ps| - 1];
    }
  }
}
