/** Task rosters. The kernel keeps every roster as an intrusive circular
    list whose head is the oldest member: queue_append links a new member in
    just before the head (the tail), and queue_remove unlinks one member and
    leaves the others in order. Here a roster is a sequence, head first. */
module Rosters {

  import opened KernelState

  predicate NoDup(s: seq<TaskRef>)
  {
    forall i, j | 0 <= i < j < |s| :: s[i] != s[j]
  }

  /** queue_remove: unlink the first occurrence of `x`; every other member
      keeps its place in the order. */
  function Remove(s: seq<TaskRef>, x: TaskRef): (r: seq<TaskRef>)
    ensures x in s ==> |r| == |s| - 1
    ensures x !in s ==> r == s
    ensures forall y | y in r :: y in s
    ensures forall y | y in s && y != x :: y in r
    ensures NoDup(s) ==> x !in r
  {
    if s == [] then []
    else if s[0] == x then
      HeadNotInTail(s);
      s[1..]
    else
      [s[0]] + Remove(s[1..], x)
  }

  /** In a roster without duplicates the head does not recur further on. */
  lemma HeadNotInTail(s: seq<TaskRef>)
    requires |s| > 0
    ensures NoDup(s) ==> s[0] !in s[1..] && NoDup(s[1..])
  {
    if NoDup(s) {
      forall k | 0 <= k < |s| - 1
        ensures s[1..][k] != s[0]
      {
        assert s[1..][k] == s[k + 1];
      }
    }
  }

  /** The members of `s` that are in `keep`, in roster order. */
  function Select(s: seq<TaskRef>, keep: set<TaskRef>): (r: seq<TaskRef>)
    ensures forall y :: y in r <==> y in s && y in keep
    ensures |r| <= |s|
  {
    if s == [] then []
    else if s[0] in keep then [s[0]] + Select(s[1..], keep)
    else Select(s[1..], keep)
  }

  /** The members of `s` that are not in `drop`, in roster order. */
  function Exclude(s: seq<TaskRef>, drop: set<TaskRef>): (r: seq<TaskRef>)
    ensures forall y :: y in r <==> y in s && y !in drop
    ensures |r| <= |s|
  {
    if s == [] then []
    else if s[0] in drop then Exclude(s[1..], drop)
    else [s[0]] + Exclude(s[1..], drop)
  }

  lemma {:induction false} RemoveKeepsNoDup(s: seq<TaskRef>, x: TaskRef)
    requires NoDup(s)
    ensures NoDup(Remove(s, x))
  {
    if s != [] {
      HeadNotInTail(s);
      RemoveKeepsNoDup(s[1..], x);
      if s[0] != x {
        HeadNotInTail(s);
      }
    }
  }

  /** Removing a member that sits between two parts splices those parts together. */
  lemma {:induction false} RemoveSplit(a: seq<TaskRef>, x: TaskRef, b: seq<TaskRef>)
    requires x !in a && x !in b
    ensures Remove(a + [x] + b, x) == a + b
  {
    if a == [] {
      assert a + [x] + b == [x] + b;
      assert ([x] + b)[1..] == b;
    } else {
      assert (a + [x] + b)[0] == a[0];
      assert (a + [x] + b)[1..] == a[1..] + [x] + b;
      RemoveSplit(a[1..], x, b);
      assert a + b == [a[0]] + (a[1..] + b);
    }
  }

  lemma {:induction false} SelectKeepsNoDup(s: seq<TaskRef>, keep: set<TaskRef>)
    requires NoDup(s)
    ensures NoDup(Select(s, keep))
  {
    if s != [] {
      HeadNotInTail(s);
      SelectKeepsNoDup(s[1..], keep);
      if s[0] in keep {
        HeadNotInTail(s);
      }
    }
  }

  lemma {:induction false} ExcludeKeepsNoDup(s: seq<TaskRef>, drop: set<TaskRef>)
    requires NoDup(s)
    ensures NoDup(Exclude(s, drop))
  {
    if s != [] {
      HeadNotInTail(s);
      ExcludeKeepsNoDup(s[1..], drop);
      if s[0] !in drop {
        HeadNotInTail(s);
      }
    }
  }

  /** Filtering only looks at the members of the roster. */
  lemma {:induction false} FiltersAgree(s: seq<TaskRef>, a: set<TaskRef>, b: set<TaskRef>)
    requires forall y | y in s :: (y in a <==> y in b)
    ensures Select(s, a) == Select(s, b)
    ensures Exclude(s, a) == Exclude(s, b)
  {
    if s != [] {
      FiltersAgree(s[1..], a, b);
    }
  }

  /** Appending distinct new members keeps a roster free of repeats. */
  lemma AppendKeepsNoDup(a: seq<TaskRef>, b: seq<TaskRef>)
    requires NoDup(a) && NoDup(b) && forall x | x in a :: x !in b
    ensures NoDup(a + b)
  {
    forall i, j | 0 <= i < j < |a + b| ensures (a + b)[i] != (a + b)[j] {
      if j >= |a| && i < |a| {
        assert (a + b)[j] in b;
      } else if i >= |a| {
        assert (a + b)[i] == b[i - |a|] && (a + b)[j] == b[j - |a|];
      }
    }
  }
}
