/** The accept/reject loop of the random-number generator, over a supplied
    sequence of draws and an acceptance test. Kept apart from the NHS rule
    so that its properties hold for any test. */
module Collecting {

  predicate Distinct(s: seq<int>) {
    forall i, j :: 0 <= i < j < |s| ==> s[i] != s[j]
  }

  /** `a` is `b` with some elements left out, order kept. */
  predicate IsSubsequence(a: seq<int>, b: seq<int>)
    decreases |b|
  {
    a == [] || (b != [] && (IsSubsequence(a, b[1..]) || (a[0] == b[0] && IsSubsequence(a[1..], b[1..]))))
  }

  /** The accepted draws, in order. */
  function Filter(accept: int -> bool, draws: seq<int>): (r: seq<int>)
    ensures |r| <= |draws|
    ensures forall k :: 0 <= k < |r| ==> accept(r[k])
  {
    if draws == [] then []
    else if accept(draws[0]) then [draws[0]] + Filter(accept, draws[1..])
    else Filter(accept, draws[1..])
  }

  /** The filter keeps draw order and keeps every accepted draw. */
  lemma {:induction false} FilterKeepsAccepted(accept: int -> bool, draws: seq<int>)
    ensures IsSubsequence(Filter(accept, draws), draws)
    ensures forall k :: 0 <= k < |draws| && accept(draws[k]) ==> draws[k] in Filter(accept, draws)
  {
    if draws != [] {
      FilterKeepsAccepted(accept, draws[1..]);
      var r := Filter(accept, draws);
      if accept(draws[0]) {
        assert r[0] == draws[0] && r[1..] == Filter(accept, draws[1..]);
      }
      forall k | 0 <= k < |draws| && accept(draws[k])
        ensures draws[k] in r
      {
        if k > 0 {
          assert draws[1..][k - 1] == draws[k];
        }
      }
    }
  }

  /** The first occurrence of each value of `s` that is not in `seen`, in
      order. */
  function FirstNew(s: seq<int>, seen: seq<int>): (r: seq<int>)
    ensures |r| <= |s|
    ensures forall k :: 0 <= k < |r| ==> r[k] !in seen
    decreases |s|
  {
    if s == [] then []
    else if s[0] in seen then FirstNew(s[1..], seen)
    else [s[0]] + FirstNew(s[1..], seen + [s[0]])
  }

  /** The first `n` elements (all of them if there are fewer). */
  function Take(s: seq<int>, n: int): (r: seq<int>)
    ensures |r| == if n <= 0 then 0 else if n >= |s| then |s| else n
    ensures forall k :: 0 <= k < |r| ==> r[k] == s[k]
  {
    if n <= 0 then [] else if n >= |s| then s else s[..n]
  }

  /** The `while` loop of `getRandomNumbers`: keeps drawing while fewer than
      `count` numbers are held, skips a draw that fails the test or, when
      `unique`, is already held, and otherwise appends it. Here the loop
      also stops when the supplied draws run out. */
  function Collect(accept: int -> bool, draws: seq<int>, count: int, unique: bool, acc: seq<int>): (r: seq<int>)
    ensures |acc| <= |r| <= |acc| + |draws|
    decreases |draws|
  {
    if |acc| >= count || draws == [] then acc
    else if !accept(draws[0]) || (unique && draws[0] in acc) then Collect(accept, draws[1..], count, unique, acc)
    else Collect(accept, draws[1..], count, unique, acc + [draws[0]])
  }

  /** The result extends the numbers already held with some of the draws,
      in draw order. */
  lemma {:induction false} CollectExtends(accept: int -> bool, draws: seq<int>, count: int, unique: bool, acc: seq<int>)
    ensures |acc| <= |Collect(accept, draws, count, unique, acc)|
    ensures Collect(accept, draws, count, unique, acc)[..|acc|] == acc
    ensures IsSubsequence(Collect(accept, draws, count, unique, acc)[|acc|..], draws)
  {
    var r := Collect(accept, draws, count, unique, acc);
    if |acc| >= count || draws == [] {
      assert r[|acc|..] == [];
    } else if !accept(draws[0]) || (unique && draws[0] in acc) {
      CollectExtends(accept, draws[1..], count, unique, acc);
    } else {
      var acc' := acc + [draws[0]];
      CollectExtends(accept, draws[1..], count, unique, acc');
      assert r[..|acc'|][..|acc|] == acc;
      assert r[|acc|..][0] == draws[0];
      assert r[|acc|..][1..] == r[|acc'|..];
    }
  }

  /** Every number held passes the test. */
  lemma {:induction false} CollectAccepted(accept: int -> bool, draws: seq<int>, count: int, unique: bool, acc: seq<int>)
    requires forall k :: 0 <= k < |acc| ==> accept(acc[k])
    ensures forall k :: 0 <= k < |Collect(accept, draws, count, unique, acc)| ==>
      accept(Collect(accept, draws, count, unique, acc)[k])
  {
    if |acc| >= count || draws == [] {
    } else if !accept(draws[0]) || (unique && draws[0] in acc) {
      CollectAccepted(accept, draws[1..], count, unique, acc);
    } else {
      var acc' := acc + [draws[0]];
      assert forall k :: 0 <= k < |acc'| ==> accept(acc'[k]);
      CollectAccepted(accept, draws[1..], count, unique, acc');
    }
  }

  /** With `unique`, no number is held twice. */
  lemma {:induction false} CollectDistinct(accept: int -> bool, draws: seq<int>, count: int, acc: seq<int>)
    requires Distinct(acc)
    ensures Distinct(Collect(accept, draws, count, true, acc))
  {
    if |acc| >= count || draws == [] {
    } else if !accept(draws[0]) || draws[0] in acc {
      CollectDistinct(accept, draws[1..], count, acc);
    } else {
      var acc' := acc + [draws[0]];
      assert forall i :: 0 <= i < |acc| ==> acc'[i] == acc[i];
      CollectDistinct(accept, draws[1..], count, acc');
    }
  }

  /** Never more than `count` numbers are held. */
  lemma {:induction false} CollectBound(accept: int -> bool, draws: seq<int>, count: int, unique: bool, acc: seq<int>)
    requires |acc| <= count
    ensures |Collect(accept, draws, count, unique, acc)| <= count
  {
    if |acc| >= count || draws == [] {
    } else if !accept(draws[0]) || (unique && draws[0] in acc) {
      CollectBound(accept, draws[1..], count, unique, acc);
    } else {
      CollectBound(accept, draws[1..], count, unique, acc + [draws[0]]);
    }
  }

  /** Stopping short of `count` happens only when the draws ran out and
      every accepted draw is held. */
  lemma {:induction false} CollectExhaustive(accept: int -> bool, draws: seq<int>, count: int, unique: bool, acc: seq<int>)
    ensures |Collect(accept, draws, count, unique, acc)| < count ==>
      forall k :: 0 <= k < |draws| && accept(draws[k]) ==> draws[k] in Collect(accept, draws, count, unique, acc)
  {
    var r := Collect(accept, draws, count, unique, acc);
    if |acc| >= count || draws == [] {
    } else {
      var acc' := if !accept(draws[0]) || (unique && draws[0] in acc) then acc else acc + [draws[0]];
      assert r == Collect(accept, draws[1..], count, unique, acc');
      CollectExhaustive(accept, draws[1..], count, unique, acc');
      CollectExtends(accept, draws[1..], count, unique, acc');
      if |r| < count {
        forall k | 0 <= k < |draws| && accept(draws[k])
          ensures draws[k] in r
        {
          if k == 0 {
            assert draws[0] in acc';
            assert draws[0] in r[..|acc'|];
          } else {
            assert draws[1..][k - 1] == draws[k];
          }
        }
      }
    }
  }

  lemma TakeCons(x: int, s: seq<int>, n: int)
    requires n >= 1
    ensures Take([x] + s, n) == [x] + Take(s, n - 1)
  {
  }

  /** Without `unique` the loop keeps the first `count` accepted draws. */
  lemma {:induction false} CollectNonUnique(accept: int -> bool, draws: seq<int>, count: int, acc: seq<int>)
    ensures Collect(accept, draws, count, false, acc) == acc + Take(Filter(accept, draws), count - |acc|)
  {
    if |acc| >= count || draws == [] {
    } else if !accept(draws[0]) {
      CollectNonUnique(accept, draws[1..], count, acc);
    } else {
      CollectNonUnique(accept, draws[1..], count, acc + [draws[0]]);
      TakeCons(draws[0], Filter(accept, draws[1..]), count - |acc|);
    }
  }

  /** With `unique` the loop keeps the first `count` accepted draws that
      are new: not held already and not accepted earlier. */
  lemma {:induction false} CollectUnique(accept: int -> bool, draws: seq<int>, count: int, acc: seq<int>)
    ensures Collect(accept, draws, count, true, acc) == acc + Take(FirstNew(Filter(accept, draws), acc), count - |acc|)
  {
    if |acc| >= count || draws == [] {
    } else if !accept(draws[0]) {
      CollectUnique(accept, draws[1..], count, acc);
    } else {
      var f := Filter(accept, draws[1..]);
      assert Filter(accept, draws) == [draws[0]] + f;
      assert ([draws[0]] + f)[1..] == f;
      if draws[0] in acc {
        CollectUnique(accept, draws[1..], count, acc);
      } else {
        var acc' := acc + [draws[0]];
        CollectUnique(accept, draws[1..], count, acc');
        TakeCons(draws[0], FirstNew(f, acc'), count - |acc|);
      }
    }
  }

  /** Asking for one number yields the first accepted draw, if any. */
  lemma {:induction false} CollectOne(accept: int -> bool, draws: seq<int>, unique: bool)
    ensures Collect(accept, draws, 1, unique, []) == Take(Filter(accept, draws), 1)
  {
    if draws != [] {
      if !accept(draws[0]) {
        CollectOne(accept, draws[1..], unique);
      } else {
        assert Collect(accept, draws, 1, unique, []) == Collect(accept, draws[1..], 1, unique, [draws[0]]);
      }
    }
  }

  /** The loop started with nothing held: accepted draws, distinct when
      `unique`, at most `count` of them, in draw order, every accepted draw
      when it stops short, without `unique` the first `count` accepted
      draws, and with `unique` the first `count` distinct accepted draws. */
  lemma CollectFromEmpty(accept: int -> bool, draws: seq<int>, count: int, unique: bool)
    ensures var r := Collect(accept, draws, count, unique, []);
      (forall k :: 0 <= k < |r| ==> accept(r[k])) &&
      (unique ==> Distinct(r)) &&
      |r| <= (if count < 0 then 0 else count) &&
      (|r| < count ==> forall k :: 0 <= k < |draws| && accept(draws[k]) ==> draws[k] in r) &&
      IsSubsequence(r, draws) &&
      (!unique ==> r == Take(Filter(accept, draws), count)) &&
      (unique ==> r == Take(FirstNew(Filter(accept, draws), []), count))
  {
    var r := Collect(accept, draws, count, unique, []);
    CollectExtends(accept, draws, count, unique, []);
    assert r[0..] == r;
    CollectAccepted(accept, draws, count, unique, []);
    if unique {
      CollectDistinct(accept, draws, count, []);
    }
    if count >= 0 {
      CollectBound(accept, draws, count, unique, []);
    }
    CollectExhaustive(accept, draws, count, unique, []);
    if !unique {
      CollectNonUnique(accept, draws, count, []);
    } else {
      CollectUnique(accept, draws, count, []);
    }
  }
}
