/** The list difference the generated migration computes twice, once for
    columns and once for indices: Java's `List.remove(Object)` drops the
    first equal element, and the generated loop walks the target names,
    removing from both lists every name it finds in the live list. */
module SeqDiff {

  /** `b` can be obtained from `a` by deleting elements: `a` appears in `b`
      in the same order. */
  ghost predicate Subseq<T>(a: seq<T>, b: seq<T>)
    decreases |b|
  {
    |a| == 0 || (|b| > 0 && ((a[0] == b[0] && Subseq(a[1..], b[1..])) || Subseq(a, b[1..])))
  }

  lemma {:induction false} SubseqRefl<T>(a: seq<T>)
    ensures Subseq(a, a)
    decreases |a|
  {
    if |a| > 0 {
      SubseqRefl(a[1..]);
    }
  }

  lemma {:induction false} SubseqTrans<T>(a: seq<T>, b: seq<T>, c: seq<T>)
    requires Subseq(a, b) && Subseq(b, c)
    ensures Subseq(a, c)
    decreases |c|
  {
    if |a| > 0 {
      if b[0] == c[0] && Subseq(b[1..], c[1..]) {
        if a[0] == b[0] && Subseq(a[1..], b[1..]) {
          SubseqTrans(a[1..], b[1..], c[1..]);
        } else {
          SubseqTrans(a, b[1..], c[1..]);
        }
      } else {
        SubseqTrans(a, b, c[1..]);
      }
    }
  }

  /** `List.remove(Object)`: the list without its first element equal to
      `x`; the list unchanged when there is none. */
  function RemoveFirst<T(==)>(xs: seq<T>, x: T): (r: seq<T>)
    ensures x !in xs ==> r == xs
    ensures x in xs ==> |r| == |xs| - 1
    ensures multiset(r) == multiset(xs) - multiset{x}
    ensures Subseq(r, xs)
    ensures x in xs ==> r == xs[..Position(xs, x)] + xs[Position(xs, x) + 1..]
  {
    if |xs| == 0 then xs
    else if xs[0] == x then
      RemoveHead(xs);
      xs[1..]
    else
      var rest := RemoveFirst(xs[1..], x);
      RemoveAfterHead(xs, x, rest);
      [xs[0]] + rest
  }

  /** Removing the head. */
  lemma RemoveHead<T>(xs: seq<T>)
    requires |xs| > 0
    ensures var x, r := xs[0], xs[1..];
      && x in xs && |r| == |xs| - 1
      && multiset(r) == multiset(xs) - multiset{x}
      && Subseq(r, xs)
      && r == xs[..Position(xs, x)] + xs[Position(xs, x) + 1..]
  {
    assert xs == [xs[0]] + xs[1..];
    SubseqDropFront(xs);
    RemoveHeadAt(xs);
  }

  /** Removing `x` behind a different head, given the removal from the
      tail. */
  lemma RemoveAfterHead<T>(xs: seq<T>, x: T, rest: seq<T>)
    requires |xs| > 0 && xs[0] != x
    requires x !in xs[1..] ==> rest == xs[1..]
    requires x in xs[1..] ==> |rest| == |xs[1..]| - 1
    requires multiset(rest) == multiset(xs[1..]) - multiset{x}
    requires Subseq(rest, xs[1..])
    requires x in xs[1..] ==> rest == xs[1..][..Position(xs[1..], x)] + xs[1..][Position(xs[1..], x) + 1..]
    ensures var r := [xs[0]] + rest;
      && (x !in xs ==> r == xs)
      && (x in xs ==> |r| == |xs| - 1)
      && multiset(r) == multiset(xs) - multiset{x}
      && Subseq(r, xs)
      && (x in xs ==> r == xs[..Position(xs, x)] + xs[Position(xs, x) + 1..])
  {
    assert xs == [xs[0]] + xs[1..];
    var r := [xs[0]] + rest;
    assert r[0] == xs[0] && r[1..] == rest;
    assert Subseq(r, xs);
    RemoveFirstStep(xs[0], xs[1..], x, rest);
    RemoveFirstAt(xs, x, rest);
  }

  /** Removing `x` after a different head: the head stays, and the cut
      moves one place right. */
  lemma RemoveFirstAt<T>(xs: seq<T>, x: T, rest: seq<T>)
    requires |xs| > 0 && xs[0] != x
    requires x in xs[1..] ==> rest == xs[1..][..Position(xs[1..], x)] + xs[1..][Position(xs[1..], x) + 1..]
    ensures x in xs ==> [xs[0]] + rest == xs[..Position(xs, x)] + xs[Position(xs, x) + 1..]
  {
    if x in xs {
      PositionAfterHead(xs, x);
      SliceAfterHead(xs, Position(xs[1..], x));
    }
  }

  lemma RemoveHeadAt<T>(xs: seq<T>)
    requires |xs| > 0
    ensures Position(xs, xs[0]) == 0 && xs[..0] + xs[1..] == xs[1..]
  {
  }

  lemma PositionAfterHead<T>(xs: seq<T>, x: T)
    requires |xs| > 0 && xs[0] != x && x in xs
    ensures x in xs[1..] && Position(xs, x) == 1 + Position(xs[1..], x)
  {
    assert xs == [xs[0]] + xs[1..];
  }

  lemma SliceAfterHead<T>(xs: seq<T>, p: nat)
    requires p < |xs| - 1
    ensures [xs[0]] + (xs[1..][..p] + xs[1..][p + 1..]) == xs[..1 + p] + xs[1 + p + 1..]
  {
    var t := xs[1..];
    assert xs[..1 + p] == [xs[0]] + t[..p];
    assert xs[1 + p + 1..] == t[p + 1..];
  }

  lemma RemoveFirstStep<T>(h: T, t: seq<T>, x: T, rest: seq<T>)
    requires h != x && multiset(rest) == multiset(t) - multiset{x}
    ensures multiset([h] + rest) == multiset([h] + t) - multiset{x}
  {
    assert multiset([h] + rest) == multiset{h} + multiset(rest);
    assert multiset([h] + t) == multiset{h} + multiset(t);
    forall y ensures multiset([h] + rest)[y] == (multiset([h] + t) - multiset{x})[y] {
      if y == x {
        assert multiset{h}[y] == 0;
      }
    }
  }

  lemma SubseqDropFront<T>(xs: seq<T>)
    requires |xs| > 0
    ensures Subseq(xs[1..], xs)
  {
    SubseqRefl(xs[1..]);
  }

  /** The generated diff loop. The first component is the target names not
      matched by a live name ("missing", in target order); the second is
      the live names left over ("stale", in live order). */
  function Diff<T(==)>(target: seq<T>, live: seq<T>): (r: (seq<T>, seq<T>))
    ensures multiset(r.0) == multiset(target) - multiset(live)
    ensures multiset(r.1) == multiset(live) - multiset(target)
    ensures Subseq(r.0, target)
    ensures Subseq(r.1, live)
    decreases |target|
  {
    if |target| == 0 then
      SubseqRefl(live);
      ([], live)
    else
      var t := target[0];
      assert target == [t] + target[1..];
      if t in live then
        var live' := RemoveFirst(live, t);
        var (m, s) := Diff(target[1..], live');
        DiffStepFound(t, target[1..], live, live', m, s);
        SubseqTrans(s, live', live);
        (m, s)
      else
        var (m, s) := Diff(target[1..], live);
        DiffStepMissing(t, target[1..], live, m, s);
        assert ([t] + m)[1..] == m;
        ([t] + m, s)
  }

  /** One step of the diff on multiplicities: a target name found live is
      removed from both sides. */
  lemma MultisetStepFound<T>(t: T, rest: multiset<T>, live: multiset<T>, live': multiset<T>,
                             m: multiset<T>, s: multiset<T>)
    requires live[t] > 0 && live' == live - multiset{t}
    requires m == rest - live' && s == live' - rest
    ensures m == (multiset{t} + rest) - live
    ensures s == live - (multiset{t} + rest)
  {
    forall x ensures m[x] == ((multiset{t} + rest) - live)[x] && s[x] == (live - (multiset{t} + rest))[x] {
      if x == t {
        assert live'[x] == live[x] - 1;
      } else {
        assert live'[x] == live[x];
      }
    }
  }

  /** One step of the diff on multiplicities: a target name not live is
      missing. */
  lemma MultisetStepMissing<T>(t: T, rest: multiset<T>, live: multiset<T>, m: multiset<T>, s: multiset<T>)
    requires live[t] == 0
    requires m == rest - live && s == live - rest
    ensures multiset{t} + m == (multiset{t} + rest) - live
    ensures s == live - (multiset{t} + rest)
  {
    forall x ensures (multiset{t} + m)[x] == ((multiset{t} + rest) - live)[x]
      && s[x] == (live - (multiset{t} + rest))[x]
    {
      if x == t {
        assert live[x] == 0;
      }
    }
  }

  lemma DiffStepFound<T>(t: T, rest: seq<T>, live: seq<T>, live': seq<T>, m: seq<T>, s: seq<T>)
    requires t in live
    requires multiset(live') == multiset(live) - multiset{t}
    requires multiset(m) == multiset(rest) - multiset(live')
    requires multiset(s) == multiset(live') - multiset(rest)
    ensures multiset(m) == multiset([t] + rest) - multiset(live)
    ensures multiset(s) == multiset(live) - multiset([t] + rest)
  {
    assert multiset([t] + rest) == multiset{t} + multiset(rest);
    assert multiset(live)[t] > 0;
    MultisetStepFound(t, multiset(rest), multiset(live), multiset(live'), multiset(m), multiset(s));
  }

  lemma DiffStepMissing<T>(t: T, rest: seq<T>, live: seq<T>, m: seq<T>, s: seq<T>)
    requires t !in live
    requires multiset(m) == multiset(rest) - multiset(live)
    requires multiset(s) == multiset(live) - multiset(rest)
    ensures multiset([t] + m) == multiset([t] + rest) - multiset(live)
    ensures multiset(s) == multiset(live) - multiset([t] + rest)
  {
    assert multiset([t] + rest) == multiset{t} + multiset(rest);
    assert multiset([t] + m) == multiset{t} + multiset(m);
    assert multiset(live)[t] == 0;
    MultisetStepMissing(t, multiset(rest), multiset(live), multiset(m), multiset(s));
  }

  /** Nothing is missing and nothing is stale exactly when the live list is
      a permutation of the target list. */
  lemma DiffEmptyIffPermutation<T>(target: seq<T>, live: seq<T>)
    ensures Diff(target, live) == ([], []) <==> multiset(target) == multiset(live)
  {
    var (m, s) := Diff(target, live);
    if m == [] && s == [] {
      forall x ensures multiset(target)[x] == multiset(live)[x] {
        assert (multiset(target) - multiset(live))[x] == 0;
        assert (multiset(live) - multiset(target))[x] == 0;
      }
      assert multiset(target) == multiset(live);
    }
    if multiset(target) == multiset(live) {
      assert multiset(m) == multiset{};
      assert multiset(s) == multiset{};
    }
  }

  /** Missing names come from the target and stale names from the live
      list; a target name never seen live is always missing, and a live
      name the target does not declare is always stale. */
  lemma DiffMembership<T>(target: seq<T>, live: seq<T>, x: T)
    ensures x in Diff(target, live).0 ==> x in target
    ensures x in Diff(target, live).1 ==> x in live
    ensures x in target && x !in live ==> x in Diff(target, live).0
    ensures x in live && x !in target ==> x in Diff(target, live).1
  {
    var (m, s) := Diff(target, live);
    assert x in m <==> multiset(m)[x] > 0;
    assert x in s <==> multiset(s)[x] > 0;
    assert x in target <==> multiset(target)[x] > 0;
    assert x in live <==> multiset(live)[x] > 0;
  }

  predicate Distinct<T(==)>(xs: seq<T>)
  {
    forall i, j :: 0 <= i < j < |xs| ==> xs[i] != xs[j]
  }

  function Absent<T(==,!new)>(xs: seq<T>, live: seq<T>): (r: seq<T>)
    ensures forall x :: x in r <==> x in xs && x !in live
  {
    if |xs| == 0 then []
    else if xs[0] in live then Absent(xs[1..], live)
    else [xs[0]] + Absent(xs[1..], live)
  }

  lemma {:induction false} AbsentAgrees<T(!new)>(xs: seq<T>, live: seq<T>, live': seq<T>)
    requires forall x :: x in xs ==> (x in live <==> x in live')
    ensures Absent(xs, live) == Absent(xs, live')
    decreases |xs|
  {
    if |xs| > 0 {
      AbsentAgrees(xs[1..], live, live');
    }
  }

  /** With duplicate-free target names, the missing names are exactly the
      target names that are not live, in target order. */
  lemma {:induction false} DiffMissingIsAbsent<T(!new)>(target: seq<T>, live: seq<T>)
    requires Distinct(target)
    ensures Diff(target, live).0 == Absent(target, live)
    decreases |target|
  {
    if |target| > 0 {
      var t := target[0];
      var rest := target[1..];
      assert Distinct(rest);
      if t in live {
        var live' := RemoveFirst(live, t);
        DiffMissingIsAbsent(rest, live');
        forall x | x in rest ensures x in live <==> x in live' {
          assert x != t;
          assert multiset(live')[x] == multiset(live)[x];
        }
        AbsentAgrees(rest, live, live');
      } else {
        DiffMissingIsAbsent(rest, live);
      }
    }
  }

  /** Every element of a subsequence occurs in the sequence. */
  lemma {:induction false} SubseqMember<T>(a: seq<T>, b: seq<T>, j: nat)
    requires Subseq(a, b) && j < |a|
    ensures exists k :: 0 <= k < |b| && b[k] == a[j]
    decreases |b|
  {
    if a[0] == b[0] && Subseq(a[1..], b[1..]) {
      if j > 0 {
        SubseqMember(a[1..], b[1..], j - 1);
        var k :| 0 <= k < |b[1..]| && b[1..][k] == a[1..][j - 1];
        assert b[k + 1] == a[j];
      }
    } else {
      SubseqMember(a, b[1..], j);
      var k :| 0 <= k < |b[1..]| && b[1..][k] == a[j];
      assert b[k + 1] == a[j];
    }
  }

  lemma DistinctCons<T>(x: T, xs: seq<T>)
    requires Distinct(xs) && x !in xs
    ensures Distinct([x] + xs)
  {
    var r := [x] + xs;
    forall i, j | 0 <= i < j < |r| ensures r[i] != r[j] {
      assert r[j] == xs[j - 1];
      if i > 0 {
        assert r[i] == xs[i - 1];
      }
    }
  }

  lemma DistinctAppend<T>(xs: seq<T>, x: T)
    requires Distinct(xs) && x !in xs
    ensures Distinct(xs + [x])
  {
    var r := xs + [x];
    forall i, j | 0 <= i < j < |r| ensures r[i] != r[j] {
      assert r[i] == xs[i];
      if j < |xs| {
        assert r[j] == xs[j];
      }
    }
  }

  /** Where `x` first occurs in `xs`. */
  function Position<T(==)>(xs: seq<T>, x: T): (r: nat)
    requires x in xs
    ensures r < |xs| && xs[r] == x
    ensures forall i :: 0 <= i < r ==> xs[i] != x
  {
    if xs[0] == x then 0 else 1 + Position(xs[1..], x)
  }

  /** A subsequence of a duplicate-free sequence is duplicate-free. */
  lemma {:induction false} SubseqDistinct<T>(a: seq<T>, b: seq<T>)
    requires Subseq(a, b) && Distinct(b)
    ensures Distinct(a)
    decreases |b|
  {
    if |a| > 0 {
      assert Distinct(b[1..]) by {
        forall i, j | 0 <= i < j < |b[1..]| ensures b[1..][i] != b[1..][j] {
          assert b[1..][i] == b[i + 1] && b[1..][j] == b[j + 1];
        }
      }
      if a[0] == b[0] && Subseq(a[1..], b[1..]) {
        SubseqDistinct(a[1..], b[1..]);
        forall j | 0 < j < |a| ensures a[0] != a[j] {
          SubseqMember(a[1..], b[1..], j - 1);
          var k :| 0 <= k < |b[1..]| && b[1..][k] == a[1..][j - 1];
          assert b[k + 1] == a[j];
        }
        assert a == [a[0]] + a[1..];
        DistinctCons(a[0], a[1..]);
      } else {
        SubseqDistinct(a, b[1..]);
      }
    }
  }

  /** In a duplicate-free sequence every element occurs once. */
  lemma {:induction false} DistinctMultiplicity<T>(xs: seq<T>, x: T)
    requires Distinct(xs)
    ensures multiset(xs)[x] == if x in xs then 1 else 0
    decreases |xs|
  {
    if |xs| > 0 {
      assert xs == [xs[0]] + xs[1..];
      assert Distinct(xs[1..]) by {
        forall i, j | 0 <= i < j < |xs[1..]| ensures xs[1..][i] != xs[1..][j] {
          assert xs[1..][i] == xs[i + 1] && xs[1..][j] == xs[j + 1];
        }
      }
      DistinctMultiplicity(xs[1..], x);
      if x == xs[0] {
        forall k | 0 <= k < |xs[1..]| ensures xs[1..][k] != x {
          assert xs[1..][k] == xs[k + 1];
        }
      }
    }
  }

  lemma DistinctTail<T>(xs: seq<T>)
    requires Distinct(xs) && |xs| > 0
    ensures Distinct(xs[1..])
  {
    forall i, j | 0 <= i < j < |xs| - 1 ensures xs[1..][i] != xs[1..][j] {
      assert xs[1..][i] == xs[i + 1] && xs[1..][j] == xs[j + 1];
    }
  }

  /** Two duplicate-free sequences with the same members are permutations
      of each other. */
  lemma DistinctSameMembers<T>(a: seq<T>, b: seq<T>)
    requires Distinct(a) && Distinct(b)
    requires forall x :: x in a <==> x in b
    ensures multiset(a) == multiset(b)
  {
    forall x ensures multiset(a)[x] == multiset(b)[x] {
      DistinctMultiplicity(a, x);
      DistinctMultiplicity(b, x);
    }
  }

  lemma {:induction false} AbsentDistinct<T(!new)>(xs: seq<T>, live: seq<T>)
    requires Distinct(xs)
    ensures Distinct(Absent(xs, live))
    decreases |xs|
  {
    if |xs| > 0 {
      DistinctTail(xs);
      AbsentDistinct(xs[1..], live);
      if xs[0] !in live {
        assert xs[0] !in xs[1..] by {
          forall k | 0 <= k < |xs[1..]| ensures xs[1..][k] != xs[0] {
            assert xs[1..][k] == xs[k + 1];
          }
        }
        DistinctCons(xs[0], Absent(xs[1..], live));
      }
    }
  }

  /** Nothing of the target is missing exactly when the live list holds
      every target element at least as often as the target does. */
  lemma {:induction false} NothingMissingIffCovered<T>(target: seq<T>, live: seq<T>)
    ensures |Diff(target, live).0| == 0 <==> multiset(target) <= multiset(live)
  {
    var missing := Diff(target, live).0;
    if !(multiset(target) <= multiset(live)) {
      var x :| multiset(target)[x] > multiset(live)[x];
      assert multiset(missing)[x] > 0;
    }
  }

  /** An element at two positions occurs at least twice. */
  lemma TwoCopies<T>(xs: seq<T>, i: nat, j: nat)
    requires i < j < |xs| && xs[i] == xs[j]
    ensures multiset(xs)[xs[i]] >= 2
  {
    assert xs == xs[..j] + xs[j..];
    assert xs[i] == xs[..j][i];
    assert xs[j..][0] == xs[i];
  }

  /** Against a duplicate-free live list, the target is covered exactly
      when it is itself duplicate-free and every element of it is live. */
  lemma {:induction false} CoveredByDistinct<T>(target: seq<T>, live: seq<T>)
    requires Distinct(live)
    ensures multiset(target) <= multiset(live) <==>
      Distinct(target) && forall x :: x in target ==> x in live
  {
    if multiset(target) <= multiset(live) {
      forall i, j | 0 <= i < j < |target| ensures target[i] != target[j] {
        if target[i] == target[j] {
          TwoCopies(target, i, j);
          DistinctMultiplicity(live, target[i]);
        }
      }
      forall x | x in target ensures x in live {
        assert multiset(target)[x] > 0;
      }
    }
    if Distinct(target) && forall x :: x in target ==> x in live {
      forall x ensures multiset(target)[x] <= multiset(live)[x] {
        DistinctMultiplicity(target, x);
      }
    }
  }

  /** The elements of `xs`, each once, in the order of their last
      occurrence. */
  function Dedup<T(==,!new)>(xs: seq<T>): (r: seq<T>)
    ensures Distinct(r)
    ensures forall x :: x in r <==> x in xs
  {
    if |xs| == 0 then []
    else
      var rest := Dedup(xs[1..]);
      assert forall x :: x in xs <==> x == xs[0] || x in xs[1..];
      if xs[0] in xs[1..] then rest
      else
        DistinctCons(xs[0], rest);
        [xs[0]] + rest
  }

  /** A duplicate-free sequence is its own deduplication. */
  lemma {:induction false} DedupOfDistinct<T(!new)>(xs: seq<T>)
    requires Distinct(xs)
    ensures Dedup(xs) == xs
    decreases |xs|
  {
    if |xs| > 0 {
      DistinctTail(xs);
      DedupOfDistinct(xs[1..]);
      assert xs[0] !in xs[1..] by {
        forall k | 0 <= k < |xs[1..]| ensures xs[1..][k] != xs[0] {
          assert xs[1..][k] == xs[k + 1];
        }
      }
      assert xs == [xs[0]] + xs[1..];
    }
  }
}
