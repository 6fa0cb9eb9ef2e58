/** The recipient list of an SMTP send: trimmed, blanks dropped, repeats dropped, first occurrence
    first. */
module Addresses {
  import opened Text

  /** All groups, one after the other. */
  function Flatten(groups: seq<seq<string>>): seq<string> {
    if groups == [] then [] else Flatten(groups[..|groups| - 1]) + groups[|groups| - 1]
  }

  /** Trimmed, and only what is not blank. */
  function Cleaned(xs: seq<string>): seq<string> {
    if xs == [] then []
    else
      var addr := Trim(xs[|xs| - 1]);
      Cleaned(xs[..|xs| - 1]) + if addr == "" then [] else [addr]
  }

  /** Each element once, where it first occurs. */
  function FirstOccurrences(xs: seq<string>): seq<string> {
    if xs == [] then []
    else
      var front := xs[..|xs| - 1];
      FirstOccurrences(front) + if xs[|xs| - 1] in front then [] else [xs[|xs| - 1]]
  }

  function Unique(groups: seq<seq<string>>): seq<string> {
    FirstOccurrences(Cleaned(Flatten(groups)))
  }

  /** `uniqueAddresses`, with its set of addresses seen. */
  method UniqueAddresses(groups: seq<seq<string>>) returns (result: seq<string>)
    ensures result == Unique(groups)
  {
    hide Trim, Cleaned, FirstOccurrences, Flatten;
    result := [];
    NothingYet(groups);
    var seen: set<string> := {};
    ghost var done: seq<string> := [];
    for g := 0 to |groups|
      invariant done == Flatten(groups[..g])
      invariant result == FirstOccurrences(Cleaned(done))
      invariant forall a :: a in seen <==> a in Cleaned(done)
    {
      var group := groups[g];
      ghost var before := done;
      assert before + group[..0] == before;
      for i := 0 to |group|
        invariant done == before + group[..i]
        invariant result == FirstOccurrences(Cleaned(done))
        invariant forall a :: a in seen <==> a in Cleaned(done)
      {
        var addr := Trim(group[i]);
        CleanedNext(done, group[i]);
        assert before + group[..i + 1] == before + group[..i] + [group[i]];
        done := done + [group[i]];
        if addr == "" {
          continue;
        }
        if addr in seen {
          continue;
        }
        seen := seen + {addr};
        result := result + [addr];
      }
      assert group[..|group|] == group;
      FlattenNext(groups, g);
    }
    assert groups[..|groups|] == groups;
  }

  lemma NothingYet(groups: seq<seq<string>>)
    ensures Flatten(groups[..0]) == [] && Cleaned([]) == [] && FirstOccurrences([]) == []
  {
  }

  lemma FlattenNext(groups: seq<seq<string>>, g: nat)
    requires g < |groups|
    ensures Flatten(groups[..g + 1]) == Flatten(groups[..g]) + groups[g]
  {
    assert groups[..g + 1][..g] == groups[..g];
  }

  lemma CleanedNext(xs: seq<string>, x: string)
    ensures var front := Cleaned(xs);
            && Cleaned(xs + [x]) == (if Trim(x) == "" then front else front + [Trim(x)])
            && FirstOccurrences(front + [Trim(x)])
               == FirstOccurrences(front) + (if Trim(x) in front then [] else [Trim(x)])
  {
    var front := Cleaned(xs);
    assert (xs + [x])[..|xs|] == xs;
    assert front + [] == front;
    assert (front + [Trim(x)])[..|front|] == front;
  }

  // ----- what makes a list the stable deduplication of another -----

  predicate NoRepeats(r: seq<string>) {
    forall i, j :: 0 <= i < j < |r| ==> r[i] != r[j]
  }

  /** Position of the first x in xs. */
  function FirstAt(xs: seq<string>, x: string): (i: nat)
    requires x in xs
    ensures i < |xs| && xs[i] == x && x !in xs[..i]
  {
    if xs[0] == x then 0 else 1 + FirstAt(xs[1..], x)
  }

  /** r has the elements of xs, once each, in the order in which they first occur. */
  ghost predicate StableDedup(xs: seq<string>, r: seq<string>) {
    && (forall x :: x in r <==> x in xs)
    && (forall i, j :: 0 <= i < j < |r| ==> r[i] in xs && r[j] in xs && FirstAt(xs, r[i]) < FirstAt(xs, r[j]))
  }

  lemma {:induction false} FirstAtUnique(xs: seq<string>, x: string, i: nat)
    requires i < |xs| && xs[i] == x && x !in xs[..i]
    ensures x in xs && FirstAt(xs, x) == i
  {
    if i > 0 {
      assert xs[..i][0] == xs[0];
      assert xs[..i] == [xs[0]] + xs[1..][..i - 1];
      FirstAtUnique(xs[1..], x, i - 1);
    }
  }

  /** An element of the front keeps its first position when the list grows. */
  lemma FirstAtFront(front: seq<string>, last: string, x: string)
    requires x in front
    ensures x in front + [last] && FirstAt(front + [last], x) == FirstAt(front, x)
  {
    var i := FirstAt(front, x);
    assert (front + [last])[..i] == front[..i];
    FirstAtUnique(front + [last], x, i);
  }

  lemma {:induction false} FirstOccurrencesDedup(xs: seq<string>)
    ensures StableDedup(xs, FirstOccurrences(xs))
  {
    if xs != [] {
      var front, last := xs[..|xs| - 1], xs[|xs| - 1];
      FirstOccurrencesDedup(front);
      var r := FirstOccurrences(front);
      assert xs == front + [last];
      forall x | x in front ensures x in xs && FirstAt(xs, x) == FirstAt(front, x) {
        FirstAtFront(front, last, x);
      }
      if last !in front {
        FirstAtUnique(xs, last, |front|);
      }
      forall i, j | 0 <= i < j < |FirstOccurrences(xs)|
        ensures var q := FirstOccurrences(xs); q[i] in xs && q[j] in xs && FirstAt(xs, q[i]) < FirstAt(xs, q[j])
      {
        assert r[i] in r && r[i] in front;
        if j < |r| {
          assert r[j] in r && r[j] in front;
        }
      }
      assert forall x :: x in xs <==> x in front || x == last;
    }
  }

  /** A list has only one stable deduplication. */
  lemma DedupUnique(xs: seq<string>, a: seq<string>, b: seq<string>)
    requires StableDedup(xs, a) && StableDedup(xs, b)
    ensures a == b
  {
    var n := if |a| <= |b| then |a| else |b|;
    SamePrefix(xs, a, b, n);
    assert a[..|a|] == a && b[..|b|] == b;
    if |a| < |b| {
      LaterIsNew(xs, b, |a|);
    }
    if |b| < |a| {
      LaterIsNew(xs, a, |b|);
    }
  }

  lemma {:induction false} SamePrefix(xs: seq<string>, a: seq<string>, b: seq<string>, n: nat)
    requires StableDedup(xs, a) && StableDedup(xs, b) && n <= |a| && n <= |b|
    ensures a[..n] == b[..n]
  {
    if n > 0 {
      SamePrefix(xs, a, b, n - 1);
      NextNotLater(xs, a, b, n - 1);
      NextNotLater(xs, b, a, n - 1);
      assert a[..n] == a[..n - 1] + [a[n - 1]] && b[..n] == b[..n - 1] + [b[n - 1]];
    }
  }

  /** Behind a common prefix, a's next element does not first occur after b's. */
  lemma NextNotLater(xs: seq<string>, a: seq<string>, b: seq<string>, n: nat)
    requires StableDedup(xs, a) && StableDedup(xs, b) && n < |a| && n < |b| && a[..n] == b[..n]
    ensures a[n] in xs && b[n] in xs && FirstAt(xs, a[n]) <= FirstAt(xs, b[n])
  {
    hide FirstAt;
    LaterIsNew(xs, a, n);
    LaterIsNew(xs, b, n);
    var i := IndexOf(a, b[n]);
    NotInside(a, n, i);
    assert i > n ==> FirstAt(xs, a[n]) < FirstAt(xs, a[i]);
  }

  lemma IndexOf(a: seq<string>, x: string) returns (i: nat)
    requires x in a
    ensures i < |a| && a[i] == x
  {
    i :| 0 <= i < |a| && a[i] == x;
  }

  lemma NotInside(a: seq<string>, n: nat, i: nat)
    requires n <= |a| && i < |a| && a[i] !in a[..n]
    ensures n <= i
  {
    if i < n {
      PrefixHas(a, n, i);
    }
  }

  lemma PrefixHas(a: seq<string>, n: nat, i: nat)
    requires i < n <= |a|
    ensures a[i] in a[..n]
  {
    assert a[..n][i] == a[i];
  }

  lemma LaterIsNew(xs: seq<string>, b: seq<string>, n: nat)
    requires StableDedup(xs, b) && n < |b|
    ensures b[n] in b && b[n] in xs && b[n] !in b[..n]
  {
    assert b[n] in b;
    forall i | 0 <= i < n ensures b[i] != b[n] {
      assert FirstAt(xs, b[i]) < FirstAt(xs, b[n]);
    }
  }

  // ----- the recipients of a send -----

  lemma {:induction false} CleanedIs(xs: seq<string>)
    ensures forall a :: a in Cleaned(xs) <==> a != "" && exists i :: 0 <= i < |xs| && Trim(xs[i]) == a
  {
    if xs != [] {
      var front, last := xs[..|xs| - 1], xs[|xs| - 1];
      CleanedIs(front);
      forall a ensures a in Cleaned(xs) <==> a != "" && exists i :: 0 <= i < |xs| && Trim(xs[i]) == a {
        if a in Cleaned(front) {
          var i :| 0 <= i < |front| && Trim(front[i]) == a;
          assert Trim(xs[i]) == a;
        }
        if a != "" && a == Trim(last) {
          assert Trim(xs[|xs| - 1]) == a;
        }
        if i :| 0 <= i < |xs| && Trim(xs[i]) == a {
          assert i < |front| ==> Trim(front[i]) == a;
        }
      }
    }
  }

  lemma {:induction false} CleanedStays(xs: seq<string>)
    requires forall i :: 0 <= i < |xs| ==> xs[i] != "" && Trim(xs[i]) == xs[i]
    ensures Cleaned(xs) == xs
  {
    if xs != [] {
      CleanedStays(xs[..|xs| - 1]);
      assert xs == xs[..|xs| - 1] + [xs[|xs| - 1]];
    }
  }

  lemma {:induction false} NoRepeatsStays(xs: seq<string>)
    requires NoRepeats(xs)
    ensures FirstOccurrences(xs) == xs
  {
    if xs != [] {
      NoRepeatsStays(xs[..|xs| - 1]);
      assert xs == xs[..|xs| - 1] + [xs[|xs| - 1]];
    }
  }

  lemma DedupNoRepeats(xs: seq<string>, r: seq<string>)
    requires StableDedup(xs, r)
    ensures NoRepeats(r)
  {
    forall i, j | 0 <= i < j < |r| ensures r[i] != r[j] {
      assert FirstAt(xs, r[i]) < FirstAt(xs, r[j]);
    }
  }

  /** A second pass over trimmed, non-blank addresses without repeats changes nothing. */
  lemma SecondPass(r: seq<string>)
    requires NoRepeats(r) && forall i :: 0 <= i < |r| ==> r[i] != "" && Trim(r[i]) == r[i]
    ensures Unique([r]) == r
  {
    hide Trim;
    CleanedStays(r);
    NoRepeatsStays(r);
    assert Flatten([r]) == r by {
      assert [r][..0] == [] && Flatten([]) == [] && [] + r == r;
    }
  }

  /** The result holds each non-blank trimmed address of the groups once, in the order of first
      occurrence, is the only list that does, and is left alone by a second pass. */
  lemma UniqueIsStable(groups: seq<seq<string>>)
    ensures NoRepeats(Unique(groups))
    ensures forall a :: a in Unique(groups) <==>
              a != "" && exists i :: 0 <= i < |Flatten(groups)| && Trim(Flatten(groups)[i]) == a
    ensures forall r :: StableDedup(Cleaned(Flatten(groups)), r) <==> r == Unique(groups)
    ensures Unique([Unique(groups)]) == Unique(groups)
  {
    hide Trim, Cleaned, FirstOccurrences, Flatten, FirstAt, NoRepeats;
    var all := Flatten(groups);
    var xs := Cleaned(all);
    var r := Unique(groups);
    assert r == FirstOccurrences(xs) && Flatten(groups) == all;
    FirstOccurrencesDedup(xs);
    CleanedIs(all);
    DedupNoRepeats(xs, r);
    forall a ensures a in r <==> a != "" && exists i :: 0 <= i < |all| && Trim(all[i]) == a {
      assert a in r <==> a in xs;
    }
    forall q | StableDedup(xs, q) ensures q == r {
      DedupUnique(xs, q, r);
    }
    forall i | 0 <= i < |r| ensures r[i] != "" && Trim(r[i]) == r[i] {
      assert r[i] in r;
      var n :| 0 <= n < |all| && Trim(all[n]) == r[i];
      TrimTwice(all[n]);
    }
    SecondPass(r);
  }

  /** The groups come one after the other. */
  lemma FlattenThree(a: seq<string>, b: seq<string>, c: seq<string>)
    ensures Flatten([a, b, c]) == a + b + c
  {
    FlattenNext([a, b, c], 0);
    FlattenNext([a, b, c], 1);
    FlattenNext([a, b, c], 2);
    assert [a, b, c][..0] == [] && [a, b, c][..3] == [a, b, c];
  }

  /** And cleaning works address by address. */
  lemma {:induction false} CleanedJoins(a: seq<string>, b: seq<string>)
    ensures Cleaned(a + b) == Cleaned(a) + Cleaned(b)
  {
    hide Trim;
    if b == [] {
      assert a + b == a;
    } else {
      var n := |b| - 1;
      assert a + b == (a + b[..n]) + [b[n]];
      CleanedJoins(a, b[..n]);
      CleanedNext(a + b[..n], b[n]);
    }
  }
}
