/** Building a map by a loop over another map, whose iteration order is arbitrary: which results
    are possible, and when the order does not matter. */
module MapFold {

  type Entries = map<string, string>

  /** What the loop does with one entry: skip it, or store a key and a value computed from it. */
  datatype Rule = Rule(keep: (string, string) -> bool, keyOf: string -> string, valueOf: string -> string)

  /** The order visits every key of h exactly once. */
  ghost predicate Enumerates(order: seq<string>, keys: set<string>) {
    && (forall i, j :: 0 <= i < j < |order| ==> order[i] != order[j])
    && (forall k :: k in order <==> k in keys)
  }

  /** The loop's result when it visits the keys in this order. */
  function Fold(rule: Rule, h: Entries, order: seq<string>): Entries
    requires forall k :: k in order ==> k in h
  {
    if order == [] then map[]
    else
      var k := order[|order| - 1];
      var before := Fold(rule, h, order[..|order| - 1]);
      if rule.keep(k, h[k]) then before[rule.keyOf(k) := rule.valueOf(h[k])] else before
  }

  predicate Kept(rule: Rule, h: Entries, k: string) {
    k in h && rule.keep(k, h[k])
  }

  /** Two entries write different values under one key that is not in `ignored`. */
  predicate Clash(rule: Rule, h: Entries, ignored: set<string>, a: string, b: string) {
    && Kept(rule, h, a) && Kept(rule, h, b)
    && rule.keyOf(a) == rule.keyOf(b) && rule.keyOf(a) !in ignored
    && rule.valueOf(h[a]) != rule.valueOf(h[b])
  }

  ghost predicate NoClash(rule: Rule, h: Entries, ignored: set<string>) {
    forall a, b :: !Clash(rule, h, ignored, a, b)
  }

  /** Some kept entry visited writes v under x. */
  ghost predicate Wrote(rule: Rule, h: Entries, order: seq<string>, x: string, v: string) {
    exists k :: k in order && Kept(rule, h, k) && rule.keyOf(k) == x && rule.valueOf(h[k]) == v
  }

  /** Every stored value comes from some kept entry visited, and every kept entry visited has its
      key stored. */
  lemma {:induction false} FoldFrom(rule: Rule, h: Entries, order: seq<string>)
    requires forall k :: k in order ==> k in h
    ensures forall x :: x in Fold(rule, h, order) ==> Wrote(rule, h, order, x, Fold(rule, h, order)[x])
    ensures forall k :: k in order && Kept(rule, h, k) ==> rule.keyOf(k) in Fold(rule, h, order)
  {
    if order != [] {
      var front, last := order[..|order| - 1], order[|order| - 1];
      FoldFrom(rule, h, front);
      assert order == front + [last];
      var m, before := Fold(rule, h, order), Fold(rule, h, front);
      forall x | x in m ensures Wrote(rule, h, order, x, m[x]) {
        if Kept(rule, h, last) && x == rule.keyOf(last) {
          assert last in order;
        } else {
          assert x in before && m[x] == before[x];
          var k :| k in front && Kept(rule, h, k) && rule.keyOf(k) == x && rule.valueOf(h[k]) == before[x];
          assert k in order;
        }
      }
    }
  }

  /** One more turn of the loop. */
  lemma FoldNext(rule: Rule, h: Entries, order: seq<string>, k: string)
    requires (forall x :: x in order ==> x in h) && k in h
    ensures forall x :: x in order + [k] ==> x in h
    ensures var before := Fold(rule, h, order);
            Fold(rule, h, order + [k]) == if rule.keep(k, h[k]) then
                before[rule.keyOf(k) := rule.valueOf(h[k])] else before
  {
    assert (order + [k])[..|order|] == order;
  }

  lemma EnumerateNext(order: seq<string>, keys: set<string>, k: string)
    requires Enumerates(order, keys) && k !in keys
    ensures Enumerates(order + [k], keys + {k})
  {
  }

  /** Whatever the order, the keys are the same. */
  lemma FoldKeys(rule: Rule, h: Entries, o1: seq<string>, o2: seq<string>)
    requires Enumerates(o1, h.Keys) && Enumerates(o2, h.Keys)
    ensures Fold(rule, h, o1).Keys == Fold(rule, h, o2).Keys
  {
    FoldFrom(rule, h, o1);
    FoldFrom(rule, h, o2);
    forall x ensures x in Fold(rule, h, o1) <==> x in Fold(rule, h, o2) {
    }
  }

  /** A map some order produces: each key holds a value one of its entries wrote. */
  ghost predicate FoldsTo(rule: Rule, h: Entries, m: Entries) {
    exists order :: Enumerates(order, h.Keys) && Fold(rule, h, order) == m
  }

  lemma {:induction false} EnumerationExists(keys: set<string>) returns (order: seq<string>)
    ensures Enumerates(order, keys)
    decreases |keys|
  {
    order := [];
    if keys != {} {
      var k :| k in keys;
      var front := EnumerationExists(keys - {k});
      order := front + [k];
    }
  }

  lemma SamePair(rule: Rule, h: Entries, ignored: set<string>, o1: seq<string>, o2: seq<string>, x: string)
    requires Enumerates(o1, h.Keys) && Enumerates(o2, h.Keys) && NoClash(rule, h, ignored)
    requires x in Fold(rule, h, o1) && x in Fold(rule, h, o2) && x !in ignored
    ensures Fold(rule, h, o1)[x] == Fold(rule, h, o2)[x]
  {
    FoldFrom(rule, h, o1);
    FoldFrom(rule, h, o2);
    var a :| a in o1 && Kept(rule, h, a) && rule.keyOf(a) == x && rule.valueOf(h[a]) == Fold(rule, h, o1)[x];
    var b :| b in o2 && Kept(rule, h, b) && rule.keyOf(b) == x && rule.valueOf(h[b]) == Fold(rule, h, o2)[x];
    assert !Clash(rule, h, ignored, a, b);
  }

  /** Two orders that finish with two clashing entries, either way round. */
  lemma ClashShows(rule: Rule, h: Entries, ignored: set<string>, a: string, b: string)
    returns (o1: seq<string>, o2: seq<string>)
    requires Clash(rule, h, ignored, a, b)
    ensures Enumerates(o1, h.Keys) && Enumerates(o2, h.Keys)
    ensures Fold(rule, h, o1) - ignored != Fold(rule, h, o2) - ignored
  {
    var front := EnumerationExists(h.Keys - {a, b});
    o1, o2 := front + [a, b], front + [b, a];
    assert o1[..|o1| - 1] == front + [a] && o2[..|o2| - 1] == front + [b];
    var x := rule.keyOf(a);
    assert Fold(rule, h, o1)[x] == rule.valueOf(h[b]);
    assert Fold(rule, h, o2)[x] == rule.valueOf(h[a]);
    assert x in Fold(rule, h, o1) - ignored && (Fold(rule, h, o1) - ignored)[x] == rule.valueOf(h[b]);
    assert x in Fold(rule, h, o2) - ignored && (Fold(rule, h, o2) - ignored)[x] == rule.valueOf(h[a]);
  }

  /** Outside the ignored keys the result is the same for all iteration orders exactly when no two
      kept entries write different values under one key. */
  lemma OrderIrrelevantIff(rule: Rule, h: Entries, ignored: set<string>)
    ensures (forall m1, m2 :: FoldsTo(rule, h, m1) && FoldsTo(rule, h, m2) ==> m1 - ignored == m2 - ignored)
       <==> NoClash(rule, h, ignored)
  {
    if NoClash(rule, h, ignored) {
      forall m1, m2 | FoldsTo(rule, h, m1) && FoldsTo(rule, h, m2)
        ensures m1 - ignored == m2 - ignored
      {
        var o1 :| Enumerates(o1, h.Keys) && Fold(rule, h, o1) == m1;
        var o2 :| Enumerates(o2, h.Keys) && Fold(rule, h, o2) == m2;
        FoldKeys(rule, h, o1, o2);
        forall x | x in m1 && x !in ignored
          ensures m1[x] == m2[x]
        {
          SamePair(rule, h, ignored, o1, o2, x);
        }
      }
    } else {
      var a, b :| Clash(rule, h, ignored, a, b);
      var o1, o2 := ClashShows(rule, h, ignored, a, b);
      assert FoldsTo(rule, h, Fold(rule, h, o1)) && FoldsTo(rule, h, Fold(rule, h, o2));
    }
  }

  lemma SameKeys(rule: Rule, h: Entries, m1: Entries, m2: Entries)
    requires FoldsTo(rule, h, m1) && FoldsTo(rule, h, m2)
    ensures m1.Keys == m2.Keys
  {
    var o1 :| Enumerates(o1, h.Keys) && Fold(rule, h, o1) == m1;
    var o2 :| Enumerates(o2, h.Keys) && Fold(rule, h, o2) == m2;
    FoldKeys(rule, h, o1, o2);
  }
}
