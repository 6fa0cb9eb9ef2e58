/** Metadata maps and phone numbers: trimmed copies, refused when an entry breaks a limit. The loop
    over a metadata map visits its entries in an arbitrary order and stops at the first bad one. */
module Metadata {
  import opened Text
  import opened MapFold
  import opened Options

  /** A limit that is not positive does not apply. */
  datatype Limits = Limits(entries: int, keyRunes: int, valueRunes: int)

  datatype Complaint = TooManyEntries | EmptyKey | KeyTooLong(key: string) | ValueTooLong(key: string)

  datatype Answer = Accepted(meta: Entries) | Refused(why: Complaint)

  predicate Exceeds(n: nat, limit: int) {
    limit > 0 && n > limit
  }

  /** What is wrong with one entry, if anything. */
  function EntryComplaint(limits: Limits, key: string, value: string): Option<Complaint> {
    if Trim(key) == "" then Some(EmptyKey)
    else if Exceeds(|Trim(key)|, limits.keyRunes) then Some(KeyTooLong(Trim(key)))
    else if Exceeds(|Trim(value)|, limits.valueRunes) then Some(ValueTooLong(Trim(key)))
    else None
  }

  /** The complaint that stops a loop visiting the entries in this order. */
  function FirstComplaint(limits: Limits, meta: Entries, order: seq<string>): Option<Complaint>
    requires forall k :: k in order ==> k in meta
  {
    if order == [] then None
    else
      var before := FirstComplaint(limits, meta, order[..|order| - 1]);
      if before.Some? then before else EntryComplaint(limits, order[|order| - 1], meta[order[|order| - 1]])
  }

  function TrimEntry(): Rule {
    Rule((k: string, v: string) => true, (k: string) => Trim(k), (v: string) => Trim(v))
  }

  function AnswerIn(limits: Limits, meta: Entries, order: seq<string>): Answer
    requires forall k :: k in order ==> k in meta
  {
    var complaint := FirstComplaint(limits, meta, order);
    if complaint.Some? then Refused(complaint.value) else Accepted(Fold(TrimEntry(), meta, order))
  }

  /** An answer some iteration order gives. */
  ghost predicate MayAnswer(limits: Limits, meta: Entries, answer: Answer) {
    if Exceeds(|meta|, limits.entries) then answer == Refused(TooManyEntries)
    else exists order :: Enumerates(order, meta.Keys) && AnswerIn(limits, meta, order) == answer
  }

  predicate Bad(limits: Limits, meta: Entries, k: string) {
    k in meta && EntryComplaint(limits, k, meta[k]).Some?
  }

  /** Nothing to complain about, looking at the entries one by one. */
  ghost predicate Acceptable(limits: Limits, meta: Entries) {
    !Exceeds(|meta|, limits.entries) && forall k :: !Bad(limits, meta, k)
  }

  /** `ValidateMetadata`. The loop picks any entry not yet visited. */
  method ValidateMetadata(limits: Limits, meta: Entries) returns (answer: Answer)
    ensures MayAnswer(limits, meta, answer)
    ensures answer.Accepted? <==> Acceptable(limits, meta)
  {
    hide Fold, FirstComplaint, EntryComplaint, TrimEntry, Trim;
    if |meta| == 0 {
      NoEntries(limits, meta);
      return Accepted(map[]);
    }
    if Exceeds(|meta|, limits.entries) {
      return Refused(TooManyEntries);
    }
    var out: Entries := map[];
    var left := meta.Keys;
    ghost var order: seq<string> := [];
    NoneVisited(limits, meta);
    while left != {}
      invariant left <= meta.Keys && Enumerates(order, meta.Keys - left)
      invariant FirstComplaint(limits, meta, order) == None
      invariant out == Fold(TrimEntry(), meta, order)
      decreases left
    {
      var rawKey :| rawKey in left;
      var key, value := Trim(rawKey), Trim(meta[rawKey]);
      OneMore(limits, meta, order, rawKey);
      EnumerateNext(order, meta.Keys - left, rawKey);
      assert meta.Keys - left + {rawKey} == meta.Keys - (left - {rawKey});
      if EntryComplaint(limits, rawKey, meta[rawKey]).Some? {
        ghost var _ := StopsHere(limits, meta, order + [rawKey]);
      }
      Complaints(limits, rawKey, meta[rawKey]);
      if key == "" {
        return Refused(EmptyKey);
      }
      if Exceeds(|key|, limits.keyRunes) {
        return Refused(KeyTooLong(key));
      }
      if Exceeds(|value|, limits.valueRunes) {
        return Refused(ValueTooLong(key));
      }
      out := out[key := value];
      left := left - {rawKey};
      order := order + [rawKey];
    }
    assert Enumerates(order, meta.Keys);
    NoComplaintIff(limits, meta, order);
    answer := Accepted(out);
  }

  // ----- the loop -----

  lemma NoneVisited(limits: Limits, meta: Entries)
    ensures FirstComplaint(limits, meta, []) == None && Fold(TrimEntry(), meta, []) == map[]
  {
  }

  lemma NoEntries(limits: Limits, meta: Entries)
    requires |meta| == 0
    ensures MayAnswer(limits, meta, Accepted(map[])) && Acceptable(limits, meta)
  {
    NoneVisited(limits, meta);
    assert Enumerates([], meta.Keys);
    assert AnswerIn(limits, meta, []) == Accepted(map[]);
  }

  lemma Complaints(limits: Limits, key: string, value: string)
    ensures EntryComplaint(limits, key, value)
         == if Trim(key) == "" then Some(EmptyKey)
            else if Exceeds(|Trim(key)|, limits.keyRunes) then Some(KeyTooLong(Trim(key)))
            else if Exceeds(|Trim(value)|, limits.valueRunes) then Some(ValueTooLong(Trim(key)))
            else None
  {
  }

  lemma OneMore(limits: Limits, meta: Entries, order: seq<string>, k: string)
    requires (forall x :: x in order ==> x in meta) && k in meta
    ensures forall x :: x in order + [k] ==> x in meta
    ensures var before := FirstComplaint(limits, meta, order);
            FirstComplaint(limits, meta, order + [k]) == if before.Some? then
                before else EntryComplaint(limits, k, meta[k])
    ensures Fold(TrimEntry(), meta, order + [k]) == Fold(TrimEntry(), meta, order)[Trim(k) := Trim(meta[k])]
  {
    assert (order + [k])[..|order|] == order;
  }

  /** Once something is wrong, the rest of the order does not matter. */
  lemma {:induction false} FirstWins(limits: Limits, meta: Entries, front: seq<string>, rest: seq<string>)
    requires forall k :: k in front + rest ==> k in meta
    requires FirstComplaint(limits, meta, front).Some?
    ensures FirstComplaint(limits, meta, front + rest) == FirstComplaint(limits, meta, front)
  {
    if rest == [] {
      assert front + rest == front;
    } else {
      var n := |rest| - 1;
      assert front + rest == (front + rest[..n]) + [rest[n]];
      assert forall k :: k in front + rest[..n] ==> k in front + rest;
      FirstWins(limits, meta, front, rest[..n]);
      OneMore(limits, meta, front + rest[..n], rest[n]);
    }
  }

  lemma {:induction false} NoComplaintIff(limits: Limits, meta: Entries, order: seq<string>)
    requires forall k :: k in order ==> k in meta
    ensures FirstComplaint(limits, meta, order) == None <==> forall k :: k in order ==> !Bad(limits, meta, k)
    ensures FirstComplaint(limits, meta, order).Some? ==>
              exists k :: k in order && Bad(limits, meta, k)
                              && FirstComplaint(limits, meta, order) == EntryComplaint(limits, k, meta[k])
  {
    hide EntryComplaint;
    if order != [] {
      var n := |order| - 1;
      NoComplaintIff(limits, meta, order[..n]);
      SplitLast(order);
      var last := order[n];
      assert EntryComplaint(limits, last, meta[last]).Some? <==> Bad(limits, meta, last);
      if FirstComplaint(limits, meta, order[..n]) == None && Bad(limits, meta, last) {
        assert last in order;
      } else if FirstComplaint(limits, meta, order[..n]).Some? {
        var k :| k in order[..n] && Bad(limits, meta, k)
                 && FirstComplaint(limits, meta, order[..n]) == EntryComplaint(limits, k, meta[k]);
        assert k in order;
      }
    }
  }

  lemma SplitLast(order: seq<string>)
    requires order != []
    ensures var n := |order| - 1; forall k :: k in order <==> k in order[..n] || k == order[n]
  {
    assert order == order[..|order| - 1] + [order[|order| - 1]];
  }

  lemma Joined(front: seq<string>, rest: seq<string>, keys: set<string>)
    requires (set k | k in front) <= keys
    requires Enumerates(front, set k | k in front) && Enumerates(rest, keys - set k | k in front)
    ensures Enumerates(front + rest, keys)
  {
    var order := front + rest;
    forall i, j | 0 <= i < j < |order| ensures order[i] != order[j] {
      assert i < |front| ==> order[i] in front;
      assert j >= |front| ==> order[j] in rest;
    }
    forall k ensures k in order <==> k in keys {
      assert k in order <==> k in front || k in rest;
    }
  }

  /** A loop that stops at the end of `front` gives an answer of the whole map. */
  lemma StopsHere(limits: Limits, meta: Entries, front: seq<string>) returns (order: seq<string>)
    requires !Exceeds(|meta|, limits.entries)
    requires (forall k :: k in front ==> k in meta) && Enumerates(front, set k | k in front)
    requires FirstComplaint(limits, meta, front).Some?
    ensures MayAnswer(limits, meta, Refused(FirstComplaint(limits, meta, front).value))
    ensures !Acceptable(limits, meta)
  {
    hide EntryComplaint, FirstComplaint;
    var rest := EnumerationExists(meta.Keys - set k | k in front);
    order := front + rest;
    Joined(front, rest, meta.Keys);
    FirstWins(limits, meta, front, rest);
    assert AnswerIn(limits, meta, order) == Refused(FirstComplaint(limits, meta, front).value);
    NoComplaintIff(limits, meta, front);
  }

  // ----- what does not depend on the order -----

  /** Whether the map is accepted never depends on the order. */
  lemma DecisionIgnoresOrder(limits: Limits, meta: Entries, answer: Answer)
    requires MayAnswer(limits, meta, answer)
    ensures answer.Accepted? <==> Acceptable(limits, meta)
    ensures answer.Accepted? ==> FoldsTo(TrimEntry(), meta, answer.meta)
    ensures answer.Refused? && answer.why != TooManyEntries ==>
              exists k :: Bad(limits, meta, k) && EntryComplaint(limits, k, meta[k]) == Some(answer.why)
  {
    hide EntryComplaint, FirstComplaint, Fold, TrimEntry;
    if !Exceeds(|meta|, limits.entries) {
      var order :| Enumerates(order, meta.Keys) && AnswerIn(limits, meta, order) == answer;
      NoComplaintIff(limits, meta, order);
    }
  }

  /** All bad entries are bad in the same way. */
  ghost predicate OneComplaint(limits: Limits, meta: Entries) {
    forall a, b :: Bad(limits, meta, a) && Bad(limits, meta, b) ==>
          EntryComplaint(limits, a, meta[a]) == EntryComplaint(limits, b, meta[b])
  }

  /** An order that meets this bad entry first. */
  lemma MeetFirst(limits: Limits, meta: Entries, k: string)
    requires !Exceeds(|meta|, limits.entries) && Bad(limits, meta, k)
    ensures MayAnswer(limits, meta, Refused(EntryComplaint(limits, k, meta[k]).value))
  {
    hide EntryComplaint;
    OneMore(limits, meta, [], k);
    assert [] + [k] == [k];
    assert (set x | x in [k]) == {k};
    var _ := StopsHere(limits, meta, [k]);
  }

  /** The answer is the same for all iteration orders exactly when there are too many entries, or
      some entry is bad and all bad ones draw the same complaint, or none is bad and no two keys trim
      to one key with different trimmed values. */
  lemma AnswerIgnoresOrderIff(limits: Limits, meta: Entries)
    ensures (forall a, b :: MayAnswer(limits, meta, a) && MayAnswer(limits, meta, b) ==> a == b)
       <==> Exceeds(|meta|, limits.entries) ||
              (OneComplaint(limits, meta) && (Acceptable(limits, meta) ==> NoClash(TrimEntry(), meta, {})))
  {
    hide EntryComplaint, FirstComplaint, Fold, TrimEntry, AnswerIn, NoClash;
    if Exceeds(|meta|, limits.entries) {
    } else if Acceptable(limits, meta) {
      AcceptedOnes(limits, meta);
      OrderIrrelevantIff(TrimEntry(), meta, {});
      assert forall m: Entries :: m - {} == m;
      if NoClash(TrimEntry(), meta, {}) {
        forall a, b | MayAnswer(limits, meta, a) && MayAnswer(limits, meta, b) ensures a == b {
          DecisionIgnoresOrder(limits, meta, a);
          DecisionIgnoresOrder(limits, meta, b);
          assert a.meta - {} == b.meta - {};
        }
      } else {
        var m1, m2 :| FoldsTo(TrimEntry(), meta, m1) && FoldsTo(TrimEntry(), meta, m2) && m1 - {} != m2 - {};
        assert MayAnswer(limits, meta, Accepted(m1)) && MayAnswer(limits, meta, Accepted(m2));
      }
    } else {
      RefusedOnes(limits, meta);
    }
  }

  lemma AcceptedOnes(limits: Limits, meta: Entries)
    requires Acceptable(limits, meta)
    ensures forall m :: FoldsTo(TrimEntry(), meta, m) ==> MayAnswer(limits, meta, Accepted(m))
  {
    hide EntryComplaint, FirstComplaint, Fold, TrimEntry;
    forall m | FoldsTo(TrimEntry(), meta, m) ensures MayAnswer(limits, meta, Accepted(m)) {
      var order :| Enumerates(order, meta.Keys) && Fold(TrimEntry(), meta, order) == m;
      NoComplaintIff(limits, meta, order);
      assert AnswerIn(limits, meta, order) == Accepted(m);
    }
  }

  lemma RefusedOnes(limits: Limits, meta: Entries)
    requires !Exceeds(|meta|, limits.entries) && !Acceptable(limits, meta)
    ensures (forall a, b :: MayAnswer(limits, meta, a) && MayAnswer(limits, meta, b) ==> a == b)
       <==> OneComplaint(limits, meta)
  {
    hide EntryComplaint, FirstComplaint, Fold, TrimEntry, AnswerIn;
    if OneComplaint(limits, meta) {
      forall a, b | MayAnswer(limits, meta, a) && MayAnswer(limits, meta, b) ensures a == b {
        RefusedBy(limits, meta, a);
        RefusedBy(limits, meta, b);
      }
    } else {
      var a, b :| Bad(limits, meta, a) && Bad(limits, meta, b)
                  && EntryComplaint(limits, a, meta[a]) != EntryComplaint(limits, b, meta[b]);
      MeetFirst(limits, meta, a);
      MeetFirst(limits, meta, b);
    }
  }

  lemma RefusedBy(limits: Limits, meta: Entries, answer: Answer)
    requires !Exceeds(|meta|, limits.entries) && !Acceptable(limits, meta) && MayAnswer(limits, meta, answer)
    ensures answer.Refused? && exists k :: Bad(limits, meta, k) &&
                                   EntryComplaint(limits, k, meta[k]) == Some(answer.why)
  {
    hide EntryComplaint, FirstComplaint, Fold, TrimEntry;
    var order :| Enumerates(order, meta.Keys) && AnswerIn(limits, meta, order) == answer;
    NoComplaintIff(limits, meta, order);
  }

  // ----- an accepted copy is in normal form -----

  ghost predicate Normal(limits: Limits, meta: Entries) {
    && Acceptable(limits, meta)
    && forall k :: k in meta ==> Trim(k) == k && Trim(meta[k]) == meta[k]
  }

  lemma {:induction false} FoldFits(rule: Rule, h: Entries, order: seq<string>)
    requires forall k :: k in order ==> k in h
    ensures |Fold(rule, h, order)| <= |order|
  {
    if order != [] {
      var n := |order| - 1;
      FoldFits(rule, h, order[..n]);
      var before := Fold(rule, h, order[..n]);
      var x := rule.keyOf(order[n]);
      assert before[x := rule.valueOf(h[order[n]])].Keys == before.Keys + {x};
    }
  }

  lemma {:induction false} EnumerationSize(order: seq<string>, keys: set<string>)
    requires Enumerates(order, keys)
    ensures |order| == |keys|
  {
    if order == [] {
      assert keys == {};
    } else {
      var n := |order| - 1;
      assert forall k :: k in order <==> k in order[..n] || k == order[n];
      EnumerationSize(order[..n], keys - {order[n]});
    }
  }

  /** The copy an accepted map yields has only trimmed keys and values and keeps every limit. */
  lemma AcceptedIsNormal(limits: Limits, meta: Entries, copy: Entries)
    requires MayAnswer(limits, meta, Accepted(copy))
    ensures Normal(limits, copy)
  {
    hide Fold, FirstComplaint, EntryComplaint, TrimEntry, Trim, Exceeds;
    DecisionIgnoresOrder(limits, meta, Accepted(copy));
    var order :| Enumerates(order, meta.Keys) && Fold(TrimEntry(), meta, order) == copy;
    FoldFits(TrimEntry(), meta, order);
    EnumerationSize(order, meta.Keys);
    SmallerFits(|copy|, |meta|, limits.entries);
    FoldFrom(TrimEntry(), meta, order);
    forall x | x in copy
      ensures Trim(x) == x && Trim(copy[x]) == copy[x] && !Bad(limits, copy, x)
    {
      assert Wrote(TrimEntry(), meta, order, x, copy[x]);
      var k :| k in order && Kept(TrimEntry(), meta, k) && TrimEntry().keyOf(k) == x
               && TrimEntry().valueOf(meta[k]) == copy[x];
      assert !Bad(limits, meta, k);
      TrimmedEntry(limits, k, meta[k]);
    }
  }

  lemma SmallerFits(n: nat, m: nat, limit: int)
    requires n <= m && !Exceeds(m, limit)
    ensures !Exceeds(n, limit)
  {
  }

  lemma EveryEntryKept(meta: Entries, k: string)
    requires k in meta
    ensures Kept(TrimEntry(), meta, k) && TrimEntry().keyOf(k) == Trim(k)
  {
    hide Trim;
  }

  lemma TrimmedEntry(limits: Limits, key: string, value: string)
    ensures var k, v := TrimEntry().keyOf(key), TrimEntry().valueOf(value);
            Trim(k) == k && Trim(v) == v && EntryComplaint(limits, k, v) == EntryComplaint(limits, key, value)
  {
    hide Trim;
    TrimTwice(key);
    TrimTwice(value);
  }

  lemma NormalCopy(limits: Limits, meta: Entries, order: seq<string>)
    requires Normal(limits, meta) && Enumerates(order, meta.Keys)
    ensures Fold(TrimEntry(), meta, order) == meta
  {
    hide Fold, EntryComplaint, Trim, Acceptable;
    FoldFrom(TrimEntry(), meta, order);
    var m := Fold(TrimEntry(), meta, order);
    forall x | x in m ensures x in meta && m[x] == meta[x] {
      assert Wrote(TrimEntry(), meta, order, x, m[x]);
    }
    forall x | x in meta ensures x in m {
      EveryEntryKept(meta, x);
      assert x in order;
    }
  }

  /** A map in normal form is accepted in every order, and the copy is the map itself. */
  lemma NormalIsKept(limits: Limits, meta: Entries)
    requires Normal(limits, meta)
    ensures forall answer :: MayAnswer(limits, meta, answer) <==> answer == Accepted(meta)
  {
    hide Fold, FirstComplaint, EntryComplaint, TrimEntry, Trim;
    forall order | Enumerates(order, meta.Keys)
      ensures AnswerIn(limits, meta, order) == Accepted(meta)
    {
      NoComplaintIff(limits, meta, order);
      NormalCopy(limits, meta, order);
    }
    var order := EnumerationExists(meta.Keys);
    assert AnswerIn(limits, meta, order) == Accepted(meta);
  }

  // ----- phone numbers -----

  /** A plus sign, a digit other than zero, and one to fourteen digits. */
  predicate IsE164(s: string) {
    3 <= |s| <= 16 && s[0] == '+' && s[1] != '0' && forall i :: 1 <= i < |s| ==> IsDigit(s[i])
  }

  /** `NormalizeE164`: nothing when the number is refused. */
  function NormalizeE164(value: string): (r: Option<string>)
    ensures r.Some? <==> IsE164(Trim(value))
    ensures r.Some? ==> r.value == Trim(value)
  {
    var trimmed := Trim(value);
    if trimmed == "" then None else if !IsE164(trimmed) then None else Some(trimmed)
  }

  datatype Phones = Phones(numbers: seq<string>) | TooFew | TooMany | BadPhone(index: nat)

  /** `NormalizeE164List`: the first number refused is the one reported. */
  method NormalizeE164List(values: seq<string>, min: int, max: int) returns (r: Phones)
    ensures r == TooFew <==> |values| < min
    ensures r == TooMany <==> |values| >= min && Exceeds(|values|, max)
    ensures r.Phones? ==> |r.numbers| == |values| && forall i :: 0 <= i < |values| ==>
              NormalizeE164(values[i]) == Some(r.numbers[i])
    ensures r.BadPhone? ==> r.index < |values| && NormalizeE164(values[r.index]) == None
                            && forall i :: 0 <= i < r.index ==> NormalizeE164(values[i]).Some?
  {
    hide Trim, NormalizeE164;
    var count := |values|;
    if min > 0 && count < min {
      return TooFew;
    }
    if max > 0 && count > max {
      return TooMany;
    }
    if count == 0 {
      return Phones([]);
    }
    var numbers: seq<string> := [];
    for i := 0 to count
      invariant |numbers| == i
      invariant forall j :: 0 <= j < i ==> NormalizeE164(values[j]) == Some(numbers[j])
    {
      var normalized := NormalizeE164(values[i]);
      if normalized.None? {
        return BadPhone(i);
      }
      numbers := numbers + [normalized.value];
    }
    r := Phones(numbers);
  }

  lemma PhoneStays(value: string)
    requires NormalizeE164(value).Some?
    ensures NormalizeE164(NormalizeE164(value).value) == NormalizeE164(value)
  {
    TrimTwice(value);
  }

  // ----- the conditions, spelt out -----

  /** A map is accepted just in case it has no more entries than the limit, and every key trims to
      something, within the limit for keys, with a value within the limit for values; a limit that is not
      positive does not count. */
  lemma AcceptableIff(limits: Limits, meta: Entries)
    ensures Acceptable(limits, meta) <==>
              && (limits.entries <= 0 || |meta| <= limits.entries)
              && forall k :: k in meta ==>
                   && Trim(k) != ""
                   && (limits.keyRunes <= 0 || |Trim(k)| <= limits.keyRunes)
                   && (limits.valueRunes <= 0 || |Trim(meta[k])| <= limits.valueRunes)
  {
    hide Trim;
    forall k | k in meta
      ensures !Bad(limits, meta, k) <==>
                && Trim(k) != ""
                && (limits.keyRunes <= 0 || |Trim(k)| <= limits.keyRunes)
                && (limits.valueRunes <= 0 || |Trim(meta[k])| <= limits.valueRunes)
    {
    }
  }

  /** An accepted copy holds, under each trimmed key, the trimmed value of an entry with that key, and a
      key for every entry. */
  lemma AcceptedCopies(limits: Limits, meta: Entries, copy: Entries)
    requires MayAnswer(limits, meta, Accepted(copy))
    ensures forall x :: x in copy ==> exists k :: k in meta && Trim(k) == x && Trim(meta[k]) == copy[x]
    ensures forall k :: k in meta ==> Trim(k) in copy
  {
    hide Fold, FirstComplaint, EntryComplaint, TrimEntry, Trim, Exceeds;
    DecisionIgnoresOrder(limits, meta, Accepted(copy));
    var order :| Enumerates(order, meta.Keys) && Fold(TrimEntry(), meta, order) == copy;
    FoldFrom(TrimEntry(), meta, order);
    forall x | x in copy ensures exists k :: k in meta && Trim(k) == x && Trim(meta[k]) == copy[x] {
      assert Wrote(TrimEntry(), meta, order, x, copy[x]);
      var k :| k in order && Kept(TrimEntry(), meta, k) && TrimEntry().keyOf(k) == x
               && TrimEntry().valueOf(meta[k]) == copy[x];
      EntryTrims(k, meta[k]);
    }
    forall k | k in meta ensures Trim(k) in copy {
      EveryEntryKept(meta, k);
      assert k in order;
    }
  }

  lemma EntryTrims(k: string, v: string)
    ensures TrimEntry().keyOf(k) == Trim(k) && TrimEntry().valueOf(v) == Trim(v)
  {
    hide Trim;
  }

  /** A number in E.164 form: a plus sign, a digit from one to nine, and one to fourteen more digits. */
  lemma E164Iff(s: string)
    ensures IsE164(s) <==> exists d, rest :: s == "+" + [d] + rest && d in "123456789" && 1 <= |rest| <= 14
                                             && forall i :: 0 <= i < |rest| ==> rest[i] in "0123456789"
  {
    if IsE164(s) {
      var d, rest := s[1], s[2..];
      assert s == "+" + [d] + rest;
      OneDigit(d);
      forall i | 0 <= i < |rest| ensures rest[i] in "0123456789" {
        assert rest[i] == s[i + 2];
        OneDigit(rest[i]);
      }
    }
    forall d, rest | s == "+" + [d] + rest && d in "123456789" && 1 <= |rest| <= 14
                     && forall i :: 0 <= i < |rest| ==> rest[i] in "0123456789"
      ensures IsE164(s)
    {
      OneDigit(d);
      forall i | 1 <= i < |s| ensures IsDigit(s[i]) {
        if i > 1 {
          assert s[i] == rest[i - 2];
          OneDigit(rest[i - 2]);
        }
      }
    }
  }

  lemma OneDigit(c: char)
    ensures IsDigit(c) <==> c in "0123456789"
    ensures IsDigit(c) && c != '0' <==> c in "123456789"
  {
    var all := "0123456789";
    var most := "123456789";
    assert IsDigit(c) ==> all[c as int - 48] == c;
    assert IsDigit(c) && c != '0' ==> most[c as int - 49] == c;
  }
}
