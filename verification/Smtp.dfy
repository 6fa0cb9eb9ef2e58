/** The SMTP message builder. */
module Smtp {
  import opened Text
  import opened Newlines
  import opened MapFold
  import opened HeaderText

  datatype Payload = Payload(headers: Entries, to: seq<string>, cc: seq<string>, subject: string,
                             messageId: string, bodyType: string, body: string)

  // ----- header names and values -----

  predicate IsTokenChar(c: char) {
    || '#' <= c <= '\'' || '^' <= c <= 'z' || 'A' <= c <= 'Z' || '0' <= c <= '9'
    || c == '!' || c == '*' || c == '+' || c == '-' || c == '.' || c == '|' || c == '~'
  }

  predicate IsToken(s: string) {
    s == [] || (IsTokenChar(s[0]) && IsToken(s[1..]))
  }

  function Upper(c: char): char {
    if 'a' <= c <= 'z' then (c as int - 32) as char else c
  }

  /** Capitals at the start (if `upper`) and after each hyphen, small letters elsewhere. */
  function Capitalised(s: string, upper: bool): string {
    if s == [] then [] else [if upper then Upper(s[0]) else Lower(s[0])] + Capitalised(s[1..], s[0] == '-')
  }

  /** `textproto.CanonicalMIMEHeaderKey`: a key with any other than token characters is left alone. */
  function Canonical(s: string): string {
    if IsToken(s) then Capitalised(s, true) else s
  }

  function SanitizeHeaderValue(value: string): string {
    Trim(ReplaceAll(ReplaceAll(value, "\r", " "), "\n", " "))
  }

  function ContentTypeFor(bodyType: string): string {
    if ToLower(Trim(bodyType)) == "html" then "text/html; charset=UTF-8" else "text/plain; charset=UTF-8"
  }

  /** The characters of a token: letters, digits, and fifteen others (section 3.2.6 of RFC 7230). */
  lemma TokenTable(c: char)
    ensures IsTokenChar(c) <==> 'a' <= c <= 'z' || 'A' <= c <= 'Z' || '0' <= c <= '9' || c in "!#$%&'*+-.^_`|~"
  {
    var others := "!#$%&'*+-.^_`|~";
    assert others[0] == '!' && others[1] == '#' && others[2] == '$' && others[3] == '%' && others[4] == '&';
    assert others[5] == '\'' && others[6] == '*' && others[7] == '+' && others[8] == '-' && others[9] == '.';
    assert others[10] == '^' && others[11] == '_' && others[12] == '`' && others[13] == '|' && others[14] == '~';
  }

  /** The loop over the payload's own headers: blank names and values are dropped. */
  function HeaderRule(): Rule {
    Rule((k, v) => Canonical(Trim(k)) != "" && Trim(v) != "", k => Canonical(Trim(k)), v => SanitizeHeaderValue(v))
  }

  /** The header map after the sender's and the recipients' headers are set or removed. */
  function Addressed(m: Entries, p: Payload, from: string): Entries {
    var m1 := m["From" := from];
    var m2 := if p.to != [] then m1["To" := Join(p.to, ", ")] else m1;
    var m3 := if p.cc != [] then m2["Cc" := Join(p.cc, ", ")] else m2 - {"Cc"};
    m3 - {"Bcc"}
  }

  /** And after the rest: an own date and an own message id win over the builder's. */
  function Described(m: Entries, p: Payload, date: string): Entries {
    var m1 := if "Date" in m then m else m["Date" := date];
    var m2 := if p.subject != "" then m1["Subject" := SanitizeHeaderValue(p.subject)] else m1;
    var m3 := if p.messageId != "" && "Message-Id" !in m2 then
        m2["Message-Id" := SanitizeHeaderValue(p.messageId)] else m2;
    m3["MIME-Version" := "1.0"]["Content-Type" := ContentTypeFor(p.bodyType)]
  }

  function FinalHeaders(m: Entries, p: Payload, from: string, date: string): Entries {
    Described(Addressed(m, p, from), p, date)
  }

  // ----- sorting the names -----

  /** `sort.Strings` order: by code, a proper prefix first. */
  predicate LexLess(a: string, b: string) {
    if b == [] then false
    else if a == [] then true
    else a[0] < b[0] || (a[0] == b[0] && LexLess(a[1..], b[1..]))
  }

  ghost predicate Ascending(ks: seq<string>) {
    forall i, j :: 0 <= i < j < |ks| ==> LexLess(ks[i], ks[j])
  }

  ghost predicate Sorts(ks: seq<string>, keys: set<string>) {
    Ascending(ks) && forall k :: k in ks <==> k in keys
  }

  function InsertKey(ks: seq<string>, k: string): seq<string> {
    if ks == [] then [k]
    else if LexLess(ks[0], k) then [ks[0]] + InsertKey(ks[1..], k)
    else [k] + ks
  }

  /** The order is decided at the first place where two names differ, or by their lengths. */
  lemma {:induction false} LexLessIff(a: string, b: string)
    ensures LexLess(a, b) <==> exists n: nat :: DecidesAt(a, b, n)
  {
    if b == [] {
    } else if a == [] {
      assert DecidesAt(a, b, 0);
    } else if a[0] < b[0] {
      assert DecidesAt(a, b, 0);
    } else if a[0] == b[0] {
      LexLessIff(a[1..], b[1..]);
      if n: nat :| DecidesAt(a[1..], b[1..], n) {
        assert a[..n + 1] == [a[0]] + a[1..][..n] && b[..n + 1] == [b[0]] + b[1..][..n];
        assert DecidesAt(a, b, n + 1);
      }
      if n: nat :| DecidesAt(a, b, n) {
        assert n > 0;
        assert a[1..][..n - 1] == a[..n][1..] && b[1..][..n - 1] == b[..n][1..];
        assert DecidesAt(a[1..], b[1..], n - 1);
      }
    } else {
      forall n: nat ensures !DecidesAt(a, b, n) {
        FirstDiffers(a, b, n);
      }
    }
  }

  lemma FirstDiffers(a: string, b: string, n: nat)
    requires a != [] && b != [] && a[0] > b[0]
    ensures !DecidesAt(a, b, n)
  {
    assert 0 < n <= |a| && n <= |b| ==> a[..n][0] == a[0] && b[..n][0] == b[0];
  }

  /** a and b agree on their first n characters, and then a ends, or its next one is less than b's. */
  predicate DecidesAt(a: string, b: string, n: nat) {
    n <= |a| && n < |b| && a[..n] == b[..n] && (n == |a| || a[n] < b[n])
  }

  lemma {:induction false} LexTransitive(a: string, b: string, c: string)
    requires LexLess(a, b) && LexLess(b, c)
    ensures LexLess(a, c)
  {
    if a != [] && a[0] == b[0] && b[0] == c[0] {
      LexTransitive(a[1..], b[1..], c[1..]);
    }
  }

  lemma {:induction false} LexTotal(a: string, b: string)
    ensures a == b || LexLess(a, b) || LexLess(b, a)
    ensures !(LexLess(a, b) && LexLess(b, a)) && !LexLess(a, a)
  {
    if a != [] {
      LexTotal(a[1..], a[1..]);
    }
    if a != [] && b != [] && a[0] == b[0] {
      LexTotal(a[1..], b[1..]);
      assert a[1..] == b[1..] ==> a == [a[0]] + a[1..] == b;
    }
  }

  lemma {:induction false} InsertSorts(ks: seq<string>, k: string)
    requires Ascending(ks) && k !in ks
    ensures Ascending(InsertKey(ks, k))
    ensures forall x :: x in InsertKey(ks, k) <==> x == k || x in ks
  {
    if ks != [] {
      var tail := ks[1..];
      assert forall x :: x in ks <==> x == ks[0] || x in tail;
      if LexLess(ks[0], k) {
        InsertSorts(tail, k);
        var r := InsertKey(tail, k);
        forall j | 0 <= j < |r| ensures LexLess(ks[0], r[j]) {
          assert r[j] in r;
          if r[j] != k {
            var n :| 0 <= n < |tail| && tail[n] == r[j];
            assert LexLess(ks[0], ks[n + 1]);
          }
        }
      } else {
        LexTotal(ks[0], k);
        forall j | 0 <= j < |ks| ensures LexLess(k, ks[j]) {
          if j > 0 {
            LexTransitive(k, ks[0], ks[j]);
          }
        }
      }
    }
  }

  /** A set of names has only one ascending listing. */
  lemma {:induction false} SortsUnique(a: seq<string>, b: seq<string>, keys: set<string>)
    requires Sorts(a, keys) && Sorts(b, keys)
    ensures a == b
    decreases |a|
  {
    EmptyIff(a, keys);
    EmptyIff(b, keys);
    if a != [] {
      HeadsEqual(a, b, keys);
      var rest := keys - {a[0]};
      TailSorts(a, keys);
      TailSorts(b, keys);
      SortsUnique(a[1..], b[1..], rest);
      assert a == [a[0]] + a[1..] && b == [b[0]] + b[1..];
    }
  }

  lemma EmptyIff(a: seq<string>, keys: set<string>)
    requires Sorts(a, keys)
    ensures a == [] <==> keys == {}
  {
    if a != [] {
      assert a[0] in a;
    }
  }

  lemma HeadsEqual(a: seq<string>, b: seq<string>, keys: set<string>)
    requires Sorts(a, keys) && Sorts(b, keys) && a != [] && b != []
    ensures a[0] == b[0]
  {
    assert a[0] in a && b[0] in b;
    var i :| 0 <= i < |b| && b[i] == a[0];
    var j :| 0 <= j < |a| && a[j] == b[0];
    LexTotal(a[0], b[0]);
  }

  lemma TailSorts(a: seq<string>, keys: set<string>)
    requires Sorts(a, keys) && a != []
    ensures Sorts(a[1..], keys - {a[0]})
  {
    forall n | 0 <= n < |a| - 1 ensures a[1..][n] != a[0] {
      assert LexLess(a[0], a[n + 1]);
      LexTotal(a[0], a[0]);
    }
    forall k ensures k in a[1..] <==> k in keys - {a[0]} {
      assert k in a <==> k == a[0] || k in a[1..];
    }
  }

  // ----- the message -----

  /** The non-empty headers of the map, in the order of the names given. */
  function FieldsOf(m: Entries, ks: seq<string>): seq<Field>
    requires forall k :: k in ks ==> k in m
  {
    if ks == [] then []
    else (if m[ks[0]] == "" then [] else [Field(ks[0], m[ks[0]])]) + FieldsOf(m, ks[1..])
  }

  /** What `buildMessage` may return when its header loop leaves m. */
  ghost predicate Renders(p: Payload, from: string, date: string, m: Entries, out: string) {
    var final := FinalHeaders(m, p, from, date);
    exists ks :: Sorts(ks, final.Keys) && out == Print(FieldsOf(final, ks), NormalizeBody(p.body))
  }

  /** The loop over the payload's headers, in an order of the map's choosing. */
  method FoldHeaders(h: Entries) returns (m: Entries)
    ensures FoldsTo(HeaderRule(), h, m)
  {
    hide Canonical, Trim, SanitizeHeaderValue, Fold, Enumerates, HeaderRule;
    m := map[];
    var left := h.Keys;
    ghost var order: seq<string> := [];
    StartsEnumerating(h);
    while left != {}
      invariant left <= h.Keys && Enumerates(order, h.Keys - left)
      invariant forall k :: k in order ==> k in h
      invariant m == Fold(HeaderRule(), h, order)
      decreases left
    {
      var k :| k in left;
      EnumerateNext(order, h.Keys - left, k);
      FoldNext(HeaderRule(), h, order, k);
      HeaderRuleOn(k, h[k]);
      order := order + [k];
      assert h.Keys - left + {k} == h.Keys - (left - {k});
      left := left - {k};
      var canonical := Canonical(Trim(k));
      if canonical == "" || Trim(h[k]) == "" {
        continue;
      }
      m := m[canonical := SanitizeHeaderValue(h[k])];
    }
    assert h.Keys - left == h.Keys;
  }

  /** What the rule says of one entry. */
  lemma HeaderRuleOn(k: string, v: string)
    ensures HeaderRule().keep(k, v) <==> Canonical(Trim(k)) != "" && Trim(v) != ""
    ensures HeaderRule().keyOf(k) == Canonical(Trim(k)) && HeaderRule().valueOf(v) == SanitizeHeaderValue(v)
  {
    hide Canonical, Trim, SanitizeHeaderValue;
  }

  lemma StartsEnumerating(h: Entries)
    ensures Enumerates([], h.Keys - h.Keys) && Fold(HeaderRule(), h, []) == map[]
  {
  }

  /** The names of the map, sorted. */
  method SortedNames(m: Entries) returns (ks: seq<string>)
    ensures Sorts(ks, m.Keys)
  {
    ks := [];
    var left := m.Keys;
    while left != {}
      invariant left <= m.Keys && Sorts(ks, m.Keys - left)
      decreases left
    {
      var k :| k in left;
      left := left - {k};
      InsertSorts(ks, k);
      ks := InsertKey(ks, k);
    }
    assert m.Keys - left == m.Keys;
  }

  /** The fixed headers, set step by step. */
  method SetFixedHeaders(m: Entries, p: Payload, from: string, date: string) returns (headers: Entries)
    ensures headers == FinalHeaders(m, p, from, date)
  {
    hide Join, SanitizeHeaderValue, ContentTypeFor;
    headers := m["From" := from];
    if |p.to| > 0 {
      headers := headers["To" := Join(p.to, ", ")];
    }
    if |p.cc| > 0 {
      headers := headers["Cc" := Join(p.cc, ", ")];
    } else {
      headers := headers - {"Cc"};
    }
    headers := headers - {"Bcc"};
    if "Date" !in headers {
      headers := headers["Date" := date];
    }
    if p.subject != "" {
      headers := headers["Subject" := SanitizeHeaderValue(p.subject)];
    }
    if p.messageId != "" {
      if "Message-Id" !in headers {
        headers := headers["Message-Id" := SanitizeHeaderValue(p.messageId)];
      }
    }
    headers := headers["MIME-Version" := "1.0"];
    headers := headers["Content-Type" := ContentTypeFor(p.bodyType)];
  }

  /** The header section, one field after the other. */
  method RenderHeaders(headers: Entries, keys: seq<string>) returns (buf: string)
    requires forall k :: k in keys ==> k in headers
    ensures buf == PrintFields(FieldsOf(headers, keys))
  {
    hide FieldsOf, PrintFields;
    buf := "";
    PrintNone(headers);
    assert keys[0..] == keys;
    for i := 0 to |keys|
      invariant buf + PrintFields(FieldsOf(headers, keys[i..])) == PrintFields(FieldsOf(headers, keys))
    {
      var value := headers[keys[i]];
      PrintStep(headers, keys, i);
      if value == "" {
        continue;
      }
      buf := buf + (keys[i] + ": " + value + "\r\n");
    }
    assert keys[|keys|..] == [];
  }

  lemma PrintNone(headers: Entries)
    ensures PrintFields(FieldsOf(headers, [])) == ""
  {
  }

  /** What name i adds to the header section. */
  lemma PrintStep(headers: Entries, keys: seq<string>, i: nat)
    requires i < |keys| && forall k :: k in keys ==> k in headers
    ensures PrintFields(FieldsOf(headers, keys[i..]))
         == (if headers[keys[i]] == "" then "" else PrintField(Field(keys[i], headers[keys[i]])))
            + PrintFields(FieldsOf(headers, keys[i + 1..]))
  {
    assert keys[i..][1..] == keys[i + 1..];
    var tail := FieldsOf(headers, keys[i + 1..]);
    if headers[keys[i]] == "" {
      assert [] + tail == tail;
    } else {
      PrintHead(Field(keys[i], headers[keys[i]]), tail);
    }
  }

  /** A message some iteration order of the payload's headers leads to. */
  ghost predicate Builds(p: Payload, from: string, date: string, out: string) {
    exists m :: FoldsTo(HeaderRule(), p.headers, m) && Renders(p, from, date, m, out)
  }

  /** `buildMessage`, at the time written as `date`. */
  method BuildMessage(p: Payload, from: string, date: string) returns (out: string)
    ensures Builds(p, from, date, out)
  {
    hide FinalHeaders, FieldsOf, NormalizeBody, FoldsTo, HeaderRule, Sorts;
    var folded := FoldHeaders(p.headers);
    var headers := SetFixedHeaders(folded, p, from, date);
    var keys := SortedNames(headers);
    SortedAreKeys(keys, headers.Keys);
    var buf := RenderHeaders(headers, keys);
    out := buf + "\r\n" + NormalizeBody(p.body);
    assert Renders(p, from, date, folded, out);
  }

  lemma SortedAreKeys(ks: seq<string>, keys: set<string>)
    requires Sorts(ks, keys)
    ensures forall k :: k in ks ==> k in keys
  {
  }

  lemma PrintHead(f: Field, fs: seq<Field>)
    ensures PrintFields([f] + fs) == PrintField(f) + PrintFields(fs)
  {
    assert ([f] + fs)[1..] == fs;
  }
}
