/** What a reader of the built message gets back, and what the order of the header map can change. */
module SmtpProperties {
  import opened Text
  import opened Newlines
  import opened MapFold
  import opened Options
  import opened HeaderText
  import opened Smtp

  // ----- where the final headers come from -----

  /** Names whose value in the payload's own headers never survives. */
  function Overwritten(p: Payload): set<string> {
    {"From", "Cc", "Bcc", "MIME-Version", "Content-Type"}
    + (if p.to != [] then {"To"} else {}) + (if p.subject != "" then {"Subject"} else {})
  }

  /** A header the builder sets itself. */
  predicate IsFixed(p: Payload, from: string, date: string, k: string, v: string) {
    || (k == "From" && v == from)
    || (k == "To" && p.to != [] && v == Join(p.to, ", "))
    || (k == "Cc" && p.cc != [] && v == Join(p.cc, ", "))
    || (k == "Date" && v == date)
    || (k == "Subject" && v == SanitizeHeaderValue(p.subject))
    || (k == "Message-Id" && v == SanitizeHeaderValue(p.messageId))
    || (k == "MIME-Version" && v == "1.0")
    || (k == "Content-Type" && v == ContentTypeFor(p.bodyType))
  }

  predicate Origin(m: Entries, p: Payload, from: string, date: string, k: string, v: string) {
    (k in m && k !in Overwritten(p) && v == m[k]) || IsFixed(p, from, date, k, v)
  }

  lemma FinalOrigin(m: Entries, p: Payload, from: string, date: string, k: string)
    requires k in FinalHeaders(m, p, from, date)
    ensures Origin(m, p, from, date, k, FinalHeaders(m, p, from, date)[k])
  {
    hide Join, SanitizeHeaderValue, ContentTypeFor;
  }

  /** The value each header should have, name by name: what the message says of it, or the
      payload's own header where the builder leaves that alone. */
  function HeaderValue(m: Entries, p: Payload, from: string, date: string, k: string): Option<string> {
    var own := if k in m then Some(m[k]) else None;
    if k == "From" then Some(from)
    else if k == "To" then (if p.to != [] then Some(Join(p.to, ", ")) else own)
    else if k == "Cc" then (if p.cc != [] then Some(Join(p.cc, ", ")) else None)
    else if k == "Bcc" then None
    else if k == "Date" then (if own.Some? then own else Some(date))
    else if k == "Subject" then (if p.subject != "" then Some(SanitizeHeaderValue(p.subject)) else own)
    else if k == "Message-Id" then
        (if own.Some? || p.messageId == "" then own else Some(SanitizeHeaderValue(p.messageId)))
    else if k == "MIME-Version" then Some("1.0")
    else if k == "Content-Type" then
      Some(if ToLower(Trim(p.bodyType)) == "html" then "text/html; charset=UTF-8" else "text/plain; charset=UTF-8")
    else own
  }

  function At(m: Entries, k: string): Option<string> {
    if k in m then Some(m[k]) else None
  }

  lemma AddressedAt(m: Entries, p: Payload, from: string, k: string)
    ensures At(Addressed(m, p, from), k) ==
              if k == "From" then Some(from)
              else if k == "To" && p.to != [] then Some(Join(p.to, ", "))
              else if k == "Cc" then (if p.cc != [] then Some(Join(p.cc, ", ")) else None)
              else if k == "Bcc" then None
              else At(m, k)
  {
    hide Join;
  }

  lemma DescribedAt(m: Entries, p: Payload, date: string, k: string)
    ensures At(Described(m, p, date), k) ==
              if k == "Date" && k !in m then Some(date)
              else if k == "Subject" && p.subject != "" then Some(SanitizeHeaderValue(p.subject))
              else if k == "Message-Id" && k !in m && p.messageId != "" then Some(SanitizeHeaderValue(p.messageId))
              else if k == "MIME-Version" then Some("1.0")
              else if k == "Content-Type" then Some(ContentTypeFor(p.bodyType))
              else At(m, k)
  {
    hide SanitizeHeaderValue, ContentTypeFor;
  }

  /** The sequence of assignments and deletions leaves exactly those values. */
  lemma FinalTable(m: Entries, p: Payload, from: string, date: string, k: string)
    ensures At(FinalHeaders(m, p, from, date), k) == HeaderValue(m, p, from, date, k)
  {
    hide Addressed, Described, Join, SanitizeHeaderValue, ToLower, Trim;
    AddressedAt(m, p, from, k);
    DescribedAt(Addressed(m, p, from), p, date, k);
  }

  predicate Holds(final: Entries, k: string, v: string) {
    k in final && final[k] == v
  }

  lemma FinalKeeps(m: Entries, p: Payload, from: string, date: string, k: string)
    requires k in m && k !in Overwritten(p)
    ensures Holds(FinalHeaders(m, p, from, date), k, m[k])
  {
    hide Join, SanitizeHeaderValue, ContentTypeFor;
  }

  lemma FinalAddresses(m: Entries, p: Payload, from: string, date: string)
    ensures Holds(FinalHeaders(m, p, from, date), "From", from)
    ensures p.to != [] ==> Holds(FinalHeaders(m, p, from, date), "To", Join(p.to, ", "))
    ensures p.cc != [] ==> Holds(FinalHeaders(m, p, from, date), "Cc", Join(p.cc, ", "))
  {
    hide Join, SanitizeHeaderValue, ContentTypeFor;
  }

  lemma {:induction false} FieldsMember(m: Entries, ks: seq<string>, f: Field)
    requires forall k :: k in ks ==> k in m
    ensures f in FieldsOf(m, ks) <==> f.name in ks && f.value == m[f.name] && f.value != ""
  {
    if ks != [] {
      FieldsMember(m, ks[1..], f);
      assert f.name in ks <==> f.name == ks[0] || f.name in ks[1..];
    }
  }

  // ----- breaks and colons through the helpers -----

  lemma {:induction false} ReplaceOne(s: string, x: char, y: char)
    ensures |ReplaceAll(s, [x], [y])| == |s|
    ensures forall i :: 0 <= i < |s| ==> ReplaceAll(s, [x], [y])[i] == if s[i] == x then y else s[i]
  {
    if s != [] {
      ReplaceOne(s[1..], x, y);
      assert [s[0]] + s[1..] == s;
      ReplaceHead(s[0], s[1..], x, [y]);
    }
  }

  /** A sanitised value has no break, and is empty only if the value was blank. */
  lemma SanitizedIsClean(v: string)
    ensures Unbroken(SanitizeHeaderValue(v))
    ensures Trim(v) != "" ==> SanitizeHeaderValue(v) != ""
  {
    var noCr := ReplaceAll(v, "\r", " ");
    var flat := ReplaceAll(noCr, "\n", " ");
    ReplaceOne(v, '\r', ' ');
    ReplaceOne(noCr, '\n', ' ');
    var i, j := TrimIsSlice(flat);
    forall k | i <= k < j ensures flat[k] != '\r' && flat[k] != '\n' {
    }
    if Trim(v) != "" {
      var a, b := TrimIsSlice(v);
      assert !IsSpace(v[a..b][0]) && v[a..b][0] == v[a];
      assert flat[a] == v[a];
      assert !(a < i) && !(j <= a);
    }
  }

  /** Sanitising puts a space for each CR and LF and trims; a clean, trimmed value stays. */
  lemma SanitizedIs(v: string)
    ensures SanitizeHeaderValue(v) == Trim(Flattened(v))
    ensures Unbroken(v) && IsTrimmed(v) ==> SanitizeHeaderValue(v) == v
  {
    hide Trim;
    var noCr := ReplaceAll(v, "\r", " ");
    ReplaceOne(v, '\r', ' ');
    ReplaceOne(noCr, '\n', ' ');
    assert ReplaceAll(noCr, "\n", " ") == Flattened(v);
    if Unbroken(v) && IsTrimmed(v) {
      forall i | 0 <= i < |v| ensures Flattened(v)[i] == v[i] {
        assert v[i] in v;
      }
      assert Flattened(v) == v;
      TrimmedStays(v);
    }
  }

  function Flattened(v: string): (r: string)
    ensures |r| == |v| && forall i :: 0 <= i < |v| ==> r[i] == if v[i] == '\r' || v[i] == '\n' then ' ' else v[i]
  {
    seq(|v|, i requires 0 <= i < |v| => if v[i] == '\r' || v[i] == '\n' then ' ' else v[i])
  }

  lemma UnbrokenConcat(a: string, b: string)
    ensures Unbroken(a + b) <==> Unbroken(a) && Unbroken(b)
  {
    assert forall c :: c in a + b <==> c in a || c in b;
  }

  lemma {:induction false} JoinUnbroken(parts: seq<string>)
    ensures Unbroken(Join(parts, ", ")) <==> forall a :: a in parts ==> Unbroken(a)
  {
    if |parts| == 1 {
      assert forall a :: a in parts <==> a == parts[0];
    } else if |parts| > 1 {
      JoinUnbroken(parts[1..]);
      UnbrokenConcat(parts[0] + ", ", Join(parts[1..], ", "));
      UnbrokenConcat(parts[0], ", ");
      assert forall a :: a in parts <==> a == parts[0] || a in parts[1..];
    }
  }

  lemma {:induction false} TokensAreClean(s: string, upper: bool)
    requires IsToken(s)
    ensures CleanName(s) && CleanName(Capitalised(s, upper))
    ensures s != "" ==> Capitalised(s, upper) != "" && !IsWsp(Capitalised(s, upper)[0])
  {
    if s != [] {
      TokensAreClean(s[1..], s[0] == '-');
      assert s == [s[0]] + s[1..];
    }
  }

  /** Canonicalising neither adds nor removes a colon or a break, and keeps a blank from coming
      first. */
  lemma CanonicalKeeps(s: string)
    ensures CleanName(Canonical(s)) <==> CleanName(s)
    ensures Canonical(s) == "" <==> s == ""
    ensures s != "" && !IsSpace(s[0]) ==> Canonical(s) != "" && !IsWsp(Canonical(s)[0])
  {
    if IsToken(s) {
      TokensAreClean(s, true);
    }
  }

  // ----- print, then read -----

  ghost predicate CleanMap(final: Entries) {
    forall k :: k in final && final[k] != "" ==> Clean(Field(k, final[k]))
  }

  ghost predicate NamesOk(final: Entries) {
    forall k :: k in final && k != "" ==> !IsWsp(k[0])
  }

  /** What the reader should get from a message with these final headers and this body. */
  ghost predicate ReadsBack(final: Entries, body: string, out: string) {
    exists ks :: Sorts(ks, final.Keys) && Read(out) == Message(FieldsOf(final, ks), NormalizeBody(body))
  }

  lemma FieldsClean(final: Entries, ks: seq<string>)
    requires Sorts(ks, final.Keys)
    ensures (forall f :: f in FieldsOf(final, ks) ==> Clean(f)) <==> CleanMap(final)
    ensures NamesOk(final) ==> forall f :: f in FieldsOf(final, ks) && f.name != [] ==> !IsWsp(f.name[0])
  {
    hide Clean, FieldsOf, IsWsp, Ascending;
    forall f ensures f in FieldsOf(final, ks) <==> f.name in ks && f.value == final[f.name] && f.value != "" {
      FieldsMember(final, ks, f);
    }
    forall k | k in final && final[k] != "" && (forall f :: f in FieldsOf(final, ks) ==> Clean(f))
      ensures Clean(Field(k, final[k]))
    {
      assert Field(k, final[k]) in FieldsOf(final, ks);
    }
  }

  lemma ReadsBackIff(final: Entries, body: string, out: string, ks: seq<string>)
    requires NamesOk(final) && Sorts(ks, final.Keys) && out == Print(FieldsOf(final, ks), NormalizeBody(body))
    ensures ReadsBack(final, body, out) <==> CleanMap(final)
  {
    hide CleanMap, NamesOk, Ascending, FieldsOf, Print, Read, NormalizeBody, Clean;
    FieldsClean(final, ks);
    PrintReadIff(FieldsOf(final, ks), NormalizeBody(body));
    if ReadsBack(final, body, out) {
      var ks' :| Sorts(ks', final.Keys) && Read(out) == Message(FieldsOf(final, ks'), NormalizeBody(body));
      SortsUnique(ks, ks', final.Keys);
    }
  }

  // ----- the caller's side -----

  ghost predicate KeptName(p: Payload, k: string) {
    Kept(HeaderRule(), p.headers, k)
  }

  /** No kept header name has a colon, CR or LF, and no address has a CR or LF. */
  ghost predicate Sendable(p: Payload, from: string) {
    && (forall k :: KeptName(p, k) ==> CleanName(Trim(k)))
    && Unbroken(from)
    && (forall a :: a in p.to ==> Unbroken(a))
    && (forall a :: a in p.cc ==> Unbroken(a))
  }

  /** An entry of the header loop's map, traced to the payload. */
  ghost predicate FromHeader(p: Payload, k: string, x: string, v: string) {
    KeptName(p, k) && x == Canonical(Trim(k)) && v == SanitizeHeaderValue(p.headers[k])
  }

  lemma LoopEntry(p: Payload, m: Entries, x: string) returns (k: string)
    requires FoldsTo(HeaderRule(), p.headers, m) && x in m
    ensures FromHeader(p, k, x, m[x])
  {
    hide Canonical, Trim, SanitizeHeaderValue, HeaderRule;
    var order :| Enumerates(order, p.headers.Keys) && Fold(HeaderRule(), p.headers, order) == m;
    FoldFrom(HeaderRule(), p.headers, order);
    k :| k in order && Kept(HeaderRule(), p.headers, k) && HeaderRule().keyOf(k) == x
         && m[x] == HeaderRule().valueOf(p.headers[k]);
    HeaderRuleOn(k, p.headers[k]);
  }

  lemma LoopStores(p: Payload, m: Entries, k: string)
    requires FoldsTo(HeaderRule(), p.headers, m) && KeptName(p, k)
    ensures Canonical(Trim(k)) in m
  {
    hide Canonical, Trim, SanitizeHeaderValue, HeaderRule;
    var order :| Enumerates(order, p.headers.Keys) && Fold(HeaderRule(), p.headers, order) == m;
    FoldFrom(HeaderRule(), p.headers, order);
    assert k in order;
    HeaderRuleOn(k, p.headers[k]);
  }

  predicate GoodStart(s: string) {
    s != "" && !IsWsp(s[0])
  }

  lemma CanonicalTrim(k: string)
    requires Canonical(Trim(k)) != ""
    ensures GoodStart(Canonical(Trim(k)))
    ensures CleanName(Canonical(Trim(k))) <==> CleanName(Trim(k))
  {
    hide IsSpace, IsWsp, Canonical, CleanName, Trim;
    TrimTwice(k);
    CanonicalKeeps(Trim(k));
  }

  /** A kept name is not blank and does not start with space; its value is clean and not empty. */
  lemma KeptEntry(p: Payload, k: string, x: string, v: string)
    requires FromHeader(p, k, x, v)
    ensures GoodStart(x) && v != "" && Unbroken(v)
    ensures CleanName(x) <==> CleanName(Trim(k))
  {
    hide SanitizeHeaderValue, Canonical, CleanName, GoodStart, Trim, Unbroken, HeaderRule;
    HeaderRuleOn(k, p.headers[k]);
    CanonicalTrim(k);
    SanitizedIsClean(p.headers[k]);
  }

  lemma ShortNames()
    ensures CleanName("From") && CleanName("To") && CleanName("Cc") && CleanName("Bcc") && CleanName("Date")
  {
  }

  lemma SubjectName()
    ensures CleanName("Subject")
  {
  }

  lemma MessageIdName()
    ensures CleanName("Message-Id")
  {
  }

  lemma MimeVersionName()
    ensures CleanName("MIME-Version")
  {
  }

  lemma ContentTypeName()
    ensures CleanName("Content-Type")
  {
  }

  lemma FixedNames()
    ensures CleanName("From") && CleanName("To") && CleanName("Cc") && CleanName("Bcc") && CleanName("Date")
    ensures CleanName("Subject") && CleanName("Message-Id")
    ensures CleanName("MIME-Version") && CleanName("Content-Type")
  {
    hide CleanName;
    ShortNames();
    SubjectName();
    MessageIdName();
    MimeVersionName();
    ContentTypeName();
  }

  lemma FixedValues(bodyType: string)
    ensures Unbroken("1.0") && Unbroken(ContentTypeFor(bodyType))
  {
    hide ToLower, Trim;
  }

  lemma FixedStarts(p: Payload, from: string, date: string, k: string, v: string)
    requires IsFixed(p, from, date, k, v)
    ensures GoodStart(k) && CleanName(k)
  {
    hide Join, SanitizeHeaderValue, ContentTypeFor, CleanName;
    FixedNames();
  }

  lemma FixedIsUnbroken(p: Payload, from: string, date: string, k: string, v: string)
    requires IsFixed(p, from, date, k, v) && Unbroken(date) && Sendable(p, from)
    ensures Unbroken(v)
  {
    hide Join, SanitizeHeaderValue, ContentTypeFor, Unbroken, KeptName, Trim;
    JoinUnbroken(p.to);
    JoinUnbroken(p.cc);
    SanitizedIsClean(p.subject);
    SanitizedIsClean(p.messageId);
    FixedValues(p.bodyType);
  }

  lemma OriginIsFine(p: Payload, from: string, date: string, m: Entries, k: string, v: string)
    requires FoldsTo(HeaderRule(), p.headers, m) && Unbroken(date) && Origin(m, p, from, date, k, v)
    ensures GoodStart(k)
    ensures Sendable(p, from) ==> Clean(Field(k, v))
  {
    hide FoldsTo, HeaderRule, Overwritten, IsFixed,
        KeptName, CleanName, Unbroken, Trim, GoodStart, Canonical, SanitizeHeaderValue;
    if IsFixed(p, from, date, k, v) {
      FixedStarts(p, from, date, k, v);
      if Sendable(p, from) {
        FixedIsUnbroken(p, from, date, k, v);
      }
    } else {
      var h := LoopEntry(p, m, k);
      KeptEntry(p, h, k, v);
      assert KeptName(p, h);
    }
  }

  /** An unclean, non-empty header. */
  ghost predicate BadEntry(final: Entries, k: string) {
    k in final && final[k] != "" && !Clean(Field(k, final[k]))
  }

  /** A payload that is not sendable puts one into the message. */
  lemma BadField(p: Payload, from: string, date: string, m: Entries) returns (k: string)
    requires FoldsTo(HeaderRule(), p.headers, m) && !Sendable(p, from)
    ensures BadEntry(FinalHeaders(m, p, from, date), k)
  {
    hide FinalHeaders, Trim, Join, FoldsTo, HeaderRule, KeptName, CleanName;
    FinalAddresses(m, p, from, date);
    JoinUnbroken(p.to);
    JoinUnbroken(p.cc);
    if !Unbroken(from) {
      k := "From";
    } else if a :| a in p.to && !Unbroken(a) {
      k := "To";
    } else if a :| a in p.cc && !Unbroken(a) {
      k := "Cc";
    } else {
      var h :| KeptName(p, h) && !CleanName(Trim(h));
      k := BadName(p, from, date, m, h);
    }
  }

  lemma BadName(p: Payload, from: string, date: string, m: Entries, h: string) returns (k: string)
    requires FoldsTo(HeaderRule(), p.headers, m) && KeptName(p, h) && !CleanName(Trim(h))
    ensures BadEntry(FinalHeaders(m, p, from, date), k)
  {
    hide FinalHeaders, Trim, Canonical, SanitizeHeaderValue, FoldsTo, HeaderRule, CleanName, GoodStart, Overwritten;
    k := Canonical(Trim(h));
    LoopStores(p, m, h);
    KeptEntry(p, h, k, SanitizeHeaderValue(HeaderAt(p, h)));
    var h' := LoopEntry(p, m, k);
    KeptEntry(p, h', k, m[k]);
    OverwrittenAreClean(p, k);
    FinalKeeps(m, p, from, date, k);
  }

  function HeaderAt(p: Payload, k: string): string {
    if k in p.headers then p.headers[k] else ""
  }

  lemma OverwrittenAreClean(p: Payload, x: string)
    ensures x in Overwritten(p) ==> CleanName(x)
  {
    hide CleanName;
    FixedNames();
  }

  lemma FinalCleanIff(p: Payload, from: string, date: string, m: Entries)
    requires FoldsTo(HeaderRule(), p.headers, m) && Unbroken(date)
    ensures NamesOk(FinalHeaders(m, p, from, date))
    ensures CleanMap(FinalHeaders(m, p, from, date)) <==> Sendable(p, from)
  {
    hide FinalHeaders, FoldsTo, HeaderRule, Sendable, Clean, Origin, Unbroken;
    var final := FinalHeaders(m, p, from, date);
    forall k | k in final
      ensures GoodStart(k) && (Sendable(p, from) ==> Clean(Field(k, final[k])))
    {
      FinalOrigin(m, p, from, date, k);
      OriginIsFine(p, from, date, m, k, final[k]);
    }
    if !Sendable(p, from) {
      var k := BadField(p, from, date, m);
      assert BadEntry(final, k);
    }
  }

  /** A built message, read back, gives exactly its non-empty final headers in sorted order and its
      normalised body if and only if no kept header name has a colon, CR or LF and no address has a
      CR or LF. */
  lemma MessageReadsIff(p: Payload, from: string, date: string, m: Entries, out: string)
    requires FoldsTo(HeaderRule(), p.headers, m) && Renders(p, from, date, m, out) && Unbroken(date)
    ensures ReadsBack(FinalHeaders(m, p, from, date), p.body, out) <==> Sendable(p, from)
  {
    hide FinalHeaders, FieldsOf, FoldsTo, HeaderRule, Sendable, NormalizeBody, Print,
        ReadsBack, Ascending, CleanMap, NamesOk, Unbroken;
    var final := FinalHeaders(m, p, from, date);
    var ks :| Sorts(ks, final.Keys) && out == Print(FieldsOf(final, ks), NormalizeBody(p.body));
    FinalCleanIff(p, from, date, m);
    ReadsBackIff(final, p.body, out, ks);
  }

  /** Header by header: a sendable message, read back, has a field of this name and value just in case
      the value is the one the table of values has for the name, and not empty. In particular its
      Content-Type is that of an html body just in case the body type says so. */
  lemma ReadHeaders(p: Payload, from: string, date: string, m: Entries, out: string, f: Field)
    requires FoldsTo(HeaderRule(), p.headers, m) && Renders(p, from, date, m, out)
    requires Unbroken(date) && Sendable(p, from)
    ensures Read(out).Message? && Read(out).body == NormalizeBody(p.body)
    ensures f in Read(out).fields <==> HeaderValue(m, p, from, date, f.name) == Some(f.value) && f.value != ""
  {
    hide FinalHeaders, FieldsOf, FoldsTo, HeaderRule, Sendable, NormalizeBody, Ascending, HeaderValue, Unbroken;
    MessageReadsIff(p, from, date, m, out);
    var final := FinalHeaders(m, p, from, date);
    var ks :| Sorts(ks, final.Keys) && Read(out) == Message(FieldsOf(final, ks), NormalizeBody(p.body));
    FieldsMember(final, ks, f);
    FinalTable(m, p, from, date, f.name);
  }

  lemma ReadContentType(p: Payload, from: string, date: string, m: Entries, out: string, v: string)
    requires FoldsTo(HeaderRule(), p.headers, m) && Renders(p, from, date, m, out)
    requires Unbroken(date) && Sendable(p, from)
    ensures Read(out).Message?
    ensures Field("Content-Type", v) in Read(out).fields <==>
              v == if ToLower(Trim(p.bodyType)) == "html" then "text/html; charset=UTF-8"
                   else "text/plain; charset=UTF-8"
  {
    hide FoldsTo, HeaderRule, Sendable, Renders, Read, ToLower, Trim, Join, SanitizeHeaderValue, Unbroken;
    ReadHeaders(p, from, date, m, out, Field("Content-Type", v));
  }

  // ----- the order of the header map -----

  /** Whether the loop's map has an own Date and an own Message-Id is all that the fixed headers
      depend on. */
  lemma FinalDepends(m: Entries, m': Entries, p: Payload, from: string, date: string)
    requires m.Keys == m'.Keys && m - Overwritten(p) == m' - Overwritten(p)
    ensures FinalHeaders(m, p, from, date) == FinalHeaders(m', p, from, date)
  {
    hide Addressed, Described, Overwritten;
    var a, a' := Addressed(m, p, from), Addressed(m', p, from);
    forall k ensures k in a <==> k in a' {
      AgreeOutside(m, m', Overwritten(p), k);
      AddressedDependsAt(m, m', p, from, k);
    }
    assert a.Keys == a'.Keys;
    var f, f' := FinalHeaders(m, p, from, date), FinalHeaders(m', p, from, date);
    forall k ensures (k in f <==> k in f') && (k in f ==> f[k] == f'[k]) {
      AgreeOutside(m, m', Overwritten(p), k);
      AddressedDependsAt(m, m', p, from, k);
      DescribedDependsAt(a, a', p, date, k);
    }
  }

  lemma AgreeOutside(m: Entries, m': Entries, ignored: set<string>, k: string)
    requires m.Keys == m'.Keys && m - ignored == m' - ignored
    ensures k in m <==> k in m'
    ensures k in m && k !in ignored ==> m[k] == m'[k]
  {
    if k in m && k !in ignored {
      assert k in m - ignored && (m - ignored)[k] == m[k];
      assert k in m' - ignored && (m' - ignored)[k] == m'[k];
    }
  }

  /** One key of the map after the first half of the builder's headers. */
  lemma AddressedDependsAt(m: Entries, m': Entries, p: Payload, from: string, k: string)
    requires k in m <==> k in m'
    requires k in m && k !in Overwritten(p) ==> m[k] == m'[k]
    ensures var f, f' := Addressed(m, p, from), Addressed(m', p, from);
            && (k in f <==> k in f')
            && (k in f && (k !in {"MIME-Version", "Content-Type"} && (p.subject != "" ==> k != "Subject"))
                ==> f[k] == f'[k])
  {
    hide Join;
  }

  lemma DescribedDependsAt(m: Entries, m': Entries, p: Payload, date: string, k: string)
    requires m.Keys == m'.Keys
    requires k in m && (k !in {"MIME-Version", "Content-Type"} && (p.subject != "" ==> k != "Subject"))
        ==> m[k] == m'[k]
    ensures var f, f' := Described(m, p, date), Described(m', p, date);
            (k in f <==> k in f') && (k in f ==> f[k] == f'[k])
  {
    hide SanitizeHeaderValue, ContentTypeFor;
  }

  /** The final headers are the same for every iteration order of the payload's header map exactly
      when no two kept headers disagree about the value of one
      canonical name that survives. */
  lemma HeaderOrderIrrelevantIff(p: Payload, from: string, date: string)
    ensures (forall m1, m2 :: FoldsTo(HeaderRule(), p.headers, m1) && FoldsTo(HeaderRule(), p.headers, m2)
               ==> FinalHeaders(m1, p, from, date) == FinalHeaders(m2, p, from, date))
       <==> NoClash(HeaderRule(), p.headers, Overwritten(p))
  {
    hide FinalHeaders, HeaderRule, NoClash, Overwritten, FoldsTo;
    OrderIrrelevantIff(HeaderRule(), p.headers, Overwritten(p));
    forall m1, m2 | FoldsTo(HeaderRule(), p.headers, m1) && FoldsTo(HeaderRule(), p.headers, m2)
      ensures FinalHeaders(m1, p, from, date) == FinalHeaders(m2, p, from, date)
         <==> m1 - Overwritten(p) == m2 - Overwritten(p)
    {
      SameKeys(HeaderRule(), p.headers, m1, m2);
      SameFinal(m1, m2, p, from, date);
    }
  }

  lemma SameFinal(m: Entries, m': Entries, p: Payload, from: string, date: string)
    requires m.Keys == m'.Keys
    ensures FinalHeaders(m, p, from, date) == FinalHeaders(m', p, from, date)
       <==> m - Overwritten(p) == m' - Overwritten(p)
  {
    hide FinalHeaders, Overwritten;
    if m - Overwritten(p) == m' - Overwritten(p) {
      FinalDepends(m, m', p, from, date);
    } else if FinalHeaders(m, p, from, date) == FinalHeaders(m', p, from, date) {
      forall k | k in m && k !in Overwritten(p)
        ensures m[k] == m'[k]
      {
        FinalKeeps(m, p, from, date, k);
        FinalKeeps(m', p, from, date, k);
      }
    }
  }

  // ----- and so the message -----

  /** Where two maps under one set of names differ, both values are unbroken and not empty. */
  ghost predicate DifferCleanly(f: Entries, f': Entries) {
    && f.Keys == f'.Keys
    && forall k :: k in f && f[k] != f'[k] ==> f[k] != "" && f'[k] != "" && Unbroken(f[k]) && Unbroken(f'[k])
  }

  lemma BreakAt(v: string, x: string)
    requires Unbroken(v)
    ensures (v + "\r\n" + x)[|v|] == '\r' && forall i :: 0 <= i < |v| ==> (v + "\r\n" + x)[i] != '\r'
  {
    forall i | 0 <= i < |v| ensures (v + "\r\n" + x)[i] != '\r' {
      assert v[i] in v;
    }
  }

  /** An unbroken text ends where the first CR is. */
  lemma SameUpToBreak(v: string, w: string, x: string, y: string)
    requires Unbroken(v) && Unbroken(w) && v + "\r\n" + x == w + "\r\n" + y
    ensures v == w && x == y
  {
    hide Unbroken;
    BreakAt(v, x);
    BreakAt(w, y);
    var s := v + "\r\n" + x;
    assert |v| == |w|;
    assert s[..|v|] == v && s[..|w|] == w;
    assert s[|v| + 2..] == x && (w + "\r\n" + y)[|w| + 2..] == y;
  }

  lemma PrintsOne(f: Entries, ks: seq<string>, body: string)
    requires ks != [] && forall k :: k in ks ==> k in f
    ensures Print(FieldsOf(f, ks), body)
         == (if f[ks[0]] == "" then "" else PrintField(Field(ks[0], f[ks[0]]))) + Print(FieldsOf(f, ks[1..]), body)
  {
    var tail := FieldsOf(f, ks[1..]);
    if f[ks[0]] == "" {
      assert [] + tail == tail;
    } else {
      PrintCons([Field(ks[0], f[ks[0]])] + tail, body);
      assert ([Field(ks[0], f[ks[0]])] + tail)[1..] == tail;
    }
  }

  lemma FieldSplits(k: string, v: string, w: string, x: string, y: string)
    requires Unbroken(v) && Unbroken(w)
    requires PrintField(Field(k, v)) + x == PrintField(Field(k, w)) + y
    ensures v == w && x == y
  {
    var head := k + ": ";
    assert PrintField(Field(k, v)) + x == head + (v + "\r\n" + x);
    assert PrintField(Field(k, w)) + y == head + (w + "\r\n" + y);
    assert (head + (v + "\r\n" + x))[|head|..] == v + "\r\n" + x;
    assert (head + (w + "\r\n" + y))[|head|..] == w + "\r\n" + y;
    SameUpToBreak(v, w, x, y);
  }

  lemma Cancels(head: string, x: string, y: string)
    requires head + x == head + y
    ensures x == y
  {
    assert (head + x)[|head|..] == x && (head + y)[|head|..] == y;
  }

  /** Equal texts under one listing of names come from equal values. */
  lemma {:induction false} PrintTells(f: Entries, f': Entries, ks: seq<string>, body: string)
    requires DifferCleanly(f, f') && forall k :: k in ks ==> k in f
    requires Print(FieldsOf(f, ks), body) == Print(FieldsOf(f', ks), body)
    ensures forall k :: k in ks ==> f[k] == f'[k]
  {
    hide Print, PrintField, FieldsOf, Unbroken;
    if ks != [] {
      var k := ks[0];
      assert k in ks && ks == [k] + ks[1..];
      var x, y := Print(FieldsOf(f, ks[1..]), body), Print(FieldsOf(f', ks[1..]), body);
      PrintsOne(f, ks, body);
      PrintsOne(f', ks, body);
      if f[k] == f'[k] {
        Cancels(if f[k] == "" then "" else PrintField(Field(k, f[k])), x, y);
      } else {
        FieldSplits(k, f[k], f'[k], x, y);
      }
      PrintTells(f, f', ks[1..], body);
    }
  }

  /** Two maps the header loop can leave lead to final headers that differ only in the loop's own,
      clean values. */
  lemma FinalsDifferCleanly(p: Payload, from: string, date: string, m: Entries, m': Entries)
    requires FoldsTo(HeaderRule(), p.headers, m) && FoldsTo(HeaderRule(), p.headers, m')
    ensures DifferCleanly(FinalHeaders(m, p, from, date), FinalHeaders(m', p, from, date))
  {
    hide FinalHeaders, FoldsTo, HeaderRule, Unbroken, KeptName, Join,
        SanitizeHeaderValue, ContentTypeFor, Trim, Canonical, GoodStart, CleanName;
    SameKeys(HeaderRule(), p.headers, m, m');
    var f, f' := FinalHeaders(m, p, from, date), FinalHeaders(m', p, from, date);
    forall k ensures k in f <==> k in f' {
      OwnValues(m, m', p, from, date, k);
    }
    forall k | k in f && f[k] != f'[k]
      ensures f[k] != "" && f'[k] != "" && Unbroken(f[k]) && Unbroken(f'[k])
    {
      OwnValues(m, m', p, from, date, k);
      var h := LoopEntry(p, m, k);
      var h' := LoopEntry(p, m', k);
      KeptEntry(p, h, k, m[k]);
      KeptEntry(p, h', k, m'[k]);
    }
  }

  /** Where the final headers differ they hold the loop's values. */
  lemma OwnValues(m: Entries, m': Entries, p: Payload, from: string, date: string, k: string)
    requires m.Keys == m'.Keys
    ensures var f, f' := FinalHeaders(m, p, from, date), FinalHeaders(m', p, from, date);
            && (k in f <==> k in f')
            && (k in f && f[k] != f'[k] ==> k in m && f[k] == m[k] && k in m' && f'[k] == m'[k])
  {
    hide FinalHeaders, Join, SanitizeHeaderValue, ContentTypeFor;
    FinalTable(m, p, from, date, k);
    FinalTable(m', p, from, date, k);
    assert k in m <==> k in m';
  }

  /** Any set of names can be listed in ascending order. */
  lemma {:induction false} SortingExists(keys: set<string>) returns (ks: seq<string>)
    ensures Sorts(ks, keys)
    decreases |keys|
  {
    ks := [];
    if keys != {} {
      var k :| k in keys;
      var rest := SortingExists(keys - {k});
      InsertSorts(rest, k);
      ks := InsertKey(rest, k);
    }
  }

  lemma RenderingExists(p: Payload, from: string, date: string, m: Entries) returns (out: string)
    ensures Renders(p, from, date, m, out)
  {
    hide FinalHeaders, FieldsOf, Print, NormalizeBody;
    var final := FinalHeaders(m, p, from, date);
    var ks := SortingExists(final.Keys);
    SortedAreKeys(ks, final.Keys);
    out := Print(FieldsOf(final, ks), NormalizeBody(p.body));
  }

  /** Two maps the header loop can leave give one message exactly when they give the same final
      headers. */
  lemma RendersSameIff(p: Payload, from: string, date: string, m: Entries, m': Entries, out: string, out': string)
    requires FoldsTo(HeaderRule(), p.headers, m) && FoldsTo(HeaderRule(), p.headers, m')
    requires Renders(p, from, date, m, out) && Renders(p, from, date, m', out')
    ensures out == out' <==> FinalHeaders(m, p, from, date) == FinalHeaders(m', p, from, date)
  {
    hide FinalHeaders, FieldsOf, Print, NormalizeBody, FoldsTo, HeaderRule, Ascending, Unbroken;
    var f, f' := FinalHeaders(m, p, from, date), FinalHeaders(m', p, from, date);
    FinalsDifferCleanly(p, from, date, m, m');
    var ks :| Sorts(ks, f.Keys) && out == Print(FieldsOf(f, ks), NormalizeBody(p.body));
    var ks' :| Sorts(ks', f'.Keys) && out' == Print(FieldsOf(f', ks'), NormalizeBody(p.body));
    SortsUnique(ks, ks', f.Keys);
    if out == out' {
      PrintTells(f, f', ks, NormalizeBody(p.body));
      assert forall k :: k in f <==> k in ks;
    }
  }

  /** The message is the same for every iteration order of the payload's header map exactly when no two
      kept headers disagree about the value of one canonical name that survives. */
  lemma MessageOrderIrrelevantIff(p: Payload, from: string, date: string)
    ensures (forall o1, o2 :: Builds(p, from, date, o1) && Builds(p, from, date, o2) ==> o1 == o2)
       <==> NoClash(HeaderRule(), p.headers, Overwritten(p))
  {
    hide FinalHeaders, HeaderRule, NoClash, Overwritten, FoldsTo, Renders;
    HeaderOrderIrrelevantIff(p, from, date);
    if NoClash(HeaderRule(), p.headers, Overwritten(p)) {
      forall o1, o2 | Builds(p, from, date, o1) && Builds(p, from, date, o2) ensures o1 == o2 {
        var m1 :| FoldsTo(HeaderRule(), p.headers, m1) && Renders(p, from, date, m1, o1);
        var m2 :| FoldsTo(HeaderRule(), p.headers, m2) && Renders(p, from, date, m2, o2);
        RendersSameIff(p, from, date, m1, m2, o1, o2);
      }
    } else {
      var m1, m2 :| FoldsTo(HeaderRule(), p.headers, m1) && FoldsTo(HeaderRule(), p.headers, m2)
                    && FinalHeaders(m1, p, from, date) != FinalHeaders(m2, p, from, date);
      var o1 := RenderingExists(p, from, date, m1);
      var o2 := RenderingExists(p, from, date, m2);
      RendersSameIff(p, from, date, m1, m2, o1, o2);
      assert Builds(p, from, date, o1) && Builds(p, from, date, o2);
    }
  }

  // ----- the version header -----

  /** The header is there, and has a value, so that it is printed. */
  predicate Printed(final: Entries, k: string) {
    k in final && final[k] != ""
  }

  /** The version header the builder sets is not in canonical form, so a message has a second one, in
      canonical form, exactly when the payload has a kept header of that name. */
  lemma MimeVersionTwiceIff(p: Payload, from: string, date: string, m: Entries)
    requires FoldsTo(HeaderRule(), p.headers, m)
    ensures Holds(FinalHeaders(m, p, from, date), "MIME-Version", "1.0")
    ensures Printed(FinalHeaders(m, p, from, date), "Mime-Version")
       <==> exists h :: KeptName(p, h) && Canonical(Trim(h)) == "Mime-Version"
  {
    hide FinalHeaders, FoldsTo, HeaderRule, KeptName, Trim, Canonical, Join, SanitizeHeaderValue, ContentTypeFor;
    FinalTable(m, p, from, date, "MIME-Version");
    FinalTable(m, p, from, date, "Mime-Version");
    if "Mime-Version" in m {
      var h := LoopEntry(p, m, "Mime-Version");
      KeptEntry(p, h, "Mime-Version", m["Mime-Version"]);
    }
    forall h | KeptName(p, h) && Canonical(Trim(h)) == "Mime-Version" ensures "Mime-Version" in m {
      LoopStores(p, m, h);
    }
  }

  /** Capitals first and after each hyphen, small letters elsewhere. */
  lemma {:induction false} CapitalisedAt(s: string, upper: bool, i: nat)
    requires i < |s|
    ensures |Capitalised(s, upper)| == |s|
    ensures Capitalised(s, upper)[i] == if (if i == 0 then upper else s[i - 1] == '-') then Upper(s[i]) else Lower(s[i])
  {
    if |s| > 1 {
      CapitalisedAt(s[1..], s[0] == '-', if i > 0 then i - 1 else 0);
    }
  }

  lemma {:induction false} TokenChars(s: string)
    requires forall i :: 0 <= i < |s| ==> IsTokenChar(s[i])
    ensures IsToken(s)
  {
    if s != [] {
      TokenChars(s[1..]);
    }
  }

  lemma VersionName()
    ensures Canonical("MIME-Version") == "Mime-Version"
  {
    hide IsToken, Capitalised;
    var s := "MIME-Version";
    TokenChars(s);
    forall i: nat | i < |s|
      ensures |Capitalised(s, true)| == |s| && Capitalised(s, true)[i] == "Mime-Version"[i]
    {
      CapitalisedAt(s, true, i);
    }
    CapitalisedAt(s, true, 0);
  }

  /** A payload whose only header is a version header: its message has two of them. */
  lemma MimeVersionTwice(from: string, date: string) returns (p: Payload, m: Entries)
    ensures p.headers == map["MIME-Version" := "1.0"] && FoldsTo(HeaderRule(), p.headers, m)
    ensures Printed(FinalHeaders(m, p, from, date), "Mime-Version")
    ensures Printed(FinalHeaders(m, p, from, date), "MIME-Version")
  {
    hide FinalHeaders, Fold, HeaderRule, Trim, Canonical, SanitizeHeaderValue, IsToken, Capitalised;
    var name := "MIME-Version";
    p := Payload(map[name := "1.0"], [], [], "", "", "", "");
    var order := EnumerationExists(p.headers.Keys);
    m := Fold(HeaderRule(), p.headers, order);
    assert FoldsTo(HeaderRule(), p.headers, m);
    HeaderRuleOn(name, "1.0");
    assert Trim(name) == name by { TrimmedStays(name); }
    assert Trim("1.0") == "1.0" by { TrimmedStays("1.0"); }
    VersionName();
    assert KeptName(p, name) && Canonical(Trim(name)) == "Mime-Version";
    MimeVersionTwiceIff(p, from, date, m);
  }
}
