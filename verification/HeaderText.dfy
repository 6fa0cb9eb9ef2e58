/** Header fields on the wire: the printer's text against a reader that follows sections 2.1 and
    2.2 of RFC 5322 (fields end at CRLF, folded lines are unfolded, CR and LF do not occur in any
    other way, an empty line ends the header section). */
module HeaderText {

  datatype Field = Field(name: string, value: string)

  datatype Line = NoLine | Line(text: string, rest: string)

  datatype Message = Unreadable | Message(fields: seq<Field>, body: string)

  // ----- printing -----

  function PrintField(f: Field): string {
    f.name + ": " + f.value + "\r\n"
  }

  function PrintFields(fs: seq<Field>): string {
    if fs == [] then [] else PrintField(fs[0]) + PrintFields(fs[1..])
  }

  function Print(fs: seq<Field>, body: string): string {
    PrintFields(fs) + "\r\n" + body
  }

  // ----- reading -----

  predicate IsWsp(c: char) { c == ' ' || c == '\t' }

  predicate Unbroken(s: string) { '\r' !in s && '\n' !in s }

  /** One unfolded line and what follows its CRLF. */
  function ReadLine(s: string): (l: Line)
    ensures l.Line? ==> |l.rest| < |s| && Unbroken(l.text)
    decreases |s|
  {
    if s == [] then NoLine
    else if |s| >= 2 && s[0] == '\r' && s[1] == '\n' then
      if |s| > 2 && IsWsp(s[2]) then ReadLine(s[2..]) else Line([], s[2..])
    else if s[0] == '\r' || s[0] == '\n' then NoLine
    else match ReadLine(s[1..])
      case NoLine => NoLine
      case Line(text, rest) => Line([s[0]] + text, rest)
  }

  /** The position of the first colon. */
  function ColonAt(s: string): (i: nat)
    requires ':' in s
    ensures i < |s| && s[i] == ':' && ':' !in s[..i]
  {
    if s[0] == ':' then 0 else 1 + ColonAt(s[1..])
  }

  /** Name before the first colon; value after it, less one space. */
  function SplitField(s: string): Field
    requires ':' in s
  {
    var i := ColonAt(s);
    var v := s[i + 1..];
    Field(s[..i], if v != [] && v[0] == ' ' then v[1..] else v)
  }

  function Read(s: string): Message
    decreases |s|
  {
    if |s| >= 2 && s[0] == '\r' && s[1] == '\n' then Message([], s[2..])
    else match ReadLine(s)
      case NoLine => Unreadable
      case Line(text, rest) =>
        if ':' !in text then Unreadable
        else match Read(rest)
          case Unreadable => Unreadable
          case Message(fields, body) => Message([SplitField(text)] + fields, body)
  }

  // ----- print, then read -----

  /** A field that can be told apart on the wire. */
  predicate Clean(f: Field) {
    CleanName(f.name) && Unbroken(f.value)
  }

  predicate CleanName(s: string) {
    ':' !in s && Unbroken(s)
  }

  /** Nothing the reader returns has a colon in a name or a break in a field. */
  lemma {:induction false} ReadIsClean(s: string)
    ensures Read(s).Message? ==> forall f :: f in Read(s).fields ==> Clean(f)
    decreases |s|
  {
    var line := ReadLine(s);
    if line.Line? && ':' in line.text {
      ReadIsClean(line.rest);
      var f := SplitField(line.text);
      assert Clean(f);
    }
  }

  lemma {:induction false} ReadUnbroken(x: string, rest: string)
    requires Unbroken(x) && (rest == [] || !IsWsp(rest[0]))
    ensures ReadLine(x + "\r\n" + rest) == Line(x, rest)
  {
    var s := x + "\r\n" + rest;
    if x == [] {
      assert s == "\r\n" + rest && s[2..] == rest;
    } else {
      assert s[0] == x[0] && s[1..] == x[1..] + "\r\n" + rest;
      ReadUnbroken(x[1..], rest);
      assert [x[0]] + x[1..] == x;
    }
  }

  lemma {:induction false} ColonUnique(s: string, n: nat)
    requires n < |s| && s[n] == ':' && ':' !in s[..n]
    ensures ':' in s && ColonAt(s) == n
  {
    if n > 0 {
      assert s[..n][0] == s[0];
      assert s[1..][..n - 1] == s[..n][1..];
      ColonUnique(s[1..], n - 1);
    }
  }

  lemma SplitPrinted(f: Field)
    requires Clean(f)
    ensures ':' in f.name + ": " + f.value && SplitField(f.name + ": " + f.value) == f
  {
    var s, i := f.name + ": " + f.value, |f.name|;
    assert s[i] == ':' && s[..i] == f.name;
    ColonUnique(s, i);
    assert s[i + 1..] == " " + f.value;
    assert (" " + f.value)[1..] == f.value;
  }

  /** The reader takes one printed field off the front. */
  lemma ReadField(f: Field, rest: string)
    requires Clean(f) && rest != [] && !IsWsp(rest[0]) && Read(rest).Message?
    ensures Read(PrintField(f) + rest) == Message([f] + Read(rest).fields, Read(rest).body)
  {
    hide Clean, ColonAt, SplitField, Unbroken;
    var x := f.name + ": " + f.value;
    assert PrintField(f) + rest == x + "\r\n" + rest;
    assert Unbroken(x) && x[0] == (x + "\r\n" + rest)[0] && x[0] in x by { BrokenNowhere(f); }
    ReadUnbroken(x, rest);
    SplitPrinted(f);
  }

  lemma BrokenNowhere(f: Field)
    requires Clean(f)
    ensures Unbroken(f.name + ": " + f.value)
  {
  }

  lemma PrintCons(fs: seq<Field>, body: string)
    requires fs != []
    ensures Print(fs, body) == PrintField(fs[0]) + Print(fs[1..], body)
    ensures Print(fs, body) != [] && Print(fs, body)[0] == if fs[0].name == [] then ':' else fs[0].name[0]
  {
    var first, others := PrintField(fs[0]), PrintFields(fs[1..]);
    assert first + others + "\r\n" + body == first + (others + "\r\n" + body);
    assert |first| > 0 && first[0] == if fs[0].name == [] then ':' else fs[0].name[0];
    assert (first + (others + "\r\n" + body))[0] == first[0];
  }

  lemma ReadEmpty(body: string)
    ensures Print([], body) != [] && Print([], body)[0] == '\r' && Read(Print([], body)) == Message([], body)
  {
    assert PrintFields([]) + "\r\n" + body == "\r\n" + body;
    assert ("\r\n" + body)[0] == '\r' && ("\r\n" + body)[1] == '\n';
    assert ("\r\n" + body)[2..] == body;
  }

  lemma {:induction false} ReadPrinted(fs: seq<Field>, body: string)
    requires forall f :: f in fs ==> Clean(f) && (f.name != [] ==> !IsWsp(f.name[0]))
    ensures Read(Print(fs, body)) == Message(fs, body)
    ensures Print(fs, body) != [] && !IsWsp(Print(fs, body)[0])
  {
    hide Clean, Read, Print, PrintField;
    if fs == [] {
      ReadEmpty(body);
    } else {
      var f := fs[0];
      assert f in fs && (f.name != [] ==> !IsWsp(f.name[0]));
      ReadPrinted(fs[1..], body);
      PrintCons(fs, body);
      ReadField(fs[0], Print(fs[1..], body));
      assert [fs[0]] + fs[1..] == fs;
    }
  }

  /** Printing and then reading gives the fields and the body back exactly when no name has a
      colon and no name or value has a CR or LF, for names that do not start with a blank. */
  lemma PrintReadIff(fs: seq<Field>, body: string)
    requires forall f :: f in fs && f.name != [] ==> !IsWsp(f.name[0])
    ensures Read(Print(fs, body)) == Message(fs, body) <==> forall f :: f in fs ==> Clean(f)
  {
    if forall f :: f in fs ==> Clean(f) {
      ReadPrinted(fs, body);
    } else {
      ReadIsClean(Print(fs, body));
    }
  }
}
