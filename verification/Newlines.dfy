/** Body normalisation: three replacement passes against a one-pass reading of line breaks. */
module Newlines {
  import opened Text

  /** `normalizeBody`. */
  function NormalizeBody(body: string): string {
    if body == "" then ""
    else
      var lf := ReplaceAll(body, "\r\n", "\n");
      var noCr := ReplaceAll(lf, "\r", "\n");
      ReplaceAll(noCr, "\n", "\r\n")
  }

  /** One pass: CRLF, CR and LF are one break each, and every break is written as CRLF. */
  function Crlf(s: string): string {
    if s == [] then []
    else if "\r\n" <= s then "\r\n" + Crlf(s[2..])
    else if s[0] == '\r' || s[0] == '\n' then "\r\n" + Crlf(s[1..])
    else [s[0]] + Crlf(s[1..])
  }

  lemma ReplaceHead(c: char, s: string, x: char, new_: string)
    ensures ReplaceAll([c] + s, [x], new_) == (if c == x then new_ else [c]) + ReplaceAll(s, [x], new_)
  {
    assert ([c] + s)[1..] == s && ([c] + s)[0] == c;
    if c == x {
      assert ([c] + s)[..1] == [x];
    }
  }

  /** The second and third pass over a string that starts with c. */
  lemma LastPasses(c: char, s: string)
    ensures ReplaceAll(ReplaceAll([c] + s, "\r", "\n"), "\n", "\r\n")
         == (if c == '\r' || c == '\n' then "\r\n" else [c]) + ReplaceAll(ReplaceAll(s, "\r", "\n"), "\n", "\r\n")
  {
    var rest := ReplaceAll(s, "\r", "\n");
    ReplaceHead(c, s, '\r', "\n");
    ReplaceHead(if c == '\r' then '\n' else c, rest, '\n', "\r\n");
  }

  /** The three passes and the single pass agree on every body. */
  lemma {:induction false} PassesAgree(s: string)
    ensures NormalizeBody(s) == Crlf(s)
  {
    if s == [] {
    } else if "\r\n" <= s {
      PassesAgree(s[2..]);
      PassesOf(s[2..]);
      LastPasses('\n', ReplaceAll(s[2..], "\r\n", "\n"));
    } else {
      PassesAgree(s[1..]);
      PassesOf(s[1..]);
      LastPasses(s[0], ReplaceAll(s[1..], "\r\n", "\n"));
    }
  }

  lemma PassesOf(s: string)
    ensures ReplaceAll(ReplaceAll(ReplaceAll(s, "\r\n", "\n"), "\r", "\n"), "\n", "\r\n") == NormalizeBody(s)
  {
  }

  /** Every CR is followed by LF and every LF preceded by CR (section 2.3.8 of RFC 5321). */
  predicate NoBareBreaks(s: string) {
    && (forall i :: 0 <= i < |s| && s[i] == '\r' ==> i + 1 < |s| && s[i + 1] == '\n')
    && (forall i :: 0 <= i < |s| && s[i] == '\n' ==> i > 0 && s[i - 1] == '\r')
  }

  lemma {:induction false} CrlfHasNoBareBreaks(s: string)
    ensures NoBareBreaks(Crlf(s))
  {
    if s == [] {
    } else if "\r\n" <= s {
      CrlfHasNoBareBreaks(s[2..]);
      BreaksExtend("\r\n", Crlf(s[2..]));
    } else if s[0] == '\r' || s[0] == '\n' {
      CrlfHasNoBareBreaks(s[1..]);
      BreaksExtend("\r\n", Crlf(s[1..]));
    } else {
      CrlfHasNoBareBreaks(s[1..]);
      BreaksExtend([s[0]], Crlf(s[1..]));
    }
  }

  lemma BreaksExtend(a: string, b: string)
    requires NoBareBreaks(a) && NoBareBreaks(b)
    ensures NoBareBreaks(a + b)
  {
    forall i | 0 <= i < |a + b| && (a + b)[i] == '\r'
      ensures i + 1 < |a + b| && (a + b)[i + 1] == '\n'
    {
      assert i < |a| ==> a[i] == '\r';
      assert i >= |a| ==> b[i - |a|] == '\r';
    }
    forall i | 0 <= i < |a + b| && (a + b)[i] == '\n'
      ensures i > 0 && (a + b)[i - 1] == '\r'
    {
      assert i < |a| ==> a[i] == '\n';
      assert i >= |a| ==> b[i - |a|] == '\n';
    }
  }

  /** Dropping a front of b characters that does not cut a break. */
  lemma BreaksDrop(s: string, b: nat)
    requires NoBareBreaks(s) && b <= |s|
    requires b < |s| ==> s[b] != '\n'
    ensures NoBareBreaks(s[b..])
  {
  }

  /** Normalisation leaves a body alone exactly when it has no bare break. */
  lemma {:induction false} FixedIff(s: string)
    ensures Crlf(s) == s <==> NoBareBreaks(s)
  {
    CrlfHasNoBareBreaks(s);
    if NoBareBreaks(s) {
      FixedWhenClean(s);
    }
  }

  lemma {:induction false} FixedWhenClean(s: string)
    requires NoBareBreaks(s)
    ensures Crlf(s) == s
  {
    if s == [] {
    } else if "\r\n" <= s {
      BreakFront(s);
      BreaksDrop(s, 2);
      FixedWhenClean(s[2..]);
      assert s == "\r\n" + s[2..];
    } else {
      StartsPlain(s);
      BreaksDrop(s, 1);
      FixedWhenClean(s[1..]);
      assert s == [s[0]] + s[1..];
    }
  }

  lemma BreakFront(s: string)
    ensures "\r\n" <= s <==> |s| >= 2 && s[0] == '\r' && s[1] == '\n'
  {
    assert |s| >= 2 ==> (s[..2] == "\r\n" <==> s[0] == '\r' && s[1] == '\n');
  }

  lemma StartsPlain(s: string)
    requires NoBareBreaks(s) && s != [] && !("\r\n" <= s)
    ensures s[0] != '\r' && s[0] != '\n' && (|s| > 1 ==> s[1] != '\n')
  {
    BreakFront(s);
  }

  /** The contents of the lines of a body, each of CRLF, CR and LF ending one. */
  function Lines(s: string): (r: seq<string>)
    ensures |r| >= 1
  {
    if s == [] then [[]]
    else if "\r\n" <= s then [[]] + Lines(s[2..])
    else if s[0] == '\r' || s[0] == '\n' then [[]] + Lines(s[1..])
    else
      var rest := Lines(s[1..]);
      [[s[0]] + rest[0]] + rest[1..]
  }

  /** The same for a reader that ends lines at CRLF only. */
  function CrlfLines(s: string): (r: seq<string>)
    ensures |r| >= 1
  {
    if s == [] then [[]]
    else if "\r\n" <= s then [[]] + CrlfLines(s[2..])
    else
      var rest := CrlfLines(s[1..]);
      [[s[0]] + rest[0]] + rest[1..]
  }

  lemma {:induction false} LinesOfCrlf(s: string)
    ensures CrlfLines(Crlf(s)) == Lines(s)
  {
    if s == [] {
    } else if "\r\n" <= s || s[0] == '\r' || s[0] == '\n' {
      var rest := if "\r\n" <= s then s[2..] else s[1..];
      LinesOfCrlf(rest);
      assert ("\r\n" + Crlf(rest))[2..] == Crlf(rest);
    } else {
      LinesOfCrlf(s[1..]);
      assert ([s[0]] + Crlf(s[1..]))[1..] == Crlf(s[1..]);
    }
  }

  /** `normalizeBody` on every body: the result has no bare CR or LF, is left alone by a second
      pass, and read by a CRLF-only reader has exactly the lines of the original. */
  lemma BodyIsNormal(body: string)
    ensures NoBareBreaks(NormalizeBody(body))
    ensures NormalizeBody(NormalizeBody(body)) == NormalizeBody(body)
    ensures NormalizeBody(body) == body <==> NoBareBreaks(body)
    ensures CrlfLines(NormalizeBody(body)) == Lines(body)
  {
    PassesAgree(body);
    CrlfHasNoBareBreaks(body);
    PassesAgree(Crlf(body));
    FixedIff(Crlf(body));
    FixedIff(body);
    LinesOfCrlf(body);
  }
}
