/** The string operations the original uses, on sequences of code points. */
module Text {

  /** `unicode.IsSpace`. */
  predicate IsSpace(c: char) {
    c == ' ' || '\t' <= c <= '\r' || c == 0x85 as char || c == 0xA0 as char
    || c == 0x1680 as char || (0x2000 as char <= c <= 0x200A as char) || c == 0x2028 as char || c == 0x2029 as char
    || c == 0x202F as char || c == 0x205F as char || c == 0x3000 as char
  }

  predicate IsDigit(c: char) {
    '0' <= c <= '9'
  }

  function TrimLeft(s: string): string {
    if s != [] && IsSpace(s[0]) then TrimLeft(s[1..]) else s
  }

  function TrimRight(s: string): string {
    if s != [] && IsSpace(s[|s| - 1]) then TrimRight(s[..|s| - 1]) else s
  }

  /** `strings.TrimSpace`. */
  function Trim(s: string): string {
    TrimRight(TrimLeft(s))
  }

  /** Nothing to trim at either end. */
  predicate IsTrimmed(s: string) {
    s != [] ==> !IsSpace(s[0]) && !IsSpace(s[|s| - 1])
  }

  function Lower(c: char): char {
    if 'A' <= c <= 'Z' then (c as int + 32) as char else c
  }

  /** `strings.ToLower`, on ASCII letters. */
  function ToLower(s: string): (r: string)
    ensures |r| == |s| && forall i :: 0 <= i < |s| ==> r[i] == Lower(s[i])
  {
    seq(|s|, i requires 0 <= i < |s| => Lower(s[i]))
  }

  predicate OccursAt(s: string, part: string, i: int) {
    0 <= i <= |s| - |part| && s[i..i + |part|] == part
  }

  predicate Contains(s: string, part: string) {
    exists i :: 0 <= i <= |s| && OccursAt(s, part, i)
  }

  /** `strings.ReplaceAll` for a non-empty pattern: leftmost matches, not overlapping. */
  function ReplaceAll(s: string, old_: string, new_: string): string
    requires old_ != []
  {
    if s == [] then []
    else if old_ <= s then new_ + ReplaceAll(s[|old_|..], old_, new_)
    else [s[0]] + ReplaceAll(s[1..], old_, new_)
  }

  /** `strings.Join`. */
  function Join(parts: seq<string>, sep: string): string {
    if parts == [] then [] else if |parts| == 1 then parts[0]
    else parts[0] + sep + Join(parts[1..], sep)
  }

  // ----- trimming -----

  lemma {:induction false} TrimLeftSuffix(s: string) returns (i: nat)
    ensures i <= |s| && TrimLeft(s) == s[i..]
    ensures TrimLeft(s) != [] ==> !IsSpace(TrimLeft(s)[0])
    ensures forall j :: 0 <= j < i ==> IsSpace(s[j])
  {
    if s != [] && IsSpace(s[0]) {
      i := TrimLeftSuffix(s[1..]);
      assert s[1..][i..] == s[i + 1..];
      forall j | 0 <= j < i + 1 ensures IsSpace(s[j]) {
        assert j > 0 ==> s[1..][j - 1] == s[j];
      }
      i := i + 1;
    } else {
      i := 0;
    }
  }

  lemma {:induction false} TrimRightPrefix(s: string) returns (n: nat)
    ensures n <= |s| && TrimRight(s) == s[..n]
    ensures TrimRight(s) != [] ==> !IsSpace(TrimRight(s)[|TrimRight(s)| - 1])
    ensures forall j :: n <= j < |s| ==> IsSpace(s[j])
  {
    if s != [] && IsSpace(s[|s| - 1]) {
      n := TrimRightPrefix(s[..|s| - 1]);
      assert s[..|s| - 1][..n] == s[..n];
    } else {
      n := |s|;
    }
  }

  /** Trimming leaves a slice of the string with nothing more to trim, and drops only space. */
  lemma TrimIsSlice(s: string) returns (i: nat, j: nat)
    ensures i <= j <= |s| && Trim(s) == s[i..j] && IsTrimmed(Trim(s))
    ensures forall k :: 0 <= k < i || j <= k < |s| ==> IsSpace(s[k])
  {
    i := TrimLeftSuffix(s);
    var n := TrimRightPrefix(s[i..]);
    j := i + n;
    assert s[i..][..n] == s[i..j];
    forall k | j <= k < |s| ensures IsSpace(s[k]) {
      assert s[i..][k - i] == s[k];
    }
    if j == i {
      assert Trim(s) == [];
    }
  }

  lemma TrimmedStays(s: string)
    requires IsTrimmed(s)
    ensures Trim(s) == s
  {
  }

  lemma TrimTwice(s: string)
    ensures IsTrimmed(Trim(s)) && Trim(Trim(s)) == Trim(s)
  {
    var _, _ := TrimIsSlice(s);
    TrimmedStays(Trim(s));
  }

  lemma LowerSpace(c: char)
    ensures IsSpace(Lower(c)) <==> IsSpace(c)
    ensures Lower(Lower(c)) == Lower(c)
  {
  }

  lemma LowerTwice(s: string)
    ensures ToLower(ToLower(s)) == ToLower(s)
  {
    forall i | 0 <= i < |s| ensures ToLower(ToLower(s))[i] == ToLower(s)[i] {
      LowerSpace(s[i]);
    }
  }

  /** Trimming and lowering commute, and doing both is stable. */
  lemma TrimLower(s: string)
    ensures Trim(ToLower(s)) == ToLower(Trim(s))
  {
    var i, j := TrimIsSlice(s);
    assert ToLower(s)[i..j] == ToLower(Trim(s));
    forall k | 0 <= k < |s| ensures IsSpace(ToLower(s)[k]) <==> IsSpace(s[k]) {
      LowerSpace(s[k]);
    }
    TrimUnique(ToLower(s), i, j);
  }

  /** Trim is determined by what it must satisfy. */
  lemma TrimUnique(s: string, i: nat, j: nat)
    requires i <= j <= |s| && IsTrimmed(s[i..j])
    requires forall k :: 0 <= k < i || j <= k < |s| ==> IsSpace(s[k])
    ensures Trim(s) == s[i..j]
  {
    var a, b := TrimIsSlice(s);
    if i < j {
      assert !IsSpace(s[i..j][0]) && !IsSpace(s[i..j][j - i - 1]);
      assert a <= i && j <= b;
      assert a < b ==> !IsSpace(s[a..b][0]) && !IsSpace(s[a..b][b - a - 1]);
    } else {
      AllSpace(s);
    }
  }

  lemma {:induction false} AllSpace(s: string)
    requires forall k :: 0 <= k < |s| ==> IsSpace(s[k])
    ensures TrimLeft(s) == [] && Trim(s) == []
  {
    if s != [] {
      AllSpace(s[1..]);
    }
  }

  // ----- the tables behind these operations -----

  /** The code points `unicode.IsSpace` counts as space. */
  lemma SpaceTable(c: char)
    ensures IsSpace(c) <==>
              c as int in {9, 10, 11, 12, 13, 32, 0x85, 0xA0, 0x1680, 0x2000, 0x2001, 0x2002, 0x2003, 0x2004, 0x2005,
                           0x2006, 0x2007, 0x2008, 0x2009, 0x200A, 0x2028, 0x2029, 0x202F, 0x205F, 0x3000}
  {
  }

  /** Lower-casing maps the twenty-six capitals to the small letters, in order, and leaves the rest. */
  lemma LowerTable(c: char)
    ensures ToLower("ABCDEFGHIJKLMNOPQRSTUVWXYZ") == "abcdefghijklmnopqrstuvwxyz"
    ensures !('A' <= c <= 'Z') ==> Lower(c) == c
  {
  }

  /** A part is contained just in case the string is something, the part, and something. */
  lemma ContainsIff(s: string, part: string)
    ensures Contains(s, part) <==> exists a, b :: s == a + part + b
  {
    if Contains(s, part) {
      var i :| 0 <= i <= |s| && OccursAt(s, part, i);
      assert s == s[..i] + part + s[i + |part|..];
    }
    forall a, b | s == a + part + b ensures Contains(s, part) {
      assert s[|a|..|a| + |part|] == part;
      assert OccursAt(s, part, |a|);
    }
  }

  /** Joining one more part. */
  lemma {:induction false} JoinNext(parts: seq<string>, last: string, sep: string)
    ensures Join([], sep) == "" && Join([last], sep) == last
    ensures parts != [] ==> Join(parts + [last], sep) == Join(parts, sep) + sep + last
  {
    if |parts| > 0 {
      assert (parts + [last])[1..] == parts[1..] + [last];
      JoinNext(parts[1..], last, sep);
    }
  }
}
