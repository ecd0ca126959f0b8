/** The parts of Go's `strings` and `strconv` packages the cleaner relies on,
    on strings as sequences of characters. */
module Strings {
  import opened Outcomes

  /** Go's unicode.IsSpace: the whitespace strings.TrimSpace removes. */
  predicate IsSpace(c: char) {
    c == ' ' || c == '\t' || c == '\n' || c == '\r' || c == '\U{B}' || c == '\U{C}'
    || c == '\U{85}' || c == '\U{A0}' || c == '\U{1680}'
    || ('\U{2000}' <= c <= '\U{200A}')
    || c == '\U{2028}' || c == '\U{2029}' || c == '\U{202F}' || c == '\U{205F}' || c == '\U{3000}'
  }

  predicate AllSpace(s: string) {
    forall i :: 0 <= i < |s| ==> IsSpace(s[i])
  }

  /** `sub` occurs in `s` starting at index `i`. */
  predicate OccursAt(s: string, sub: string, i: int) {
    0 <= i && i + |sub| <= |s| && s[i..i + |sub|] == sub
  }

  /** strings.Index: the first index at which `sub` occurs in `s`. */
  function IndexOf(s: string, sub: string): (r: Option<nat>)
    ensures r.Some? ==> OccursAt(s, sub, r.value)
    ensures r.Some? ==> forall i :: 0 <= i < r.value ==> !OccursAt(s, sub, i)
    ensures r.None? ==> forall i :: !OccursAt(s, sub, i)
    decreases |s|
  {
    if |s| < |sub| then
      assert forall i :: !OccursAt(s, sub, i);
      None
    else if s[..|sub|] == sub then
      Some(0)
    else
      var rest := IndexOf(s[1..], sub);
      OccursAtTail(s, sub);
      match rest
      case None => None
      case Some(k) => Some(k + 1)
  }

  lemma OccursAtTail(s: string, sub: string)
    requires |s| > 0
    ensures forall i :: 1 <= i ==> (OccursAt(s, sub, i) <==> OccursAt(s[1..], sub, i - 1))
  {
    forall i | 1 <= i
      ensures OccursAt(s, sub, i) <==> OccursAt(s[1..], sub, i - 1)
    {
      if i + |sub| <= |s| {
        assert s[1..][i - 1..i - 1 + |sub|] == s[i..i + |sub|];
      }
    }
  }

  lemma OccursAtPrefix(s: string, sub: string, n: nat)
    requires n <= |s|
    ensures forall j :: OccursAt(s[..n], sub, j) ==> OccursAt(s, sub, j)
  {
    forall j | OccursAt(s[..n], sub, j)
      ensures OccursAt(s, sub, j)
    {
      assert s[..n][j..j + |sub|] == s[j..j + |sub|];
    }
  }

  /** strings.Contains. */
  predicate Contains(s: string, sub: string) {
    IndexOf(s, sub).Some?
  }

  /** A string none of whose characters starts `sub` does not contain it. */
  lemma NoOccurrence(s: string, sub: string)
    requires |sub| > 0 && forall i :: 0 <= i < |s| ==> s[i] != sub[0]
    ensures !Contains(s, sub)
  {
    forall i | 0 <= i && i + |sub| <= |s| ensures !OccursAt(s, sub, i) {
      assert s[i..i + |sub|][0] == s[i];
    }
  }

  /** strings.HasPrefix. */
  predicate HasPrefix(s: string, prefix: string) {
    |prefix| <= |s| && s[..|prefix|] == prefix
  }

  /** strings.Join. */
  function Join(parts: seq<string>, sep: string): string
    decreases |parts|
  {
    if |parts| == 0 then ""
    else if |parts| == 1 then parts[0]
    else parts[0] + sep + Join(parts[1..], sep)
  }

  /** strings.Split with a non-empty separator: the pieces between the successive,
      non-overlapping occurrences of `sep`, found from the left. */
  function Split(s: string, sep: string): (parts: seq<string>)
    requires |sep| > 0
    ensures |parts| >= 1
    decreases |s|
  {
    match IndexOf(s, sep)
    case None => [s]
    case Some(i) => [s[..i]] + Split(s[i + |sep|..], sep)
  }

  /** Joining the pieces with the separator gives the string back. */
  lemma {:induction false} SplitJoin(s: string, sep: string)
    requires |sep| > 0
    ensures Join(Split(s, sep), sep) == s
    decreases |s|
  {
    match IndexOf(s, sep)
    case None =>
    case Some(i) =>
      var rest := Split(s[i + |sep|..], sep);
      SplitJoin(s[i + |sep|..], sep);
      assert Join([s[..i]] + rest, sep) == s[..i] + sep + Join(rest, sep);
      assert s == s[..i] + sep + s[i + |sep|..];
  }

  /** No piece of a split contains the separator. */
  lemma {:induction false} SplitPiecesFree(s: string, sep: string)
    requires |sep| > 0
    ensures forall k :: 0 <= k < |Split(s, sep)| ==> !Contains(Split(s, sep)[k], sep)
    decreases |s|
  {
    match IndexOf(s, sep)
    case None =>
    case Some(i) =>
      SplitPiecesFree(s[i + |sep|..], sep);
      OccursAtPrefix(s, sep, i);
  }

  /** The separators are found from the left: no occurrence of `sep` starts
      inside a piece, not even one that runs on into the separator after it. */
  lemma {:induction false} SplitLeftmost(s: string, sep: string)
    requires |sep| > 0
    ensures forall k :: 0 <= k < |Split(s, sep)| - 1 ==> !Contains(Split(s, sep)[k] + sep[..|sep| - 1], sep)
    decreases |s|
  {
    match IndexOf(s, sep)
    case None =>
    case Some(i) =>
      var rest := Split(s[i + |sep|..], sep);
      SplitLeftmost(s[i + |sep|..], sep);
      var t := s[..i] + sep[..|sep| - 1];
      assert t == s[..i + |sep| - 1];
      OccursAtPrefix(s, sep, i + |sep| - 1);
      assert !Contains(t, sep);
      assert Split(s, sep) == [s[..i]] + rest;
      forall k | 0 <= k < |Split(s, sep)| - 1
        ensures !Contains(Split(s, sep)[k] + sep[..|sep| - 1], sep)
      {
        if k > 0 {
          assert Split(s, sep)[k] == rest[k - 1];
        }
      }
  }

  /** When no occurrence of `sep` starts inside `p`, the first one in
      `p + sep + rest` is the one right after `p`. */
  lemma FirstOccurrenceAfter(p: string, sep: string, rest: string)
    requires |sep| > 0 && !Contains(p + sep[..|sep| - 1], sep)
    ensures IndexOf(p + sep + rest, sep) == Some(|p|)
  {
    var s, t := p + sep + rest, p + sep[..|sep| - 1];
    assert s[|p|..|p| + |sep|] == sep;
    assert OccursAt(s, sep, |p|);
    assert s[..|t|] == t;
    forall j | 0 <= j < |p| ensures !OccursAt(s, sep, j) {
      assert j + |sep| <= |t|;
      assert s[..|t|][j..j + |sep|] == s[j..j + |sep|];
      assert !OccursAt(t, sep, j);
    }
  }

  /** Joining back, separator-free pieces and leftmost separators pin the split
      down: any list of pieces with those three properties is Split(s, sep). */
  lemma {:induction false} SplitUnique(s: string, sep: string, parts: seq<string>)
    requires |sep| > 0 && |parts| >= 1 && Join(parts, sep) == s
    requires forall k :: 0 <= k < |parts| ==> !Contains(parts[k], sep)
    requires forall k :: 0 <= k < |parts| - 1 ==> !Contains(parts[k] + sep[..|sep| - 1], sep)
    ensures parts == Split(s, sep)
    decreases |parts|
  {
    if |parts| == 1 {
      assert s == parts[0];
    } else {
      var p, tail := parts[0], parts[1..];
      var rest := Join(tail, sep);
      assert s == p + sep + rest;
      FirstOccurrenceAfter(p, sep, rest);
      assert s[..|p|] == p && s[|p| + |sep|..] == rest;
      forall k | 0 <= k < |tail| ensures tail[k] == parts[k + 1] { }
      SplitUnique(rest, sep, tail);
    }
  }

  /** A split yields more than one piece exactly when the separator occurs. */
  lemma SplitSingle(s: string, sep: string)
    requires |sep| > 0
    ensures !Contains(s, sep) <==> Split(s, sep) == [s]
  {
  }

  /** strings.TrimLeftFunc(s, unicode.IsSpace). */
  function TrimLeft(s: string): string
    decreases |s|
  {
    if |s| > 0 && IsSpace(s[0]) then TrimLeft(s[1..]) else s
  }

  lemma {:induction false} TrimLeftSpec(s: string)
    ensures |TrimLeft(s)| <= |s|
    ensures s == s[..|s| - |TrimLeft(s)|] + TrimLeft(s)
    ensures AllSpace(s[..|s| - |TrimLeft(s)|])
    ensures TrimLeft(s) == [] || !IsSpace(TrimLeft(s)[0])
    decreases |s|
  {
    if |s| > 0 && IsSpace(s[0]) {
      TrimLeftSpec(s[1..]);
      var r := TrimLeft(s[1..]);
      var cut := s[1..][..|s[1..]| - |r|];
      var spaces := s[..|s| - |r|];
      assert spaces == [s[0]] + cut;
      forall k | 0 <= k < |spaces| ensures IsSpace(spaces[k]) {
        if k > 0 {
          assert spaces[k] == cut[k - 1];
        }
      }
    }
  }

  lemma AllSpaceSnoc(spaces: string, c: char)
    requires AllSpace(spaces) && IsSpace(c)
    ensures AllSpace(spaces + [c])
  {
    var t := spaces + [c];
    forall k | 0 <= k < |t| ensures IsSpace(t[k]) {
      if k < |spaces| {
        assert t[k] == spaces[k];
      }
    }
  }

  /** strings.TrimRightFunc(s, unicode.IsSpace). */
  function TrimRight(s: string): string
    decreases |s|
  {
    if |s| > 0 && IsSpace(s[|s| - 1]) then TrimRight(s[..|s| - 1]) else s
  }

  lemma {:induction false} TrimRightSpec(s: string)
    ensures |TrimRight(s)| <= |s|
    ensures s == TrimRight(s) + s[|TrimRight(s)|..]
    ensures AllSpace(s[|TrimRight(s)|..])
    ensures TrimRight(s) == [] || !IsSpace(TrimRight(s)[|TrimRight(s)| - 1])
    decreases |s|
  {
    if |s| > 0 && IsSpace(s[|s| - 1]) {
      var front := s[..|s| - 1];
      TrimRightSpec(front);
      var r := TrimRight(front);
      var cut := front[|r|..];
      assert s == front + [s[|s| - 1]];
      assert s[|r|..] == cut + [s[|s| - 1]];
      AllSpaceSnoc(cut, s[|s| - 1]);
    }
  }

  /** strings.TrimSpace. */
  function TrimSpace(s: string): string {
    TrimRight(TrimLeft(s))
  }

  /** TrimSpace removes leading and trailing whitespace and nothing else. */
  lemma TrimSpaceStrips(s: string)
    ensures exists i :: 0 <= i <= |s| - |TrimSpace(s)| && s == s[..i] + TrimSpace(s) + s[i + |TrimSpace(s)|..]
                        && AllSpace(s[..i]) && AllSpace(s[i + |TrimSpace(s)|..])
  {
    var l := TrimLeft(s);
    var r := TrimRight(l);
    TrimLeftSpec(s);
    TrimRightSpec(l);
    var i := |s| - |l|;
    assert s[i..] == l;
    assert s[i + |r|..] == l[|r|..];
    assert s == s[..i] + r + s[i + |r|..];
  }

  /** What TrimSpace returns neither starts nor ends with whitespace. */
  lemma TrimSpaceEnds(s: string)
    ensures TrimSpace(s) == [] || (!IsSpace(TrimSpace(s)[0]) && !IsSpace(TrimSpace(s)[|TrimSpace(s)| - 1]))
  {
    var l := TrimLeft(s);
    var r := TrimRight(l);
    TrimLeftSpec(s);
    TrimRightSpec(l);
    if r != [] {
      assert r[0] == l[0];
    }
  }

  /** unicode.ToLower restricted to ASCII letters. */
  function LowerChar(c: char): char {
    if 'A' <= c <= 'Z' then (c as int + 32) as char else c
  }

  /** strings.ToLower, on ASCII letters. */
  function ToLower(s: string): (r: string)
    ensures |r| == |s|
    ensures forall i :: 0 <= i < |s| ==> r[i] == LowerChar(s[i])
    decreases |s|
  {
    if |s| == 0 then "" else [LowerChar(s[0])] + ToLower(s[1..])
  }

  /** Lowercasing yields "y" exactly for "y" and "Y". */
  lemma {:induction false} ToLowerIsWord(s: string)
    ensures ToLower(s) == "y" <==> s == "y" || s == "Y"
  {
    if |s| == 1 {
      assert ToLower(s)[0] == LowerChar(s[0]);
    }
  }

  // ---------------------------------------------------------------------------
  // strconv.Atoi and its inverse strconv.Itoa, for 64-bit ints.

  const MinInt64: int := -0x8000_0000_0000_0000
  const MaxInt64: int := 0x7FFF_FFFF_FFFF_FFFF

  predicate IsDigit(c: char) {
    '0' <= c <= '9'
  }

  predicate AllDigits(s: string) {
    forall i :: 0 <= i < |s| ==> IsDigit(s[i])
  }

  /** The value of a string of decimal digits, most significant first. */
  function DecimalValue(s: string): nat
    requires AllDigits(s)
    decreases |s|
  {
    if |s| == 0 then 0
    else 10 * DecimalValue(s[..|s| - 1]) + (s[|s| - 1] as int - '0' as int)
  }

  /** The strings strconv.Atoi accepts, range aside: an optional '+' or '-'
      followed by one or more decimal digits. */
  predicate IntegerSyntax(s: string) {
    || (|s| > 0 && AllDigits(s))
    || (|s| > 1 && (s[0] == '+' || s[0] == '-') && AllDigits(s[1..]))
  }

  /** The integer such a string denotes, without the 64-bit range. */
  function SignedDecimal(s: string): int
    requires IntegerSyntax(s)
  {
    if s[0] == '-' then -(DecimalValue(s[1..]) as int)
    else if s[0] == '+' then DecimalValue(s[1..])
    else DecimalValue(s)
  }

  /** strconv.Atoi: an optional sign followed by at least one decimal digit,
      within the range of a 64-bit int; anything else is an error (None). */
  function Atoi(s: string): (r: Option<int>)
    ensures r.Some? <==> IntegerSyntax(s) && MinInt64 <= SignedDecimal(s) <= MaxInt64
    ensures r.Some? ==> r.value == SignedDecimal(s)
    ensures r.Some? ==> MinInt64 <= r.value <= MaxInt64
  {
    if |s| == 0 then None
    else
      var signed := s[0] == '-' || s[0] == '+';
      var digits := if signed then s[1..] else s;
      if |digits| == 0 || !AllDigits(digits) then None
      else
        var v := if s[0] == '-' then -(DecimalValue(digits) as int) else DecimalValue(digits);
        if MinInt64 <= v <= MaxInt64 then Some(v) else None
  }

  /** Decimal digits of a natural number, without leading zeros. */
  function Digits(n: nat): (r: string)
    ensures |r| > 0 && AllDigits(r)
    decreases n
  {
    if n < 10 then [('0' as int + n) as char]
    else Digits(n / 10) + [('0' as int + n % 10) as char]
  }

  /** strconv.Itoa. */
  function Itoa(n: int): string {
    if n < 0 then "-" + Digits(-n) else Digits(n)
  }

  lemma {:induction false} DigitsValue(n: nat)
    ensures DecimalValue(Digits(n)) == n
    decreases n
  {
    if n >= 10 {
      DigitsValue(n / 10);
      var d := Digits(n);
      assert d[..|d| - 1] == Digits(n / 10);
    }
  }

  predicate AllZeros(z: string) {
    forall i :: 0 <= i < |z| ==> z[i] == '0'
  }

  lemma {:induction false} ZerosValue(z: string)
    requires AllZeros(z)
    ensures AllDigits(z) && DecimalValue(z) == 0
    decreases |z|
  {
    if |z| > 0 {
      ZerosValue(z[..|z| - 1]);
    }
  }

  /** Leading zeros do not change the value of a digit string. */
  lemma {:induction false} LeadingZerosValue(z: string, d: string)
    requires AllZeros(z) && AllDigits(d)
    ensures AllDigits(z + d) && DecimalValue(z + d) == DecimalValue(d)
    decreases |d|
  {
    ZerosValue(z);
    if |d| == 0 {
      assert z + d == z;
    } else {
      var n := |d| - 1;
      assert (z + d)[..|z + d| - 1] == z + d[..n];
      LeadingZerosValue(z, d[..n]);
    }
  }

  /** Atoi reads through leading zeros and an explicit sign: "007", "+7" and
      "+007" all read as 7, and "-007" as -7. */
  lemma AtoiPadded(z: string, n: nat)
    requires AllZeros(z)
    ensures n <= MaxInt64 ==> Atoi(z + Digits(n)) == Some(n)
    ensures n <= MaxInt64 ==> Atoi("+" + z + Digits(n)) == Some(n)
    ensures n <= -MinInt64 ==> Atoi("-" + z + Digits(n)) == Some(-(n as int))
  {
    var d := z + Digits(n);
    DigitsValue(n);
    LeadingZerosValue(z, Digits(n));
    assert IsDigit(d[0]);
    assert IntegerSyntax(d) && SignedDecimal(d) == n;
    var plus, minus := "+" + z + Digits(n), "-" + z + Digits(n);
    assert plus[1..] == d && minus[1..] == d;
    assert IntegerSyntax(plus) && SignedDecimal(plus) == n;
    assert IntegerSyntax(minus) && SignedDecimal(minus) == -(n as int);
  }

  /** Parsing what Itoa prints gives the number back: Atoi(Itoa(n)) == n. */
  lemma AtoiItoa(n: int)
    requires MinInt64 <= n <= MaxInt64
    ensures Atoi(Itoa(n)) == Some(n)
  {
    if n < 0 {
      AtoiPadded("", -n);
      assert Itoa(n) == "-" + "" + Digits(-n);
    } else {
      AtoiPadded("", n);
      assert Itoa(n) == "" + Digits(n);
    }
  }
}
