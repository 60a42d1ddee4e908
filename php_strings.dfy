/**
 * The PHP string built-ins the core relies on, stated at character level
 * (a PHP string is a byte string; every function here treats it as a
 * sequence of Unicode characters, as the `mb_` family does).
 */
module PhpStrings {
  import opened Wrappers

  /** PHP's `empty()` on a string: both "" and "0" are empty. */
  predicate Empty(s: string) {
    s == "" || s == "0"
  }

  /** `empty()` on a nullable string. */
  predicate EmptyOpt(s: Option<string>) {
    s.None? || Empty(s.value)
  }

  /** A nullable string passed where PHP expects a string: null becomes "". */
  function OrEmpty(s: Option<string>): string {
    s.GetOr("")
  }

  /** The characters `trim()` strips when no character list is given. */
  const TrimChars: set<char> := {' ', '\t', '\n', '\r', '\0', '\U{0B}'}

  /** The characters PCRE's `\s` matches when the pattern has no `u` modifier. */
  const PcreSpace: set<char> := {' ', '\t', '\n', '\U{0B}', '\U{0C}', '\r'}

  /** The whitespace PHP skips in front of a numeric string. */
  const NumericSpace: set<char> := {' ', '\t', '\n', '\r', '\U{0B}', '\U{0C}'}

  // ---------------------------------------------------------------------
  // trim, ltrim, rtrim

  /** `ltrim($s, cs)`: drops the longest prefix made of characters in `cs`. */
  function TrimLeft(s: string, cs: set<char>): string
    decreases |s|
  {
    if s != [] && s[0] in cs then TrimLeft(s[1..], cs) else s
  }

  /** `rtrim($s, cs)`: drops the longest suffix made of characters in `cs`. */
  function TrimRight(s: string, cs: set<char>): string
    decreases |s|
  {
    if s != [] && s[|s| - 1] in cs then TrimRight(s[..|s| - 1], cs) else s
  }

  /** `trim($s, cs)`: both ends. */
  function Trim(s: string, cs: set<char>): string {
    TrimRight(TrimLeft(s, cs), cs)
  }

  /**
   * `ltrim` leaves a suffix of its input that starts outside `cs`, and
   * everything it dropped is in `cs`.
   */
  lemma {:induction false} TrimLeftFacts(s: string, cs: set<char>)
    ensures |TrimLeft(s, cs)| <= |s| && TrimLeft(s, cs) == s[|s| - |TrimLeft(s, cs)|..]
    ensures TrimLeft(s, cs) == [] || TrimLeft(s, cs)[0] !in cs
    ensures forall i :: 0 <= i < |s| - |TrimLeft(s, cs)| ==> s[i] in cs
    decreases |s|
  {
    if s != [] && s[0] in cs {
      TrimLeftFacts(s[1..], cs);
    }
  }

  /**
   * `rtrim` leaves a prefix of its input that ends outside `cs`, and
   * everything it dropped is in `cs`.
   */
  lemma {:induction false} TrimRightFacts(s: string, cs: set<char>)
    ensures |TrimRight(s, cs)| <= |s| && TrimRight(s, cs) == s[..|TrimRight(s, cs)|]
    ensures TrimRight(s, cs) == [] || TrimRight(s, cs)[|TrimRight(s, cs)| - 1] !in cs
    ensures forall i :: |TrimRight(s, cs)| <= i < |s| ==> s[i] in cs
    decreases |s|
  {
    if s != [] && s[|s| - 1] in cs {
      TrimRightFacts(s[..|s| - 1], cs);
    }
  }

  /**
   * `trim` with a character list: the result is no longer than the input,
   * neither of its ends is in the list, and every character of it comes
   * from the input.
   */
  lemma TrimFacts(s: string, cs: set<char>)
    ensures |Trim(s, cs)| <= |s|
    ensures Trim(s, cs) == [] || (Trim(s, cs)[0] !in cs && Trim(s, cs)[|Trim(s, cs)| - 1] !in cs)
    ensures forall c :: c in Trim(s, cs) ==> c in s
  {
    var l := TrimLeft(s, cs);
    TrimLeftFacts(s, cs);
    TrimRightFacts(l, cs);
    var r := Trim(s, cs);
    forall c | c in r ensures c in s {
      var k :| 0 <= k < |r| && r[k] == c;
      assert l[k] == c;
      assert s[|s| - |l| + k] == c;
    }
  }

  /** A string whose ends are already outside `cs` is left alone by `trim`. */
  lemma TrimFixesTrimmed(s: string, cs: set<char>)
    requires s == [] || (s[0] !in cs && s[|s| - 1] !in cs)
    ensures Trim(s, cs) == s
  {
  }

  /** `rtrim` removes a tail made only of characters in `cs` and stops at a kept last character. */
  lemma {:induction false} TrimRightDropsTail(x: string, y: string, cs: set<char>)
    requires x == [] || x[|x| - 1] !in cs
    requires forall i :: 0 <= i < |y| ==> y[i] in cs
    ensures TrimRight(x + y, cs) == x
    decreases |y|
  {
    if y == [] {
      assert x + y == x;
    } else {
      var s := x + y;
      assert s[|s| - 1] == y[|y| - 1];
      assert s[..|s| - 1] == x + y[..|y| - 1];
      TrimRightDropsTail(x, y[..|y| - 1], cs);
    }
  }

  // ---------------------------------------------------------------------
  // explode / implode

  /** `explode($d, $s)` for a one-character delimiter: the pieces between the delimiters, in order. */
  function Explode(s: string, d: char): (r: seq<string>)
    ensures |r| >= 1
    ensures forall i :: 0 <= i < |r| ==> d !in r[i]
    ensures |r| > 1 <==> d in s
    ensures |r[0]| <= |s| && r[0] == s[..|r[0]|] && (|r[0]| < |s| ==> s[|r[0]|] == d)
    decreases |s|
  {
    if s == [] then [""]
    else
      var rest := Explode(s[1..], d);
      if s[0] == d then [""] + rest
      else [[s[0]] + rest[0]] + rest[1..]
  }

  /** `implode($d, $parts)`: the inverse of `Explode`. */
  function Implode(parts: seq<string>, d: char): string
  {
    if |parts| == 0 then ""
    else if |parts| == 1 then parts[0]
    else parts[0] + [d] + Implode(parts[1..], d)
  }

  lemma ImplodeCons(p: string, rest: seq<string>, d: char)
    requires |rest| >= 1
    ensures Implode([p] + rest, d) == p + [d] + Implode(rest, d)
  {
    assert ([p] + rest)[1..] == rest;
  }

  lemma ImplodeExtendHead(c: char, parts: seq<string>, d: char)
    requires |parts| >= 1
    ensures Implode([[c] + parts[0]] + parts[1..], d) == [c] + Implode(parts, d)
  {
    var q := [[c] + parts[0]] + parts[1..];
    if |parts| > 1 {
      assert q[1..] == parts[1..];
    }
  }

  /** Joining the pieces with the delimiter gives back the original string. */
  lemma {:induction false} ImplodeExplode(s: string, d: char)
    ensures Implode(Explode(s, d), d) == s
    decreases |s|
  {
    if s != [] {
      var rest := Explode(s[1..], d);
      ImplodeExplode(s[1..], d);
      assert s == [s[0]] + s[1..];
      if s[0] == d {
        ImplodeCons("", rest, d);
      } else {
        ImplodeExtendHead(s[0], rest, d);
      }
    }
  }

  /** A string without the delimiter is one piece. */
  lemma {:induction false} ExplodeNoDelimiter(t: string, d: char)
    requires d !in t
    ensures Explode(t, d) == [t]
    decreases |t|
  {
    if t != [] {
      ExplodeNoDelimiter(t[1..], d);
      assert [t[0]] + t[1..] == t;
    }
  }

  /** Cutting at the first delimiter: the first piece, then the pieces of the rest. */
  lemma {:induction false} ExplodeAtFirst(t: string, u: string, d: char)
    requires d !in t
    ensures Explode(t + [d] + u, d) == [t] + Explode(u, d)
    decreases |t|
  {
    var s := t + [d] + u;
    if t == [] {
      assert s == [d] + u && s[1..] == u;
    } else {
      assert s[0] == t[0] && s[1..] == t[1..] + [d] + u;
      ExplodeAtFirst(t[1..], u, d);
      assert [t[0]] + t[1..] == t;
    }
  }

  // ---------------------------------------------------------------------
  // str_replace

  /**
   * `str_replace($needle, $rep, $s)` for one needle: every occurrence,
   * scanning left to right without overlap; an empty needle changes nothing.
   */
  function StrReplace(s: string, needle: string, rep: string): (r: string)
    ensures forall c :: c in r ==> c in s || c in rep
    ensures |needle| == 1 && needle[0] !in rep ==> needle[0] !in r
    ensures rep == [] ==> |r| <= |s|
    decreases |s|
  {
    if needle == [] || |s| < |needle| then s
    else if s[..|needle|] == needle then rep + StrReplace(s[|needle|..], needle, rep)
    else [s[0]] + StrReplace(s[1..], needle, rep)
  }

  // ---------------------------------------------------------------------
  // mb_strpos

  /** `n` occurs in `h` starting at position `i`. */
  predicate OccursAt(h: string, n: string, i: int) {
    0 <= i && i + |n| <= |h| && h[i..i + |n|] == n
  }

  function StrPosFrom(h: string, n: string, i: nat): (r: Option<nat>)
    requires i <= |h|
    ensures r.Some? ==> i <= r.value && OccursAt(h, n, r.value)
    ensures r.Some? ==> forall j :: i <= j < r.value ==> !OccursAt(h, n, j)
    ensures r.None? ==> forall j :: i <= j ==> !OccursAt(h, n, j)
    decreases |h| - i
  {
    if OccursAt(h, n, i) then Some(i)
    else if i + |n| >= |h| then None
    else StrPosFrom(h, n, i + 1)
  }

  /**
   * `mb_strpos($h, $n)`: the first position of `n` in `h`, or false (None).
   * An empty needle is found at 0, as in PHP 8.
   */
  function StrPos(h: string, n: string): (r: Option<nat>)
    ensures r.Some? ==> OccursAt(h, n, r.value) && forall j :: 0 <= j < r.value ==> !OccursAt(h, n, j)
    ensures r.None? <==> forall j :: !OccursAt(h, n, j)
  {
    StrPosFrom(h, n, 0)
  }

  /** `false !== mb_strpos($h, $n)`. */
  predicate Contains(h: string, n: string) {
    StrPos(h, n).Some?
  }

  /** `if (mb_strpos($h, $n))`: a match at position 0 is falsy, so only a first match after the start counts. */
  predicate FoundAfterStart(h: string, n: string) {
    var p := StrPos(h, n);
    p.Some? && p.value > 0
  }

  /** A needle that does not occur is not replaced. */
  lemma {:induction false} StrReplaceAbsent(s: string, needle: string, rep: string)
    requires forall j :: !OccursAt(s, needle, j)
    ensures StrReplace(s, needle, rep) == s
    decreases |s|
  {
    if needle != [] && |s| >= |needle| {
      assert !OccursAt(s, needle, 0);
      assert s[..|needle|] != needle;
      forall j | true ensures !OccursAt(s[1..], needle, j) {
        if OccursAt(s[1..], needle, j) {
          assert s[1..][j..j + |needle|] == s[j + 1..j + 1 + |needle|];
          assert OccursAt(s, needle, j + 1);
        }
      }
      StrReplaceAbsent(s[1..], needle, rep);
      assert s == [s[0]] + s[1..];
    }
  }

  /** A needle whose first character is absent from `h` does not occur in it. */
  lemma FirstCharAbsent(h: string, n: string)
    requires |n| >= 1 && n[0] !in h
    ensures !Contains(h, n)
  {
    forall j ensures !OccursAt(h, n, j) {
      if 0 <= j && j + |n| <= |h| {
        assert h[j..j + |n|][0] == h[j];
      }
    }
  }

  /** Whatever contains `a + b` contains `a` at the same place. */
  lemma OccursPrefix(h: string, a: string, b: string, i: int)
    requires OccursAt(h, a + b, i)
    ensures OccursAt(h, a, i)
  {
    assert h[i..i + |a|] == h[i..i + |a + b|][..|a|];
  }

  // ---------------------------------------------------------------------
  // case mapping

  /**
   * The Unicode case mapping `mb_strtoupper` / `mb_strtolower` apply, one
   * character at a time; the model keeps it abstract.
   */
  datatype Casing = Casing(upper: char -> char, lower: char -> char)

  /** `mb_strtoupper($s)`. */
  function Upper(cs: Casing, s: string): string {
    seq(|s|, i requires 0 <= i < |s| => cs.upper(s[i]))
  }

  /** `mb_strtolower($s)`. */
  function Lower(cs: Casing, s: string): string {
    seq(|s|, i requires 0 <= i < |s| => cs.lower(s[i]))
  }

  /** `mb_strtoupper(mb_substr($s, 0, 1))`: the upper-cased first character, or "". */
  function UpperInitial(cs: Casing, s: string): string {
    if s == [] then "" else [cs.upper(s[0])]
  }

  /** `ucfirst($s)`: upper-cases an ASCII lower-case first letter and nothing else. */
  function Ucfirst(s: string): string {
    if s != [] && 'a' <= s[0] <= 'z' then [(s[0] as int - 32) as char] + s[1..] else s
  }

  // ---------------------------------------------------------------------
  // integers and strings

  predicate IsDigit(c: char) {
    '0' <= c <= '9'
  }

  predicate AllDigits(s: string) {
    forall i :: 0 <= i < |s| ==> IsDigit(s[i])
  }

  /** The longest prefix of decimal digits. */
  function LeadingDigits(s: string): (r: string)
    ensures |r| <= |s| && r == s[..|r|] && AllDigits(r)
    ensures AllDigits(s) ==> r == s
    decreases |s|
  {
    if s != [] && IsDigit(s[0]) then [s[0]] + LeadingDigits(s[1..]) else ""
  }

  /** The number a run of decimal digits denotes. */
  function DigitsValue(ds: string): nat
    requires AllDigits(ds)
    decreases |ds|
  {
    if ds == [] then 0 else DigitsValue(ds[..|ds| - 1]) * 10 + (ds[|ds| - 1] as int - '0' as int)
  }

  /**
   * `(int) $s`: skips leading whitespace, reads an optional sign and the
   * longest run of decimal digits; a string with no digits there gives 0.
   */
  function IntCast(s: string): int {
    var t := TrimLeft(s, NumericSpace);
    if t != [] && t[0] == '-' then -(DigitsValue(LeadingDigits(t[1..])) as int)
    else if t != [] && t[0] == '+' then DigitsValue(LeadingDigits(t[1..]))
    else DigitsValue(LeadingDigits(t))
  }

  /** `sprintf('%d', $n)` for n >= 0. */
  function NatToDecimal(n: nat): (r: string)
    ensures |r| >= 1 && AllDigits(r)
    decreases n
  {
    if n < 10 then [('0' as int + n) as char]
    else NatToDecimal(n / 10) + [('0' as int + n % 10) as char]
  }

  /** `sprintf('%d', $n)`. */
  function IntToDecimal(n: int): string {
    if n < 0 then "-" + NatToDecimal(-n) else NatToDecimal(n)
  }

  /** Reading back the digits `%d` prints gives the number. */
  lemma {:induction false} NatToDecimalValue(n: nat)
    ensures DigitsValue(NatToDecimal(n)) == n
    decreases n
  {
    if n >= 10 {
      NatToDecimalValue(n / 10);
      var r := NatToDecimal(n);
      assert r[..|r| - 1] == NatToDecimal(n / 10);
    }
  }

  /** `(int) sprintf('%d', $n) === $n`: the integer cast inverts `%d`. */
  lemma IntCastOfDecimal(n: int)
    ensures IntCast(IntToDecimal(n)) == n
  {
    var s := IntToDecimal(n);
    if n < 0 {
      var ds := NatToDecimal(-n);
      assert s == ['-'] + ds;
      assert s[0] == '-' && s[1..] == ds;
      assert s[0] !in NumericSpace;
      assert TrimLeft(s, NumericSpace) == s;
      assert LeadingDigits(ds) == ds;
      NatToDecimalValue(-n);
      assert IntCast(s) == -(DigitsValue(ds) as int);
    } else {
      assert IsDigit(s[0]);
      assert s[0] !in NumericSpace;
      assert TrimLeft(s, NumericSpace) == s;
      assert LeadingDigits(s) == s;
      NatToDecimalValue(n);
    }
  }

  /** `mb_substr_count($s, c)` for a one-character needle. */
  function CountChar(s: string, c: char): (n: nat)
    ensures n <= |s|
  {
    if s == [] then 0 else (if s[0] == c then 1 else 0) + CountChar(s[1..], c)
  }
}
