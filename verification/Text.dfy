/** Strings: the library calls the modelled code makes (split, join, case
    folding, trimming, number rendering and parsing), with the laws used later.
    Case folding and white space are ASCII. */
module Text {
  import opened Prelude

  // ---- Characters ------------------------------------------------------------

  function LowerChar(c: char): char {
    if 'A' <= c <= 'Z' then c - 'A' + 'a' else c
  }

  function Lower(s: string): (r: string)
    ensures |r| == |s|
    ensures forall i :: 0 <= i < |s| ==> r[i] == LowerChar(s[i])
  {
    seq(|s|, i requires 0 <= i < |s| => LowerChar(s[i]))
  }

  predicate IsSpace(c: char) {
    c == ' ' || '\t' <= c <= '\r'
  }

  /** Blank, tab, line feed, vertical tab, form feed and carriage return. */
  lemma SpacesAre(c: char)
    ensures IsSpace(c) <==> c as int in {32, 9, 10, 11, 12, 13}
  {
  }

  function TrimLeft(s: string): string {
    if s != "" && IsSpace(s[0]) then TrimLeft(s[1..]) else s
  }

  function TrimRight(s: string): string {
    if s != "" && IsSpace(s[|s| - 1]) then TrimRight(s[..|s| - 1]) else s
  }

  function Trim(s: string): string {
    TrimRight(TrimLeft(s))
  }

  predicate AllSpace(s: string) {
    forall i :: 0 <= i < |s| ==> IsSpace(s[i])
  }

  lemma {:induction false} TrimLeftMeans(s: string) returns (pad: string)
    ensures AllSpace(pad) && s == pad + TrimLeft(s) && (TrimLeft(s) != "" ==> !IsSpace(TrimLeft(s)[0]))
  {
    pad := "";
    if s != "" && IsSpace(s[0]) {
      pad := TrimLeftMeans(s[1..]);
      pad := [s[0]] + pad;
      assert s == [s[0]] + s[1..];
    }
  }

  lemma {:induction false} TrimRightMeans(s: string) returns (pad: string)
    ensures AllSpace(pad) && s == TrimRight(s) + pad
    ensures TrimRight(s) != "" ==> !IsSpace(TrimRight(s)[|TrimRight(s)| - 1]) && TrimRight(s)[0] == s[0]
  {
    pad := "";
    if s != "" && IsSpace(s[|s| - 1]) {
      pad := TrimRightMeans(s[..|s| - 1]);
      pad := pad + [s[|s| - 1]];
      assert s == s[..|s| - 1] + [s[|s| - 1]];
    }
  }

  /** Trimming takes the space off both ends and nothing else. */
  lemma TrimMeans(s: string) returns (left: string, right: string)
    ensures AllSpace(left) && AllSpace(right) && s == left + Trim(s) + right
    ensures Trim(s) != "" ==> !IsSpace(Trim(s)[0]) && !IsSpace(Trim(s)[|Trim(s)| - 1])
  {
    left := TrimLeftMeans(s);
    right := TrimRightMeans(TrimLeft(s));
  }

  // ---- Split and join --------------------------------------------------------

  /** strings.Split: always at least one part. */
  function Split(s: string, c: char): (parts: seq<string>)
    ensures |parts| >= 1
  {
    if s == "" then [""]
    else if s[0] == c then [""] + Split(s[1..], c)
    else
      var rest := Split(s[1..], c);
      [[s[0]] + rest[0]] + rest[1..]
  }

  function Join(parts: seq<string>, c: char): string {
    if |parts| == 0 then ""
    else if |parts| == 1 then parts[0]
    else parts[0] + [c] + Join(parts[1..], c)
  }

  lemma {:induction false} SplitCons(p: string, c: char, rest: string)
    requires c !in p
    ensures Split(p + [c] + rest, c) == [p] + Split(rest, c)
  {
    if p == "" {
      assert p + [c] + rest == [c] + rest;
      assert ([c] + rest)[1..] == rest;
    } else {
      var s := p + [c] + rest;
      assert s[1..] == p[1..] + [c] + rest;
      SplitCons(p[1..], c, rest);
      assert [p[0]] + p[1..] == p;
    }
  }

  lemma {:induction false} SplitWhole(p: string, c: char)
    requires c !in p
    ensures Split(p, c) == [p]
  {
    if p != "" {
      SplitWhole(p[1..], c);
      assert [p[0]] + p[1..] == p;
    }
  }

  /** Splitting undoes joining when no part holds the separator. */
  lemma {:induction false} SplitJoin(parts: seq<string>, c: char)
    requires |parts| >= 1 && forall p :: p in parts ==> c !in p
    ensures Split(Join(parts, c), c) == parts
  {
    if |parts| == 1 {
      SplitWhole(parts[0], c);
    } else {
      SplitJoin(parts[1..], c);
      SplitCons(parts[0], c, Join(parts[1..], c));
      assert parts == [parts[0]] + parts[1..];
    }
  }

  lemma {:induction false} PartsAvoid(s: string, c: char)
    ensures forall i :: 0 <= i < |Split(s, c)| ==> c !in Split(s, c)[i]
  {
    if s != "" { PartsAvoid(s[1..], c); }
  }

  /** And joining undoes splitting, always. */
  lemma {:induction false} JoinSplit(s: string, c: char)
    ensures Join(Split(s, c), c) == s
  {
    if s != "" {
      var rest := Split(s[1..], c);
      JoinSplit(s[1..], c);
      assert s == [s[0]] + s[1..];
      if s[0] == c {
        assert ([""] + rest)[1..] == rest;
      } else {
        var parts := [[s[0]] + rest[0]] + rest[1..];
        assert parts[1..] == rest[1..];
        if |rest| > 1 { assert ([s[0]] + rest[0]) + [c] + Join(rest[1..], c) == [s[0]] + (rest[0] + [c] + Join(rest[1..], c)); }
      }
    }
  }

  // ---- Numbers ---------------------------------------------------------------

  function DigitChar(d: nat): (c: char)
    requires d < 16
    ensures DigitValue(c) == d
  {
    if d < 10 then '0' + d as char else 'a' + (d - 10) as char
  }

  /** strconv's digit table; 99 for a character that is no digit in any base. */
  function DigitValue(c: char): nat {
    if '0' <= c <= '9' then (c - '0') as nat
    else if 'a' <= c <= 'z' then (c - 'a') as nat + 10
    else if 'A' <= c <= 'Z' then (c - 'A') as nat + 10
    else 99
  }

  predicate AreDigits(s: string, base: nat) {
    forall i :: 0 <= i < |s| ==> DigitValue(s[i]) < base
  }

  function Value(s: string, base: nat): nat {
    if s == "" then 0 else Value(s[..|s| - 1], base) * base + DigitValue(s[|s| - 1])
  }

  lemma ValueSnoc(s: string, c: char, base: nat)
    ensures Value(s + [c], base) == Value(s, base) * base + DigitValue(c)
  {
    assert (s + [c])[..|s|] == s;
  }

  /** Canonical decimal, as %d and strconv.FormatInt print it. */
  function Decimal(n: nat): (s: string)
    ensures s != "" && AreDigits(s, 10) && '0' <= s[0]
    ensures s[0] == '0' ==> n == 0
    decreases n
  {
    if n < 10 then [DigitChar(n)] else Decimal(n / 10) + [DigitChar(n % 10)]
  }

  lemma {:induction false} DecimalValue(n: nat)
    ensures Value(Decimal(n), 10) == n
  {
    if n < 10 {
      assert Decimal(n)[..0] == "";
    } else {
      DecimalValue(n / 10);
      assert Decimal(n)[..|Decimal(n)| - 1] == Decimal(n / 10);
    }
  }

  /** No digit of any base is a separator: a character without a digit value does not occur. */
  lemma DigitsAvoid(s: string, base: nat, c: char)
    requires AreDigits(s, base) && base <= 36 && DigitValue(c) == 99
    ensures c !in s
  {
  }

  const MAX_INT32: int := 0x7fff_ffff

  /** strconv.ParseInt(s, base, 32). */
  function ParseInt32(s: string, base: nat): Option<int> {
    var neg := s != "" && s[0] == '-';
    var digits := if s != "" && (s[0] == '-' || s[0] == '+') then s[1..] else s;
    if digits == "" || !AreDigits(digits, base) then None
    else
      var v: int := Value(digits, base);
      if neg then (if v <= MAX_INT32 + 1 then Some(-v) else None)
      else (if v <= MAX_INT32 then Some(v) else None)
  }

  /** strconv.FormatInt(n, 10). */
  function FormatInt(n: int): string {
    if n < 0 then "-" + Decimal(-n) else Decimal(n)
  }

  /** %02d for a value below one hundred. */
  function TwoDigits(n: nat): (s: string)
    requires n < 100
    ensures |s| == 2 && AreDigits(s, 10) && Value(s, 10) == n
  {
    var s := [DigitChar(n / 10), DigitChar(n % 10)];
    ValueSnoc("", s[0], 10);
    ValueSnoc([s[0]], s[1], 10);
    assert [s[0]] + [s[1]] == s;
    s
  }

  /** %03x, the serverID field of a CSN. */
  function ThreeHexDigits(n: nat): (s: string)
    requires n < 4096
    ensures |s| == 3 && AreDigits(s, 16) && Value(s, 16) == n
  {
    HexValue(DigitChar(n / 256), DigitChar(n / 16 % 16), DigitChar(n % 16));
    HexParts(n);
    [DigitChar(n / 256), DigitChar(n / 16 % 16), DigitChar(n % 16)]
  }

  lemma HexValue(a: char, b: char, c: char)
    ensures Value([a, b, c], 16) == (DigitValue(a) * 16 + DigitValue(b)) * 16 + DigitValue(c)
  {
    ValueSnoc("", a, 16);
    ValueSnoc([a], b, 16);
    ValueSnoc([a, b], c, 16);
    assert "" + [a] == [a] && [a] + [b] == [a, b] && [a, b] + [c] == [a, b, c];
  }

  lemma HexParts(n: nat)
    ensures (n / 256 * 16 + n / 16 % 16) * 16 + n % 16 == n
  {
    DivDiv(n, 16, 16);
  }
}
