/** String helpers the poll widget relies on: `String.prototype.trim` (applied to the
    typed user name), `split("|")` (applied to a poll's item attribute) and the decimal
    rendering of a count inside the item tooltip. */
module Text {

  /** The item separator of a poll's `items` attribute. */
  const Separator: char := '|'

  // ---------------------------------------------------------------------------
  // Trimming

  /** The characters ECMAScript's `trim` strips: WhiteSpace and LineTerminator code points. */
  predicate IsJsWhitespace(c: char) {
    var k := c as int;
    k == 0x09 || k == 0x0A || k == 0x0B || k == 0x0C || k == 0x0D || k == 0x20 ||
    k == 0xA0 || k == 0x1680 || (0x2000 <= k <= 0x200A) || k == 0x2028 || k == 0x2029 ||
    k == 0x202F || k == 0x205F || k == 0x3000 || k == 0xFEFF
  }

  /** The index of the first non-whitespace character of `s` at or after `i`, or `|s|`. */
  function SkipStart(s: string, i: nat): (r: nat)
    requires i <= |s|
    ensures i <= r <= |s|
    ensures forall k :: i <= k < r ==> IsJsWhitespace(s[k])
    ensures r < |s| ==> !IsJsWhitespace(s[r])
    decreases |s| - i
  {
    if i < |s| && IsJsWhitespace(s[i]) then SkipStart(s, i + 1) else i
  }

  /** The index just past the last non-whitespace character of `s` before `j`, or 0. */
  function SkipEnd(s: string, j: nat): (r: nat)
    requires j <= |s|
    ensures r <= j
    ensures forall k :: r <= k < j ==> IsJsWhitespace(s[k])
    ensures r > 0 ==> !IsJsWhitespace(s[r - 1])
  {
    if j > 0 && IsJsWhitespace(s[j - 1]) then SkipEnd(s, j - 1) else j
  }

  /** Drops leading whitespace: the result is a suffix of `s` that starts with a
      non-whitespace character, and everything dropped is whitespace. */
  function TrimStart(s: string): (r: string)
    ensures |r| <= |s| && r == s[|s| - |r|..]
    ensures r != [] ==> !IsJsWhitespace(r[0])
    ensures forall k :: 0 <= k < |s| - |r| ==> IsJsWhitespace(s[k])
  {
    s[SkipStart(s, 0)..]
  }

  /** Drops trailing whitespace: the result is a prefix of `s` that ends with a
      non-whitespace character, and everything dropped is whitespace. */
  function TrimEnd(s: string): (r: string)
    ensures |r| <= |s| && r == s[..|r|]
    ensures r != [] ==> !IsJsWhitespace(r[|r| - 1])
    ensures forall k :: |r| <= k < |s| ==> IsJsWhitespace(s[k])
  {
    s[..SkipEnd(s, |s|)]
  }

  /** `s.trim()`. */
  function Trim(s: string): string {
    TrimEnd(TrimStart(s))
  }

  /** A string that neither starts nor ends with whitespace. */
  predicate IsTrimmed(s: string) {
    s == [] || (!IsJsWhitespace(s[0]) && !IsJsWhitespace(s[|s| - 1]))
  }

  /** `Trim(s)` is the slice of `s` between a whitespace-only head and a whitespace-only
      tail, and it neither starts nor ends with whitespace. */
  lemma TrimShape(s: string)
    ensures var a := |s| - |TrimStart(s)|;
      a + |Trim(s)| <= |s| && Trim(s) == s[a..a + |Trim(s)|] &&
      (forall k :: 0 <= k < a ==> IsJsWhitespace(s[k])) &&
      (forall k :: a + |Trim(s)| <= k < |s| ==> IsJsWhitespace(s[k]))
    ensures Trim(s) != [] ==> !IsJsWhitespace(Trim(s)[0]) && !IsJsWhitespace(Trim(s)[|Trim(s)| - 1])
  {
  }

  /** `trim` leaves exactly the trimmed strings unchanged, and its result is trimmed;
      so trimming twice is trimming once. */
  lemma TrimFixesTrimmed(s: string)
    ensures IsTrimmed(s) <==> Trim(s) == s
    ensures IsTrimmed(Trim(s))
    ensures Trim(Trim(s)) == Trim(s)
  {
  }

  // ---------------------------------------------------------------------------
  // Splitting and joining on the separator

  /** `s.split("|")`: the pieces between separators, in order; an empty string gives
      one empty piece, and adjacent separators give empty pieces. */
  function Split(s: string): (r: seq<string>)
    ensures |r| >= 1
    ensures forall k :: 0 <= k < |r| ==> Separator !in r[k]
  {
    if s == [] then [[]]
    else
      var rest := Split(s[1..]);
      if s[0] == Separator then [[]] + rest
      else [[s[0]] + rest[0]] + rest[1..]
  }

  /** `parts.join("|")`. */
  function Join(parts: seq<string>): string {
    if |parts| == 0 then []
    else if |parts| == 1 then parts[0]
    else parts[0] + [Separator] + Join(parts[1..])
  }

  /** Joining the pieces of a split gives back the original attribute. */
  lemma {:induction false} JoinSplit(s: string)
    ensures Join(Split(s)) == s
  {
    if s != [] {
      var rest := Split(s[1..]);
      JoinSplit(s[1..]);
      if s[0] == Separator {
        assert ([[]] + rest)[1..] == rest;
        assert Join([[]] + rest) == [] + [Separator] + Join(rest);
      } else if |rest| == 1 {
        assert Split(s) == [[s[0]] + rest[0]];
        assert Join(rest) == rest[0];
      } else {
        var first := [s[0]] + rest[0];
        assert Split(s) == [first] + rest[1..];
        assert ([first] + rest[1..])[1..] == rest[1..];
        assert Join(Split(s)) == first + [Separator] + Join(rest[1..]);
        assert Join(rest) == rest[0] + [Separator] + Join(rest[1..]);
        assert s == [s[0]] + s[1..];
      }
    }
  }

  /** Splitting a string that starts with a separator-free piece `x`. */
  lemma {:induction false} SplitPrefix(x: string, t: string)
    requires Separator !in x
    ensures Split(x + t) == [x + Split(t)[0]] + Split(t)[1..]
  {
    if x != [] {
      var whole := x + t;
      var tail := x[1..] + t;
      SplitPrefix(x[1..], t);
      var st := Split(t);
      var rest := Split(tail);
      assert whole[1..] == tail;
      assert whole != [] && whole[0] == x[0] && x[0] != Separator;
      assert rest[0] == x[1..] + st[0] && rest[1..] == st[1..];
      assert Split(whole) == [[x[0]] + rest[0]] + rest[1..];
      assert [x[0]] + (x[1..] + st[0]) == x + st[0];
    } else {
      var r := Split(t);
      assert x + t == t;
      assert r == [r[0]] + r[1..];
      assert x + r[0] == r[0];
    }
  }

  /** Splitting a join of separator-free pieces gives back the pieces: every list of
      item values can be written as an attribute. */
  lemma {:induction false} SplitJoin(parts: seq<string>)
    requires |parts| >= 1
    requires forall k :: 0 <= k < |parts| ==> Separator !in parts[k]
    ensures Split(Join(parts)) == parts
  {
    if |parts| == 1 {
      SplitPrefix(parts[0], []);
      assert parts[0] + [] == parts[0];
    } else {
      var tail := Join(parts[1..]);
      SplitJoin(parts[1..]);
      assert parts[0] + [Separator] + tail == parts[0] + ([Separator] + tail);
      SplitPrefix(parts[0], [Separator] + tail);
      assert ([Separator] + tail)[1..] == tail;
      var pieces := Split([Separator] + tail);
      assert pieces == [[]] + parts[1..];
      assert pieces[0] == [] && pieces[1..] == parts[1..];
      assert Join(parts) == parts[0] + [Separator] + tail;
      assert parts[0] + pieces[0] == parts[0];
      assert parts == [parts[0]] + parts[1..];
    }
  }

  // ---------------------------------------------------------------------------
  // Decimal rendering of a count (template literal `${n}`)

  predicate IsDigit(c: char) {
    '0' <= c <= '9'
  }

  function DigitChar(d: nat): (c: char)
    requires d < 10
    ensures IsDigit(c)
  {
    "0123456789"[d]
  }

  function DigitValue(c: char): nat
    requires IsDigit(c)
  {
    (c as int) - ('0' as int)
  }

  /** The decimal digits of `n`, most significant first, with no leading zero. */
  function NatToString(n: nat): (r: string)
    ensures |r| >= 1
    ensures forall k :: 0 <= k < |r| ==> IsDigit(r[k])
    ensures r[0] == '0' ==> n == 0
  {
    if n < 10 then [DigitChar(n)] else NatToString(n / 10) + [DigitChar(n % 10)]
  }

  /** Reads a run of decimal digits back as a number. */
  function ParseNat(s: string): nat
    requires forall k :: 0 <= k < |s| ==> IsDigit(s[k])
  {
    if s == [] then 0 else ParseNat(s[..|s| - 1]) * 10 + DigitValue(s[|s| - 1])
  }

  /** The digits of `n` read back give `n`. */
  lemma {:induction false} ParseNatToString(n: nat)
    ensures ParseNat(NatToString(n)) == n
  {
    if n >= 10 {
      var r := NatToString(n);
      assert r[..|r| - 1] == NatToString(n / 10);
      ParseNatToString(n / 10);
      assert DigitValue(DigitChar(n % 10)) == n % 10;
    } else {
      assert DigitValue(DigitChar(n)) == n;
    }
  }

  /** The longest prefix of `s` made of digits. */
  function LeadingDigits(s: string): (r: string)
    ensures |r| <= |s| && r == s[..|r|]
    ensures forall k :: 0 <= k < |r| ==> IsDigit(r[k])
    ensures |r| < |s| ==> !IsDigit(s[|r|])
  {
    if s != [] && IsDigit(s[0]) then [s[0]] + LeadingDigits(s[1..]) else []
  }

  /** A digit run followed by a non-digit is read off as that digit run. */
  lemma {:induction false} LeadingDigitsOf(d: string, t: string)
    requires forall k :: 0 <= k < |d| ==> IsDigit(d[k])
    requires t == [] || !IsDigit(t[0])
    ensures LeadingDigits(d + t) == d
  {
    if d != [] {
      assert (d + t)[0] == d[0];
      assert (d + t)[1..] == d[1..] + t;
      LeadingDigitsOf(d[1..], t);
      assert d == [d[0]] + d[1..];
    } else {
      assert d + t == t;
    }
  }
}
