// Strings as the service handles them: white space, decimal numerals, the byte order of `String`,
// and the uniqueness of splitting a string at a separator.
module Text {

  datatype Option<+T> = None | Some(value: T)

  function Min(a: nat, b: nat): nat {
    if a <= b then a else b
  }

  /** Positions `j - 1` and `j` exchanged. */
  function Swapped<T>(s: seq<T>, j: nat): (r: seq<T>)
    requires 0 < j < |s|
    ensures |r| == |s|
  {
    s[j - 1 := s[j]][j := s[j - 1]]
  }

  /** The Unicode `White_Space` property, which `str::trim` uses. */
  predicate IsSpace(c: char) {
    || '\U{0009}' <= c <= '\U{000D}'
    || c == ' ' || c == '\U{0085}' || c == '\U{00A0}' || c == '\U{1680}'
    || '\U{2000}' <= c <= '\U{200A}'
    || c == '\U{2028}' || c == '\U{2029}' || c == '\U{202F}' || c == '\U{205F}' || c == '\U{3000}'
  }

  predicate AllSpace(s: string) {
    forall i | 0 <= i < |s| :: IsSpace(s[i])
  }

  function TrimStart(s: string): (r: string)
    ensures |r| <= |s|
    ensures r != [] ==> !IsSpace(r[0])
    ensures forall c | c in r :: c in s
  {
    if s != [] && IsSpace(s[0]) then TrimStart(s[1..]) else s
  }

  function TrimEnd(s: string): (r: string)
    ensures |r| <= |s| && r == s[..|r|]
    ensures r != [] ==> !IsSpace(r[|r| - 1])
  {
    if s != [] && IsSpace(s[|s| - 1]) then TrimEnd(s[..|s| - 1]) else s
  }

  function Trim(s: string): string {
    TrimEnd(TrimStart(s))
  }

  lemma {:induction false} TrimStartEmpty(s: string)
    ensures TrimStart(s) == [] <==> AllSpace(s)
  {
    if s != [] && IsSpace(s[0]) {
      TrimStartEmpty(s[1..]);
      assert AllSpace(s) ==> AllSpace(s[1..]);
      assert forall i | 1 <= i < |s| :: s[i] == s[1..][i - 1];
    }
  }

  lemma {:induction false} TrimEndEmpty(s: string)
    ensures TrimEnd(s) == [] <==> AllSpace(s)
  {
    if s != [] && IsSpace(s[|s| - 1]) {
      TrimEndEmpty(s[..|s| - 1]);
      assert forall i | 0 <= i < |s| - 1 :: s[i] == s[..|s| - 1][i];
    }
  }

  lemma {:induction false} TrimStartCuts(s: string) returns (before: string)
    ensures s == before + TrimStart(s) && AllSpace(before)
  {
    if s != [] && IsSpace(s[0]) {
      var more := TrimStartCuts(s[1..]);
      before := [s[0]] + more;
      assert s == [s[0]] + s[1..];
    } else {
      before := [];
    }
  }

  lemma {:induction false} TrimEndCuts(s: string) returns (after: string)
    ensures s == TrimEnd(s) + after && AllSpace(after)
  {
    if s != [] && IsSpace(s[|s| - 1]) {
      var more := TrimEndCuts(s[..|s| - 1]);
      after := more + [s[|s| - 1]];
      assert s == s[..|s| - 1] + [s[|s| - 1]];
    } else {
      after := [];
    }
  }

  /** Trimming takes exactly the white space at both ends away. */
  lemma TrimCuts(s: string) returns (before: string, after: string)
    ensures s == before + Trim(s) + after && AllSpace(before) && AllSpace(after)
    ensures var t := Trim(s); t != [] ==> !IsSpace(t[0]) && !IsSpace(t[|t| - 1])
  {
    before := TrimStartCuts(s);
    after := TrimEndCuts(TrimStart(s));
    assert before + (Trim(s) + after) == before + Trim(s) + after;
  }

  lemma TrimEmpty(s: string)
    ensures Trim(s) == [] <==> AllSpace(s)
  {
    TrimStartEmpty(s);
    TrimEndEmpty(TrimStart(s));
  }

  // ---------------------------------------------------------------------------
  // Decimal numerals
  // ---------------------------------------------------------------------------

  predicate IsDigit(c: char) {
    '0' <= c <= '9'
  }

  predicate AllDigits(s: string) {
    forall i | 0 <= i < |s| :: IsDigit(s[i])
  }

  function DigitChar(d: nat): (c: char)
    requires d < 10
    ensures IsDigit(c) && DigitValue(c) == d
  {
    (48 + d) as char
  }

  function DigitValue(c: char): (d: nat)
    requires IsDigit(c)
    ensures d < 10
  {
    c as int - 48
  }

  /** Plain decimal printing, as `{}` does for an unsigned number. */
  function Decimal(n: nat): (s: string)
    ensures |s| >= 1 && AllDigits(s)
  {
    if n < 10 then [DigitChar(n)] else Decimal(n / 10) + [DigitChar(n % 10)]
  }

  function NumeralValue(s: string): nat
    requires AllDigits(s)
  {
    if s == [] then 0 else 10 * NumeralValue(s[..|s| - 1]) + DigitValue(s[|s| - 1])
  }

  /** Reading back a printed number gives the number. */
  lemma {:induction false} DecimalRoundTrip(n: nat)
    ensures NumeralValue(Decimal(n)) == n
  {
    if n >= 10 {
      DecimalRoundTrip(n / 10);
      assert Decimal(n)[..|Decimal(n)| - 1] == Decimal(n / 10);
    }
  }

  /** `{:02}`: at least two digits, never truncated. */
  function TwoDigits(n: nat): (s: string)
    ensures |s| >= 2 && AllDigits(s)
  {
    if n < 10 then ['0'] + Decimal(n) else Decimal(n)
  }

  lemma TwoDigitsRoundTrip(n: nat)
    ensures NumeralValue(TwoDigits(n)) == n
  {
    DecimalRoundTrip(n);
    if n < 10 {
      assert TwoDigits(n)[..1] == ['0'];
      assert NumeralValue(['0']) == 0 by { assert ['0'][..0] == []; }
    }
  }

  // ---------------------------------------------------------------------------
  // Order of strings
  // ---------------------------------------------------------------------------

  /** `<` on Rust strings. */
  predicate Less(a: string, b: string) {
    b != [] && (a == [] || a[0] < b[0] || (a[0] == b[0] && Less(a[1..], b[1..])))
  }

  lemma {:induction false} LessIrreflexive(a: string)
    ensures !Less(a, a)
  {
    if a != [] { LessIrreflexive(a[1..]); }
  }

  lemma {:induction false} LessTransitive(a: string, b: string, c: string)
    requires Less(a, b) && Less(b, c)
    ensures Less(a, c)
  {
    if a != [] && a[0] == b[0] == c[0] { LessTransitive(a[1..], b[1..], c[1..]); }
  }

  lemma {:induction false} LessTotal(a: string, b: string)
    ensures Less(a, b) || a == b || Less(b, a)
  {
    if a != [] && b != [] && a[0] == b[0] {
      LessTotal(a[1..], b[1..]);
      assert a == [a[0]] + a[1..] && b == [b[0]] + b[1..];
    }
  }

  // ---------------------------------------------------------------------------
  // Splitting at a separator
  // ---------------------------------------------------------------------------

  /** Position of the first `sep`, or the length of the string when there is none. */
  function FirstIndex(s: string, sep: char): (i: nat)
    ensures i <= |s|
  {
    if s == [] || s[0] == sep then 0 else 1 + FirstIndex(s[1..], sep)
  }

  lemma {:induction false} FirstIndexFacts(s: string, sep: char)
    ensures var i := FirstIndex(s, sep);
            (forall j | 0 <= j < i :: s[j] != sep) && (i < |s| ==> s[i] == sep)
  {
    if s != [] && s[0] != sep {
      FirstIndexFacts(s[1..], sep);
      assert forall j | 1 <= j < |s| :: s[j] == s[1..][j - 1];
    }
  }

  /** Position of the last `sep`, or the length of the string when there is none. */
  function LastIndex(s: string, sep: char): (i: nat)
    ensures i <= |s|
  {
    if s == [] then 0
    else if s[|s| - 1] == sep then |s| - 1
    else
      var i := LastIndex(s[..|s| - 1], sep);
      if i == |s| - 1 then |s| else i
  }

  lemma {:induction false} LastIndexFacts(s: string, sep: char)
    ensures var i := LastIndex(s, sep);
            && (i < |s| ==> s[i] == sep && forall j | i < j < |s| :: s[j] != sep)
            && (i == |s| ==> forall j | 0 <= j < |s| :: s[j] != sep)
  {
    if s != [] && s[|s| - 1] != sep { LastIndexFacts(s[..|s| - 1], sep); }
  }

  lemma FirstIndexIs(s: string, k: nat, sep: char)
    requires k <= |s| && (k < |s| ==> s[k] == sep) && forall j | 0 <= j < k :: s[j] != sep
    ensures FirstIndex(s, sep) == k
  {
    FirstIndexFacts(s, sep);
  }

  lemma FirstIndexAt(a: string, x: string, sep: char)
    requires FirstIndex(a, sep) == |a|
    ensures FirstIndex(a + [sep] + x, sep) == |a|
  {
    var s := a + [sep] + x;
    FirstIndexFacts(a, sep);
    assert forall j | 0 <= j < |a| :: s[j] == a[j];
    FirstIndexIs(s, |a|, sep);
  }

  lemma Absent(a: string, sep: char)
    requires sep !in a
    ensures FirstIndex(a, sep) == |a|
  {
    FirstIndexIs(a, |a|, sep);
  }

  lemma LastIndexIs(s: string, k: nat, sep: char)
    requires k < |s| && s[k] == sep && forall j | k < j < |s| :: s[j] != sep
    ensures LastIndex(s, sep) == k
  {
    LastIndexFacts(s, sep);
  }

  lemma LastIndexAt(a: string, x: string, sep: char)
    requires sep !in x
    ensures LastIndex(a + [sep] + x, sep) == |a|
  {
    var s := a + [sep] + x;
    NoneAfter(a, x, sep, s);
    LastIndexIs(s, |a|, sep);
  }

  lemma NoneAfter(a: string, x: string, sep: char, s: string)
    requires sep !in x && s == a + [sep] + x
    ensures |a| < |s| && s[|a|] == sep && forall j | |a| < j < |s| :: s[j] != sep
  {}

  /** The first occurrence of a separator splits a string in only one way. */
  lemma SplitFirstUnique(a: string, x: string, b: string, y: string, sep: char)
    requires sep !in a && sep !in b
    requires a + [sep] + x == b + [sep] + y
    ensures a == b && x == y
  {
    Absent(a, sep);
    Absent(b, sep);
    FirstIndexAt(a, x, sep);
    FirstIndexAt(b, y, sep);
    SamePosition(a, x, b, y, sep);
  }

  /** So does the last one. */
  lemma SplitLastUnique(a: string, x: string, b: string, y: string, sep: char)
    requires sep !in x && sep !in y
    requires a + [sep] + x == b + [sep] + y
    ensures a == b && x == y
  {
    LastIndexAt(a, x, sep);
    LastIndexAt(b, y, sep);
    SamePosition(a, x, b, y, sep);
  }

  lemma SamePosition(a: string, x: string, b: string, y: string, sep: char)
    requires |a| == |b| && a + [sep] + x == b + [sep] + y
    ensures a == b && x == y
  {
    var s, t := a + [sep] + x, b + [sep] + y;
    assert a == s[..|a|] && b == t[..|b|];
    assert x == s[|a| + 1..] && y == t[|b| + 1..];
  }

  /** UTF-8 length of a string: what `str::len` counts. */
  function ByteLen(s: string): nat {
    if s == [] then 0 else ByteLen(s[..|s| - 1]) + CharBytes(s[|s| - 1])
  }

  function CharBytes(c: char): nat {
    if c as int < 0x80 then 1 else if c as int < 0x800 then 2 else if c as int < 0x1_0000 then 3 else 4
  }

  /** The bytes of a character in UTF-8 (section 3 of RFC 3629). */
  function Utf8Char(c: char): seq<nat> {
    var n := c as int;
    if n < 0x80 then [n]
    else if n < 0x800 then [0xC0 + n / 0x40, Tail(n)]
    else if n < 0x1_0000 then [0xE0 + n / 0x1000, Tail(n / 0x40), Tail(n)]
    else [0xF0 + n / 0x4_0000, Tail(n / 0x1000), Tail(n / 0x40), Tail(n)]
  }

  /** A continuation byte with the last six bits of `n`. */
  function Tail(n: nat): nat {
    0x80 + n % 0x40
  }

  function Utf8(s: string): seq<nat> {
    if s == [] then [] else Utf8(s[..|s| - 1]) + Utf8Char(s[|s| - 1])
  }

  lemma {:induction false} Utf8Append(a: string, b: string)
    ensures Utf8(a + b) == Utf8(a) + Utf8(b)
  {
    if b == [] {
      assert a + b == a;
    } else {
      var shorter, last := b[..|b| - 1], b[|b| - 1];
      Utf8Append(a, shorter);
      assert (a + b)[..|a + b| - 1] == a + shorter;
      Associative(Utf8(a), Utf8(shorter), Utf8Char(last));
    }
  }

  lemma Associative<T>(a: seq<T>, b: seq<T>, c: seq<T>)
    ensures a + (b + c) == (a + b) + c
  {}

  /** `ByteLen` counts the bytes of the encoding. */
  lemma {:induction false} ByteLenIsUtf8(s: string)
    ensures ByteLen(s) == |Utf8(s)|
  {
    if s != [] { ByteLenIsUtf8(s[..|s| - 1]); }
  }
}
