/** Decimal integers and words, as the daemon prints them and as its peers read them back. */
module Text {
  datatype Option<+T> = None | Some(value: T)

  predicate IsSpace(c: char) {
    c == ' ' || c == '\t' || c == '\n' || c == '\r' || c == '\U{0B}' || c == '\U{0C}'
  }

  predicate IsDigit(c: char) {
    '0' <= c <= '9'
  }

  // ---- words ----

  /** Length of the longest prefix without white space. */
  function WordLength(s: string): (n: nat)
    ensures n <= |s|
    ensures forall i | 0 <= i < n :: !IsSpace(s[i])
    ensures n < |s| ==> IsSpace(s[n])
  {
    if s == [] || IsSpace(s[0]) then 0 else 1 + WordLength(s[1..])
  }

  /** Python's `str.split()` and Go's `strings.Fields`: the maximal runs without white space. */
  function Words(s: string): seq<string>
    decreases |s|
  {
    if s == [] then []
    else if IsSpace(s[0]) then Words(s[1..])
    else [s[..WordLength(s)]] + Words(s[WordLength(s)..])
  }

  /** A space never joins words: splitting a concatenation is concatenating the splits. */
  lemma {:induction false} WordsOfSpaced(a: string, b: string)
    ensures Words(a + [' '] + b) == Words(a) + Words(b)
    decreases |a|
  {
    var s := a + [' '] + b;
    if a == [] {
      assert s[1..] == b;
    } else if IsSpace(a[0]) {
      assert s[1..] == a[1..] + [' '] + b;
      WordsOfSpaced(a[1..], b);
    } else {
      var n := WordLength(a);
      WordLengthIs(s, n);
      assert s[..n] == a[..n] && s[n..] == a[n..] + [' '] + b;
      WordsOfSpaced(a[n..], b);
    }
  }

  lemma {:induction false} WordLengthIs(s: string, n: nat)
    requires n < |s| && IsSpace(s[n]) && forall i | 0 <= i < n :: !IsSpace(s[i])
    ensures WordLength(s) == n
    decreases n
  {
    if n == 0 {
    } else {
      WordLengthIs(s[1..], n - 1);
    }
  }

  lemma SingleWord(s: string)
    requires s != [] && forall i | 0 <= i < |s| :: !IsSpace(s[i])
    ensures Words(s) == [s]
  {
    WordLengthAll(s);
    assert s[..|s|] == s && s[|s|..] == [];
  }

  lemma {:induction false} WordLengthAll(s: string)
    requires forall i | 0 <= i < |s| :: !IsSpace(s[i])
    ensures WordLength(s) == |s|
    decreases |s|
  {
    if s == [] {
    } else {
      WordLengthAll(s[1..]);
    }
  }

  ghost predicate IsWord(s: string) {
    s != [] && forall i | 0 <= i < |s| :: !IsSpace(s[i])
  }

  /** Words with a space between each two. */
  function Sentence(ws: seq<string>): string {
    if ws == [] then [] else if |ws| == 1 then ws[0] else Sentence(ws[..|ws| - 1]) + [' '] + ws[|ws| - 1]
  }

  lemma {:induction false} WordsOfSentence(ws: seq<string>)
    requires forall i | 0 <= i < |ws| :: IsWord(ws[i])
    ensures Words(Sentence(ws)) == ws
    decreases |ws|
  {
    if ws == [] {
    } else {
      var n := |ws| - 1;
      SingleWord(ws[n]);
      if n > 0 {
        WordsOfSentence(ws[..n]);
        WordsOfSpaced(Sentence(ws[..n]), ws[n]);
      }
    }
  }

  // ---- integers ----

  function DigitChar(d: nat): (c: char)
    requires d < 10
    ensures IsDigit(c)
  {
    '0' + d as char
  }

  function DigitValue(c: char): (d: nat)
    requires IsDigit(c)
    ensures d < 10
  {
    c as int - '0' as int
  }

  function ShowNat(n: nat): (s: string)
    ensures |s| > 0 && forall i | 0 <= i < |s| :: IsDigit(s[i])
  {
    if n < 10 then [DigitChar(n)] else ShowNat(n / 10) + [DigitChar(n % 10)]
  }

  function Show(n: int): string {
    if n < 0 then ['-'] + ShowNat(-n) else ShowNat(n)
  }

  /** Decimal notation: the ten digits, and a number followed by its last digit. */
  lemma DecimalNotation(n: nat, d: nat)
    requires d < 10
    ensures ShowNat(d) == ["0123456789"[d]]
    ensures n > 0 ==> ShowNat(10 * n + d) == ShowNat(n) + ["0123456789"[d]]
    ensures n > 0 ==> Show(-(n as int)) == "-" + ShowNat(n)
  {
    assert DigitChar(d) == "0123456789"[d];
    if n > 0 {
      assert (10 * n + d) / 10 == n && (10 * n + d) % 10 == d;
    }
  }

  function NatValue(s: string): nat
    requires forall i | 0 <= i < |s| :: IsDigit(s[i])
  {
    if s == [] then 0 else 10 * NatValue(s[..|s| - 1]) + DigitValue(s[|s| - 1])
  }

  lemma {:induction false} NatValueOfShown(n: nat)
    ensures NatValue(ShowNat(n)) == n
    decreases n
  {
    if n < 10 {
      assert ShowNat(n)[..0] == [];
    } else {
      NatValueOfShown(n / 10);
      assert ShowNat(n)[..|ShowNat(n)| - 1] == ShowNat(n / 10);
    }
  }

  function Pow10(k: nat): nat {
    if k == 0 then 1 else 10 * Pow10(k - 1)
  }

  lemma {:induction false} ShownLength(n: nat, k: nat)
    requires 0 < k && n < Pow10(k)
    ensures |ShowNat(n)| <= k
    decreases k
  {
    if n < 10 {
    } else {
      assert Pow10(k) == 10 * Pow10(k - 1);
      ShownLength(n / 10, k - 1);
    }
  }

  const INT32_MIN: int := -0x8000_0000
  const INT32_MAX: int := 0x7FFF_FFFF

  predicate Int32(n: int) {
    INT32_MIN <= n <= INT32_MAX
  }

  lemma ShownInt32Length(n: int)
    requires Int32(n)
    ensures 1 <= |Show(n)| <= 11
  {
    assert Pow10(3) == 1000;
    assert Pow10(6) == 1000 * Pow10(3);
    assert Pow10(10) == 10000 * Pow10(6);
    ShownLength(if n < 0 then -n else n, 10);
  }

  /** Assignment to a C `int`. */
  function Wrap32(n: int): (r: int)
    ensures Int32(r)
    ensures Int32(n) ==> r == n
    ensures (r - n) % 0x1_0000_0000 == 0
  {
    (n + 0x8000_0000) % 0x1_0000_0000 - 0x8000_0000
  }

  function SkipSpaces(s: string): string {
    if s != [] && IsSpace(s[0]) then SkipSpaces(s[1..]) else s
  }

  /** Length of the longest prefix of digits. */
  function DigitsLength(s: string): (n: nat)
    ensures n <= |s| && forall i | 0 <= i < n :: IsDigit(s[i])
  {
    if s == [] || !IsDigit(s[0]) then 0 else 1 + DigitsLength(s[1..])
  }

  lemma {:induction false} DigitsLengthIs(s: string, n: nat)
    requires n <= |s| && (forall i | 0 <= i < n :: IsDigit(s[i])) && (n == |s| || !IsDigit(s[n]))
    ensures DigitsLength(s) == n
    decreases n
  {
    if n == 0 {
    } else {
      DigitsLengthIs(s[1..], n - 1);
    }
  }

  /** The digits in front as a C `int`, and what follows them, or nothing. */
  function ScanDigits(negative: bool, digits: string): Option<(int, string)> {
    var n := DigitsLength(digits);
    if n == 0 then None
    else
      var value: int := NatValue(digits[..n]);
      Some((Wrap32(if negative then -value else value), digits[n..]))
  }

  /** The kernel's `sscanf` conversion `%d`: the number and what follows it, or nothing. */
  function ScanInt(text: string): Option<(int, string)> {
    var s := SkipSpaces(text);
    if s != [] && s[0] == '-' then ScanDigits(true, s[1..]) else ScanDigits(false, s)
  }

  lemma DigitsOfShown(n: nat, rest: string)
    requires rest == [] || !IsDigit(rest[0])
    ensures var s := ShowNat(n) + rest; var k := DigitsLength(s);
      k == |ShowNat(n)| && s[..k] == ShowNat(n) && s[k..] == rest && NatValue(ShowNat(n)) == n
  {
    var s := ShowNat(n) + rest;
    DigitsLengthIs(s, |ShowNat(n)|);
    assert s[..|ShowNat(n)|] == ShowNat(n) && s[|ShowNat(n)|..] == rest;
    NatValueOfShown(n);
  }

  lemma ScanDigitsShown(negative: bool, digits: string, n: nat, rest: string)
    requires digits == ShowNat(n) + rest && (rest == [] || !IsDigit(rest[0]))
    ensures ScanDigits(negative, digits) == Some((Wrap32(if negative then -(n as int) else n), rest))
  {
    DigitsOfShown(n, rest);
  }

  lemma ScanShownNat(s: string, n: nat, rest: string)
    requires s == ShowNat(n) + rest && (rest == [] || !IsDigit(rest[0]))
    ensures ScanInt(s) == Some((Wrap32(n), rest))
  {
    assert s[0] == ShowNat(n)[0];
    assert SkipSpaces(s) == s;
    ScanDigitsShown(false, s, n, rest);
  }

  lemma ScanShownNegative(s: string, n: nat, rest: string)
    requires s == ['-'] + ShowNat(n) + rest && (rest == [] || !IsDigit(rest[0]))
    ensures ScanInt(s) == Some((Wrap32(-(n as int)), rest))
  {
    assert s[0] == '-' && s[1..] == ShowNat(n) + rest;
    assert SkipSpaces(s) == s;
    ScanDigitsShown(true, s[1..], n, rest);
  }

  /** Whatever does not go on with a digit can follow a printed number. */
  lemma ScanShown(s: string, n: int, rest: string)
    requires s == Show(n) + rest && (rest == [] || !IsDigit(rest[0]))
    ensures ScanInt(s) == Some((Wrap32(n), rest))
  {
    if n < 0 {
      ScanShownNegative(s, -n, rest);
    } else {
      ScanShownNat(s, n, rest);
    }
  }

  /** `sscanf(text, "%d %d", &a, &b) == 2` */
  function ScanTwo(text: string): Option<(int, int)> {
    match ScanInt(text)
    case None => None
    case Some((a, rest)) =>
      match ScanInt(SkipSpaces(rest))
      case None => None
      case Some((b, _)) => Some((a, b))
  }

  ghost predicate NoDigits(s: string) {
    forall i | 0 <= i < |s| :: !IsDigit(s[i])
  }

  lemma {:induction false} SkipSpacesIsSuffix(s: string)
    ensures NoDigits(s) ==> NoDigits(SkipSpaces(s))
    decreases |s|
  {
    if s == [] || !IsSpace(s[0]) {
    } else {
      SkipSpacesIsSuffix(s[1..]);
    }
  }

  /** Text without a digit holds no number. */
  lemma NothingToScan(text: string)
    requires NoDigits(text)
    ensures ScanTwo(text) == None
  {
    SkipSpacesIsSuffix(text);
    var s := SkipSpaces(text);
    var digits := if s != [] && s[0] == '-' then s[1..] else s;
    assert digits != [] ==> !IsDigit(digits[0]);
    assert DigitsLength(digits) == 0;
  }

  /** The wire format, both ways: printing any two integers and scanning them back gives the same two, up to the
      width of a C `int`. */
  lemma WireRoundTrip(a: int, b: int)
    ensures ScanTwo(Show(a) + [' '] + Show(b) + ['\n']) == Some((Wrap32(a), Wrap32(b)))
  {
    var tail := Show(b) + ['\n'];
    var rest := [' '] + tail;
    var text := Show(a) + [' '] + Show(b) + ['\n'];
    assert text == Show(a) + rest;
    ScanShown(text, a, rest);
    assert rest[1..] == tail && !IsSpace(tail[0]);
    assert SkipSpaces(rest) == tail;
    ScanShown(tail, b, ['\n']);
  }
}
