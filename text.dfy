/** Character-level reading and writing that main.cpp gets from the C++ library:
    the C locale's whitespace and digit classes, decimal output of integers
    (`operator<<`, `strftime`), `operator>>` / `sscanf("%d")` integer scanning,
    `operator>>` word extraction, and `getline` line splitting.

    The scanning functions carry only the length facts their callers need to slice;
    what they mean is stated by the `...Spec` lemmas next to them. */
module Text {

  datatype Option<T> = None | Some(value: T)

  /** `isdigit` in the C locale. */
  predicate IsDigit(c: char) {
    '0' <= c <= '9'
  }

  /** `isspace` in the C locale: space, \t, \n, \v, \f, \r. */
  predicate IsSpace(c: char) {
    c == ' ' || c == '\t' || c == '\n' || c == '\U{0B}' || c == '\U{0C}' || c == '\r'
  }

  predicate AllDigits(s: string) {
    forall i :: 0 <= i < |s| ==> IsDigit(s[i])
  }

  predicate AllSpace(s: string) {
    forall i :: 0 <= i < |s| ==> IsSpace(s[i])
  }

  predicate NoSpace(s: string) {
    forall i :: 0 <= i < |s| ==> !IsSpace(s[i])
  }

  /** A whitespace-free, non-empty word: what `operator>>` into a string yields. */
  predicate IsWord(s: string) {
    |s| > 0 && NoSpace(s)
  }

  /** Text that cannot continue a number just before it. */
  predicate EndsNumber(rest: string) {
    rest == [] || !IsDigit(rest[0])
  }

  /** Text that cannot continue a word just before it. */
  predicate EndsWord(rest: string) {
    rest == [] || IsSpace(rest[0])
  }

  function DigitChar(n: nat): (c: char)
    requires n < 10
    ensures IsDigit(c) && c as int - '0' as int == n
  {
    ('0' as int + n) as char
  }

  // ---------------------------------------------------------------------------
  // Decimal output

  /** Decimal digits of `n`, most significant first, no leading zeros. */
  function NatToString(n: nat): (s: string)
    ensures |s| > 0 && AllDigits(s)
    decreases n
  {
    if n < 10 then [DigitChar(n)] else NatToString(n / 10) + [DigitChar(n % 10)]
  }

  /** `os << i` for an `int`: a minus sign for negative values, then the digits. */
  function IntToString(i: int): string {
    if i < 0 then "-" + NatToString(-i) else NatToString(i)
  }

  /** The value of a string of decimal digits (leading zeros allowed). */
  function DigitsValue(s: string): int
    decreases |s|
  {
    if s == [] then 0 else DigitsValue(s[..|s| - 1]) * 10 + (s[|s| - 1] as int - '0' as int)
  }

  lemma {:induction false} DigitsValueOfNatToString(n: nat)
    ensures DigitsValue(NatToString(n)) == n
    decreases n
  {
    var s := NatToString(n);
    if n < 10 {
      assert s[..|s| - 1] == [];
    } else {
      assert s[..|s| - 1] == NatToString(n / 10);
      DigitsValueOfNatToString(n / 10);
    }
  }

  // ---------------------------------------------------------------------------
  // Integer scanning

  /** Length of the run of digits that starts `s`. */
  function DigitRun(s: string): (k: nat)
    ensures k <= |s|
    decreases |s|
  {
    if s == [] || !IsDigit(s[0]) then 0 else 1 + DigitRun(s[1..])
  }

  /** The run is all digits and is not followed by one: it is the longest such prefix. */
  lemma {:induction false} DigitRunSpec(s: string)
    ensures AllDigits(s[..DigitRun(s)]) && EndsNumber(s[DigitRun(s)..])
    decreases |s|
  {
    if s != [] && IsDigit(s[0]) {
      DigitRunSpec(s[1..]);
      var k := DigitRun(s[1..]);
      assert s[..k + 1] == [s[0]] + s[1..][..k];
      assert s[k + 1..] == s[1..][k..];
    }
  }

  lemma {:induction false} DigitRunOfDigits(ds: string, rest: string)
    requires AllDigits(ds) && EndsNumber(rest)
    ensures DigitRun(ds + rest) == |ds|
    decreases |ds|
  {
    if ds != [] {
      assert (ds + rest)[1..] == ds[1..] + rest;
      DigitRunOfDigits(ds[1..], rest);
    }
  }

  /** The unsigned part of integer extraction: the longest run of digits and what follows
      it; None when no digit is there. */
  function ScanDigits(s: string): Option<(int, string)> {
    var k := DigitRun(s);
    if k == 0 then None else Some((DigitsValue(s[..k]), s[k..]))
  }

  lemma ScanDigitsOf(ds: string, rest: string)
    requires |ds| > 0 && AllDigits(ds) && EndsNumber(rest)
    ensures ScanDigits(ds + rest) == Some((DigitsValue(ds), rest))
  {
    DigitRunOfDigits(ds, rest);
    assert (ds + rest)[..|ds|] == ds;
    assert (ds + rest)[|ds|..] == rest;
  }

  /** Leading whitespace removed: what `operator>>` and `%d` skip first. */
  function TrimLeft(s: string): (r: string)
    ensures |r| <= |s|
    decreases |s|
  {
    if s != [] && IsSpace(s[0]) then TrimLeft(s[1..]) else s
  }

  /** Only whitespace was skipped, and all of it. */
  lemma {:induction false} TrimLeftSpec(s: string)
    ensures TrimLeft(s) == s[|s| - |TrimLeft(s)|..]
    ensures AllSpace(s[..|s| - |TrimLeft(s)|])
    ensures TrimLeft(s) == [] || !IsSpace(TrimLeft(s)[0])
    decreases |s|
  {
    if s != [] && IsSpace(s[0]) {
      TrimLeftSpec(s[1..]);
      var n := |s| - |TrimLeft(s)|;
      assert s[..n] == [s[0]] + s[1..][..n - 1];
    }
  }

  lemma TrimLeftOfNonSpace(s: string)
    requires s != [] && !IsSpace(s[0])
    ensures TrimLeft(s) == s
  {
  }

  /** Blank text trims to nothing, and only blank text does. */
  lemma TrimLeftEmpty(s: string)
    ensures TrimLeft(s) == [] <==> AllSpace(s)
  {
    TrimLeftSpec(s);
    var t := TrimLeft(s);
    if t == [] {
      assert s[..|s|] == s;
    } else {
      assert s[|s| - |t|] == t[0];
    }
  }

  /** `sscanf("%d")` / `operator>>` into an `int`: skip whitespace, an optional sign,
      then at least one digit. Yields the value and the unread text. */
  function ScanInt(s: string): Option<(int, string)> {
    ScanSigned(TrimLeft(s))
  }

  /** An optional sign, then at least one digit. */
  function ScanSigned(t: string): Option<(int, string)> {
    var negative := t != [] && t[0] == '-';
    var body := if t != [] && (t[0] == '-' || t[0] == '+') then t[1..] else t;
    var r := ScanDigits(body);
    if r.None? then None
    else Some((if negative then -r.value.0 else r.value.0, r.value.1))
  }

  lemma ScanSignedOfDigits(ds: string, rest: string)
    requires |ds| > 0 && AllDigits(ds) && EndsNumber(rest)
    ensures ScanSigned(ds + rest) == Some((DigitsValue(ds), rest))
  {
    assert (ds + rest)[0] == ds[0];
    ScanDigitsOf(ds, rest);
  }

  lemma ScanSignedOfNegative(t: string, ds: string, rest: string)
    requires |ds| > 0 && AllDigits(ds) && EndsNumber(rest)
    requires t != [] && t[0] == '-' && t[1..] == ds + rest
    ensures ScanSigned(t) == Some((-DigitsValue(ds), rest))
  {
    ScanDigitsOf(ds, rest);
  }

  /** A run of digits reads back as its value, and the scan stops right after it. */
  lemma ScanIntOfDigits(ds: string, rest: string)
    requires |ds| > 0 && AllDigits(ds) && EndsNumber(rest)
    ensures ScanInt(ds + rest) == Some((DigitsValue(ds), rest))
  {
    assert (ds + rest)[0] == ds[0];
    TrimLeftOfNonSpace(ds + rest);
    ScanSignedOfDigits(ds, rest);
  }

  lemma TailAfterFirst(c: char, u: string, v: string)
    ensures (([c] + u) + v)[0] == c && (([c] + u) + v)[1..] == u + v
  {
  }

  /** Reading back what `IntToString` wrote gives the same integer and stops right after it. */
  lemma ScanIntOfIntToString(i: int, rest: string)
    requires EndsNumber(rest)
    ensures ScanInt(IntToString(i) + rest) == Some((i, rest))
  {
    if i < 0 {
      ScanIntOfNegativeString(i, rest);
    } else {
      DigitsValueOfNatToString(i);
      ScanIntOfDigits(NatToString(i), rest);
    }
  }

  lemma ScanIntOfNegativeString(i: int, rest: string)
    requires i < 0 && EndsNumber(rest)
    ensures ScanInt(IntToString(i) + rest) == Some((i, rest))
  {
    var ds := NatToString(-i);
    var s := IntToString(i) + rest;
    DigitsValueOfNatToString(-i);
    assert IntToString(i) == ['-'] + ds;
    TailAfterFirst('-', ds, rest);
    TrimLeftOfNonSpace(s);
    ScanSignedOfNegative(s, ds, rest);
  }

  // ---------------------------------------------------------------------------
  // Word extraction

  /** Length of the run of non-whitespace characters that starts `s`. */
  function WordLen(s: string): (k: nat)
    ensures k <= |s|
    decreases |s|
  {
    if s == [] || IsSpace(s[0]) then 0 else 1 + WordLen(s[1..])
  }

  lemma {:induction false} WordLenSpec(s: string)
    ensures NoSpace(s[..WordLen(s)]) && EndsWord(s[WordLen(s)..])
    decreases |s|
  {
    if s != [] && !IsSpace(s[0]) {
      WordLenSpec(s[1..]);
      var k := WordLen(s[1..]);
      assert s[..k + 1] == [s[0]] + s[1..][..k];
      assert s[k + 1..] == s[1..][k..];
    }
  }

  lemma {:induction false} WordLenOfWord(w: string, rest: string)
    requires NoSpace(w) && EndsWord(rest)
    ensures WordLen(w + rest) == |w|
    decreases |w|
  {
    if w != [] {
      assert (w + rest)[1..] == w[1..] + rest;
      WordLenOfWord(w[1..], rest);
    }
  }

  /** `operator>>` into a `std::string`: skip whitespace, then take the longest
      whitespace-free run. None when only whitespace is left (extraction fails). */
  function ReadWord(s: string): Option<(string, string)> {
    var t := TrimLeft(s);
    if t == [] then None else Some((t[..WordLen(t)], t[WordLen(t)..]))
  }

  /** What `ReadWord` yields: nothing exactly on blank text, otherwise a word that the
      following text cannot extend, found right after the skipped whitespace. */
  lemma ReadWordSpec(s: string)
    ensures ReadWord(s).None? <==> AllSpace(s)
    ensures ReadWord(s).Some? ==>
              IsWord(ReadWord(s).value.0) && EndsWord(ReadWord(s).value.1)
              && TrimLeft(s) == ReadWord(s).value.0 + ReadWord(s).value.1
  {
    TrimLeftEmpty(s);
    TrimLeftSpec(s);
    var t := TrimLeft(s);
    if t != [] {
      WordLenSpec(t);
      assert WordLen(t) > 0;
      assert t[..WordLen(t)] + t[WordLen(t)..] == t;
    }
  }

  /** A word followed by whitespace or nothing reads back whole. */
  lemma ReadWordOf(w: string, rest: string)
    requires IsWord(w) && EndsWord(rest)
    ensures ReadWord(w + rest) == Some((w, rest))
  {
    assert (w + rest)[0] == w[0];
    WordLenOfWord(w, rest);
    assert (w + rest)[..|w|] == w;
    assert (w + rest)[|w|..] == rest;
  }

  /** One leading whitespace character does not change which word is read next. */
  lemma ReadWordAfterSpace(c: char, s: string)
    requires IsSpace(c)
    ensures ReadWord([c] + s) == ReadWord(s)
  {
    assert ([c] + s)[1..] == s;
  }

  /** Leading whitespace of any length does not change which word is read next. */
  lemma {:induction false} ReadWordAfterBlank(lead: string, s: string)
    requires AllSpace(lead)
    ensures ReadWord(lead + s) == ReadWord(s)
    decreases |lead|
  {
    if lead != [] {
      var more := lead[1..] + s;
      assert lead + s == [lead[0]] + more;
      ReadWordAfterSpace(lead[0], more);
      assert ReadWord(lead + s) == ReadWord(more);
      ReadWordAfterBlank(lead[1..], s);
    } else {
      assert lead + s == s;
    }
  }

  /** Where a word was read, the text is whitespace, then the word, then the unread rest. */
  lemma ReadWordShape(s: string)
    requires ReadWord(s).Some?
    ensures var w, rest := ReadWord(s).value.0, ReadWord(s).value.1;
            var n := |s| - |w + rest|;
            0 <= n && AllSpace(s[..n]) && s == s[..n] + w + rest
  {
    ReadWordSpec(s);
    TrimLeftSpec(s);
    var t := TrimLeft(s);
    var n := |s| - |t|;
    assert s == s[..n] + s[n..];
  }

  // ---------------------------------------------------------------------------
  // Lines

  /** Length of the first line of `s`, without its '\n'. */
  function LineLen(s: string): (k: nat)
    ensures k <= |s| && (k == |s| || s[k] == '\n')
    decreases |s|
  {
    if s == [] || s[0] == '\n' then 0 else 1 + LineLen(s[1..])
  }

  /** The lines successive `getline` calls return: split at each '\n', which is dropped;
      a final line without '\n' still counts, a final '\n' starts no extra line. */
  function Lines(s: string): seq<string>
    decreases |s|
  {
    if s == [] then []
    else
      var k := LineLen(s);
      [s[..k]] + (if k < |s| then Lines(s[k + 1..]) else [])
  }

  /** What one `getline` returns: the text up to the first '\n', or all of it. */
  function FirstLine(s: string): (r: string)
    ensures '\n' !in r && r <= s
  {
    LineLenSpec(s);
    s[..LineLen(s)]
  }

  /** No '\n' occurs before the end of the first line. */
  lemma {:induction false} LineLenSpec(s: string)
    ensures forall i :: 0 <= i < LineLen(s) ==> s[i] != '\n'
    decreases |s|
  {
    if s != [] && s[0] != '\n' {
      LineLenSpec(s[1..]);
      forall i | 1 <= i < LineLen(s)
        ensures s[i] != '\n'
      {
        assert s[i] == s[1..][i - 1];
      }
    }
  }

  /** Text without a line break is read whole by one `getline`. */
  lemma {:induction false} FirstLineWhole(line: string)
    requires '\n' !in line
    ensures FirstLine(line) == line
    decreases |line|
  {
    if line != [] {
      assert line[0] != '\n' by { assert line[0] in line; }
      assert forall c :: c in line[1..] ==> c in line;
      FirstLineWhole(line[1..]);
    }
  }

  lemma {:induction false} LineLenOf(line: string, rest: string)
    requires '\n' !in line
    ensures LineLen(line + ['\n'] + rest) == |line|
    decreases |line|
  {
    if line != [] {
      assert (line + ['\n'] + rest)[1..] == line[1..] + ['\n'] + rest;
      assert line[0] != '\n' by { assert line[0] in line; }
      LineLenOf(line[1..], rest);
    }
  }

  /** A line ended by '\n' is read as one line, and reading goes on after the '\n'. */
  lemma LinesOf(line: string, rest: string)
    requires '\n' !in line
    ensures Lines(line + ['\n'] + rest) == [line] + Lines(rest)
  {
    var s := line + ['\n'] + rest;
    LineLenOf(line, rest);
    assert s[..|line|] == line;
    assert s[|line| + 1..] == rest;
  }
}
