/** Text primitives of the C++ library that the programs are built from: substring search,
    decimal printing, and formatted integer extraction. */
module Text {

  datatype Option<+T> = None | Some(value: T)

  /** `pat` occurs in `s` at index `i`. */
  predicate At(s: string, pat: string, i: int) {
    0 <= i && i + |pat| <= |s| && s[i..i + |pat|] == pat
  }

  /** `s.find(pat, from)`: the first occurrence at or after `from`; -1 stands for npos. */
  function Find(s: string, pat: string, from: nat := 0): (r: int)
    ensures r == -1 || (from <= r && At(s, pat, r))
    ensures forall j :: from <= j && At(s, pat, j) ==> 0 <= r <= j
    decreases |s| - from
  {
    if from + |pat| > |s| then -1
    else if At(s, pat, from) then from
    else Find(s, pat, from + 1)
  }

  /** `s.rfind(pat)`: the last occurrence; -1 stands for npos. */
  function RFind(s: string, pat: string): (r: int)
    ensures r == -1 || At(s, pat, r)
    ensures forall j :: At(s, pat, j) ==> j <= r
  {
    RFindBelow(s, pat, |s| - |pat|)
  }

  function RFindBelow(s: string, pat: string, top: int): (r: int)
    requires top + |pat| <= |s|
    ensures r == -1 || At(s, pat, r)
    ensures r <= top || top < 0
    ensures forall j :: j <= top && At(s, pat, j) ==> j <= r
    decreases top + 1
  {
    if top < 0 then -1
    else if At(s, pat, top) then top
    else RFindBelow(s, pat, top - 1)
  }

  predicate Contains(s: string, pat: string) {
    Find(s, pat) != -1
  }

  /** An occurrence inside a prefix is an occurrence in the whole text, and conversely. */
  lemma AtPrefix(s: string, t: string, pat: string, i: int)
    requires i + |pat| <= |s|
    ensures At(s + t, pat, i) <==> At(s, pat, i)
  {
    if 0 <= i {
      assert (s + t)[i..i + |pat|] == s[i..i + |pat|];
    }
  }

  /** An occurrence inside a suffix is an occurrence in the whole text, and conversely. */
  lemma AtSuffix(s: string, t: string, pat: string, i: int)
    requires |s| <= i
    ensures At(s + t, pat, i) <==> At(t, pat, i - |s|)
  {
    if i + |pat| <= |s + t| {
      assert (s + t)[i..i + |pat|] == t[i - |s|..i - |s| + |pat|];
    }
  }

  /** A character of an occurrence is the pattern's character. */
  lemma AtChar(s: string, pat: string, i: int, k: nat)
    requires At(s, pat, i) && k < |pat|
    ensures s[i + k] == pat[k]
  {
    assert s[i..i + |pat|][k] == s[i + k];
  }

  /** First-match searches are stable under extension of the text. */
  lemma FindExtends(s: string, t: string, pat: string, from: nat)
    requires Find(s, pat, from) != -1
    ensures Find(s + t, pat, from) == Find(s, pat, from)
  {
    var i := Find(s, pat, from);
    AtPrefix(s, t, pat, i);
    var j := Find(s + t, pat, from);
    AtPrefix(s, t, pat, j);
  }

  /** If the first match of the whole text lies in a prefix, the prefix search finds it too. */
  lemma FindInPrefix(s: string, t: string, pat: string, from: nat)
    requires 0 <= Find(s + t, pat, from)
    ensures Find(s + t, pat, from) + |pat| <= |s| ==> Find(s, pat, from) == Find(s + t, pat, from)
    ensures Find(s + t, pat, from) + |pat| > |s| ==> Find(s, pat, from) == -1
  {
    var i := Find(s, pat, from);
    if i != -1 {
      FindExtends(s, t, pat, from);
    } else if Find(s + t, pat, from) + |pat| <= |s| {
      AtPrefix(s, t, pat, Find(s + t, pat, from));
    }
  }

  // ----- keys

  /** The first character of a key does not occur in it again. */
  predicate IsKey(key: string) {
    key != "" && forall k :: 0 < k < |key| ==> key[k] != key[0]
  }

  lemma NoKeyAcross(s: string, key: string, n: nat, j: int)
    requires IsKey(key) && n < |s| && s[n] == key[0] && At(s, key, j)
    ensures n <= j || j + |key| <= n
  {
    if j < n < j + |key| {
      AtChar(s, key, j, n - j);
    }
  }

  /** Behind a text without the key, the key is found where it stands. */
  lemma FirstKey(t: string, key: string, tail: string)
    requires IsKey(key) && !Contains(t, key)
    ensures Find(t + (key + tail), key) == |t|
  {
    var s := t + (key + tail);
    assert s[|t|..|t| + |key|] == key;
    assert At(s, key, |t|);
    AtChar(s, key, |t|, 0);
    var j := Find(s, key);
    NoKeyAcross(s, key, |t|, j);
    if j + |key| <= |t| {
      AtPrefix(t, key + tail, key, j);
    }
  }

  // ----- decimal numbers

  predicate IsDigit(c: char) { '0' <= c <= '9' }

  function DigitChar(d: nat): char
    requires d < 10
  {
    ('0' as int + d) as char
  }

  function DigitValue(c: char): nat
    requires IsDigit(c)
  {
    c as int - '0' as int
  }

  predicate AllDigits(s: string) {
    forall i :: 0 <= i < |s| ==> IsDigit(s[i])
  }

  function PrintNat(n: nat): (s: string)
    ensures |s| > 0 && AllDigits(s)
  {
    if n < 10 then [DigitChar(n)] else PrintNat(n / 10) + [DigitChar(n % 10)]
  }

  /** `oss << x` and `to_string(x)` for an integer. */
  function Print(x: int): (s: string)
    ensures |s| > 0
  {
    if x < 0 then "-" + PrintNat(-x) else PrintNat(x)
  }

  /** The number written by a run of digits. */
  function Value(s: string): nat
    requires AllDigits(s)
  {
    if s == "" then 0 else Value(s[..|s| - 1]) * 10 + DigitValue(s[|s| - 1])
  }

  lemma {:induction false} ValuePrintNat(n: nat)
    ensures Value(PrintNat(n)) == n
  {
    if n >= 10 {
      ValuePrintNat(n / 10);
      assert PrintNat(n)[..|PrintNat(n)| - 1] == PrintNat(n / 10);
    } else {
      assert PrintNat(n)[..0] == "";
    }
  }

  function Pow10(k: nat): nat {
    if k == 0 then 1 else 10 * Pow10(k - 1)
  }

  /** A number below 10^k prints in at most k digits. */
  lemma {:induction false} PrintNatLength(n: nat, k: nat)
    requires 0 < k && n < Pow10(k)
    ensures |PrintNat(n)| <= k
  {
    if n >= 10 {
      assert Pow10(k) == 10 * Pow10(k - 1);
      PrintNatLength(n / 10, k - 1);
    }
  }

  /** The decimal form: one digit for a number below 10, and one more digit behind for ten times as much. */
  lemma PrintDecimal(n: nat, d: nat)
    requires d < 10
    ensures Print(d) == ["0123456789"[d]] && Print(-(d as int)) == (if d == 0 then "0" else "-" + Print(d))
    ensures n > 0 ==> Print(10 * n + d) == Print(n) + ["0123456789"[d]] && Print(-(n as int)) == "-" + Print(n)
  {
    assert (10 * n + d) / 10 == n && (10 * n + d) % 10 == d;
    DigitCharAt(d);
  }

  lemma DigitCharAt(d: nat)
    requires d < 10
    ensures DigitChar(d) == "0123456789"[d]
  {
  }

  // ----- splitting

  /** The pieces of a text between separators. */
  function Split(s: string, sep: char): seq<string>
    decreases |s|
  {
    var i := Find(s, [sep]);
    if i == -1 then [s] else [s[..i]] + Split(s[i + 1..], sep)
  }

  predicate Lacks(s: string, c: char) { forall i :: 0 <= i < |s| ==> s[i] != c }

  lemma SplitFirst(w: string, sep: char, tail: string)
    requires Lacks(w, sep)
    ensures Split(w, sep) == [w] && Split(w + ([sep] + tail), sep) == [w] + Split(tail, sep)
  {
    var s := w + ([sep] + tail);
    assert s[|w|..|w| + 1] == [sep];
    assert At(s, [sep], |w|);
    AtChar(s, [sep], Find(s, [sep]), 0);
    assert forall i :: 0 <= i < |w| ==> s[i] == w[i];
    if Find(w, [sep]) != -1 {
      AtChar(w, [sep], Find(w, [sep]), 0);
    }
    assert s[..|w|] == w && s[|w| + 1..] == tail;
  }

  lemma PrintLacks(v: int, c: char)
    requires !IsDigit(c) && c != '-'
    ensures Lacks(Print(v), c)
  {
    var d := if v < 0 then PrintNat(-v) else PrintNat(v);
    assert AllDigits(d);
  }

  // ----- formatted extraction (`iss >> x`) and `stoi`

  predicate IsSpace(c: char) {
    c == ' ' || c == '\t' || c == '\n' || c == '\r' || c == 11 as char || c == 12 as char
  }

  function SkipSpace(s: string): string {
    if s != "" && IsSpace(s[0]) then SkipSpace(s[1..]) else s
  }

  function DigitRun(s: string): (n: nat)
    ensures n <= |s| && AllDigits(s[..n])
    ensures n < |s| ==> !IsDigit(s[n])
  {
    if s != "" && IsDigit(s[0]) then 1 + DigitRun(s[1..]) else 0
  }

  /** A number read off the front of a text: sign, magnitude, unread remainder. */
  datatype Scanned = NoNumber | Number(negative: bool, magnitude: nat, rest: string)

  predicate HasSign(s: string) { s != "" && (s[0] == '-' || s[0] == '+') }

  function ScanInt(s: string): Scanned {
    var t := SkipSpace(s);
    var u := if HasSign(t) then t[1..] else t;
    var n := DigitRun(u);
    if n == 0 then NoNumber else Number(t[0] == '-', Value(u[..n]), u[n..])
  }

  predicate EndsNumber(tail: string) { tail == "" || !IsDigit(tail[0]) }

  lemma DigitRunOf(digits: string, tail: string)
    requires AllDigits(digits) && EndsNumber(tail)
    ensures DigitRun(digits + tail) == |digits|
    ensures (digits + tail)[..|digits|] == digits && (digits + tail)[|digits|..] == tail
  {
    var s, n := digits + tail, DigitRun(digits + tail);
    assert forall i :: 0 <= i < |digits| ==> s[i] == digits[i];
    assert forall i :: 0 <= i < n ==> IsDigit(s[..n][i]) && s[..n][i] == s[i];
    assert tail != "" ==> s[|digits|] == tail[0];
  }

  lemma ScanDigits(digits: string, tail: string)
    requires digits != "" && AllDigits(digits) && EndsNumber(tail)
    ensures ScanInt(digits + tail) == Number(false, Value(digits), tail)
    ensures ScanInt("-" + digits + tail) == Number(true, Value(digits), tail)
  {
    DigitRunOf(digits, tail);
    var s := digits + tail;
    assert IsDigit(s[0]);
    assert SkipSpace(s) == s && !HasSign(s);
    var m := "-" + digits + tail;
    assert m[0] == '-' && m[1..] == s;
    assert SkipSpace(m) == m && HasSign(m);
  }

  /** Reading back a printed integer yields its sign and magnitude and stops right after it. */
  lemma ScanPrint(x: int, tail: string)
    requires EndsNumber(tail)
    ensures ScanInt(Print(x) + tail) == Number(x < 0, if x < 0 then -x else x, tail)
  {
    var m: nat := if x < 0 then -x else x;
    ScanDigits(PrintNat(m), tail);
    ValuePrintNat(m);
  }

  predicate Blank(c: char) { c in {' ', '\t', '\n', '\r', 11 as char, 12 as char} }

  predicate AllBlank(s: string) { forall i :: 0 <= i < |s| ==> Blank(s[i]) }

  lemma {:induction false} SkipBlank(blank: string, s: string)
    requires AllBlank(blank) && (s == "" || !Blank(s[0]))
    ensures SkipSpace(blank + s) == s
  {
    if blank == "" {
      assert blank + s == s;
    } else {
      assert (blank + s)[1..] == blank[1..] + s;
      SkipBlank(blank[1..], s);
    }
  }

  /** White space, at most one sign and at least one digit are read as a number, up to the first character
      that is no digit. */
  lemma ScanForm(blank: string, sign: string, digits: string, tail: string)
    requires AllBlank(blank) && sign in {"", "+", "-"} && digits != "" && AllDigits(digits) && EndsNumber(tail)
    ensures ScanInt(blank + (sign + (digits + tail))) == Number(sign == "-", Value(digits), tail)
  {
    var t := sign + (digits + tail);
    DigitRunOf(digits, tail);
    assert t[0] == (if sign == "" then digits[0] else sign[0]);
    SkipBlank(blank, t);
    assert sign == "" ==> t == digits + tail;
    assert sign != "" ==> t[1..] == digits + tail;
  }

  /** Text that starts otherwise is no number. */
  lemma ScanNone(blank: string, t: string)
    requires AllBlank(blank) && (t == "" || !(Blank(t[0]) || IsDigit(t[0]) || t[0] in {'+', '-'}))
    ensures ScanInt(blank + t) == NoNumber
  {
    SkipBlank(blank, t);
  }

  lemma ScanSpace(s: string)
    ensures ScanInt(" " + s) == ScanInt(s)
  {
    assert (" " + s)[1..] == s;
  }

  const INT_MAX := 0x7fff_ffff

  predicate IsInt32(x: int) { -INT_MAX - 1 <= x <= INT_MAX }

  function Signed(negative: bool, magnitude: nat): int {
    if negative then -(magnitude as int) else magnitude
  }

  /** `stoi(s)`; None is the exception thrown when there is no number or it does not fit. */
  function StoI(s: string): Option<int> {
    match ScanInt(s)
    case NoNumber => None
    case Number(neg, m, _) =>
      var v := Signed(neg, m);
      if IsInt32(v) then Some(v) else None
  }

  /** The value of a text of digits, with leading zeros or without. */
  lemma ValueDecimal(s: string, d: nat)
    requires AllDigits(s) && d < 10
    ensures Value("") == 0 && AllDigits(s + ["0123456789"[d]]) && Value(s + ["0123456789"[d]]) == 10 * Value(s) + d
  {
    DigitCharAt(d);
    var t := s + ["0123456789"[d]];
    assert AllDigits(t) && t[..|t| - 1] == s && t[|t| - 1] == DigitChar(d);
  }

  /** A number within 32 bits is converted, whatever stands behind it; any other throws, as does no number. */
  lemma StoIForm(v: int, blank: string, t: string)
    requires EndsNumber(t) && AllBlank(blank)
    ensures StoI(Print(v) + t) == if -2147483648 <= v <= 2147483647 then Some(v) else None
    ensures t == "" || !(Blank(t[0]) || t[0] in {'+', '-'}) ==> StoI(blank + t) == None
  {
    ScanPrint(v, t);
    if t == "" || !(Blank(t[0]) || t[0] in {'+', '-'}) {
      ScanNone(blank, t);
    }
  }

  lemma StoIPrint(x: int)
    requires IsInt32(x)
    ensures StoI(Print(x)) == Some(x)
  {
    ScanPrint(x, "");
    assert Print(x) + "" == Print(x);
  }
}
