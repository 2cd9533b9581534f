/**
 * C strings in character buffers and the two library conversions the driver uses on them:
 * `sscanf(s, "%d", &v)` and `snprintf(..., "%d", v)`. A string is the characters of a buffer from
 * a start index up to the first NUL; `strcmp(a, b) == 0` is equality of those character sequences.
 */
module CString {

  const NUL: char := 0 as char

  /** The C string that starts at `s[i]`: everything up to the first NUL (or the end of `s`). */
  function StrAt(s: seq<char>, i: nat): (r: string)
    requires i <= |s|
    ensures i + |r| <= |s| && s[i..i + |r|] == r && NUL !in r
    ensures i + |r| < |s| ==> s[i + |r|] == NUL
    decreases |s| - i
  {
    if i == |s| || s[i] == NUL then [] else [s[i]] + StrAt(s, i + 1)
  }

  /** A string placed at `s[i]` with its terminating NUL is read back by `StrAt`. */
  lemma {:induction false} StrAtOfTerminated(s: seq<char>, i: nat, t: string)
    requires i + |t| < |s| && s[i..i + |t|] == t && s[i + |t|] == NUL && NUL !in t
    ensures StrAt(s, i) == t
    decreases |t|
  {
    if t != [] {
      assert s[i] == t[0];
      assert s[i + 1..i + 1 + |t[1..]|] == t[1..];
      StrAtOfTerminated(s, i + 1, t[1..]);
    }
  }

  /** Terminating a buffer with a NUL does not change the strings in it. */
  lemma {:induction false} StrAtTerminate(s: seq<char>, i: nat)
    requires i <= |s|
    ensures StrAt(s + [NUL], i) == StrAt(s, i)
    decreases |s| - i
  {
    if i < |s| && s[i] != NUL {
      assert (s + [NUL])[i] == s[i];
      StrAtTerminate(s, i + 1);
    }
  }

  /** A buffer without NUL holds one string, all of it. */
  lemma {:induction false} StrAtWhole(s: seq<char>, i: nat)
    requires i <= |s| && NUL !in s
    ensures StrAt(s, i) == s[i..]
    decreases |s| - i
  {
    if i < |s| {
      StrAtWhole(s, i + 1);
      assert s[i..] == [s[i]] + s[i + 1..];
    }
  }

  /** The index of the first `c` in `s`, or `|s|` when there is none (`strchr`). */
  function IndexOf(s: string, c: char): (k: nat)
    ensures k <= |s| && (k < |s| ==> s[k] == c) && c !in s[..k]
  {
    if s == [] then 0 else if s[0] == c then 0 else 1 + IndexOf(s[1..], c)
  }

  /** `isspace` in the C locale, used by `sscanf` to skip leading white space. */
  predicate IsSpace(c: char)
  {
    c == ' ' || c == '\t' || c == '\n' || c == '\r' || c == 0x0B as char || c == 0x0C as char
  }

  predicate IsDigit(c: char)
  {
    '0' <= c <= '9'
  }

  function DigitValue(c: char): nat
    requires IsDigit(c)
  {
    c as int - '0' as int
  }

  function SkipSpace(s: string): (r: string)
    ensures |r| <= |s| && (r == [] || !IsSpace(r[0]))
  {
    if s != [] && IsSpace(s[0]) then SkipSpace(s[1..]) else s
  }

  /** The longest prefix of decimal digits. */
  function DigitPrefix(s: string): (d: string)
    ensures |d| <= |s| && d == s[..|d|]
    ensures forall i :: 0 <= i < |d| ==> IsDigit(d[i])
    ensures |d| < |s| ==> !IsDigit(s[|d|])
  {
    if s != [] && IsDigit(s[0]) then [s[0]] + DigitPrefix(s[1..]) else []
  }

  /** The number a string of decimal digits denotes, most significant digit first. */
  function DecimalValue(d: string): nat
    requires forall i :: 0 <= i < |d| ==> IsDigit(d[i])
  {
    if d == [] then 0 else 10 * DecimalValue(d[..|d| - 1]) + DigitValue(d[|d| - 1])
  }

  /**
   * `sscanf(s, "%d", &v)` with `v` preset to 0: optional white space, an optional sign and the
   * longest run of digits. Without any digit the conversion fails and `v` keeps 0.
   */
  function ScanInt(s: string): int
  {
    var t := SkipSpace(s);
    var neg := t != [] && t[0] == '-';
    var u := if t != [] && (t[0] == '-' || t[0] == '+') then t[1..] else t;
    var d := DigitPrefix(u);
    if d == [] then 0 else if neg then -(DecimalValue(d) as int) else DecimalValue(d)
  }

  function Digit(n: nat): (c: char)
    requires n < 10
    ensures IsDigit(c) && DigitValue(c) == n
  {
    ('0' as int + n) as char
  }

  /** The decimal digits of n as `%d` prints them. */
  function Decimal(n: nat): (d: string)
    ensures d != [] && forall i :: 0 <= i < |d| ==> IsDigit(d[i])
  {
    if n < 10 then [Digit(n)] else Decimal(n / 10) + [Digit(n % 10)]
  }

  /** `snprintf(buf, len, "%d", n)` without truncation. */
  function FormatInt(n: int): (s: string)
    ensures s != [] && NUL !in s
  {
    if n < 0 then "-" + Decimal(-n) else Decimal(n)
  }

  lemma {:induction false} DecimalValueOfDecimal(n: nat)
    ensures DecimalValue(Decimal(n)) == n
  {
    if n >= 10 {
      DecimalValueOfDecimal(n / 10);
      var d := Decimal(n);
      assert d[..|d| - 1] == Decimal(n / 10);
    }
  }

  lemma {:induction false} DigitPrefixOfDigits(d: string)
    requires forall i :: 0 <= i < |d| ==> IsDigit(d[i])
    ensures DigitPrefix(d) == d
  {
    if d != [] {
      DigitPrefixOfDigits(d[1..]);
    }
  }

  /** Scanning a run of digits alone reads its value. */
  lemma ScanDecimal(n: nat)
    ensures ScanInt(Decimal(n)) == n
  {
    var d := Decimal(n);
    assert SkipSpace(d) == d;
    DigitPrefixOfDigits(d);
    DecimalValueOfDecimal(n);
  }

  /** `sscanf("%d")` reads back what `"%d"` printed. */
  lemma ScanFormatInt(n: int)
    ensures ScanInt(FormatInt(n)) == n
  {
    if n < 0 {
      var d := Decimal(-n);
      var s := FormatInt(n);
      assert SkipSpace(s) == s;
      assert s[1..] == d;
      DigitPrefixOfDigits(d);
      DecimalValueOfDecimal(-n);
    } else {
      ScanDecimal(n);
    }
  }

  /** At most two digits for a `minor` number below 100. */
  lemma DecimalShort(n: nat)
    requires n < 100
    ensures |Decimal(n)| <= 2
  {
  }

  /** Words written one after the other, each preceded by a space. */
  function Spaced(ws: seq<string>): string
  {
    if ws == [] then [] else " " + ws[0] + Spaced(ws[1..])
  }

  /*
   * A packed argument vector: the strings laid out one after the other from the start of a buffer,
   * each followed by one NUL, with `argv[k]` the index where the k-th string starts.
   */

  predicate NulFree(toks: seq<string>)
  {
    forall k :: 0 <= k < |toks| ==> NUL !in toks[k]
  }

  function Flatten(toks: seq<string>): string
  {
    if toks == [] then [] else toks[0] + [NUL] + Flatten(toks[1..])
  }

  /** Where the k-th string of a packed vector starts. */
  function Offset(toks: seq<string>, k: nat): nat
    requires k <= |toks|
  {
    |Flatten(toks[..k])|
  }

  lemma {:induction false} FlattenAppend(toks: seq<string>, t: string)
    ensures Flatten(toks + [t]) == Flatten(toks) + t + [NUL]
    decreases |toks|
  {
    if toks != [] {
      assert (toks + [t])[1..] == toks[1..] + [t];
      FlattenAppend(toks[1..], t);
    } else {
      assert [t][1..] == [];
    }
  }

  lemma {:induction false} FlattenSplit(toks: seq<string>, k: nat)
    requires k <= |toks|
    ensures Flatten(toks) == Flatten(toks[..k]) + Flatten(toks[k..])
    decreases k
  {
    if k > 0 {
      assert toks[1..][..k - 1] == toks[1..k];
      assert toks[1..][k - 1..] == toks[k..];
      FlattenSplit(toks[1..], k - 1);
      assert toks[..k][1..] == toks[1..k];
    }
  }

  /** The string at offset k is the k-th string, followed by its NUL and the rest of the vector. */
  lemma FlattenAt(toks: seq<string>, k: nat)
    requires k < |toks|
    ensures Flatten(toks[k..]) == toks[k] + [NUL] + Flatten(toks[k + 1..])
    ensures Offset(toks, k + 1) == Offset(toks, k) + |toks[k]| + 1
    ensures Offset(toks, k) + |Flatten(toks[k..])| == |Flatten(toks)|
  {
    assert toks[k..][1..] == toks[k + 1..];
    FlattenSplit(toks, k);
    FlattenAppend(toks[..k], toks[k]);
    assert toks[..k + 1] == toks[..k] + [toks[k]];
  }

  /** `region` lies in `s` at index `at`. */
  predicate HoldsAt(s: seq<char>, at: nat, region: seq<char>)
  {
    at + |region| <= |s| && s[at..at + |region|] == region
  }

  predicate Packed(s: seq<char>, argv: seq<nat>, toks: seq<string>)
  {
    && |argv| == |toks|
    && (forall k :: 0 <= k < |toks| ==> argv[k] == Offset(toks, k))
    && HoldsAt(s, 0, Flatten(toks))
    && NulFree(toks)
  }

  /** Each string of a packed vector is read back at its offset. */
  lemma PackedReads(s: seq<char>, argv: seq<nat>, toks: seq<string>, k: nat)
    requires Packed(s, argv, toks) && k < |toks|
    ensures argv[k] + |toks[k]| < |s| && StrAt(s, argv[k]) == toks[k]
  {
    FlattenAt(toks, k);
    HoldsRest(s, toks, k);
    HoldsString(s, Offset(toks, k), toks[k], Flatten(toks[k + 1..]));
  }

  /** The tail of a packed vector lies at the offset of its first string. */
  lemma HoldsRest(s: seq<char>, toks: seq<string>, k: nat)
    requires HoldsAt(s, 0, Flatten(toks)) && k <= |toks|
    ensures HoldsAt(s, Offset(toks, k), Flatten(toks[k..]))
  {
    FlattenSplit(toks, k);
    HoldsSuffix(s, 0, Flatten(toks[..k]), Flatten(toks[k..]));
  }

  lemma HoldsSuffix(s: seq<char>, at: nat, x: seq<char>, y: seq<char>)
    requires HoldsAt(s, at, x + y)
    ensures HoldsAt(s, at + |x|, y)
  {
    assert s[at + |x|..at + |x| + |y|] == s[at..at + |x| + |y|][|x|..];
  }

  /** A terminated string at the head of a region is read back by `StrAt`. */
  lemma HoldsString(s: seq<char>, at: nat, t: string, rest: seq<char>)
    requires HoldsAt(s, at, t + [NUL] + rest) && NUL !in t
    ensures at + |t| < |s| && StrAt(s, at) == t
  {
    var r := t + [NUL] + rest;
    assert s[at..at + |t|] == r[..|t|];
    assert s[at + |t|] == r[|t|];
    StrAtOfTerminated(s, at, t);
  }

  /** The characters of a terminated string at the head of a region, one by one. */
  lemma HoldsHead(s: seq<char>, at: nat, t: string, rest: seq<char>)
    requires HoldsAt(s, at, t + [NUL] + rest) && NUL !in t
    ensures at + |t| < |s| && s[at + |t|] == NUL
    ensures forall i :: at <= i < at + |t| ==> s[i] == t[i - at] && s[i] != NUL
  {
    var r := t + [NUL] + rest;
    assert forall i :: at <= i < at + |r| ==> s[i] == r[i - at];
  }

  /** In a buffer that holds a NUL, the string at the start ends at a NUL inside the buffer. */
  lemma StrAtEnds(s: seq<char>, i: nat)
    requires i <= |s| && NUL in s[i..]
    ensures i + |StrAt(s, i)| < |s| && s[i..i + |StrAt(s, i)|] == StrAt(s, i)
  {
  }
}
