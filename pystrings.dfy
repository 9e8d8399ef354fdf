/**
 * The Python string built-ins that `parse_args` and the magics rely on:
 * `str.split()`, `str.split(maxsplit=1)`, `str.isidentifier()` and `int(str)`.
 */
module PyStrings {
  import opened Wrappers

  /** Python's whitespace, as `str.split()` with no separator recognises it. */
  predicate IsSpace(c: char) {
    var n := c as int;
    (9 <= n <= 13) || (28 <= n <= 32) || n == 0x85 || n == 0xA0 || n == 0x1680
    || (0x2000 <= n <= 0x200A) || n == 0x2028 || n == 0x2029 || n == 0x202F
    || n == 0x205F || n == 0x3000
  }

  predicate NoSpace(w: string) {
    forall i | 0 <= i < |w| :: !IsSpace(w[i])
  }

  /** A token `str.split()` can produce: non-empty and free of whitespace. */
  predicate IsWord(w: string) {
    w != [] && NoSpace(w)
  }

  /** The length of the longest whitespace-free prefix of `s`. */
  function WordLen(s: string): (n: nat)
    ensures n <= |s|
    ensures forall i | 0 <= i < n :: !IsSpace(s[i])
    ensures n < |s| ==> IsSpace(s[n])
  {
    if s == [] || IsSpace(s[0]) then 0 else 1 + WordLen(s[1..])
  }

  /** `s` without its leading whitespace (`str.lstrip()`). */
  function LStrip(s: string): (r: string)
    ensures |r| <= |s| && r == s[|s| - |r|..]
    ensures r == [] || !IsSpace(r[0])
    ensures forall i | 0 <= i < |s| - |r| :: IsSpace(s[i])
  {
    if s != [] && IsSpace(s[0]) then LStrip(s[1..]) else s
  }

  /** `str.split()`: the maximal runs of non-whitespace characters, in order. */
  function Split(s: string): (words: seq<string>)
    ensures forall i | 0 <= i < |words| :: IsWord(words[i])
    decreases |s|
  {
    if s == [] then []
    else if IsSpace(s[0]) then Split(s[1..])
    else
      var n := WordLen(s);
      [s[..n]] + Split(s[n..])
  }

  /** The words joined by single spaces: a reference producer of `Split`'s input. */
  function JoinWords(words: seq<string>): string {
    if words == [] then ""
    else if |words| == 1 then words[0]
    else words[0] + " " + JoinWords(words[1..])
  }

  /** The characters of `s` that are not whitespace, in order. */
  function NonSpace(s: string): string {
    if s == [] then ""
    else (if IsSpace(s[0]) then "" else [s[0]]) + NonSpace(s[1..])
  }

  function Concat(words: seq<string>): string {
    if words == [] then "" else words[0] + Concat(words[1..])
  }

  lemma {:induction false} WordLenOfWord(w: string, t: string)
    requires NoSpace(w)
    requires t == [] || IsSpace(t[0])
    ensures WordLen(w + t) == |w|
  {
    if w != [] {
      assert (w + t)[1..] == w[1..] + t;
      WordLenOfWord(w[1..], t);
    }
  }

  /** Splitting words joined by spaces gives the words back. */
  lemma {:induction false} SplitJoin(words: seq<string>)
    requires forall i | 0 <= i < |words| :: IsWord(words[i])
    ensures Split(JoinWords(words)) == words
  {
    if |words| == 1 {
      var w := words[0];
      WordLenOfWord(w, "");
      assert w + "" == w;
      assert w[|w|..] == [];
    } else if |words| > 1 {
      var w, rest := words[0], JoinWords(words[1..]);
      var s := w + " " + rest;
      assert s == w + (" " + rest);
      WordLenOfWord(w, " " + rest);
      assert s[..|w|] == w;
      assert s[|w|..] == " " + rest;
      assert (" " + rest)[1..] == rest;
      SplitJoin(words[1..]);
    }
  }

  /** A string written as words joined by single spaces splits back into those words. */
  lemma SplitOfWords(argstring: string, words: seq<string>)
    requires forall i | 0 <= i < |words| :: IsWord(words[i])
    requires JoinWords(words) == argstring
    ensures Split(argstring) == words
  {
    SplitJoin(words);
  }

  lemma {:induction false} NonSpaceAppend(a: string, b: string)
    ensures NonSpace(a + b) == NonSpace(a) + NonSpace(b)
  {
    if a != [] {
      assert (a + b)[1..] == a[1..] + b;
      NonSpaceAppend(a[1..], b);
    } else {
      assert a + b == b;
    }
  }

  lemma {:induction false} NonSpaceOfWord(w: string)
    requires NoSpace(w)
    ensures NonSpace(w) == w
  {
    if w != [] {
      NonSpaceOfWord(w[1..]);
    }
  }

  /** Splitting loses exactly the whitespace: every other character (a comma too) is kept, in order. */
  lemma {:induction false} SplitKeepsText(s: string)
    ensures Concat(Split(s)) == NonSpace(s)
    decreases |s|
  {
    if s != [] {
      if IsSpace(s[0]) {
        SplitKeepsText(s[1..]);
      } else {
        var n := WordLen(s);
        assert s == s[..n] + s[n..];
        NonSpaceAppend(s[..n], s[n..]);
        NonSpaceOfWord(s[..n]);
        SplitKeepsText(s[n..]);
        assert Split(s)[1..] == Split(s[n..]);
      }
    }
  }

  lemma {:induction false} SplitLStrip(s: string)
    ensures Split(LStrip(s)) == Split(s)
  {
    if s != [] && IsSpace(s[0]) {
      SplitLStrip(s[1..]);
    }
  }

  /** `str.split(maxsplit=1)`: the first word and the rest of the line after the whitespace that follows it. */
  function SplitOnce(s: string): (parts: seq<string>)
    ensures |parts| <= 2
  {
    var t := LStrip(s);
    if t == [] then []
    else
      var n := WordLen(t);
      var rest := LStrip(t[n..]);
      if rest == [] then [t[..n]] else [t[..n], rest]
  }

  /**
   * `split(maxsplit=1)` agrees with `split()`: it yields two parts exactly when there
   * are two words or more, its first part is the first word, and splitting its second
   * part gives the remaining words.
   */
  lemma SplitOnceAgrees(s: string)
    ensures |SplitOnce(s)| == if |Split(s)| < 2 then |Split(s)| else 2
    ensures SplitOnce(s) != [] ==> SplitOnce(s)[0] == Split(s)[0]
    ensures |SplitOnce(s)| == 2 ==> Split(SplitOnce(s)[1]) == Split(s)[1..]
  {
    var t := LStrip(s);
    SplitLStrip(s);
    if t != [] {
      var n := WordLen(t);
      var rest := LStrip(t[n..]);
      SplitLStrip(t[n..]);
      assert Split(t) == [t[..n]] + Split(t[n..]);
      if rest != [] {
        assert !IsSpace(rest[0]);
        assert Split(rest) != [];
      }
    }
  }

  predicate IsAsciiDigit(c: char) {
    '0' <= c <= '9'
  }

  predicate AllDigits(ds: string) {
    forall i | 0 <= i < |ds| :: IsAsciiDigit(ds[i])
  }

  predicate IsIdentifierStart(c: char) {
    ('a' <= c <= 'z') || ('A' <= c <= 'Z') || c == '_'
  }

  predicate IsIdentifierPart(c: char) {
    IsIdentifierStart(c) || IsAsciiDigit(c)
  }

  /**
   * `str.isidentifier()` on ASCII text: a letter or underscore, then letters, digits and
   * underscores. Keywords such as `class` are identifiers too.
   */
  function IsIdentifier(s: string): (b: bool)
    ensures b ==> s != [] && !IsAsciiDigit(s[0]) && NoSpace(s)
    ensures b ==> forall i | 0 <= i < |s| :: s[i] != '-' && s[i] != ',' && s[i] != '='
    ensures s != [] && (forall i | 0 <= i < |s| :: 'a' <= s[i] <= 'z') ==> b
  {
    |s| > 0 && IsIdentifierStart(s[0]) && forall i | 1 <= i < |s| :: IsIdentifierPart(s[i])
  }

  /** The decimal value of a string of digits, most significant first. */
  function DigitsValue(ds: string): nat
    requires AllDigits(ds)
  {
    if ds == [] then 0 else DigitsValue(ds[..|ds| - 1]) * 10 + (ds[|ds| - 1] as int - '0' as int)
  }

  /**
   * `int(s)` for base 10: an optional sign and at least one digit. A string it accepts
   * ends in a digit and holds no whitespace, a negative value comes from a leading `-`,
   * and a string of digits alone is accepted as a value of at least zero.
   */
  function ParseInt(s: string): (r: Option<int>)
    ensures r.Some? ==> s != [] && IsAsciiDigit(s[|s| - 1]) && NoSpace(s)
    ensures r.Some? && r.value < 0 ==> s[0] == '-'
    ensures s != [] && AllDigits(s) ==> r.Some? && r.value >= 0
  {
    if s != [] && (s[0] == '-' || s[0] == '+') then
      var ds := s[1..];
      if ds != [] && AllDigits(ds) then
        var v: int := DigitsValue(ds);
        Some(if s[0] == '-' then -v else v)
      else None
    else if s != [] && AllDigits(s) then Some(DigitsValue(s))
    else None
  }

  function DigitChar(d: nat): char
    requires d < 10
  {
    ('0' as int + d) as char
  }

  function NatToString(n: nat): string
    decreases n
  {
    if n < 10 then [DigitChar(n)] else NatToString(n / 10) + [DigitChar(n % 10)]
  }

  /** `str(n)`: the reference printer that `ParseInt` inverts. */
  function IntToString(n: int): string {
    if n < 0 then "-" + NatToString(-n) else NatToString(n)
  }

  lemma {:induction false} NatToStringDigits(n: nat)
    ensures NatToString(n) != [] && AllDigits(NatToString(n))
    ensures DigitsValue(NatToString(n)) == n
    decreases n
  {
    if n >= 10 {
      NatToStringDigits(n / 10);
      var s := NatToString(n);
      assert s[..|s| - 1] == NatToString(n / 10);
    }
  }

  /** `int(str(n)) == n` for every integer. */
  lemma ParseIntToString(n: int)
    ensures ParseInt(IntToString(n)) == Some(n)
  {
    var s := IntToString(n);
    if n < 0 {
      NatToStringDigits(-n);
      assert s == "-" + NatToString(-n);
      assert s[1..] == NatToString(-n);
      assert s[0] == '-';
    } else {
      NatToStringDigits(n);
      assert s == NatToString(n);
      assert IsAsciiDigit(s[0]);
    }
  }
}
