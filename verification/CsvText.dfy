/** csvmerge, the text of its input and output: firstcol and restcols, Python's strip, int and str, and what becomes of
    the delimiters. The delimiter is one character. */
module CsvText {
  import opened Types

  // ----- counting delimiters

  function Count(s: string, delim: char): nat {
    if s == "" then 0 else (if s[0] == delim then 1 else 0) + Count(s[1..], delim)
  }

  lemma {:induction false} CountConcat(s: string, t: string, delim: char)
    ensures Count(s + t, delim) == Count(s, delim) + Count(t, delim)
  {
    if s == "" {
      assert s + t == t;
    } else {
      CountConcat(s[1..], t, delim);
      assert (s + t)[1..] == s[1..] + t;
    }
  }

  lemma {:induction false} CountZeroIff(s: string, delim: char)
    ensures Count(s, delim) == 0 <==> delim !in s
  {
    if s != "" {
      CountZeroIff(s[1..], delim);
      assert s == [s[0]] + s[1..];
    }
  }

  function Repeat(delim: char, n: nat): string {
    if n == 0 then "" else [delim] + Repeat(delim, n - 1)
  }

  lemma {:induction false} CountRepeat(delim: char, n: nat)
    ensures Count(Repeat(delim, n), delim) == n
  {
    if n > 0 {
      CountRepeat(delim, n - 1);
      assert Repeat(delim, n)[1..] == Repeat(delim, n - 1);
    }
  }

  // ----- columns

  /** A character in front of the columns of a text. */
  function Prepend(c: char, columns: seq<string>, delim: char): (r: seq<string>)
    requires columns != []
    ensures r != [] && |r| == |columns| + if c == delim then 1 else 0
  {
    if c == delim then [""] + columns else [[c] + columns[0]] + columns[1..]
  }

  lemma PrependConcat(c: char, a: seq<string>, b: seq<string>, delim: char)
    requires a != []
    ensures Prepend(c, a + b, delim) == Prepend(c, a, delim) + b
  {
    if c == delim {
      assert [""] + (a + b) == ([""] + a) + b;
    } else {
      assert (a + b)[0] == a[0] && (a + b)[1..] == a[1..] + b;
    }
  }

  /** string.split: the columns of a text. */
  function Split(s: string, delim: char): (r: seq<string>)
    ensures r != []
  {
    if s == "" then [""] else Prepend(s[0], Split(s[1..], delim), delim)
  }

  lemma {:induction false} SplitCount(s: string, delim: char)
    ensures |Split(s, delim)| == Count(s, delim) + 1
  {
    if s != "" {
      SplitCount(s[1..], delim);
    }
  }

  lemma {:induction false} SplitWhole(s: string, delim: char)
    requires delim !in s
    ensures Split(s, delim) == [s]
  {
    if s != "" {
      SplitWhole(s[1..], delim);
      assert s == [s[0]] + s[1..];
    }
  }

  /** A delimiter between two texts puts their columns side by side. */
  lemma {:induction false} SplitJoin(s: string, t: string, delim: char)
    ensures Split(s + ([delim] + t), delim) == Split(s, delim) + Split(t, delim)
  {
    var u := s + ([delim] + t);
    if s == "" {
      assert u[0] == delim && u[1..] == t;
    } else {
      SplitJoin(s[1..], t, delim);
      assert u[0] == s[0] && u[1..] == s[1..] + ([delim] + t);
      PrependConcat(s[0], Split(s[1..], delim), Split(t, delim), delim);
    }
  }

  /** n empty columns. */
  function Blanks(n: nat): (r: seq<string>)
    ensures |r| == n && forall i :: 0 <= i < n ==> r[i] == ""
  {
    seq(n, _ => "")
  }

  lemma {:induction false} SplitRepeat(delim: char, n: nat)
    ensures Split(Repeat(delim, n), delim) == Blanks(n + 1)
  {
    if n == 0 {
      assert Blanks(1) == [""];
    } else {
      SplitRepeat(delim, n - 1);
      var s := Repeat(delim, n);
      assert s[0] == delim && s[1..] == Repeat(delim, n - 1);
      assert Prepend(delim, Blanks(n), delim) == [""] + Blanks(n) == Blanks(n + 1);
    }
  }

  // ----- strip

  /** What str.isspace accepts. */
  predicate IsSpace(c: char) {
    var k := c as int;
    || 0x09 <= k <= 0x0D || 0x1C <= k <= 0x20 || k == 0x85 || k == 0xA0 || k == 0x1680 || 0x2000 <= k <= 0x200A
    || k == 0x2028 || k == 0x2029 || k == 0x202F || k == 0x205F || k == 0x3000
  }

  function StripLeft(s: string): string {
    if s != "" && IsSpace(s[0]) then StripLeft(s[1..]) else s
  }

  function StripRight(s: string): string {
    if s != "" && IsSpace(s[|s| - 1]) then StripRight(s[..|s| - 1]) else s
  }

  function Strip(s: string): string {
    StripRight(StripLeft(s))
  }

  ghost predicate AllSpaces(s: string) {
    forall k :: 0 <= k < |s| ==> IsSpace(s[k])
  }

  lemma {:induction false} LeftSpan(s: string) returns (i: nat)
    ensures i <= |s| && StripLeft(s) == s[i..] && AllSpaces(s[..i]) && (i < |s| ==> !IsSpace(s[i]))
  {
    i := 0;
    if s != "" && IsSpace(s[0]) {
      var k := LeftSpan(s[1..]);
      i := k + 1;
      assert s[1..][k..] == s[i..];
      assert s[..i] == [s[0]] + s[1..][..k];
    }
  }

  lemma {:induction false} RightSpan(s: string) returns (j: nat)
    ensures j <= |s| && StripRight(s) == s[..j] && AllSpaces(s[j..]) && (j > 0 ==> !IsSpace(s[j - 1]))
  {
    j := |s|;
    if s != "" && IsSpace(s[|s| - 1]) {
      j := RightSpan(s[..|s| - 1]);
      assert s[..|s| - 1][..j] == s[..j];
      assert s[j..] == s[..|s| - 1][j..] + [s[|s| - 1]];
    }
  }

  /** Stripping keeps the part between two runs of spaces. */
  ghost predicate Span(s: string, i: nat, j: nat) {
    && i <= j <= |s| && AllSpaces(s[..i]) && AllSpaces(s[j..])
    && (i < j ==> !IsSpace(s[i]) && !IsSpace(s[j - 1]))
  }

  lemma StripSpan(s: string) returns (i: nat, j: nat)
    ensures Span(s, i, j) && Strip(s) == s[i..j]
  {
    i := LeftSpan(s);
    var t := s[i..];
    var k := RightSpan(t);
    j := i + k;
    assert t[..k] == s[i..j] && t[k..] == s[j..];
    if k > 0 {
      assert t[k - 1] == s[j - 1];
    }
  }

  /** Every delimiter has something other than space on both sides. */
  ghost predicate Shielded(s: string, delim: char) {
    forall k :: 0 <= k < |s| && s[k] == delim ==> HasInk(s[..k]) && HasInk(s[k + 1..])
  }

  predicate HasInk(s: string) {
    exists k :: 0 <= k < |s| && !IsSpace(s[k])
  }

  lemma CountSpan(s: string, i: nat, j: nat, delim: char)
    requires i <= j <= |s|
    ensures Count(s, delim) == Count(s[..i], delim) + Count(s[i..j], delim) + Count(s[j..], delim)
  {
    assert s == s[..i] + s[i..j] + s[j..];
    CountConcat(s[..i] + s[i..j], s[j..], delim);
    CountConcat(s[..i], s[i..j], delim);
  }

  lemma Inside(s: string, i: nat, j: nat, k: nat)
    requires i <= j <= |s| && k < |s| && s[k] !in s[..i] && s[k] !in s[j..]
    ensures i <= k < j
  {
  }

  lemma ShieldedIff(s: string, i: nat, j: nat, delim: char)
    requires Span(s, i, j) && IsSpace(delim)
    ensures Shielded(s, delim) <==> delim !in s[..i] && delim !in s[j..]
  {
    if delim !in s[..i] && delim !in s[j..] {
      forall k | 0 <= k < |s| && s[k] == delim
        ensures HasInk(s[..k]) && HasInk(s[k + 1..])
      {
        Inside(s, i, j, k);
        assert s[..k][i] == s[i];
        assert s[k + 1..][j - 1 - (k + 1)] == s[j - 1];
      }
    } else if delim in s[..i] {
      var k :| 0 <= k < i && s[..i][k] == delim;
      assert s[..i][..k] == s[..k];
      assert s[k] == delim;
    } else {
      var k :| 0 <= k < |s[j..]| && s[j..][k] == delim;
      assert s[j..][k + 1..] == s[j + k + 1..];
      assert s[j + k] == delim;
    }
  }

  /** Stripping never adds a delimiter, and it loses none exactly when the delimiter is no space or every one has
      something else on both sides. */
  lemma StripKeepsIff(s: string, delim: char)
    ensures Count(Strip(s), delim) <= Count(s, delim)
    ensures Count(Strip(s), delim) == Count(s, delim) <==> !IsSpace(delim) || Shielded(s, delim)
  {
    var i, j := StripSpan(s);
    CountSpan(s, i, j, delim);
    CountZeroIff(s[..i], delim);
    CountZeroIff(s[j..], delim);
    if IsSpace(delim) {
      ShieldedIff(s, i, j, delim);
    }
  }

  // ----- firstcol and restcols

  /** string.index. */
  function Find(s: string, delim: char): (k: nat)
    requires delim in s
    ensures k < |s| && s[k] == delim && delim !in s[..k]
  {
    if s[0] == delim then 0 else
      assert s == [s[0]] + s[1..];
      var k := Find(s[1..], delim);
      assert s[..k + 1] == [s[0]] + s[1..][..k];
      k + 1
  }

  function FirstField(text: string, delim: char): string {
    if delim in text then text[..Find(text, delim)] else text
  }

  /** The text behind the first delimiter. */
  function Behind(text: string, delim: char): string
    requires delim in text
  {
    text[Find(text, delim) + 1..]
  }

  function RestCols(text: string, delim: char): string
    requires delim in text
  {
    Strip(Behind(text, delim))
  }

  /** What the two functions take out of a line: the part before the first delimiter, and the part behind it without the
      white space around it. */
  lemma LineParts(text: string, delim: char) returns (k: nat, i: nat, j: nat)
    requires delim in text
    ensures k < i <= j <= |text| && text[k] == delim && delim !in text[..k]
    ensures FirstField(text, delim) == text[..k] && RestCols(text, delim) == text[i..j]
    ensures forall m :: k < m < i || j <= m < |text| ==> IsSpace(text[m])
    ensures i < j ==> !IsSpace(text[i]) && !IsSpace(text[j - 1])
  {
    k := Find(text, delim);
    var rest := Behind(text, delim);
    var a, b := StripSpan(rest);
    i, j := k + 1 + a, k + 1 + b;
    assert rest[a..b] == text[i..j];
    forall m | k < m < i || j <= m < |text|
      ensures IsSpace(text[m])
    {
      if m < i {
        assert text[m] == rest[..a][m - k - 1];
      } else {
        assert text[m] == rest[b..][m - j];
      }
    }
  }

  /** What restcols needs to keep all the columns of a row. */
  ghost predicate KeepsColumns(text: string, delim: char)
    requires delim in text
  {
    !IsSpace(delim) || Shielded(Behind(text, delim), delim)
  }

  lemma BehindCount(text: string, delim: char)
    requires delim in text
    ensures Count(text, delim) == 1 + Count(Behind(text, delim), delim)
  {
    var k := Find(text, delim);
    CountSpan(text, k, k + 1, delim);
    CountZeroIff(text[..k], delim);
    assert text[k..k + 1] == [delim];
    CountRepeat(delim, 1);
    assert Repeat(delim, 1) == [delim];
  }

  /** restcols never adds a delimiter, and keeps all but the first exactly when none is stripped. */
  lemma RestColsKeepsIff(text: string, delim: char)
    requires delim in text
    ensures Count(RestCols(text, delim), delim) + 1 <= Count(text, delim)
    ensures Count(RestCols(text, delim), delim) + 1 == Count(text, delim) <==> KeepsColumns(text, delim)
  {
    BehindCount(text, delim);
    StripKeepsIff(Behind(text, delim), delim);
  }

  /** With tabs, a row whose last column is empty loses a delimiter, although it has as many as its header. */
  lemma TabRowLosesColumn()
    ensures var row := "5\tx\t\n";
            && Count(row, '\t') == 2 == Count("a\tb\tc\n", '\t')
            && Count(RestCols(row, '\t'), '\t') == 0
  {
    var row := "5\tx\t\n";
    CountFive(row, '\t');
    assert Count("a\tb\tc\n", '\t') == 2 by {
      CountConcat("a", "\tb\tc\n", '\t');
      CountFive("\tb\tc\n", '\t');
      assert "a" + "\tb\tc\n" == "a\tb\tc\n";
      CountZeroIff("a", '\t');
    }
    assert Find(row, '\t') == 1;
    var rest := Behind(row, '\t');
    assert rest == "x\t\n" && rest[1] == '\t';
    assert !HasInk(rest[2..]);
    RestColsKeepsIff(row, '\t');
  }

  lemma CountFive(s: string, delim: char)
    requires |s| == 5
    ensures Count(s, delim) == One(s[0], delim) + One(s[1], delim) + One(s[2], delim) + One(s[3], delim)
            + One(s[4], delim)
  {
    assert s[1..][1..] == s[2..] && s[2..][1..] == s[3..] && s[3..][1..] == s[4..] && s[4..][1..] == "";
    assert Count(s[4..], delim) == One(s[4], delim);
    assert Count(s[3..], delim) == One(s[3], delim) + Count(s[4..], delim);
    assert Count(s[2..], delim) == One(s[2], delim) + Count(s[3..], delim);
    assert Count(s[1..], delim) == One(s[1], delim) + Count(s[2..], delim);
  }

  function One(c: char, delim: char): nat {
    if c == delim then 1 else 0
  }

  // ----- int and str

  predicate IsDigit(c: char) {
    '0' <= c <= '9'
  }

  function DigitValue(c: char): (d: nat)
    requires IsDigit(c)
    ensures d < 10
  {
    c as int - '0' as int
  }

  function DigitChar(d: nat): (c: char)
    requires d < 10
    ensures IsDigit(c) && DigitValue(c) == d && c != '_'
  {
    ('0' as int + d) as char
  }

  /** Decimal digits, with single underscores allowed between them. */
  function ParseDigits(s: string): Option<nat> {
    if s == "" then None else
      var n := |s| - 1;
      if !IsDigit(s[n]) then None
      else if n == 0 then Some(DigitValue(s[0]))
      else
        var init := if s[n - 1] == '_' then s[..n - 1] else s[..n];
        var v := ParseDigits(init);
        if v.Some? then Some(10 * v.value + DigitValue(s[n])) else None
  }

  /** int() of a string: spaces around it, an optional sign, digits. */
  function ParseInt(s: string): Option<int> {
    var t := Strip(s);
    if t == "" then None
    else if t[0] == '-' then
      var v := ParseDigits(t[1..]);
      if v.Some? then var k: int := v.value; Some(-k) else None
    else
      var v := ParseDigits(if t[0] == '+' then t[1..] else t);
      if v.Some? then var k: int := v.value; Some(k) else None
  }

  function Decimal(v: nat): (s: string)
    ensures s != ""
  {
    if v < 10 then [DigitChar(v)] else Decimal(v / 10) + [DigitChar(v % 10)]
  }

  /** str() of an integer. */
  function DecimalInt(k: int): string {
    if k < 0 then "-" + Decimal(-k) else Decimal(k)
  }

  lemma {:induction false} DecimalIsDigits(v: nat)
    ensures forall i :: 0 <= i < |Decimal(v)| ==> IsDigit(Decimal(v)[i])
  {
    if v >= 10 {
      DecimalIsDigits(v / 10);
    }
  }

  lemma {:induction false} DigitsRoundTrip(v: nat)
    ensures ParseDigits(Decimal(v)) == Some(v)
  {
    if v >= 10 {
      DigitsRoundTrip(v / 10);
      var s, n := Decimal(v), |Decimal(v / 10)|;
      assert s[..n] == Decimal(v / 10);
      DecimalIsDigits(v / 10);
      assert s[n - 1] == Decimal(v / 10)[n - 1];
    }
  }

  lemma StripNothing(s: string)
    requires forall i :: 0 <= i < |s| ==> !IsSpace(s[i])
    ensures Strip(s) == s
  {
    assert StripLeft(s) == s && StripRight(s) == s;
  }

  /** A printed key reads back as the same number. */
  lemma IntRoundTrip(k: int)
    ensures ParseInt(DecimalInt(k)) == Some(k)
  {
    var s := DecimalInt(k);
    var v := if k < 0 then -k else k;
    DecimalIsDigits(v);
    DigitsRoundTrip(v);
    StripNothing(s);
    if k < 0 {
      assert s[1..] == Decimal(v);
    } else {
      assert IsDigit(s[0]);
    }
  }

  /** A plus sign is read over, */
  lemma PlusSignIsReadOver(v: nat)
    ensures ParseInt("+" + Decimal(v)) == Some(v)
  {
    var s := "+" + Decimal(v);
    DecimalIsDigits(v);
    DigitsRoundTrip(v);
    StripNothing(s);
    assert s[1..] == Decimal(v);
  }

  /** and so is an underscore between digits. */
  lemma UnderscoreIsReadOver(v: nat, d: nat)
    requires d < 10
    ensures ParseDigits(Decimal(v) + "_" + [DigitChar(d)]) == Some(10 * v + d)
  {
    DigitsRoundTrip(v);
    var t, n := Decimal(v) + "_" + [DigitChar(d)], |Decimal(v)|;
    assert t[..n] == Decimal(v) && t[n] == '_' && t[n + 1] == DigitChar(d);
  }

  ghost predicate MadeOf(s: string, t: string) {
    forall c :: c in s ==> c in t
  }

  lemma {:induction false} DigitsMadeOf(s: string)
    requires ParseDigits(s).Some?
    ensures MadeOf(Decimal(ParseDigits(s).value), s)
  {
    var n := |s| - 1;
    if n > 0 {
      var init := if s[n - 1] == '_' then s[..n - 1] else s[..n];
      DigitsMadeOf(init);
      var v, d := ParseDigits(init).value, DigitValue(s[n]);
      assert DigitChar(d) == s[n];
      assert (10 * v + d) / 10 == v && (10 * v + d) % 10 == d;
      assert MadeOf(init, s);
    } else {
      assert DigitChar(DigitValue(s[0])) == s[0];
    }
  }

  /** The printed key is made of characters of the text it was read from. */
  lemma KeyMadeOf(s: string)
    requires ParseInt(s).Some?
    ensures MadeOf(DecimalInt(ParseInt(s).value), s)
  {
    var i, j := StripSpan(s);
    var t := Strip(s);
    assert MadeOf(t, s);
    if t[0] == '-' {
      DigitsMadeOf(t[1..]);
      assert MadeOf(t[1..], t);
    } else {
      var u := if t[0] == '+' then t[1..] else t;
      DigitsMadeOf(u);
      assert MadeOf(u, t);
    }
  }

  /** So it holds no delimiter. */
  lemma KeyHasNoDelimiter(text: string, delim: char)
    requires ParseInt(FirstField(text, delim)).Some?
    ensures Count(DecimalInt(ParseInt(FirstField(text, delim)).value), delim) == 0
  {
    var f := FirstField(text, delim);
    KeyMadeOf(f);
    CountZeroIff(DecimalInt(ParseInt(f).value), delim);
  }
}
