/** Character classes and the string primitives the two parsers are built from:
    greedy runs of `\d` and `\s`, decimal digit strings and their values,
    `str.split`, `str.strip`, `re.split(r"\s+", ...)` and `str.replace(',', '')`. */
module Text {
  import opened Seqs

  /** Python's `\s` and `str.isspace`, restricted to ASCII: space, \t, \n, \r, \v, \f. */
  predicate IsSpace(c: char) {
    c == ' ' || c == '\t' || c == '\n' || c == '\r' || c == '\U{000B}' || c == '\U{000C}'
  }

  /** Python's `\d`, restricted to ASCII. */
  predicate IsDigit(c: char) {
    '0' <= c <= '9'
  }

  /** The two character classes the regular expressions of the tool use. */
  datatype Class = Digit | Space

  predicate InClass(c: char, k: Class) {
    match k
    case Digit => IsDigit(c)
    case Space => IsSpace(c)
  }

  /** Every character of `s` is of class `k`. */
  predicate AllIn(s: string, k: Class) {
    forall i :: 0 <= i < |s| ==> InClass(s[i], k)
  }

  /** A non-empty string of decimal digits: what `\d+` matches and `int()` accepts here. */
  predicate IsNumeral(s: string) {
    |s| > 0 && AllIn(s, Digit)
  }

  /** Where a greedy `\d*` or `\s*` started at `i` stops: the end of the longest
      run of class-`k` characters beginning at `i`. */
  function RunEnd(s: string, i: nat, k: Class): (j: nat)
    requires i <= |s|
    ensures i <= j <= |s|
    ensures AllIn(s[i..j], k)
    ensures j == |s| || !InClass(s[j], k)
    decreases |s| - i
  {
    if i < |s| && InClass(s[i], k) then RunEnd(s, i + 1, k) else i
  }

  /** A run that is all of class `k` and cannot be extended is the one `RunEnd` finds. */
  lemma {:induction false} RunEndUnique(s: string, i: nat, j: nat, k: Class)
    requires i <= j <= |s|
    requires AllIn(s[i..j], k)
    requires j == |s| || !InClass(s[j], k)
    ensures RunEnd(s, i, k) == j
    decreases j - i
  {
    if i < j {
      assert s[i..j][0] == s[i];
      var t := s[i + 1..j];
      assert AllIn(t, k) by {
        forall m | 0 <= m < |t| ensures InClass(t[m], k) {
          assert t[m] == s[i..j][m + 1];
        }
      }
      RunEndUnique(s, i + 1, j, k);
    }
  }

  function DigitValue(c: char): (d: nat)
    requires IsDigit(c)
    ensures d < 10
  {
    c as int - '0' as int
  }

  function DigitChar(d: nat): (c: char)
    requires d < 10
    ensures IsDigit(c) && DigitValue(c) == d
  {
    ('0' as int + d) as char
  }

  function Pow10(n: nat): (p: nat)
    ensures p >= 1
  {
    if n == 0 then 1 else 10 * Pow10(n - 1)
  }

  /** The value of a string of decimal digits, leading zeros allowed (Python's `int()`
      on such a string); the empty string has value 0. */
  function Value(ds: string): nat
    requires AllIn(ds, Digit)
    decreases |ds|
  {
    if ds == [] then 0
    else
      var init := ds[..|ds| - 1];
      assert AllIn(init, Digit) by {
        forall m | 0 <= m < |init| ensures InClass(init[m], Digit) {
          assert init[m] == ds[m];
        }
      }
      Value(init) * 10 + DigitValue(ds[|ds| - 1])
  }

  /** A concatenation is all of one class when both parts are. */
  lemma AllInConcat(a: string, b: string, k: Class)
    requires AllIn(a, k) && AllIn(b, k)
    ensures AllIn(a + b, k)
  {
    forall m | 0 <= m < |a + b| ensures InClass((a + b)[m], k) {
      if m < |a| { assert (a + b)[m] == a[m]; } else { assert (a + b)[m] == b[m - |a|]; }
    }
  }

  /** Appending a digit multiplies the value shifted in front by ten as well. */
  lemma ShiftDigit(va: int, p: int, vb: int, d: int)
    ensures (va * p + vb) * 10 + d == va * (p * 10) + (vb * 10 + d)
  {
  }

  /** The positional reading of a digit string: appending `b` shifts `a` by `|b|` places. */
  lemma {:induction false} ValueConcat(a: string, b: string)
    requires AllIn(a, Digit) && AllIn(b, Digit)
    ensures AllIn(a + b, Digit)
    ensures Value(a + b) == Value(a) * Pow10(|b|) + Value(b)
    decreases |b|
  {
    AllInConcat(a, b, Digit);
    if b == [] {
      assert a + b == a;
    } else {
      var b' := b[..|b| - 1];
      assert AllIn(b', Digit) by {
        forall m | 0 <= m < |b'| ensures InClass(b'[m], Digit) { assert b'[m] == b[m]; }
      }
      assert (a + b)[..|a + b| - 1] == a + b';
      ValueConcat(a, b');
      var va, p, vb, d := Value(a), Pow10(|b'|), Value(b'), DigitValue(b[|b| - 1]);
      assert Value(a + b) == Value(a + b') * 10 + d;
      assert Value(b) == vb * 10 + d;
      assert Pow10(|b|) == p * 10;
      ShiftDigit(va, p, vb, d);
    }
  }

  /** `str(n)`: the decimal numeral of `n`, without leading zeros. */
  function Decimal(n: nat): (s: string)
    ensures IsNumeral(s) && Value(s) == n
    ensures n > 0 ==> s[0] != '0'
    decreases n
  {
    if n < 10 then
      var s := [DigitChar(n)];
      assert s[..0] == [];
      s
    else
      var s := Decimal(n / 10) + [DigitChar(n % 10)];
      assert s[..|s| - 1] == Decimal(n / 10);
      s
  }

  // ---------------------------------------------------------------------------
  // str.split(sep)

  /** Python's `s.split(sep)` for a one-character separator: the pieces between
      the separators, an empty piece wherever two of them touch or one ends `s`. */
  function Split(s: string, sep: char): (parts: seq<string>)
    ensures |parts| >= 1
    ensures forall i :: 0 <= i < |parts| ==> sep !in parts[i]
    decreases |s|
  {
    if s == [] then [[]]
    else
      var rest := Split(s[1..], sep);
      if s[0] == sep then [[]] + rest else [[s[0]] + rest[0]] + rest[1..]
  }

  /** `sep.join(parts)`. */
  function Join(parts: seq<string>, sep: char): string
    decreases |parts|
  {
    if parts == [] then [] else if |parts| == 1 then parts[0] else parts[0] + [sep] + Join(parts[1..], sep)
  }

  /** Splitting at a separator splits the text on either side of it independently. */
  lemma {:induction false} SplitAround(a: string, b: string, sep: char)
    ensures Split(a + [sep] + b, sep) == Split(a, sep) + Split(b, sep)
    decreases |a|
  {
    if a == [] {
      assert a + [sep] + b == [sep] + b;
      assert ([sep] + b)[1..] == b;
    } else {
      assert (a + [sep] + b)[0] == a[0];
      assert (a + [sep] + b)[1..] == a[1..] + [sep] + b;
      SplitAround(a[1..], b, sep);
    }
  }

  /** A text without the separator is a single piece. */
  lemma {:induction false} SplitWithout(s: string, sep: char)
    requires sep !in s
    ensures Split(s, sep) == [s]
    decreases |s|
  {
    if s != [] {
      SplitWithout(s[1..], sep);
      assert [s[0]] + s[1..] == s;
    }
  }

  /** `sep.join(s.split(sep)) == s`. */
  lemma {:induction false} JoinSplit(s: string, sep: char)
    ensures Join(Split(s, sep), sep) == s
    decreases |s|
  {
    if s != [] {
      var rest := Split(s[1..], sep);
      JoinSplit(s[1..], sep);
      if s[0] == sep {
        assert Split(s, sep)[1..] == rest;
      } else {
        var parts := Split(s, sep);
        assert parts[1..] == rest[1..];
        if |rest| == 1 {
          assert [s[0]] + rest[0] == s;
        } else {
          assert Join(rest, sep) == rest[0] + [sep] + Join(rest[1..], sep);
          assert Join(parts, sep) == [s[0]] + rest[0] + [sep] + Join(rest[1..], sep);
        }
      }
    }
  }

  /** `s.split(sep)` undoes `sep.join(parts)` when no part holds the separator. */
  lemma {:induction false} SplitJoin(parts: seq<string>, sep: char)
    requires |parts| >= 1
    requires forall i :: 0 <= i < |parts| ==> sep !in parts[i]
    ensures Split(Join(parts, sep), sep) == parts
    decreases |parts|
  {
    SplitWithout(parts[0], sep);
    if |parts| > 1 {
      SplitJoin(parts[1..], sep);
      SplitAround(parts[0], Join(parts[1..], sep), sep);
      assert [parts[0]] + parts[1..] == parts;
    }
  }

  // ---------------------------------------------------------------------------
  // str.strip() and re.split(r"\s+", ...)

  /** `s.lstrip()`. */
  function TrimStart(s: string): (t: string)
    ensures |t| <= |s|
    ensures t == s[|s| - |t|..]
    ensures t == [] || !IsSpace(t[0])
    ensures AllIn(s[..|s| - |t|], Space)
  {
    s[RunEnd(s, 0, Space)..]
  }

  /** `s.rstrip()`. */
  function TrimEnd(s: string): (t: string)
    ensures |t| <= |s|
    ensures t == s[..|t|]
    ensures t == [] || !IsSpace(t[|t| - 1])
    ensures AllIn(s[|t|..], Space)
    decreases |s|
  {
    if s != [] && IsSpace(s[|s| - 1]) then
      var t := TrimEnd(s[..|s| - 1]);
      assert s[|t|..] == s[..|s| - 1][|t|..] + [s[|s| - 1]];
      t
    else s
  }

  /** `s.strip()`. */
  function Strip(s: string): string {
    TrimEnd(TrimStart(s))
  }

  /** `rstrip` keeps every character up to the last one that is not white space. */
  lemma TrimEndKeeps(s: string, j: nat)
    requires j < |s| && !IsSpace(s[j])
    ensures j < |TrimEnd(s)|
  {
  }

  /** Python's `re.split(r"\s+", t)`: the pieces between maximal runs of white space;
      a run at either end of `t` yields an empty first or last piece. */
  function SplitWs(t: string): (parts: seq<string>)
    ensures |parts| >= 1
    decreases |t|
  {
    if t == [] then [[]]
    else if IsSpace(t[0]) then [[]] + SplitWs(t[RunEnd(t, 1, Space)..])
    else
      var rest := SplitWs(t[1..]);
      [[t[0]] + rest[0]] + rest[1..]
  }

  /** A piece without white space is a single field. */
  lemma {:induction false} SplitWsNoSpace(a: string)
    requires forall m :: 0 <= m < |a| ==> !IsSpace(a[m])
    ensures SplitWs(a) == [a]
    decreases |a|
  {
    if a != [] {
      SplitWsNoSpace(a[1..]);
      assert [a[0]] + a[1..] == a;
    }
  }

  /** A field followed by one space and a text that does not start with white
      space splits into that field and the fields of the text. */
  lemma {:induction false} SplitWsCons(a: string, b: string)
    requires forall m :: 0 <= m < |a| ==> !IsSpace(a[m])
    requires b == [] || !IsSpace(b[0])
    ensures SplitWs(a + [' '] + b) == [a] + SplitWs(b)
    decreases |a|
  {
    var t := a + [' '] + b;
    if a == [] {
      assert t == [' '] + b;
      assert t[1..] == b;
      assert 1 == |t| || !InClass(t[1], Space);
      RunEndUnique(t, 1, 1, Space);
    } else {
      assert t[1..] == a[1..] + [' '] + b;
      SplitWsCons(a[1..], b);
      assert [a[0]] + a[1..] == a;
    }
  }

  /** No piece of a split on white space holds white space. */
  lemma {:induction false} SplitWsPartsPlain(t: string)
    ensures forall i, m :: 0 <= i < |SplitWs(t)| && 0 <= m < |SplitWs(t)[i]| ==> !IsSpace(SplitWs(t)[i][m])
    decreases |t|
  {
    if t == [] {
    } else if IsSpace(t[0]) {
      SplitWsPartsPlain(t[RunEnd(t, 1, Space)..]);
    } else {
      SplitWsPartsPlain(t[1..]);
      var rest := SplitWs(t[1..]);
      assert SplitWs(t) == [[t[0]] + rest[0]] + rest[1..];
      forall m | 0 <= m < |[t[0]] + rest[0]| ensures !IsSpace(([t[0]] + rest[0])[m]) {
        if m > 0 { assert ([t[0]] + rest[0])[m] == rest[0][m - 1]; }
      }
    }
  }

  /** A field, then a run of white space of any length, then a text that does
      not start with white space: the field, then the fields of the text. This is
      how the padded columns of a table line are split. */
  lemma {:induction false} SplitWsRun(a: string, w: string, b: string)
    requires forall m :: 0 <= m < |a| ==> !IsSpace(a[m])
    requires |w| > 0 && AllIn(w, Space)
    requires b == [] || !IsSpace(b[0])
    ensures SplitWs(a + w + b) == [a] + SplitWs(b)
    decreases |a|
  {
    var t := a + w + b;
    if a == [] {
      assert t == w + b;
      assert t[1..|w|] == w[1..];
      assert |w| == |t| || !InClass(t[|w|], Space);
      RunEndUnique(t, 1, |w|, Space);
      assert t[|w|..] == b;
    } else {
      assert t[1..] == a[1..] + w + b;
      SplitWsRun(a[1..], w, b);
      assert [a[0]] + a[1..] == a;
    }
  }

  /** Columns padded with runs of spaces and tabs split into the columns. */
  lemma SplitWsPaddedExample()
    ensures SplitWs("0   1,008\t 8") == ["0", "1,008", "8"]
  {
    assert "0   1,008\t 8" == "0" + "   " + ("1,008" + "\t " + "8");
    SplitWsNoSpace("8");
    SplitWsRun("1,008", "\t ", "8");
    SplitWsRun("0", "   ", "1,008" + "\t " + "8");
  }

  /** `re.split(r"\s+", " ".join(fs))` gives back `fs` when every field is
      non-empty and free of white space. */
  lemma {:induction false} SplitWsJoin(fs: seq<string>)
    requires |fs| >= 1
    requires forall i :: 0 <= i < |fs| ==> fs[i] != [] && forall m :: 0 <= m < |fs[i]| ==> !IsSpace(fs[i][m])
    ensures SplitWs(Join(fs, ' ')) == fs
    decreases |fs|
  {
    if |fs| == 1 {
      SplitWsNoSpace(fs[0]);
    } else {
      var rest := fs[1..];
      SplitWsJoin(rest);
      assert Join(rest, ' ')[0] == rest[0][0] by { JoinFirst(rest, ' '); }
      SplitWsCons(fs[0], Join(rest, ' '));
      assert [fs[0]] + rest == fs;
    }
  }

  /** A join starts with the first character of its first part. */
  lemma JoinFirst(parts: seq<string>, sep: char)
    requires |parts| >= 1 && parts[0] != []
    ensures |Join(parts, sep)| > 0 && Join(parts, sep)[0] == parts[0][0]
  {
  }

  /** A join ends with the last character of its last part. */
  lemma {:induction false} JoinLast(parts: seq<string>, sep: char)
    requires |parts| >= 1 && parts[|parts| - 1] != []
    ensures |Join(parts, sep)| > 0 && Join(parts, sep)[|Join(parts, sep)| - 1] == parts[|parts| - 1][|parts[|parts| - 1]| - 1]
    decreases |parts|
  {
    if |parts| > 1 {
      JoinLast(parts[1..], sep);
    }
  }

  /** Stripping leaves a text unchanged that neither starts nor ends with white space. */
  lemma StripNoEdges(s: string)
    requires s != [] && !IsSpace(s[0]) && !IsSpace(s[|s| - 1])
    ensures Strip(s) == s
  {
    RunEndUnique(s, 0, 0, Space);
    assert TrimStart(s) == s;
  }

  /** The whitespace-separated fields of a line: `re.split(r"\s+", line.strip())`. */
  function Fields(line: string): seq<string> {
    SplitWs(Strip(line))
  }

  /** The first field of `t` ends at its first white space. */
  lemma {:induction false} SplitWsFirst(t: string, k: nat)
    requires 0 < k <= |t|
    requires forall m :: 0 <= m < k ==> !IsSpace(t[m])
    requires k == |t| || IsSpace(t[k])
    ensures SplitWs(t)[0] == t[..k]
    decreases k
  {
    var rest := SplitWs(t[1..]);
    if k == 1 {
      assert rest[0] == [];
      assert t[..1] == [t[0]];
    } else {
      SplitWsFirst(t[1..], k - 1);
      assert t[..k] == [t[0]] + t[1..][..k - 1];
    }
  }

  // ---------------------------------------------------------------------------
  // Thousands separators

  predicate NotComma(c: char) {
    c != ','
  }

  /** `s.replace(',', '')`: the characters of `s` that are not commas, in order. */
  function RemoveCommas(s: string): (t: string)
    ensures forall c :: c in t <==> c in s && c != ','
    ensures |t| <= |s|
    decreases |s|
  {
    if s == [] then []
    else
      var rest := RemoveCommas(s[1..]);
      assert forall c :: c in s <==> c == s[0] || c in s[1..];
      if s[0] == ',' then rest else [s[0]] + rest
  }

  /** Comma removal is the comprehension of the characters that are not commas:
      it keeps every other character, in order. */
  lemma {:induction false} RemoveCommasInOrder(s: string)
    ensures RemoveCommas(s) == Filter(s, NotComma)
    decreases |s|
  {
    if s != [] {
      var x, rest := s[0], s[1..];
      RemoveCommasInOrder(rest);
      assert s == [x] + rest;
      FilterConcat([x], rest, NotComma);
      FilterSingle(x, NotComma);
      assert RemoveCommas(s) == (if NotComma(x) then [x] else []) + RemoveCommas(rest);
    }
  }

  lemma {:induction false} RemoveCommasConcat(a: string, b: string)
    ensures RemoveCommas(a + b) == RemoveCommas(a) + RemoveCommas(b)
    decreases |a|
  {
    if a == [] {
      assert a + b == b;
    } else {
      assert (a + b)[0] == a[0];
      assert (a + b)[1..] == a[1..] + b;
      RemoveCommasConcat(a[1..], b);
    }
  }

  /** The three digits of `k < 1000`, zero-padded. */
  function Pad3(k: nat): (s: string)
    requires k < 1000
    ensures |s| == 3 && AllIn(s, Digit) && Value(s) == k
  {
    var a, b, c := DigitChar(k / 100), DigitChar(k / 10 % 10), DigitChar(k % 10);
    var s := [a, b, c];
    assert s[..2] == [a, b] && [a, b][..1] == [a] && [a][..0] == [];
    assert Value([a]) == k / 100;
    assert Value([a, b]) == k / 100 * 10 + k / 10 % 10;
    s
  }

  /** The comma-grouped numeral ms_print writes, e.g. `12,345`. */
  function Grouped(n: nat): (s: string)
    ensures |s| > 0 && IsDigit(s[0]) && IsDigit(s[|s| - 1])
    ensures forall m :: 0 <= m < |s| ==> s[m] == ',' || IsDigit(s[m])
    decreases n
  {
    if n < 1000 then
      var d := Decimal(n);
      assert forall m :: 0 <= m < |d| ==> InClass(d[m], Digit);
      d
    else
      var h, p := Grouped(n / 1000), Pad3(n % 1000);
      assert forall m :: 0 <= m < |p| ==> InClass(p[m], Digit);
      var s := h + "," + p;
      assert forall m :: 0 <= m < |s| ==> s[m] == (if m < |h| then h[m] else if m == |h| then ',' else p[m - |h| - 1]);
      s
  }

  /** Dropping commas leaves a comma-free string unchanged. */
  lemma {:induction false} RemoveCommasNone(s: string)
    requires ',' !in s
    ensures RemoveCommas(s) == s
    decreases |s|
  {
    if s != [] {
      assert s[0] in s;
      assert forall c :: c in s[1..] ==> c in s;
      RemoveCommasNone(s[1..]);
      assert [s[0]] + s[1..] == s;
    }
  }

  /** Dropping the commas of a grouped numeral gives back the digits of its value:
      `int("12,345".replace(",", ""))` is 12345. */
  lemma {:induction false} GroupedValue(n: nat)
    ensures IsNumeral(RemoveCommas(Grouped(n)))
    ensures Value(RemoveCommas(Grouped(n))) == n
    decreases n
  {
    if n < 1000 {
      var d := Decimal(n);
      assert forall c :: c in d ==> IsDigit(c) by {
        forall c | c in d ensures IsDigit(c) {
          var m :| 0 <= m < |d| && d[m] == c;
          assert InClass(d[m], Digit);
        }
      }
      RemoveCommasNone(d);
    } else {
      var h, p := Grouped(n / 1000), Pad3(n % 1000);
      GroupedValue(n / 1000);
      assert forall c :: c in p ==> IsDigit(c) by {
        forall c | c in p ensures IsDigit(c) {
          var m :| 0 <= m < |p| && p[m] == c;
          assert InClass(p[m], Digit);
        }
      }
      RemoveCommasNone(p);
      RemoveCommasConcat(h + ",", p);
      RemoveCommasConcat(h, ",");
      assert RemoveCommas(",") == [] by { assert ","[1..] == []; }
      var dh := RemoveCommas(h);
      assert RemoveCommas(h + "," + p) == dh + p;
      ValueConcat(dh, p);
      assert Pow10(3) == 1000 by { assert Pow10(2) == 100 by { assert Pow10(1) == 10; } }
      assert Value(dh + p) == (n / 1000) * 1000 + n % 1000;
      assert Grouped(n) == h + "," + p;
    }
  }

  /** `"12,345"` reads as 12345. */
  lemma GroupedExample()
    ensures Grouped(12345) == "12,345"
  {
    assert Decimal(12) == "12" by {
      assert Decimal(1) == "1";
    }
    assert Pad3(345) == "345";
  }
}
