/** The elapsed-time extractor: `extract_and_convert_time` searches a timing
    wrapper's report for `(\d+):(\d+\.\d+)elapsed` and converts the first match
    to seconds. */
module ElapsedTime {
  import opened Wrappers
  import opened Text

  /** The capture groups of `(\d+):(\d+\.\d+)elapsed`: the minutes, and the
      seconds group split at its decimal point into whole and fractional digits. */
  datatype Groups = Groups(minutes: string, whole: string, fraction: string)

  /** The text the pattern matches when its groups are `g`. */
  function Token(g: Groups): string {
    g.minutes + (":" + (g.whole + ("." + (g.fraction + "elapsed"))))
  }

  /** The pattern matches `s` at position `i`, with groups `g`. This is the
      regular expression read declaratively: three non-empty digit strings
      framed by `:`, `.` and `elapsed`, starting at `i`. */
  predicate MatchesWith(s: string, i: nat, g: Groups) {
    && IsNumeral(g.minutes) && IsNumeral(g.whole) && IsNumeral(g.fraction)
    && i + |Token(g)| <= |s|
    && s[i..i + |Token(g)|] == Token(g)
  }

  /** The pattern tried at position `i`, as the regex engine does it: each `\d+`
      is greedy, and since a digit run has to stop at `:`, `.` or `e`, none of
      them ever needs to give characters back. */
  function MatchAt(s: string, i: nat): Option<Groups>
    requires i <= |s|
  {
    var a := RunEnd(s, i, Digit);
    if a == i || a == |s| || s[a] != ':' then None
    else
      var b := RunEnd(s, a + 1, Digit);
      if b == a + 1 || b == |s| || s[b] != '.' then None
      else
        var c := RunEnd(s, b + 1, Digit);
        if c == b + 1 || c + 7 > |s| || s[c..c + 7] != "elapsed" then None
        else Some(Groups(s[i..a], s[a + 1..b], s[b + 1..c]))
  }

  /** Where the parts of a match lie in the text: the minutes and the colon. */
  lemma TokenMinutes(s: string, i: nat, g: Groups)
    requires MatchesWith(s, i, g)
    ensures var a := i + |g.minutes|; s[i..a] == g.minutes && s[a] == ':'
  {
    var t, a := Token(g), |g.minutes|;
    TokenLayout(g);
    SliceAt(s, i, t, 0, a);
    SliceAt(s, i, t, a, a + 1);
    assert s[i + a] == s[i + a..i + a + 1][0];
  }

  /** Where the parts of a match lie in the text: the whole seconds and the point. */
  lemma TokenWhole(s: string, i: nat, g: Groups)
    requires MatchesWith(s, i, g)
    ensures var a, b := i + |g.minutes|, i + |g.minutes| + 1 + |g.whole|;
      s[a + 1..b] == g.whole && s[b] == '.'
  {
    var t, a, b := Token(g), |g.minutes|, |g.minutes| + 1 + |g.whole|;
    TokenLayout(g);
    SliceAt(s, i, t, a + 1, b);
    SliceAt(s, i, t, b, b + 1);
    assert s[i + b] == s[i + b..i + b + 1][0];
  }

  /** Where the parts of a match lie in the text: the fraction and `elapsed`. */
  lemma TokenFraction(s: string, i: nat, g: Groups)
    requires MatchesWith(s, i, g)
    ensures var b, c := i + |g.minutes| + 1 + |g.whole|, i + |g.minutes| + 1 + |g.whole| + 1 + |g.fraction|;
      c + 7 <= |s| && s[b + 1..c] == g.fraction && s[c..c + 7] == "elapsed"
  {
    var t, b, c := Token(g), |g.minutes| + 1 + |g.whole|, |g.minutes| + 1 + |g.whole| + 1 + |g.fraction|;
    TokenLayout(g);
    SliceAt(s, i, t, b + 1, c);
    SliceAt(s, i, t, c, c + 7);
  }

  /** Where the parts of a token lie within it. */
  lemma TokenLayout(g: Groups)
    ensures var t, a, b, c := Token(g), |g.minutes|, |g.minutes| + 1 + |g.whole|,
                              |g.minutes| + 1 + |g.whole| + 1 + |g.fraction|;
      && |t| == c + 7
      && t[0..a] == g.minutes && t[a..a + 1] == ":"
      && t[a + 1..b] == g.whole && t[b..b + 1] == "."
      && t[b + 1..c] == g.fraction && t[c..c + 7] == "elapsed"
  {
    var r4 := g.fraction + "elapsed";
    var r3 := "." + r4;
    var r2 := g.whole + r3;
    var r1 := ":" + r2;
    var t := Token(g);
    assert t == g.minutes + r1;
    var a := |g.minutes|;
    assert t[a..] == r1;
    assert t[a + 1..] == r2;
    assert t[a + 1 + |g.whole|..] == r3;
    assert t[a + 2 + |g.whole|..] == r4;
  }

  /** A slice of text that equals `t` carries every slice of `t`. */
  lemma SliceAt(s: string, i: nat, t: string, k: nat, l: nat)
    requires i + |t| <= |s| && s[i..i + |t|] == t && k <= l <= |t|
    ensures s[i + k..i + l] == t[k..l]
  {
    forall m | 0 <= m < l - k ensures s[i + k..i + l][m] == t[k..l][m] {
      assert s[i..i + |t|][k + m] == t[k + m];
    }
  }

  /** Adjacent slices join into one. */
  lemma SliceJoin(s: string, i: nat, j: nat, k: nat)
    requires i <= j <= k <= |s|
    ensures s[i..k] == s[i..j] + s[j..k]
  {
  }

  /** Whatever `MatchAt` returns is a match. */
  lemma MatchAtSound(s: string, i: nat)
    requires i <= |s| && MatchAt(s, i).Some?
    ensures MatchesWith(s, i, MatchAt(s, i).value)
  {
    var a := RunEnd(s, i, Digit);
    var b := RunEnd(s, a + 1, Digit);
    var c := RunEnd(s, b + 1, Digit);
    TokenAt(s, i, a, b, c);
  }

  /** Three digit runs framed by `:`, `.` and `elapsed` are a match. */
  lemma TokenAt(s: string, i: nat, a: nat, b: nat, c: nat)
    requires i < a && a + 1 < b && b + 1 < c && c + 7 <= |s|
    requires AllIn(s[i..a], Digit) && s[a] == ':'
    requires AllIn(s[a + 1..b], Digit) && s[b] == '.'
    requires AllIn(s[b + 1..c], Digit) && s[c..c + 7] == "elapsed"
    ensures MatchesWith(s, i, Groups(s[i..a], s[a + 1..b], s[b + 1..c]))
  {
    TokenSlice(s, i, a, b, c);
  }

  /** The text from `i` to the end of `elapsed` is the token of the three runs. */
  lemma TokenSlice(s: string, i: nat, a: nat, b: nat, c: nat)
    requires i < a && a + 1 < b && b + 1 < c && c + 7 <= |s|
    requires s[a] == ':' && s[b] == '.' && s[c..c + 7] == "elapsed"
    ensures s[i..c + 7] == Token(Groups(s[i..a], s[a + 1..b], s[b + 1..c]))
  {
    FramedSlice(s, b, c, c + 7, '.');
    FramedSlice(s, a, b, c + 7, ':');
    SliceJoin(s, i, a, c + 7);
  }

  /** A slice that opens with the separator `ch`, then a run up to `b`, then the rest. */
  lemma FramedSlice(s: string, a: nat, b: nat, k: nat, ch: char)
    requires a < b <= k <= |s| && s[a] == ch
    ensures s[a..k] == [ch] + (s[a + 1..b] + s[b..k])
  {
    assert s[a..k] == s[a..a + 1] + s[a + 1..k];
    assert s[a + 1..k] == s[a + 1..b] + s[b..k];
  }

  /** `MatchAt` succeeds when the three digit runs end at `:`, `.` and `elapsed`. */
  lemma MatchAtFound(s: string, i: nat, a: nat, b: nat, c: nat)
    requires i < a && a + 1 < b && b + 1 < c && c + 7 <= |s|
    requires RunEnd(s, i, Digit) == a && s[a] == ':'
    requires RunEnd(s, a + 1, Digit) == b && s[b] == '.'
    requires RunEnd(s, b + 1, Digit) == c && s[c..c + 7] == "elapsed"
    ensures MatchAt(s, i) == Some(Groups(s[i..a], s[a + 1..b], s[b + 1..c]))
  {
  }

  /** Every match at `i` is the one `MatchAt` returns. */
  lemma MatchAtComplete(s: string, i: nat, g: Groups)
    requires MatchesWith(s, i, g)
    ensures i <= |s| && MatchAt(s, i) == Some(g)
  {
    TokenMinutes(s, i, g);
    TokenWhole(s, i, g);
    TokenFraction(s, i, g);
    GroupsFound(s, i, g);
  }

  /** Groups laid out in the text as a match lays them out are what `MatchAt` finds. */
  lemma GroupsFound(s: string, i: nat, g: Groups)
    requires IsNumeral(g.minutes) && IsNumeral(g.whole) && IsNumeral(g.fraction)
    requires i + |g.minutes| + 1 + |g.whole| + 1 + |g.fraction| + 7 <= |s|
    requires var a := i + |g.minutes|; s[i..a] == g.minutes && s[a] == ':'
    requires var a, b := i + |g.minutes|, i + |g.minutes| + 1 + |g.whole|;
      s[a + 1..b] == g.whole && s[b] == '.'
    requires var b, c := i + |g.minutes| + 1 + |g.whole|, i + |g.minutes| + 1 + |g.whole| + 1 + |g.fraction|;
      s[b + 1..c] == g.fraction && s[c..c + 7] == "elapsed"
    ensures i <= |s| && MatchAt(s, i) == Some(g)
  {
    var a, b, c := i + |g.minutes|, i + |g.minutes| + 1 + |g.whole|,
                   i + |g.minutes| + 1 + |g.whole| + 1 + |g.fraction|;
    RunsFound(s, i, a, b, c);
  }

  /** Digit runs framed by `:`, `.` and `elapsed` are the runs `MatchAt` finds. */
  lemma RunsFound(s: string, i: nat, a: nat, b: nat, c: nat)
    requires i < a && a + 1 < b && b + 1 < c && c + 7 <= |s|
    requires AllIn(s[i..a], Digit) && s[a] == ':'
    requires AllIn(s[a + 1..b], Digit) && s[b] == '.'
    requires AllIn(s[b + 1..c], Digit) && s[c..c + 7] == "elapsed"
    ensures MatchAt(s, i) == Some(Groups(s[i..a], s[a + 1..b], s[b + 1..c]))
  {
    assert !InClass(s[a], Digit) && !InClass(s[b], Digit);
    assert s[c] == "elapsed"[0];
    assert !InClass(s[c], Digit);
    RunEndUnique(s, i, a, Digit);
    RunEndUnique(s, a + 1, b, Digit);
    RunEndUnique(s, b + 1, c, Digit);
    MatchAtFound(s, i, a, b, c);
  }


  /** At each position the pattern matches with at most one choice of groups,
      and `MatchAt` returns exactly that match. */
  lemma MatchAtExact(s: string, i: nat, g: Groups)
    requires i <= |s|
    ensures MatchAt(s, i) == Some(g) <==> MatchesWith(s, i, g)
  {
    if MatchAt(s, i) == Some(g) { MatchAtSound(s, i); }
    if MatchesWith(s, i, g) { MatchAtComplete(s, i, g); }
  }

  /** The groups of a match at a given position are determined by the position. */
  lemma MatchUnique(s: string, i: nat, g: Groups, h: Groups)
    requires MatchesWith(s, i, g) && MatchesWith(s, i, h)
    ensures g == h
  {
    MatchAtExact(s, i, g);
    MatchAtExact(s, i, h);
  }

  /** `re.search` from position `i`: the least position at or after `i` where the
      pattern matches, with its groups, or nothing if it matches nowhere. */
  function SearchFrom(s: string, i: nat): (r: Option<(nat, Groups)>)
    requires i <= |s|
    ensures r.Some? ==> i <= r.value.0 && MatchesWith(s, r.value.0, r.value.1)
    ensures r.Some? ==> forall j, h :: i <= j < r.value.0 ==> !MatchesWith(s, j, h)
    ensures r.None? ==> forall j, h :: i <= j ==> !MatchesWith(s, j, h)
    decreases |s| - i
  {
    match MatchAt(s, i)
    case Some(g) =>
      MatchAtExact(s, i, g);
      Some((i, g))
    case None =>
      assert forall h :: !MatchesWith(s, i, h) by {
        forall h ensures !MatchesWith(s, i, h) { MatchAtExact(s, i, h); }
      }
      if i == |s| then None else SearchFrom(s, i + 1)
  }

  /** `int(minutes) * 60 + float(seconds)`, computed exactly. */
  function Seconds(g: Groups): real
    requires IsNumeral(g.minutes) && IsNumeral(g.whole) && IsNumeral(g.fraction)
  {
    (Value(g.minutes) * 60 + Value(g.whole)) as real
      + Value(g.fraction) as real / Pow10(|g.fraction|) as real
  }

  /** `extract_and_convert_time`: the seconds of the first match, or `None` when
      the pattern occurs nowhere in the output. */
  function ExtractAndConvertTime(output: string): (r: Option<real>)
    ensures r.None? <==> forall i, g :: !MatchesWith(output, i, g)
  {
    match SearchFrom(output, 0)
    case Some((_, g)) => Some(Seconds(g))
    case None => None
  }

  /** The result is the value of the leftmost match. */
  lemma ExtractLeftmost(output: string, i: nat, g: Groups)
    requires MatchesWith(output, i, g)
    requires forall j: nat, h :: j < i ==> !MatchesWith(output, j, h)
    ensures ExtractAndConvertTime(output) == Some(Seconds(g))
  {
    var r := SearchFrom(output, 0);
    assert r.Some?;
    var (k, h) := r.value;
    assert k == i;
    MatchUnique(output, i, g, h);
  }

  /** `extract_and_convert_time("0:12.50elapsed")` returns 12.5. */
  lemma ExtractExample()
    ensures ExtractAndConvertTime("0:12.50elapsed") == Some(12.5)
  {
    var s, g := "0:12.50elapsed", Groups("0", "12", "50");
    assert MatchesWith(s, 0, g) by {
      assert Token(g) == s;
      assert s[0..14] == s;
    }
    assert Seconds(g) == 12.5 by {
      assert "12"[..1] == "1" && "50"[..1] == "5" && "1"[..0] == [] && "5"[..0] == [];
      assert Value("12") == 12 && Value("50") == 50 && Value("0") == 0;
      assert Pow10(2) == 100 by { assert Pow10(1) == 10; }
      assert (0 * 60 + 12) as real + 50 as real / 100 as real == 12.5;
    }
    ExtractLeftmost(s, 0, g);
  }
}
