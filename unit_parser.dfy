/**
 * parseUnit of src/utils/unit-parser.ts: a magnitude such as "500K", "37KB"
 * or "1_000 b" turned into a number.
 *
 * The regular expression  ^\s*([\d_.]+)\s*([KMGT]?[Bb]?)\s*$  is modelled by a
 * scanner (Scan) over the four disjoint character classes it uses; because the
 * classes are disjoint, the match is unique, and Scan is proved to find it
 * exactly when the string has that shape (ScanSound, ScanComplete).
 */
module UnitParser {
  import opened Js

  /** JavaScript's \s: the WhiteSpace and LineTerminator code points. */
  predicate IsSpace(c: char) {
    c == ' ' || c == '\t' || c == '\n' || c == '\U{000B}' || c == '\U{000C}' || c == '\r'
    || c == '\U{00A0}' || c == '\U{1680}' || ('\U{2000}' <= c <= '\U{200A}')
    || c == '\U{2028}' || c == '\U{2029}' || c == '\U{202F}' || c == '\U{205F}'
    || c == '\U{3000}' || c == '\U{FEFF}'
  }

  /** [\d_.] (without the u flag \d is the ASCII digits only). */
  predicate IsNumChar(c: char) {
    ('0' <= c <= '9') || c == '_' || c == '.'
  }

  /** [KMGT] */
  predicate IsUnitLetter(c: char) {
    c == 'K' || c == 'M' || c == 'G' || c == 'T'
  }

  /** [Bb] */
  predicate IsByteLetter(c: char) {
    c == 'B' || c == 'b'
  }

  /** s matches \s* */
  predicate Spaces(s: string) {
    forall i :: 0 <= i < |s| ==> IsSpace(s[i])
  }

  /** s matches [\d_.]* */
  predicate NumChars(s: string) {
    forall i :: 0 <= i < |s| ==> IsNumChar(s[i])
  }

  /** What the second group [KMGT]?[Bb]? can match. */
  predicate IsSuffix(u: string) {
    || u == []
    || (|u| == 1 && (IsUnitLetter(u[0]) || IsByteLetter(u[0])))
    || (|u| == 2 && IsUnitLetter(u[0]) && IsByteLetter(u[1]))
  }

  /** The two groups of a successful match. */
  datatype Match = Match(number: string, suffix: string)

  /** The first index at or after i that does not hold a \s character (|s| if none). */
  function SkipSpaces(s: string, i: nat): (j: nat)
    requires i <= |s|
    ensures i <= j <= |s|
    decreases |s| - i
  {
    if i < |s| && IsSpace(s[i]) then SkipSpaces(s, i + 1) else i
  }

  /** SkipSpaces passes over \s characters only and stops on another character or the end. */
  lemma {:induction false} SkipSpacesRun(s: string, i: nat)
    requires i <= |s|
    ensures Spaces(s[i..SkipSpaces(s, i)])
    ensures SkipSpaces(s, i) < |s| ==> !IsSpace(s[SkipSpaces(s, i)])
    decreases |s| - i
  {
    if i < |s| && IsSpace(s[i]) {
      SkipSpacesRun(s, i + 1);
      assert s[i..SkipSpaces(s, i)] == [s[i]] + s[i + 1..SkipSpaces(s, i)];
    }
  }

  /** The first index at or after i that does not hold a [\d_.] character (|s| if none). */
  function SkipNumChars(s: string, i: nat): (j: nat)
    requires i <= |s|
    ensures i <= j <= |s|
    decreases |s| - i
  {
    if i < |s| && IsNumChar(s[i]) then SkipNumChars(s, i + 1) else i
  }

  /** SkipNumChars passes over [\d_.] characters only and stops on another character or the end. */
  lemma {:induction false} SkipNumCharsRun(s: string, i: nat)
    requires i <= |s|
    ensures NumChars(s[i..SkipNumChars(s, i)])
    ensures SkipNumChars(s, i) < |s| ==> !IsNumChar(s[SkipNumChars(s, i)])
    decreases |s| - i
  {
    if i < |s| && IsNumChar(s[i]) {
      SkipNumCharsRun(s, i + 1);
      assert s[i..SkipNumChars(s, i)] == [s[i]] + s[i + 1..SkipNumChars(s, i)];
    }
  }

  /** Where the match of the regular expression would cut s: after the leading \s*, the number, the gap, the suffix, the trailing \s*. */
  datatype Cuts = Cuts(i: nat, j: nat, k: nat, m: nat, n: nat)

  /** Each part taken as long as the regular expression lets it (its classes are disjoint, so greedy is exact). */
  function Cut(s: string): (c: Cuts)
    ensures c.i <= c.j <= c.k <= c.m <= c.n <= |s|
  {
    var i := SkipSpaces(s, 0);
    var j := SkipNumChars(s, i);
    var k := SkipSpaces(s, j);
    var l := if k < |s| && IsUnitLetter(s[k]) then k + 1 else k;
    var m := if l < |s| && IsByteLetter(s[l]) then l + 1 else l;
    Cuts(i, j, k, m, SkipSpaces(s, m))
  }

  /** value.match(UNIT_REGIX), giving its two groups or null. */
  function Scan(s: string): Option<Match> {
    var c := Cut(s);
    if c.i < c.j && c.n == |s| then Some(Match(s[c.i..c.j], s[c.k..c.m])) else None
  }

  /** The shape the regular expression describes, with its pieces named. */
  predicate Shaped(lead: string, number: string, gap: string, suffix: string, trail: string) {
    Spaces(lead) && |number| > 0 && NumChars(number) && Spaces(gap)
    && IsSuffix(suffix) && Spaces(trail)
  }

  /** Each part Cut marks has the character class of its part of the regular expression. */
  lemma CutParts(s: string)
    ensures var c := Cut(s);
      && Spaces(s[..c.i]) && NumChars(s[c.i..c.j]) && Spaces(s[c.j..c.k])
      && IsSuffix(s[c.k..c.m]) && Spaces(s[c.m..c.n])
  {
    var c := Cut(s);
    SkipSpacesRun(s, 0);
    SkipNumCharsRun(s, c.i);
    SkipSpacesRun(s, c.j);
    SkipSpacesRun(s, c.m);
    assert s[..c.i] == s[0..c.i];
    var u := s[c.k..c.m];
    if c.m == c.k + 1 {
      assert u == [s[c.k]];
    } else if c.m == c.k + 2 {
      assert u == [s[c.k], s[c.k + 1]];
    }
  }

  /** Whatever Scan accepts is lead + number + gap + suffix + trail of that shape. */
  lemma ScanSound(s: string)
    requires Scan(s).Some?
    ensures exists lead, gap, trail ::
      Shaped(lead, Scan(s).value.number, gap, Scan(s).value.suffix, trail)
      && s == lead + Scan(s).value.number + gap + Scan(s).value.suffix + trail
  {
    var c := Cut(s);
    CutParts(s);
    assert s[c.m..c.n] == s[c.m..];
    Joined(s, c.i, c.j, c.k, c.m);
  }

  /** Five consecutive slices of s make up s. */
  lemma Joined(s: string, i: nat, j: nat, k: nat, m: nat)
    requires i <= j <= k <= m <= |s|
    ensures s == s[..i] + s[i..j] + s[j..k] + s[k..m] + s[m..]
  {
    assert s[..j] == s[..i] + s[i..j];
    assert s[..k] == s[..j] + s[j..k];
    assert s[..m] == s[..k] + s[k..m];
    assert s == s[..m] + s[m..];
  }

  /** SkipSpaces stops exactly at the end of a run of \s characters followed by another character or the end. */
  lemma {:induction false} SkipSpacesStops(s: string, i: nat, j: nat)
    requires i <= j <= |s| && Spaces(s[i..j]) && (j < |s| ==> !IsSpace(s[j]))
    ensures SkipSpaces(s, i) == j
    decreases j - i
  {
    if i < j {
      assert IsSpace(s[i..j][0]);
      assert s[i + 1..j] == s[i..j][1..];
      SkipSpacesStops(s, i + 1, j);
    }
  }

  /** SkipNumChars stops exactly at the end of a run of [\d_.] characters followed by another character or the end. */
  lemma {:induction false} SkipNumCharsStops(s: string, i: nat, j: nat)
    requires i <= j <= |s| && NumChars(s[i..j]) && (j < |s| ==> !IsNumChar(s[j]))
    ensures SkipNumChars(s, i) == j
    decreases j - i
  {
    if i < j {
      assert IsNumChar(s[i..j][0]);
      assert s[i + 1..j] == s[i..j][1..];
      SkipNumCharsStops(s, i + 1, j);
    }
  }

  /** The pieces of a + b are a and b. */
  lemma Pieces(a: string, b: string, s: string)
    requires s == a + b
    ensures s[..|a|] == a && s[|a|..] == b
  {
  }

  /** The five pieces of a concatenation are its slices at the pieces' lengths. */
  lemma Slices(lead: string, number: string, gap: string, suffix: string, trail: string, s: string)
    requires s == lead + number + gap + suffix + trail
    ensures var i := |lead|;
      var j := i + |number|;
      var k := j + |gap|;
      var m := k + |suffix|;
      && s[..i] == lead && s[i..j] == number && s[j..k] == gap && s[k..m] == suffix && s[m..] == trail
  {
    var t1 := lead + number;
    var t2 := t1 + gap;
    var t3 := t2 + suffix;
    Pieces(t3, trail, s);
    Pieces(t2, suffix, t3);
    Pieces(t1, gap, t2);
    Pieces(lead, number, t1);
  }

  /** After a suffix of the grammar followed by \s or the end, Cut's two optional letters take exactly that suffix. */
  lemma SuffixCut(s: string, k: nat, m: nat)
    requires k <= m <= |s| && IsSuffix(s[k..m]) && (m < |s| ==> IsSpace(s[m]))
    ensures var l := if k < |s| && IsUnitLetter(s[k]) then k + 1 else k;
      (if l < |s| && IsByteLetter(s[l]) then l + 1 else l) == m
  {
    var u := s[k..m];
    if |u| >= 1 {
      assert s[k] == u[0];
    }
    if |u| == 2 {
      assert s[k + 1] == u[1];
    }
  }

  /**
   * Cut marks exactly the pieces of a string of the regular expression's
   * shape whose suffix is not empty or ends the string (an empty suffix
   * before trailing \s is the same string with the trail in the gap).
   */
  lemma CutOf(s: string, i: nat, j: nat, k: nat, m: nat)
    requires i < j <= k <= m <= |s| && (k == m ==> m == |s|)
    requires Spaces(s[..i]) && NumChars(s[i..j]) && Spaces(s[j..k]) && IsSuffix(s[k..m]) && Spaces(s[m..])
    ensures Cut(s) == Cuts(i, j, k, m, |s|)
  {
    CutBack(s, k, m);
    CutFront(s, i, j, k);
  }

  /** The leading \s*, the number and the gap end where the suffix starts. */
  lemma CutFront(s: string, i: nat, j: nat, k: nat)
    requires i < j <= k <= |s| && (k < |s| ==> IsUnitLetter(s[k]) || IsByteLetter(s[k]))
    requires Spaces(s[..i]) && NumChars(s[i..j]) && Spaces(s[j..k])
    ensures SkipSpaces(s, 0) == i && SkipNumChars(s, i) == j && SkipSpaces(s, j) == k
  {
    assert s[..i] == s[0..i] && s[i] == s[i..j][0];
    SkipSpacesStops(s, 0, i);
    if j < k {
      assert s[j] == s[j..k][0];
    }
    SkipNumCharsStops(s, i, j);
    SkipSpacesStops(s, j, k);
  }

  /** The suffix ends where the trailing \s* starts, and that runs to the end. */
  lemma CutBack(s: string, k: nat, m: nat)
    requires k <= m <= |s| && (k == m ==> m == |s|)
    requires IsSuffix(s[k..m]) && Spaces(s[m..])
    ensures k < |s| ==> IsUnitLetter(s[k]) || IsByteLetter(s[k])
    ensures var l := if k < |s| && IsUnitLetter(s[k]) then k + 1 else k;
      (if l < |s| && IsByteLetter(s[l]) then l + 1 else l) == m
    ensures SkipSpaces(s, m) == |s|
  {
    if m < |s| {
      assert s[m] == s[m..][0];
    }
    if k < |s| {
      assert s[k] == s[k..m][0];
    }
    SuffixCut(s, k, m);
    assert s[m..|s|] == s[m..];
    SkipSpacesStops(s, m, |s|);
  }

  /** Every string of the regular expression's shape is matched, with exactly its own groups. */
  lemma ScanComplete(lead: string, number: string, gap: string, suffix: string, trail: string)
    requires Shaped(lead, number, gap, suffix, trail)
    ensures Scan(lead + number + gap + suffix + trail) == Some(Match(number, suffix))
  {
    var s := lead + number + gap + suffix + trail;
    Slices(lead, number, gap, suffix, trail, s);
    var i := |lead|;
    var j := i + |number|;
    var k := j + |gap|;
    if suffix == [] {
      assert s[j..|s|] == gap + trail;
      CutOf(s, i, j, |s|, |s|);
    } else {
      CutOf(s, i, j, k, k + |suffix|);
    }
  }

  /** rx[1].replaceAll("_", "") */
  function StripUnderscores(t: string): (r: string)
    ensures |r| <= |t|
    ensures forall c :: c in r <==> c in t && c != '_'
    ensures '_' !in t ==> r == t
  {
    if t == [] then []
    else if t[0] == '_' then StripUnderscores(t[1..])
    else [t[0]] + StripUnderscores(t[1..])
  }

  /** Stripping works piece by piece, so the characters kept stay in their order. */
  lemma {:induction false} StripUnderscoresAppend(a: string, b: string)
    ensures StripUnderscores(a + b) == StripUnderscores(a) + StripUnderscores(b)
    decreases |a|
  {
    if a == [] {
      assert a + b == b;
    } else {
      assert (a + b)[0] == a[0] && (a + b)[1..] == a[1..] + b;
      StripUnderscoresAppend(a[1..], b);
    }
  }

  predicate IsDigit(c: char) {
    '0' <= c <= '9'
  }

  predicate Digits(s: string) {
    forall i :: 0 <= i < |s| ==> IsDigit(s[i])
  }

  /** The value of a string of decimal digits (0 for the empty string). */
  function DigitsValue(d: string): (n: nat)
    requires Digits(d)
  {
    if d == [] then 0 else DigitsValue(d[..|d| - 1]) * 10 + (d[|d| - 1] - '0') as nat
  }

  function Pow(b: nat, e: nat): (p: nat)
    ensures b > 0 ==> p > 0
  {
    if e == 0 then 1 else b * Pow(b, e - 1)
  }

  /**
   * Number(t) for a string of digits and dots: "" is 0, "12" and "1.5" and
   * ".5" and "1." are decimal literals, "." and anything with two dots is NaN.
   */
  function ToNumber(t: string): (x: Number)
    requires forall c :: c in t ==> IsDigit(c) || c == '.'
    ensures x.Finite? || x.NaN?
    ensures x.Finite? ==> x.r >= 0.0
    ensures ('.' !in t) ==> x == Finite(DigitsValue(t) as real)
    ensures x.NaN? <==> '.' in t && ('.' in t[IndexOfDot(t) + 1..] || |t| == 1)
  {
    if '.' !in t then Finite(DigitsValue(t) as real)
    else
      var d := IndexOfDot(t);
      var whole, fraction := t[..d], t[d + 1..];
      if '.' in fraction || (whole == [] && fraction == []) then NaN
      else
        assert Digits(whole) && Digits(fraction) by {
          forall i | 0 <= i < |whole| ensures IsDigit(whole[i]) {
            assert whole[i] in t;
            IndexOfDotFirst(t, whole[i]);
          }
          forall i | 0 <= i < |fraction| ensures IsDigit(fraction[i]) {
            assert fraction[i] == t[d + 1 + i];
          }
        }
        Finite(Decimal(whole, fraction))
  }

  /** The value of the decimal numeral whole.fraction. */
  function Decimal(whole: string, fraction: string): (x: real)
    requires Digits(whole) && Digits(fraction)
    ensures x >= 0.0
  {
    DigitsValue(whole) as real + DigitsValue(fraction) as real / Pow(10, |fraction|) as real
  }

  function IndexOfDot(t: string): (d: nat)
    requires '.' in t
    ensures d < |t| && t[d] == '.'
  {
    if t[0] == '.' then 0 else IndexOfDot(t[1..]) + 1
  }

  lemma {:induction false} IndexOfDotFirst(t: string, c: char)
    requires '.' in t && c in t[..IndexOfDot(t)]
    ensures c != '.'
  {
    if t[0] != '.' {
      if c != t[0] {
        assert c in t[1..][..IndexOfDot(t[1..])];
        IndexOfDotFirst(t[1..], c);
      }
    }
  }

  /** The dot after a run of digits is the first one. */
  lemma {:induction false} IndexOfDotAfter(w: string, f: string)
    requires Digits(w)
    ensures '.' in w + "." + f && IndexOfDot(w + "." + f) == |w|
    decreases |w|
  {
    var t := w + "." + f;
    assert t[|w|] == '.';
    if w != [] {
      assert t[1..] == w[1..] + "." + f;
      IndexOfDotAfter(w[1..], f);
    }
  }

  /** A numeral with one dot is its whole part plus its fraction over a power of ten. */
  lemma ToNumberDecimal(w: string, f: string)
    requires Digits(w) && Digits(f) && (w != [] || f != [])
    ensures forall c :: c in w + "." + f ==> IsDigit(c) || c == '.'
    ensures ToNumber(w + "." + f) == Finite(Decimal(w, f))
  {
    var t := w + "." + f;
    NumeralChars(w, f);
    IndexOfDotAfter(w, f);
    assert t[..|w|] == w && t[|w| + 1..] == f;
    assert forall i :: 0 <= i < |f| ==> f[i] != '.';
  }

  lemma NumeralChars(w: string, f: string)
    requires Digits(w) && Digits(f)
    ensures forall c :: c in w + "." + f ==> IsDigit(c) || c == '.'
  {
    var t := w + "." + f;
    forall c | c in t ensures IsDigit(c) || c == '.' {
      var i :| 0 <= i < |t| && t[i] == c;
      if i < |w| { assert t[i] == w[i]; } else if i > |w| { assert t[i] == f[i - |w| - 1]; }
    }
  }

  /** The switch over rx[2]: the multiplier of each case, or None for the default branch that throws. */
  function Multiplier(u: string): (k: Option<nat>)
    ensures k.Some? ==> k.value > 0
  {
    match u
    case "" => Some(1)
    case "b" => Some(1)
    case "B" => Some(1)
    case "K" => Some(1000)
    case "Kb" => Some(1000)
    case "M" => Some(1_000_000)
    case "Mb" => Some(1_000_000)
    case "G" => Some(1_000_000_000)
    case "Gb" => Some(1_000_000_000)
    case "T" => Some(1_000_000_000_000)
    case "Tb" => Some(1_000_000_000_000)
    case "KB" => Some(Pow(2, 10))
    case "MB" => Some(Pow(2, 20))
    case "GB" => Some(Pow(2, 30))
    case "TB" => Some(Pow(2, 40))
    case _ => None
  }

  /** The rank of a unit letter: K is 1, M is 2, G is 3, T is 4. */
  function Rank(c: char): (n: nat)
    requires IsUnitLetter(c)
    ensures 1 <= n <= 4
  {
    if c == 'K' then 1 else if c == 'M' then 2 else if c == 'G' then 3 else 4
  }

  /**
   * The switch covers the grammar exactly: every suffix the regular
   * expression admits has a case (so the default branch is unreachable after
   * a match), and every case is a suffix the grammar admits.
   */
  lemma MultiplierCoversGrammar(u: string)
    ensures Multiplier(u).Some? <==> IsSuffix(u)
  {
    if IsSuffix(u) {
      if |u| == 1 {
        assert u == [u[0]];
      } else if |u| == 2 {
        assert u == [u[0], u[1]];
      }
    }
  }

  /**
   * The multiplier in closed form: a bare suffix or a lone B/b is 1; a unit
   * letter alone or with "b" is a power of 1000; a unit letter with "B" is a
   * power of 1024.
   */
  lemma MultiplierClosedForm(u: string)
    requires IsSuffix(u)
    ensures |u| == 0 ==> Multiplier(u) == Some(1)
    ensures |u| == 1 && IsByteLetter(u[0]) ==> Multiplier(u) == Some(1)
    ensures |u| >= 1 && IsUnitLetter(u[0]) && (|u| == 1 || u[1] == 'b') ==> Multiplier(u) == Some(Pow(1000, Rank(u[0])))
    ensures |u| == 2 && u[1] == 'B' ==> Multiplier(u) == Some(Pow(2, 10 * Rank(u[0])))
  {
    if |u| == 1 {
      assert u == [u[0]];
    } else if |u| == 2 {
      assert u == [u[0], u[1]];
    }
  }

  /** result *= k */
  function Times(x: Number, k: nat): (y: Number)
    requires k > 0
  {
    match x
    case Finite(r) => Finite(r * (k as real))
    case _ => x
  }

  /**
   * The value parseUnit gives a string of the expression's shape: the number
   * with its underscores dropped, read as a decimal, times the suffix's
   * multiplier.
   */
  lemma ParseUnitValue(lead: string, number: string, gap: string, suffix: string, trail: string)
    requires Shaped(lead, number, gap, suffix, trail)
    ensures forall c :: c in StripUnderscores(number) ==> IsDigit(c) || c == '.'
    ensures Multiplier(suffix).Some?
    ensures ParseUnit(Str(lead + number + gap + suffix + trail))
         == Ok(Times(ToNumber(StripUnderscores(number)), Multiplier(suffix).value))
  {
    ScanComplete(lead, number, gap, suffix, trail);
    ParseScanned(lead + number + gap + suffix + trail, number, suffix);
  }

  /** What parseUnit makes of a string once the expression has matched it. */
  lemma ParseScanned(s: string, number: string, suffix: string)
    requires Scan(s) == Some(Match(number, suffix))
    ensures forall c :: c in StripUnderscores(number) ==> IsDigit(c) || c == '.'
    ensures Multiplier(suffix).Some?
    ensures ParseUnit(Str(s)) == Ok(Times(ToNumber(StripUnderscores(number)), Multiplier(suffix).value))
  {
    ScanSound(s);
    MultiplierCoversGrammar(suffix);
    StrippedChars(number);
  }

  /** Stripping the underscores of [\d_.]* leaves digits and dots. */
  lemma StrippedChars(number: string)
    requires NumChars(number)
    ensures forall c :: c in StripUnderscores(number) ==> IsDigit(c) || c == '.'
  {
    forall c | c in StripUnderscores(number) ensures IsDigit(c) || c == '.' {
      var i :| 0 <= i < |number| && number[i] == c;
      assert IsNumChar(number[i]);
    }
  }

  /** parseUnit(value) */
  function ParseUnit(v: Value): (r: Result<Number>)
    ensures v.Num? ==> r == Ok(v.n)
    ensures !v.Num? && !v.Str? ==> r.Throws?
    ensures v.Str? ==> (r.Ok? <==> Scan(v.s).Some?)
  {
    match v
    case Num(n) => Ok(n)
    case Str(s) =>
      (match Scan(s)
       case None => Throws("Fail to parse: " + s)
       case Some(Match(number, suffix)) =>
         ScanSound(s);
         var digits := StripUnderscores(number);
         MultiplierCoversGrammar(suffix);
         (match Multiplier(suffix)
          case Some(k) => Ok(Times(ToNumber(digits), k))
          case None => Throws("Unexpected value: " + s)))
    case _ => Throws("Expected string")
  }
}
