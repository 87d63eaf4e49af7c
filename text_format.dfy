/**
 * The string helpers of the datepicker: integers written in decimal (`n + ''`), the
 * part of `parseInt` they rely on, `_prependZero`, first-occurrence `String.replace`
 * and `_formatDate`.
 */
module TextFormat {
  import opened Wrappers
  import opened CivilDate

  predicate IsDigit(c: char)
  {
    '0' <= c <= '9'
  }

  predicate AllDigits(s: string)
  {
    forall i :: 0 <= i < |s| ==> IsDigit(s[i])
  }

  function DigitChar(n: int): (c: char)
    requires 0 <= n < 10
    ensures IsDigit(c)
  {
    (('0' as int) + n) as char
  }

  function DigitValue(c: char): int
    requires IsDigit(c)
  {
    (c as int) - ('0' as int)
  }

  /** The number a string of decimal digits denotes (most significant digit first). */
  function DigitsValue(s: string): nat
    requires AllDigits(s)
  {
    if |s| == 0 then 0 else DigitsValue(s[..|s| - 1]) * 10 + DigitValue(s[|s| - 1])
  }

  /** `n + ''` for a non-negative integer: its decimal digits, without leading zeros. */
  function NatToString(n: nat): (s: string)
    ensures 1 <= |s| && AllDigits(s)
    ensures |s| == 1 <==> n < 10
    ensures s[0] != '0' || n == 0
  {
    if n < 10 then [DigitChar(n)] else NatToString(n / 10) + [DigitChar(n % 10)]
  }

  /** `i + ''` for any integer. */
  function IntToString(i: int): (s: string)
    ensures i >= 0 ==> s == NatToString(i)
    ensures i < 0 ==> s == "-" + NatToString(-i)
  {
    if i < 0 then "-" + NatToString(-i) else NatToString(i)
  }

  /** The length of the run of decimal digits that starts `s`. */
  function DigitRun(s: string): (n: nat)
    ensures n <= |s|
    ensures AllDigits(s[..n])
    ensures n < |s| ==> !IsDigit(s[n])
  {
    if |s| > 0 && IsDigit(s[0]) then
      var rest := DigitRun(s[1..]);
      assert s[..1 + rest] == [s[0]] + s[1..][..rest];
      1 + rest
    else
      0
  }

  /**
   * `parseInt(s)` on the strings the component hands it: an optional sign, then the leading
   * decimal digits; `None` (JavaScript's NaN) when no digit follows.
   */
  function ParseInt(s: string): Option<int>
  {
    if |s| > 0 && (s[0] == '-' || s[0] == '+') then
      var n := DigitRun(s[1..]);
      if n == 0 then None
      else
        var v: int := DigitsValue(s[1..][..n]);
        if s[0] == '-' then Some(-v) else Some(v)
    else
      var n := DigitRun(s);
      if n == 0 then None else Some(DigitsValue(s[..n]))
  }

  lemma {:induction false} NatToStringValue(n: nat)
    ensures DigitsValue(NatToString(n)) == n
    decreases n
  {
    if n >= 10 {
      var s := NatToString(n);
      NatToStringValue(n / 10);
      assert s[..|s| - 1] == NatToString(n / 10);
    }
  }

  /** A whole string of digits reads as its value. */
  lemma ParseDigits(t: string)
    requires 1 <= |t| && AllDigits(t)
    ensures ParseInt(t) == Some(DigitsValue(t))
  {
    assert DigitRun(t) == |t|;
    assert t[..|t|] == t;
  }

  /** A minus sign followed by digits reads as the negated value of the digits. */
  lemma {:induction false} ParseNegative(t: string)
    requires 1 <= |t| && AllDigits(t)
    ensures ParseInt("-" + t) == Some(-(DigitsValue(t) as int))
  {
    var s := "-" + t;
    assert s[0] == '-' && s[1..] == t;
    assert DigitRun(t) == |t|;
    assert t[..|t|] == t;
  }

  /** Reading back the decimal form of a non-negative integer gives the integer. */
  lemma ParseNatToString(n: nat)
    ensures ParseInt(NatToString(n)) == Some(n)
  {
    NatToStringValue(n);
    ParseDigits(NatToString(n));
  }

  /** Reading back `-` and the decimal form of a positive integer gives its negation. */
  lemma ParseNegatedNatToString(n: nat)
    ensures ParseInt("-" + NatToString(n)) == Some(-(n as int))
  {
    NatToStringValue(n);
    ParseNegative(NatToString(n));
  }

  /** Reading back the decimal form of any integer gives the integer. */
  lemma ParseIntToString(i: int)
    ensures ParseInt(IntToString(i)) == Some(i)
  {
    if i < 0 {
      ParseNegatedNatToString(-i);
      assert IntToString(i) == "-" + NatToString(-i);
    } else {
      ParseNatToString(i);
      assert IntToString(i) == NatToString(i);
    }
  }

  /** A leading zero does not change the value of a digit string. */
  lemma {:induction false} LeadingZeroValue(s: string)
    requires AllDigits(s)
    ensures AllDigits("0" + s) && DigitsValue("0" + s) == DigitsValue(s)
    decreases |s|
  {
    if |s| > 0 {
      var t := "0" + s;
      assert t[..|t| - 1] == "0" + s[..|s| - 1];
      LeadingZeroValue(s[..|s| - 1]);
    }
  }

  /** `_prependZero`: one '0' in front when the string reads as a number below 10, otherwise unchanged. */
  function PrependZero(s: string): (r: string)
    ensures ParseInt(s).Some? && ParseInt(s).value < 10 ==> r == "0" + s
    ensures !(ParseInt(s).Some? && ParseInt(s).value < 10) ==> r == s
  {
    match ParseInt(s)
    case Some(v) => if v < 10 then "0" + s else s
    case None => s
  }

  /**
   * Padding the decimal form of a number below 100 gives exactly two digits that still
   * read as that number; numbers from 10 up are left as they are.
   */
  lemma PadTwoDigits(n: nat)
    requires n < 100
    ensures |PrependZero(IntToString(n))| == 2
    ensures AllDigits(PrependZero(IntToString(n)))
    ensures ParseInt(PrependZero(IntToString(n))) == Some(n)
    ensures n >= 10 ==> PrependZero(IntToString(n)) == NatToString(n)
  {
    var s := NatToString(n);
    ParseNatToString(n);
    if n < 10 {
      var t := "0" + s;
      LeadingZeroValue(s);
      NatToStringValue(n);
      assert t[..|t|] == t;
      assert DigitRun(t) == |t|;
    } else {
      assert n / 10 < 10;
    }
  }

  /** `pat` occurs in `s` starting at index `i`. */
  predicate OccursAt(s: string, pat: string, i: int)
  {
    0 <= i && i + |pat| <= |s| && s[i..i + |pat|] == pat
  }

  /** The first index at or after `from` where `pat` occurs in `s`. */
  function IndexOf(s: string, pat: string, from: nat): (r: Option<nat>)
    ensures r.Some? ==> from <= r.value && OccursAt(s, pat, r.value)
    ensures r.Some? ==> forall j :: from <= j < r.value ==> !OccursAt(s, pat, j)
    ensures r.None? ==> forall j :: from <= j ==> !OccursAt(s, pat, j)
    decreases |s| - from
  {
    if from + |pat| > |s| then None
    else if s[from..from + |pat|] == pat then Some(from)
    else IndexOf(s, pat, from + 1)
  }

  /** `s.replace(pat, rep)` with a string pattern: only the first occurrence is replaced. */
  function ReplaceFirst(s: string, pat: string, rep: string): (r: string)
    ensures (forall j :: !OccursAt(s, pat, j)) ==> r == s
    ensures forall i :: OccursAt(s, pat, i) && (forall j :: 0 <= j < i ==> !OccursAt(s, pat, j))
                        ==> r == s[..i] + rep + s[i + |pat|..]
  {
    match IndexOf(s, pat, 0)
    case None => s
    case Some(i) => s[..i] + rep + s[i + |pat|..]
  }

  /** `_prependZero(n + '')`. */
  function Padded(n: int): string
  {
    PrependZero(IntToString(n))
  }

  /** The texts `_formatDate` puts for the six fields. */
  datatype FieldTexts = FieldTexts(year: string, month: string, day: string,
                                   hours: string, minutes: string, seconds: string)

  /** The year in decimal, and the 1-based month, the day, hours, minutes and seconds padded by `_prependZero`. */
  function TextsOf(d: DateTime): FieldTexts
  {
    FieldTexts(IntToString(d.year), Padded(d.month + 1), Padded(d.day),
               Padded(d.hour), Padded(d.minute), Padded(d.second))
  }

  /**
   * The chain of `String.replace` calls of `_formatDate`: the first `YYYY`, `MM`, `DD`, `HH`,
   * `mm` and `ss` of the format, in that order, become the texts of their fields.
   */
  function Substitute(format: string, v: FieldTexts): string
  {
    var withYear := ReplaceFirst(format, "YYYY", v.year);
    var withMonth := ReplaceFirst(withYear, "MM", v.month);
    var withDay := ReplaceFirst(withMonth, "DD", v.day);
    var withHours := ReplaceFirst(withDay, "HH", v.hours);
    var withMinutes := ReplaceFirst(withHours, "mm", v.minutes);
    ReplaceFirst(withMinutes, "ss", v.seconds)
  }

  /**
   * `_formatDate`: the year, the 1-based month, the day, the hours, the minutes and the
   * seconds of `d` put in for the first occurrence of each token; all but the year are
   * zero-padded to two digits.
   */
  function FormatDate(format: string, d: DateTime): string
  {
    Substitute(format, TextsOf(d))
  }

  /** The six fields `_formatDate` fills in, and the token that stands for each. */
  datatype Field = Year | Month | Day | Hour | Minute | Second

  function TokenOf(f: Field): string
  {
    match f
    case Year => "YYYY"
    case Month => "MM"
    case Day => "DD"
    case Hour => "HH"
    case Minute => "mm"
    case Second => "ss"
  }

  function FieldText(f: Field, v: FieldTexts): string
  {
    match f
    case Year => v.year
    case Month => v.month
    case Day => v.day
    case Hour => v.hours
    case Minute => v.minutes
    case Second => v.seconds
  }

  predicate LetterlessTexts(v: FieldTexts)
  {
    && Letterless(v.year) && Letterless(v.month) && Letterless(v.day)
    && Letterless(v.hours) && Letterless(v.minutes) && Letterless(v.seconds)
  }

  ghost predicate HasNoTokens(format: string)
  {
    forall j, f :: 0 <= j < |format| ==> !OccursAt(format, TokenOf(f), j)
  }

  /** A format without any token is returned as it is. */
  lemma FormatWithoutTokens(format: string, d: DateTime)
    requires HasNoTokens(format)
    ensures FormatDate(format, d) == format
  {
    ReplaceInTokenFree(format, Year, IntToString(d.year));
    ReplaceInTokenFree(format, Month, Padded(d.month + 1));
    ReplaceInTokenFree(format, Day, Padded(d.day));
    ReplaceInTokenFree(format, Hour, Padded(d.hour));
    ReplaceInTokenFree(format, Minute, Padded(d.minute));
    ReplaceInTokenFree(format, Second, Padded(d.second));
  }

  /** A string without tokens is left as it is by the replacement of any token. */
  lemma ReplaceInTokenFree(s: string, f: Field, rep: string)
    requires HasNoTokens(s)
    ensures ReplaceFirst(s, TokenOf(f), rep) == s
  {
    forall j
      ensures !OccursAt(s, TokenOf(f), j)
    {
      if 0 <= j < |s| {
        assert !OccursAt(s, TokenOf(f), j);
      }
    }
  }

  /** A format that is exactly the year token becomes the year. */
  lemma FormatYearOnly(d: DateTime)
    ensures FormatDate("YYYY", d) == IntToString(d.year)
  {
    var y := IntToString(d.year);
    assert OccursAt("YYYY", "YYYY", 0);
    var withYear := ReplaceFirst("YYYY", "YYYY", y);
    assert withYear == y;
    IntToStringLetterless(d.year);
    LetterlessHasNoTokens(y);
    ReplaceInTokenFree(y, Month, Padded(d.month + 1));
    ReplaceInTokenFree(y, Day, Padded(d.day));
    ReplaceInTokenFree(y, Hour, Padded(d.hour));
    ReplaceInTokenFree(y, Minute, Padded(d.minute));
    ReplaceInTokenFree(y, Second, Padded(d.second));
  }

  /** A format that is exactly the day token becomes the day, zero-padded to two digits. */
  lemma FormatDayOnly(d: DateTime)
    requires ValidDate(d)
    ensures FormatDate("DD", d) == PrependZero(IntToString(d.day))
    ensures |FormatDate("DD", d)| == 2
  {
    var day := Padded(d.day);
    PadTwoDigits(d.day);
    var withYear := ReplaceFirst("DD", "YYYY", IntToString(d.year));
    assert withYear == "DD";
    forall j
      ensures !OccursAt("DD", "MM", j)
    {
      if 0 <= j && j + 2 <= 2 {
        assert "DD"[j..j + 2][0] == 'D';
      }
    }
    var withMonth := ReplaceFirst(withYear, "MM", Padded(d.month + 1));
    assert withMonth == "DD";
    assert OccursAt("DD", "DD", 0);
    var withDay := ReplaceFirst(withMonth, "DD", day);
    assert withDay == day;
    PaddedLetterless(d.day);
    LetterlessHasNoTokens(day);
    ReplaceInTokenFree(day, Hour, Padded(d.hour));
    ReplaceInTokenFree(day, Minute, Padded(d.minute));
    ReplaceInTokenFree(day, Second, Padded(d.second));
  }

  /** The letters the six tokens are made of. */
  predicate IsTokenLetter(c: char)
  {
    c == 'Y' || c == 'M' || c == 'D' || c == 'H' || c == 'm' || c == 's'
  }

  predicate Letterless(s: string)
  {
    forall k :: 0 <= k < |s| ==> !IsTokenLetter(s[k])
  }

  /** No character of `s` is `c`. */
  predicate Avoids(s: string, c: char)
  {
    forall k :: 0 <= k < |s| ==> s[k] != c
  }

  /** Every token is a run of one token letter, and different tokens use different letters. */
  lemma TokenLetters(f: Field, g: Field)
    ensures 1 <= |TokenOf(f)| && IsTokenLetter(TokenOf(f)[0])
    ensures f != g ==> Avoids(TokenOf(g), TokenOf(f)[0])
  {
  }

  /** A string without token letters contains no token. */
  lemma LetterlessHasNoTokens(s: string)
    requires Letterless(s)
    ensures HasNoTokens(s)
  {
    forall j, f | 0 <= j < |s|
      ensures !OccursAt(s, TokenOf(f), j)
    {
      TokenLetters(f, f);
      assert !IsTokenLetter(s[j]);
      if j + |TokenOf(f)| <= |s| {
        assert s[j..j + |TokenOf(f)|][0] == s[j];
      }
    }
  }

  lemma IntToStringLetterless(i: int)
    ensures Letterless(IntToString(i))
  {
  }

  lemma PaddedLetterless(n: int)
    ensures Letterless(Padded(n))
  {
    IntToStringLetterless(n);
  }

  /** The texts of a date's fields are digits and minus signs only. */
  lemma TextsLetterless(d: DateTime)
    ensures LetterlessTexts(TextsOf(d))
  {
    IntToStringLetterless(d.year);
    PaddedLetterless(d.month + 1);
    PaddedLetterless(d.day);
    PaddedLetterless(d.hour);
    PaddedLetterless(d.minute);
    PaddedLetterless(d.second);
  }

  /** A format read as a sequence of literal texts and tokens. */
  datatype Piece = Text(text: string) | Token(field: Field)

  function PieceText(p: Piece): string
  {
    match p
    case Text(s) => s
    case Token(f) => TokenOf(f)
  }

  /** The format string the pieces spell. */
  function Join(ps: seq<Piece>): string
  {
    if |ps| == 0 then "" else PieceText(ps[0]) + Join(ps[1..])
  }

  /** What a piece should become: a text stays, a token becomes its field's text. */
  function PieceValue(p: Piece, v: FieldTexts): string
  {
    match p
    case Text(s) => s
    case Token(f) => FieldText(f, v)
  }

  /** What the pieces should become when the fields read `v`. */
  function Expand(ps: seq<Piece>, v: FieldTexts): string
  {
    if |ps| == 0 then "" else PieceValue(ps[0], v) + Expand(ps[1..], v)
  }

  /**
   * A format whose literal texts hold no token letter and which holds each of the six tokens
   * at most once: 'DD/MM/YYYY', 'HH:mm' and 'DD/MM/YYYY HH:mm' are such formats.
   */
  predicate SimpleFormat(ps: seq<Piece>)
  {
    && (forall i :: 0 <= i < |ps| && ps[i].Text? ==> Letterless(ps[i].text))
    && (forall i, j :: 0 <= i < j < |ps| && ps[i].Token? && ps[j].Token? ==> ps[i].field != ps[j].field)
  }

  /** The pieces with the token of `f` turned into the text `v`. */
  function Fill(ps: seq<Piece>, f: Field, v: string): (r: seq<Piece>)
    ensures |r| == |ps|
  {
    seq(|ps|, i requires 0 <= i < |ps| => if ps[i] == Token(f) then Text(v) else ps[i])
  }

  lemma {:induction false} JoinConcat(a: seq<Piece>, b: seq<Piece>)
    ensures Join(a + b) == Join(a) + Join(b)
    decreases |a|
  {
    if |a| > 0 {
      assert (a + b)[1..] == a[1..] + b;
      JoinConcat(a[1..], b);
    } else {
      assert a + b == b;
    }
  }

  /** The pieces spell no character `c` when none of them does. */
  lemma {:induction false} JoinAvoids(ps: seq<Piece>, c: char)
    requires forall i :: 0 <= i < |ps| ==> Avoids(PieceText(ps[i]), c)
    ensures Avoids(Join(ps), c)
    decreases |ps|
  {
    if |ps| > 0 {
      JoinAvoids(ps[1..], c);
      var head, rest := PieceText(ps[0]), Join(ps[1..]);
      assert Join(ps) == head + rest;
      forall k | 0 <= k < |head| + |rest|
        ensures (head + rest)[k] != c
      {
        if k >= |head| {
          assert (head + rest)[k] == rest[k - |head|];
        }
      }
    }
  }

  /** Replacing the first `pat` when everything in front of `pat` avoids its first letter. */
  lemma ReplaceAfter(pre: string, pat: string, post: string, rep: string)
    requires 1 <= |pat| && Avoids(pre, pat[0])
    ensures ReplaceFirst(pre + pat + post, pat, rep) == pre + rep + post
  {
    var s := pre + pat + post;
    assert s[|pre|..|pre| + |pat|] == pat;
    assert OccursAt(s, pat, |pre|);
    forall j | 0 <= j < |pre|
      ensures !OccursAt(s, pat, j)
    {
      if j + |pat| <= |s| {
        assert s[j..j + |pat|][0] == pre[j];
      }
    }
    assert s[..|pre|] == pre && s[|pre| + |pat|..] == post;
  }

  /** `ReplaceFirst` leaves a string that avoids the pattern's first letter as it is. */
  lemma ReplaceAbsent(s: string, pat: string, rep: string)
    requires 1 <= |pat| && Avoids(s, pat[0])
    ensures ReplaceFirst(s, pat, rep) == s
  {
    forall j
      ensures !OccursAt(s, pat, j)
    {
      if 0 <= j && j + |pat| <= |s| {
        assert s[j..j + |pat|][0] == s[j];
      }
    }
  }

  /** Filling in a token with a letterless text keeps the format simple. */
  lemma FillKeepsSimple(ps: seq<Piece>, f: Field, v: string)
    requires SimpleFormat(ps) && Letterless(v)
    ensures SimpleFormat(Fill(ps, f, v))
  {
  }

  /** In a simple format, every piece other than the token of `f` avoids that token's letter. */
  lemma OthersAvoid(ps: seq<Piece>, f: Field)
    requires SimpleFormat(ps)
    ensures forall i :: 0 <= i < |ps| && ps[i] != Token(f) ==> Avoids(PieceText(ps[i]), TokenOf(f)[0])
  {
    TokenLetters(f, f);
    forall i | 0 <= i < |ps| && ps[i] != Token(f)
      ensures Avoids(PieceText(ps[i]), TokenOf(f)[0])
    {
      if ps[i].Token? {
        TokenLetters(f, ps[i].field);
      }
    }
  }

  /** Replacing a token that occurs, at piece `i`. */
  lemma {:induction false} ReplacePresent(ps: seq<Piece>, f: Field, v: string, i: nat)
    requires SimpleFormat(ps) && i < |ps| && ps[i] == Token(f)
    ensures ReplaceFirst(Join(ps), TokenOf(f), v) == Join(Fill(ps, f, v))
  {
    var t := TokenOf(f);
    TokenLetters(f, f);
    OthersAvoid(ps, f);
    var pre, post := ps[..i], ps[i + 1..];
    assert ps == pre + [Token(f)] + post;
    assert Fill(ps, f, v) == pre + [Text(v)] + post;
    JoinConcat(pre + [Token(f)], post);
    JoinConcat(pre, [Token(f)]);
    JoinConcat(pre + [Text(v)], post);
    JoinConcat(pre, [Text(v)]);
    assert Join([Token(f)]) == t && Join([Text(v)]) == v;
    JoinAvoids(pre, t[0]);
    ReplaceAfter(Join(pre), t, Join(post), v);
  }

  /** Replacing a token that does not occur changes nothing. */
  lemma ReplaceMissing(ps: seq<Piece>, f: Field, v: string)
    requires SimpleFormat(ps) && forall i :: 0 <= i < |ps| ==> ps[i] != Token(f)
    ensures ReplaceFirst(Join(ps), TokenOf(f), v) == Join(Fill(ps, f, v))
  {
    TokenLetters(f, f);
    OthersAvoid(ps, f);
    assert Fill(ps, f, v) == ps;
    JoinAvoids(ps, TokenOf(f)[0]);
    ReplaceAbsent(Join(ps), TokenOf(f), v);
  }

  /**
   * One step of `_formatDate` on a simple format: replacing the first occurrence of a token
   * replaces exactly that token's piece, and the result is a simple format again.
   */
  lemma ReplaceToken(ps: seq<Piece>, f: Field, v: string)
    requires SimpleFormat(ps) && Letterless(v)
    ensures SimpleFormat(Fill(ps, f, v))
    ensures ReplaceFirst(Join(ps), TokenOf(f), v) == Join(Fill(ps, f, v))
  {
    FillKeepsSimple(ps, f, v);
    if i :| 0 <= i < |ps| && ps[i] == Token(f) {
      ReplacePresent(ps, f, v, i);
    } else {
      ReplaceMissing(ps, f, v);
    }
  }

  /** Pieces that are all texts spell what `Expand` says the original pieces become. */
  lemma {:induction false} JoinFilled(qs: seq<Piece>, ps: seq<Piece>, v: FieldTexts)
    requires |qs| == |ps|
    requires forall i :: 0 <= i < |ps| ==> qs[i] == Text(PieceValue(ps[i], v))
    ensures Join(qs) == Expand(ps, v)
    decreases |ps|
  {
    if |ps| > 0 {
      JoinFilled(qs[1..], ps[1..], v);
    }
  }

  /** The pieces after all six replacements, in the order `_formatDate` makes them. */
  function FillAll(ps: seq<Piece>, v: FieldTexts): seq<Piece>
  {
    var p1 := Fill(ps, Year, v.year);
    var p2 := Fill(p1, Month, v.month);
    var p3 := Fill(p2, Day, v.day);
    var p4 := Fill(p3, Hour, v.hours);
    var p5 := Fill(p4, Minute, v.minutes);
    Fill(p5, Second, v.seconds)
  }

  /** Once all six tokens are filled in, every piece is the text of its value. */
  lemma FillAllTexts(ps: seq<Piece>, v: FieldTexts)
    ensures |FillAll(ps, v)| == |ps|
    ensures forall i :: 0 <= i < |ps| ==> FillAll(ps, v)[i] == Text(PieceValue(ps[i], v))
  {
    forall i | 0 <= i < |ps|
      ensures FillAll(ps, v)[i] == Text(PieceValue(ps[i], v))
    {
      match ps[i]
      case Text(_) =>
      case Token(f) =>
    }
  }

  /**
   * The replacement chain on a simple format: every token becomes its field's text and every
   * literal text stays, whatever order the tokens come in.
   */
  lemma SubstituteSimple(ps: seq<Piece>, v: FieldTexts)
    requires SimpleFormat(ps) && LetterlessTexts(v)
    ensures Substitute(Join(ps), v) == Expand(ps, v)
  {
    assert TokenOf(Year) == "YYYY" && TokenOf(Month) == "MM" && TokenOf(Day) == "DD";
    assert TokenOf(Hour) == "HH" && TokenOf(Minute) == "mm" && TokenOf(Second) == "ss";
    var p1 := Fill(ps, Year, v.year);
    ReplaceToken(ps, Year, v.year);
    var s1 := ReplaceFirst(Join(ps), "YYYY", v.year);
    assert s1 == Join(p1);
    var p2 := Fill(p1, Month, v.month);
    ReplaceToken(p1, Month, v.month);
    var s2 := ReplaceFirst(s1, "MM", v.month);
    assert s2 == Join(p2);
    var p3 := Fill(p2, Day, v.day);
    ReplaceToken(p2, Day, v.day);
    var s3 := ReplaceFirst(s2, "DD", v.day);
    assert s3 == Join(p3);
    var p4 := Fill(p3, Hour, v.hours);
    ReplaceToken(p3, Hour, v.hours);
    var s4 := ReplaceFirst(s3, "HH", v.hours);
    assert s4 == Join(p4);
    var p5 := Fill(p4, Minute, v.minutes);
    ReplaceToken(p4, Minute, v.minutes);
    var s5 := ReplaceFirst(s4, "mm", v.minutes);
    assert s5 == Join(p5);
    var p6 := Fill(p5, Second, v.seconds);
    ReplaceToken(p5, Second, v.seconds);
    var s6 := ReplaceFirst(s5, "ss", v.seconds);
    assert s6 == Join(p6);
    assert Substitute(Join(ps), v) == s6;
    assert p6 == FillAll(ps, v);
    FillAllTexts(ps, v);
    JoinFilled(p6, ps, v);
  }

  /** `_formatDate` on a simple format, for every date. */
  lemma FormatSimple(ps: seq<Piece>, d: DateTime)
    requires SimpleFormat(ps)
    ensures FormatDate(Join(ps), d) == Expand(ps, TextsOf(d))
  {
    TextsLetterless(d);
    SubstituteSimple(ps, TextsOf(d));
  }

  lemma {:induction false} ExpandConcat(a: seq<Piece>, b: seq<Piece>, v: FieldTexts)
    ensures Expand(a + b, v) == Expand(a, v) + Expand(b, v)
    decreases |a|
  {
    if |a| > 0 {
      assert (a + b)[1..] == a[1..] + b;
      ExpandConcat(a[1..], b, v);
    } else {
      assert a + b == b;
    }
  }

  lemma JoinSnoc(ps: seq<Piece>, p: Piece)
    ensures Join(ps + [p]) == Join(ps) + PieceText(p)
  {
    JoinConcat(ps, [p]);
    assert [p][1..] == [];
  }

  lemma ExpandSnoc(ps: seq<Piece>, p: Piece, v: FieldTexts)
    ensures Expand(ps + [p], v) == Expand(ps, v) + PieceValue(p, v)
  {
    ExpandConcat(ps, [p], v);
    assert [p][1..] == [];
  }

  /** The pieces of a date-and-time layout `DD<a>MM<b>YYYY<c>HH<e>mm` with the given separators. */
  function DateTimePieces(a: string, b: string, c: string, e: string): seq<Piece>
  {
    [Token(Day)] + [Text(a)] + [Token(Month)] + [Text(b)] + [Token(Year)]
      + [Text(c)] + [Token(Hour)] + [Text(e)] + [Token(Minute)]
  }

  lemma DateTimePiecesSpell(a: string, b: string, c: string, e: string)
    ensures Join(DateTimePieces(a, b, c, e)) == "DD" + a + "MM" + b + "YYYY" + c + "HH" + e + "mm"
  {
    assert TokenOf(Year) == "YYYY" && TokenOf(Month) == "MM" && TokenOf(Day) == "DD";
    assert TokenOf(Hour) == "HH" && TokenOf(Minute) == "mm";
    var q1 := [Token(Day)];
    assert Join(q1) == "DD" by {
      assert q1[1..] == [];
    }
    var q2 := q1 + [Text(a)];
    JoinSnoc(q1, Text(a));
    var q3 := q2 + [Token(Month)];
    JoinSnoc(q2, Token(Month));
    var q4 := q3 + [Text(b)];
    JoinSnoc(q3, Text(b));
    var q5 := q4 + [Token(Year)];
    JoinSnoc(q4, Token(Year));
    var q6 := q5 + [Text(c)];
    JoinSnoc(q5, Text(c));
    var q7 := q6 + [Token(Hour)];
    JoinSnoc(q6, Token(Hour));
    var q8 := q7 + [Text(e)];
    JoinSnoc(q7, Text(e));
    JoinSnoc(q8, Token(Minute));
  }

  lemma DateTimePiecesExpand(a: string, b: string, c: string, e: string, v: FieldTexts)
    ensures Expand(DateTimePieces(a, b, c, e), v)
            == v.day + a + v.month + b + v.year + c + v.hours + e + v.minutes
  {
    var q1 := [Token(Day)];
    assert Expand(q1, v) == v.day by {
      assert q1[1..] == [];
    }
    var q2 := q1 + [Text(a)];
    ExpandSnoc(q1, Text(a), v);
    var q3 := q2 + [Token(Month)];
    ExpandSnoc(q2, Token(Month), v);
    var q4 := q3 + [Text(b)];
    ExpandSnoc(q3, Text(b), v);
    var q5 := q4 + [Token(Year)];
    ExpandSnoc(q4, Token(Year), v);
    var q6 := q5 + [Text(c)];
    ExpandSnoc(q5, Text(c), v);
    var q7 := q6 + [Token(Hour)];
    ExpandSnoc(q6, Token(Hour), v);
    var q8 := q7 + [Text(e)];
    ExpandSnoc(q7, Text(e), v);
    ExpandSnoc(q8, Token(Minute), v);
  }

  /** The replacement chain on a date-and-time layout `DD<a>MM<b>YYYY<c>HH<e>mm`. */
  lemma SubstituteDateTimeLayout(a: string, b: string, c: string, e: string, v: FieldTexts)
    requires Letterless(a) && Letterless(b) && Letterless(c) && Letterless(e) && LetterlessTexts(v)
    ensures Substitute("DD" + a + "MM" + b + "YYYY" + c + "HH" + e + "mm", v)
            == v.day + a + v.month + b + v.year + c + v.hours + e + v.minutes
  {
    var ps := DateTimePieces(a, b, c, e);
    assert SimpleFormat(ps);
    DateTimePiecesSpell(a, b, c, e);
    DateTimePiecesExpand(a, b, c, e, v);
    SubstituteSimple(ps, v);
  }

  lemma DateLayoutSimple(a: string, b: string)
    requires Letterless(a) && Letterless(b)
    ensures SimpleFormat([Token(Day), Text(a), Token(Month), Text(b), Token(Year)])
  {
  }

  /** The replacement chain on a date-only layout `DD<a>MM<b>YYYY`. */
  lemma SubstituteDateLayout(a: string, b: string, v: FieldTexts)
    requires Letterless(a) && Letterless(b) && LetterlessTexts(v)
    ensures Substitute("DD" + a + "MM" + b + "YYYY", v) == v.day + a + v.month + b + v.year
  {
    assert TokenOf(Year) == "YYYY" && TokenOf(Month) == "MM" && TokenOf(Day) == "DD";
    var q1 := [Token(Day)];
    assert Join(q1) == "DD" && Expand(q1, v) == v.day by {
      assert q1[1..] == [];
    }
    var q2 := q1 + [Text(a)];
    JoinSnoc(q1, Text(a));
    ExpandSnoc(q1, Text(a), v);
    var q3 := q2 + [Token(Month)];
    JoinSnoc(q2, Token(Month));
    ExpandSnoc(q2, Token(Month), v);
    var q4 := q3 + [Text(b)];
    JoinSnoc(q3, Text(b));
    ExpandSnoc(q3, Text(b), v);
    var q5 := q4 + [Token(Year)];
    JoinSnoc(q4, Token(Year));
    ExpandSnoc(q4, Token(Year), v);
    assert q5 == [Token(Day), Text(a), Token(Month), Text(b), Token(Year)];
    DateLayoutSimple(a, b);
    SubstituteSimple(q5, v);
  }

  /** The replacement chain on a time-only layout `HH<e>mm`. */
  lemma SubstituteTimeLayout(e: string, v: FieldTexts)
    requires Letterless(e) && LetterlessTexts(v)
    ensures Substitute("HH" + e + "mm", v) == v.hours + e + v.minutes
  {
    assert TokenOf(Hour) == "HH" && TokenOf(Minute) == "mm";
    var q1 := [Token(Hour)];
    assert Join(q1) == "HH" && Expand(q1, v) == v.hours by {
      assert q1[1..] == [];
    }
    var q2 := q1 + [Text(e)];
    JoinSnoc(q1, Text(e));
    ExpandSnoc(q1, Text(e), v);
    var q3 := q2 + [Token(Minute)];
    JoinSnoc(q2, Token(Minute));
    ExpandSnoc(q2, Token(Minute), v);
    assert q3 == [Token(Hour), Text(e), Token(Minute)];
    assert SimpleFormat(q3);
    SubstituteSimple(q3, v);
  }

  /**
   * `_formatDate` on a date-and-time layout `DD<a>MM<b>YYYY<c>HH<e>mm` whose separators hold
   * no token letter, for every date.
   */
  lemma FormatDateTimeLayout(a: string, b: string, c: string, e: string, d: DateTime)
    requires Letterless(a) && Letterless(b) && Letterless(c) && Letterless(e)
    ensures FormatDate("DD" + a + "MM" + b + "YYYY" + c + "HH" + e + "mm", d)
            == Padded(d.day) + a + Padded(d.month + 1) + b + IntToString(d.year) + c
               + Padded(d.hour) + e + Padded(d.minute)
  {
    var f := "DD" + a + "MM" + b + "YYYY" + c + "HH" + e + "mm";
    var v := TextsOf(d);
    TextsLetterless(d);
    SubstituteDateTimeLayout(a, b, c, e, v);
    assert FormatDate(f, d) == Substitute(f, v);
    assert v.day == Padded(d.day) && v.month == Padded(d.month + 1) && v.year == IntToString(d.year);
    assert v.hours == Padded(d.hour) && v.minutes == Padded(d.minute);
  }

  /** `_formatDate` on a date-only layout `DD<a>MM<b>YYYY` whose separators hold no token letter. */
  lemma FormatDateLayout(a: string, b: string, d: DateTime)
    requires Letterless(a) && Letterless(b)
    ensures FormatDate("DD" + a + "MM" + b + "YYYY", d)
            == Padded(d.day) + a + Padded(d.month + 1) + b + IntToString(d.year)
  {
    var f := "DD" + a + "MM" + b + "YYYY";
    var v := TextsOf(d);
    TextsLetterless(d);
    SubstituteDateLayout(a, b, v);
    assert FormatDate(f, d) == Substitute(f, v);
    assert v.day == Padded(d.day) && v.month == Padded(d.month + 1) && v.year == IntToString(d.year);
  }

  /** `_formatDate` on a time-only layout `HH<e>mm` whose separator holds no token letter. */
  lemma FormatTimeLayout(e: string, d: DateTime)
    requires Letterless(e)
    ensures FormatDate("HH" + e + "mm", d) == Padded(d.hour) + e + Padded(d.minute)
  {
    var f := "HH" + e + "mm";
    var v := TextsOf(d);
    TextsLetterless(d);
    SubstituteTimeLayout(e, v);
    assert FormatDate(f, d) == Substitute(f, v);
    assert v.hours == Padded(d.hour) && v.minutes == Padded(d.minute);
  }

  /** The conventional 'DD/MM/YYYY HH:mm' becomes day/month/year hours:minutes for every date. */
  lemma FormatDefaultDateTime(d: DateTime)
    ensures FormatDate("DD/MM/YYYY HH:mm", d)
            == Padded(d.day) + "/" + Padded(d.month + 1) + "/" + IntToString(d.year) + " "
               + Padded(d.hour) + ":" + Padded(d.minute)
  {
    assert "DD/MM/YYYY HH:mm" == "DD" + "/" + "MM" + "/" + "YYYY" + " " + "HH" + ":" + "mm";
    FormatDateTimeLayout("/", "/", " ", ":", d);
  }

  /** The conventional date-only 'DD/MM/YYYY' becomes day/month/year for every date. */
  lemma FormatDefaultDate(d: DateTime)
    ensures FormatDate("DD/MM/YYYY", d)
            == Padded(d.day) + "/" + Padded(d.month + 1) + "/" + IntToString(d.year)
  {
    assert "DD/MM/YYYY" == "DD" + "/" + "MM" + "/" + "YYYY";
    FormatDateLayout("/", "/", d);
  }

  /** The conventional time-only 'HH:mm' becomes hours:minutes for every date. */
  lemma FormatDefaultTime(d: DateTime)
    ensures FormatDate("HH:mm", d) == Padded(d.hour) + ":" + Padded(d.minute)
  {
    assert "HH:mm" == "HH" + ":" + "mm";
    FormatTimeLayout(":", d);
  }
}
