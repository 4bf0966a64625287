/**
 * The Python string built-ins the resolver relies on, over ASCII:
 * `str.isdigit`, `int`, `str` on a non-negative integer, `str.lower`,
 * `str.replace`, `str.split()` (on whitespace), `str.split(sep)` and
 * `sep.join`.
 */
module Text {

  /** One ASCII decimal digit. */
  predicate IsDigitChar(c: char) {
    '0' <= c <= '9'
  }

  /** Every character is a digit (the empty string included). */
  predicate AllDigitChars(s: string) {
    forall i :: 0 <= i < |s| ==> IsDigitChar(s[i])
  }

  /** `s.isdigit()`: at least one character, and every character a digit. */
  predicate IsDigits(s: string) {
    |s| > 0 && AllDigitChars(s)
  }

  /** A string with one more character in front is all digits exactly when that
      character and the rest are. */
  lemma AllDigitCharsCons(c: char, t: string)
    ensures AllDigitChars([c] + t) <==> IsDigitChar(c) && AllDigitChars(t)
  {
    var s := [c] + t;
    assert s[0] == c;
    if AllDigitChars(s) {
      forall k | 0 <= k < |t| ensures IsDigitChar(t[k]) {
        assert t[k] == s[k + 1];
      }
    }
    if IsDigitChar(c) && AllDigitChars(t) {
      forall k | 0 <= k < |s| ensures IsDigitChar(s[k]) {
        if k > 0 {
          assert s[k] == t[k - 1];
        }
      }
    }
  }

  function DigitValue(c: char): (d: nat)
    requires IsDigitChar(c)
    ensures d < 10
  {
    (c as int) - ('0' as int)
  }

  function DigitChar(d: nat): (c: char)
    requires d < 10
    ensures IsDigitChar(c) && DigitValue(c) == d
  {
    ('0' as int + d) as char
  }

  /** `int(s)` on a digit string: its decimal value, leading zeros allowed. */
  function DigitsToNat(s: string): nat
    requires AllDigitChars(s)
    decreases |s|
  {
    if s == [] then 0 else 10 * DigitsToNat(s[..|s| - 1]) + DigitValue(s[|s| - 1])
  }

  /** `str(n)` for a non-negative integer: its decimal digits, no leading zero. */
  function NatToString(n: nat): string
    decreases n
  {
    if n < 10 then [DigitChar(n)] else NatToString(n / 10) + [DigitChar(n % 10)]
  }

  /** `str` and `int` are inverse: `str(n)` is a digit string that reads back as `n`,
      it is canonical (no leading zero), and it has at most three digits below 1000. */
  lemma {:induction false} NatToStringRoundTrip(n: nat)
    ensures IsDigits(NatToString(n))
    ensures DigitsToNat(NatToString(n)) == n
    ensures n == 0 <==> NatToString(n) == "0"
    ensures NatToString(n)[0] == '0' ==> n == 0
    ensures n < 10 ==> |NatToString(n)| == 1
    ensures n < 100 ==> |NatToString(n)| <= 2
    ensures n < 1000 ==> |NatToString(n)| <= 3
  {
    if n >= 10 {
      NatToStringRoundTrip(n / 10);
      var s := NatToString(n);
      assert s[..|s| - 1] == NatToString(n / 10);
    }
  }

  /** `str(a) + "." + str(b)` splits at its one "." into two digit strings that
      read back as `a` and `b`. */
  lemma DecimalReadsBack(a: nat, b: nat)
    ensures var pieces := SplitOn(NatToString(a) + "." + NatToString(b), '.');
      && |pieces| == 2
      && IsDigits(pieces[0]) && IsDigits(pieces[1])
      && DigitsToNat(pieces[0]) == a && DigitsToNat(pieces[1]) == b
  {
    var whole, frac := NatToString(a), NatToString(b);
    NatToStringRoundTrip(a);
    NatToStringRoundTrip(b);
    assert '.' !in whole && '.' !in frac by {
      assert forall i :: 0 <= i < |whole| ==> IsDigitChar(whole[i]);
      assert forall i :: 0 <= i < |frac| ==> IsDigitChar(frac[i]);
    }
    SplitJoin([whole, frac], '.');
    assert JoinOn([whole, frac], ".") == whole + "." + frac;
  }

  /** A digit string with a non-zero first digit has a positive value. */
  lemma {:induction false} LeadingDigitPositive(s: string)
    requires IsDigits(s) && s[0] != '0'
    ensures DigitsToNat(s) > 0
  {
    if |s| > 1 {
      LeadingDigitPositive(s[..|s| - 1]);
    }
  }

  /** The other direction of the round trip: a canonical digit string (no leading
      zero, or the single digit "0") is what `str(int(s))` gives back. */
  lemma {:induction false} CanonicalDigitsRoundTrip(s: string)
    requires IsDigits(s) && (s[0] != '0' || |s| == 1)
    ensures NatToString(DigitsToNat(s)) == s
  {
    if |s| > 1 {
      var p := s[..|s| - 1];
      CanonicalDigitsRoundTrip(p);
      LeadingDigitPositive(p);
      var n := DigitsToNat(s);
      assert n / 10 == DigitsToNat(p) && n % 10 == DigitValue(s[|s| - 1]);
      assert s == p + [s[|s| - 1]];
    }
  }

  /** ASCII `str.lower()` on one character. */
  function LowerChar(c: char): char {
    if 'A' <= c <= 'Z' then (c as int + 32) as char else c
  }

  /** `s.lower()`, ASCII letters only. */
  function ToLower(s: string): (r: string)
    ensures |r| == |s|
    decreases |s|
  {
    if s == [] then [] else [LowerChar(s[0])] + ToLower(s[1..])
  }

  /** Lower-casing twice is lower-casing once, a digit string is left alone, and
      only a digit string lower-cases to one. */
  lemma {:induction false} ToLowerIdempotent(s: string)
    ensures ToLower(ToLower(s)) == ToLower(s)
    ensures AllDigitChars(s) ==> ToLower(s) == s
    ensures AllDigitChars(ToLower(s)) ==> AllDigitChars(s)
    decreases |s|
  {
    if s != [] {
      ToLowerIdempotent(s[1..]);
      assert ToLower(s)[1..] == ToLower(s[1..]);
    }
  }

  /** A string with no upper-case ASCII letter is its own lower-case form. */
  lemma {:induction false} ToLowerNoUpper(s: string)
    requires forall i :: 0 <= i < |s| ==> !('A' <= s[i] <= 'Z')
    ensures ToLower(s) == s
    decreases |s|
  {
    if s != [] {
      ToLowerNoUpper(s[1..]);
    }
  }

  /** `s.replace(pat, rep)`: every non-overlapping occurrence of `pat`, scanning
      left to right, is replaced by `rep`; a replacement no longer than the
      pattern never lengthens the string. */
  function Replace(s: string, pat: string, rep: string): (r: string)
    requires |pat| > 0
    ensures |rep| <= |pat| ==> |r| <= |s|
    decreases |s|
  {
    if |s| < |pat| then s
    else if s[..|pat|] == pat then rep + Replace(s[|pat|..], pat, rep)
    else [s[0]] + Replace(s[1..], pat, rep)
  }

  /** `pat` occurs in `s` starting at index `k`. */
  predicate OccursAt(s: string, pat: string, k: int) {
    0 <= k && k + |pat| <= |s| && s[k..k + |pat|] == pat
  }

  /** With no occurrence of the pattern, replacement changes nothing. */
  lemma {:induction false} ReplaceAbsent(s: string, pat: string, rep: string)
    requires |pat| > 0
    requires forall k :: !OccursAt(s, pat, k)
    ensures Replace(s, pat, rep) == s
    decreases |s|
  {
    if |s| >= |pat| {
      assert !OccursAt(s, pat, 0);
      forall k ensures !OccursAt(s[1..], pat, k) {
        if OccursAt(s[1..], pat, k) {
          assert s[1..][k..k + |pat|] == s[k + 1..k + 1 + |pat|];
          assert OccursAt(s, pat, k + 1);
        }
      }
      ReplaceAbsent(s[1..], pat, rep);
    }
  }

  /** A prefix without the pattern's first character is copied as it is. */
  lemma {:induction false} ReplaceAfterFree(w: string, t: string, pat: string, rep: string)
    requires |pat| > 0 && pat[0] !in w
    ensures Replace(w + t, pat, rep) == w + Replace(t, pat, rep)
    decreases |w|
  {
    if w != [] {
      var s := w + t;
      if |s| >= |pat| {
        assert s[..|pat|][0] == w[0];
        assert s[1..] == w[1..] + t;
        ReplaceAfterFree(w[1..], t, pat, rep);
        assert [w[0]] + w[1..] == w;
      } else {
        assert Replace(t, pat, rep) == t;
      }
    } else {
      assert w + t == t;
    }
  }

  /** An occurrence at the start is replaced, and the scan goes on after it. */
  lemma ReplaceAtStart(t: string, pat: string, rep: string)
    requires |pat| > 0
    ensures Replace(pat + t, pat, rep) == rep + Replace(t, pat, rep)
  {
    assert (pat + t)[..|pat|] == pat && (pat + t)[|pat|..] == t;
  }

  /** The whitespace `str.split()` splits on, within ASCII: space, tab, line feed,
      vertical tab, form feed, carriage return and the separators 0x1c-0x1f. */
  predicate IsSpace(c: char) {
    c == ' ' || ('\t' <= c <= '\r') || ('\U{1c}' <= c <= '\U{1f}')
  }

  predicate NoSpace(s: string) {
    forall i :: 0 <= i < |s| ==> !IsSpace(s[i])
  }

  /** `s.split()`: the maximal runs of non-whitespace characters, in order. */
  function Words(s: string): (r: seq<string>)
    ensures forall i :: 0 <= i < |r| ==> r[i] != [] && NoSpace(r[i])
  {
    WordsFrom(s, [])
  }

  /** The words of `s`, when the run `word` has already been read before it. */
  function WordsFrom(s: string, word: string): (r: seq<string>)
    requires NoSpace(word)
    ensures forall i :: 0 <= i < |r| ==> r[i] != [] && NoSpace(r[i])
    decreases |s|
  {
    if s == [] then
      (if word == [] then [] else [word])
    else if IsSpace(s[0]) then
      (if word == [] then [] else [word]) + WordsFrom(s[1..], [])
    else
      WordsFrom(s[1..], word + [s[0]])
  }

  /** Reading a run of non-whitespace only extends the pending word. */
  lemma {:induction false} WordsFromRun(run: string, rest: string, word: string)
    requires NoSpace(word) && NoSpace(run)
    ensures WordsFrom(run + rest, word) == WordsFrom(rest, word + run)
    decreases |run|
  {
    if run == [] {
      assert run + rest == rest && word + run == word;
    } else {
      assert (run + rest)[0] == run[0] && !IsSpace(run[0]);
      assert (run + rest)[1..] == run[1..] + rest;
      assert word + [run[0]] + run[1..] == word + run;
      WordsFromRun(run[1..], rest, word + [run[0]]);
    }
  }

  /** `s.split()` is the inverse of `" ".join(words)` for non-empty,
      whitespace-free words. */
  lemma {:induction false} WordsOfJoin(words: seq<string>)
    requires forall i :: 0 <= i < |words| ==> words[i] != [] && NoSpace(words[i])
    ensures Words(JoinOn(words, " ")) == words
    decreases |words|
  {
    if |words| == 1 {
      WordsFromRun(words[0], [], []);
      assert words[0] + [] == words[0] && [] + words[0] == words[0];
    } else if |words| > 1 {
      var tail := JoinOn(words[1..], " ");
      WordsFromRun(words[0], [' '] + tail, []);
      assert (words[0] + [' '] + tail) == words[0] + ([' '] + tail);
      assert [] + words[0] == words[0];
      assert ([' '] + tail)[1..] == tail;
      WordsOfJoin(words[1..]);
      assert words == [words[0]] + words[1..];
    }
  }

  /** `s.split(sep)`: the pieces between separators, empty ones included;
      there is always one more piece than there are separators. */
  function SplitOn(s: string, sep: char): (r: seq<string>)
    ensures |r| >= 1
    ensures forall i :: 0 <= i < |r| ==> sep !in r[i]
    decreases |s|
  {
    if s == [] then [[]]
    else
      var rest := SplitOn(s[1..], sep);
      if s[0] == sep then [[]] + rest else [[s[0]] + rest[0]] + rest[1..]
  }

  /** `sep.join(parts)`; the first part starts the result. */
  function JoinOn(parts: seq<string>, sep: string): (r: string)
    ensures |parts| > 0 ==> parts[0] <= r
    decreases |parts|
  {
    if |parts| == 0 then []
    else if |parts| == 1 then parts[0]
    else parts[0] + sep + JoinOn(parts[1..], sep)
  }

  /** Joining the pieces of a split gives back the string. */
  lemma {:induction false} JoinSplit(s: string, sep: char)
    ensures JoinOn(SplitOn(s, sep), [sep]) == s
    decreases |s|
  {
    if s != [] {
      JoinSplit(s[1..], sep);
      var rest := SplitOn(s[1..], sep);
      if s[0] != sep && |rest| > 1 {
        assert JoinOn(rest, [sep]) == rest[0] + [sep] + JoinOn(rest[1..], [sep]);
      }
    }
  }

  /** Splitting a piece free of `sep` followed by more text. */
  lemma {:induction false} SplitOnPrefix(a: string, t: string, sep: char)
    requires sep !in a
    ensures SplitOn(a + t, sep) == [a + SplitOn(t, sep)[0]] + SplitOn(t, sep)[1..]
    decreases |a|
  {
    if a == [] {
      assert a + t == t && a + SplitOn(t, sep)[0] == SplitOn(t, sep)[0];
    } else {
      assert (a + t)[0] == a[0] != sep;
      assert (a + t)[1..] == a[1..] + t;
      SplitOnPrefix(a[1..], t, sep);
      assert [a[0]] + (a[1..] + SplitOn(t, sep)[0]) == a + SplitOn(t, sep)[0];
    }
  }

  /** Splitting a join gives back the parts, when no part holds the separator. */
  lemma {:induction false} SplitJoin(parts: seq<string>, sep: char)
    requires |parts| >= 1
    requires forall i :: 0 <= i < |parts| ==> sep !in parts[i]
    ensures SplitOn(JoinOn(parts, [sep]), sep) == parts
    decreases |parts|
  {
    if |parts| == 1 {
      SplitOnPrefix(parts[0], [], sep);
      assert parts[0] + [] == parts[0];
    } else {
      var tail := JoinOn(parts[1..], [sep]);
      SplitJoin(parts[1..], sep);
      assert parts[0] + [sep] + tail == parts[0] + ([sep] + tail);
      SplitOnPrefix(parts[0], [sep] + tail, sep);
      assert ([sep] + tail)[1..] == tail;
      assert SplitOn([sep] + tail, sep) == [[]] + SplitOn(tail, sep);
      assert parts[0] + [] == parts[0];
      assert parts == [parts[0]] + parts[1..];
    }
  }
}
