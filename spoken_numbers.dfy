/**
 * `convert_spoken_number` (app.py:10-65): one spoken phrase to a decimal
 * string. Three stages, tried in order: an all-digit input is returned as it
 * is; the compressed-decimal rule turns "sixty seven six" into "67.6"; any
 * other phrase is accumulated word by word into one integer.
 */
module SpokenNumbers {
  import opened Wrappers
  import opened Text

  /** The fixed number-word table (app.py:24-33): twenty-nine words. */
  const NumberWords: map<string, nat> := map[
    "hundred" := 100, "ninety" := 90, "eighty" := 80, "seventy" := 70, "sixty" := 60,
    "fifty" := 50, "forty" := 40, "thirty" := 30, "twenty" := 20,
    "nineteen" := 19, "eighteen" := 18, "seventeen" := 17, "sixteen" := 16,
    "fifteen" := 15, "fourteen" := 14, "thirteen" := 13, "twelve" := 12,
    "eleven" := 11, "ten" := 10,
    "nine" := 9, "eight" := 8, "seven" := 7, "six" := 6, "five" := 5,
    "four" := 4, "three" := 3, "two" := 2, "one" := 1, "zero" := 0
  ]

  /** The tokens of a phrase: lower-cased, every "point" replaced by ".",
      then split on whitespace. */
  function Tokens(s: string): (tokens: seq<string>)
    ensures forall i :: 0 <= i < |tokens| ==> tokens[i] != [] && NoSpace(tokens[i])
  {
    Words(Replace(ToLower(s), "point", "."))
  }

  /** The compressed-decimal rule: when the first three tokens are table words,
      the first a multiple of ten and the second below ten, the phrase reads as
      `str(first + second) + "." + str(third)`; later tokens are ignored. */
  function CompressedDecimal(tokens: seq<string>): (r: Option<string>)
    ensures r.Some? ==> |tokens| >= 3 && '.' in r.value
  {
    if |tokens| >= 3 && tokens[0] in NumberWords && tokens[1] in NumberWords && tokens[2] in NumberWords then
      var first, second, third := NumberWords[tokens[0]], NumberWords[tokens[1]], NumberWords[tokens[2]];
      if first % 10 == 0 && second < 10 then
        Some(NatToString(first + second) + "." + NatToString(third))
      else
        None
    else
      None
  }

  /** The table word whose value is 100. */
  predicate IsHundred(token: string) {
    token in NumberWords && NumberWords[token] == 100
  }

  /** One step of the accumulation loop: "hundred" scales a positive running value
      by 100 or starts it at 100; another table word or a digit token adds its
      value; anything else is skipped. */
  function Step(current: nat, token: string): (next: nat)
    ensures !IsHundred(token) ==> next == current + TokenValue(token)
    ensures IsHundred(token) ==> next == if current > 0 then 100 * current else 100
  {
    if token in NumberWords then
      if NumberWords[token] == 100 then (if current > 0 then current * 100 else 100)
      else current + NumberWords[token]
    else if IsDigits(token) then current + DigitsToNat(token)
    else current
  }

  /** The running value after reading `tokens` from `current` on. */
  function Accumulate(current: nat, tokens: seq<string>): (total: nat)
    ensures total >= current
    decreases |tokens|
  {
    if tokens == [] then current else Accumulate(Step(current, tokens[0]), tokens[1..])
  }

  /** The value a token stands for: its table value, its digits' value, or nothing. */
  function TokenValue(token: string): nat {
    if token in NumberWords then NumberWords[token]
    else if IsDigits(token) then DigitsToNat(token)
    else 0
  }

  function SumOfValues(tokens: seq<string>): nat
    decreases |tokens|
  {
    if tokens == [] then 0 else TokenValue(tokens[0]) + SumOfValues(tokens[1..])
  }

  /** What `convert_spoken_number` returns for `s`. */
  function Conversion(s: string): (r: string)
    ensures IsDigits(s) ==> r == s
  {
    if IsDigits(s) then s
    else
      var tokens := Tokens(s);
      match CompressedDecimal(tokens)
      case Some(decimal) => decimal
      case None => NatToString(Accumulate(0, tokens))
  }

  /** `convert_spoken_number`: the fast path, the compressed-decimal rule, then
      the accumulation loop over the tokens. */
  method ConvertSpokenNumber(s: string) returns (r: string)
    ensures r == Conversion(s)
  {
    if IsDigits(s) {
      return s;
    }
    var parts := Tokens(s);
    var compressed := CompressedDecimal(parts);
    if compressed.Some? {
      return compressed.value;
    }
    var current: nat := 0;
    for i := 0 to |parts|
      invariant Accumulate(current, parts[i..]) == Accumulate(0, parts)
    {
      var part := parts[i];
      ghost var before := current;
      if part in NumberWords {
        if NumberWords[part] == 100 {
          current := if current > 0 then current * NumberWords[part] else 100;
        } else {
          current := current + NumberWords[part];
        }
      } else if IsDigits(part) {
        current := current + DigitsToNat(part);
      }
      assert current == Step(before, part);
      assert parts[i..][1..] == parts[i + 1..];
    }
    r := NatToString(current);
  }

  /** The compressed-decimal rule fires exactly under its three conditions, and its
      result reads back, split at its one ".", as `first + second` and `third`. */
  lemma CompressedDecimalMeaning(tokens: seq<string>)
    ensures CompressedDecimal(tokens).Some? <==>
      |tokens| >= 3 && tokens[0] in NumberWords && tokens[1] in NumberWords && tokens[2] in NumberWords
      && NumberWords[tokens[0]] % 10 == 0 && NumberWords[tokens[1]] < 10
    ensures CompressedDecimal(tokens).Some? ==>
      var pieces := SplitOn(CompressedDecimal(tokens).value, '.');
      && |pieces| == 2
      && IsDigits(pieces[0]) && IsDigits(pieces[1])
      && DigitsToNat(pieces[0]) == NumberWords[tokens[0]] + NumberWords[tokens[1]]
      && DigitsToNat(pieces[1]) == NumberWords[tokens[2]]
    ensures |tokens| >= 3 ==> CompressedDecimal(tokens) == CompressedDecimal(tokens[..3])
  {
    if |tokens| >= 3 {
      var prefix := tokens[..3];
      assert prefix[0] == tokens[0] && prefix[1] == tokens[1] && prefix[2] == tokens[2];
    }
    if CompressedDecimal(tokens).Some? {
      var first, second, third := NumberWords[tokens[0]], NumberWords[tokens[1]], NumberWords[tokens[2]];
      assert CompressedDecimal(tokens).value == NatToString(first + second) + "." + NatToString(third);
      DecimalReadsBack(first + second, third);
    }
  }

  /** A compressed-decimal result is never all digits: it holds a ".". */
  lemma CompressedDecimalNotDigits(tokens: seq<string>)
    requires CompressedDecimal(tokens).Some?
    ensures '.' in CompressedDecimal(tokens).value
    ensures !IsDigits(CompressedDecimal(tokens).value)
  {
  }

  /** A digit string comes back unchanged, leading zeros and all; and the
      conversion is all digits exactly when the input was, or when the
      compressed-decimal rule did not fire (accumulation always gives digits). */
  lemma ConversionIsDigitsIff(s: string)
    ensures IsDigits(s) ==> Conversion(s) == s
    ensures IsDigits(Conversion(s)) <==> IsDigits(s) || CompressedDecimal(Tokens(s)).None?
  {
    if !IsDigits(s) {
      if CompressedDecimal(Tokens(s)).Some? {
        CompressedDecimalNotDigits(Tokens(s));
      } else {
        NatToStringRoundTrip(Accumulate(0, Tokens(s)));
      }
    }
  }

  /** A phrase that is not already digits and converts to digits got them from the
      accumulation: the result is `str` of the accumulated value, so it has no
      leading zero and, for a value below 1000, at most three digits. */
  lemma ConversionCanonical(s: string)
    requires !IsDigits(s) && IsDigits(Conversion(s))
    ensures DigitsToNat(Conversion(s)) == Accumulate(0, Tokens(s))
    ensures Conversion(s) == NatToString(DigitsToNat(Conversion(s)))
    ensures DigitsToNat(Conversion(s)) < 1000 ==> |Conversion(s)| <= 3
  {
    ConversionIsDigitsIff(s);
    NatToStringRoundTrip(Accumulate(0, Tokens(s)));
  }

  /** Conversion ignores letter case: a phrase and its lower-cased form convert alike. */
  lemma ConversionCaseInsensitive(s: string)
    ensures Conversion(ToLower(s)) == Conversion(s)
  {
    ToLowerIdempotent(s);
    if IsDigits(s) {
      assert ToLower(s) == s;
    } else {
      assert !IsDigits(ToLower(s));
      assert Tokens(ToLower(s)) == Tokens(s);
    }
  }

  /** "hundred" is the one table word of value 100. */
  lemma OnlyHundredIsHundred(w: string)
    ensures IsHundred(w) <==> w == "hundred"
  {
  }

  /** Every other table word is below twenty or a multiple of ten up to ninety. */
  lemma TableValueShape(w: string)
    requires w in NumberWords && w != "hundred"
    ensures NumberWords[w] < 20 || (NumberWords[w] % 10 == 0 && NumberWords[w] <= 90)
  {
  }

  /** Reading two runs of tokens one after the other. */
  lemma {:induction false} AccumulateAppend(current: nat, a: seq<string>, b: seq<string>)
    ensures Accumulate(current, a + b) == Accumulate(Accumulate(current, a), b)
    decreases |a|
  {
    if a == [] {
      assert a + b == b;
    } else {
      assert (a + b)[0] == a[0] && (a + b)[1..] == a[1..] + b;
      AccumulateAppend(Step(current, a[0]), a[1..], b);
    }
  }

  /** Without "hundred", the accumulation is the running value plus the sum of the
      tokens' values: table words and digit tokens add, other tokens add nothing. */
  lemma {:induction false} AccumulateWithoutHundred(current: nat, tokens: seq<string>)
    requires forall i :: 0 <= i < |tokens| ==> !IsHundred(tokens[i])
    ensures Accumulate(current, tokens) == current + SumOfValues(tokens)
    decreases |tokens|
  {
    if tokens != [] {
      AccumulateWithoutHundred(Step(current, tokens[0]), tokens[1..]);
    }
  }

  /** A "hundred" scales what was accumulated before it by 100, or makes it 100
      when nothing was. */
  lemma AccumulateHundred(current: nat, tokens: seq<string>, hundred: string)
    requires IsHundred(hundred)
    ensures var before := Accumulate(current, tokens);
      Accumulate(current, tokens + [hundred]) == if before > 0 then 100 * before else 100
  {
    AccumulateAppend(current, tokens, [hundred]);
  }

  /** A phrase of which no token is recognised converts to "0" (the empty phrase included). */
  lemma NothingRecognisedIsZero(s: string)
    requires !IsDigits(s)
    requires forall i :: 0 <= i < |Tokens(s)| ==> Tokens(s)[i] !in NumberWords && !IsDigits(Tokens(s)[i])
    ensures Conversion(s) == "0"
  {
    var tokens := Tokens(s);
    AccumulateWithoutHundred(0, tokens);
    UnrecognisedSumZero(tokens);
  }

  lemma {:induction false} UnrecognisedSumZero(tokens: seq<string>)
    requires forall i :: 0 <= i < |tokens| ==> tokens[i] !in NumberWords && !IsDigits(tokens[i])
    ensures SumOfValues(tokens) == 0
    decreases |tokens|
  {
    if tokens != [] {
      UnrecognisedSumZero(tokens[1..]);
    }
  }

  /** A "." token, which is what "point" becomes, leaves the running value as it is. */
  lemma PointTokenSkipped(current: nat, before: seq<string>, after: seq<string>)
    ensures Accumulate(current, before + ["."] + after) == Accumulate(Accumulate(current, before), after)
  {
    assert before + ["."] + after == before + (["."] + after);
    AccumulateAppend(current, before, ["."] + after);
  }

  // The example lemmas name their phrases through a `requires` rather than as
  // literal arguments: on a literal argument the verifier evaluates the whole
  // conversion eagerly and runs out of resources.

  /** A lone "point" becomes the token ".", which nothing recognises, so it converts to "0". */
  lemma ConversionExamplePoint(phrase: string)
    requires phrase == "point"
    ensures Tokens(phrase) == ["."]
    ensures Conversion(phrase) == "0"
  {
    ToLowerNoUpper(phrase);
    assert phrase[..5] == "point" && phrase[5..] == "";
    assert Replace(phrase, "point", ".") == ".";
    assert JoinOn(["."], " ") == ".";
    WordsOfJoin(["."]);
    NothingRecognisedIsZero(phrase);
  }

  /** "point" among number words becomes a "." token, which keeps the compressed-decimal
      rule from firing and is then skipped: "sixty seven point six" sums to 73. */
  lemma ConversionExamplePointMidPhrase(phrase: string)
    requires phrase == "sixty seven point six"
    ensures Tokens(phrase) == ["sixty", "seven", ".", "six"]
    ensures Conversion(phrase) == "73"
  {
    PointMidPhraseTokens(phrase);
    var tokens := Tokens(phrase);
    assert NumberWords["sixty"] == 60 && NumberWords["seven"] == 7 && NumberWords["six"] == 6;
    assert tokens[2] !in NumberWords && !IsDigits(tokens[2]) by {
      assert tokens[2][0] == '.';
    }
    assert SumOfValues(tokens) == 73 by {
      assert TokenValue(tokens[0]) == 60 && TokenValue(tokens[1]) == 7;
      assert TokenValue(tokens[2]) == 0 && TokenValue(tokens[3]) == 6;
      assert tokens[3..][1..] == [];
      assert SumOfValues(tokens[3..]) == 6;
      assert tokens[2..][1..] == tokens[3..];
      assert SumOfValues(tokens[2..]) == 6;
      assert tokens[1..][1..] == tokens[2..];
      assert SumOfValues(tokens[1..]) == 13;
    }
    ConversionOfSummedWords(phrase);
    assert NatToString(73) == "73";
  }

  lemma PointMidPhraseTokens(phrase: string)
    requires phrase == "sixty seven point six"
    ensures Tokens(phrase) == ["sixty", "seven", ".", "six"] && !IsDigits(phrase)
  {
    var words := ["sixty", "seven", "point", "six"];
    TokensOfSpokenPhrase(phrase, words);
    assert PointsAsDots(words) == ["sixty", "seven", ".", "six"];
  }

  /** A word of lower-case ASCII letters with no "p", so with no "point" in it. */
  predicate PlainWord(w: string) {
    w != [] && forall k :: 0 <= k < |w| ==> 'a' <= w[k] <= 'z' && w[k] != 'p'
  }

  /** A plain word, or "point" itself. */
  predicate SpokenWord(w: string) {
    PlainWord(w) || w == "point"
  }

  /** The token a spoken word becomes: "point" turns into ".", other words stay. */
  function PointAsDot(w: string): string {
    if w == "point" then "." else w
  }

  function PointsAsDots(words: seq<string>): seq<string> {
    seq(|words|, i requires 0 <= i < |words| => PointAsDot(words[i]))
  }

  predicate LowerOrSpace(c: char) {
    c == ' ' || 'a' <= c <= 'z'
  }

  /** Spoken words joined by spaces hold only lower-case letters and spaces. */
  lemma {:induction false} LowerJoin(words: seq<string>)
    requires forall i :: 0 <= i < |words| ==> SpokenWord(words[i])
    ensures forall k :: 0 <= k < |JoinOn(words, " ")| ==> LowerOrSpace(JoinOn(words, " ")[k])
    decreases |words|
  {
    if |words| == 1 {
      assert JoinOn(words, " ") == words[0];
    } else if |words| > 1 {
      LowerJoin(words[1..]);
      var phrase, tail := JoinOn(words, " "), JoinOn(words[1..], " ");
      assert phrase == words[0] + [' '] + tail;
      forall k | 0 <= k < |phrase| ensures LowerOrSpace(phrase[k]) {
        if k < |words[0]| {
          assert phrase[k] == words[0][k];
        } else if k > |words[0]| {
          assert phrase[k] == tail[k - |words[0]| - 1];
        }
      }
    }
  }

  /** Replacing "point" in spoken words joined by spaces turns each "point" word
      into "." and leaves the other words and the spaces as they are. */
  lemma {:induction false} ReplacePointInPhrase(words: seq<string>)
    requires forall i :: 0 <= i < |words| ==> SpokenWord(words[i])
    ensures Replace(JoinOn(words, " "), "point", ".") == JoinOn(PointsAsDots(words), " ")
    decreases |words|
  {
    if |words| == 1 {
      if words[0] == "point" {
        ReplaceAtStart([], "point", ".");
        assert "point" + [] == "point";
      } else {
        ReplaceAfterFree(words[0], [], "point", ".");
        assert words[0] + [] == words[0];
      }
    } else if |words| > 1 {
      var tail := JoinOn(words[1..], " ");
      ReplacePointInPhrase(words[1..]);
      assert PointsAsDots(words[1..]) == PointsAsDots(words)[1..];
      ReplaceAfterFree(" ", tail, "point", ".");
      assert JoinOn(words, " ") == words[0] + (" " + tail);
      if words[0] == "point" {
        ReplaceAtStart(" " + tail, "point", ".");
      } else {
        ReplaceAfterFree(words[0], " " + tail, "point", ".");
      }
    }
  }

  /** Each token of spoken words is non-empty and free of whitespace. */
  lemma SpokenTokensAreWords(words: seq<string>)
    requires forall i :: 0 <= i < |words| ==> SpokenWord(words[i])
    ensures forall i :: 0 <= i < |words| ==> PointsAsDots(words)[i] != [] && NoSpace(PointsAsDots(words)[i])
  {
    forall i | 0 <= i < |words| ensures PointsAsDots(words)[i] != [] && NoSpace(PointsAsDots(words)[i]) {
      if words[i] != "point" {
        assert forall k :: 0 <= k < |words[i]| ==> !IsSpace(words[i][k]);
      }
    }
  }

  /** Spoken words joined by single spaces tokenize to those words with every
      "point" turned into ".", and the phrase, starting with a letter, is not all
      digits. */
  lemma TokensOfSpokenPhrase(phrase: string, words: seq<string>)
    requires |words| > 0 && forall i :: 0 <= i < |words| ==> SpokenWord(words[i])
    requires phrase == JoinOn(words, " ")
    ensures Tokens(phrase) == PointsAsDots(words) && !IsDigits(phrase)
  {
    LowerJoin(words);
    ToLowerNoUpper(phrase);
    ReplacePointInPhrase(words);
    SpokenTokensAreWords(words);
    WordsOfJoin(PointsAsDots(words));
    if |words| > 1 {
      assert phrase == words[0] + [' '] + JoinOn(words[1..], " ");
    }
    assert phrase[0] == words[0][0];
  }

  /** Plain words hold no "point", so turning "point" into "." leaves them as they are. */
  lemma PlainWordsStay(words: seq<string>)
    requires forall i :: 0 <= i < |words| ==> PlainWord(words[i])
    ensures PointsAsDots(words) == words
  {
    forall i | 0 <= i < |words| ensures PointAsDot(words[i]) == words[i] {
      assert words[i][0] != 'p';
    }
  }

  /** Plain words joined by single spaces tokenize back to exactly those words,
      and the phrase, starting with a letter, is not all digits: the case of
      `TokensOfSpokenPhrase` with no "point" among the words. */
  lemma TokensOfPhrase(phrase: string, words: seq<string>)
    requires |words| > 0 && forall i :: 0 <= i < |words| ==> PlainWord(words[i])
    requires phrase == JoinOn(words, " ")
    ensures Tokens(phrase) == words && !IsDigits(phrase)
  {
    PlainWordsStay(words);
    TokensOfSpokenPhrase(phrase, words);
  }

  /** Lower-casing and replacing "point" leave a phrase of plain words alone, and
      its words hold no whitespace. */
  lemma PlainPhrase(phrase: string, words: seq<string>)
    requires forall i :: 0 <= i < |words| ==> PlainWord(words[i])
    requires phrase == JoinOn(words, " ")
    ensures ToLower(phrase) == phrase
    ensures Replace(phrase, "point", ".") == phrase
    ensures forall i :: 0 <= i < |words| ==> words[i] != [] && NoSpace(words[i])
  {
    PlainWordsStay(words);
    LowerJoin(words);
    ToLowerNoUpper(phrase);
    ReplacePointInPhrase(words);
    SpokenTokensAreWords(words);
  }

  /** A phrase that is not all digits, has no "hundred" token and that the
      compressed-decimal rule does not read converts to the sum of its tokens' values. */
  lemma ConversionOfSummedWords(phrase: string)
    requires !IsDigits(phrase)
    requires forall i :: 0 <= i < |Tokens(phrase)| ==> !IsHundred(Tokens(phrase)[i])
    requires CompressedDecimal(Tokens(phrase)).None?
    ensures Conversion(phrase) == NatToString(SumOfValues(Tokens(phrase)))
  {
    AccumulateWithoutHundred(0, Tokens(phrase));
  }

  /** "sixty seven six" is read by the compressed-decimal rule as "67.6". */
  lemma ConversionExampleCompressed(phrase: string)
    requires phrase == "sixty seven six"
    ensures Conversion(phrase) == "67.6"
  {
    TokensOfPhrase(phrase, ["sixty", "seven", "six"]);
    assert NumberWords["sixty"] == 60 && NumberWords["seven"] == 7 && NumberWords["six"] == 6;
    assert NatToString(67) == "67" && NatToString(6) == "6";
    assert "67" + "." + "6" == "67.6";
  }

  /** "two hundred" accumulates to 2, then "hundred" scales it to 200. */
  lemma ConversionExampleHundred(phrase: string)
    requires phrase == "two hundred"
    ensures Conversion(phrase) == "200"
  {
    var words := ["two", "hundred"];
    TokensOfPhrase(phrase, words);
    assert "hundred" in NumberWords && NumberWords["two"] == 2 && NumberWords["hundred"] == 100;
    assert Accumulate(0, words) == Accumulate(2, ["hundred"]) == 200;
    assert NatToString(200) == "200";
  }

  /** "twenty five" has only two tokens, so the compressed-decimal rule cannot fire. */
  lemma ConversionExampleTwentyFive(phrase: string)
    requires phrase == "twenty five"
    ensures Conversion(phrase) == "25"
  {
    TokensOfPhrase(phrase, ["twenty", "five"]);
    assert NumberWords["twenty"] == 20 && NumberWords["five"] == 5;
    ConversionOfSummedWords(phrase);
    assert NatToString(25) == "25";
  }

  /** The guard is "a multiple of ten", which "zero" meets: "zero one two" reads as "1.2". */
  lemma ConversionExampleZeroFirst(phrase: string)
    requires phrase == "zero one two"
    ensures Conversion(phrase) == "1.2"
  {
    TokensOfPhrase(phrase, ["zero", "one", "two"]);
    assert NumberWords["zero"] == 0 && NumberWords["one"] == 1 && NumberWords["two"] == 2;
    assert NatToString(1) == "1" && NatToString(2) == "2";
    assert "1" + "." + "2" == "1.2";
  }

  /** Digit words spoken one by one are summed, not concatenated: "one nine two" is 12. */
  lemma ConversionExampleDigitWords(phrase: string)
    requires phrase == "one nine two"
    ensures Conversion(phrase) == "12"
  {
    TokensOfPhrase(phrase, ["one", "nine", "two"]);
    assert NumberWords["one"] == 1 && NumberWords["nine"] == 9 && NumberWords["two"] == 2;
    ConversionOfSummedWords(phrase);
    assert NatToString(12) == "12";
  }

  /** "one six eight", the second octet of a spoken 192.168.0.1, is summed to 15. */
  lemma ConversionExampleOneSixEight(phrase: string)
    requires phrase == "one six eight"
    ensures Conversion(phrase) == "15"
  {
    TokensOfPhrase(phrase, ["one", "six", "eight"]);
    assert NumberWords["one"] == 1 && NumberWords["six"] == 6 && NumberWords["eight"] == 8;
    ConversionOfSummedWords(phrase);
    assert NatToString(15) == "15";
  }

  /** A single table word other than "hundred" converts to its value. */
  lemma SingleWordConversion(word: string)
    requires PlainWord(word) && word in NumberWords && !IsHundred(word)
    ensures Conversion(word) == NatToString(NumberWords[word])
  {
    assert JoinOn([word], " ") == word;
    TokensOfPhrase(word, [word]);
    ConversionOfSummedWords(word);
  }
}
