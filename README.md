# Spoken-number IPv4 resolver

`app.py` is a voice-assistant endpoint. It takes an IPv4 address spoken to it
and starts a network scan of that address. This project models the part that turns
the spoken words into an address and decides whether the scan may run:

- `convert_spoken_number` turns one spoken phrase into a decimal string. It works
  in three stages:
  - an all-digit input comes back unchanged;
  - the compressed-decimal rule reads "sixty seven six" as "67.6";
  - any other phrase is accumulated word by word over a fixed 29-word table,
    where "hundred" scales the running value.
- `process_ip_address` converts every non-empty part. It returns the empty list
  as soon as one part is not a digit string of value at most 255.
- `validate_ip` is the final gate: four groups of 1–3 digits joined by ".",
  each of value at most 255.
- The `RunPenTestIntent` handler assembles the address in one of two ways:
  - from a single utterance in the `target` slot: " point " is replaced by ".",
    the utterance is split on ".", and exactly four parts must survive
    `process_ip_address`;
  - otherwise from the four octet slots, which are converted with no range check,
    and all four of which must be present.

  The address reaches the scan command only when it is non-empty and
  `validate_ip` accepts it.

The modules are:

- `Wrappers` holds `Option`.
- `Text` holds the Python string built-ins the code relies on, over ASCII:
  - `isdigit` and `int`;
  - `str` of a non-negative integer;
  - `lower` and `replace`;
  - `split()`, `split(sep)` and `join`.
- `SpokenNumbers` models the converter.
- `IpResolver` models `process_ip_address`, `validate_ip`, the two assembly
  paths and the gate.

Each loop of the source is a method proved equal to a specification function:

- the accumulation loop and its converter, `ConvertSpokenNumber`;
- the loop of `process_ip_address`, `ProcessIpAddress`;
- the four-slot loop, `ResolveFourSlots`.

The properties are then proved as lemmas about those functions. The handler's
slots are a `map<string, string>` from slot name to spoken value. A missing slot
and a slot without a value both read as "".

## Model

| member | source | states |
|---|---|---|
| Text.NatToStringRoundTrip | app.py:61 | `str(n)` is a non-empty digit string that `int` reads back as `n`. It starts with "0" only for 0, and it has at most 1, 2 or 3 digits below 10, 100 or 1000 respectively. |
| Text.CanonicalDigitsRoundTrip | app.py:77 | A digit string without a leading zero, or the string "0", is exactly `str(int(s))`. |
| Text.DecimalReadsBack | app.py:45 | `str(a) + "." + str(b)` splits at "." into exactly two digit strings, which read back as `a` and `b`. |
| Text.ToLower | app.py:21 | `lower()` keeps the length of the string. |
| Text.ToLowerIdempotent | app.py:21 | Lower-casing twice is lower-casing once. A digit string is left unchanged, and only a digit string lower-cases to one. |
| Text.ReplaceAbsent | app.py:21 | `replace` changes nothing when the pattern does not occur. |
| Text.ReplaceAfterFree | app.py:21 | `replace` copies a prefix that lacks the pattern's first character unchanged, and replaces in the rest. |
| Text.ReplaceAtStart | app.py:21 | An occurrence of the pattern at the start is replaced, and the scan goes on after it. |
| Text.Replace | app.py:21 | The body is the model of `replace`. Its contract: a replacement no longer than the pattern never lengthens the string. Its meaning on the utterances is proved by `ReplaceAbsent` and `IpResolver.ReplacePointJoin`. |
| Text.Words | app.py:35 | Every piece of `split()` is non-empty and free of whitespace. |
| Text.WordsOfJoin | app.py:35 | `split()` undoes `" ".join` of non-empty, whitespace-free words. |
| Text.SplitOn | app.py:137 | `split('.')` always has at least one piece, and no piece holds the separator. |
| Text.JoinOn | app.py:144 | The body is the model of `sep.join`. Its contract: the first part starts the result. Its meaning is proved by `SplitJoin` and `JoinSplit`. |
| Text.JoinSplit | app.py:137 | `'.'.join(s.split('.')) == s` for every string. |
| Text.SplitJoin | app.py:144 | `'.'.join(parts).split('.') == parts` when no part holds a "." (the list must have at least one part). |
| SpokenNumbers.ConvertSpokenNumber | app.py:10-61 | The converter (fast path, compressed-decimal rule, accumulation loop) returns `Conversion(s)`. The loop invariant ties the running `current` to the accumulation over the remaining tokens. |
| SpokenNumbers.Conversion | app.py:10-61 | The body is the model of `convert_spoken_number`. Its contract: an all-digit input comes back unchanged. Its meaning is proved by `ConversionIsDigitsIff`, `ConversionCanonical`, `ConversionOfSummedWords` and `NothingRecognisedIsZero`. |
| SpokenNumbers.Tokens | app.py:21-35 | The body is the model of lower-casing, replacing "point" and `split()`. Its contract: every token is non-empty and free of whitespace. Its meaning is proved by `TokensOfPhrase` and `ConversionExamplePoint`. |
| SpokenNumbers.CompressedDecimal | app.py:38-45 | The body is the model of the compressed-decimal rule. Its contract: it fires only on three or more tokens, and its result holds a ".". Its meaning is proved by `CompressedDecimalMeaning`. |
| SpokenNumbers.Step | app.py:52-58 | One step of the accumulation loop. A "hundred" multiplies a positive running value by 100 and turns 0 into 100; any other token adds its value (table value, `int` of a digit token, or nothing). |
| SpokenNumbers.Accumulate | app.py:51-58 | The body is the model of the loop. Its contract: the running value never decreases. Its meaning is proved by `AccumulateAppend`, `AccumulateWithoutHundred` and `AccumulateHundred`. |
| SpokenNumbers.OnlyHundredIsHundred | app.py:24-33 | In the 29-word table, "hundred" is the only word whose value is 100. |
| SpokenNumbers.TableValueShape | app.py:24-33 | Every other table value is below 20, or a multiple of ten up to 90. |
| SpokenNumbers.CompressedDecimalMeaning | app.py:38-45 | The rule fires exactly when the first three tokens are table words, the first value is a multiple of 10 and the second is below 10. Its result splits at "." into digit strings that read as `first + second` and `third`. Tokens after the third make no difference. |
| SpokenNumbers.CompressedDecimalNotDigits | app.py:44-45 | A compressed-decimal result holds a "." and is never all digits. |
| SpokenNumbers.ConversionIsDigitsIff | app.py:17-61 | An all-digit input comes back unchanged, leading zeros included. Otherwise the result is all digits exactly when the compressed-decimal rule did not fire. |
| SpokenNumbers.ConversionCanonical | app.py:48-61 | When a phrase that is not already digits converts to digits, the result is `str` of the accumulated value. It has no leading zero, and it has at most three digits when below 1000. |
| SpokenNumbers.ConversionCaseInsensitive | app.py:21 | A phrase and its lower-cased form convert to the same string. |
| SpokenNumbers.AccumulateAppend | app.py:51-58 | Accumulating `a + b` equals accumulating `a` and then continuing with `b`. |
| SpokenNumbers.AccumulateWithoutHundred | app.py:51-58 | Without "hundred", the loop ends at the start value plus the sum of the token values. Table words add their value, digit tokens add `int(token)`, and other tokens add nothing. |
| SpokenNumbers.AccumulateHundred | app.py:53-54 | A "hundred" multiplies a positive running value by 100, and sets it to 100 when it is 0. |
| SpokenNumbers.PointTokenSkipped | app.py:51-58 | The "." token that a spoken "point" becomes is skipped: the running value is the same with and without it. |
| SpokenNumbers.NothingRecognisedIsZero | app.py:48-61 | A phrase with no recognised token (the empty phrase included) converts to "0". |
| SpokenNumbers.ConversionOfSummedWords | app.py:47-61 | Suppose a phrase that is not all digits has no "hundred" and is not read by the compressed rule. Then it converts to `str` of the sum of its token values. |
| SpokenNumbers.PlainWordsStay | app.py:21 | A word with no "p" is never "point", so replacing "point" leaves a list of such words unchanged. |
| SpokenNumbers.TokensOfPhrase | app.py:21-35 | Lower-case words without "p", joined by single spaces, tokenize back to exactly those words. The phrase is not all digits. |
| SpokenNumbers.ReplacePointInPhrase | app.py:21 | Lower-case words and "point"s joined by single spaces: replacing "point" turns each "point" word into "." and leaves the other words as they are. |
| SpokenNumbers.TokensOfSpokenPhrase | app.py:21-35 | Such a phrase tokenizes to its words with every "point" turned into ".". The phrase is not all digits. |
| SpokenNumbers.PlainPhrase | app.py:21 | Lower-casing and replacing "point" leave such a phrase unchanged. |
| SpokenNumbers.ConversionExampleCompressed | app.py:38-45 | "sixty seven six" converts to "67.6". |
| SpokenNumbers.ConversionExampleZeroFirst | app.py:43-45 | The guard admits "zero" as the first word, so "zero one two" converts to "1.2". |
| SpokenNumbers.ConversionExampleHundred | app.py:51-58 | "two hundred" converts to "200". |
| SpokenNumbers.ConversionExampleTwentyFive | app.py:38-61 | "twenty five" converts to "25". |
| SpokenNumbers.ConversionExampleDigitWords | app.py:51-61 | Digit words are summed, not concatenated: "one nine two" converts to "12". |
| SpokenNumbers.ConversionExampleOneSixEight | app.py:51-61 | "one six eight" converts to "15". |
| SpokenNumbers.ConversionExamplePoint | app.py:21-61 | "point" on its own becomes the single token "." and converts to "0". |
| SpokenNumbers.ConversionExamplePointMidPhrase | app.py:21-61 | "sixty seven point six" tokenizes to "sixty", "seven", ".", "six". The "." keeps the compressed rule from firing and is then skipped, so the phrase converts to "73". |
| SpokenNumbers.SingleWordConversion | app.py:51-61 | A single table word other than "hundred" converts to `str` of its value. |
| IpResolver.NonEmpty | app.py:71-73 | Skipping empty parts keeps at most as many parts, and every kept part is non-empty. |
| IpResolver.ProcessIpAddress | app.py:67-83 | The loop returns `ProcessedParts(parts)`. Its invariant: what has been appended is the conversion of the non-empty parts so far, all octets. |
| IpResolver.ProcessedParts | app.py:67-83 | The body is the model of `process_ip_address`. Its contract: at most as many elements as parts, each an octet digit string. Its meaning is proved by `ProcessedPartsMeaning` and `ProcessedPartsAllOrNothing`. |
| IpResolver.AllOctetsProcessed | app.py:77-83 | When every converted non-empty part is an octet, all the conversions are returned, in order. |
| IpResolver.ProcessedPartsMeaning | app.py:69-83 | Every returned element is a digit string of value 0..255. A non-empty result has one element per non-empty part: the conversion of that part, in input order. When every non-empty part converts to an octet, all of those conversions are returned. |
| IpResolver.ProcessedPartsAllOrNothing | app.py:77-81 | One non-empty part that does not convert to an octet makes the result `[]`. |
| IpResolver.ProcessedPartsSkipsEmpty | app.py:72-73 | Dropping the empty parts first does not change the result. |
| IpResolver.CompressedPartRejected | app.py:76-81 | A part that the compressed-decimal rule reads (e.g. "67.6") fails the digit check, so the whole list is rejected. |
| IpResolver.OctetPartsProcessed | app.py:71-83 | A list of octet digit strings is returned unchanged. |
| IpResolver.QuadScanPieces | app.py:89 | The pattern scan accepts exactly when the "."-pieces are four groups of 1–3 digits. |
| IpResolver.QuadScan | app.py:89 | The body is the model of the pattern, read left to right. Its contract bounds the length an accepted string can have. Its meaning is proved by `QuadScanPieces`. |
| IpResolver.ValidateIp | app.py:85-96 | The body is the model of `validate_ip`. Its contract: an accepted address has 7 to 15 characters. Its meaning is proved by `ValidateIpMeaning`. |
| IpResolver.ValidateIpMeaning | app.py:85-96 | `validate_ip` is true exactly for four groups of 1–3 digits, each of value at most 255, joined by ".". It is false for anything else. |
| IpResolver.ValidateIpOfDigitGroups | app.py:89-94 | On four digit strings joined by ".", `validate_ip` holds exactly when each is at most 255 and at most three digits long. |
| IpResolver.OctetSlotValues | app.py:152-153 | Four values, one per octet slot. Which slot goes where is fixed by `FourDigitSlotsResolve` and `FourSlotMeaning`. |
| IpResolver.DottedDigits | app.py:137 | Replacing " point " and splitting on "." gives back the digit strings that were "."-joined. |
| IpResolver.UtteranceParts | app.py:137 | The body is the model of `replace(' point ', '.').split('.')`. Its contract: there is at least one part, and no part holds a ".". Its meaning is proved by `DottedDigits` and `SpokenUtteranceParts`. |
| IpResolver.SingleUtteranceAddress | app.py:137-147 | The body is the model of the single-utterance path. Its contract: splitting the address at "." gives back what `process_ip_address` returned. Its meaning is proved by `SingleUtteranceMeaning`. |
| IpResolver.ReplacePointAfter | app.py:137 | When a word holds no "p", replacing " point " after it turns the first separator into "." and leaves the word as it is. |
| IpResolver.ReplacePointAbsent | app.py:137 | A word without "p" has no " point " in it to replace. |
| IpResolver.ReplacePointJoin | app.py:137 | Words without "p" joined by " point " become the same words joined by ".". |
| IpResolver.SpokenUtteranceParts | app.py:137 | Such an utterance splits into exactly the spoken words of each octet. |
| IpResolver.SpokenOctetsProcessed | app.py:67-83 | Non-empty parts that each convert to an octet are returned as those octets, in order. |
| IpResolver.SpokenTargetAddress | app.py:137-147 | Spoken octets joined by " point " give the "."-join of their conversions when there are four of them, and no address otherwise. |
| IpResolver.SpokenTargetResolves | app.py:137-187 | Four spoken octets joined by " point " in the `target` slot, each converting to an octet of at most three digits, are let through as the "."-join of the conversions. |
| IpResolver.SpokenTargetExample | app.py:137-187 | "one nine two point one six eight point zero point one" in the `target` slot is let through as "12.15.0.1". |
| IpResolver.UnrecognisedWordIsZeroOctet | app.py:48-61 | A single lower-case word that is not a number word converts to the octet "0". |
| IpResolver.SpokenTargetExampleUnrecognised | app.py:137-187 | "hello point hello point hello point hello" in the `target` slot is let through as "0.0.0.0". |
| IpResolver.ResolveFourSlots | app.py:150-160 | The four-slot loop returns `FourSlotAddress(slots)`. Its invariant: what has been appended is the conversion of the non-empty slots read so far. |
| IpResolver.FourSlotAddress | app.py:150-160 | The body is the model of the four-slot path. Its contract: an address comes out exactly when none of the four octet slots is empty or missing. Its meaning is proved by `FourSlotMeaning`. |
| IpResolver.FourSlotsAssembled | app.py:150-160 | Four non-empty octet slots whose conversions are given assemble the "."-join of those conversions, in slot order. |
| IpResolver.CandidateAddress | app.py:133-163 | The body picks the path by the `target` slot. Its contract: a candidate from a non-empty `target` splits at "." into exactly four octet digit strings. A candidate from the octet slots carries no such guarantee. |
| IpResolver.Resolve | app.py:165-187 | The body is the model of the gate. Its contract: "valid" only for the assembled candidate when `validate_ip` accepts it, and "not a valid IP" only when there is a candidate and `validate_ip` refuses it. Its meaning is proved by `ResolveGate`. |
| IpResolver.ResolveTarget | app.py:131-187 | The handler returns `Resolve(slots)`: the path chosen by the `target` slot, then the empty-address and `validate_ip` checks. |
| IpResolver.ResolveGate | app.py:165-187 | An address is let through exactly when there is a candidate and it is a dotted quad of octets; it is then the candidate itself. The answer is "not a valid IP" exactly when the candidate is non-empty and not a dotted quad. No candidate means "not understood". |
| IpResolver.SingleUtteranceMeaning | app.py:137-147 | The single-utterance path yields an address exactly when `process_ip_address` returns four parts. The address is their "."-join, all octets, and `validate_ip` accepts it exactly when each part has at most three characters. |
| IpResolver.SingleUtteranceRejectedOnlyForLongDigits | app.py:137-147 | Suppose `validate_ip` refuses a single-utterance address. Then one of the parts was already a digit string longer than three characters (such as "0012"). |
| IpResolver.FourSlotMeaning | app.py:150-160 | The four-slot path yields an address exactly when all four slots are non-empty. The address is the "."-join of the four conversions, with no range check. |
| IpResolver.FourDigitSlotsResolve | app.py:150-187 | Take an empty or missing `target` and four slots converting to digit strings. The join is let through when each is an octet of at most three digits; otherwise the result is "not a valid IP". |
| IpResolver.DigitSlotsResolve | app.py:150-187 | The same, for four octet slots given as digit strings. |
| IpResolver.FourSlotExampleOutOfRange | app.py:150-187 | The slots "300", "1", "1", "1" assemble "300.1.1.1", which only `validate_ip` stops. |
| IpResolver.DottedTargetResolves | app.py:137-187 | A `target` made of four octet digit strings joined by "." is kept as it is. It is let through exactly when each group has at most three digits. |
| IpResolver.SingleUtteranceExampleLeadingZeros | app.py:137-187 | "0012.1.1.1" passes `process_ip_address` (`int` reads 12). Only `validate_ip` refuses it. |
| IpResolver.SingleUtteranceExampleOutOfRange | app.py:137-174 | For "300.1.1.1", `process_ip_address` refuses "300", so no address is assembled and the answer is "not understood". |
| IpResolver.SingleUtteranceExampleDotted | app.py:137-187 | "192.168.0.1" is let through unchanged. |

## Where the code differs from what one might expect

The model follows the code in each case.

- One might expect the compressed-decimal rule to need a non-zero tens word
  first. The code's guard is `first % 10 == 0`, so it also admits "zero" and
  "hundred" as the first word: "zero one two" reads as "1.2"
  (`ConversionExampleZeroFirst`).
- One might expect digit words spoken one by one to be concatenated, so that the
  slots "one nine two", "one six eight", "zero", "one" give 192.168.0.1. The code
  sums them instead: "one nine two" is 12 (`ConversionExampleDigitWords`) and
  "one six eight" is 15 (`ConversionExampleOneSixEight`). The same holds for a
  single utterance: "one nine two point one six eight point zero point one" in
  the `target` slot is let through as 12.15.0.1 (`SpokenTargetExample`).
- "300.1.1.1" in the `target` slot is refused either way. It is refused by
  `process_ip_address`, which rejects "300", so the answer is the "couldn't
  understand" message rather than the "not a valid IP" one
  (`SingleUtteranceExampleOutOfRange`).
- One might expect "point" inside a spoken number to give a decimal point, so
  that "sixty seven point six" reads as 67.6. The code turns "point" into a "."
  token. That token keeps the compressed-decimal rule from firing, and the
  loop then skips it, so the phrase converts to "73"
  (`ConversionExamplePointMidPhrase`).
- One might expect speech that names no number to be refused. The converter
  turns it into "0" instead, which is a valid octet. So "hello point hello point
  hello point hello" in the `target` slot is let through as 0.0.0.0, and the scan
  is run on that address (`SpokenTargetExampleUnrecognised`).

## Left out

- HTTP routing, the JSON request checks and the response envelopes (app.py:98-130 and the bodies at 165-186) are I/O. The model returns `Resolution` instead of a response.
- The scan command, its subprocess, the timing and the 15-line output truncation (app.py:188-231) are an external process and the clock.
- Logging is a side effect only.
- SpokenNumbers.Conversion: the `except Exception` fallback (app.py:63-65) is not modelled, because it cannot fire on ASCII input of ordinary length. The conversion is total.
- SpokenNumbers.Conversion: two inputs that make Python raise are not modelled. A token such as "²" passes `isdigit` but makes `int` raise at app.py:58. Python's 4300-digit limit on `int` and `str` makes app.py:58 and 61 raise on a longer number. In both cases the fallback at app.py:63-65 returns the lower-cased phrase, with "point" replaced. The model reads only ASCII digits and has no digit limit.
- IpResolver.ProcessIpAddress: an all-digit part longer than 4300 digits makes `int` raise at app.py:77. Nothing catches that error, so the handler fails. The model rejects such a part as out of range instead.
- IpResolver.ResolveFourSlots: the `except Exception` branch (app.py:161-163) is not modelled. `convert_spoken_number` catches its own errors, and the join at app.py:158 is over strings, so the branch fires only when an octet slot entry is not a `{"value": ...}` object and `.get` raises. The model's slots are a map from name to string, which leaves that case out (see the last line).
- Text.IsDigits: models ASCII digits only. Python's `isdigit` and the regex `\d` also accept other Unicode digits.
- Text.ToLower: models ASCII letters only. Python's `lower` also folds other Unicode letters.
- Text.Words: splits on ASCII whitespace only. Python's `split()` also splits on Unicode spaces.
- IpResolver.ValidateIp: models an exact full-string match. In Python, the pattern's `$` also matches before one trailing newline, and `int` then accepts that newline, so "1.2.3.4\n" passes there but not here.
- The slots' JSON shape (`{"value": ...}` objects) is reduced to a map from slot name to value. A non-string value is not modelled.
