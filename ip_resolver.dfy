/**
 * The IPv4 resolver of `app.py`: `process_ip_address` (lines 67-83),
 * `validate_ip` (lines 85-96) and the two ways the `RunPenTestIntent`
 * handler assembles an address (lines 131-187): from one utterance in the
 * `target` slot, or from the four octet slots. An address reaches the scan
 * command only after `validate_ip` accepts it.
 */
module IpResolver {
  import opened Wrappers
  import opened Text
  import opened SpokenNumbers

  /** The test `process_ip_address` applies to a converted part: all digits, and
      at most 255 once read as an integer. */
  predicate IsOctet(s: string) {
    IsDigits(s) && DigitsToNat(s) <= 255
  }

  /** The non-empty parts, in their original order. */
  function NonEmpty(parts: seq<string>): (kept: seq<string>)
    ensures |kept| <= |parts|
    ensures forall i :: 0 <= i < |kept| ==> kept[i] != []
    decreases |parts|
  {
    if parts == [] then []
    else
      var init := NonEmpty(parts[..|parts| - 1]);
      if parts[|parts| - 1] == [] then init else init + [parts[|parts| - 1]]
  }

  /** Each part converted with `convert_spoken_number`. */
  function ConvertAll(parts: seq<string>): seq<string> {
    seq(|parts|, i requires 0 <= i < |parts| => Conversion(parts[i]))
  }

  /** What `process_ip_address` returns: the converted non-empty parts when every
      one of them is an octet, and the empty list as soon as one is not. */
  function ProcessedParts(parts: seq<string>): (processed: seq<string>)
    ensures |processed| <= |parts|
    ensures forall i :: 0 <= i < |processed| ==> IsOctet(processed[i])
  {
    var kept := NonEmpty(parts);
    if forall i :: 0 <= i < |kept| ==> IsOctet(Conversion(kept[i])) then ConvertAll(kept) else []
  }

  /** Every non-empty part is among the kept ones. */
  lemma {:induction false} NonEmptyContains(parts: seq<string>, i: int)
    requires 0 <= i < |parts| && parts[i] != []
    ensures parts[i] in NonEmpty(parts)
    decreases |parts|
  {
    var init := parts[..|parts| - 1];
    if i < |parts| - 1 {
      NonEmptyContains(init, i);
    }
  }

  /** Keeping the non-empty parts keeps all of them exactly when none is empty. */
  lemma {:induction false} NonEmptyAll(parts: seq<string>)
    ensures |NonEmpty(parts)| == |parts| <==> forall i :: 0 <= i < |parts| ==> parts[i] != []
    ensures (forall i :: 0 <= i < |parts| ==> parts[i] != []) ==> NonEmpty(parts) == parts
    decreases |parts|
  {
    if parts != [] {
      var init := parts[..|parts| - 1];
      NonEmptyAll(init);
      if parts[|parts| - 1] != [] {
        assert parts == init + [parts[|parts| - 1]];
      }
    }
  }

  /** Dropping the empty parts a second time changes nothing. */
  lemma {:induction false} NonEmptyIdempotent(parts: seq<string>)
    ensures NonEmpty(NonEmpty(parts)) == NonEmpty(parts)
  {
    NonEmptyAll(NonEmpty(parts));
  }

  /** Keeping the non-empty parts of one more part. */
  lemma NonEmptySnoc(parts: seq<string>, part: string)
    ensures NonEmpty(parts + [part]) == NonEmpty(parts) + (if part == [] then [] else [part])
  {
  }

  /** Converting one more part. */
  lemma ConvertAllSnoc(parts: seq<string>, part: string)
    ensures ConvertAll(parts + [part]) == ConvertAll(parts) + [Conversion(part)]
  {
  }

  /** `process_ip_address`: skip empty parts, convert the others, give up with the
      empty list at the first one that is not an octet. */
  method ProcessIpAddress(parts: seq<string>) returns (processed: seq<string>)
    ensures processed == ProcessedParts(parts)
  {
    processed := [];
    for i := 0 to |parts|
      invariant processed == ConvertAll(NonEmpty(parts[..i]))
      invariant forall j :: 0 <= j < |processed| ==> IsOctet(processed[j])
    {
      var part := parts[i];
      ghost var kept := NonEmpty(parts[..i]);
      assert parts[..i + 1] == parts[..i] + [part];
      NonEmptySnoc(parts[..i], part);
      if part == [] {
        assert NonEmpty(parts[..i + 1]) == kept;
        continue;
      }
      assert NonEmpty(parts[..i + 1]) == kept + [part];
      var converted := ConvertSpokenNumber(part);
      if IsDigits(converted) && DigitsToNat(converted) <= 255 {
        ConvertAllSnoc(kept, part);
        processed := processed + [converted];
        assert processed == ConvertAll(kept + [part]);
      } else {
        assert !IsOctet(Conversion(parts[i]));
        ProcessedPartsAllOrNothing(parts, i);
        return [];
      }
    }
    assert parts[..|parts|] == parts;
    AllOctetsProcessed(parts);
  }

  /** When every converted non-empty part is an octet, all of them are returned. */
  lemma AllOctetsProcessed(parts: seq<string>)
    requires forall j :: 0 <= j < |ConvertAll(NonEmpty(parts))| ==> IsOctet(ConvertAll(NonEmpty(parts))[j])
    ensures ProcessedParts(parts) == ConvertAll(NonEmpty(parts))
  {
    var kept := NonEmpty(parts);
    assert forall j :: 0 <= j < |kept| ==> Conversion(kept[j]) == ConvertAll(kept)[j];
  }

  /** Every kept part is one of the parts. */
  lemma {:induction false} NonEmptyFrom(parts: seq<string>)
    ensures forall k :: 0 <= k < |NonEmpty(parts)| ==> NonEmpty(parts)[k] in parts
    decreases |parts|
  {
    if parts != [] {
      var init := parts[..|parts| - 1];
      NonEmptyFrom(init);
      forall x | x in init ensures x in parts {
        var i :| 0 <= i < |init| && init[i] == x;
        assert parts[i] == x;
      }
    }
  }

  /** What `process_ip_address` promises of what it returns: every element is an
      octet (digits, value 0..255); a non-empty result holds the conversion of
      every non-empty part, in order; and when every non-empty part converts to
      an octet, all of those conversions are returned. */
  lemma ProcessedPartsMeaning(parts: seq<string>)
    ensures forall j :: 0 <= j < |ProcessedParts(parts)| ==>
      IsOctet(ProcessedParts(parts)[j]) && DigitsToNat(ProcessedParts(parts)[j]) <= 255
    ensures ProcessedParts(parts) != [] ==>
      && |ProcessedParts(parts)| == |NonEmpty(parts)|
      && forall j :: 0 <= j < |NonEmpty(parts)| ==> ProcessedParts(parts)[j] == Conversion(NonEmpty(parts)[j])
    ensures (forall i :: 0 <= i < |parts| && parts[i] != [] ==> IsOctet(Conversion(parts[i]))) ==>
      ProcessedParts(parts) == ConvertAll(NonEmpty(parts))
  {
    var kept := NonEmpty(parts);
    if forall i :: 0 <= i < |parts| && parts[i] != [] ==> IsOctet(Conversion(parts[i])) {
      NonEmptyFrom(parts);
      forall k | 0 <= k < |kept| ensures IsOctet(Conversion(kept[k])) {
        var i :| 0 <= i < |parts| && parts[i] == kept[k];
      }
    }
  }

  /** The result is all or nothing: one non-empty part that does not convert to an
      octet empties it. */
  lemma ProcessedPartsAllOrNothing(parts: seq<string>, i: int)
    requires 0 <= i < |parts| && parts[i] != [] && !IsOctet(Conversion(parts[i]))
    ensures ProcessedParts(parts) == []
  {
    var kept := NonEmpty(parts);
    NonEmptyContains(parts, i);
    var k :| 0 <= k < |kept| && kept[k] == parts[i];
    assert !IsOctet(Conversion(kept[k]));
  }

  /** Empty parts play no part in the result. */
  lemma ProcessedPartsSkipsEmpty(parts: seq<string>)
    ensures ProcessedParts(NonEmpty(parts)) == ProcessedParts(parts)
  {
    NonEmptyIdempotent(parts);
  }

  /** A part that the compressed-decimal rule reads as "67.6" fails the digit check,
      so the whole list is rejected. */
  lemma CompressedPartRejected(parts: seq<string>, i: int)
    requires 0 <= i < |parts| && !IsDigits(parts[i])
    requires CompressedDecimal(Tokens(parts[i])).Some?
    ensures ProcessedParts(parts) == []
  {
    ConversionIsDigitsIff(parts[i]);
    ProcessedPartsAllOrNothing(parts, i);
  }

  /** The pattern `^(\d{1,3}\.){3}\d{1,3}$` read left to right: `dots` separators
      seen so far, `run` digits in the current group. */
  function QuadScan(s: string, dots: nat, run: nat): (accepted: bool)
    ensures accepted && run <= 3 ==> |s| + run + 4 * dots <= 15
    ensures accepted ==> |s| + 2 * dots + (if run > 0 then 1 else 0) >= 7
    decreases |s|
  {
    if s == [] then dots == 3 && run >= 1
    else if IsDigitChar(s[0]) then run < 3 && QuadScan(s[1..], dots, run + 1)
    else if s[0] == '.' then run >= 1 && dots < 3 && QuadScan(s[1..], dots + 1, 0)
    else false
  }

  predicate MatchesQuadPattern(s: string) {
    QuadScan(s, 0, 0)
  }

  /** `validate_ip`: the pattern matches, and every "."-separated octet reads as an
      integer of at most 255 (a piece that does not read as an integer makes it false). */
  function ValidateIp(ip: string): (valid: bool)
    ensures valid ==> 7 <= |ip| <= 15
  {
    && MatchesQuadPattern(ip)
    && var octets := SplitOn(ip, '.');
       forall i :: 0 <= i < |octets| ==> AllDigitChars(octets[i]) && DigitsToNat(octets[i]) <= 255
  }

  /** One group of a dotted quad: one to three digits. */
  predicate IsDigitGroup(g: string) {
    1 <= |g| <= 3 && AllDigitChars(g)
  }

  /** One to three digits with a value of at most 255. */
  predicate IsOctetGroup(g: string) {
    IsDigitGroup(g) && DigitsToNat(g) <= 255
  }

  /** The textual IPv4 dotted-decimal form: four octet groups joined by ".". */
  ghost predicate IsDottedQuad(s: string) {
    exists groups: seq<string> ::
      && |groups| == 4
      && JoinOn(groups, ".") == s
      && forall i :: 0 <= i < 4 ==> IsOctetGroup(groups[i])
  }

  /** What the scan expects of the "."-pieces of the rest of the input: a digit
      run finishing the current group, then one complete group per missing
      separator. */
  predicate PiecesFitScan(g: seq<string>, dots: nat, run: nat) {
    && 0 < |g| == 4 - dots
    && AllDigitChars(g[0]) && 1 <= run + |g[0]| <= 3
    && forall i :: 1 <= i < |g| ==> IsDigitGroup(g[i])
  }

  /** The scan accepts exactly when the "."-pieces of the rest fit it. */
  lemma {:induction false} QuadScanPieces(s: string, dots: nat, run: nat)
    requires dots <= 3 && run <= 3
    ensures QuadScan(s, dots, run) <==> PiecesFitScan(SplitOn(s, '.'), dots, run)
    decreases |s|, 1
  {
    if s != [] {
      if IsDigitChar(s[0]) {
        QuadScanDigitStep(s, dots, run);
      } else if s[0] == '.' {
        QuadScanDotStep(s, dots, run);
      } else {
        assert SplitOn(s, '.')[0][0] == s[0];
      }
    }
  }

  /** A digit extends the first piece by one character. */
  lemma {:induction false} QuadScanDigitStep(s: string, dots: nat, run: nat)
    requires dots <= 3 && run <= 3 && s != [] && IsDigitChar(s[0])
    ensures QuadScan(s, dots, run) <==> PiecesFitScan(SplitOn(s, '.'), dots, run)
    decreases |s|, 0
  {
    var g := SplitOn(s, '.');
    var rest := SplitOn(s[1..], '.');
    if run < 3 {
      QuadScanPieces(s[1..], dots, run + 1);
    }
    var head := [s[0]] + rest[0];
    assert g == [head] + rest[1..];
    AllDigitCharsCons(s[0], rest[0]);
    assert forall i :: 1 <= i < |g| ==> g[i] == rest[i];
  }

  /** A separator closes the current group: the first piece is empty, and the
      pieces after it must fit the scan with one more separator seen. */
  lemma {:induction false} QuadScanDotStep(s: string, dots: nat, run: nat)
    requires dots <= 3 && run <= 3 && s != [] && s[0] == '.'
    ensures QuadScan(s, dots, run) <==> PiecesFitScan(SplitOn(s, '.'), dots, run)
    decreases |s|, 0
  {
    var g := SplitOn(s, '.');
    var rest := SplitOn(s[1..], '.');
    if dots < 3 {
      QuadScanPieces(s[1..], dots + 1, 0);
    }
    assert g == [[]] + rest;
    assert (forall i :: 1 <= i < |g| ==> IsDigitGroup(g[i])) <==>
           (forall i :: 0 <= i < |rest| ==> IsDigitGroup(rest[i])) by {
      assert forall i :: 1 <= i < |g| ==> g[i] == rest[i - 1];
      assert forall i :: 0 <= i < |rest| ==> rest[i] == g[i + 1];
    }
    if dots < 3 {
      assert PiecesFitScan(rest, dots + 1, 0) <==>
        |rest| == 3 - dots && forall i :: 0 <= i < |rest| ==> IsDigitGroup(rest[i]);
    }
  }

  /** `validate_ip` accepts exactly the dotted quads of octets. */
  lemma ValidateIpMeaning(ip: string)
    ensures ValidateIp(ip) <==> IsDottedQuad(ip)
  {
    var g := SplitOn(ip, '.');
    QuadScanPieces(ip, 0, 0);
    if ValidateIp(ip) {
      JoinSplit(ip, '.');
      assert forall i :: 0 <= i < 4 ==> IsOctetGroup(g[i]);
    }
    if IsDottedQuad(ip) {
      var groups: seq<string> :| |groups| == 4 && JoinOn(groups, ".") == ip
        && forall i :: 0 <= i < 4 ==> IsOctetGroup(groups[i]);
      DigitGroupsHaveNoDot(groups);
      SplitJoin(groups, '.');
    }
  }

  lemma DigitGroupsHaveNoDot(groups: seq<string>)
    requires forall i :: 0 <= i < |groups| ==> AllDigitChars(groups[i])
    ensures forall i :: 0 <= i < |groups| ==> '.' !in groups[i]
  {
  }

  /** `validate_ip` on four digit strings joined by ".": true exactly when each is
      an octet (value at most 255) of at most three digits. */
  lemma ValidateIpOfDigitGroups(groups: seq<string>)
    requires |groups| == 4 && forall i :: 0 <= i < 4 ==> IsDigits(groups[i])
    ensures ValidateIp(JoinOn(groups, ".")) <==>
      forall i :: 0 <= i < 4 ==> IsOctet(groups[i]) && |groups[i]| <= 3
  {
    var address := JoinOn(groups, ".");
    ValidateIpMeaning(address);
    DigitGroupsHaveNoDot(groups);
    if forall i :: 0 <= i < 4 ==> IsOctet(groups[i]) && |groups[i]| <= 3 {
      assert forall i :: 0 <= i < 4 ==> IsOctetGroup(groups[i]);
      assert IsDottedQuad(address);
    }
    if IsDottedQuad(address) {
      var other: seq<string> :| |other| == 4 && JoinOn(other, ".") == address
        && forall i :: 0 <= i < 4 ==> IsOctetGroup(other[i]);
      DigitGroupsHaveNoDot(other);
      SplitJoin(other, '.');
      SplitJoin(groups, '.');
      assert other == groups;
    }
  }

  /** Why the handler answers without scanning: no address could be assembled
      (app.py:165-174), or the assembled one fails `validate_ip` (app.py:177-186). */
  datatype Failure = NotUnderstood | NotValidIp

  /** The handler's verdict on the slots: the address handed to the scan command,
      or the reason there is none. */
  datatype Resolution = Valid(address: string) | Invalid(failure: Failure)

  /** The four octet slots, in the order the handler reads them. */
  const OctetSlotNames: seq<string> := ["firstOctet", "secondOctet", "thirdOctet", "fourthOctet"]

  /** A slot's spoken value; a missing slot or value reads as the empty string. */
  function SlotValue(slots: map<string, string>, name: string): string {
    if name in slots then slots[name] else ""
  }

  /** The four octet slots' values, in slot order. */
  function OctetSlotValues(slots: map<string, string>): (values: seq<string>)
    ensures |values| == 4
  {
    seq(4, i requires 0 <= i < 4 => SlotValue(slots, OctetSlotNames[i]))
  }

  /** The octet candidates of one utterance: " point " becomes ".", then split on ".". */
  function UtteranceParts(target: string): (parts: seq<string>)
    ensures |parts| >= 1 && forall i :: 0 <= i < |parts| ==> '.' !in parts[i]
  {
    SplitOn(Replace(target, " point ", "."), '.')
  }

  /** The single-utterance path (app.py:137-147): an address only when
      `process_ip_address` returns exactly four parts; splitting the address at
      "." gives those parts back. */
  function SingleUtteranceAddress(target: string): (address: Option<string>)
    ensures address.Some? ==> SplitOn(address.value, '.') == ProcessedParts(UtteranceParts(target))
  {
    var processed := ProcessedParts(UtteranceParts(target));
    if |processed| == 4 then
      ProcessedPartsMeaning(UtteranceParts(target));
      DigitGroupsHaveNoDot(processed);
      SplitJoin(processed, '.');
      Some(JoinOn(processed, "."))
    else None
  }

  /** The four-slot path (app.py:150-160): the non-empty slots converted with no
      range check, and an address only when all four were given. */
  function FourSlotAddress(slots: map<string, string>): (address: Option<string>)
    ensures address.Some? <==> NonEmpty(OctetSlotValues(slots)) == OctetSlotValues(slots)
  {
    var converted := ConvertAll(NonEmpty(OctetSlotValues(slots)));
    NonEmptyAll(OctetSlotValues(slots));
    if |converted| == 4 then Some(JoinOn(converted, ".")) else None
  }

  /** The handler's choice of path: the `target` slot when it holds a value,
      the octet slots otherwise. */
  function CandidateAddress(slots: map<string, string>): (address: Option<string>)
    ensures SlotValue(slots, "target") != [] && address.Some? ==>
      var groups := SplitOn(address.value, '.');
      |groups| == 4 && forall i :: 0 <= i < 4 ==> IsOctet(groups[i])
  {
    var target := SlotValue(slots, "target");
    if target != [] then SingleUtteranceAddress(target) else FourSlotAddress(slots)
  }

  /** The gate in front of the scan command (app.py:165-187). */
  function Resolve(slots: map<string, string>): (r: Resolution)
    ensures r.Valid? ==> CandidateAddress(slots) == Some(r.address) && ValidateIp(r.address)
    ensures r == Invalid(NotValidIp) ==> CandidateAddress(slots).Some? && !ValidateIp(CandidateAddress(slots).value)
  {
    match CandidateAddress(slots)
    case None => Invalid(NotUnderstood)
    case Some(address) =>
      if address == [] then Invalid(NotUnderstood)
      else if !ValidateIp(address) then Invalid(NotValidIp)
      else Valid(address)
  }

  /** The four-slot loop: read the slots in order, convert each non-empty one. */
  method ResolveFourSlots(slots: map<string, string>) returns (address: Option<string>)
    ensures address == FourSlotAddress(slots)
  {
    var processed: seq<string> := [];
    var values := OctetSlotValues(slots);
    for k := 0 to |OctetSlotNames|
      invariant processed == ConvertAll(NonEmpty(values[..k]))
    {
      var value := SlotValue(slots, OctetSlotNames[k]);
      assert values[..k + 1] == values[..k] + [value];
      NonEmptySnoc(values[..k], value);
      if value != [] {
        var converted := ConvertSpokenNumber(value);
        ConvertAllSnoc(NonEmpty(values[..k]), value);
        processed := processed + [converted];
      }
    }
    assert values[..4] == values;
    address := if |processed| == 4 then Some(JoinOn(processed, ".")) else None;
  }

  /** The `RunPenTestIntent` handler up to the scan command: pick a path, assemble
      an address, and let it through only if it is non-empty and `validate_ip` holds. */
  method ResolveTarget(slots: map<string, string>) returns (result: Resolution)
    ensures result == Resolve(slots)
  {
    var target := SlotValue(slots, "target");
    var address: Option<string>;
    if target != [] {
      var parts := UtteranceParts(target);
      var processed := ProcessIpAddress(parts);
      address := if |processed| == 4 then Some(JoinOn(processed, ".")) else None;
    } else {
      address := ResolveFourSlots(slots);
    }
    if address.None? || address.value == [] {
      return Invalid(NotUnderstood);
    }
    if !ValidateIp(address.value) {
      return Invalid(NotValidIp);
    }
    return Valid(address.value);
  }

  /** Exactly the candidates that are dotted quads of octets reach the scan command,
      whichever path built them; any other non-empty candidate is "not a valid IP". */
  lemma ResolveGate(slots: map<string, string>)
    ensures Resolve(slots).Valid? ==>
      && CandidateAddress(slots) == Some(Resolve(slots).address)
      && IsDottedQuad(Resolve(slots).address)
    ensures CandidateAddress(slots).None? ==> Resolve(slots) == Invalid(NotUnderstood)
    ensures Resolve(slots).Valid? <==>
      CandidateAddress(slots).Some? && IsDottedQuad(CandidateAddress(slots).value)
    ensures Resolve(slots) == Invalid(NotValidIp) <==>
      && CandidateAddress(slots).Some?
      && CandidateAddress(slots).value != []
      && !IsDottedQuad(CandidateAddress(slots).value)
  {
    if CandidateAddress(slots).Some? {
      ValidateIpMeaning(CandidateAddress(slots).value);
    }
  }

  /** The single-utterance path yields the "."-join of four octets, and
      `validate_ip` accepts it exactly when each octet has at most three characters. */
  lemma SingleUtteranceMeaning(target: string)
    ensures SingleUtteranceAddress(target).Some? <==> |ProcessedParts(UtteranceParts(target))| == 4
    ensures SingleUtteranceAddress(target).Some? ==>
      var octets := ProcessedParts(UtteranceParts(target));
      && SingleUtteranceAddress(target).value == JoinOn(octets, ".")
      && (forall i :: 0 <= i < 4 ==> IsOctet(octets[i]))
      && (ValidateIp(SingleUtteranceAddress(target).value) <==> forall i :: 0 <= i < 4 ==> |octets[i]| <= 3)
  {
    var octets := ProcessedParts(UtteranceParts(target));
    ProcessedPartsMeaning(UtteranceParts(target));
    if |octets| == 4 {
      ValidateIpOfDigitGroups(octets);
    }
  }

  /** A single utterance is refused by `validate_ip` only because one of its parts
      was already a digit string of more than three characters (such as "0012"):
      a converted phrase within 0..255 is never longer than three digits. */
  lemma SingleUtteranceRejectedOnlyForLongDigits(target: string)
    requires SingleUtteranceAddress(target).Some?
    requires !ValidateIp(SingleUtteranceAddress(target).value)
    ensures exists i ::
              && 0 <= i < |NonEmpty(UtteranceParts(target))|
              && IsDigits(NonEmpty(UtteranceParts(target))[i])
              && |NonEmpty(UtteranceParts(target))[i]| > 3
  {
    var parts := UtteranceParts(target);
    var kept := NonEmpty(parts);
    var octets := ProcessedParts(parts);
    SingleUtteranceMeaning(target);
    ProcessedPartsMeaning(parts);
    var i :| 0 <= i < 4 && |octets[i]| > 3;
    assert octets[i] == Conversion(kept[i]);
    if !IsDigits(kept[i]) {
      ConversionCanonical(kept[i]);
      assert false;
    }
  }

  /** The four-slot path assembles an address exactly when all four slots hold a
      value, and that address is the "."-join of the four conversions, unchecked. */
  lemma FourSlotMeaning(slots: map<string, string>)
    ensures FourSlotAddress(slots).Some? <==> forall i :: 0 <= i < 4 ==> OctetSlotValues(slots)[i] != []
    ensures FourSlotAddress(slots).Some? ==>
      var v := OctetSlotValues(slots);
      FourSlotAddress(slots).value ==
        JoinOn([Conversion(v[0]), Conversion(v[1]), Conversion(v[2]), Conversion(v[3])], ".")
  {
    var v := OctetSlotValues(slots);
    NonEmptyAll(v);
    if FourSlotAddress(slots).Some? {
      assert ConvertAll(v) == [Conversion(v[0]), Conversion(v[1]), Conversion(v[2]), Conversion(v[3])];
    }
  }

  /** Four filled octet slots assemble the "."-join of their conversions, in slot order. */
  lemma FourSlotsAssembled(slots: map<string, string>, converted: seq<string>)
    requires |converted| == 4
    requires forall i :: 0 <= i < 4 ==> OctetSlotNames[i] in slots && slots[OctetSlotNames[i]] != []
    requires forall i :: 0 <= i < 4 ==> Conversion(slots[OctetSlotNames[i]]) == converted[i]
    ensures FourSlotAddress(slots) == Some(JoinOn(converted, "."))
  {
    var v := OctetSlotValues(slots);
    forall i | 0 <= i < 4 ensures v[i] != [] && Conversion(v[i]) == converted[i] {
      assert v[i] == slots[OctetSlotNames[i]];
    }
    FilledPartsConverted(v, converted);
  }

  /** Parts that are all non-empty are all converted, in order. */
  lemma FilledPartsConverted(parts: seq<string>, converted: seq<string>)
    requires |parts| == |converted|
    requires forall i :: 0 <= i < |parts| ==> parts[i] != [] && Conversion(parts[i]) == converted[i]
    ensures ConvertAll(NonEmpty(parts)) == converted
  {
    NonEmptyAll(parts);
  }

  /** With an empty or missing `target` slot and four octet slots that convert to
      digit strings, the handler lets the "."-join through exactly when each is an
      octet of at most three digits. */
  lemma FourDigitSlotsResolve(slots: map<string, string>, converted: seq<string>)
    requires SlotValue(slots, "target") == "" && |converted| == 4
    requires forall i :: 0 <= i < 4 ==> OctetSlotNames[i] in slots && slots[OctetSlotNames[i]] != []
    requires forall i :: 0 <= i < 4 ==> Conversion(slots[OctetSlotNames[i]]) == converted[i]
    requires forall i :: 0 <= i < 4 ==> IsDigits(converted[i])
    ensures FourSlotAddress(slots) == Some(JoinOn(converted, "."))
    ensures Resolve(slots) ==
      if forall i :: 0 <= i < 4 ==> IsOctet(converted[i]) && |converted[i]| <= 3
      then Valid(JoinOn(converted, ".")) else Invalid(NotValidIp)
  {
    var address := JoinOn(converted, ".");
    FourSlotsAssembled(slots, converted);
    assert CandidateAddress(slots) == Some(address);
    ValidateIpOfDigitGroups(converted);
    assert |address| > 0 by {
      assert address == converted[0] + ['.'] + JoinOn(converted[1..], ".");
    }
  }

  /** The four octet slots, and no `target`, given as digit strings: the handler
      lets their "."-join through exactly when each is an octet of at most three
      digits. */
  lemma DigitSlotsResolve(slots: map<string, string>, octets: seq<string>)
    requires |octets| == 4 && forall i :: 0 <= i < 4 ==> IsDigits(octets[i])
    requires slots == map[OctetSlotNames[0] := octets[0], OctetSlotNames[1] := octets[1],
                          OctetSlotNames[2] := octets[2], OctetSlotNames[3] := octets[3]]
    ensures FourSlotAddress(slots) == Some(JoinOn(octets, "."))
    ensures Resolve(slots) ==
      if forall i :: 0 <= i < 4 ==> IsOctet(octets[i]) && |octets[i]| <= 3
      then Valid(JoinOn(octets, ".")) else Invalid(NotValidIp)
  {
    assert "target" !in slots;
    forall i | 0 <= i < 4 ensures OctetSlotNames[i] in slots && slots[OctetSlotNames[i]] == octets[i] {
    }
    FourDigitSlotsResolve(slots, octets);
  }

  /** The four-slot path converts "300" with no range check and assembles
      "300.1.1.1"; only `validate_ip` stops it. */
  lemma FourSlotExampleOutOfRange(slots: map<string, string>, octets: seq<string>)
    requires slots == map["firstOctet" := "300", "secondOctet" := "1", "thirdOctet" := "1", "fourthOctet" := "1"]
    requires octets == ["300", "1", "1", "1"]
    ensures FourSlotAddress(slots) == Some("300.1.1.1")
    ensures Resolve(slots) == Invalid(NotValidIp)
  {
    assert IsDigits(octets[0]) && IsDigits(octets[1]);
    assert !IsOctet(octets[0]) by {
      NatToStringRoundTrip(300);
      assert NatToString(300) == "300";
    }
    assert JoinOn(["300", "1", "1", "1"], ".") == "300.1.1.1";
    DigitSlotsResolve(slots, octets);
  }

  /** A `target` slot holding four octet digit strings joined by ".": the
      single-utterance path returns it as it is, and the handler lets it through
      exactly when each group has at most three digits. */
  lemma DottedTargetResolves(slots: map<string, string>, target: string, pieces: seq<string>)
    requires |pieces| == 4 && target == JoinOn(pieces, ".") && slots == map["target" := target]
    requires forall i :: 0 <= i < 4 ==> IsOctet(pieces[i])
    ensures SingleUtteranceAddress(target) == Some(target)
    ensures Resolve(slots) ==
      if forall i :: 0 <= i < 4 ==> |pieces[i]| <= 3 then Valid(target) else Invalid(NotValidIp)
  {
    DottedDigits(target, pieces);
    OctetPartsProcessed(pieces);
    ValidateIpOfDigitGroups(pieces);
    assert |target| > 0 by {
      assert target == pieces[0] + ['.'] + JoinOn(pieces[1..], ".");
    }
  }

  /** A single utterance whose first part is the digit string "0012": the fast path
      keeps it as it is, `int` reads 12, so `process_ip_address` accepts it, and only
      `validate_ip` refuses the four-character group. */
  lemma SingleUtteranceExampleLeadingZeros(slots: map<string, string>, target: string, pieces: seq<string>)
    requires target == "0012.1.1.1" && slots == map["target" := target]
    requires pieces == ["0012", "1", "1", "1"]
    ensures SingleUtteranceAddress(target) == Some(target)
    ensures Resolve(slots) == Invalid(NotValidIp)
  {
    assert JoinOn(["0012", "1", "1", "1"], ".") == "0012.1.1.1";
    assert IsOctet(pieces[0]) by {
      assert DigitsToNat("0012") == 12 by {
        assert "0012"[..3] == "001" && "001"[..2] == "00" && "00"[..1] == "0" && "0"[..0] == "";
      }
    }
    assert IsOctet(pieces[1]) by { NatToStringRoundTrip(1); }
    DottedTargetResolves(slots, target, pieces);
  }

  /** "300.1.1.1" in the `target` slot: `process_ip_address` already refuses "300",
      so the single-utterance path assembles no address at all. */
  lemma SingleUtteranceExampleOutOfRange(slots: map<string, string>, target: string, pieces: seq<string>)
    requires target == "300.1.1.1" && slots == map["target" := target]
    requires pieces == ["300", "1", "1", "1"]
    ensures SingleUtteranceAddress(target).None?
    ensures Resolve(slots) == Invalid(NotUnderstood)
  {
    assert JoinOn(["300", "1", "1", "1"], ".") == "300.1.1.1";
    assert IsDigits(pieces[0]) && IsDigits(pieces[1]);
    DottedDigits(target, pieces);
    assert !IsOctet(Conversion(pieces[0])) by {
      NatToStringRoundTrip(300);
      assert NatToString(300) == "300";
    }
    ProcessedPartsAllOrNothing(pieces, 0);
  }

  /** A single utterance already in dotted form passes through unchanged. */
  lemma SingleUtteranceExampleDotted(slots: map<string, string>, target: string, pieces: seq<string>)
    requires target == "192.168.0.1" && slots == map["target" := target]
    requires pieces == ["192", "168", "0", "1"]
    ensures Resolve(slots) == Valid(target)
  {
    assert JoinOn(["192", "168", "0", "1"], ".") == "192.168.0.1";
    assert IsOctet(pieces[0]) by {
      assert "192"[..2] == "19" && "19"[..1] == "1" && "1"[..0] == "";
    }
    assert IsOctet(pieces[1]) by {
      assert "168"[..2] == "16" && "16"[..1] == "1" && "1"[..0] == "";
    }
    assert IsOctet(pieces[2]) by { NatToStringRoundTrip(0); }
    assert IsOctet(pieces[3]) by { NatToStringRoundTrip(1); }
    DottedTargetResolves(slots, target, pieces);
  }

  /** A piece with no "p" followed by " point ": the replacement scans past the
      piece and turns that separator into ".". */
  lemma {:induction false} ReplacePointAfter(w: string, t: string)
    requires 'p' !in w
    ensures Replace(w + " point " + t, " point ", ".") == w + "." + Replace(t, " point ", ".")
    decreases |w|
  {
    var s := w + " point " + t;
    if w == [] {
      assert s == " point " + t;
      assert s[..7] == " point " && s[7..] == t;
    } else {
      assert s[..7][1] == s[1];
      if |w| >= 2 {
        assert s[1] == w[1];
      } else {
        assert s[1] == ' ';
      }
      assert s[1..] == w[1..] + " point " + t;
      ReplacePointAfter(w[1..], t);
      assert [w[0]] + (w[1..] + "." + Replace(t, " point ", ".")) == w + "." + Replace(t, " point ", ".");
    }
  }

  /** A piece with no "p" holds no " point " to replace. */
  lemma ReplacePointAbsent(w: string)
    requires 'p' !in w
    ensures Replace(w, " point ", ".") == w
  {
    forall k ensures !OccursAt(w, " point ", k) {
      if 0 <= k && k + 7 <= |w| {
        assert w[k..k + 7][1] == w[k + 1];
      }
    }
    ReplaceAbsent(w, " point ", ".");
  }

  /** Spoken octets joined by " point " become the same octets joined by ".",
      as long as no octet holds a "p" (no number word does). */
  lemma {:induction false} ReplacePointJoin(words: seq<string>)
    requires forall i :: 0 <= i < |words| ==> 'p' !in words[i]
    ensures Replace(JoinOn(words, " point "), " point ", ".") == JoinOn(words, ".")
    decreases |words|
  {
    if |words| == 1 {
      ReplacePointAbsent(words[0]);
    } else if |words| > 1 {
      ReplacePointJoin(words[1..]);
      ReplacePointAfter(words[0], JoinOn(words[1..], " point "));
    }
  }

  /** An utterance of spoken octets with " point " between them splits into those
      spoken octets, when none holds a "p" or a ".". */
  lemma SpokenUtteranceParts(target: string, words: seq<string>)
    requires |words| >= 1 && target == JoinOn(words, " point ")
    requires forall i :: 0 <= i < |words| ==> 'p' !in words[i] && '.' !in words[i]
    ensures UtteranceParts(target) == words
  {
    ReplacePointJoin(words);
    SplitJoin(words, '.');
  }

  /** A spoken octet with no "p" and no "." in it that converts to an octet of at
      most three digits. */
  predicate SpokenOctet(word: string, octet: string) {
    word != [] && 'p' !in word && '.' !in word && Conversion(word) == octet && IsOctet(octet) && |octet| <= 3
  }

  /** Non-empty parts that each convert to an octet are processed into those octets. */
  lemma SpokenOctetsProcessed(words: seq<string>, octets: seq<string>)
    requires |words| == |octets|
    requires forall i :: 0 <= i < |words| ==> words[i] != [] && Conversion(words[i]) == octets[i] && IsOctet(octets[i])
    ensures ProcessedParts(words) == octets
  {
    NonEmptyAll(words);
    assert ConvertAll(words) == octets;
    AllOctetsProcessed(words);
  }

  /** An utterance of spoken octets joined by " point " gives the "."-join of their
      conversions when there are four of them, and no address otherwise. */
  lemma SpokenTargetAddress(target: string, words: seq<string>, octets: seq<string>)
    requires |words| >= 1 && |words| == |octets|
    requires forall i :: 0 <= i < |words| ==> SpokenOctet(words[i], octets[i])
    requires target == JoinOn(words, " point ")
    ensures SingleUtteranceAddress(target) == if |words| == 4 then Some(JoinOn(octets, ".")) else None
  {
    SpokenUtteranceParts(target, words);
    SpokenOctetsProcessed(words, octets);
  }

  /** A `target` slot of four spoken octets joined by " point ": when each converts
      to an octet of at most three digits, the handler lets their "."-join through. */
  lemma SpokenTargetResolves(slots: map<string, string>, target: string, words: seq<string>, octets: seq<string>)
    requires |words| == 4 && |octets| == 4
    requires forall i :: 0 <= i < 4 ==> SpokenOctet(words[i], octets[i])
    requires target == JoinOn(words, " point ") && slots == map["target" := target]
    ensures SingleUtteranceAddress(target) == Some(JoinOn(octets, "."))
    ensures Resolve(slots) == Valid(JoinOn(octets, "."))
  {
    SpokenTargetAddress(target, words, octets);
    ValidateIpOfDigitGroups(octets);
    assert octets[0] <= JoinOn(octets, ".");
  }

  /** Four spoken octets, one index at a time. This helper only moves the
      quantifier out of the example lemmas, whose literals make it costly to
      prove there. */
  lemma FourSpokenOctets(words: seq<string>, octets: seq<string>)
    requires |words| == 4 && |octets| == 4
    requires SpokenOctet(words[0], octets[0]) && SpokenOctet(words[1], octets[1])
    requires SpokenOctet(words[2], octets[2]) && SpokenOctet(words[3], octets[3])
    ensures forall i :: 0 <= i < 4 ==> SpokenOctet(words[i], octets[i])
  {
    forall i | 0 <= i < 4 ensures SpokenOctet(words[i], octets[i]) {
      assert i == 0 || i == 1 || i == 2 || i == 3;
    }
  }

  // The example lemmas below name their phrases through a `requires` rather than as
  // literal arguments: on a literal argument the verifier evaluates the whole
  // conversion eagerly and runs out of resources.

  /** "one nine two" is a spoken octet worth 12. */
  lemma SpokenOctetOneNineTwo(word: string, octet: string)
    requires word == "one nine two" && octet == "12"
    ensures SpokenOctet(word, octet)
  {
    ConversionExampleDigitWords(word);
    assert IsOctet(octet) by { assert "12"[..1] == "1" && "1"[..0] == ""; }
  }

  /** "one six eight" is a spoken octet worth 15. */
  lemma SpokenOctetOneSixEight(word: string, octet: string)
    requires word == "one six eight" && octet == "15"
    ensures SpokenOctet(word, octet)
  {
    ConversionExampleOneSixEight(word);
    assert IsOctet(octet) by { assert "15"[..1] == "1" && "1"[..0] == ""; }
  }

  /** "zero" and "one" are spoken octets worth their own digit. */
  lemma SpokenOctetSingleWord(word: string, octet: string, n: nat)
    requires (word == "zero" && n == 0) || (word == "one" && n == 1)
    requires octet == NatToString(n)
    ensures SpokenOctet(word, octet)
  {
    SingleWordConversion(word);
    NatToStringRoundTrip(n);
  }

  /** The example's octets, joined by ".". Kept apart so that the example lemma
      does not evaluate the join beside its other literals. */
  lemma DottedExampleAddress()
    ensures JoinOn(["12", "15", "0", "1"], ".") == "12.15.0.1"
  {
  }

  /** "one nine two point one six eight point zero point one": the words of each
      octet are summed, not read as digits, so the handler accepts 12.15.0.1. */
  lemma SpokenTargetExample(slots: map<string, string>, target: string, words: seq<string>, octets: seq<string>)
    requires |words| == 4
    requires words[0] == "one nine two" && words[1] == "one six eight" && words[2] == "zero" && words[3] == "one"
    requires target == JoinOn(words, " point ") && slots == map["target" := target]
    requires octets == ["12", "15", "0", "1"]
    ensures Resolve(slots) == Valid("12.15.0.1")
  {
    SpokenOctetOneNineTwo(words[0], octets[0]);
    SpokenOctetOneSixEight(words[1], octets[1]);
    assert NatToString(0) == "0" && NatToString(1) == "1";
    SpokenOctetSingleWord(words[2], octets[2], 0);
    SpokenOctetSingleWord(words[3], octets[3], 1);
    FourSpokenOctets(words, octets);
    SpokenTargetResolves(slots, target, words, octets);
    DottedExampleAddress();
  }

  /** A plain word outside the table is a spoken octet worth 0: nothing in it is
      recognised, so it converts to "0". */
  lemma UnrecognisedWordIsZeroOctet(word: string)
    requires PlainWord(word) && word !in NumberWords
    ensures SpokenOctet(word, "0")
  {
    assert JoinOn([word], " ") == word;
    TokensOfPhrase(word, [word]);
    assert !IsDigits(word) by { assert word[0] != '.' && !IsDigitChar(word[0]); }
    NothingRecognisedIsZero(word);
    NatToStringRoundTrip(0);
    assert NatToString(0) == "0";
  }

  /** "hello" is a spoken octet worth 0. */
  lemma SpokenOctetHello(word: string, octet: string)
    requires word == "hello" && octet == "0"
    ensures SpokenOctet(word, octet)
  {
    UnrecognisedWordIsZeroOctet(word);
  }

  /** The example's all-zero address, joined by ".". Kept apart for the same
      reason as `DottedExampleAddress`. */
  lemma DottedZeroAddress()
    ensures JoinOn(["0", "0", "0", "0"], ".") == "0.0.0.0"
  {
  }

  /** "hello point hello point hello point hello": every part converts to "0", so
      the handler lets 0.0.0.0 through to the scan command. */
  lemma SpokenTargetExampleUnrecognised(slots: map<string, string>, target: string, words: seq<string>, octets: seq<string>)
    requires |words| == 4
    requires words[0] == "hello" && words[1] == "hello" && words[2] == "hello" && words[3] == "hello"
    requires target == JoinOn(words, " point ") && slots == map["target" := target]
    requires octets == ["0", "0", "0", "0"]
    ensures Resolve(slots) == Valid("0.0.0.0")
  {
    SpokenOctetHello(words[0], octets[0]);
    SpokenOctetHello(words[1], octets[1]);
    SpokenOctetHello(words[2], octets[2]);
    SpokenOctetHello(words[3], octets[3]);
    FourSpokenOctets(words, octets);
    SpokenTargetResolves(slots, target, words, octets);
    DottedZeroAddress();
  }

  /** The single-utterance parts of a "."-join of digit strings are those strings. */
  lemma DottedDigits(target: string, pieces: seq<string>)
    requires |pieces| >= 1 && target == JoinOn(pieces, ".")
    requires forall i :: 0 <= i < |pieces| ==> IsDigits(pieces[i])
    ensures UtteranceParts(target) == pieces
  {
    DigitGroupsHaveNoDot(pieces);
    JoinDigitsHasNoSpace(pieces);
    NoSpaceNoOccurrence(target);
    ReplaceAbsent(target, " point ", ".");
    SplitJoin(pieces, '.');
  }

  /** `process_ip_address` returns a list of non-empty octet digit strings as it is. */
  lemma OctetPartsProcessed(pieces: seq<string>)
    requires forall i :: 0 <= i < |pieces| ==> IsOctet(pieces[i])
    ensures ProcessedParts(pieces) == pieces
  {
    NonEmptyAll(pieces);
    assert forall i :: 0 <= i < |pieces| ==> Conversion(pieces[i]) == pieces[i];
    AllOctetsProcessed(pieces);
    assert ConvertAll(pieces) == pieces;
  }

  /** " point " cannot occur in a string without spaces. */
  lemma NoSpaceNoOccurrence(s: string)
    requires forall k :: 0 <= k < |s| ==> s[k] != ' '
    ensures forall k :: !OccursAt(s, " point ", k)
  {
    forall k ensures !OccursAt(s, " point ", k) {
      if 0 <= k && k + 7 <= |s| {
        assert s[k..k + 7][0] == s[k];
      }
    }
  }

  /** A "."-join of digit strings holds no space. */
  lemma {:induction false} JoinDigitsHasNoSpace(pieces: seq<string>)
    requires forall i :: 0 <= i < |pieces| ==> IsDigits(pieces[i])
    ensures forall k :: 0 <= k < |JoinOn(pieces, ".")| ==> JoinOn(pieces, ".")[k] != ' '
    decreases |pieces|
  {
    if |pieces| > 1 {
      JoinDigitsHasNoSpace(pieces[1..]);
      var head, tail := pieces[0], JoinOn(pieces[1..], ".");
      assert JoinOn(pieces, ".") == head + ['.'] + tail;
      forall k | 0 <= k < |head + ['.'] + tail| ensures (head + ['.'] + tail)[k] != ' ' {
        if k < |head| {
          assert IsDigitChar(head[k]);
        } else if k > |head| {
          assert (head + ['.'] + tail)[k] == tail[k - |head| - 1];
        }
      }
    } else if |pieces| == 1 {
      assert forall k :: 0 <= k < |pieces[0]| ==> IsDigitChar(pieces[0][k]);
    }
  }
}
