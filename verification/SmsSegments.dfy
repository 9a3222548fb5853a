/**
 * The SMS length estimate of apps/web/lib/sms-segments.ts, compared with the ways in which a text can
 * really be cut into parts (3GPP TS 23.038, sections 6.2.1 and 6.2.3). A text is a sequence of code
 * points, as Array.from yields them.
 */
module SmsSegments {

  // The eight rows of the basic table; the escape character itself is one of its entries.
  const ROW_0 := "@£$¥èéùìòÇ\nØø\rÅå"
  const ROW_1 := "Δ_ΦΓΛΩΠΨΣΘΞ\U{1B}ÆæßÉ"
  const ROW_2 := " !\"#¤%&'()*+,-./"
  const ROW_3 := "0123456789:;<=>?"
  const ROW_4 := "¡ABCDEFGHIJKLMNO"
  const ROW_5 := "PQRSTUVWXYZÄÖÑÜ§"
  const ROW_6 := "¿abcdefghijklmno"
  const ROW_7 := "pqrstuvwxyzäöñüà"

  const BASIC := ROW_0 + ROW_1 + ROW_2 + ROW_3 + ROW_4 + ROW_5 + ROW_6 + ROW_7
  const EXTENDED := "^{}\\[~]|€"

  const GSM_SINGLE := 160
  const GSM_PART := 153
  const UCS2_SINGLE := 70
  const UCS2_PART := 67

  datatype Encoding = Gsm7 | Ucs2

  datatype Estimate = Estimate(segments: nat, encoding: Encoding, singleSegmentLimit: nat)

  predicate IsGsm(c: char) {
    c in BASIC || c in EXTENDED
  }

  predicate IsGsmText(text: string) {
    forall i :: 0 <= i < |text| ==> IsGsm(text[i])
  }

  /** Extended-table characters need an escape septet, characters outside the basic plane a surrogate pair. */
  function Cost(e: Encoding, c: char): nat {
    if (e.Gsm7? && c in EXTENDED) || (e.Ucs2? && c as int >= 0x1_0000) then 2 else 1
  }

  /** The room in one part of a longer message. */
  function Part(e: Encoding): nat {
    if e.Gsm7? then GSM_PART else UCS2_PART
  }

  /** The septets of a text in GSM-7, or its 16-bit units in UCS-2. */
  function Length(e: Encoding, text: string): nat {
    if text == [] then 0 else Cost(e, text[0]) + Length(e, text[1..])
  }

  function CeilDiv(n: nat, d: nat): nat
    requires d > 0
  {
    (n + d - 1) / d
  }

  function SegmentsFor(length: nat, single: nat, part: nat): nat
    requires part > 0
  {
    if length <= single then 1 else CeilDiv(length, part)
  }

  function EstimateSegments(text: string): Estimate {
    if text == [] then Estimate(0, Gsm7, GSM_SINGLE)
    else if IsGsmText(text) then Estimate(SegmentsFor(Length(Gsm7, text), GSM_SINGLE, GSM_PART), Gsm7, GSM_SINGLE)
    else Estimate(SegmentsFor(|text|, UCS2_SINGLE, UCS2_PART), Ucs2, UCS2_SINGLE)
  }

  // ---- Arithmetic ----

  /** Rounded-up division is the least number of parts that is large enough. */
  lemma CeilDivIsLeast(n: nat, d: nat, k: nat)
    requires d > 0
    ensures CeilDiv(n, d) <= k <==> n <= k * d
  {
    var q := CeilDiv(n, d);
    assert q * d <= n + d - 1 < (q + 1) * d;
    if q <= k {
      assert (k - q) * d >= 0;
      assert k * d == q * d + (k - q) * d;
    } else {
      assert (q - 1 - k) * d >= 0;
      assert (q - 1) * d == k * d + (q - 1 - k) * d;
      assert (q - 1) * d == q * d - d;
    }
  }

  lemma {:induction false} LengthConcat(e: Encoding, a: string, b: string)
    ensures Length(e, a + b) == Length(e, a) + Length(e, b)
  {
    hide Cost;
    if a == [] {
      assert a + b == b;
    } else {
      assert (a + b)[1..] == a[1..] + b;
      LengthConcat(e, a[1..], b);
    }
  }

  lemma {:induction false} LengthBounds(e: Encoding, text: string)
    ensures |text| <= Length(e, text) <= 2 * |text|
  {
    if text != [] {
      LengthBounds(e, text[1..]);
    }
  }

  // ---- One message, and the alphabet ----

  const MESSAGE_OCTETS := 140
  const PART_HEADER_OCTETS := 6

  /** Bits in a septet or in a 16-bit unit. */
  function Bits(e: Encoding): nat {
    if e.Gsm7? then 7 else 16
  }

  /** What the estimate counts: septets, or code points. */
  function Counted(text: string): nat {
    if IsGsmText(text) then Length(Gsm7, text) else |text|
  }

  /**
   * The estimate in terms of the 140 octets of one message: it is GSM-7 exactly for texts of the two tables;
   * the limit is what fits one message exactly; a part is the most that fits beside a header of six octets;
   * and there is no segment for no text, one up to the limit, and more beyond it.
   */
  lemma EstimateFitsMessages(text: string)
    ensures var estimate := EstimateSegments(text);
      && (estimate.encoding == Gsm7 <==> forall i :: 0 <= i < |text| ==> text[i] in BASIC || text[i] in EXTENDED)
      && estimate.singleSegmentLimit * Bits(estimate.encoding) == MESSAGE_OCTETS * 8
      && (estimate.segments == 0 <==> text == "")
      && (estimate.segments <= 1 <==> Counted(text) <= estimate.singleSegmentLimit)
  {
    if text != [] && !IsGsmText(text) { SegmentsBeyondLimit(|text|, UCS2_SINGLE, UCS2_PART); }
    if text != [] && IsGsmText(text) { SegmentsBeyondLimit(Length(Gsm7, text), GSM_SINGLE, GSM_PART); }
    hide Length, SegmentsFor;
    assert text == [] ==> Length(Gsm7, text) == 0 by { EmptyLength(); }
  }

  lemma EmptyLength()
    ensures Length(Gsm7, []) == 0
  {
  }

  lemma SegmentsBeyondLimit(length: nat, single: nat, part: nat)
    requires 0 < part <= single
    ensures SegmentsFor(length, single, part) >= 1
    ensures SegmentsFor(length, single, part) <= 1 <==> length <= single
  {
    if length > single { CeilDivIsLeast(length, part, 1); }
  }

  /** A part is the most that fits a message beside its header. */
  lemma PartsFitBesideHeader(e: Encoding)
    ensures Part(e) * Bits(e) <= (MESSAGE_OCTETS - PART_HEADER_OCTETS) * 8 < (Part(e) + 1) * Bits(e)
  {
  }

  lemma RowLengths()
    ensures |ROW_0| == |ROW_1| == |ROW_2| == |ROW_3| == 16
    ensures |ROW_4| == |ROW_5| == |ROW_6| == |ROW_7| == 16
  {
  }

  lemma EightRows(r0: string, r1: string, r2: string, r3: string, r4: string, r5: string, r6: string, r7: string,
                  column: nat)
    requires |r0| == |r1| == |r2| == |r3| == |r4| == |r5| == |r6| == |r7| == 16 && column < 16
    ensures var all := r0 + r1 + r2 + r3 + r4 + r5 + r6 + r7;
      && |all| == 128
      && all[16 + column] == r1[column] && all[32 + column] == r2[column] && all[48 + column] == r3[column]
      && all[64 + column] == r4[column] && all[80 + column] == r5[column] && all[96 + column] == r6[column]
      && all[112 + column] == r7[column]
  {
  }

  lemma UpperRows(column: nat)
    requires column < 16
    ensures |ROW_4| == |ROW_5| == 16
    ensures 1 <= column ==> ROW_4[column] == (64 + column) as char
    ensures column <= 10 ==> ROW_5[column] == (80 + column) as char
  {
  }

  lemma LowerRows(column: nat)
    requires column < 16
    ensures |ROW_6| == |ROW_7| == 16
    ensures 1 <= column ==> ROW_6[column] == (96 + column) as char
    ensures column <= 10 ==> ROW_7[column] == (112 + column) as char
  {
  }

  lemma DigitRow(column: nat)
    requires column <= 9
    ensures |ROW_3| == |ROW_2| == 16 && ROW_3[column] == (48 + column) as char && ROW_2[0] == ' '
  {
  }

  lemma BasicRows(column: nat)
    requires column < 16
    ensures |ROW_1| == |ROW_3| == |ROW_4| == |ROW_5| == |ROW_6| == |ROW_7| == 16 && |BASIC| == 128
    ensures BASIC[16 + column] == ROW_1[column] && BASIC[48 + column] == ROW_3[column]
    ensures BASIC[64 + column] == ROW_4[column] && BASIC[80 + column] == ROW_5[column]
    ensures BASIC[96 + column] == ROW_6[column] && BASIC[112 + column] == ROW_7[column]
  {
    RowLengths();
    EightRows(ROW_0, ROW_1, ROW_2, ROW_3, ROW_4, ROW_5, ROW_6, ROW_7, column);
  }

  lemma EscapeEntry()
    ensures |BASIC| == 128 && BASIC[27] == '\U{1B}'
  {
    BasicRows(11);
  }

  lemma DigitEntry(code: nat)
    requires 48 <= code <= 57
    ensures |BASIC| == 128 && BASIC[code] == code as char
  {
    BasicRows(code - 48);
    DigitRow(code - 48);
  }

  lemma UpperEntry(code: nat)
    requires 65 <= code <= 90
    ensures |BASIC| == 128 && BASIC[code] == code as char
  {
    var column := if code < 80 then code - 64 else code - 80;
    BasicRows(column);
    UpperRows(column);
  }

  lemma LowerEntry(code: nat)
    requires 97 <= code <= 122
    ensures |BASIC| == 128 && BASIC[code] == code as char
  {
    var column := if code < 112 then code - 96 else code - 112;
    BasicRows(column);
    LowerRows(column);
  }

  /**
   * The basic table has one entry for each of the 128 septet values; the letters A to Z and a to z and the
   * digits stand where ASCII has them, and the escape that introduces the extended table at 27.
   */
  lemma BasicTableIsSevenBit(code: nat)
    ensures |BASIC| == 128 && BASIC[27] == '\U{1B}'
    ensures 'A' as int <= code <= 'Z' as int ==> BASIC[code] == code as char
    ensures 'a' as int <= code <= 'z' as int ==> BASIC[code] == code as char
    ensures '0' as int <= code <= '9' as int ==> BASIC[code] == code as char
  {
    EscapeEntry();
    if 48 <= code <= 57 { DigitEntry(code); }
    if 65 <= code <= 90 { UpperEntry(code); }
    if 97 <= code <= 122 { LowerEntry(code); }
  }

  predicate IsExtended(c: char) {
    c == '^' || c == '{' || c == '}' || c == '\\' || c == '[' || c == '~' || c == ']' || c == '|' || c == '€'
  }

  /** The characters behind the escape, the euro sign among them, are the ones that cost two septets. */
  lemma ExtendedCharactersCostTwo(c: char)
    ensures Cost(Gsm7, c) == (if IsExtended(c) then 2 else 1)
    ensures IsExtended(c) ==> IsGsm(c)
  {
    assert EXTENDED[0] == '^' && EXTENDED[1] == '{' && EXTENDED[2] == '}' && EXTENDED[3] == '\\';
    assert EXTENDED[4] == '[' && EXTENDED[5] == '~' && EXTENDED[6] == ']' && EXTENDED[7] == '|' && EXTENDED[8] == '€';
  }

  // ---- Typing never makes a message cheaper ----

  lemma SegmentsForGrows(a: nat, b: nat, single: nat, part: nat)
    requires a <= b && 0 < part <= single
    ensures 1 <= SegmentsFor(a, single, part) <= SegmentsFor(b, single, part)
  {
    var k := SegmentsFor(b, single, part);
    if b > single {
      CeilDivIsLeast(b, part, k);
      CeilDivIsLeast(a, part, k);
      CeilDivIsLeast(b, part, 0);
    }
    if a > single {
      CeilDivIsLeast(a, part, 0);
    }
  }

  /** Falling back from GSM-7 to UCS-2 with one more character never needs fewer segments. */
  lemma FallbackGrows(septets: nat, length: nat)
    requires septets <= 2 * length
    ensures 1 <= SegmentsFor(septets, GSM_SINGLE, GSM_PART) <= SegmentsFor(length + 1, UCS2_SINGLE, UCS2_PART)
  {
    if septets > GSM_SINGLE {
      var k := CeilDiv(length + 1, UCS2_PART);
      CeilDivIsLeast(length + 1, UCS2_PART, k);
      CeilDivIsLeast(septets, GSM_PART, k);
      CeilDivIsLeast(septets, GSM_PART, 0);
    } else {
      SegmentsForGrows(length + 1, length + 1, UCS2_SINGLE, UCS2_PART);
    }
  }

  lemma InsertedText(before: string, c: char, after: string)
    ensures Length(Gsm7, before + [c] + after) >= Length(Gsm7, before + after)
    ensures IsGsmText(before + [c] + after) <==> IsGsmText(before + after) && IsGsm(c)
  {
    hide IsGsm, Cost;
    LengthConcat(Gsm7, before + [c], after);
    LengthConcat(Gsm7, before, [c]);
    LengthConcat(Gsm7, before, after);
    var long, short := before + [c] + after, before + after;
    assert long[|before|] == c;
    assert forall i :: 0 <= i < |before| ==> long[i] == short[i];
    assert forall i :: |before| <= i < |short| ==> long[i + 1] == short[i];
    assert forall i :: |before| < i < |long| ==> long[i] == short[i - 1];
  }

  /** Inserting a character anywhere never lowers the number of segments, even when it changes the encoding. */
  lemma InsertingNeverLowers(before: string, c: char, after: string)
    ensures EstimateSegments(before + after).segments <= EstimateSegments(before + [c] + after).segments
  {
    hide IsGsm, Length, IsGsmText, SegmentsFor;
    var long, short := before + [c] + after, before + after;
    InsertedText(before, c, after);
    LengthBounds(Gsm7, short);
    FallbackGrows(Length(Gsm7, short), |short|);
    SegmentsForGrows(Length(Gsm7, short), Length(Gsm7, long), GSM_SINGLE, GSM_PART);
    SegmentsForGrows(|short|, |long|, UCS2_SINGLE, UCS2_PART);
  }

  // ---- Real splits of a GSM-7 text ----

  function Flatten(parts: seq<string>): string {
    if parts == [] then [] else parts[0] + Flatten(parts[1..])
  }

  /** A way to send the text in parts: every part fits and no escape pair is cut. */
  ghost predicate IsSplit(e: Encoding, parts: seq<string>, text: string) {
    && Flatten(parts) == text
    && forall i :: 0 <= i < |parts| ==> Length(e, parts[i]) <= Part(e)
  }

  /** The length of the longest prefix that fits in the remaining budget. */
  function Fit(e: Encoding, text: string, budget: nat): (n: nat)
    ensures n <= |text|
    ensures Length(e, text[..n]) <= budget
    ensures n < |text| ==> Length(e, text[..n]) + Cost(e, text[n]) > budget
  {
    if text == [] || Cost(e, text[0]) > budget then
      0
    else
      var n := Fit(e, text[1..], budget - Cost(e, text[0]));
      assert text[..n + 1][1..] == text[1..][..n];
      n + 1
  }

  /** Filling every part as far as it goes. */
  function Greedy(e: Encoding, text: string): (parts: seq<string>)
    ensures Flatten(parts) == text
    ensures forall i :: 0 <= i < |parts| ==> Length(e, parts[i]) <= Part(e)
    decreases |text|
  {
    if text == [] then []
    else
      var n := Fit(e, text, Part(e));
      assert n > 0 by { assert Length(e, text[..0]) == 0; }
      assert text[..n] + text[n..] == text;
      var rest := Greedy(e, text[n..]);
      assert ([text[..n]] + rest)[1..] == rest;
      [text[..n]] + rest
  }

  lemma {:induction false} SplitLength(e: Encoding, parts: seq<string>)
    requires forall i :: 0 <= i < |parts| ==> Length(e, parts[i]) <= Part(e)
    ensures Length(e, Flatten(parts)) <= Part(e) * |parts|
  {
    if parts != [] {
      SplitLength(e, parts[1..]);
      LengthConcat(e, parts[0], Flatten(parts[1..]));
    }
  }

  /** No real split has fewer parts than the estimate. */
  lemma EstimateIsLowerBound(text: string, parts: seq<string>)
    requires IsGsmText(text) && Length(Gsm7, text) > GSM_SINGLE && IsSplit(Gsm7, parts, text)
    ensures EstimateSegments(text).segments <= |parts|
  {
    hide IsGsmText;
    SplitLength(Gsm7, parts);
    CeilDivIsLeast(Length(Gsm7, text), GSM_PART, |parts|);
  }

  /** Only the last part of the greedy split can hold fewer than 152 septets. */
  lemma {:induction false} GreedyUpperBound(e: Encoding, text: string)
    ensures |Greedy(e, text)| <= CeilDiv(Length(e, text), Part(e) - 1)
    decreases |text|
  {
    if text != [] {
      var n := Fit(e, text, Part(e));
      LengthBounds(e, text[..n]);
      assert n > 0 by { assert Length(e, text[..0]) == 0; }
      GreedyUpperBound(e, text[n..]);
      assert text[..n] + text[n..] == text;
      LengthConcat(e, text[..n], text[n..]);
      var rest := CeilDiv(Length(e, text[n..]), Part(e) - 1);
      var all := CeilDiv(Length(e, text), Part(e) - 1);
      CeilDivIsLeast(Length(e, text), Part(e) - 1, all);
      if n == |text| {
        assert text[n..] == [];
      } else {
        assert all > 0;
        CeilDivIsLeast(Length(e, text[n..]), Part(e) - 1, all - 1);
      }
    }
  }

  lemma {:induction false} FitIsLongest(e: Encoding, text: string, budget: nat, k: nat)
    requires k <= |text| && Length(e, text[..k]) <= budget
    ensures k <= Fit(e, text, budget)
  {
    if k > 0 {
      assert text[..k][1..] == text[1..][..k - 1];
      FitIsLongest(e, text[1..], budget - Cost(e, text[0]), k - 1);
    }
  }

  lemma GreedyUnfolds(e: Encoding, text: string)
    requires text != []
    ensures var n := Fit(e, text, Part(e)); 0 < n && |Greedy(e, text)| == 1 + |Greedy(e, text[n..])|
  {
    assert Fit(e, text, Part(e)) > 0 by { assert Length(e, text[..0]) == 0; }
  }

  /** Starting later, the greedy part reaches at least as far. */
  lemma FitReachesAsFar(e: Encoding, text: string, k: nat)
    requires k <= Fit(e, text, Part(e))
    ensures Fit(e, text, Part(e)) - k <= Fit(e, text[k..], Part(e))
  {
    hide Fit, Cost, Length;
    var n := Fit(e, text, Part(e));
    assert text[..n] == text[..k] + text[k..][..n - k];
    LengthConcat(e, text[..k], text[k..][..n - k]);
    FitIsLongest(e, text[k..], Part(e), n - k);
  }

  /** Having less text left never needs more greedy parts. */
  lemma {:induction false} GreedyShrinks(e: Encoding, text: string, k: nat)
    requires k <= |text|
    ensures |Greedy(e, text[k..])| <= |Greedy(e, text)|
    decreases |text|
  {
    hide Greedy, Fit, Cost, Length;
    var rest := text[k..];
    if rest == [] {
      assert |Greedy(e, [])| == 0 by { EmptyGreedy(e); }
    } else {
      var n, m := Fit(e, text, Part(e)), Fit(e, rest, Part(e));
      GreedyUnfolds(e, text);
      GreedyUnfolds(e, rest);
      if n <= k {
        assert text[n..][k - n..] == rest;
        GreedyShrinks(e, text[n..], k - n);
      } else {
        FitReachesAsFar(e, text, k);
        assert text[n..][k + m - n..] == rest[m..];
        GreedyShrinks(e, text[n..], k + m - n);
      }
    }
  }

  lemma EmptyGreedy(e: Encoding)
    ensures Greedy(e, []) == []
  {
  }

  /** The greedy split has the fewest parts of all splits. */
  lemma {:induction false} GreedyIsBest(e: Encoding, text: string, parts: seq<string>)
    requires IsSplit(e, parts, text)
    ensures |Greedy(e, text)| <= |parts|
    decreases |parts|
  {
    hide Greedy, Fit, Cost, Length;
    if text == [] {
      EmptyGreedy(e);
    } else {
      var k, n := |parts[0]|, Fit(e, text, Part(e));
      GreedyUnfolds(e, text);
      assert text[..k] == parts[0] && text[k..] == Flatten(parts[1..]);
      FitIsLongest(e, text, Part(e), k);
      GreedyIsBest(e, text[k..], parts[1..]);
      assert text[k..][n - k..] == text[n..];
      GreedyShrinks(e, text[k..], n - k);
    }
  }

  /**
   * For a GSM-7 text too long for one message, the estimate is at most the number of parts it can
   * really be sent in, and that number is at most the length in septets over 152, rounded up.
   */
  lemma EstimateBracketsTheBestSplit(text: string)
    requires IsGsmText(text) && Length(Gsm7, text) > GSM_SINGLE
    ensures IsSplit(Gsm7, Greedy(Gsm7, text), text)
    ensures forall parts :: IsSplit(Gsm7, parts, text) ==> |Greedy(Gsm7, text)| <= |parts|
    ensures EstimateSegments(text).segments <= |Greedy(Gsm7, text)| <= CeilDiv(Length(Gsm7, text), GSM_PART - 1)
  {
    hide IsGsmText, Greedy;
    forall parts | IsSplit(Gsm7, parts, text) ensures |Greedy(Gsm7, text)| <= |parts| {
      GreedyIsBest(Gsm7, text, parts);
    }
    EstimateIsLowerBound(text, Greedy(Gsm7, text));
    GreedyUpperBound(Gsm7, text);
  }

  // ---- Exactly when the GSM-7 estimate is right ----

  /** How many greedy parts but the last close one septet short, because an escape pair did not fit any more. */
  function ShortParts(e: Encoding, text: string): nat
    decreases |text|
  {
    var n := Fit(e, text, Part(e));
    if n == 0 || n == |text| then 0
    else (if Length(e, text[..n]) < Part(e) && Cost(e, text[n]) == 2 then 1 else 0) + ShortParts(e, text[n..])
  }

  /** The septets in the last greedy part. */
  function LastPart(e: Encoding, text: string): nat
    decreases |text|
  {
    var n := Fit(e, text, Part(e));
    if n == 0 || n == |text| then Length(e, text) else LastPart(e, text[n..])
  }

  lemma {:induction false} GreedyAccounting(e: Encoding, text: string)
    requires text != []
    ensures Length(e, text) + ShortParts(e, text) == Part(e) * (|Greedy(e, text)| - 1) + LastPart(e, text)
    ensures 1 <= LastPart(e, text) <= Part(e) && ShortParts(e, text) <= |Greedy(e, text)| - 1
    decreases |text|
  {
    var n := Fit(e, text, Part(e));
    GreedyUnfolds(e, text);
    LengthBounds(e, text);
    assert text[..n] + text[n..] == text;
    LengthConcat(e, text[..n], text[n..]);
    if n == |text| {
      EmptyGreedy(e);
      assert text[n..] == [] && text[..n] == text;
    } else {
      GreedyAccounting(e, text[n..]);
    }
    hide Fit, Greedy;
  }

  /**
   * The estimate of a GSM-7 text too long for one message is the number of parts it needs exactly when
   * fewer parts close one septet short for an escape pair than the last part holds septets.
   */
  lemma EstimateIsExactCondition(text: string)
    requires IsGsmText(text) && Length(Gsm7, text) > GSM_SINGLE
    ensures EstimateSegments(text).segments == |Greedy(Gsm7, text)| <==> ShortParts(Gsm7, text) < LastPart(Gsm7, text)
  {
    hide IsGsmText, Fit, Greedy, ShortParts, LastPart;
    GreedyAccounting(Gsm7, text);
    var k := |Greedy(Gsm7, text)|;
    CeilDivIsLeast(Length(Gsm7, text), GSM_PART, k);
    if k > 0 { CeilDivIsLeast(Length(Gsm7, text), GSM_PART, k - 1); }
  }

  lemma {:induction false} PlainParts(text: string)
    requires forall i :: 0 <= i < |text| ==> text[i] !in EXTENDED
    ensures ShortParts(Gsm7, text) == 0 && Length(Gsm7, text) == |text|
    decreases |text|
  {
    if text != [] {
      var n := Fit(Gsm7, text, GSM_PART);
      PlainParts(text[1..]);
      if 0 < n < |text| {
        PlainParts(text[..n]);
        PlainParts(text[n..]);
      }
    }
    hide Fit, IsGsm;
  }

  /** Without escaped characters the estimate is the number of parts needed. */
  lemma PlainEstimateIsExact(text: string)
    requires IsGsmText(text) && Length(Gsm7, text) > GSM_SINGLE
    requires forall i :: 0 <= i < |text| ==> text[i] !in EXTENDED
    ensures EstimateSegments(text).segments == |Greedy(Gsm7, text)| == CeilDiv(|text|, GSM_PART)
  {
    PlainParts(text);
    GreedyAccounting(Gsm7, text);
    EstimateIsExactCondition(text);
    hide Greedy, ShortParts, LastPart, Fit, IsGsmText;
  }

  predicate AllExtended(text: string) {
    forall i :: 0 <= i < |text| ==> text[i] in EXTENDED
  }

  lemma {:induction false} ExtendedSeptets(text: string)
    requires AllExtended(text)
    ensures Length(Gsm7, text) == 2 * |text|
  {
    if text != [] { ExtendedSeptets(text[1..]); }
  }

  lemma {:induction false} ExtendedSplit(parts: seq<string>)
    requires AllExtended(Flatten(parts)) && forall i :: 0 <= i < |parts| ==> Length(Gsm7, parts[i]) <= GSM_PART
    ensures |Flatten(parts)| <= 76 * |parts|
  {
    if parts != [] {
      var rest := Flatten(parts[1..]);
      var whole := parts[0] + rest;
      assert forall i :: 0 <= i < |parts[0]| ==> whole[i] == parts[0][i];
      assert forall i :: 0 <= i < |rest| ==> whole[|parts[0]| + i] == rest[i];
      ExtendedSeptets(parts[0]);
      ExtendedSplit(parts[1..]);
    }
  }

  /** The estimate can be too low: 153 escaped characters are estimated as two parts and need three. */
  lemma EstimateCanBeTooLow(text: string, parts: seq<string>)
    requires AllExtended(text) && |text| == 153 && IsSplit(Gsm7, parts, text)
    ensures EstimateSegments(text).segments == 2 && |parts| >= 3
  {
    ExtendedSeptets(text);
    ExtendedSplit(parts);
    assert IsGsmText(text);
  }

  // ---- UCS-2 counts code points ----

  lemma {:induction false} UnitsBounds(text: string)
    ensures |text| <= Length(Ucs2, text)
    ensures (forall i :: 0 <= i < |text| ==> text[i] as int < 0x1_0000) <==> Length(Ucs2, text) == |text|
    ensures (forall i :: 0 <= i < |text| ==> text[i] as int >= 0x1_0000) ==> Length(Ucs2, text) == 2 * |text|
  {
    if text != [] {
      UnitsBounds(text[1..]);
      assert text == [text[0]] + text[1..];
    }
  }

  /**
   * UCS-2 segments are counted in 16-bit units; the estimate counts code points. It is never above the
   * count in units, and agrees with it for every text inside the basic plane.
   */
  lemma UcsEstimateCountsCodePoints(text: string)
    requires text != [] && !IsGsmText(text)
    ensures EstimateSegments(text).segments <= SegmentsFor(Length(Ucs2, text), UCS2_SINGLE, UCS2_PART)
    ensures (forall i :: 0 <= i < |text| ==> text[i] as int < 0x1_0000)
      ==> EstimateSegments(text).segments == SegmentsFor(Length(Ucs2, text), UCS2_SINGLE, UCS2_PART)
  {
    hide IsGsmText;
    UnitsBounds(text);
    SegmentsForGrows(|text|, Length(Ucs2, text), UCS2_SINGLE, UCS2_PART);
  }

  /**
   * The UCS-2 estimate equals the count in units exactly when all units fit one message, or when the
   * text is estimated as several and the extra units fit the room left in the last of them.
   */
  lemma UcsEstimateIsExactCondition(text: string)
    requires text != [] && !IsGsmText(text)
    ensures EstimateSegments(text).segments == SegmentsFor(Length(Ucs2, text), UCS2_SINGLE, UCS2_PART) <==>
      Length(Ucs2, text) <= UCS2_SINGLE ||
        (|text| > UCS2_SINGLE && Length(Ucs2, text) <= UCS2_PART * CeilDiv(|text|, UCS2_PART))
  {
    hide IsGsmText, Length;
    UnitsBounds(text);
    UcsEstimateCountsCodePoints(text);
    var n, u := |text|, Length(Ucs2, text);
    CeilDivIsLeast(u, UCS2_PART, CeilDiv(n, UCS2_PART));
    CeilDivIsLeast(u, UCS2_PART, 1);
  }

  /**
   * A UCS-2 text too long for one message, cut without splitting a surrogate pair: the estimate and the
   * count in units are both at most the fewest parts, which the greedy split reaches.
   */
  lemma UcsEstimateBracketsTheBestSplit(text: string)
    requires !IsGsmText(text) && Length(Ucs2, text) > UCS2_SINGLE
    ensures IsSplit(Ucs2, Greedy(Ucs2, text), text)
    ensures forall parts :: IsSplit(Ucs2, parts, text) ==> |Greedy(Ucs2, text)| <= |parts|
    ensures EstimateSegments(text).segments <= SegmentsFor(Length(Ucs2, text), UCS2_SINGLE, UCS2_PART)
      <= |Greedy(Ucs2, text)| <= CeilDiv(Length(Ucs2, text), UCS2_PART - 1)
  {
    assert text != [];
    hide IsGsmText, Greedy, Length, Cost, EstimateSegments, CeilDiv, Flatten;
    forall parts | IsSplit(Ucs2, parts, text) ensures |Greedy(Ucs2, text)| <= |parts| {
      GreedyIsBest(Ucs2, text, parts);
    }
    UcsEstimateCountsCodePoints(text);
    SplitLength(Ucs2, Greedy(Ucs2, text));
    CeilDivIsLeast(Length(Ucs2, text), UCS2_PART, |Greedy(Ucs2, text)|);
    GreedyUpperBound(Ucs2, text);
  }

  /**
   * The estimate of such a text is the number of parts it needs exactly when it is itself too long for one
   * message in code points, and its pairs and its short parts together are fewer than the last part's units.
   */
  lemma UcsEstimateIsExactForParts(text: string)
    requires !IsGsmText(text) && Length(Ucs2, text) > UCS2_SINGLE
    ensures EstimateSegments(text).segments == |Greedy(Ucs2, text)| <==>
      |text| > UCS2_SINGLE && Length(Ucs2, text) - |text| + ShortParts(Ucs2, text) < LastPart(Ucs2, text)
  {
    hide IsGsmText, Fit, Greedy, ShortParts, LastPart, Cost;
    GreedyAccounting(Ucs2, text);
    UnitsBounds(text);
    UcsEstimateBracketsTheBestSplit(text);
    var k := |Greedy(Ucs2, text)|;
    CeilDivIsLeast(|text|, UCS2_PART, k);
    if k > 0 { CeilDivIsLeast(|text|, UCS2_PART, k - 1); }
    CeilDivIsLeast(Length(Ucs2, text), UCS2_PART, 1);
  }

  predicate AllOutside(text: string) {
    forall i :: 0 <= i < |text| ==> text[i] as int >= 0x1_0000
  }

  lemma {:induction false} OutsideSplit(parts: seq<string>)
    requires AllOutside(Flatten(parts)) && forall i :: 0 <= i < |parts| ==> Length(Ucs2, parts[i]) <= UCS2_PART
    ensures |Flatten(parts)| <= 33 * |parts|
  {
    if parts != [] {
      var rest := Flatten(parts[1..]);
      var whole := parts[0] + rest;
      assert forall i :: 0 <= i < |parts[0]| ==> whole[i] == parts[0][i];
      assert forall i :: 0 <= i < |rest| ==> whole[|parts[0]| + i] == rest[i];
      UnitsBounds(parts[0]);
      OutsideSplit(parts[1..]);
    }
  }

  /** Whole pairs can need more parts than even the count in units: 67 pairs are 134 units, but three parts. */
  lemma UnitCountCanBeTooLow(text: string, parts: seq<string>)
    requires AllOutside(text) && |text| == 67 && IsSplit(Ucs2, parts, text)
    ensures SegmentsFor(Length(Ucs2, text), UCS2_SINGLE, UCS2_PART) == 2 && |parts| >= 3
  {
    UnitsBounds(text);
    OutsideSplit(parts);
  }

  /** Seventy characters outside the basic plane are estimated as one segment and fill three. */
  lemma UcsEstimateCanBeTooLow(text: string)
    requires |text| == 70 && forall i :: 0 <= i < |text| ==> text[i] as int >= 0x1_0000
    ensures EstimateSegments(text).segments == 1 && SegmentsFor(Length(Ucs2, text), UCS2_SINGLE, UCS2_PART) == 3
  {
    hide IsGsm;
    UnitsBounds(text);
    OutsideIsNotGsm(text[0]);
    assert !IsGsmText(text);
  }

  lemma OutsideIsNotGsm(c: char)
    requires c as int >= 0x1_0000
    ensures !IsGsm(c)
  {
    hide IsGsm;
    if IsGsm(c) { BasicPlaneOnly(c); }
  }

  predicate BasicPlane(text: string) {
    forall i :: 0 <= i < |text| ==> text[i] as int < 0x1_0000
  }

  lemma FirstRowsAreBasicPlane()
    ensures BasicPlane(ROW_0) && BasicPlane(ROW_1) && BasicPlane(ROW_2) && BasicPlane(ROW_3)
  {
  }

  lemma LastRowsAreBasicPlane()
    ensures BasicPlane(ROW_4) && BasicPlane(ROW_5) && BasicPlane(ROW_6) && BasicPlane(ROW_7)
    ensures BasicPlane(EXTENDED)
  {
  }

  lemma MemberOfRows(c: char, a0: string, a1: string, a2: string, a3: string, a4: string, a5: string, a6: string,
                     a7: string)
    requires BasicPlane(a0) && BasicPlane(a1) && BasicPlane(a2) && BasicPlane(a3)
    requires BasicPlane(a4) && BasicPlane(a5) && BasicPlane(a6) && BasicPlane(a7)
    requires c in a0 + a1 + a2 + a3 + a4 + a5 + a6 + a7
    ensures c as int < 0x1_0000
  {
  }

  lemma BasicPlaneOnly(c: char)
    requires IsGsm(c)
    ensures c as int < 0x1_0000
  {
    FirstRowsAreBasicPlane();
    LastRowsAreBasicPlane();
    if c in BASIC {
      MemberOfRows(c, ROW_0, ROW_1, ROW_2, ROW_3, ROW_4, ROW_5, ROW_6, ROW_7);
    }
  }
}
