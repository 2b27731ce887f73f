/**
 * The message vocabulary of src/classes/Scales.ts and `processScalesData`,
 * which turns one message of the scale into a reading.
 *
 * The source recognises a frame with one unanchored regular expression with
 * named groups. Here that expression is an explicit tokenizer (`MatchAt`)
 * tried at every position from the left (`Exec`), and its language is given
 * independently by `Render`, which renders a frame from its fields: a frame
 * matches at a position exactly when the text there is some valid frame
 * rendered.
 */
module ScalesData {
  import opened Wrappers
  import opened Text

  datatype MessageHeader = StableWeight | StableCount | UnstableData | Over

  /** The string value of each `MessageHeader` member: always one of the pattern's header alternatives. */
  function HeaderCode(h: MessageHeader): (code: string)
    ensures code in HeaderCodes
  {
    match h
    case StableWeight => "ST"
    case StableCount => "QT"
    case UnstableData => "US"
    case Over => "OL"
  }

  datatype MessageUnit = WeightKg | CountPcs | WeightPound | WeightOunce

  /**
   * The string value of each `MessageUnit` member. Every member but
   * `WeightOunce` is one of the pattern's unit alternatives.
   */
  function UnitCode(u: MessageUnit): (code: string)
    ensures |code| == 2
    ensures code in PatternUnits <==> u != WeightOunce
  {
    match u
    case WeightKg => "kg"
    case CountPcs => "PC"
    case WeightPound => "lb"
    case WeightOunce => "oz"
  }

  type OperandType = c: char | c == '+' || c == '-' witness '+'

  /**
   * A decoded message. `unit` is the unit text the pattern captured, which
   * the source casts to `MessageUnit` without a check; `value` is the weight
   * in signed hundredths.
   */
  datatype MessageData = MessageData(header: MessageHeader, unit: string, value: int, operand: OperandType)

  /** The header alternatives of the pattern: `ST|QT|US|OL`. */
  const HeaderCodes: set<string> := {"ST", "QT", "US", "OL"}

  /** The unit alternatives of the pattern, as written: `kg|PC|lb|pz`. */
  const PatternUnits: set<string> := {"kg", "PC", "lb", "pz"}

  /** Every frame the pattern matches is this long. */
  const FrameLength: nat := 15

  predicate IsDigit(c: char)
  {
    '0' <= c <= '9'
  }

  predicate AllDigits(s: string)
  {
    forall i :: 0 <= i < |s| ==> IsDigit(s[i])
  }

  /** The number a digit character stands for. */
  function DigitValue(c: char): int
  {
    c as int - '0' as int
  }

  function Pow10(n: nat): (p: nat)
    ensures p >= 1
  {
    if n == 0 then 1 else 10 * Pow10(n - 1)
  }

  /** A string of decimal digits read as a number. */
  function DecimalValue(s: string): (n: nat)
    requires AllDigits(s)
    ensures n < Pow10(|s|)
  {
    if s == [] then 0
    else DecimalValue(s[..|s| - 1]) * 10 + DigitValue(s[|s| - 1])
  }

  /** Reading a digit string in two parts: the first part counts `10^|b|` times. */
  lemma {:induction false} DecimalValueConcat(a: string, b: string)
    requires AllDigits(a) && AllDigits(b)
    ensures AllDigits(a + b)
    ensures DecimalValue(a + b) == DecimalValue(a) * Pow10(|b|) + DecimalValue(b)
    decreases |b|
  {
    if b == [] {
      assert a + b == a;
    } else {
      var b' := b[..|b| - 1];
      var d := DigitValue(b[|b| - 1]);
      assert (a + b)[..|a + b| - 1] == a + b';
      DecimalValueConcat(a, b');
      var x, y, p := DecimalValue(a), DecimalValue(b'), Pow10(|b'|);
      assert DecimalValue(a + b) == (x * p + y) * 10 + d;
      ShiftByOneDigit(x, p, y, d);
    }
  }

  lemma ShiftByOneDigit(x: int, p: int, y: int, d: int)
    ensures (x * p + y) * 10 + d == x * (p * 10) + (y * 10 + d)
  {
  }

  /** The pieces of one frame as the scale sends it: `ST,+01234.50 kg`. */
  datatype Frame = Frame(header: string, operand: char, integral: string, fraction: string, separator: char, unit: string)

  /** The pieces the pattern admits. */
  predicate ValidFrame(f: Frame)
  {
    && f.header in HeaderCodes
    && (f.operand == '+' || f.operand == '-')
    && |f.integral| == 5 && AllDigits(f.integral)
    && |f.fraction| == 2 && AllDigits(f.fraction)
    && IsWhiteSpace(f.separator)
    && f.unit in PatternUnits
  }

  /** The text of a frame. */
  function Render(f: Frame): string
  {
    f.header + "," + [f.operand] + f.integral + "." + f.fraction + [f.separator] + f.unit
  }

  /** Where each piece of a valid frame sits in its text. */
  lemma RenderLayout(f: Frame)
    requires ValidFrame(f)
    ensures var r := Render(f);
      && |r| == FrameLength
      && r[..2] == f.header && r[2] == ',' && r[3] == f.operand
      && r[4..9] == f.integral && r[9] == '.' && r[10..12] == f.fraction
      && r[12] == f.separator && r[13..] == f.unit
  {
  }

  /** `t` holds the text of the valid frame `f` at position `i`. */
  predicate Occurs(t: string, i: int, f: Frame)
  {
    ValidFrame(f) && 0 <= i && i + FrameLength <= |t| && t[i..i + FrameLength] == Render(f)
  }

  predicate IsHeaderCode(a: char, b: char)
  {
    (a == 'S' && b == 'T') || (a == 'Q' && b == 'T') || (a == 'U' && b == 'S') || (a == 'O' && b == 'L')
  }

  predicate IsPatternUnit(a: char, b: char)
  {
    (a == 'k' && b == 'g') || (a == 'P' && b == 'C') || (a == 'l' && b == 'b') || (a == 'p' && b == 'z')
  }

  /** The two-character tests agree with the sets of alternatives. */
  lemma AlternativesByChar(a: char, b: char)
    ensures IsHeaderCode(a, b) <==> [a, b] in HeaderCodes
    ensures IsPatternUnit(a, b) <==> [a, b] in PatternUnits
  {
    assert "ST" == ['S', 'T'] && "QT" == ['Q', 'T'] && "US" == ['U', 'S'] && "OL" == ['O', 'L'];
    assert "kg" == ['k', 'g'] && "PC" == ['P', 'C'] && "lb" == ['l', 'b'] && "pz" == ['p', 'z'];
  }

  /** The fifteen characters from `i` on, cut at the frame's piece boundaries. */
  lemma FrameSlices(t: string, i: nat)
    requires i + FrameLength <= |t|
    ensures t[i..i + FrameLength]
      == t[i..i + 2] + [t[i + 2]] + [t[i + 3]] + t[i + 4..i + 9] + [t[i + 9]]
         + t[i + 10..i + 12] + [t[i + 12]] + t[i + 13..i + 15]
  {
  }

  /**
   * The pattern `(ST|QT|US|OL),([+\-])(\d{5}\.\d{2})\s(kg|PC|lb|pz)` tried at
   * position `i`, one token after the other. Returns the pieces it read.
   */
  function MatchAt(t: string, i: nat): (r: Option<Frame>)
    ensures r.Some? ==> Occurs(t, i, r.value)
  {
    if |t| < i + FrameLength then None
    else if !IsHeaderCode(t[i], t[i + 1]) then None
    else if t[i + 2] != ',' then None
    else if t[i + 3] != '+' && t[i + 3] != '-' then None
    else if !AllDigits(t[i + 4..i + 9]) || t[i + 9] != '.' || !AllDigits(t[i + 10..i + 12]) then None
    else if !IsWhiteSpace(t[i + 12]) then None
    else if !IsPatternUnit(t[i + 13], t[i + 14]) then None
    else
      var f := Frame(t[i..i + 2], t[i + 3], t[i + 4..i + 9], t[i + 10..i + 12], t[i + 12], t[i + 13..i + 15]);
      FrameSlices(t, i);
      AlternativesByChar(t[i], t[i + 1]);
      AlternativesByChar(t[i + 13], t[i + 14]);
      assert t[i..i + 2] == [t[i], t[i + 1]] && t[i + 13..i + 15] == [t[i + 13], t[i + 14]];
      Some(f)
  }

  /** A piece of the fifteen characters from `i` on is a piece of the text. */
  lemma WindowSlice(t: string, i: nat, a: nat, b: nat)
    requires a <= b <= FrameLength && i + FrameLength <= |t|
    ensures t[i..i + FrameLength][a..b] == t[i + a..i + b]
  {
    var w := t[i..i + FrameLength];
    assert forall k :: 0 <= k < b - a ==> w[a..b][k] == t[i + a + k];
  }

  /** A valid frame's text is read back by the tokenizer, piece for piece. */
  lemma MatchAtComplete(t: string, i: nat, f: Frame)
    requires Occurs(t, i, f)
    ensures MatchAt(t, i) == Some(f)
  {
    var w := t[i..i + FrameLength];
    RenderLayout(f);
    WindowSlice(t, i, 0, 2);
    WindowSlice(t, i, 4, 9);
    WindowSlice(t, i, 10, 12);
    WindowSlice(t, i, 13, 15);
    assert w[13..] == w[13..15];
    AlternativesByChar(t[i], t[i + 1]);
    AlternativesByChar(t[i + 13], t[i + 14]);
    assert t[i..i + 2] == [t[i], t[i + 1]] && t[i + 13..i + 15] == [t[i + 13], t[i + 14]];
  }

  /** Parsing undoes rendering, whatever surrounds the frame. */
  lemma ParseRender(before: string, f: Frame, after: string)
    requires ValidFrame(f)
    ensures MatchAt(before + Render(f) + after, |before|) == Some(f)
  {
    var t := before + Render(f) + after;
    RenderLayout(f);
    assert t[|before|..|before| + FrameLength] == Render(f);
    MatchAtComplete(t, |before|, f);
  }

  /** No frame starts before `i` in `t`, and one does at `i`. */
  ghost predicate Leftmost(t: string, i: int, f: Frame)
  {
    Occurs(t, i, f) && forall j, g :: 0 <= j < i ==> !Occurs(t, j, g)
  }

  /** Where a match of the pattern starts, and the pieces it captured. */
  datatype RegExMatch = RegExMatch(index: nat, frame: Frame)

  /** `t.match(pattern)` for the unanchored pattern: the first position from `from` where it matches. */
  function Exec(t: string, from: nat): (r: Option<RegExMatch>)
    ensures r.Some? ==> from <= r.value.index && MatchAt(t, r.value.index) == Some(r.value.frame)
    decreases |t| - from
  {
    if |t| < from + FrameLength then None
    else
      match MatchAt(t, from)
      case Some(f) => Some(RegExMatch(from, f))
      case None => Exec(t, from + 1)
  }

  /** The search skips only positions where the pattern fails, and fails only where it fails everywhere. */
  lemma {:induction false} ExecLeftmost(t: string, from: nat)
    ensures var r := Exec(t, from);
      && (r.Some? ==> forall j :: from <= j < r.value.index ==> MatchAt(t, j).None?)
      && (r.None? ==> forall j :: from <= j ==> MatchAt(t, j).None?)
    decreases |t| - from
  {
    if |t| >= from + FrameLength && MatchAt(t, from).None? {
      ExecLeftmost(t, from + 1);
    }
  }

  /** The enum member a matched header stands for (the source's unchecked cast). */
  function HeaderOfCode(code: string): (h: MessageHeader)
    requires code in HeaderCodes
    ensures HeaderCode(h) == code
  {
    if code == "ST" then StableWeight
    else if code == "QT" then StableCount
    else if code == "US" then UnstableData
    else Over
  }

  /** `Number(v)` on a value group `ddddd.dd`, in hundredths: exact, as the group has two decimals. */
  function NumberInHundredths(v: string): (n: nat)
    requires |v| == 8 && AllDigits(v[..5]) && v[5] == '.' && AllDigits(v[6..])
    ensures n <= 9999999
  {
    DecimalValue(v[..5]) * 100 + DecimalValue(v[6..])
  }

  /** The `value` group of a match: the digits with the decimal point. */
  function ValueGroup(f: Frame): (v: string)
    requires ValidFrame(f)
    ensures |v| == 8 && v[..5] == f.integral && v[5] == '.' && v[6..] == f.fraction
  {
    var v := f.integral + "." + f.fraction;
    assert v[..5] == f.integral && v[6..] == f.fraction;
    v
  }

  /** Reading `ddddd.dd` in hundredths is reading the seven digits with the point dropped. */
  lemma NumberOfValueGroup(f: Frame)
    requires ValidFrame(f)
    ensures AllDigits(f.integral + f.fraction)
    ensures NumberInHundredths(ValueGroup(f)) == DecimalValue(f.integral + f.fraction)
  {
    DecimalValueConcat(f.integral, f.fraction);
    assert Pow10(|f.fraction|) == 100;
  }

  /** Where the tokenizer fails, no frame starts. */
  lemma NoFrameWithoutMatch(t: string, i: nat)
    requires MatchAt(t, i).None?
    ensures forall f :: !Occurs(t, i, f)
  {
    forall f | Occurs(t, i, f) ensures false {
      MatchAtComplete(t, i, f);
    }
  }

  /** `d` is the reading the valid frame `f` stands for: its hundredths are the seven digits with the point dropped. */
  predicate Denotes(f: Frame, d: MessageData)
  {
    && HeaderCode(d.header) == f.header
    && d.unit == f.unit
    && d.operand == f.operand
    && AllDigits(f.integral + f.fraction)
    && d.value == (if f.operand == '-' then -1 else 1) * DecimalValue(f.integral + f.fraction)
  }

  /**
   * The conversion of a match's groups into a reading: the header and unit
   * taken as they are, the value read with `Number` and negated for `-`.
   */
  function ConvertGroups(groups: Frame): (d: MessageData)
    requires ValidFrame(groups)
    ensures Denotes(groups, d)
    ensures d.unit in PatternUnits && -9999999 <= d.value <= 9999999
    ensures (d.value < 0 ==> d.operand == '-') && (d.value > 0 ==> d.operand == '+')
  {
    var value: int := NumberInHundredths(ValueGroup(groups));
    NumberOfValueGroup(groups);
    MessageData(HeaderOfCode(groups.header), groups.unit,
                if groups.operand == '-' then -value else value, groups.operand)
  }

  /**
   * `processScalesData`: trims the message, looks for the leftmost frame in
   * it and converts the captured groups. The value carries the sign of the
   * operand and never exceeds 99999.99 in magnitude.
   */
  function ProcessScalesData(sourceMessage: string): (r: Option<MessageData>)
    ensures r.Some? ==> r.value.unit in PatternUnits
    ensures r.Some? ==> -9999999 <= r.value.value <= 9999999
    ensures r.Some? ==> (r.value.value < 0 ==> r.value.operand == '-') && (r.value.value > 0 ==> r.value.operand == '+')
  {
    match Exec(Trim(sourceMessage), 0)
    case None => None
    case Some(m) => Some(ConvertGroups(m.frame))
  }

  /**
   * A message decodes exactly when its trimmed text holds a frame somewhere,
   * and then the reading is the one the leftmost frame stands for.
   */
  lemma ProcessScalesDataSpec(sourceMessage: string)
    ensures var t, r := Trim(sourceMessage), ProcessScalesData(sourceMessage);
      && (r.None? <==> forall i, f :: !Occurs(t, i, f))
      && (r.Some? ==> exists i, f :: Leftmost(t, i, f) && Denotes(f, r.value))
  {
    var t, r := Trim(sourceMessage), ProcessScalesData(sourceMessage);
    var m := Exec(t, 0);
    ExecLeftmost(t, 0);
    var end := if m.Some? then m.value.index else |t|;
    forall i: nat, f | i < end ensures !Occurs(t, i, f) {
      NoFrameWithoutMatch(t, i);
    }
    if m.Some? {
      var f := m.value.frame;
      assert Denotes(f, r.value);
      assert Leftmost(t, m.value.index, f);
    } else {
      forall i, f ensures !Occurs(t, i, f) {
        if 0 <= i {
          NoFrameWithoutMatch(t, i);
        }
      }
    }
  }

  /**
   * A whole message that is exactly one valid frame decodes to the reading of
   * that frame, written out field by field.
   */
  lemma DecodeOneFrame(f: Frame)
    requires ValidFrame(f)
    ensures AllDigits(f.integral + f.fraction)
    ensures ProcessScalesData(Render(f)) == Some(ConvertGroups(f))
    ensures ProcessScalesData(Render(f)) == Some(MessageData(HeaderOfCode(f.header), f.unit,
      (if f.operand == '-' then -1 else 1) * DecimalValue(f.integral + f.fraction), f.operand))
  {
    var t := Render(f);
    RenderLayout(f);
    HeaderStartsWithLetter(f.header);
    TrimUntouched(t);
    ParseRender([], f, []);
    assert [] + t + [] == t;
    NumberOfValueGroup(f);
  }

  /** No header alternative starts with whitespace, so `trim` leaves a frame at the start alone. */
  lemma HeaderStartsWithLetter(header: string)
    requires header in HeaderCodes
    ensures |header| == 2 && !IsWhiteSpace(header[0])
  {
  }

  /** A message of fifteen characters in which the tokenizer fails at the start has no reading. */
  lemma RejectFifteen(s: string)
    requires |s| == FrameLength && !IsWhiteSpace(s[0]) && !IsWhiteSpace(s[|s| - 1])
    requires MatchAt(s, 0).None?
    ensures ProcessScalesData(s).None?
  {
    TrimUntouched(s);
  }

  /** Two digits read positionally. */
  lemma TwoDigits(s: string)
    requires |s| == 2 && AllDigits(s)
    ensures DecimalValue(s) == DigitValue(s[0]) * 10 + DigitValue(s[1])
  {
    assert s[..1][..0] == [];
  }

  /** Five digits read positionally. */
  lemma FiveDigits(s: string)
    requires |s| == 5 && AllDigits(s)
    ensures DecimalValue(s) == DigitValue(s[0]) * 10000 + DigitValue(s[1]) * 1000 + DigitValue(s[2]) * 100
                               + DigitValue(s[3]) * 10 + DigitValue(s[4])
  {
    assert s[..4][..3] == s[..3];
    assert s[..3][..2] == s[..2];
    TwoDigits(s[..2]);
  }

  /** `ST,+01234.50 kg` is a stable weight of 1234.50 kg. */
  lemma DecodeStableWeight()
    ensures ProcessScalesData("ST,+01234.50 kg") == Some(MessageData(StableWeight, "kg", 123450, '+'))
  {
    var f := Frame("ST", '+', "01234", "50", ' ', "kg");
    assert Render(f) == "ST,+01234.50 kg";
    assert ValidFrame(f) && HeaderOfCode(f.header) == StableWeight;
    assert DecimalValue(f.integral + f.fraction) == 123450 by {
      NumberOfValueGroup(f);
      FiveDigits(f.integral);
      TwoDigits(f.fraction);
    }
    DecodeOneFrame(f);
  }

  /** `QT,-00012.30 PC` is a stable count of -12.30. */
  lemma DecodeNegativeCount()
    ensures ProcessScalesData("QT,-00012.30 PC") == Some(MessageData(StableCount, "PC", -1230, '-'))
  {
    var f := Frame("QT", '-', "00012", "30", ' ', "PC");
    assert Render(f) == "QT,-00012.30 PC";
    assert ValidFrame(f) && HeaderOfCode(f.header) == StableCount;
    assert DecimalValue(f.integral + f.fraction) == 1230 by {
      NumberOfValueGroup(f);
      FiveDigits(f.integral);
      TwoDigits(f.fraction);
    }
    DecodeOneFrame(f);
  }

  /** A trimmed message shorter than one frame never decodes. */
  lemma ShortMessageRejected(sourceMessage: string)
    requires |Trim(sourceMessage)| < FrameLength
    ensures ProcessScalesData(sourceMessage).None?
  {
  }

  /** An unknown header is rejected. */
  lemma RejectUnknownHeader()
    ensures ProcessScalesData("XX,+00001.00 kg").None?
  {
    var s := "XX,+00001.00 kg";
    assert !IsHeaderCode(s[0], s[1]);
    RejectFifteen(s);
  }

  /** A value without the fixed five-plus-two digit layout is rejected. */
  lemma RejectShortValue()
    ensures ProcessScalesData("ST,+1.5 kg").None?
  {
    TrimUntouched("ST,+1.5 kg");
    ShortMessageRejected("ST,+1.5 kg");
  }

  /** A reading in ounces, spelt `oz`, is rejected. */
  lemma RejectOunce()
    ensures ProcessScalesData("ST,+00001.00 oz").None?
  {
    var s := "ST,+00001.00 oz";
    assert !IsPatternUnit(s[13], s[14]);
    RejectFifteen(s);
  }

  /**
   * The pattern lists `pz` where the unit enum has `oz`: an ounce reading is
   * never produced, and a `pz` frame yields a unit outside the enum.
   */
  lemma OunceNeverDecoded(sourceMessage: string)
    ensures var r := ProcessScalesData(sourceMessage);
      r.Some? ==> r.value.unit != UnitCode(WeightOunce)
  {
    AlternativesByChar('o', 'z');
    assert UnitCode(WeightOunce) == ['o', 'z'];
  }

  /** A `pz` frame decodes, with a unit that no `MessageUnit` member has. */
  lemma PzOutsideUnitEnum()
    ensures var r := ProcessScalesData("ST,+00001.00 pz");
      r.Some? && r.value.unit == "pz" && forall u :: UnitCode(u) != r.value.unit
  {
    var f := Frame("ST", '+', "00001", "00", ' ', "pz");
    assert Render(f) == "ST,+00001.00 pz";
    assert ValidFrame(f);
    DecodeOneFrame(f);
    PzIsNoUnitCode();
  }

  lemma PzIsNoUnitCode()
    ensures forall u :: UnitCode(u) != "pz"
  {
    forall u ensures UnitCode(u) != "pz" {
      assert UnitCode(u)[0] != 'p';
    }
  }

}
