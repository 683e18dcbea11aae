/** The `Code` value type: the four coloured pins of a secret or a guess. */
module Codes {
  import opened JavaLang

  /** The pin colours; the enumeration itself is not part of this model,
      these are the constants the service is seen to use. */
  datatype ColoredPin = Red | Green | Blue | Yellow

  /** Every code has exactly this many pins. */
  const CODE_LENGTH := 4

  /** The immutable pin list a `Code` holds. Structural equality of Dafny
      values is the list equality the source delegates to. */
  type Code = pins: seq<ColoredPin> | |pins| == CODE_LENGTH witness [Red, Red, Red, Red]

  /** The four-argument constructor: pin `i` is the `i`-th argument, and any
      other index is out of range. */
  function NewCode(pin0: ColoredPin, pin1: ColoredPin, pin2: ColoredPin, pin3: ColoredPin): (c: Code)
    ensures NumberOfPins(c) == CODE_LENGTH
    ensures GetPin(c, 0) == Some(pin0) && GetPin(c, 1) == Some(pin1)
    ensures GetPin(c, 2) == Some(pin2) && GetPin(c, 3) == Some(pin3)
    ensures forall i :: !(0 <= i < CODE_LENGTH) ==> GetPin(c, i) == None
  {
    [pin0, pin1, pin2, pin3]
  }

  function NumberOfPins(c: Code): (n: nat)
    ensures n == CODE_LENGTH
  {
    |c|
  }

  /** `getPin`: `None` stands for the `IndexOutOfBoundsException` of the
      underlying list. */
  function GetPin(c: Code, index: int): (r: Option<ColoredPin>)
    ensures r.Some? <==> 0 <= index < NumberOfPins(c)
    ensures r.Some? ==> r.value == c[index]
  {
    if 0 <= index < |c| then Some(c[index]) else None
  }

  /** The argument of `equals(Object)`: null, a `Code`, or an object of any
      other class (a subclass of `Code` included, since the class is compared
      exactly). */
  datatype JavaObject = Null | CodeObject(code: Code) | OtherObject

  /** `equals`: true exactly for a `Code` whose pins agree position by
      position; never for null or another class. */
  function Equals(c: Code, obj: JavaObject): (r: bool)
    ensures r <==> obj.CodeObject? && forall i :: 0 <= i < CODE_LENGTH ==> c[i] == obj.code[i]
  {
    match obj
    case Null => false
    case OtherObject => false
    case CodeObject(other) => c == other
  }

  /** `equals` is an equivalence relation on codes. */
  lemma EqualsIsEquivalence(a: Code, b: Code, c: Code)
    ensures Equals(a, CodeObject(a))
    ensures Equals(a, CodeObject(b)) <==> Equals(b, CodeObject(a))
    ensures Equals(a, CodeObject(b)) && Equals(b, CodeObject(c)) ==> Equals(a, CodeObject(c))
  {
  }

  /** `List.hashCode`: start from 1 and fold `31 * h + hash(pin)` over the
      list in order, in 32-bit arithmetic. The hash of an enum constant is its
      identity hash, which only the running JVM knows, so it is a parameter. */
  function ListHash(pins: seq<ColoredPin>, pinHash: ColoredPin -> int32): int32
  {
    if pins == [] then 1
    else Wrap32(31 * (ListHash(pins[..|pins| - 1], pinHash) as int) + (pinHash(pins[|pins| - 1]) as int))
  }

  /** `hashCode`: the hash of the pin list, which is the documented
      `List.hashCode` polynomial 31^4 + 31^3*h0 + 31^2*h1 + 31*h2 + h3 of the
      pin hashes, reduced to 32 bits. */
  function HashCode(c: Code, pinHash: ColoredPin -> int32): (h: int32)
    ensures h == Wrap32(923521 + 29791 * (pinHash(c[0]) as int) + 961 * (pinHash(c[1]) as int)
                        + 31 * (pinHash(c[2]) as int) + (pinHash(c[3]) as int))
  {
    HashCodePolynomial(c, pinHash);
    ListHash(c, pinHash)
  }

  /** Equal codes have equal hash codes. */
  lemma EqualCodesHashEqually(a: Code, b: Code, pinHash: ColoredPin -> int32)
    requires Equals(a, CodeObject(b))
    ensures HashCode(a, pinHash) == HashCode(b, pinHash)
  {
  }

  /** Appending a pin: one more step of the hash loop. */
  lemma ListHashSnoc(pins: seq<ColoredPin>, x: ColoredPin, pinHash: ColoredPin -> int32)
    ensures ListHash(pins + [x], pinHash) == Wrap32(31 * (ListHash(pins, pinHash) as int) + (pinHash(x) as int))
  {
    assert (pins + [x])[..|pins|] == pins;
  }

  /** If the hash of `pins` is the exact value `e` wrapped, then the hash of
      one more pin is the exact next loop value wrapped. */
  lemma ListHashSnocExact(pins: seq<ColoredPin>, x: ColoredPin, e: int, pinHash: ColoredPin -> int32)
    requires ListHash(pins, pinHash) == Wrap32(e)
    ensures ListHash(pins + [x], pinHash) == Wrap32(31 * e + (pinHash(x) as int))
  {
    ListHashSnoc(pins, x, pinHash);
    WrapMulAdd(e, 31, pinHash(x) as int);
  }

  /** The fold, overflowing at every step, is the polynomial
      31^4 + 31^3*h0 + 31^2*h1 + 31*h2 + h3 reduced to 32 bits once. */
  lemma HashCodePolynomial(c: Code, pinHash: ColoredPin -> int32)
    ensures ListHash(c, pinHash) == Wrap32(923521 + 29791 * (pinHash(c[0]) as int) + 961 * (pinHash(c[1]) as int)
                                           + 31 * (pinHash(c[2]) as int) + (pinHash(c[3]) as int))
  {
    var h0, h1, h2, h3 := pinHash(c[0]) as int, pinHash(c[1]) as int, pinHash(c[2]) as int, pinHash(c[3]) as int;
    assert ListHash([], pinHash) == Wrap32(1);
    ListHashSnocExact([], c[0], 1, pinHash);
    assert [] + [c[0]] == [c[0]];
    ListHashSnocExact([c[0]], c[1], 31 + h0, pinHash);
    assert [c[0]] + [c[1]] == [c[0], c[1]];
    ListHashSnocExact([c[0], c[1]], c[2], 961 + 31 * h0 + h1, pinHash);
    assert [c[0], c[1]] + [c[2]] == [c[0], c[1], c[2]];
    ListHashSnocExact([c[0], c[1], c[2]], c[3], 29791 + 961 * h0 + 31 * h1 + h2, pinHash);
    assert [c[0], c[1], c[2]] + [c[3]] == c;
  }

  /** The name a pin prints as (the enum constant's name). */
  function PinName(p: ColoredPin): string
  {
    match p
    case Red => "RED"
    case Green => "GREEN"
    case Blue => "BLUE"
    case Yellow => "YELLOW"
  }

  function PinNames(pins: seq<ColoredPin>): (names: seq<string>)
    ensures |names| == |pins|
  {
    if pins == [] then [] else [PinName(pins[0])] + PinNames(pins[1..])
  }

  /** `StringJoiner` without prefix and suffix: the parts with `sep` between
      consecutive ones. */
  function Join(parts: seq<string>, sep: string): string
  {
    if |parts| == 0 then ""
    else if |parts| == 1 then parts[0]
    else parts[0] + sep + Join(parts[1..], sep)
  }

  const PREFIX := "[Code: "
  const SEPARATOR := ", "
  const SUFFIX := "]"

  /** `toString`: "[Code: ", the pin names in order separated by ", ", "]".
      The text reads back as the same code, so no information is lost. */
  function ToString(c: Code): (s: string)
    ensures ParseCode(s) == Some(c)
  {
    ParsePrinted(c);
    PREFIX + Join(PinNames(c), SEPARATOR) + SUFFIX
  }

  // ---- Reading a printed code back: the inverse of ToString ----

  /** `s` with the prefix `p` removed, if `s` starts with `p`. */
  function StripPrefix(s: string, p: string): (r: Option<string>)
    ensures r.Some? ==> s == p + r.value
  {
    if |p| <= |s| && s[..|p|] == p then Some(s[|p|..]) else None
  }

  /** A pin name at the start of `s`, and what follows it. */
  function ReadPin(s: string): Option<(ColoredPin, string)>
  {
    if StripPrefix(s, "RED").Some? then Some((Red, s[3..]))
    else if StripPrefix(s, "GREEN").Some? then Some((Green, s[5..]))
    else if StripPrefix(s, "BLUE").Some? then Some((Blue, s[4..]))
    else if StripPrefix(s, "YELLOW").Some? then Some((Yellow, s[6..]))
    else None
  }

  /** `n >= 1` pin names separated by `SEPARATOR` at the start of `s`. */
  function ReadPins(s: string, n: nat): Option<(seq<ColoredPin>, string)>
    requires n >= 1
  {
    match ReadPin(s)
    case None => None
    case Some((p, rest)) =>
      if n == 1 then Some(([p], rest))
      else match StripPrefix(rest, SEPARATOR)
        case None => None
        case Some(rest') =>
          match ReadPins(rest', n - 1)
          case None => None
          case Some((ps, tail)) => Some(([p] + ps, tail))
  }

  /** Parses the text `ToString` produces. */
  function ParseCode(s: string): Option<Code>
  {
    match StripPrefix(s, PREFIX)
    case None => None
    case Some(body) =>
      match ReadPins(body, CODE_LENGTH)
      case None => None
      case Some((pins, tail)) => if tail == SUFFIX && |pins| == CODE_LENGTH then Some(pins) else None
  }

  lemma StripPrefixOf(p: string, rest: string)
    ensures StripPrefix(p + rest, p) == Some(rest)
  {
    assert (p + rest)[..|p|] == p;
    assert (p + rest)[|p|..] == rest;
  }

  lemma ReadPinName(p: ColoredPin, rest: string)
    ensures ReadPin(PinName(p) + rest) == Some((p, rest))
  {
    var s := PinName(p) + rest;
    assert s[..|PinName(p)|] == PinName(p);
    assert s[|PinName(p)|..] == rest;
    assert s[0] == PinName(p)[0];
    match p
    case Red =>
    case Green => assert StripPrefix(s, "RED") == None;
    case Blue => assert StripPrefix(s, "RED") == None && StripPrefix(s, "GREEN") == None;
    case Yellow =>
      assert StripPrefix(s, "RED") == None && StripPrefix(s, "GREEN") == None && StripPrefix(s, "BLUE") == None;
  }

  /** Joining two or more parts: the first part, the separator, the rest. */
  lemma JoinCons(parts: seq<string>, sep: string, rest: string)
    requires |parts| >= 2
    ensures Join(parts, sep) + rest == parts[0] + (sep + (Join(parts[1..], sep) + rest))
  {
    var a, b := parts[0], Join(parts[1..], sep);
    assert Join(parts, sep) == a + sep + b;
    assert (a + sep + b) + rest == a + (sep + (b + rest));
  }

  lemma PinNamesTail(pins: seq<ColoredPin>)
    requires |pins| >= 1
    ensures PinNames(pins)[0] == PinName(pins[0])
    ensures PinNames(pins)[1..] == PinNames(pins[1..])
  {
  }

  /** The last name: `ReadPins` with one name to go. */
  lemma ReadLastPin(s: string, p: ColoredPin, rest: string)
    requires s == PinName(p) + rest
    ensures ReadPins(s, 1) == Some(([p], rest))
  {
    ReadPinName(p, rest);
  }

  /** One step of `ReadPins`: a name, the separator, then the other names. */
  lemma ReadNextPin(s: string, n: nat, p: ColoredPin, afterSep: string, ps: seq<ColoredPin>, tail: string)
    requires n >= 2
    requires s == PinName(p) + (SEPARATOR + afterSep)
    requires ReadPins(afterSep, n - 1) == Some((ps, tail))
    ensures ReadPins(s, n) == Some(([p] + ps, tail))
  {
    ReadPinName(p, SEPARATOR + afterSep);
    StripPrefixOf(SEPARATOR, afterSep);
  }

  lemma {:induction false} ReadJoinedPins(pins: seq<ColoredPin>, rest: string)
    requires |pins| >= 1
    ensures ReadPins(Join(PinNames(pins), SEPARATOR) + rest, |pins|) == Some((pins, rest))
  {
    PinNamesTail(pins);
    if |pins| == 1 {
      ReadLastPin(Join(PinNames(pins), SEPARATOR) + rest, pins[0], rest);
      assert pins == [pins[0]];
    } else {
      ReadJoinedPins(pins[1..], rest);
      ReadJoinedStep(pins, rest);
    }
  }

  lemma ReadJoinedStep(pins: seq<ColoredPin>, rest: string)
    requires |pins| >= 2
    requires ReadPins(Join(PinNames(pins[1..]), SEPARATOR) + rest, |pins| - 1) == Some((pins[1..], rest))
    ensures ReadPins(Join(PinNames(pins), SEPARATOR) + rest, |pins|) == Some((pins, rest))
  {
    PinNamesTail(pins);
    JoinCons(PinNames(pins), SEPARATOR, rest);
    ReadNextPin(Join(PinNames(pins), SEPARATOR) + rest, |pins|, pins[0],
                Join(PinNames(pins[1..]), SEPARATOR) + rest, pins[1..], rest);
    assert [pins[0]] + pins[1..] == pins;
  }

  /** Reading back a printed code gives the code. */
  lemma ParsePrinted(c: Code)
    ensures ParseCode(PREFIX + Join(PinNames(c), SEPARATOR) + SUFFIX) == Some(c)
  {
    var body := Join(PinNames(c), SEPARATOR) + SUFFIX;
    assert PREFIX + Join(PinNames(c), SEPARATOR) + SUFFIX == PREFIX + body;
    StripPrefixOf(PREFIX, body);
    ReadJoinedPins(c, SUFFIX);
  }

  /** So distinct codes print differently. */
  lemma ToStringInjective(a: Code, b: Code)
    requires ToString(a) == ToString(b)
    ensures a == b
  {
    assert ParseCode(ToString(a)) == Some(a);
  }
}
